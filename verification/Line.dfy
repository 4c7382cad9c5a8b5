/** The integer line of fb.c; a pixel drawn is a pixel recorded. */
module Line {
  import opened Arithmetic

  type Int32 = x: int | -0x8000_0000 <= x < 0x8000_0000

  datatype Point = Point(x: int, y: int)

  function Abs(x: int): int { if x < 0 then -x else x }

  /** `h` rows from `y` in the direction of `d`. */
  function Row(y: int, d: int, h: int): int { if d > 0 then y + h else if d < 0 then y - h else y }

  /** Rows climbed before column `k` of a line over `dx` columns and `dy` rows: at most one per column. */
  function Climb(k: nat, dx: nat, dy: nat): nat
  {
    if dy <= dx then k * (dy + 1) / (dx + 1) else k
  }

  function Drawn(x0: int, y0: int, x1: int, y1: int): seq<Point>
  {
    if x0 == x1 then seq(if y0 <= y1 then y1 - y0 + 1 else 0, k requires 0 <= k => Point(x0, y0 + k))
    else if x0 > x1 then []
    else seq(x1 - x0 + 1, k requires 0 <= k => Point(x0 + k, Row(y0, y1 - y0, Climb(k, x1 - x0, Abs(y1 - y0)))))
  }

  /** floor(k * a / c) for a <= c grows by one exactly when the error term reaches c. */
  lemma FloorStep(k: nat, a: nat, c: nat, h: nat, error: nat)
    requires 0 < a <= c && k * a == h * c + error && error < c
    ensures h == k * a / c
    ensures (k + 1) * a == if error + a >= c then (h + 1) * c + (error + a - c) else h * c + (error + a)
    ensures (k + 1) * a / c == if error + a >= c then h + 1 else h
  {
    assert (k + 1) * a == k * a + a;
    assert (h + 1) * c == h * c + c;
    DivMod(k * a, c, h, error);
    if error + a >= c {
      DivMod((k + 1) * a, c, h + 1, error + a - c);
    } else {
      DivMod((k + 1) * a, c, h, error + a);
    }
  }

  /** The error term reaches this before it is cut back. On a steep line it only grows. */
  function MostError(dx: nat, dy: nat): int { (if dy <= dx then dx else dx * (dy - dx)) + dy + 1 }

  /** The row the pen ends on, one step after the last pixel included. */
  function LastRow(y0: int, d: int, dx: nat, dy: nat): int { Row(y0, d, if dy <= dx then dy + 1 else dx + 1) }

  /** No int of the loop over the columns overflows. */
  predicate NoOverflow(x1: int, y0: int, d: int, dx: nat, dy: nat)
  {
    x1 < 0x7FFF_FFFF && MostError(dx, dy) < 0x8000_0000 && -0x8000_0000 <= LastRow(y0, d, dx, dy) < 0x8000_0000
  }

  /** The column count, row count and error term of a line in progress belong together. */
  predicate OnTrack(k: int, h: int, error: int, dx: int, dy: int)
  {
    if dy <= dx then k * (dy + 1) == h * (dx + 1) + error && 0 <= error < dx + 1
    else h == k && error == k * (dy - dx)
  }

  /** One column further. */
  lemma Track(k: nat, h: nat, error: int, dx: nat, dy: nat)
    requires dx > 0 && k <= dx && OnTrack(k, h, error, dx, dy)
    ensures h == Climb(k, dx, dy) && 0 <= error && error + dy + 1 <= MostError(dx, dy)
    ensures if error + (dy + 1) >= dx + 1 then OnTrack(k + 1, h + 1, error + (dy + 1) - (dx + 1), dx, dy)
            else OnTrack(k + 1, h, error + (dy + 1), dx, dy)
  {
    if dy <= dx {
      FloorStep(k, dy + 1, dx + 1, h, error);
    } else {
      MulMonotone(0, k, dy - dx);
      MulMonotone(k, dx, dy - dx);
      assert (k + 1) * (dy - dx) == k * (dy - dx) + (dy - dx);
    }
  }

  lemma Cancel(a: int, b: int, c: int)
    requires c > 0 && a * c <= c * b
    ensures a <= b
  {
    if a > b {
      MulMonotone(b + 1, a, c);
    }
  }

  /** The rows stay on the near side of the last one. */
  lemma TrackRow(k: nat, h: nat, error: int, y0: int, d: int, dx: nat, dy: nat)
    requires k <= dx + 1 && OnTrack(k, h, error, dx, dy)
    ensures if d > 0 then y0 <= Row(y0, d, h) <= LastRow(y0, d, dx, dy)
            else if d < 0 then LastRow(y0, d, dx, dy) <= Row(y0, d, h) <= y0 else Row(y0, d, h) == y0
  {
    if dy <= dx {
      MulMonotone(k, dx + 1, dy + 1);
      Cancel(h, dy + 1, dx + 1);
    }
  }

  /** One turn of the loop: the pixel is where it should be, and nothing overflows on the way to the next. */
  lemma Advance(k: nat, h: nat, error: int, x1: int, y0: int, d: int, dx: nat, dy: nat) returns (h': nat)
    requires dx > 0 && k <= dx && h <= k && OnTrack(k, h, error, dx, dy) && NoOverflow(x1, y0, d, dx, dy)
    ensures h == Climb(k, dx, dy) && 0 <= error && error + (dy + 1) < 0x8000_0000
    ensures h' == (if error + (dy + 1) >= dx + 1 then h + 1 else h) <= k + 1
    ensures OnTrack(k + 1, h', if error + (dy + 1) >= dx + 1 then error + (dy + 1) - (dx + 1)
      else error + (dy + 1), dx, dy)
    ensures -0x8000_0000 <= y0 < 0x8000_0000 ==> -0x8000_0000 <= Row(y0, d, h') < 0x8000_0000
  {
    var error' := error + (dy + 1);
    Track(k, h, error, dx, dy);
    h' := if error' >= dx + 1 then h + 1 else h;
    TrackRow(k + 1, h', if error' >= dx + 1 then error' - (dx + 1) else error', y0, d, dx, dy);
  }

  class Canvas {
    var pixels: seq<Point>

    method Pixel(x: int, y: int)
      modifies this
      ensures pixels == old(pixels) + [Point(x, y)]
    {
      pixels := pixels + [Point(x, y)];
    }

    method Column(x: Int32, y0: Int32, y1: Int32)
      requires y1 < 0x7FFF_FFFF
      modifies this
      ensures pixels == old(pixels) + Drawn(x, y0, x, y1)
    {
      ghost var text := Drawn(x, y0, x, y1);
      var i: Int32 := y0;
      while i <= y1
        invariant y0 <= i && i - y0 <= |text| && pixels == old(pixels) + text[..i - y0]
        decreases y1 - i
      {
        assert text[..i + 1 - y0] == text[..i - y0] + [Point(x, i)];
        Pixel(x, i);
        i := i + 1;
      }
    }

    /** The loop over the columns. */
    method Slope(x0: Int32, y0: Int32, x1: Int32, deltax: Int32, deltay: Int32, diry: Int32, ghost text: seq<Point>)
      requires x0 < x1 && deltax == x1 - x0 && 0 <= deltay < 0x7FFF_FFFF && -1 <= diry <= 1
      requires NoOverflow(x1, y0, diry, deltax, deltay)
      requires |text| == deltax + 1
      requires forall k: nat | k <= deltax :: text[k] == Point(x0 + k, Row(y0, diry, Climb(k, deltax, deltay)))
      modifies this
      ensures pixels == old(pixels) + text
    {
      var error: Int32, deltaerr: Int32 := 0, deltay + 1;
      var y: Int32 := y0;
      var x: Int32 := x0;
      ghost var k: int, h: int := 0, 0;
      while x <= x1
        invariant k == x - x0 <= |text| && pixels == old(pixels) + text[..k]
        invariant 0 <= h <= k && OnTrack(k, h, error, deltax, deltay)
        invariant y == Row(y0, diry, h)
        decreases x1 - x
      {
        ghost var h' := Advance(k, h, error, x1, y0, diry, deltax, deltay);
        assert text[..k + 1] == text[..k] + [Point(x, y)];
        Pixel(x, y);
        error := error + deltaerr;
        if error >= deltax + 1 {
          y := y + diry;
          error := error - (deltax + 1);
        }
        x := x + 1;
        k, h := k + 1, h';
      }
    }

    method Line(x0: Int32, y0: Int32, x1: Int32, y1: Int32)
      requires if x0 == x1 then y1 < 0x7FFF_FFFF else Abs(x1 - x0) < 0x7FFF_FFFF && Abs(y1 - y0) < 0x7FFF_FFFF
      requires x0 < x1 ==> NoOverflow(x1, y0, y1 - y0, x1 - x0, Abs(y1 - y0))
      modifies this
      ensures pixels == old(pixels) + Drawn(x0, y0, x1, y1)
    {
      if x0 == x1 {
        Column(x0, y0, y1);
        return;
      }
      var deltax: Int32, deltay: Int32 := Abs(x1 - x0), Abs(y1 - y0);
      var diry: Int32 := y1 - y0;
      if diry > 0 {
        diry := 1;
      }
      if diry < 0 {
        diry := -1;
      }
      if x0 < x1 { // otherwise the loop does not run at all
        Slope(x0, y0, x1, deltax, deltay, diry, Drawn(x0, y0, x1, y1));
      }
    }
  }

  /** The remainder that goes with the floor. */
  lemma ClimbRemainder(k: nat, dx: nat, dy: nat) returns (e: nat)
    requires dy <= dx
    ensures k * (dy + 1) == Climb(k, dx, dy) * (dx + 1) + e && e <= dx
  {
    e := k * (dy + 1) % (dx + 1);
  }

  lemma ClimbEnds(dx: nat, dy: nat)
    requires dx > 0
    ensures Climb(0, dx, dy) == 0 && (Climb(dx, dx, dy) == dy <==> dy <= dx)
  {
    if dy <= dx {
      assert dx * (dy + 1) == dy * (dx + 1) + (dx - dy);
      DivMod(dx * (dy + 1), dx + 1, dy, dx - dy);
      DivMod(0, dx + 1, 0, 0);
    }
  }

  lemma ClimbStep(k: nat, dx: nat, dy: nat)
    requires dx > 0
    ensures 0 <= Climb(k + 1, dx, dy) - Climb(k, dx, dy) <= 1
  {
    if dy <= dx {
      var e := ClimbRemainder(k, dx, dy);
      FloorStep(k, dy + 1, dx + 1, Climb(k, dx, dy), e);
    }
  }

  /** A line from left to right has one pixel in every column and starts where it should; it ends where it
      should exactly when it is no taller than wide; it never moves more than a row at a time. */
  lemma LineShape(x0: int, y0: int, x1: int, y1: int)
    requires x0 < x1
    ensures var p := Drawn(x0, y0, x1, y1);
            && |p| == x1 - x0 + 1 && (forall k | 0 <= k < |p| :: p[k].x == x0 + k)
            && p[0] == Point(x0, y0)
            && (p[|p| - 1] == Point(x1, y1) <==> Abs(y1 - y0) <= x1 - x0)
            && (forall k | 0 < k < |p| :: Abs(p[k].y - p[k - 1].y) <= 1)
  {
    var p, dx, dy := Drawn(x0, y0, x1, y1), x1 - x0, Abs(y1 - y0);
    ClimbEnds(dx, dy);
    forall k | 0 < k < |p|
      ensures Abs(p[k].y - p[k - 1].y) <= 1
    {
      ClimbStep(k - 1, dx, dy);
    }
  }

  /** The row of every column: towards y1, floor(k * (dy + 1) / (dx + 1)) rows away, or k rows on a steep line. */
  lemma LineRow(x0: int, y0: int, x1: int, y1: int, k: nat)
    requires x0 < x1 && k <= x1 - x0
    ensures |Drawn(x0, y0, x1, y1)| == x1 - x0 + 1
    ensures var y := Drawn(x0, y0, x1, y1)[k].y;
            && (if y0 <= y1 then y0 <= y else y <= y0)
            && (if y0 <= y1 then y - y0 else y0 - y) ==
               if y1 - x1 > y0 - x0 || y0 - x1 > y1 - x0 then k
               else k * ((if y0 <= y1 then y1 - y0 else y0 - y1) + 1) / (x1 - x0 + 1)
  {
    DivMod(k, x1 - x0 + 1, 0, k);
  }

  /** A vertical line has one pixel in every row from y0 up to y1, and none if y1 is above; from right to left
      nothing is drawn. */
  lemma ColumnShape(x0: int, y0: int, x1: int, y1: int)
    ensures x0 == x1 && y0 <= y1 ==>
      |Drawn(x0, y0, x1, y1)| == y1 - y0 + 1 && forall y | y0 <= y <= y1 ::
        Drawn(x0, y0, x1, y1)[y - y0] == Point(x0, y)
    ensures x0 > x1 || (x0 == x1 && y0 > y1) ==> Drawn(x0, y0, x1, y1) == []
  {
    if x0 == x1 && y0 <= y1 {
      forall y | y0 <= y <= y1
        ensures Drawn(x0, y0, x1, y1)[y - y0] == Point(x0, y)
      {
        assert y0 + (y - y0) == y;
      }
    }
  }

  lemma Scaled(k: int, dx: int, dy: int, h: int, e: int)
    requires k * (dy + 1) == h * (dx + 1) + e
    ensures (h * dx - k * dy) * (dx + 1) == k * (dx - dy) - e * dx
  {
    assert (h * dx) * (dx + 1) == dx * (h * (dx + 1));
    assert dx * (k * (dy + 1)) == dx * (h * (dx + 1)) + dx * e;
    assert dx * (k * (dy + 1)) == k * dx * dy + k * dx;
    assert (k * dy) * (dx + 1) == k * dx * dy + k * dy;
  }

  lemma Products(k: int, d: int, e: int, dx: int)
    requires 0 <= k <= dx && 0 <= d <= dx && 0 <= e <= dx
    ensures 0 <= k * d <= dx * dx && 0 <= e * dx <= dx * dx
  {
    MulMonotone(0, k, d);
    MulMonotone(k, dx, d);
    MulMonotone(d, dx, dx);
    MulMonotone(0, e, dx);
    MulMonotone(e, dx, dx);
  }

  lemma Within(off: int, dx: int)
    requires 0 < dx && -(dx * dx) <= off * (dx + 1) <= dx * dx
    ensures Abs(off) < dx
  {
    assert dx * (dx + 1) == dx * dx + dx && (-dx) * (dx + 1) == -(dx * dx) - dx;
    if off >= dx {
      MulMonotone(dx, off, dx + 1);
    } else if off <= -dx {
      MulMonotone(off, -dx, dx + 1);
    }
  }

  /** A line no taller than wide is less than one row off the exact line in every column. */
  lemma LineClose(x0: int, y0: int, x1: int, y1: int, k: nat)
    requires x0 < x1 && Abs(y1 - y0) <= x1 - x0 && k <= x1 - x0
    ensures |Drawn(x0, y0, x1, y1)| == x1 - x0 + 1
    ensures Abs((Drawn(x0, y0, x1, y1)[k].y - y0) * (x1 - x0) - k * (y1 - y0)) < x1 - x0
  {
    ClimbClose(k, x1 - x0, Abs(y1 - y0));
  }

  lemma ClimbClose(k: nat, dx: nat, dy: nat)
    requires 0 < dx && dy <= dx && k <= dx
    ensures Abs(Climb(k, dx, dy) * dx - k * dy) < dx
  {
    var e := ClimbRemainder(k, dx, dy);
    Scaled(k, dx, dy, Climb(k, dx, dy), e);
    Products(k, dx - dy, e, dx);
    Within(Climb(k, dx, dy) * dx - k * dy, dx);
  }
}
