/** The result stack of dswstate.c: objects in linked frames of fixed size. */
module ResultStack {
  import opened Words

  const FRAME: nat := 8         // ACPI_RESULTS_FRAME_OBJ_NUM
  const OBJ_NUM_MAX: nat := 255 // ACPI_RESULTS_OBJ_NUM_MAX

  datatype Status = Ok | Internal | NoReturnValue | NoOperand | StackOverflow | BadParameter

  type Frame<T> = seq<Option<T>>

  function Blank<T>(): Frame<T> { seq(8, i => None) }

  /** How many frames `n` objects take. */
  function Frames(n: nat): nat { (n + 7) / 8 }

  function Cell<T>(objects: seq<T>, i: nat): Option<T> { if i < |objects| then Some(objects[i]) else None }

  /** Frame number `f` of a stack of objects, the oldest frame first. */
  function FrameOf<T>(objects: seq<T>, f: nat): (r: Frame<T>)
    ensures |r| == 8 && forall i: nat | i < 8 :: r[i] == Cell(objects, 8 * f + i)
  {
    seq(8, i requires 0 <= i < 8 => Cell(objects, 8 * f + i))
  }

  function Layout<T>(objects: seq<T>): (r: seq<Frame<T>>)
    ensures |r| == Frames(|objects|) && forall f: nat | f < |r| :: r[f] == FrameOf(objects, f)
  {
    seq(Frames(|objects|), f requires 0 <= f => FrameOf(objects, f))
  }

  lemma FrameAway<T>(objects: seq<T>, x: T, f: nat)
    requires f != |objects| / 8
    ensures FrameOf(objects + [x], f) == FrameOf(objects, f)
  {
    forall i: nat | i < 8
      ensures FrameOf(objects + [x], f)[i] == FrameOf(objects, f)[i]
    {
      assert 8 * f + i != |objects|;
    }
  }

  /** One more object fills the next cell of the last frame, or the first of a new one. */
  lemma LayoutPush<T>(objects: seq<T>, x: T)
    ensures var k, was := |objects| / 8, Layout(objects);
            var frames := if |objects| % 8 == 0 then was + [Blank()] else was;
            k + 1 == |frames| && Layout(objects + [x]) == frames[k := frames[k][|objects| % 8 := Some(x)]]
  {
    var n, k := |objects|, |objects| / 8;
    var frames := if n % 8 == 0 then Layout(objects) + [Blank()] else Layout(objects);
    var last := frames[k][n % 8 := Some(x)];
    assert last == FrameOf(objects + [x], k) by {
      assert forall i: nat | i < 8 :: last[i] == Cell(objects + [x], 8 * k + i);
    }
    forall f: nat | f < k
      ensures Layout(objects + [x])[f] == frames[f]
    {
      FrameAway(objects, x, f);
    }
    assert |Layout(objects + [x])| == k + 1;
    assert Layout(objects + [x]) == frames[k := last];
  }

  /** Clearing the cell of the last object undoes it. */
  lemma LayoutPop<T>(objects: seq<T>, x: T)
    ensures var k, frames := |objects| / 8, Layout(objects + [x]);
            var cleared := frames[k := frames[k][|objects| % 8 := None]];
            k + 1 == |frames| && frames[k][|objects| % 8] == Some(x)
            && Layout(objects) == if |objects| % 8 == 0 then cleared[..k] else cleared
  {
    var n, k := |objects|, |objects| / 8;
    LayoutPush(objects, x);
    if n % 8 != 0 {
      var row := Layout(objects)[k];
      assert row == FrameOf(objects, k) && row[n % 8] == Cell(objects, 8 * k + n % 8) == None;
      assert row[n % 8 := Some(x)][n % 8 := None] == row;
    }
  }

  class Results<T> {
    var frames: seq<Frame<T>>  // the last one is WalkState->Results
    var resultCount: nat
    var resultSize: nat
    ghost var objects: seq<T>

    /** The frames hold the objects, one cell each, and there is no frame too many. */
    ghost predicate Valid()
      reads this
    {
      && resultCount == |objects| && resultSize == FRAME * |frames| && resultSize <= OBJ_NUM_MAX
      && frames == Layout(objects)
    }

    /** ... or there is one, without an object in it. */
    ghost predicate Extended()
      reads this
    {
      && resultCount == |objects| && |objects| % FRAME == 0 && resultSize == FRAME * |frames|
         && resultSize <= OBJ_NUM_MAX
      && frames == Layout(objects) + [Blank()]
    }

    constructor ()
      ensures Valid() && objects == []
    {
      frames, resultCount, resultSize, objects := [], 0, 0, [];
    }

    method StackPush() returns (status: Status)
      modifies this`frames, this`resultSize
      ensures if old(resultSize) + FRAME > OBJ_NUM_MAX
        then status == StackOverflow && frames == old(frames) && resultSize == old(resultSize)
        else status == Ok && frames == old(frames) + [Blank()] && resultSize == old(resultSize) + FRAME
    {
      if resultSize + FRAME > OBJ_NUM_MAX {
        return StackOverflow;
      }
      frames := frames + [Blank()];
      resultSize := resultSize + FRAME;
      return Ok;
    }

    method StackPop() returns (status: Status)
      modifies this`frames, this`resultSize
      ensures old(frames) == [] ==> status == NoOperand && frames == old(frames) && resultSize == old(resultSize)
      ensures old(frames) != [] && old(resultSize) < FRAME ==>
        status == Internal && frames == old(frames) && resultSize == old(resultSize)
      ensures old(frames) != [] && old(resultSize) >= FRAME ==>
        status == Ok && frames == old(frames)[..|old(frames)| - 1] && resultSize == old(resultSize) - FRAME
    {
      if frames == [] {
        return NoOperand;
      }
      if resultSize < FRAME {
        return Internal;
      }
      frames := frames[..|frames| - 1];
      resultSize := resultSize - FRAME;
      return Ok;
    }

    /** Pushing an object appends it; pushing null keeps the objects, but leaves an empty frame behind exactly
        when the last frame was full. */
    method Push(obj: Option<T>) returns (status: Status)
      requires Valid() || Extended()
      modifies this
      ensures status == StackOverflow <==> old(resultCount == resultSize) && old(resultSize) + FRAME > OBJ_NUM_MAX
      ensures old(Valid()) ==> (status == StackOverflow <==> |old(objects)| == 248)
      ensures status == StackOverflow ==> objects == old(objects) && frames == old(frames) && Valid() == old(Valid())
      ensures status != StackOverflow ==> status == if obj == None then BadParameter else Ok
      ensures status == Ok ==> Valid() && objects == old(objects) + [obj.value]
      ensures status == BadParameter ==>
        && objects == old(objects)
        && (if old(resultCount == resultSize) || old(Extended()) then Extended() else Valid())
    {
      if resultCount > resultSize {
        return Internal;
      } else if resultCount == resultSize {
        status := StackPush();
        if status != Ok {
          return;
        }
      }
      if !(resultCount < resultSize) {
        return Internal;
      }
      if frames == [] {
        return Internal;
      }
      if obj == None {
        return BadParameter;
      }
      LayoutPush(objects, obj.value);
      var index, top := resultCount % FRAME, |frames| - 1;
      frames := frames[top := frames[top][index := obj]];
      resultCount := resultCount + 1;
      objects := objects + [obj.value];
      return Ok;
    }

    /** Popping takes the last object off; an empty frame on top makes it lose an object instead. */
    method Pop() returns (status: Status, obj: Option<T>)
      requires Valid() || Extended()
      modifies this
      ensures old(Valid()) && old(objects) == [] ==> status == NoReturnValue && Valid() && objects == []
      ensures old(Valid()) && old(objects) != [] ==>
        && status == Ok && Valid() && objects == old(objects)[..|old(objects)| - 1]
        && obj == Some(old(objects)[|old(objects)| - 1])
      ensures !old(Valid()) && old(objects) == [] ==> status == Internal && Extended() && objects == []
      ensures !old(Valid()) && old(objects) != [] ==>
        status == NoReturnValue && obj == None && frames == old(frames) && resultCount == old(resultCount) - 1
    {
      obj := None;
      if frames != [] && resultCount == 0 {
        return Internal, None;
      }
      if frames == [] && resultCount != 0 {
        return Internal, None;
      }
      if frames == [] {
        return NoReturnValue, None;
      }
      resultCount := resultCount - 1;
      var index, top := resultCount % FRAME, |frames| - 1;
      obj := frames[top][index];
      if obj == None {
        return NoReturnValue, None;
      }
      ghost var rest, x := objects[..|objects| - 1], objects[|objects| - 1];
      assert objects == rest + [x];
      LayoutPop(rest, x);
      frames := frames[top := frames[top][index := None]];
      objects := rest;
      if index == 0 {
        status := StackPop();
        if status != Ok {
          return;
        }
      }
      return Ok, obj;
    }

    /** A pop after a push gives the object back and restores every field, across frame boundaries. */
    method PushPop(x: T) returns (r: Option<T>)
      requires Valid() && resultCount < 248
      modifies this
      ensures r == Some(x) && Valid() && objects == old(objects)
      ensures frames == old(frames) && resultCount == old(resultCount) && resultSize == old(resultSize)
    {
      var status := Push(Some(x));
      assert objects[..|objects| - 1] == old(objects);
      status, r := Pop();
    }
  }
}
