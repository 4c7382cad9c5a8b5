/** The 64-by-32 bit shift-and-subtract division of smplos_osl.c. Every intermediate value is assigned to a
    64-bit or 32-bit type, so none of them wraps. */
module Division {
  import opened Arithmetic
  import opened Words

  const TWO32: int := 0x1_0000_0000
  const TWO63: int := 0x8000_0000_0000_0000

  type Wide = x: int | 0 <= x < 0x1_0000_0000_0000_0000

  predicate PowerOfTwo(d: int)
  {
    d == 1 || (d > 1 && d % 2 == 0 && PowerOfTwo(d / 2))
  }

  /** The first step takes out the high word, so that what is left has a quotient below 2^32. */
  lemma ReduceHigh(n: Wide, base: Word)
    requires base > 0 && n / TWO32 >= base
    ensures var h := n / TWO32 / base;
            && 0 <= h * base <= n / TWO32 && (h * base) * TWO32 <= n
            && n == (h * TWO32) * base + (n - (h * base) * TWO32)
            && n - (h * base) * TWO32 < base * TWO32
  {
    var high := n / TWO32;
    var h := high / base;
    assert high == h * base + high % base;
    assert (high % base) * TWO32 + TWO32 <= base * TWO32;
    assert n == high * TWO32 + n % TWO32;
    assert (h * TWO32) * base == (h * base) * TWO32;
  }

  lemma Absorb(n: int, base: int, res: int, rem: int, b: int, d: int)
    requires base > 0 && n == res * base + rem && b == base * d && rem >= b && res >= 0 && d > 0
    ensures n == (res + d) * base + (rem - b) && res + d <= n
  {
    assert (res + d) * base == res * base + b;
    MulMonotone(1, base, res + d);
  }

  lemma Halve(base: int, b: int, d: int)
    requires base > 0 && b == base * d && PowerOfTwo(d)
    ensures if d == 1 then b == base && d / 2 == 0
      else d / 2 > 0 && b / 2 == base * (d / 2) && b == 2 * (b / 2) && PowerOfTwo(d / 2)
  {
    if d > 1 {
      assert b == 2 * (base * (d / 2));
    }
  }

  /** Double the divisor until it is not below the dividend, or its top bit is set. */
  method Scale(rem: Wide, base: Word) returns (b: Wide, d: Wide)
    requires base != 0
    ensures b == base * d && PowerOfTwo(d) && rem < 2 * b && d <= b
  {
    b, d := base, 1;
    while 0 < b < TWO63 && b < rem
      invariant 0 < d <= b && b == base * d && PowerOfTwo(d)
      decreases rem - b
    {
      assert base * (d + d) == b + b;
      b := b + b;
      d := d + d;
    }
  }

  /** Subtract and halve, down to the divisor itself. */
  method Subtract(n: Wide, base: Word, high: Wide, low: Wide, b0: Wide, d0: Wide) returns (res: Wide, rem: Wide)
    requires base != 0 && n == high * base + low
    requires b0 == base * d0 && PowerOfTwo(d0) && low < 2 * b0
    ensures n == res * base + rem && rem < base
  {
    res, rem := high, low;
    var b, d := b0, d0;
    var more := true;
    while more
      invariant d >= 0 && (more ==> b == base * d && PowerOfTwo(d) && rem as int < 2 * b as int)
      invariant !more ==> rem < base
      invariant n == res * base + rem
      decreases more, d
    {
      if rem >= b {
        Absorb(n, base, res, rem, b, d);
        rem := rem - b;
        res := res + d;
      }
      Halve(base, b, d);
      b := b / 2;
      d := d / 2;
      more := d != 0;
    }
  }

  method Div64By32(n: Wide, base: Word) returns (quotient: Wide, remainder: Word)
    requires base != 0
    ensures quotient == n / base && remainder == n % base
  {
    var rem, res: Wide := n, 0;
    var high: Word := rem / TWO32;
    if high >= base {
      ReduceHigh(n, base);
      high := high / base;
      res := high * TWO32;
      var product: Word := high * base;
      rem := rem - product * TWO32;
    }
    var b, d := Scale(rem, base);
    res, rem := Subtract(n, base, res, rem, b, d);
    DivMod(n, base, res, rem);
    quotient := res;
    remainder := rem;
  }
}
