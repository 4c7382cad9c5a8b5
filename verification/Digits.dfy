/** strtoul.c against the digit loops of vsprintf.c. */
module Digits {
  import opened Arithmetic
  import opened Words

  const ULONG_MAX: int := 0xFFFF_FFFF
  const DS_SIZE: nat := 32 // char ds[32]
  const NUL: char := '\0'

  /** Positional values. */

  function Pow(b: nat, n: nat): nat { if n == 0 then 1 else b * Pow(b, n - 1) }

  function Dtoc(digit: nat): char
    requires digit < 16
  {
    "0123456789ABCDEF"[digit]
  }

  /** What strtoul reads a character as; 36 for one that is a digit in no base. */
  function DigitOf(c: char): (d: nat)
    ensures d <= 36
  {
    if '0' <= c <= '9' then c as nat - '0' as nat
    else if 'A' <= c <= 'Z' then c as nat - 'A' as nat + 10
    else if 'a' <= c <= 'z' then c as nat - 'a' as nat + 10
    else 36
  }

  lemma DtocDigit(digit: nat)
    requires digit < 16
    ensures DigitOf(Dtoc(digit)) == digit && Dtoc(digit) != NUL
  {
  }

  function Append(v: nat, base: nat, d: nat): nat { v * base + d }

  /** The number that a string of digits writes. */
  function Value(s: string, base: nat): (v: nat)
  {
    if s == [] then 0 else Append(Value(s[..|s| - 1], base), base, DigitOf(s[|s| - 1]))
  }

  /** The number in the given base, most significant digit first, without leading zeros. */
  function Written(n: nat, base: nat): (s: string)
    requires 2 <= base <= 16
    ensures s != []
    decreases n
  {
    Smaller(n, base);
    (if n < base then [] else Written(n / base, base)) + [Dtoc(n % base)]
  }

  lemma Smaller(n: nat, base: nat)
    requires 2 <= base
    ensures n % base < base && n / base <= n && (n >= base ==> 0 < n / base < n)
    ensures (n < base ==> n / base == 0 && n % base == n)
    ensures Append(n / base, base, n % base) == n
  {
    if n >= base {
      Quotient(n, base, n / base);
    }
  }

  lemma Quotient(n: nat, base: nat, q: nat)
    requires 2 <= base <= n && q == n / base
    ensures 0 < q < n
  {
    assert n == base * q + n % base;
    if q > 0 {
      assert base * q >= 2 * q;
    }
  }

  /** All characters of `s` are digits of the base. */
  ghost predicate Numeral(s: string, base: nat)
  {
    forall i | 0 <= i < |s| :: DigitOf(s[i]) < base && s[i] != NUL
  }

  lemma ValueStep(s: string, digit: nat, v: nat, base: nat)
    requires 2 <= base <= 16 && digit < base && Numeral(s, base) && Value(s, base) == v
    ensures Numeral(s + [Dtoc(digit)], base) && Value(s + [Dtoc(digit)], base) == Append(v, base, digit)
  {
    var t := s + [Dtoc(digit)];
    DtocDigit(digit);
    assert t[..|t| - 1] == s;
  }

  /** The digits that are written are read back as the number. */
  lemma {:induction false} WrittenValue(n: nat, base: nat)
    requires 2 <= base <= 16
    ensures Numeral(Written(n, base), base) && Value(Written(n, base), base) == n
    decreases n
  {
    Smaller(n, base);
    if n < base {
      ValueStep([], n % base, 0, base);
    } else {
      WrittenValue(n / base, base);
      ValueStep(Written(n / base, base), n % base, n / base, base);
    }
  }

  /** They are decimal digits and the capitals A to F, without leading zeros. */
  lemma {:induction false} WrittenShape(n: nat, base: nat)
    requires 2 <= base <= 16
    ensures forall i | 0 <= i < |Written(n, base)| ::
      '0' <= Written(n, base)[i] <= '9' || 'A' <= Written(n, base)[i] <= 'F'
    ensures Written(n, base)[0] == '0' <==> n == 0
    decreases n
  {
    Smaller(n, base);
    if n >= base {
      WrittenShape(n / base, base);
    }
  }

  lemma {:induction false} WrittenLength(n: nat, base: nat, k: nat)
    requires 2 <= base <= 16 && k > 0 && n < Pow(base, k)
    ensures |Written(n, base)| <= k
    decreases n
  {
    Smaller(n, base);
    if n >= base {
      PowStep(n, base, k);
      WrittenLength(n / base, base, k - 1);
    }
  }

  lemma PowStep(n: nat, base: nat, k: nat)
    requires 2 <= base <= n && k > 0 && n < Pow(base, k)
    ensures k > 1 && n / base < Pow(base, k - 1)
  {
    assert Pow(base, k) == base * Pow(base, k - 1);
    Quotients(n, base, Pow(base, k - 1));
  }

  lemma Quotients(n: nat, b: nat, p: nat)
    requires b > 0 && n < b * p
    ensures n / b < p
  {
    assert b * (n / b) <= n;
    assert b * (p - n / b) > 0;
  }

  /** `ds` holds the last `d` characters of `text`, backwards. */
  ghost predicate Backwards(ds: seq<char>, d: nat, text: string)
  {
    d <= |ds| && d <= |text| && forall i | 0 <= i < d :: ds[i] == text[|text| - 1 - i]
  }

  lemma LastDigit(text: string, m: nat, n: nat, base: nat, q: int, r: int)
    requires 2 <= base <= 16 && m <= |text| && text[..m] == Written(n, base) && q == n / base && r == n % base
    ensures 0 <= q <= n && (q != 0 ==> q < n)
    ensures m > 0 && 0 <= r < base && text[m - 1] == Dtoc(r)
    ensures if q == 0 then m == 1 else m > 1 && text[..m - 1] == Written(q, base)
  {
    Smaller(n, base);
    var high := if n < base then [] else Written(n / base, base);
    assert text[..m] == high + [Dtoc(n % base)] && |high| == m - 1;
    assert text[m - 1] == text[..m][m - 1];
    assert text[..m - 1] == text[..m][..m - 1] == high;
  }

  method NextDigit(arg: nat, base: nat, ghost text: string, ghost m: nat) returns (c: char, rest: nat)
    requires 2 <= base <= 16 && m <= |text| && text[..m] == Written(arg, base)
    ensures rest <= arg && (rest != 0 ==> rest < arg)
    ensures m > 0 && c == text[m - 1]
    ensures if rest == 0 then m == 1 else m > 1 && text[..m - 1] == Written(rest, base)
  {
    var q, r := arg / base, arg % base;
    LastDigit(text, m, arg, base, q, r);
    c, rest := Dtoc(r), q;
  }

  /** The first loop: digits come out least significant first. */
  method CollectDigits(number: nat, base: nat, ds: array<char>) returns (d: nat)
    requires 2 <= base <= 16 && |Written(number, base)| <= ds.Length
    modifies ds
    ensures d == |Written(number, base)| && Backwards(ds[..], d, Written(number, base))
  {
    ghost var text := Written(number, base);
    d := 0;
    var arg: nat := number;
    var more := true;
    while more
      invariant d <= |text| && Backwards(ds[..], d, text)
      invariant if more then d < |text| && Written(arg, base) == text[..|text| - d] else d == |text|
      decreases more, arg
    {
      ds[d], arg := NextDigit(arg, base, text, |text| - d);
      d := d + 1;
      more := arg != 0;
    }
  }

  /** The second loop: they go into the buffer most significant first. */
  method EmitDigits(ds: array<char>, d: nat, ghost text: string, buf: array<char>, at: nat) returns (end: nat)
    requires d == |text| && Backwards(ds[..], d, text) && at + d <= buf.Length && ds != buf
    modifies buf
    ensures end == at + d && buf[..] == old(buf[..at]) + text + old(buf[at + d..])
  {
    ghost var was := buf[..];
    end := at;
    var i := d - 1;
    while i >= 0
      invariant -1 <= i < d && end == at + d - 1 - i
      invariant forall j | 0 <= j < buf.Length :: buf[j] == if at <= j < end then text[j - at] else was[j]
    {
      buf[end] := ds[i];
      end := end + 1;
      i := i - 1;
    }
  }

  /** A digit loop of %u, %x, %p or %b; `ds` has room for every digit. */
  method PrintDigits(number: nat, base: nat, buf: array<char>, at: nat) returns (end: nat)
    requires 2 <= base <= 16 && number < Pow(base, DS_SIZE)
    requires at + |Written(number, base)| <= buf.Length
    modifies buf
    ensures end == at + |Written(number, base)|
    ensures buf[..] == old(buf[..at]) + Written(number, base) + old(buf[at + |Written(number, base)|..])
  {
    WrittenLength(number, base, DS_SIZE);
    var ds := new char[DS_SIZE];
    var d := CollectDigits(number, base, ds);
    end := EmitDigits(ds, d, Written(number, base), buf, at);
  }

  /** strtoul. A string ends where its NUL would be. */

  function At(s: string, i: nat): char { if i < |s| then s[i] else NUL }

  predicate IsSpace(c: char) { c == ' ' || c == '\n' || c == '\t' || c == '\U{B}' || c == '\U{C}' || c == '\r' }

  function AfterSpaces(s: string, i: nat): (r: nat)
    requires i <= |s|
    ensures i <= r <= |s| && !IsSpace(At(s, r))
    decreases |s| - i
  {
    if IsSpace(At(s, i)) then AfterSpaces(s, i + 1) else i
  }

  /** A digit of the base; above 36 the base adds none. */
  predicate IsDigit(c: char, base: nat) { DigitOf(c) < 36 && DigitOf(c) < base }

  /** The end of the digits that start at `i`. */
  function AfterDigits(s: string, i: nat, base: nat): (r: nat)
    requires i <= |s|
    ensures i <= r <= |s|
    decreases |s| - i
  {
    if i < |s| && IsDigit(s[i], base) then AfterDigits(s, i + 1, base) else i
  }

  /** Where the number begins, after spaces and a sign. */
  function NumberStart(s: string): (j: nat)
    ensures j <= |s|
  {
    var i := AfterSpaces(s, 0);
    if At(s, i) == '-' || At(s, i) == '+' then i + 1 else i
  }

  predicate Negative(s: string) { At(s, AfterSpaces(s, 0)) == '-' }

  predicate HexPrefix(s: string, j: nat, base: nat)
  {
    (base == 0 || base == 16) && At(s, j) == '0' && (At(s, j + 1) == 'x' || At(s, j + 1) == 'X')
  }

  /** The value and the end of the number whose digits start at `start`; the end is 0 if it has none. */
  function Number(s: string, start: nat, base: nat): (r: (Word, nat))
    requires start <= |s|
  {
    var stop := AfterDigits(s, start, base);
    var v := Value(s[start..stop], base);
    (if v > ULONG_MAX then ULONG_MAX else if Negative(s) then (ULONG_MAX + 1 - v) % (ULONG_MAX + 1) else v,
     if stop > start then stop else 0)
  }

  function Radix(s: string, j: nat, base: nat): nat
  {
    if base != 0 then base else if At(s, j) == '0' then 8 else 10
  }

  /** What the code computes: an `0x` is skipped whatever follows it. */
  function Parsed(s: string, base: nat): (Word, nat)
  {
    var j := NumberStart(s);
    if HexPrefix(s, j, base) then Number(s, j + 2, 16) else Number(s, j, Radix(s, j, base))
  }

  /** Section 7.20.1.4 of ISO C99: an `0x` belongs to the number only if a hexadecimal digit follows. */
  function Standard(s: string, base: nat): (Word, nat)
    requires base == 0 || 2 <= base <= 36
  {
    var j := NumberStart(s);
    if HexPrefix(s, j, base) && DigitOf(At(s, j + 2)) < 16 then Number(s, j + 2, 16)
      else Number(s, j, Radix(s, j, base))
  }

  lemma NoDigits(s: string, start: nat, base: nat)
    requires start <= |s| && !IsDigit(At(s, start), base)
    ensures Number(s, start, base) == (0, 0)
  {
    assert s[start..start] == [];
  }

  lemma LoneDigit(s: string, j: nat, base: nat)
    requires j < |s| && base >= 1 && s[j] == '0' && !IsDigit(At(s, j + 1), base)
    ensures Number(s, j, base) == (0, j + 1)
  {
    assert AfterDigits(s, j + 1, base) == j + 1;
    assert s[j..j + 1] == ['0'] && s[j..j + 1][..0] == [];
    assert Value(s[j..j + 1], base) == Append(0, base, 0);
  }

  /** The two differ exactly on an `0x` that no hexadecimal digit follows: both give 0, but strtoul reports
      that it has read nothing where the standard has it read the 0. */
  lemma StandardExceptBarePrefix(s: string, base: nat)
    requires base == 0 || 2 <= base <= 36
    ensures Parsed(s, base) == Standard(s, base)
      <==> !(HexPrefix(s, NumberStart(s), base) && DigitOf(At(s, NumberStart(s) + 2)) >= 16)
    ensures Parsed(s, base).0 == Standard(s, base).0
  {
    var j := NumberStart(s);
    if HexPrefix(s, j, base) && DigitOf(At(s, j + 2)) >= 16 {
      LoneDigit(s, j, Radix(s, j, base));
      NoDigits(s, j + 2, 16);
    }
  }

  /** The overflow test of the loop, for a digit of the base. */
  lemma Overflow(acc: nat, base: nat, c: nat)
    requires base >= 1 && c < base && acc <= ULONG_MAX
    ensures (acc > ULONG_MAX / base || (acc == ULONG_MAX / base && c > ULONG_MAX % base))
      <==> Append(acc, base, c) > ULONG_MAX
  {
    var cutoff := ULONG_MAX / base;
    assert ULONG_MAX == base * cutoff + ULONG_MAX % base;
    Ordered(acc, cutoff, base);
  }

  lemma Ordered(a: int, b: int, base: int)
    requires 0 <= base
    ensures (a > b ==> a * base >= base * b + base) && (a < b ==> a * base + base <= base * b)
  {
    if a > b {
      MulMonotone(b + 1, a, base);
    } else if a < b {
      MulMonotone(a + 1, b, base);
    }
  }

  lemma AppendLarge(v: nat, base: nat, c: nat)
    requires v > ULONG_MAX && base >= 1
    ensures Append(v, base, c) > ULONG_MAX
  {
    assert v * base >= v;
  }

  lemma NextValue(over: bool, acc: Word, v: nat, base: nat, c: nat)
    requires base >= 1 && c < base && if over then v > ULONG_MAX else v == acc
    ensures (over || acc > ULONG_MAX / base || (acc == ULONG_MAX / base && c > ULONG_MAX % base))
      <==> Append(v, base, c) > ULONG_MAX
  {
    if over {
      AppendLarge(v, base, c);
    } else {
      Overflow(acc, base, c);
    }
  }

  lemma Grown(s: string, start: nat, k: nat, base: nat)
    requires start <= k < |s|
    ensures Value(s[start..k + 1], base) == Append(Value(s[start..k], base), base, DigitOf(s[k]))
  {
    assert s[start..k + 1] == s[start..k] + [s[k]] && s[start..k + 1][..k - start] == s[start..k];
  }

  /** One digit of the base more, with the overflow test. */
  method AddDigit(any: int, acc: Word, base: nat, cutoff: nat, cutlim: nat, digit: nat, ghost v: nat)
    returns (any': int, acc': Word)
    requires base >= 1 && digit < base && cutoff == ULONG_MAX / base && cutlim == ULONG_MAX % base
    requires if any < 0 then v > ULONG_MAX else acc == v
    ensures any' != 0 && if any' < 0 then Append(v, base, digit) > ULONG_MAX else acc' == Append(v, base, digit)
  {
    NextValue(any < 0, acc, v, base, digit);
    if any < 0 || acc > cutoff || (acc == cutoff && digit > cutlim) {
      any', acc' := -1, acc;
    } else {
      any', acc' := 1, Append(acc, base, digit);
    }
  }

  /** The digit loop. */
  method Accumulate(s: string, start: nat, base: nat, neg: bool) returns (acc: Word, end: nat)
    requires start <= |s| && base >= 1 && neg == Negative(s) && NUL !in s
    ensures (acc, end) == Number(s, start, base)
  {
    var cutoff, cutlim := ULONG_MAX / base, ULONG_MAX % base;
    var any, k := 0, start;
    acc := 0;
    while true
      invariant start <= k <= |s| && AfterDigits(s, start, base) == AfterDigits(s, k, base)
      invariant any == 0 <==> k == start
      invariant if any < 0 then Value(s[start..k], base) > ULONG_MAX else acc == Value(s[start..k], base)
      decreases |s| - k
    {
      var c := At(s, k);
      var digit := DigitOf(c);
      if digit == 36 {
        break;
      }
      if digit >= base {
        break;
      }
      Grown(s, start, k, base);
      any, acc := AddDigit(any, acc, base, cutoff, cutlim, digit, Value(s[start..k], base));
      k := k + 1;
    }
    assert AfterDigits(s, k, base) == k;
    if any < 0 {
      acc := ULONG_MAX;
    } else if neg {
      acc := (ULONG_MAX + 1 - acc) % (ULONG_MAX + 1);
    }
    end := if any != 0 then k else 0;
  }

  method SkipSpaces(nptr: string) returns (s: nat)
    ensures s == AfterSpaces(nptr, 0)
  {
    s := 0;
    while IsSpace(At(nptr, s))
      invariant s <= |nptr| && AfterSpaces(nptr, s) == AfterSpaces(nptr, 0)
      decreases |nptr| - s
    {
      s := s + 1;
    }
  }

  method Strtoul(nptr: string, radix: nat) returns (acc: Word, end: nat)
    requires NUL !in nptr
    ensures (acc, end) == Parsed(nptr, radix)
  {
    var base, neg := radix, false;
    var s := SkipSpaces(nptr);
    if At(nptr, s) == '-' {
      neg := true;
      s := s + 1;
    } else if At(nptr, s) == '+' {
      s := s + 1;
    }
    assert s == NumberStart(nptr) && neg == Negative(nptr);
    if (base == 0 || base == 16) && At(nptr, s) == '0' && (At(nptr, s + 1) == 'x' || At(nptr, s + 1) == 'X') {
      s := s + 2;
      base := 16;
    }
    if base == 0 {
      base := if At(nptr, s) == '0' then 8 else 10;
    }
    acc, end := Accumulate(nptr, s, base, neg);
  }

  lemma {:induction false} AllDigits(s: string, i: nat, base: nat)
    requires i <= |s| && forall k | i <= k < |s| :: IsDigit(s[k], base)
    ensures AfterDigits(s, i, base) == |s|
    decreases |s| - i
  {
    if i < |s| {
      AllDigits(s, i + 1, base);
    }
  }

  /** Digits alone are read to the end. */
  lemma NumeralParsed(s: string, base: nat)
    requires 2 <= base <= 16 && s != [] && Numeral(s, base) && Value(s, base) <= ULONG_MAX
    ensures Parsed(s, base) == (Value(s, base), |s|)
  {
    AllDigits(s, 0, base);
    assert DigitOf(s[0]) < base && s[0..|s|] == s;
    assert |s| > 1 ==> DigitOf(s[1]) < base;
    assert !IsSpace(s[0]) && s[0] != '-' && s[0] != '+';
    assert NumberStart(s) == 0 && !Negative(s) && !HexPrefix(s, 0, base);
  }

  lemma PrefixedParsed(s: string, t: string, base: nat)
    requires (base == 0 || base == 16) && t != [] && Numeral(t, 16) && Value(t, 16) <= ULONG_MAX
    requires |s| == |t| + 2 && s[0] == '0' && s[1] == 'x' && s[2..] == t
    ensures Parsed(s, base) == (Value(t, 16), |s|)
  {
    assert forall k | 2 <= k < |s| :: s[k] == t[k - 2];
    AllDigits(s, 2, 16);
    assert s[2..|s|] == t;
    assert NumberStart(s) == 0 && !Negative(s);
  }

  /** What %u, %x and %b print is read back, by strtoul with the base it was printed in. */
  lemma PlainRoundTrip(n: nat, base: nat)
    requires 2 <= base <= 16 && n <= ULONG_MAX
    ensures Parsed(Written(n, base), base) == (n, |Written(n, base)|)
  {
    WrittenValue(n, base);
    NumeralParsed(Written(n, base), base);
  }

  /** What %p prints is read back in base 16 or with the base left open. */
  lemma PointerRoundTrip(n: nat, base: nat)
    requires n <= ULONG_MAX && (base == 0 || base == 16)
    ensures Parsed("0x" + Written(n, 16), base) == (n, 2 + |Written(n, 16)|)
  {
    WrittenValue(n, 16);
    PrefixedParsed("0x" + Written(n, 16), Written(n, 16), base);
  }

  /** The C string at the start of a buffer. */
  function CString(buf: seq<char>): string
  {
    if buf == [] || buf[0] == NUL then [] else [buf[0]] + CString(buf[1..])
  }

  lemma {:induction false} CStringZeroed(s: string, rest: seq<char>)
    requires NUL !in s && (rest == [] || rest[0] == NUL)
    ensures CString(s + rest) == s
  {
    if s == [] {
      assert s + rest == rest;
    } else {
      assert (s + rest)[1..] == s[1..] + rest;
      CStringZeroed(s[1..], rest);
    }
  }

  /** The text of a buffer that holds a string and then a zero. */
  lemma TextOf(w: string, buf: seq<char>)
    requires NUL !in w && |w| < |buf| && buf[..|w|] == w && buf[|w|] == NUL
    ensures CString(buf) == w
  {
    CStringZeroed(w, buf[|w|..]);
    assert buf == w + buf[|w|..];
  }

  lemma PrintedText(n: Word, base: nat, buf: seq<char>)
    requires 2 <= base <= 16 && |Written(n, base)| < |buf|
    requires buf[..|Written(n, base)|] == Written(n, base) && buf[|Written(n, base)|] == NUL
    ensures NUL !in Written(n, base) && CString(buf) == Written(n, base)
  {
    WrittenValue(n, base);
    NumeralText(Written(n, base), base);
    TextOf(Written(n, base), buf);
  }

  lemma NumeralText(w: string, base: nat)
    requires Numeral(w, base)
    ensures NUL !in w
  {
  }

  lemma PrintedPointer(n: Word, buf: seq<char>)
    requires |Written(n, 16)| + 2 < |buf| && buf[0] == '0' && buf[1] == 'x'
    requires buf[2..2 + |Written(n, 16)|] == Written(n, 16) && buf[2 + |Written(n, 16)|] == NUL
    ensures NUL !in "0x" + Written(n, 16) && CString(buf) == "0x" + Written(n, 16)
  {
    var w := Written(n, 16);
    WrittenValue(n, 16);
    NumeralText(w, 16);
    assert buf[..2 + |w|] == buf[..2] + buf[2..2 + |w|] == "0x" + w;
    TextOf("0x" + w, buf);
  }

  /** Printed into a zeroed buffer and read back, every 32-bit number comes out as itself. */
  method PrintAndParse(n: Word, base: nat) returns (v: Word, end: nat)
    requires 2 <= base <= 16
    ensures v == n && end == |Written(n, base)|
  {
    TwoPowers(n, base);
    WrittenLength(n, base, DS_SIZE);
    var buf := new char[DS_SIZE + 1](_ => NUL);
    var stop := PrintDigits(n, base, buf, 0);
    assert buf[..][stop] == NUL;
    PrintedText(n, base, buf[..]);
    PlainRoundTrip(n, base);
    v, end := Strtoul(CString(buf[..]), base);
  }

  /** The same for %p, read back in base 16 or with the base left open. */
  method PrintPointerAndParse(n: Word, base: nat) returns (v: Word, end: nat)
    requires base == 0 || base == 16
    ensures v == n && end == 2 + |Written(n, 16)|
  {
    TwoPowers(n, 16);
    WrittenLength(n, 16, DS_SIZE);
    var buf := new char[DS_SIZE + 3](_ => NUL);
    buf[0], buf[1] := '0', 'x';
    var stop := PrintDigits(n, 16, buf, 2);
    assert buf[..][stop] == NUL && buf[..][0] == '0' && buf[..][1] == 'x';
    PrintedPointer(n, buf[..]);
    PointerRoundTrip(n, base);
    v, end := Strtoul(CString(buf[..]), base);
  }

  lemma {:induction false} PowMonotone(a: nat, b: nat, n: nat)
    requires 0 < a <= b
    ensures 0 < Pow(a, n) <= Pow(b, n)
  {
    if n > 0 {
      var p, q := Pow(a, n - 1), Pow(b, n - 1);
      PowMonotone(a, b, n - 1);
      MulMonotone(p, q, a);
      MulMonotone(a, b, q);
      MulMonotone(1, a, p);
    }
  }

  /** 32 digits are enough for 32 bits in any base. */
  lemma TwoPowers(n: Word, base: nat)
    requires 2 <= base <= 16
    ensures n < Pow(base, DS_SIZE)
  {
    PowMonotone(2, base, DS_SIZE);
    PowerOfTwo();
  }

  lemma PowerOfTwo()
    ensures Pow(2, DS_SIZE) == 0x1_0000_0000
  {
    assert Pow(2, 8) == 0x100;
    assert Pow(2, 16) == 0x1_0000;
    assert Pow(2, 24) == 0x100_0000;
    assert Pow(2, 32) == 0x1_0000_0000;
  }
}
