/** What strtoul reads, by the parts of the text: white space, sign, prefix and digits. */
module Reading {
  import opened Digits

  /** `c` is a way to write the digit `d`: as 0 to 9, or as a letter, capital or small, for 10 to 35. */
  predicate Denotes(c: char, d: nat)
  {
    if d < 10 then c as int == 48 + d else d < 36 && (c as int == 65 + d - 10 || c as int == 97 + d - 10)
  }

  /** The number with the digits `ds`, each weighted by the power of the base for its place. */
  function Sum(ds: seq<nat>, base: nat): nat
  {
    if ds == [] then 0 else ds[0] * Pow(base, |ds| - 1) + Sum(ds[1..], base)
  }

  lemma {:induction false} SumLast(ds: seq<nat>, d: nat, base: nat)
    ensures Sum(ds + [d], base) == Sum(ds, base) * base + d
  {
    if ds == [] {
      assert [] + [d] == [d] && [d][1..] == [];
      assert Pow(base, 0) == 1;
    } else {
      SumLast(ds[1..], d, base);
      assert (ds + [d])[1..] == ds[1..] + [d];
      Distributed(ds[0], Pow(base, |ds| - 1), Sum(ds[1..], base), base);
    }
  }

  lemma Distributed(d: int, p: int, r: int, base: int)
    ensures d * (base * p) + r * base == (d * p + r) * base
  {
  }

  /** The text `w` has the digits `ds` of the base. */
  ghost predicate Spells(w: string, ds: seq<nat>, base: nat)
  {
    |w| == |ds| && forall i {:trigger ds[i]} | 0 <= i < |w| :: ds[i] < base && Denotes(w[i], ds[i])
  }

  lemma DenotesDigit(c: char, d: nat)
    ensures Denotes(c, d) <==> DigitOf(c) == d < 36
  {
  }

  lemma {:induction false} SpelledValue(w: string, ds: seq<nat>, base: nat)
    requires Spells(w, ds, base)
    ensures Value(w, base) == Sum(ds, base)
    decreases |w|
  {
    if w != [] {
      var k := |w| - 1;
      SpelledValue(w[..k], ds[..k], base);
      SumLast(ds[..k], ds[k], base);
      assert ds[..k] + [ds[k]] == ds;
      DenotesDigit(w[k], ds[k]);
    }
  }

  lemma {:induction false} SpacesSkipped(s: string, i: nat, n: nat)
    requires i <= n <= |s| && (forall k | i <= k < n :: IsSpace(s[k])) && !IsSpace(At(s, n))
    ensures AfterSpaces(s, i) == n
    decreases n - i
  {
    if i < n {
      SpacesSkipped(s, i + 1, n);
    }
  }

  lemma {:induction false} DigitsSkipped(s: string, i: nat, n: nat, base: nat)
    requires i <= n <= |s| && (forall k | i <= k < n :: IsDigit(s[k], base)) && (n < |s| ==> !IsDigit(s[n], base))
    ensures AfterDigits(s, i, base) == n
    decreases n - i
  {
    if i < n {
      DigitsSkipped(s, i + 1, n, base);
    }
  }

  /** The parts of a text for strtoul: white space, a sign, 0x where the base allows it, digits of the radix, and
      what is not one. */
  datatype Text = Text(spaces: string, sign: string, prefix: string, digits: string, rest: string) {
    function Whole(): string { spaces + (sign + (prefix + (digits + rest))) }
  }

  ghost predicate Readable(t: Text, ds: seq<nat>, base: nat, radix: nat)
  {
    && (forall i | 0 <= i < |t.spaces| :: t.spaces[i] as int == 32 || 9 <= t.spaces[i] as int <= 13)
    && (t.sign == "" || t.sign == "+" || t.sign == "-")
    && (t.prefix == "" || ((t.prefix == "0x" || t.prefix == "0X") && (base == 0 || base == 16)))
    && radix == (if t.prefix != "" then 16 else if base != 0 then base
                 else if t.digits != "" && t.digits[0] == '0' then 8 else 10)
    && Spells(t.digits, ds, radix)
    && (t.rest != "" ==> forall d: nat | Denotes(t.rest[0], d) :: d >= radix)
    && (t.prefix == "" && t.digits == "0" && (base == 0 || base == 16) ==>
          t.rest == "" || (t.rest[0] != 'x' && t.rest[0] != 'X'))
    && (t.sign == "" && t.prefix == "" && t.digits == "" && t.rest != "" ==>
          !IsSpace(t.rest[0]) && t.rest[0] != '+' && t.rest[0] != '-')
  }

  /** The characters of two texts, one after the other. */
  lemma JoinAt(a: string, b: string, k: nat)
    requires k >= |a|
    ensures |a + b| == |a| + |b| && At(a + b, k) == At(b, k - |a|)
    ensures forall i | 0 <= i < |a| :: (a + b)[i] == a[i]
  {
  }

  /** What the digits start with: no space and no sign, an x behind a 0 only after a digit that is not one. */
  lemma DigitsStart(t: Text, ds: seq<nat>, base: nat, radix: nat)
    requires Readable(t, ds, base, radix) && t.prefix == ""
    ensures var u := t.digits + t.rest;
            && (t.sign == "" ==> !IsSpace(At(u, 0)) && At(u, 0) != '-' && At(u, 0) != '+')
            && !HexPrefix(u, 0, base) && Radix(u, 0, base) == radix
  {
    var u := t.digits + t.rest;
    if t.digits != "" {
      DenotesDigit(t.digits[0], ds[0]);
      assert u[0] == t.digits[0];
      if |t.digits| > 1 {
        DenotesDigit(t.digits[1], ds[1]);
        assert u[1] == t.digits[1];
      }
    } else if t.rest != "" {
      assert u[0] == t.rest[0];
      assert u[0] == '0' ==> Denotes(t.rest[0], 0);
    }
  }

  lemma PartsStart(t: Text, ds: seq<nat>, base: nat, radix: nat)
    requires Readable(t, ds, base, radix)
    ensures var s, j := t.Whole(), |t.spaces| + |t.sign|;
            && NumberStart(s) == j && (Negative(s) <==> t.sign == "-")
            && (HexPrefix(s, j, base) <==> t.prefix != "")
            && (t.prefix == "" ==> Radix(s, j, base) == radix)
  {
    var u := t.prefix + (t.digits + t.rest);
    var s, n := t.Whole(), |t.spaces|;
    if t.prefix == "" {
      assert u == t.digits + t.rest;
      DigitsStart(t, ds, base, radix);
    }
    JoinAt(t.spaces, t.sign + u, n);
    JoinAt(t.spaces, t.sign + u, n + |t.sign|);
    JoinAt(t.spaces, t.sign + u, n + |t.sign| + 1);
    JoinAt(t.sign, u, |t.sign|);
    JoinAt(t.sign, u, |t.sign| + 1);
    SpacesSkipped(s, 0, n);
  }

  /** Digits that start at `k` and end before `n`. */
  lemma DigitsRead(s: string, k: nat, w: string, ds: seq<nat>, radix: nat)
    requires k + |w| <= |s| && s[k..k + |w|] == w && Spells(w, ds, radix)
    requires k + |w| < |s| ==> !IsDigit(s[k + |w|], radix)
    ensures AfterDigits(s, k, radix) == k + |w| && Value(s[k..k + |w|], radix) == Sum(ds, radix)
  {
    forall i | k <= i < k + |w|
      ensures IsDigit(s[i], radix)
    {
      assert s[i] == w[i - k];
      DenotesDigit(w[i - k], ds[i - k]);
    }
    DigitsSkipped(s, k, k + |w|, radix);
    SpelledValue(w, ds, radix);
  }

  lemma PartsEnd(s: string, before: string, w: string, rest: string, k: nat, ds: seq<nat>, radix: nat)
    requires s == before + (w + rest) && k == |before| && Spells(w, ds, radix)
      && (rest != "" ==> forall d: nat | Denotes(rest[0], d) :: d >= radix)
    ensures k + |w| <= |s| && AfterDigits(s, k, radix) == k + |w| && Value(s[k..k + |w|], radix) == Sum(ds, radix)
  {
    Inside(before, w, rest);
    if rest != "" {
      DenotesDigit(rest[0], DigitOf(rest[0]));
    }
    DigitsRead(s, k, w, ds, radix);
  }

  lemma Inside(before: string, w: string, rest: string)
    ensures var s, k := before + (w + rest), |before|;
            s[k..k + |w|] == w && (rest != "" ==> k + |w| < |s| && s[k + |w|] == rest[0])
  {
  }

  lemma WholeSplit(t: Text) returns (before: string)
    ensures t.Whole() == before + (t.digits + t.rest) && |before| == |t.spaces| + |t.sign| + |t.prefix|
  {
    before := t.spaces + (t.sign + t.prefix);
  }

  /** What is parsed is the number that the digits start. */
  lemma ParsedNumber(s: string, base: nat, j: nat, prefixed: bool, radix: nat, k: nat)
    requires NumberStart(s) == j && HexPrefix(s, j, base) == prefixed && k <= |s|
    requires if prefixed then radix == 16 && k == j + 2 else Radix(s, j, base) == radix && k == j
    ensures Parsed(s, base) == Number(s, k, radix)
  {
  }

  lemma NumberIs(s: string, k: nat, n: nat, v: nat, radix: nat, minus: bool)
    requires Negative(s) == minus
    requires k + n <= |s| && AfterDigits(s, k, radix) == k + n && Value(s[k..k + n], radix) == v
    ensures Number(s, k, radix) ==
            (if v > 0xFFFF_FFFF then 0xFFFF_FFFF
             else if minus && v > 0 then 0x1_0000_0000 - v else v, if n == 0 then 0 else k + n)
  {
  }

  lemma PartsParsed(t: Text, ds: seq<nat>, base: nat, radix: nat)
    requires Readable(t, ds, base, radix)
    ensures |t.spaces| + |t.sign| + |t.prefix| <= |t.Whole()| && (Negative(t.Whole()) <==> t.sign == "-")
    ensures Parsed(t.Whole(), base) == Number(t.Whole(), |t.spaces| + |t.sign| + |t.prefix|, radix)
  {
    PartsStart(t, ds, base, radix);
    ParsedNumber(t.Whole(), base, |t.spaces| + |t.sign|, t.prefix != "", radix, |t.spaces| + |t.sign| + |t.prefix|);
  }

  lemma PartsDigits(t: Text, ds: seq<nat>, base: nat, radix: nat)
    requires Readable(t, ds, base, radix)
    ensures var s, k, n := t.Whole(), |t.spaces| + |t.sign| + |t.prefix|, |t.digits|;
            k + n <= |s| && AfterDigits(s, k, radix) == k + n && Value(s[k..k + n], radix) == Sum(ds, radix)
  {
    var before := WholeSplit(t);
    PartsEnd(t.Whole(), before, t.digits, t.rest, |before|, ds, radix);
  }

  lemma PartsNumber(t: Text, ds: seq<nat>, radix: nat)
    requires var s, k, n := t.Whole(), |t.spaces| + |t.sign| + |t.prefix|, |t.digits|;
             && k + n <= |s| && AfterDigits(s, k, radix) == k + n && Value(s[k..k + n], radix) == Sum(ds, radix)
             && (Negative(s) <==> t.sign == "-")
    ensures var v := Sum(ds, radix);
            Number(t.Whole(), |t.spaces| + |t.sign| + |t.prefix|, radix) ==
              (if v > 0xFFFF_FFFF then 0xFFFF_FFFF else if t.sign == "-" && v > 0 then 0x1_0000_0000 - v else v,
               if |t.digits| == 0 then 0 else |t.spaces| + |t.sign| + |t.prefix| + |t.digits|)
  {
    var s, k := t.Whole(), |t.spaces| + |t.sign| + |t.prefix|;
    NumberIs(s, k, |t.digits|, Sum(ds, radix), radix, t.sign == "-");
  }

  /** What strtoul reads: the number the digits write, at most 2^32 - 1, negated modulo 2^32 after a minus; the
      end is behind the digits, or 0 if there are none. */
  lemma StrtoulReads(t: Text, ds: seq<nat>, base: nat, radix: nat)
    requires Readable(t, ds, base, radix)
    ensures var v := Sum(ds, radix);
            Parsed(t.Whole(), base) ==
              (if v > 0xFFFF_FFFF then 0xFFFF_FFFF else if t.sign == "-" && v > 0 then 0x1_0000_0000 - v else v,
               if |t.digits| == 0 then 0 else |t.spaces| + |t.sign| + |t.prefix| + |t.digits|)
  {
    PartsParsed(t, ds, base, radix);
    PartsDigits(t, ds, base, radix);
    PartsNumber(t, ds, radix);
  }
}
