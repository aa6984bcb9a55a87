/** The ASCII number scanners shared by every command class
    (`Command.parseIntFromCharBuf` and `Command.parseFloatFromCharBuf`).
    Both read the byte range buf[start..end], never fail, stop silently at the
    first byte they do not accept, and answer -1 for an empty range. Numbers
    are exact: Java `int` overflow and `float` rounding are not modelled. */
module Command {
  import opened Ascii

  /** Length of the longest prefix of `s` made of digits. */
  function DigitRun(s: seq<Byte>): (k: nat)
    ensures k <= |s|
    ensures AllDigits(s[..k])
    ensures k < |s| ==> !IsDigit(s[k])
    ensures AllDigits(s) ==> k == |s|
  {
    if |s| == 0 || !IsDigit(s[0]) then 0
    else
      var k' := DigitRun(s[1..]);
      assert s[..1 + k'] == [s[0]] + s[1..][..k'];
      1 + k'
  }

  /** The run of digits ends at the first non-digit. */
  lemma {:induction false} DigitRunStops(s: seq<Byte>, k: nat)
    requires k < |s| && AllDigits(s[..k]) && !IsDigit(s[k])
    ensures DigitRun(s) == k
    decreases k
  {
    if k > 0 {
      assert IsDigit(s[..k][0]);
      assert s[1..][..k - 1] == s[..k][1..];
      DigitRunStops(s[1..], k - 1);
    }
  }

  /** Closed form of the integer scan of a non-empty range: the decimal value
      of the leading digits, times ten when a non-digit cut the scan short. */
  function IntValue(s: seq<Byte>): (r: int)
    requires |s| > 0
    ensures r >= 0
  {
    var k := DigitRun(s);
    if k == |s| then DecimalValue(s) else 10 * DecimalValue(s[..k])
  }

  /** The loop of `parseIntFromCharBuf` from index i on, with `res` the value
      accumulated so far: each digit is added, and the total multiplied by ten
      unless the digit sits on the last byte of the range. */
  function IntLoop(s: seq<Byte>, i: nat, res: int): (r: int)
    requires i < |s|
    requires AllDigits(s[..i]) && res == 10 * DecimalValue(s[..i])
    ensures r == IntValue(s)
    decreases |s| - i
  {
    if !IsDigit(s[i]) then res
    else
      assert s[..i + 1][..i] == s[..i];
      var res1 := res + DigitValue(s[i]);
      var res2 := if i < |s| - 1 then res1 * 10 else res1;
      if i + 1 == |s| then
        assert s[..i + 1] == s;
        res2
      else IntLoop(s, i + 1, res2)
  }

  /** `parseIntFromCharBuf` over the bytes of `buf` from `start` up to `end`. */
  function ParseInt(buf: seq<Byte>, start: int, end: int): (r: int)
    requires 0 <= start && end <= |buf|
    ensures start >= end ==> r == -1
    ensures start < end ==> r >= 0
    ensures start < end && AllDigits(buf[start..end]) ==> r == DecimalValue(buf[start..end])
    ensures forall k :: start <= k < end && AllDigits(buf[start..k]) && !IsDigit(buf[k]) ==>
                          r == 10 * DecimalValue(buf[start..k])
  {
    if start >= end then -1
    else
      IntCut(buf, start, end);
      IntLoop(buf[start..end], 0, 0)
  }

  /** Where the first non-digit of a range sits decides the closed form. */
  lemma IntCut(buf: seq<Byte>, start: nat, end: nat)
    requires start < end <= |buf|
    ensures forall k :: start <= k < end && AllDigits(buf[start..k]) && !IsDigit(buf[k]) ==>
                          IntValue(buf[start..end]) == 10 * DecimalValue(buf[start..k])
  {
    var s := buf[start..end];
    forall k | start <= k < end && AllDigits(buf[start..k]) && !IsDigit(buf[k])
      ensures IntValue(s) == 10 * DecimalValue(buf[start..k])
    {
      assert buf[start..k] == s[..k - start] && buf[k] == s[k - start];
      DigitRunStops(s, k - start);
    }
  }

  predicate IsNumeric(b: Byte)
  {
    IsDigit(b) || b == DOT
  }

  predicate AllNumeric(s: seq<Byte>)
  {
    forall i :: 0 <= i < |s| ==> IsNumeric(s[i])
  }

  /** Length of the longest prefix of `s` made of digits and dots. */
  function NumericRun(s: seq<Byte>): (k: nat)
    ensures k <= |s|
    ensures AllNumeric(s[..k])
    ensures k < |s| ==> !IsNumeric(s[k])
    ensures AllNumeric(s) ==> k == |s|
  {
    if |s| == 0 || !IsNumeric(s[0]) then 0
    else
      var k' := NumericRun(s[1..]);
      assert s[..1 + k'] == [s[0]] + s[1..][..k'];
      1 + k'
  }

  /** The digits of `p` read as one integer, dots skipped. */
  function Mantissa(p: seq<Byte>): (r: nat)
  {
    if |p| == 0 then 0
    else
      var c := p[|p| - 1];
      if IsDigit(c) then 10 * Mantissa(p[..|p| - 1]) + DigitValue(c) else Mantissa(p[..|p| - 1])
  }

  /** How many digits of `p` follow its first dot. */
  function FracDigits(p: seq<Byte>): (r: nat)
    ensures r <= DigitCount(p)
  {
    if |p| == 0 then 0
    else
      var q := p[..|p| - 1];
      if IsDigit(p[|p| - 1]) && DOT in q then FracDigits(q) + 1 else FracDigits(q)
  }

  /** How many digits `p` holds. */
  function DigitCount(p: seq<Byte>): nat
  {
    if |p| == 0 then 0
    else if IsDigit(p[|p| - 1]) then DigitCount(p[..|p| - 1]) + 1
    else DigitCount(p[..|p| - 1])
  }

  /** Closed form of the float scan of a non-empty range: the digits of the
      leading run of digits and dots as one integer, divided by ten for every
      digit after the first dot, and times ten unless that run is the whole
      range and ends in a digit. */
  function FloatValue(s: seq<Byte>): (r: real)
    requires |s| > 0
    ensures r >= 0.0
  {
    var k := NumericRun(s);
    var p := s[..k];
    var scale := if k == |s| && IsDigit(s[|s| - 1]) then 1 else 10;
    (scale * Mantissa(p)) as real / Pow10(FracDigits(p)) as real
  }

  /** The loop of `parseFloatFromCharBuf` from index i on: `res` holds the
      digits so far, `divider` a power of ten per fraction digit, `hasFrac`
      whether a dot has been seen. */
  function FloatLoop(s: seq<Byte>, i: nat, res: int, divider: int, hasFrac: bool): (r: real)
    requires i < |s|
    requires AllNumeric(s[..i])
    requires res == 10 * Mantissa(s[..i])
    requires divider == Pow10(FracDigits(s[..i]))
    requires hasFrac == (DOT in s[..i])
    ensures r == FloatValue(s)
    decreases |s| - i
  {
    var c := s[i];
    if !IsDigit(c) && c != DOT then
      NumericRunStops(s, i);
      res as real / divider as real
    else
      FloatStep(s, i);
      var hasFrac' := hasFrac || c == DOT;
      var res1 := if c == DOT then res else res + DigitValue(c);
      var divider' := if c != DOT && hasFrac then divider * 10 else divider;
      var res2 := if c != DOT && i < |s| - 1 then res1 * 10 else res1;
      if i + 1 == |s| then
        assert s[..i + 1] == s;
        FloatValueAll(s);
        res2 as real / divider' as real
      else FloatLoop(s, i + 1, res2, divider', hasFrac')
  }

  /** One more digit or dot, as `Mantissa`, `FracDigits` and the dot test see it. */
  lemma FloatStep(s: seq<Byte>, i: nat)
    requires i < |s| && AllNumeric(s[..i]) && IsNumeric(s[i])
    ensures AllNumeric(s[..i + 1])
    ensures Mantissa(s[..i + 1]) ==
            if IsDigit(s[i]) then 10 * Mantissa(s[..i]) + DigitValue(s[i]) else Mantissa(s[..i])
    ensures FracDigits(s[..i + 1]) ==
            if IsDigit(s[i]) && DOT in s[..i] then FracDigits(s[..i]) + 1 else FracDigits(s[..i])
    ensures (DOT in s[..i + 1]) == (DOT in s[..i] || s[i] == DOT)
  {
    assert s[..i + 1][..i] == s[..i];
    assert s[..i + 1] == s[..i] + [s[i]];
  }

  /** `parseFloatFromCharBuf` over the bytes of `buf` from `start` up to `end`. */
  function ParseFloat(buf: seq<Byte>, start: int, end: int): (r: real)
    requires 0 <= start && end <= |buf|
    ensures start >= end ==> r == -1.0
    ensures start < end ==> r == FloatValue(buf[start..end]) && r >= 0.0
  {
    if start >= end then -1.0
    else FloatLoop(buf[start..end], 0, 0, 1, false)
  }

  lemma {:induction false} MantissaAppend(x: seq<Byte>, y: seq<Byte>)
    ensures Mantissa(x + y) == Mantissa(x) * Pow10(DigitCount(y)) + Mantissa(y)
    decreases |y|
  {
    if |y| == 0 {
      assert x + y == x;
    } else {
      var y' := y[..|y| - 1];
      var c := y[|y| - 1];
      assert (x + y)[..|x + y| - 1] == x + y';
      assert (x + y)[|x + y| - 1] == c;
      MantissaAppend(x, y');
      if IsDigit(c) {
        ShiftAdd(Mantissa(x), Pow10(DigitCount(y')), Mantissa(y'), DigitValue(c));
      }
    }
  }

  lemma {:induction false} FracAppend(x: seq<Byte>, y: seq<Byte>)
    requires DOT in x
    ensures FracDigits(x + y) == FracDigits(x) + DigitCount(y)
    decreases |y|
  {
    if |y| == 0 {
      assert x + y == x;
    } else {
      var y' := y[..|y| - 1];
      assert (x + y)[..|x + y| - 1] == x + y';
      assert DOT in x + y' by {
        var j :| 0 <= j < |x| && x[j] == DOT;
        assert (x + y')[j] == DOT;
      }
      FracAppend(x, y');
    }
  }

  /** On a run of plain digits the float bookkeeping agrees with the decimal value. */
  lemma {:induction false} DigitsOnly(s: seq<Byte>)
    requires AllDigits(s)
    ensures Mantissa(s) == DecimalValue(s)
    ensures DigitCount(s) == |s|
    ensures FracDigits(s) == 0
    ensures DOT !in s
    decreases |s|
  {
    if |s| > 0 {
      DigitsOnly(s[..|s| - 1]);
      assert s == s[..|s| - 1] + [s[|s| - 1]];
    }
  }

  lemma DivSplit(m: nat, a: nat, b: nat, p: nat)
    requires p > 0 && m == a * p + b
    ensures (m as real) / (p as real) == a as real + (b as real) / (p as real)
  {
    var pr := p as real;
    assert m as real == (a as real) * pr + b as real;
    assert ((a as real) * pr + b as real) / pr == (a as real) * pr / pr + (b as real) / pr;
    assert (a as real) * pr / pr == a as real;
  }

  lemma ScaleTen(m: nat, p: nat)
    requires p > 0
    ensures (10 * m) as real / (p as real) == 10.0 * (m as real / p as real)
  {
  }

  /** When the whole range is digits and dots and ends in a digit, no factor
      of ten is left over. */
  lemma FloatValueWhole(s: seq<Byte>)
    requires |s| > 0 && AllNumeric(s) && IsDigit(s[|s| - 1])
    ensures FloatValue(s) == Mantissa(s) as real / Pow10(FracDigits(s)) as real
  {
    assert s[..|s|] == s;
  }

  /** On a range of digits and dots the scan runs to the end, and the factor
      of ten is left over exactly when the last byte is a dot. */
  lemma FloatValueAll(s: seq<Byte>)
    requires |s| > 0 && AllNumeric(s)
    ensures FloatValue(s) ==
            ((if IsDigit(s[|s| - 1]) then 1 else 10) * Mantissa(s)) as real / Pow10(FracDigits(s)) as real
  {
    assert s[..|s|] == s;
  }

  /** A range of digits scans to its decimal value. */
  lemma ParseFloatDigits(s: seq<Byte>)
    requires |s| > 0 && AllDigits(s)
    ensures ParseFloat(s, 0, |s|) == DecimalValue(s) as real
  {
    assert s[0..|s|] == s;
    assert AllNumeric(s);
    FloatValueWhole(s);
    DigitsOnly(s);
  }

  /** The bookkeeping of a range "a.b" with a and b plain digits. */
  lemma DecimalParts(a: seq<Byte>, b: seq<Byte>)
    requires AllDigits(a) && AllDigits(b) && |b| > 0
    ensures AllNumeric(a + [DOT] + b)
    ensures IsDigit((a + [DOT] + b)[|a| + |b|])
    ensures Mantissa(a + [DOT] + b) == DecimalValue(a) * Pow10(|b|) + DecimalValue(b)
    ensures FracDigits(a + [DOT] + b) == |b|
  {
    var s := a + [DOT] + b;
    assert AllNumeric(s) by {
      forall i | 0 <= i < |s| ensures IsNumeric(s[i]) {
        if i < |a| { assert s[i] == a[i]; }
        else if i > |a| { assert s[i] == b[i - |a| - 1]; }
      }
    }
    assert s[|s| - 1] == b[|b| - 1];
    DigitsOnly(a);
    DigitsOnly(b);
    assert [DOT][..0] == [];
    MantissaAppend(a, [DOT]);
    MantissaAppend(a + [DOT], b);
    assert FracDigits(a + [DOT]) == 0 by {
      assert (a + [DOT])[..|a|] == a;
    }
    FracAppend(a + [DOT], b);
  }

  /** Digits, one dot and at least one more digit scan to the ordinary
      decimal value: "1.5" gives 1.5 and ".5" gives 0.5. */
  lemma ParseFloatDecimal(a: seq<Byte>, b: seq<Byte>)
    requires AllDigits(a) && AllDigits(b) && |b| > 0
    ensures ParseFloat(a + [DOT] + b, 0, |a| + 1 + |b|) ==
            DecimalValue(a) as real + DecimalValue(b) as real / Pow10(|b|) as real
  {
    DecimalParts(a, b);
    assert (a + [DOT] + b)[0..|a| + 1 + |b|] == a + [DOT] + b;
    FloatValueWhole(a + [DOT] + b);
    DivSplit(Mantissa(a + [DOT] + b), DecimalValue(a), DecimalValue(b), Pow10(|b|));
  }

  /** The bookkeeping of a range "a." with a plain digits. */
  lemma TrailingDotParts(a: seq<Byte>)
    requires AllDigits(a)
    ensures AllNumeric(a + [DOT])
    ensures Mantissa(a + [DOT]) == DecimalValue(a)
    ensures FracDigits(a + [DOT]) == 0
  {
    var s := a + [DOT];
    assert AllNumeric(s) by {
      forall i | 0 <= i < |s| ensures IsNumeric(s[i]) {
        if i < |a| { assert s[i] == a[i]; }
      }
    }
    assert s[..|s| - 1] == a;
    DigitsOnly(a);
  }

  /** A dot on the last byte leaves the extra factor of ten in place: "1." gives 10. */
  lemma ParseFloatTrailingDot(a: seq<Byte>)
    requires AllDigits(a)
    ensures ParseFloat(a + [DOT], 0, |a| + 1) == (10 * DecimalValue(a)) as real
  {
    var s := a + [DOT];
    TrailingDotParts(a);
    assert s[0..|s|] == s;
    FloatValueAll(s);
    assert !IsDigit(s[|s| - 1]);
    DivOne(10 * Mantissa(s), Pow10(FracDigits(s)));
  }

  lemma DivOne(m: nat, p: nat)
    requires p == 1
    ensures m as real / p as real == m as real
  {
  }

  /** The run of digits and dots ends at the first byte that is neither. */
  lemma {:induction false} NumericRunStops(s: seq<Byte>, k: nat)
    requires k < |s| && AllNumeric(s[..k]) && !IsNumeric(s[k])
    ensures NumericRun(s) == k
    decreases k
  {
    if k > 0 {
      assert IsNumeric(s[..k][0]);
      assert s[1..][..k - 1] == s[..k][1..];
      NumericRunStops(s[1..], k - 1);
    }
  }

  /** A scan cut short by a byte that is neither digit nor dot answers ten
      times what the valid part alone would give. */
  lemma ParseFloatTruncated(s: seq<Byte>, k: nat)
    requires 0 < k < |s| && AllNumeric(s[..k]) && !IsNumeric(s[k]) && IsDigit(s[k - 1])
    ensures ParseFloat(s, 0, |s|) == 10.0 * ParseFloat(s, 0, k)
  {
    assert s[0..|s|] == s;
    assert s[0..k] == s[..k];
    NumericRunStops(s, k);
    assert s[..k][..k] == s[..k];
    ScaleTen(Mantissa(s[..k]), Pow10(FracDigits(s[..k])));
  }

  /** The bookkeeping of "a" + "." + "b" against "a" + "b" when a already holds a dot. */
  lemma LaterDotParts(a: seq<Byte>, b: seq<Byte>)
    requires AllNumeric(a) && DOT in a && AllNumeric(b)
    ensures AllNumeric(a + [DOT] + b) && AllNumeric(a + b)
    ensures Mantissa(a + [DOT] + b) == Mantissa(a + b)
    ensures FracDigits(a + [DOT] + b) == FracDigits(a + b)
  {
    var s := a + [DOT] + b;
    var t := a + b;
    assert AllNumeric(s) by {
      forall i | 0 <= i < |s| ensures IsNumeric(s[i]) {
        if i < |a| { assert s[i] == a[i]; }
        else if i > |a| { assert s[i] == b[i - |a| - 1]; }
      }
    }
    assert AllNumeric(t) by {
      forall i | 0 <= i < |t| ensures IsNumeric(t[i]) {
        if i < |a| { assert t[i] == a[i]; } else { assert t[i] == b[i - |a|]; }
      }
    }
    assert [DOT][..0] == [];
    MantissaAppend(a, [DOT]);
    MantissaAppend(a + [DOT], b);
    MantissaAppend(a, b);
    FracAppend(a, [DOT]);
    FracAppend(a + [DOT], b);
    FracAppend(a, b);
  }

  /** A second dot changes nothing: every digit after the first dot adds a
      place to the divider, so "1.2.3" scans like "1.23". */
  lemma ParseFloatLaterDot(a: seq<Byte>, b: seq<Byte>)
    requires AllNumeric(a) && DOT in a && AllNumeric(b) && |b| > 0 && IsDigit(b[|b| - 1])
    ensures ParseFloat(a + [DOT] + b, 0, |a| + 1 + |b|) == ParseFloat(a + b, 0, |a| + |b|)
  {
    var s := a + [DOT] + b;
    var t := a + b;
    LaterDotParts(a, b);
    assert s[|s| - 1] == b[|b| - 1] && t[|t| - 1] == b[|b| - 1];
    SameParts(s, t);
    assert s[0..|s|] == s && t[0..|t|] == t;
  }

  /** Two digit-and-dot ranges ending in a digit with the same mantissa and
      the same count of fraction digits have the same value. */
  lemma SameParts(s: seq<Byte>, t: seq<Byte>)
    requires |s| > 0 && AllNumeric(s) && IsDigit(s[|s| - 1])
    requires |t| > 0 && AllNumeric(t) && IsDigit(t[|t| - 1])
    requires Mantissa(s) == Mantissa(t) && FracDigits(s) == FracDigits(t)
    ensures FloatValue(s) == FloatValue(t)
  {
    FloatValueWhole(s);
    FloatValueWhole(t);
  }

  /** "1.5" scans to 1.5. */
  lemma DecimalExamples()
    ensures ParseFloat([49, 46, 53], 0, 3) == 1.5
  {
    var one: seq<Byte> := [49];
    var five: seq<Byte> := [53];
    var s := one + [DOT] + five;
    assert s == [49, 46, 53];
    assert one[..0] == [] && five[..0] == [];
    assert DecimalValue(one) == 1 && DecimalValue(five) == 5 && Pow10(1) == 10;
    ParseFloatDecimal(one, five);
    assert ParseFloat(s, 0, 3) == 1.0 + 5.0 / 10.0;
  }

  /** ".5" scans to 0.5. */
  lemma LeadingDotExample()
    ensures ParseFloat([46, 53], 0, 2) == 0.5
  {
    var none: seq<Byte> := [];
    var five: seq<Byte> := [53];
    var s := none + [DOT] + five;
    assert s == [46, 53];
    assert five[..0] == [];
    assert DecimalValue(none) == 0 && DecimalValue(five) == 5 && Pow10(1) == 10;
    ParseFloatDecimal(none, five);
    assert ParseFloat(s, 0, 2) == 0.0 + 5.0 / 10.0;
  }

  /** "1." scans to 10, "12x" to 120, "x" to 0, and an empty range to -1. */
  lemma TruncationExamples()
    ensures ParseFloat([49, 46], 0, 2) == 10.0
    ensures ParseInt([49, 50, 120], 0, 3) == 120
    ensures ParseInt([120], 0, 1) == 0
    ensures ParseInt([49, 50], 2, 2) == -1
  {
    var one: seq<Byte> := [49];
    ParseFloatTrailingDot(one);
    assert one + [DOT] == [49, 46];
    var s: seq<Byte> := [49, 50, 120];
    var twelve: seq<Byte> := [49, 50];
    assert s[0..2] == twelve;
    assert DecimalValue(twelve) == 12 by {
      assert twelve[..1] == one;
      assert one[..0] == [];
    }
    var t: seq<Byte> := [120];
    assert t[0..0] == [];
  }
}
