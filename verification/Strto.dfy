/** strtol and strtoul of strto.c. */
module Strto {
  import opened Numerals

  /** The overflow test of the source is exact. */
  lemma CutTest(val: nat, d: nat, base: nat, cutoff: nat)
    requires 2 <= base && d < base
    ensures val > cutoff / base || (val == cutoff / base && d > cutoff % base) <==> Times(val, base) + d > cutoff
  {
    var q, r := cutoff / base, cutoff % base;
    assert cutoff == q * base + r;
    if val > q {
      MoreTimes(q + 1, val, base);
      assert (q + 1) * base == q * base + base;
    } else if val < q {
      MoreTimes(val + 1, q, base);
      assert (val + 1) * base == val * base + base;
    }
  }

  lemma MoreTimes(a: nat, b: nat, base: nat)
    requires a <= b
    ensures a * base <= b * base && Times(a, base) <= Times(b, base)
  {
  }

  lemma StaysAbove(v: nat, d: nat, base: nat, cutoff: nat)
    requires v > cutoff && base >= 1
    ensures Times(v, base) + d > cutoff
  {
    MoreTimes(1, base, v);
    assert Times(v, base) == base * v;
  }

  /** The digit loop shared by strtol and strtoul. */
  method Digits(s: string, start: nat, base: nat, cutoff: nat) returns (val: nat, overflow: bool, i: nat)
    requires start <= |s| && 2 <= base <= 36
    ensures i == AfterDigits(s, base, start) && AllDigits(s[start..i], base)
    ensures overflow <==> Value(s[start..i], base) > cutoff
    ensures !overflow ==> val == Value(s[start..i], base)
  {
    hide Value, Times, DigitVal, AfterDigits;
    val, overflow, i := 0, false, start;
    var cutdiv, cutlim := cutoff / base, cutoff % base;
    EmptyValue(base);
    assert s[start..start] == [];
    while i < |s| && IsDigit(s[i], base)
      invariant start <= i <= |s| && AllDigits(s[start..i], base)
      invariant AfterDigits(s, base, i) == AfterDigits(s, base, start)
      invariant overflow <==> Value(s[start..i], base) > cutoff
      invariant !overflow ==> val == Value(s[start..i], base)
    {
      var d := DigitVal(s[i]);
      ghost var v := Value(s[start..i], base);
      ValueLast(s[start..i], s[i], base);
      assert s[start..i + 1] == s[start..i] + [s[i]];
      NextDigit(s, base, i);
      if !overflow {
        CutTest(val, d, base, cutoff);
        if val > cutdiv || (val == cutdiv && d > cutlim) {
          overflow := true;
        } else {
          val := Times(val, base) + d;
        }
      } else {
        StaysAbove(v, d, base, cutoff);
      }
      i := i + 1;
    }
    NoDigit(s, base, i);
  }

  lemma EmptyValue(base: nat)
    ensures Value([], base) == 0
  {
  }

  lemma NextDigit(s: string, base: nat, i: nat)
    requires i < |s| && IsDigit(s[i], base)
    ensures AfterDigits(s, base, i) == AfterDigits(s, base, i + 1)
  {
  }

  lemma NoDigit(s: string, base: nat, i: nat)
    requires i <= |s| && (i < |s| ==> !IsDigit(s[i], base))
    ensures AfterDigits(s, base, i) == i
  {
  }

  method SkipSpaces(s: string) returns (i: nat)
    ensures i == AfterSpaces(s, 0)
  {
    i := 0;
    while i < |s| && IsSpace(s[i])
      invariant 0 <= i <= |s| && AfterSpaces(s, i) == AfterSpaces(s, 0)
    {
      i := i + 1;
    }
  }

  /** White space, sign and base prefix. */
  method Front(s: string, base: nat) returns (neg: bool, b: nat, start: nat)
    requires base == 0 || 2 <= base <= 36
    ensures var f := Locate(s, base); neg == f.neg && b == f.base && start == f.start
  {
    hide AfterSpaces, AfterDigits;
    var i := SkipSpaces(s);
    neg := false;
    if i < |s| && (s[i] == '+' || s[i] == '-') {
      if s[i] == '-' {
        neg := true;
      }
      i := i + 1;
    }
    b, start := base, i;
    if base == 0 {
      if i < |s| && s[i] == '0' {
        if i + 1 < |s| && (s[i + 1] == 'x' || s[i + 1] == 'X') {
          b, start := 16, i + 2;
        } else {
          b, start := 8, i + 1;
        }
      } else {
        b := 10;
      }
    } else if base == 16 {
      if i + 1 < |s| && s[i] == '0' && (s[i + 1] == 'x' || s[i + 1] == 'X') {
        start := i + 2;
      }
    }
  }

  /** Conversion of unsigned long to long. */
  function ToLong(x: int): (r: int)
    ensures -0x8000_0000_0000_0000 <= r < 0x8000_0000_0000_0000
  {
    (x + 0x8000_0000_0000_0000) % 0x1_0000_0000_0000_0000 - 0x8000_0000_0000_0000
  }

  method Strtol(s: string, base: nat) returns (result: int, end: nat)
    requires base == 0 || 2 <= base <= 36
    ensures (result, end) == LongOf(s, base)
  {
    hide Value, AfterDigits, AfterSpaces, BaseAt, DigitVal;
    var neg, b, start := Front(s, base);
    var cutoff := if neg then LONG_LIMIT else LONG_LIMIT - 1;
    var val, overflow, i := Digits(s, start, b, cutoff);
    end := if i != start then i else 0;
    if i == start {
      return 0, end;
    }
    if overflow {
      return if neg then 0 - LONG_LIMIT else LONG_LIMIT - 1, end;
    }
    result := ToLong(val);
    if neg {
      result := ToLong(-result);
    }
  }

  method Strtoul(s: string, base: nat) returns (result: int, end: nat)
    requires base == 0 || 2 <= base <= 36
    ensures (result, end) == UlongOf(s, base)
  {
    hide Value, AfterDigits, AfterSpaces, BaseAt, DigitVal;
    var neg, b, start := Front(s, base);
    var val, overflow, i := Digits(s, start, b, ULONG_LIMIT - 1);
    end := if i != start then i else 0;
    if i == start {
      return 0, end;
    }
    if overflow {
      return ULONG_LIMIT - 1, end;
    }
    if neg {
      return ToLong(-ToLong(val)) % ULONG_LIMIT, end;
    }
    result := val;
  }

  /**
    The law of strtol on every optionally signed nonempty digit string of any length: the true value
    clamped to long, and the end pointer past the digits.
   */
  lemma DigitStringIsRead(g: Sign, digits: string, base: nat)
    requires 2 <= base <= 36 && digits != [] && AllDigits(digits, base)
    ensures var v: int := Value(digits, base);
            LongOf(SignText(g) + digits, base)
            == (Clamp(-0x8000_0000_0000_0000, if g == Minus then -v else v, 0x7FFF_FFFF_FFFF_FFFF), |SignText(g) + digits|)
  {
    hide Value, Locate;
    NumberLocated(0, g, digits, [], base);
    assert Repeat(' ', 0) + SignText(g) + digits + [] == SignText(g) + digits;
  }

  // ---------------------------------------------------------------------------------------
  // Against the subject sequence of ISO C (section 7.22.1.4)

  predicate DigitAt(s: string, i: nat, base: nat) {
    i < |s| && IsDigit(s[i], base)
  }

  /** The prefix 0x belongs to a number only if a hexadecimal digit follows; any other 0 is a digit itself. */
  function StandardBaseAt(s: string, j: nat, base: nat): (r: (nat, nat))
    requires j <= |s| && (base == 0 || 2 <= base <= 36)
    ensures 2 <= r.0 <= 36 && r.1 <= |s|
  {
    if (base == 0 || base == 16) && HexPrefix(s, j) && DigitAt(s, j + 2, 16) then (16, j + 2)
    else if base != 0 then (base, j)
    else if j < |s| && s[j] == '0' then (8, j)
    else (10, j)
  }

  function StandardLocate(s: string, base: nat): (f: Found)
    requires base == 0 || 2 <= base <= 36
    ensures 2 <= f.base <= 36 && f.start <= f.end <= |s| && AllDigits(s[f.start..f.end], f.base)
  {
    var i := AfterSpaces(s, 0);
    var j := if SignAt(s, i) then i + 1 else i;
    var (b, start) := StandardBaseAt(s, j, base);
    Found(SignAt(s, i) && s[i] == '-', b, start, AfterDigits(s, b, start))
  }

  function StandardLong(s: string, base: nat): (int, nat)
    requires base == 0 || 2 <= base <= 36
  {
    var f := StandardLocate(s, base);
    if f.start == f.end then (0, 0)
    else (Clamp(-0x8000_0000_0000_0000, SignedValue(s, f), 0x7FFF_FFFF_FFFF_FFFF), f.end)
  }

  function StandardUlong(s: string, base: nat): (int, nat)
    requires base == 0 || 2 <= base <= 36
  {
    var f := StandardLocate(s, base);
    var v := Value(s[f.start..f.end], f.base);
    if f.start == f.end then (0, 0)
    else if v > 0xFFFF_FFFF_FFFF_FFFF then (0xFFFF_FFFF_FFFF_FFFF, f.end)
    else (if f.neg && v > 0 then 0x1_0000_0000_0000_0000 - v else v, f.end)
  }

  /** Where the number starts: after the white space and the sign. */
  function NumberStart(s: string): (j: nat)
    ensures j <= |s|
  {
    var i := AfterSpaces(s, 0);
    if SignAt(s, i) then i + 1 else i
  }

  /** A 0 that the code takes for a base prefix although no digit of that base follows. */
  predicate PrefixAlone(s: string, base: nat) {
    var j := NumberStart(s);
    || ((base == 0 || base == 16) && HexPrefix(s, j) && !DigitAt(s, j + 2, 16))
    || (base == 0 && j < |s| && s[j] == '0' && !HexPrefix(s, j) && !DigitAt(s, j + 1, 8))
  }

  /** A leading zero changes neither the value nor where the digits end. */
  lemma LeadingZero(s: string, j: nat)
    requires j < |s| && s[j] == '0'
    ensures AfterDigits(s, 8, j) == AfterDigits(s, 8, j + 1)
    ensures Value(s[j..AfterDigits(s, 8, j)], 8) == Value(s[j + 1..AfterDigits(s, 8, j + 1)], 8)
  {
    hide Value, Times;
    NextDigit(s, 8, j);
    var e := AfterDigits(s, 8, j);
    assert Repeat('0', 1) == ['0'];
    assert s[j..e] == Repeat('0', 1) + s[j + 1..e];
    ValueOfPadded(1, s[j + 1..e], 8);
  }

  /** The code reads nothing where the standard reads the digit 0. */
  lemma PrefixReadAsNothing(s: string, base: nat)
    requires (base == 0 || 2 <= base <= 36) && PrefixAlone(s, base)
    ensures LongOf(s, base) == (0, 0) && UlongOf(s, base) == (0, 0)
    ensures StandardLong(s, base) == (0, NumberStart(s) + 1) == StandardUlong(s, base)
  {
    hide Value, AfterSpaces;
    var j := NumberStart(s);
    var b := StandardBaseAt(s, j, base).0;
    assert AfterDigits(s, b, j) == j + 1;
    assert s[j..j + 1] == [] + ['0'];
    ValueLast([], '0', b);
    EmptyValue(b);
  }

  /**
    For every text in every base the code takes, strtol and strtoul read what the standard says exactly if
    the number is not a prefix alone.
   */
  lemma ReadsAsStandardIff(s: string, base: nat)
    requires base == 0 || 2 <= base <= 36
    ensures LongOf(s, base) == StandardLong(s, base) <==> !PrefixAlone(s, base)
    ensures UlongOf(s, base) == StandardUlong(s, base) <==> !PrefixAlone(s, base)
  {
    hide Value, AfterSpaces, Clamp;
    var j := NumberStart(s);
    if PrefixAlone(s, base) {
      PrefixReadAsNothing(s, base);
    } else if base == 0 && j < |s| && s[j] == '0' && !HexPrefix(s, j) {
      LeadingZero(s, j);
      assert DigitAt(s, j + 1, 8);
    }
  }

  /** Texts of that kind. */
  lemma PrefixesAlone()
    ensures PrefixAlone("0", 0) && PrefixAlone("+0", 0) && PrefixAlone("-0", 0) && PrefixAlone("08", 0)
    ensures PrefixAlone("0x", 0) && PrefixAlone("0x", 16) && PrefixAlone("0xg", 16)
    ensures !PrefixAlone("0", 10) && !PrefixAlone("0", 16) && !PrefixAlone("00", 0)
  {
    assert AfterSpaces("0", 0) == 0 && AfterSpaces("+0", 0) == 0 && AfterSpaces("-0", 0) == 0 && AfterSpaces("08", 0) == 0;
    assert AfterSpaces("0x", 0) == 0 && AfterSpaces("0xg", 0) == 0 && AfterSpaces("00", 0) == 0;
  }
}
