/** Numerals in bases 2 to 36 and the part of a text that strtol reads as a number. */
module Numerals {
  import opened Division

  const LONG_LIMIT: nat := 0x8000_0000_0000_0000       // LONG_MAX + 1
  const ULONG_LIMIT: nat := 0x1_0000_0000_0000_0000    // ULONG_MAX + 1

  // ---------------------------------------------------------------------------------------
  // Digits

  /** digit_val. */
  function DigitVal(c: char): (d: int)
    ensures -1 <= d < 36
  {
    if '0' <= c <= '9' then c as int - '0' as int
    else if 'a' <= c <= 'z' then c as int - 'a' as int + 10
    else if 'A' <= c <= 'Z' then c as int - 'A' as int + 10
    else -1
  }

  function DigitChar(d: nat, upper: bool): (c: char)
    requires d < 36
    ensures DigitVal(c) == d
  {
    if d < 10 then ('0' as int + d) as char
    else if upper then ('A' as int + d - 10) as char
    else ('a' as int + d - 10) as char
  }

  predicate IsDigit(c: char, base: nat) {
    0 <= DigitVal(c) < base
  }

  ghost predicate AllDigits(s: string, base: nat) {
    forall i :: 0 <= i < |s| ==> IsDigit(s[i], base)
  }

  function Times(x: nat, y: nat): nat {
    x * y
  }

  /** The number a string of digits denotes; it is not bounded. */
  function Value(s: string, base: nat): nat
    requires AllDigits(s, base)
  {
    if s == [] then 0 else Times(Value(s[..|s| - 1], base), base) + DigitVal(s[|s| - 1])
  }

  /** The numeral of v without leading zeros. */
  function Numeral(v: nat, base: nat, upper: bool): (s: string)
    requires 2 <= base <= 36
    ensures |s| >= 1 && AllDigits(s, base)
    decreases v
  {
    if v < base then [DigitChar(v, upper)]
    else
      Smaller(v, base);
      Numeral(v / base, base, upper) + [DigitChar(v % base, upper)]
  }

  lemma Smaller(v: nat, base: nat)
    requires 2 <= base <= v
    ensures 0 < v / base < v && v % base < base && Times(v / base, base) + v % base == v
  {
    var q := v / base;
    assert v == base * q + v % base;
    Scaled(base, q);
    AtLeast(base, 2, q);
    assert Times(q, base) == base * q;
  }

  lemma ValueLast(s: string, c: char, base: nat)
    requires AllDigits(s, base) && IsDigit(c, base)
    ensures AllDigits(s + [c], base) && Value(s + [c], base) == Times(Value(s, base), base) + DigitVal(c)
  {
    assert (s + [c])[..|s|] == s;
  }

  lemma {:induction false} ValueOfNumeral(v: nat, base: nat, upper: bool)
    requires 2 <= base <= 36
    ensures Value(Numeral(v, base, upper), base) == v
    decreases v
  {
    hide Times;
    if v < base {
      ValueLast([], DigitChar(v, upper), base);
      assert [] + [DigitChar(v, upper)] == [DigitChar(v, upper)];
      TimesZero(base);
    } else {
      Smaller(v, base);
      ValueOfNumeral(v / base, base, upper);
      ValueLast(Numeral(v / base, base, upper), DigitChar(v % base, upper), base);
    }
  }

  lemma TimesZero(base: nat)
    ensures Times(0, base) == 0
  {
  }

  function Repeat(c: char, n: nat): (s: string)
    ensures |s| == n && forall i :: 0 <= i < n ==> s[i] == c
  {
    if n == 0 then [] else Repeat(c, n - 1) + [c]
  }

  lemma {:induction false} ValueOfPadded(n: nat, s: string, base: nat)
    requires AllDigits(s, base) && base > 0
    ensures AllDigits(Repeat('0', n) + s, base) && Value(Repeat('0', n) + s, base) == Value(s, base)
  {
    var z := Repeat('0', n) + s;
    if s != [] {
      ValueOfPadded(n, s[..|s| - 1], base);
      assert z[..|z| - 1] == Repeat('0', n) + s[..|s| - 1];
    } else if n > 0 {
      ValueOfPadded(n - 1, s, base);
      assert z[..n - 1] == Repeat('0', n - 1) + s;
    }
  }

  // ---------------------------------------------------------------------------------------
  // Digits produced from the last to the first

  function Reversed(s: string): (r: string)
    ensures |r| == |s| && forall i :: 0 <= i < |s| ==> r[i] == s[|s| - 1 - i]
  {
    seq(|s|, i requires 0 <= i < |s| => s[|s| - 1 - i])
  }

  lemma ReversedGrow(s: string, c: char)
    ensures Reversed(s + [c]) == [c] + Reversed(s) && Reversed([]) == []
  {
  }

  lemma NumeralStep(v: nat, base: nat, upper: bool)
    requires 2 <= base <= 36
    ensures v % base < base && v / base <= v
    ensures v < base ==> v / base == 0 && Numeral(v, base, upper) == [DigitChar(v % base, upper)]
    ensures v >= base ==> 0 < v / base < v
    ensures v >= base ==> Numeral(v, base, upper) == Numeral(v / base, base, upper) + [DigitChar(v % base, upper)]
  {
    if v >= base {
      Smaller(v, base);
    } else {
      Small(v, base);
    }
  }

  /** The do-while loop of fmt_int and uint_to_base: the digits of v, least significant first, in tmp. */
  method DigitsInto(tmp: array<char>, value: nat, base: nat, upper: bool) returns (pos: nat)
    requires 2 <= base <= 36 && |Numeral(value, base, upper)| <= tmp.Length
    modifies tmp
    ensures pos <= tmp.Length && Reversed(tmp[..pos]) == Numeral(value, base, upper)
  {
    hide Numeral, Reversed, DigitChar;
    ghost var text := Numeral(value, base, upper);
    pos := 0;
    var v: nat := value;
    var again := true;
    ReversedGrow([], ' ');
    assert tmp[..0] == [];
    while again
      invariant pos <= tmp.Length
      invariant again ==> pos + |Numeral(v, base, upper)| == |text| && text == Numeral(v, base, upper) + Reversed(tmp[..pos])
      invariant !again ==> Reversed(tmp[..pos]) == text
      decreases again, v
    {
      ghost var before := tmp[..pos];
      NumeralStep(v, base, upper);
      var c := DigitChar(v % base, upper);
      tmp[pos] := c;
      assert tmp[..pos + 1] == before + [c];
      ReversedGrow(before, c);
      ghost var high := if v < base then [] else Numeral(v / base, base, upper);
      assert high + [c] + Reversed(before) == high + ([c] + Reversed(before));
      pos := pos + 1;
      v := v / base;
      again := v != 0 && pos < tmp.Length;
    }
  }

  /** The digits in tmp are copied in reading order; a short buffer gets the last ones. */
  method CopyReversed(buf: array<char>, tmp: array<char>, pos: nat, ghost all: string)
    requires pos <= buf.Length && buf != tmp && pos <= |all| <= tmp.Length && all == tmp[..|all|]
    modifies buf
    ensures buf[..pos] == Reversed(all)[|all| - pos..]
  {
    var i := 0;
    while i < pos
      invariant 0 <= i <= pos && forall k :: 0 <= k < i ==> buf[k] == tmp[pos - k - 1]
    {
      buf[i] := tmp[pos - i - 1];
      i := i + 1;
    }
  }

  // ---------------------------------------------------------------------------------------
  // Where the number is in a text

  predicate IsSpace(c: char) {
    c == ' ' || c == '\t' || c == '\n' || c == '\r' || c == '\U{000C}' || c == '\U{000B}'
  }

  /** White space by character codes. */
  lemma SpaceCodes(c: char)
    ensures IsSpace(c) <==> c as int == 32 || 9 <= c as int <= 13
  {
  }

  /** The first position from i on that is not white space. */
  function AfterSpaces(s: string, i: nat): (j: nat)
    requires i <= |s|
    ensures i <= j <= |s| && (j < |s| ==> !IsSpace(s[j])) && forall k :: i <= k < j ==> IsSpace(s[k])
    decreases |s| - i
  {
    if i < |s| && IsSpace(s[i]) then AfterSpaces(s, i + 1) else i
  }

  /** The first position from i on that is not a digit. */
  function AfterDigits(s: string, base: nat, i: nat): (j: nat)
    requires i <= |s|
    ensures i <= j <= |s| && (j < |s| ==> !IsDigit(s[j], base)) && forall k :: i <= k < j ==> IsDigit(s[k], base)
    decreases |s| - i
  {
    if i < |s| && IsDigit(s[i], base) then AfterDigits(s, base, i + 1) else i
  }

  predicate HexPrefix(s: string, i: nat) {
    i + 1 < |s| && s[i] == '0' && (s[i + 1] == 'x' || s[i + 1] == 'X')
  }

  /** Sign, effective base, and the digits as s[start..end]. */
  datatype Found = Found(neg: bool, base: nat, start: nat, end: nat)

  predicate SignAt(s: string, i: nat) {
    i < |s| && (s[i] == '+' || s[i] == '-')
  }

  /** The base and the start of the digits, after the sign. */
  function BaseAt(s: string, j: nat, base: nat): (r: (nat, nat))
    requires j <= |s| && (base == 0 || 2 <= base <= 36)
    ensures 2 <= r.0 <= 36 && r.1 <= |s|
  {
    if base == 0 then
      if HexPrefix(s, j) then (16, j + 2)
      else if j < |s| && s[j] == '0' then (8, j + 1)
      else (10, j)
    else if base == 16 && HexPrefix(s, j) then (16, j + 2)
    else (base, j)
  }

  function Locate(s: string, base: nat): (f: Found)
    requires base == 0 || 2 <= base <= 36
    ensures 2 <= f.base <= 36 && f.start <= f.end <= |s| && AllDigits(s[f.start..f.end], f.base)
  {
    var i := AfterSpaces(s, 0);
    var j := if SignAt(s, i) then i + 1 else i;
    var (b, start) := BaseAt(s, j, base);
    Found(SignAt(s, i) && s[i] == '-', b, start, AfterDigits(s, b, start))
  }

  function Clamp(lo: int, x: int, hi: int): int
    requires lo <= hi
  {
    if x < lo then lo else if x > hi then hi else x
  }

  /** The signed value located. */
  function SignedValue(s: string, f: Found): int
    requires f.start <= f.end <= |s| && AllDigits(s[f.start..f.end], f.base)
  {
    var v: int := Value(s[f.start..f.end], f.base);
    if f.neg then -v else v
  }

  /** strtol: the value clamped to long, and the end pointer (the start of the text if nothing was read). */
  function LongOf(s: string, base: nat): (r: (int, nat))
    requires base == 0 || 2 <= base <= 36
    ensures r.1 <= |s|
  {
    var f := Locate(s, base);
    if f.start == f.end then (0, 0)
    else (Clamp(-0x8000_0000_0000_0000, SignedValue(s, f), 0x7FFF_FFFF_FFFF_FFFF), f.end)
  }

  /** strtoul: the magnitude clamped to unsigned long, then negated modulo 2^64. */
  function UlongOf(s: string, base: nat): (int, nat)
    requires base == 0 || 2 <= base <= 36
  {
    var f := Locate(s, base);
    var v := Value(s[f.start..f.end], f.base);
    if f.start == f.end then (0, 0)
    else if v > 0xFFFF_FFFF_FFFF_FFFF then (0xFFFF_FFFF_FFFF_FFFF, f.end)
    else (if f.neg && v > 0 then 0x1_0000_0000_0000_0000 - v else v, f.end)
  }

  // ---------------------------------------------------------------------------------------
  // What is promised

  lemma {:induction false} SpacesSkipped(n: nat, rest: string, i: nat)
    requires i <= n && (rest == [] || !IsSpace(rest[0]))
    ensures AfterSpaces(Repeat(' ', n) + rest, i) == n
    decreases n - i
  {
    var s := Repeat(' ', n) + rest;
    if i < n {
      SpacesSkipped(n, rest, i + 1);
    } else {
      assert rest != [] ==> s[n] == rest[0];
    }
  }

  lemma {:induction false} DigitsTaken(pre: string, digits: string, rest: string, base: nat, i: nat)
    requires AllDigits(digits, base) && (rest == [] || !IsDigit(rest[0], base)) && |pre| <= i <= |pre + digits|
    ensures AfterDigits(pre + digits + rest, base, i) == |pre + digits|
    decreases |pre + digits| - i
  {
    var s := pre + digits + rest;
    if i < |pre + digits| {
      assert s[i] == digits[i - |pre|];
      DigitsTaken(pre, digits, rest, base, i + 1);
    } else {
      assert rest != [] ==> s[i] == rest[0];
    }
  }

  /** The sign in front of a number. */
  datatype Sign = None | Plus | Minus

  function SignText(g: Sign): string {
    match g case None => [] case Plus => ['+'] case Minus => ['-']
  }

  lemma DigitIsNoSign(c: char, base: nat)
    requires IsDigit(c, base) && base <= 36
    ensures !IsSpace(c) && c != '+' && c != '-' && (base <= 16 ==> c != 'x' && c != 'X')
  {
  }

  /** In base 16 the digit 0 with an x behind it is the base prefix, not a number. */
  predicate IsPrefix(digits: string, rest: string, base: nat) {
    base == 16 && digits == ['0'] && rest != [] && (rest[0] == 'x' || rest[0] == 'X')
  }

  /**
    Spaces, a sign, a nonempty string of digits of the base, and anything that is not a digit: the
    digits are located exactly, or the search goes on behind the base prefix.
   */
  lemma NumberLocated(spaces: nat, g: Sign, digits: string, rest: string, base: nat)
    requires 2 <= base <= 36 && digits != [] && AllDigits(digits, base)
    requires rest == [] || !IsDigit(rest[0], base)
    ensures var s := Repeat(' ', spaces) + SignText(g) + digits + rest;
            var n := spaces + |SignText(g)|;
            && s[n..n + |digits|] == digits
            && if IsPrefix(digits, rest, base)
               then Locate(s, base) == Found(g == Minus, 16, n + 2, AfterDigits(s, 16, n + 2))
               else Locate(s, base) == Found(g == Minus, base, n, n + |digits|)
  {
    hide AllDigits, AfterSpaces, AfterDigits, BaseAt, Repeat;
    var pre := Repeat(' ', spaces) + SignText(g);
    SignFound(spaces, g, digits, rest, base);
    BasePlain(pre, digits, rest, base);
    DigitsTaken(pre, digits, rest, base, |pre|);
    Middle(pre, digits, rest);
  }

  lemma Middle(pre: string, s: string, rest: string)
    ensures (pre + s + rest)[|pre|..|pre| + |s|] == s
  {
  }

  lemma SignFound(spaces: nat, g: Sign, digits: string, rest: string, base: nat)
    requires 2 <= base <= 36 && digits != [] && AllDigits(digits, base)
    ensures var s := Repeat(' ', spaces) + SignText(g) + digits + rest;
            AfterSpaces(s, 0) == spaces && (SignAt(s, spaces) <==> g != None) && (g != None ==> (s[spaces] == '-' <==> g == Minus))
  {
    hide IsDigit, AfterSpaces;
    var tail := SignText(g) + digits + rest;
    assert Repeat(' ', spaces) + SignText(g) + digits + rest == Repeat(' ', spaces) + tail;
    DigitIsNoSign(digits[0], base);
    SpacesSkipped(spaces, tail, 0);
  }

  lemma BasePlain(pre: string, digits: string, rest: string, base: nat)
    requires 2 <= base <= 36 && digits != [] && AllDigits(digits, base)
    ensures BaseAt(pre + digits + rest, |pre|, base) == if IsPrefix(digits, rest, base) then (16, |pre| + 2) else (base, |pre|)
  {
    hide IsDigit;
    var s, n := pre + digits + rest, |pre|;
    assert s[n] == digits[0];
    if |digits| > 1 {
      assert s[n + 1] == digits[1];
      DigitIsNoSign(digits[1], base);
    } else {
      assert rest != [] ==> s[n + 1] == rest[0];
      assert digits[0] == '0' ==> digits == ['0'];
    }
  }
}
