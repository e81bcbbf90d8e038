/** The integer conversions of vsnprintf_impl with length modifier l, and reading them back with strto.c. */
module Printf {
  import opened Division
  import opened Numerals
  import opened Strto

  // ---------------------------------------------------------------------------------------
  // Digits

  function Pow4(n: nat): (p: nat)
    ensures p > 0
  {
    if n == 0 then 1 else 4 * Pow4(n - 1)
  }

  lemma ThirtyTwoDigits()
    ensures Pow4(32) == ULONG_LIMIT
  {
    assert Pow4(4) == 0x100;
    assert Pow4(8) == 0x1_0000;
    assert Pow4(12) == 0x100_0000;
    assert Pow4(16) == 0x1_0000_0000;
    assert Pow4(20) == 0x100_0000_0000;
    assert Pow4(24) == 0x1_0000_0000_0000;
    assert Pow4(28) == 0x100_0000_0000_0000;
  }

  lemma {:induction false} NumeralLength(v: nat, base: nat, upper: bool, n: nat)
    requires 4 <= base <= 36 && v < Pow4(n) && n > 0
    ensures |Numeral(v, base, upper)| <= n
    decreases n
  {
    if v >= base {
      Smaller(v, base);
      Quarter(v, base, Pow4(n - 1));
      assert n > 1 by {
        assert Pow4(1) == 4;
      }
      NumeralLength(v / base, base, upper, n - 1);
    }
  }

  lemma Quarter(v: nat, base: nat, p: nat)
    requires base >= 4 && v < 4 * p
    ensures v / base < p
  {
    var q := v / base;
    assert v == base * q + v % base;
    AtLeast(base, 4, q);
  }

  /** uint_to_base into a buffer of 64 characters: every unsigned long fits, in any base from 4 on. */
  method UintToBase(value: nat, base: nat, upper: bool) returns (buf: array<char>, len: nat)
    requires value < ULONG_LIMIT && 4 <= base <= 16
    ensures fresh(buf) && buf.Length == 64 && len <= 32 && buf[..len] == Numeral(value, base, upper)
  {
    hide Numeral, Reversed;
    buf := new char[64];
    var tmp := new char[32];
    ThirtyTwoDigits();
    NumeralLength(value, base, upper, 32);
    len := DigitsInto(tmp, value, base, upper);
    CopyReversed(buf, tmp, len, tmp[..len]);
  }

  // ---------------------------------------------------------------------------------------
  // One conversion

  function BaseOf(spec: char): nat {
    if spec == 'x' || spec == 'X' then 16 else if spec == 'o' then 8 else 10
  }

  predicate IsIntegerSpec(spec: char) {
    spec == 'd' || spec == 'u' || spec == 'x' || spec == 'X' || spec == 'o'
  }

  /** The argument has the type the conversion takes: long for d, unsigned long for the others. */
  predicate Fits(spec: char, v: int) {
    if spec == 'd' then -0x8000_0000_0000_0000 <= v < 0x8000_0000_0000_0000 else 0 <= v < 0x1_0000_0000_0000_0000
  }

  function Digits(spec: char, v: int): (s: string)
    ensures |s| >= 1
  {
    Numeral(if v < 0 then -v else v, BaseOf(spec), spec == 'X')
  }

  function Max(a: int, b: int): int {
    if a < b then b else a
  }

  function Blanks(sign: bool, digits: string, width: int, precision: int): nat {
    Max(0, width - ((if sign then 1 else 0) + Max(|digits|, precision)))
  }

  /** Blanks up to the width, the sign, zeros up to the precision, the digits. */
  function Laid(sign: bool, digits: string, width: int, precision: int): string {
    Repeat(' ', Blanks(sign, digits, width, precision)) + SignText(if sign then Minus else None)
    + Repeat('0', Max(0, precision - |digits|)) + digits
  }

  function IntegerText(spec: char, v: int, width: int, precision: int): string {
    Laid(v < 0, Digits(spec, v), width, precision)
  }

  lemma KnownTexts()
    ensures IntegerText('x', 254, 0, 0) == "fe" && IntegerText('X', 254, 0, 0) == "FE"
    ensures IntegerText('o', 9, 0, 0) == "11" && IntegerText('u', 40, 0, 0) == "40"
  {
    hide Laid;
    assert Numeral(254, 16, false) == "fe" && Numeral(254, 16, true) == "FE";
    assert Numeral(9, 8, false) == "11" && Numeral(40, 10, false) == "40";
    PlainText("fe");
    PlainText("FE");
    PlainText("11");
    PlainText("40");
  }

  lemma PlainText(digits: string)
    requires digits != ""
    ensures Laid(false, digits, 0, 0) == digits
  {
    assert Repeat(' ', 0) == "" && Repeat('0', 0) == "";
  }

  lemma KnownLayout()
    ensures IntegerText('d', -7, 6, 3) == "  -007"
  {
    assert Numeral(7, 10, false) == "7";
    assert Repeat(' ', 2) == "  " && Repeat('0', 2) == "00";
  }

  /** out_char has been called for each character of the text: a full buffer drops the rest. */
  ghost predicate Shown(str: array<char>, size: nat, pos: nat, text: string)
    reads str
  {
    size <= str.Length && pos == |text| && forall i :: 0 <= i < pos && i + 1 < size ==> str[i] == text[i]
  }

  method OutChar(str: array<char>, size: nat, pos: nat, c: char, ghost text: string) returns (pos': nat)
    requires Shown(str, size, pos, text)
    modifies str
    ensures Shown(str, size, pos', text + [c])
  {
    if pos + 1 < size {
      str[pos] := c;
    }
    pos' := pos + 1;
  }

  method OutRepeated(str: array<char>, size: nat, pos: nat, c: char, count: int, ghost text: string) returns (pos': nat)
    requires Shown(str, size, pos, text)
    modifies str
    ensures Shown(str, size, pos', text + Repeat(c, Max(0, count)))
  {
    pos' := pos;
    var i := 0;
    assert text + Repeat(c, 0) == text;
    while i < count
      invariant 0 <= i <= Max(0, count) && Shown(str, size, pos', text + Repeat(c, i))
    {
      pos' := OutChar(str, size, pos', c, text + Repeat(c, i));
      assert text + Repeat(c, i) + [c] == text + Repeat(c, i + 1);
      i := i + 1;
    }
  }

  method OutStr(str: array<char>, size: nat, pos: nat, s: string, ghost text: string) returns (pos': nat)
    requires Shown(str, size, pos, text)
    modifies str
    ensures Shown(str, size, pos', text + s)
  {
    pos' := pos;
    var i := 0;
    assert text + s[..0] == text;
    while i < |s|
      invariant 0 <= i <= |s| && Shown(str, size, pos', text + s[..i])
    {
      pos' := OutChar(str, size, pos', s[i], text + s[..i]);
      assert text + s[..i] + [s[i]] == text + s[..i + 1];
      i := i + 1;
    }
    assert s[..i] == s;
  }

  /** vsnprintf with a format that is one integer conversion: %[width][.precision]l and the letter. */
  method PrintInteger(str: array<char>, size: nat, spec: char, v: int, width: int, precision: int) returns (pos: nat)
    requires size <= str.Length && IsIntegerSpec(spec) && Fits(spec, v) && 0 <= width && -1 <= precision
    modifies str
    ensures var text := IntegerText(spec, v, width, precision);
            && pos == |text| && (size > 0 && pos < size ==> str[..pos] == text && str[pos] == '\0')
            && (0 < size <= pos ==> str[..size - 1] == text[..size - 1] && str[size - 1] == '\0')
  {
    hide Numeral, Laid;
    var sign := v < 0;
    var uv := v % ULONG_LIMIT;
    if sign {
      uv := (0 - uv) % ULONG_LIMIT;
    }
    var buf, len := UintToBase(uv, BaseOf(spec), spec == 'X');
    pos := Lay(str, size, sign, buf[..len], width, precision);
    Terminate(str, size, pos, IntegerText(spec, v, width, precision));
  }

  /** The common end of the conversions. */
  method Lay(str: array<char>, size: nat, sign: bool, digits: string, width: int, precision: int) returns (pos: nat)
    requires size <= str.Length && 0 <= width && -1 <= precision
    modifies str
    ensures Shown(str, size, pos, Laid(sign, digits, width, precision))
  {
    hide Repeat, Shown;
    var numLen := if precision > |digits| then precision else |digits|;
    var total := (if sign then 1 else 0) + numLen;
    ghost var blanks := Repeat(' ', Max(0, width - total));
    NothingShown(str, size);
    pos := OutRepeated(str, size, 0, ' ', width - total, []);
    assert [] + blanks == blanks;
    ghost var text := blanks + SignText(if sign then Minus else None);
    if sign {
      pos := OutChar(str, size, pos, '-', blanks);
    } else {
      assert text == blanks;
    }
    pos := OutRepeated(str, size, pos, '0', numLen - |digits|, text);
    text := text + Repeat('0', Max(0, numLen - |digits|));
    pos := OutStr(str, size, pos, digits, text);
  }

  lemma NothingShown(str: array<char>, size: nat)
    requires size <= str.Length
    ensures Shown(str, size, 0, [])
  {
  }

  /** The end of vsnprintf_impl. */
  method Terminate(str: array<char>, size: nat, pos: nat, ghost text: string)
    requires Shown(str, size, pos, text)
    modifies str
    ensures size > 0 && pos < size ==> str[..pos] == text && str[pos] == '\0'
    ensures 0 < size <= pos ==> str[..size - 1] == text[..size - 1] && str[size - 1] == '\0'
  {
    if size > 0 {
      if pos >= size {
        str[size - 1] := '\0';
      } else {
        str[pos] := '\0';
      }
    }
  }

  // ---------------------------------------------------------------------------------------
  // Reading back

  lemma TextLocated(spec: char, v: int, width: int, precision: int)
    requires IsIntegerSpec(spec)
    ensures var text, base := IntegerText(spec, v, width, precision), BaseOf(spec);
            var f := Locate(text, base);
            && f.neg == (v < 0) && f.base == base && f.start < f.end == |text|
            && Value(text[f.start..f.end], base) == if v < 0 then -v else v
  {
    hide Numeral, Value, Locate;
    var digits, base := Digits(spec, v), BaseOf(spec);
    var n := Max(0, precision - |digits|);
    ValueOfNumeral(if v < 0 then -v else v, base, spec == 'X');
    ValueOfPadded(n, digits, base);
    var b := Blanks(v < 0, digits, width, precision);
    var g := if v < 0 then Minus else None;
    NumberLocated(b, g, Repeat('0', n) + digits, [], base);
    assert Repeat(' ', b) + SignText(g) + (Repeat('0', n) + digits) + []
           == Repeat(' ', b) + SignText(g) + Repeat('0', n) + digits == IntegerText(spec, v, width, precision);
  }

  /** strtol reads back what %ld printed, and strtoul what %lu, %lx, %lX and %lo printed, to the end. */
  lemma PrintedIsRead(spec: char, v: int, width: int, precision: int)
    requires IsIntegerSpec(spec) && Fits(spec, v)
    ensures var text := IntegerText(spec, v, width, precision);
            (if spec == 'd' then LongOf(text, 10) else UlongOf(text, BaseOf(spec))) == (v, |text|)
  {
    hide Value, Locate, IntegerText;
    TextLocated(spec, v, width, precision);
  }

  /** vsnprintf into a big enough buffer, then strtol or strtoul. */
  method PrintThenRead(spec: char, v: int, width: int, precision: int) returns (text: string, r: int, end: nat)
    requires IsIntegerSpec(spec) && Fits(spec, v) && 0 <= width && -1 <= precision
    ensures r == v && end == |text|
  {
    hide IntegerText, LongOf, UlongOf;
    var str := new char[|IntegerText(spec, v, width, precision)| + 1];
    var pos := PrintInteger(str, str.Length, spec, v, width, precision);
    text := str[..pos];
    PrintedIsRead(spec, v, width, precision);
    if spec == 'd' {
      r, end := Strtol(text, 10);
    } else {
      r, end := Strtoul(text, BaseOf(spec));
    }
  }
}
