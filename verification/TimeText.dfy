/**
  strftime and strptime.  Texts are the characters before the terminating null; the output buffer
  of strftime is an array.
 */
module TimeText {
  import opened Calendar
  import opened Numerals

  // ---------------------------------------------------------------------------------------
  // Decimal numerals

  function Decimal(v: nat): string {
    Numeral(v, 10, false)
  }

  function Magnitude(v: int): nat {
    if v < 0 then -v else v
  }

  /** What fmt_int writes: the magnitude, padded with zeros on the left. */
  function Padded(v: int, width: nat): string {
    var d := Decimal(Magnitude(v));
    if |d| < width then Repeat('0', width - |d|) + d else d
  }

  function Pow10(n: nat): (p: nat)
    ensures p > 0
  {
    if n == 0 then 1 else 10 * Pow10(n - 1)
  }

  lemma {:induction false} DecimalLength(v: nat, n: nat)
    requires n > 0
    ensures |Decimal(v)| <= n <==> v < Pow10(n)
  {
    if n == 1 {
      assert Pow10(1) == 10;
    } else if v >= 10 {
      DecimalLength(v / 10, n - 1);
    } else {
      assert Pow10(n) >= 10 by {
        assert Pow10(n) == 10 * Pow10(n - 1);
      }
    }
  }

  /** A number that fits the width is read back; the text has exactly that width. */
  lemma ValueOfPadded(v: int, width: nat)
    requires width > 0
    ensures AllDigits(Padded(v, width), 10) && Value(Padded(v, width), 10) == Magnitude(v)
    ensures |Padded(v, width)| == width <==> Magnitude(v) < Pow10(width)
    ensures |Padded(v, width)| >= width
  {
    hide Numeral, Pow10, Value, AllDigits;
    ValueOfNumeral(Magnitude(v), 10, false);
    DecimalLength(Magnitude(v), width);
    var d := Decimal(Magnitude(v));
    if |d| < width {
      Numerals.ValueOfPadded(width - |d|, d, 10);
    }
  }

  // ---------------------------------------------------------------------------------------
  // fmt_int

  /** The padding loop. */
  method PadInto(tmp: array<char>, start: nat, width: nat, ghost d: string) returns (pos: nat)
    requires tmp.Length == 16 && start <= 16 && width <= 16 && Reversed(tmp[..start]) == d
    modifies tmp
    ensures pos == (if start < width then width else start)
    ensures Reversed(tmp[..pos]) == Repeat('0', pos - start) + d
  {
    pos := start;
    assert Repeat('0', 0) + d == d;
    while pos < width && pos < tmp.Length
      invariant start <= pos <= 16 && (pos <= width || pos == start)
      invariant Reversed(tmp[..pos]) == Repeat('0', pos - start) + d
    {
      ghost var before := tmp[..pos];
      tmp[pos] := '0';
      assert tmp[..pos + 1] == before + ['0'];
      ReversedGrow(before, '0');
      ZerosGrow(pos - start, d);
      pos := pos + 1;
    }
  }

  lemma PaddedIs(v: int, width: nat, all: string)
    requires var d := Decimal(Magnitude(v));
             |all| >= |d| && |all| == (if |d| < width then width else |d|) && Reversed(all) == Repeat('0', |all| - |d|) + d
    ensures Reversed(all) == Padded(v, width) && |Padded(v, width)| == |all|
  {
    hide Numeral, Reversed;
    var d := Decimal(Magnitude(v));
    assert Repeat('0', 0) + d == d;
  }

  lemma ZerosGrow(n: nat, d: string)
    ensures ['0'] + (Repeat('0', n) + d) == Repeat('0', n + 1) + d
  {
  }

  /** fmt_int; a buffer that is too short gets the last digits. */
  method FmtInt(buf: array<char>, v: int, width: nat) returns (pos: nat)
    requires width <= 16 && -INT_LIMIT < v < INT_LIMIT
    modifies buf
    ensures pos == if |Padded(v, width)| <= buf.Length then |Padded(v, width)| else buf.Length
    ensures pos <= 16 && buf[..pos] == Padded(v, width)[|Padded(v, width)| - pos..]
  {
    hide Numeral, Pow10, Reversed, Repeat, Padded;
    var tmp := new char[16];
    var val := v;
    if val < 0 {
      val := -val;
    }
    BelowTenDigits(val);
    DecimalLength(val, 10);
    pos := DigitsInto(tmp, val, 10, false);
    pos := PadInto(tmp, pos, width, Decimal(val));
    ghost var all := tmp[..pos];
    PaddedIs(v, width, all);
    if pos > buf.Length {
      pos := buf.Length;
    }
    CopyReversed(buf, tmp, pos, all);
  }

  lemma BelowTenDigits(v: nat)
    requires v < INT_LIMIT
    ensures v < Pow10(10)
  {
    assert Pow10(4) == 10000;
    assert Pow10(7) == 10000000;
    assert Pow10(10) == 10000000000;
  }

  // ---------------------------------------------------------------------------------------
  // strftime

  function Weekday(d: int): string {
    if d == 0 then "Sun" else if d == 1 then "Mon" else if d == 2 then "Tue" else if d == 3 then "Wed"
    else if d == 4 then "Thu" else if d == 5 then "Fri" else if d == 6 then "Sat" else ""
  }

  function MonthName(m: int): string {
    if m == 0 then "Jan" else if m == 1 then "Feb" else if m == 2 then "Mar" else if m == 3 then "Apr"
    else if m == 4 then "May" else if m == 5 then "Jun" else if m == 6 then "Jul" else if m == 7 then "Aug"
    else if m == 8 then "Sep" else if m == 9 then "Oct" else if m == 10 then "Nov" else if m == 11 then "Dec"
    else ""
  }

  /** The abbreviations in rows. */
  lemma NamesInARow(d: nat, m: nat)
    requires d < 7 && m < 6
    ensures Weekday(d) == "SunMonTueWedThuFriSat"[3 * d..3 * d + 3]
    ensures MonthName(m) == "JanFebMarAprMayJun"[3 * m..3 * m + 3]
    ensures MonthName(m + 6) == "JulAugSepOctNovDec"[3 * m..3 * m + 3]
  {
    DaysInARow(d);
    SpringInARow(m);
    AutumnInARow(m);
  }

  lemma DaysInARow(d: nat)
    requires d < 7
    ensures Weekday(d) == "SunMonTueWedThuFriSat"[3 * d..3 * d + 3]
  {
  }

  lemma SpringInARow(m: nat)
    requires m < 6
    ensures MonthName(m) == "JanFebMarAprMayJun"[3 * m..3 * m + 3]
  {
  }

  lemma AutumnInARow(m: nat)
    requires m < 6
    ensures MonthName(m + 6) == "JulAugSepOctNovDec"[3 * m..3 * m + 3]
  {
  }

  /** The conversions that strptime reads as well. */
  predicate IsField(c: char) {
    c == 'Y' || c == 'm' || c == 'd' || c == 'H' || c == 'M' || c == 'S'
  }

  predicate IsNumeric(c: char) {
    IsField(c) || c == 'w' || c == 'u'
  }

  function FieldOf(c: char, tm: Tm): int
    requires IsNumeric(c)
  {
    if c == 'Y' then tm.year + 1900 else if c == 'm' then tm.mon + 1 else if c == 'd' then tm.mday
    else if c == 'H' then tm.hour else if c == 'M' then tm.min else if c == 'S' then tm.sec
    else if c == 'u' && tm.wday == 0 then 7 else tm.wday
  }

  function WidthOf(c: char): (w: nat)
    ensures 1 <= w <= 4
  {
    if c == 'Y' then 4 else if c == 'w' || c == 'u' then 1 else 2
  }

  function Piece(c: char, tm: Tm): string {
    if IsNumeric(c) then Padded(FieldOf(c, tm), WidthOf(c))
    else if c == '%' then "%"
    else if c == 'a' then Weekday(tm.wday)
    else if c == 'b' then MonthName(tm.mon)
    else if c == 'Z' then "UTC"
    else if c == 'z' then "+0000"
    else ['%', c]
  }

  /** The text a format stands for.  A lone % at the end stands for nothing. */
  function Render(format: string, tm: Tm): string {
    if format == [] then []
    else if format[0] != '%' then [format[0]] + Render(format[1..], tm)
    else if |format| == 1 then []
    else Piece(format[1], tm) + Render(format[2..], tm)
  }

  predicate IntFields(tm: Tm) {
    && -INT_LIMIT < tm.year + 1900 < INT_LIMIT && -INT_LIMIT < tm.mon + 1 < INT_LIMIT
    && -INT_LIMIT < tm.mday < INT_LIMIT && -INT_LIMIT < tm.hour < INT_LIMIT && -INT_LIMIT < tm.min < INT_LIMIT
    && -INT_LIMIT < tm.sec < INT_LIMIT && -INT_LIMIT < tm.wday < INT_LIMIT
  }

  /** The bounds check and the copy of one conversion. */
  method Put(s: array<char>, max: nat, pos: nat, text: string) returns (ok: bool, pos': nat)
    requires pos < max <= s.Length
    modifies s
    ensures ok <==> pos + |text| < max
    ensures ok ==> pos' == pos + |text| && s[..pos'] == old(s[..pos]) + text
  {
    ok, pos' := pos + |text| < max, pos;
    if !ok {
      return;
    }
    var i := 0;
    while i < |text|
      invariant 0 <= i <= |text|
      invariant s[..pos] == old(s[..pos]) && forall k :: 0 <= k < i ==> s[pos + k] == text[k]
    {
      s[pos + i] := text[i];
      i := i + 1;
    }
    pos' := pos + |text|;
  }

  /** One conversion specification. */
  method Convert(s: array<char>, max: nat, pos: nat, c: char, tm: Tm) returns (ok: bool, pos': nat)
    requires pos < max <= s.Length && IntFields(tm)
    modifies s
    ensures ok <==> pos + |Piece(c, tm)| < max
    ensures ok ==> pos' == pos + |Piece(c, tm)| && s[..pos'] == old(s[..pos]) + Piece(c, tm)
  {
    hide Padded, Weekday, MonthName;
    if IsNumeric(c) {
      var buf := new char[16];
      ghost var text := Padded(FieldOf(c, tm), WidthOf(c));
      PaddedShort(FieldOf(c, tm), WidthOf(c));
      var len := FmtInt(buf, FieldOf(c, tm), WidthOf(c));
      assert text[0..] == text;
      ok, pos' := Put(s, max, pos, buf[..len]);
    } else if c == '%' {
      ok, pos' := Put(s, max, pos, "%");
    } else if c == 'a' {
      ok, pos' := Put(s, max, pos, Weekday(tm.wday));
    } else if c == 'b' {
      ok, pos' := Put(s, max, pos, MonthName(tm.mon));
    } else if c == 'Z' {
      ok, pos' := Put(s, max, pos, "UTC");
    } else if c == 'z' {
      ok, pos' := Put(s, max, pos, "+0000");
    } else {
      ok, pos' := Put(s, max, pos, "%");
      if ok {
        ok, pos' := Put(s, max, pos', [c]);
      }
    }
  }

  lemma PaddedShort(v: int, width: nat)
    requires -INT_LIMIT < v < INT_LIMIT && width <= 4
    ensures |Padded(v, width)| <= 16
  {
    BelowTenDigits(Magnitude(v));
    DecimalLength(Magnitude(v), 10);
  }

  method Strftime(s: array<char>, max: nat, format: string, tm: Tm) returns (n: nat)
    requires max <= s.Length && IntFields(tm)
    modifies s
    ensures n == if |Render(format, tm)| < max then |Render(format, tm)| else 0
    ensures |Render(format, tm)| < max ==> s[..n] == Render(format, tm) && s[n] == '\0'
  {
    hide Render, Piece;
    if max == 0 {
      return 0;
    }
    var pos: nat := 0;
    var i := 0;
    assert format[0..] == format;
    while i < |format|
      invariant 0 <= i <= |format| && pos < max
      invariant s[..pos] + Render(format[i..], tm) == Render(format, tm)
    {
      RenderStep(format, i, tm);
      var ok;
      if format[i] != '%' {
        ok, pos := Put(s, max, pos, [format[i]]);
        if !ok {
          return 0;
        }
        i := i + 1;
      } else if i + 1 == |format| {
        i := i + 1;
      } else {
        ok, pos := Convert(s, max, pos, format[i + 1], tm);
        if !ok {
          return 0;
        }
        i := i + 2;
      }
    }
    assert Render(format[i..], tm) == [] by {
      RenderEnd(format[i..], tm);
    }
    // the last bounds check of the source cannot fail: pos < max
    s[pos] := '\0';
    return pos;
  }

  lemma RenderEnd(format: string, tm: Tm)
    ensures format == [] ==> Render(format, tm) == []
  {
  }

  lemma RenderStep(format: string, i: nat, tm: Tm)
    requires i < |format|
    ensures format[i] != '%' ==> Render(format[i..], tm) == [format[i]] + Render(format[i + 1..], tm)
    ensures format[i] == '%' && i + 1 == |format| ==> Render(format[i..], tm) == Render(format[i + 1..], tm)
    ensures format[i] == '%' && i + 1 < |format| ==>
              Render(format[i..], tm) == Piece(format[i + 1], tm) + Render(format[i + 2..], tm)
  {
    var f := format[i..];
    assert f[1..] == format[i + 1..];
    if |f| > 1 {
      assert f[2..] == format[i + 2..];
    }
  }

  // ---------------------------------------------------------------------------------------
  // strptime

  /** How far the text was read, whether it was accepted, and the structure as it is left. */
  datatype Parsed = Parsed(ok: bool, rest: string, tm: Tm)

  /** parse_num: -1 unless the text begins with `width` digits. */
  ghost function NumberAt(s: string, width: nat): int {
    if width <= |s| && AllDigits(s[..width], 10) then Value(s[..width], 10) else -1
  }

  predicate InRange(c: char, v: int) {
    if c == 'Y' then 0 <= v <= 9999 else if c == 'm' then 1 <= v <= 12 else if c == 'd' then 1 <= v <= 31
    else if c == 'H' then 0 <= v <= 23 else if c == 'M' then 0 <= v <= 59 else 0 <= v <= 60
  }

  function WithField(c: char, tm: Tm, v: int): Tm {
    if c == 'Y' then tm.(year := v - 1900) else if c == 'm' then tm.(mon := v - 1) else if c == 'd' then tm.(mday := v)
    else if c == 'H' then tm.(hour := v) else if c == 'M' then tm.(min := v) else tm.(sec := v)
  }

  /** One element of the format against the text: the format left over, and what was read. */
  ghost function ParseOne(s: string, format: string, tm: Tm): (r: (string, Parsed))
    requires format != []
    ensures |r.0| < |format|
  {
    if format[0] != '%' then
      (format[1..], if s != [] && s[0] == format[0] then Parsed(true, s[1..], tm) else Parsed(false, s, tm))
    else if |format| == 1 then ([], Parsed(false, s, tm))
    else
      var c := format[1];
      (format[2..],
       if c == '%' then if s != [] && s[0] == '%' then Parsed(true, s[1..], tm) else Parsed(false, s, tm)
       else if !IsField(c) then Parsed(false, s, tm)
       else
         var v := NumberAt(s, WidthOf(c));
         if v >= 0 && InRange(c, v) then Parsed(true, s[WidthOf(c)..], WithField(c, tm, v)) else Parsed(false, s, tm))
  }

  ghost function Parse(s: string, format: string, tm: Tm): Parsed
    decreases |format|
  {
    if format == [] then Parsed(true, s, tm)
    else
      var (f, r) := ParseOne(s, format, tm);
      if r.ok then Parse(r.rest, f, r.tm) else r
  }

  method ParseNum(s: string, p: nat, width: nat) returns (val: int)
    requires p <= |s| && width > 0
    ensures val == NumberAt(s[p..], width)
  {
    val := 0;
    ghost var t := s[p..];
    assert t[..0] == [];
    var i := 0;
    while i < width
      invariant 0 <= i <= width && i <= |t| && AllDigits(t[..i], 10) && val == Value(t[..i], 10)
    {
      if p + i == |s| {
        return -1;
      }
      assert t[i] == s[p + i];
      if s[p + i] < '0' || s[p + i] > '9' {
        assert width <= |t| ==> t[..width][i] == t[i];
        return -1;
      }
      assert t[..i + 1] == t[..i] + [t[i]] && t[..i + 1][..i] == t[..i];
      val := val * 10 + (s[p + i] - '0') as int;
      i := i + 1;
    }
  }

  method Strptime(s: string, format: string, tm0: Tm) returns (ok: bool, p: nat, tm: Tm)
    ensures p <= |s| && Parsed(ok, s[p..], tm) == Parse(s, format, tm0)
  {
    hide Parse, ParseOne, NumberAt;
    ok, p, tm := true, 0, tm0;
    var i := 0;
    assert s[0..] == s && format[0..] == format;
    while i < |format|
      invariant 0 <= i <= |format| && p <= |s| && ok
      invariant Parse(s[p..], format[i..], tm) == Parse(s, format, tm0)
    {
      ParseStep(s[p..], format[i..], tm);
      var used;
      ok, used, p, tm := Element(s, p, format, i, tm);
      if !ok {
        return;
      }
      i := i + used;
    }
    ParseEnd(s[p..], format[i..], tm);
  }

  /** The body of the loop of strptime. */
  method Element(s: string, p0: nat, format: string, i: nat, tm0: Tm) returns (ok: bool, used: nat, p: nat, tm: Tm)
    requires p0 <= |s| && i < |format|
    ensures p <= |s| && 1 <= used && i + used <= |format|
    ensures ParseOne(s[p0..], format[i..], tm0) == (format[i + used..], Parsed(ok, s[p..], tm))
  {
    hide NumberAt, AllDigits;
    ghost var f, t := format[i..], s[p0..];
    assert f[1..] == format[i + 1..];
    ok, used, p, tm := false, 1, p0, tm0;
    if format[i] != '%' {
      if p < |s| && s[p] == format[i] {
        assert t[1..] == s[p + 1..];
        p, ok := p + 1, true;
      }
      return;
    }
    if i + 1 == |format| {
      return;
    }
    used := 2;
    assert f[2..] == format[i + 2..];
    var c := format[i + 1];
    if c == '%' {
      if p < |s| && s[p] == '%' {
        assert t[1..] == s[p + 1..];
        p, ok := p + 1, true;
      }
      return;
    }
    if !IsField(c) {
      return;
    }
    var v := ParseNum(s, p, WidthOf(c));
    NumberFits(t, WidthOf(c));
    if v < 0 || !InRange(c, v) {
      return;
    }
    assert t[WidthOf(c)..] == s[p + WidthOf(c)..];
    ok, p, tm := true, p + WidthOf(c), WithField(c, tm, v);
  }

  lemma NumberFits(s: string, width: nat)
    ensures NumberAt(s, width) >= 0 ==> width <= |s|
  {
  }

  lemma ParseStep(s: string, format: string, tm: Tm)
    requires format != []
    ensures var (f, r) := ParseOne(s, format, tm);
            Parse(s, format, tm) == if r.ok then Parse(r.rest, f, r.tm) else r
  {
  }

  lemma ParseEnd(s: string, format: string, tm: Tm)
    ensures format == [] ==> Parse(s, format, tm) == Parsed(true, s, tm)
  {
  }

  // ---------------------------------------------------------------------------------------
  // Reading back what was written

  /** Formats made of literals, %% and the six numeric fields. */
  predicate Readable(format: string) {
    format == []
    || (if format[0] != '%' then Readable(format[1..])
        else |format| > 1 && (format[1] == '%' || IsField(format[1])) && Readable(format[2..]))
  }

  predicate Mentions(format: string, c: char) {
    |format| > 0
    && if format[0] != '%' then Mentions(format[1..], c)
       else |format| > 1 && (format[1] == c || Mentions(format[2..], c))
  }

  ghost predicate Restored(format: string, tm: Tm, tm': Tm) {
    forall c :: IsField(c) && Mentions(format, c) ==> FieldOf(c, tm') == FieldOf(c, tm)
  }

  ghost predicate Representable(format: string, tm: Tm) {
    forall c :: IsField(c) && Mentions(format, c) ==> InRange(c, FieldOf(c, tm))
  }

  lemma FieldSet(c: char, d: char, tm: Tm, v: int)
    requires IsField(c) && IsField(d)
    ensures FieldOf(d, WithField(c, tm, v)) == if c == d then v else FieldOf(d, tm)
    ensures WithField(c, tm, v).wday == tm.wday && WithField(c, tm, v).yday == tm.yday
    ensures WithField(c, tm, v).isdst == tm.isdst
  {
  }

  /** A field in range prints as exactly its width, so the number read is the number printed. */
  lemma FieldReadBack(c: char, v: int, rest: string)
    requires IsField(c) && InRange(c, v)
    ensures var t := Padded(v, WidthOf(c)) + rest;
            |t| >= WidthOf(c) && NumberAt(t, WidthOf(c)) == v && t[WidthOf(c)..] == rest
  {
    var w := WidthOf(c);
    hide Padded;
    assert Pow10(2) == 100 && Pow10(4) == 10000;
    ValueOfPadded(v, w);
    var t := Padded(v, w) + rest;
    assert t[..w] == Padded(v, w);
  }

  /** With every field in range, the whole text is consumed and each mentioned field restored. */
  lemma {:induction false} InRangeIsRestored(format: string, tm: Tm, tm0: Tm, d: char)
    requires Readable(format) && Representable(format, tm) && IsField(d)
    requires Mentions(format, d) || FieldOf(d, tm0) == FieldOf(d, tm)
    ensures var r := Parse(Render(format, tm), format, tm0);
            r.ok && r.rest == [] && FieldOf(d, r.tm) == FieldOf(d, tm)
    decreases |format|
  {
    hide Padded, NumberAt, FieldOf, InRange, WithField;
    if format != [] {
      var text := Render(format, tm);
      if format[0] != '%' {
        var tail := Render(format[1..], tm);
        assert text == [format[0]] + tail && text[1..] == tail;
        RestRepresentable(format, 1, tm);
        InRangeIsRestored(format[1..], tm, tm0, d);
      } else {
        var c, tail := format[1], Render(format[2..], tm);
        RestRepresentable(format, 2, tm);
        if c == '%' {
          assert text == ['%'] + tail && text[1..] == tail;
          InRangeIsRestored(format[2..], tm, tm0, d);
        } else {
          assert Mentions(format, c);
          var v := FieldOf(c, tm);
          FieldReadBack(c, v, tail);
          RangeIsNat(c, v);
          FieldSet(c, d, tm0, v);
          InRangeIsRestored(format[2..], tm, WithField(c, tm0, v), d);
        }
      }
    }
  }

  lemma RangeIsNat(c: char, v: int)
    requires InRange(c, v)
    ensures v >= 0
  {
  }

  lemma RestRepresentable(format: string, n: nat, tm: Tm)
    requires Readable(format) && Representable(format, tm) && format != []
    requires n == if format[0] != '%' then 1 else 2
    ensures n <= |format| && Representable(format[n..], tm)
  {
    forall c | IsField(c) && Mentions(format[n..], c)
      ensures InRange(c, FieldOf(c, tm))
    {
      assert Mentions(format, c);
    }
  }

  /** Whatever strptime stores is in range. */
  lemma {:induction false} StoredInRange(s: string, format: string, tm0: Tm, d: char)
    requires Readable(format) && IsField(d) && Parse(s, format, tm0).ok
    requires Mentions(format, d) || InRange(d, FieldOf(d, tm0))
    ensures InRange(d, FieldOf(d, Parse(s, format, tm0).tm))
    decreases |format|
  {
    hide Padded, NumberAt, FieldOf, WithField;
    if format != [] {
      var (f, r) := ParseOne(s, format, tm0);
      if format[0] == '%' && format[1] != '%' {
        FieldSet(format[1], d, tm0, NumberAt(s, WidthOf(format[1])));
      }
      StoredInRange(r.rest, f, r.tm, d);
    }
  }

  /**
    strptime consumes all of strftime's output and restores every field the format mentions,
    exactly if every mentioned field is in the range strptime accepts (for %Y: years 0 to 9999).
   */
  lemma RoundTripIff(format: string, tm: Tm, tm0: Tm)
    requires Readable(format)
    ensures var r := Parse(Render(format, tm), format, tm0);
            r.ok && r.rest == [] && Restored(format, tm, r.tm) <==> Representable(format, tm)
  {
    hide FieldOf, InRange;
    var r := Parse(Render(format, tm), format, tm0);
    if Representable(format, tm) {
      forall c | IsField(c) && Mentions(format, c)
        ensures FieldOf(c, r.tm) == FieldOf(c, tm)
      {
        InRangeIsRestored(format, tm, tm0, c);
      }
      InRangeIsRestored(format, tm, tm, 'Y');
      ParseIgnores(Render(format, tm), format, tm0, tm);
    }
    if r.ok && Restored(format, tm, r.tm) {
      forall c | IsField(c) && Mentions(format, c)
        ensures InRange(c, FieldOf(c, tm))
      {
        StoredInRange(Render(format, tm), format, tm0, c);
      }
    }
  }

  /** Acceptance does not depend on what the structure held. */
  lemma {:induction false} ParseIgnores(s: string, format: string, a: Tm, b: Tm)
    ensures Parse(s, format, a).ok == Parse(s, format, b).ok && Parse(s, format, a).rest == Parse(s, format, b).rest
    decreases |format|
  {
    if format != [] {
      var (f, ra) := ParseOne(s, format, a);
      var (g, rb) := ParseOne(s, format, b);
      if ra.ok {
        ParseIgnores(ra.rest, f, ra.tm, rb.tm);
      }
    }
  }

  /** Fields the format does not mention are left alone, accepted or not. */
  lemma {:induction false} OthersUntouched(s: string, format: string, tm0: Tm, d: char)
    requires IsField(d) && !Mentions(format, d)
    ensures var tm := Parse(s, format, tm0).tm;
            FieldOf(d, tm) == FieldOf(d, tm0) && tm.wday == tm0.wday && tm.yday == tm0.yday && tm.isdst == tm0.isdst
    decreases |format|
  {
    if format != [] {
      var (f, r) := ParseOne(s, format, tm0);
      if |format| > 1 && format[0] == '%' && IsField(format[1]) {
        FieldSet(format[1], d, tm0, NumberAt(s, WidthOf(format[1])));
      }
      if r.ok {
        OthersUntouched(r.rest, f, r.tm, d);
      }
    }
  }

  /** strftime into a big enough buffer, then strptime. */
  method FormatThenParse(format: string, tm: Tm, tm0: Tm) returns (text: string, ok: bool, p: nat, tm': Tm)
    requires Readable(format) && IntFields(tm)
    ensures text == Render(format, tm)
    ensures p <= |text| && (ok && p == |text| && Restored(format, tm, tm') <==> Representable(format, tm))
  {
    hide Render, Parse, Readable, Restored, Representable;
    var s := new char[|Render(format, tm)| + 1];
    var len := Strftime(s, s.Length, format, tm);
    text := s[..len];
    ok, p, tm' := Strptime(text, format, tm0);
    RoundTripIff(format, tm, tm0);
    assert text[p..] == [] <==> p == |text|;
  }
}
