/** `expand_ranges` of regex.c: an item followed by {m,n} is written out. */
module RegexRanges {
  import opened RegexExpand
  import opened RegexRewrite
  import opened Numerals

  /** The first item: an escape, a bracket expression, a group or one character. */
  function ItemSpan(s: string): (n: nat)
    requires s != ""
    ensures 0 < n <= |s|
  {
    if s[0] == '\\' && |s| >= 2 then 2
    else if s[0] == '[' then ClassSpan(s)
    else if s[0] == '(' then GroupSpan(s)
    else 1
  }

  datatype Range = NoRange | Range(low: nat, high: nat, len: nat)

  /** A range {m,n} in front, where n may have no digits. */
  function RangeAt(t: string): (r: Range)
    ensures r.Range? ==> 0 < r.len <= |t|
  {
    if |t| < 2 || t[0] != '{' || !IsDigit(t[1], 10) then NoRange
    else
      var p := AfterDigits(t, 10, 1);
      if p == |t| || t[p] != ',' then NoRange
      else
        var q := AfterDigits(t, 10, p + 1);
        if q == |t| || t[q] != '}' then NoRange
        else Range(Value(t[1..p], 10), Value(t[p + 1..q], 10), q + 1)
  }

  function Copies(item: string, n: nat): string {
    if n == 0 then "" else item + Copies(item, n - 1)
  }

  /** The item `low` times, then as an option up to `high` times; once if the bounds are reversed. */
  function WrittenOut(item: string, low: nat, high: nat): string {
    if high < low then item else Copies(item, low) + Copies(item + "?", high - low)
  }

  function ExpandRanges(s: string): string
    decreases |s|
  {
    if s == "" then ""
    else
      var n := ItemSpan(s);
      var r := RangeAt(s[n..]);
      Emitted(s[..n], r) + ExpandRanges(s[n + Skipped(r)..])
  }

  /** What an item with or without a range becomes, and the length of the range. */
  function Emitted(item: string, r: Range): string {
    if r.Range? then WrittenOut(item, r.low, r.high) else item
  }

  function Skipped(r: Range): nat {
    if r.Range? then r.len else 0
  }

  /** A pattern without an opening brace comes back as it is. */
  lemma {:induction false} NoBraceUnchanged(s: string)
    requires '{' !in s
    ensures ExpandRanges(s) == s
    decreases |s|
  {
    hide ItemSpan;
    if s != "" {
      var n := ItemSpan(s);
      NoBraceUnchanged(s[n..]);
      assert s == s[..n] + s[n..];
      assert RangeAt(s[n..]) == NoRange;
    }
  }

  // ---------------------------------------------------------------------------------------
  // The loop

  method FindItemEnd(pat: string, i: nat) returns (j: nat)
    requires i < |pat|
    ensures j == i + ItemSpan(pat[i..]) <= |pat|
  {
    hide ClassLen, GroupLen;
    assert pat[i..][1..] == pat[i + 1..];
    if pat[i] == '\\' && i + 1 < |pat| {
      j := i + 2;
    } else if pat[i] == '[' {
      j := FindClassEnd(pat, i);
    } else if pat[i] == '(' {
      j := FindGroupEnd(pat, i);
    } else {
      j := i + 1;
    }
  }

  /** A run of decimal digits and its value. */
  method ScanNumber(pat: string, i: nat) returns (v: nat, p: nat)
    requires i <= |pat|
    ensures p == AfterDigits(pat, 10, i) && v == Value(pat[i..p], 10)
  {
    hide Value, Times, AfterDigits, DigitVal;
    v, p := 0, i;
    assert pat[i..i] == [];
    EmptyValue();
    while p < |pat| && IsDigit(pat[p], 10)
      invariant i <= p <= |pat| && AllDigits(pat[i..p], 10) && v == Value(pat[i..p], 10)
      invariant AfterDigits(pat, 10, p) == AfterDigits(pat, 10, i)
    {
      ValueLast(pat[i..p], pat[p], 10);
      assert pat[i..p + 1] == pat[i..p] + [pat[p]];
      DigitsOnce(pat, p);
      v := Times(v, 10) + DigitVal(pat[p]);
      p := p + 1;
    }
    DigitsOver(pat, p);
  }

  lemma EmptyValue()
    ensures Value([], 10) == 0
  {
  }

  lemma DigitsOnce(s: string, p: nat)
    requires p < |s| && IsDigit(s[p], 10)
    ensures AfterDigits(s, 10, p) == AfterDigits(s, 10, p + 1)
  {
  }

  lemma DigitsOver(s: string, p: nat)
    requires p <= |s| && (p < |s| ==> !IsDigit(s[p], 10))
    ensures AfterDigits(s, 10, p) == p
  {
  }

  /** Reading from the middle of a text. */
  lemma {:induction false} DigitsShift(s: string, i: nat, p: nat)
    requires i <= p <= |s|
    ensures AfterDigits(s, 10, p) == i + AfterDigits(s[i..], 10, p - i)
    decreases |s| - p
  {
    hide IsDigit;
    if p < |s| && IsDigit(s[p], 10) {
      DigitsShift(s, i, p + 1);
    }
  }

  method ScanRange(pat: string, i: nat) returns (r: Range)
    requires i <= |pat|
    ensures r == RangeAt(pat[i..])
  {
    hide Value, AfterDigits, DigitVal;
    ghost var t := pat[i..];
    if i + 1 < |pat| && pat[i] == '{' && IsDigit(pat[i + 1], 10) {
      var low, p := ScanNumber(pat, i + 1);
      DigitsShift(pat, i, i + 1);
      assert pat[i + 1..p] == t[1..p - i];
      if p < |pat| && pat[p] == ',' {
        var high, q := ScanNumber(pat, p + 1);
        DigitsShift(pat, i, p + 1);
        assert pat[p + 1..q] == t[p + 1 - i..q - i];
        if q < |pat| && pat[q] == '}' {
          return Range(low, high, q + 1 - i);
        }
      }
    }
    return NoRange;
  }

  /** realloc: a larger array with the same beginning. */
  method Enlarge(out: array<char>, o: nat, cap: nat) returns (big: array<char>)
    requires o <= out.Length && o <= cap
    ensures fresh(big) && big.Length == cap && big[..o] == out[..o]
  {
    big := new char[cap](_ => '\0');
    var i := 0;
    while i < o
      invariant 0 <= i <= o && big[..i] == out[..i]
    {
      big[i] := out[i];
      i := i + 1;
    }
  }

  /** memcpy behind what was written. */
  method Append(out: array<char>, o: nat, text: string) returns (o': nat)
    requires o + |text| <= out.Length
    modifies out
    ensures o' == o + |text| && out[..o'] == old(out[..o]) + text
  {
    var i := 0;
    while i < |text|
      invariant 0 <= i <= |text| && out[..o] == old(out[..o]) && forall k :: 0 <= k < i ==> out[o + k] == text[k]
    {
      out[o + i] := text[i];
      i := i + 1;
    }
    o' := o + |text|;
  }

  /** The two emitting loops. */
  method AppendCopies(out: array<char>, o: nat, item: string, n: nat) returns (o': nat)
    requires o + |Copies(item, n)| <= out.Length
    modifies out
    ensures o' == o + |Copies(item, n)| && out[..o'] == old(out[..o]) + Copies(item, n)
  {
    o' := o;
    ghost var base := out[..o];
    var k := 0;
    assert base + Copies(item, 0) == base;
    while k < n
      invariant 0 <= k <= n && o' == o + |Copies(item, k)| <= out.Length && out[..o'] == base + Copies(item, k)
    {
      CopiesLonger(item, k, n);
      o' := Append(out, o', item);
      CopiesMore(item, k);
      assert base + Copies(item, k) + item == base + Copies(item, k + 1);
      k := k + 1;
    }
  }

  lemma {:induction false} CopiesMore(item: string, k: nat)
    ensures Copies(item, k) + item == Copies(item, k + 1)
  {
    if k > 0 {
      CopiesMore(item, k - 1);
      assert Copies(item, k) + item == item + (Copies(item, k - 1) + item);
    } else {
      assert "" + item == item + "";
    }
  }

  lemma {:induction false} CopiesLonger(item: string, k: nat, n: nat)
    requires k < n
    ensures |Copies(item, k)| + |item| <= |Copies(item, n)|
  {
    CopiesMore(item, n - 1);
    if k + 1 < n {
      CopiesLonger(item, k, n - 1);
    }
  }

  /** The capacity the source computes is exactly what is written. */
  lemma {:induction false} CopiesLength(item: string, n: nat)
    ensures |Copies(item, n)| == Times(|item|, n)
  {
    if n > 0 {
      CopiesLength(item, n - 1);
      assert |item| * n == |item| * (n - 1) + |item|;
    }
  }

  lemma NeedIsExact(item: string, r: Range)
    ensures |Emitted(item, r)|
            == if r.Range? && r.high >= r.low then Times(|item|, r.high) + (r.high - r.low) else |item|
  {
    if r.Range? && r.high >= r.low {
      CopiesLength(item, r.low);
      CopiesLength(item + "?", r.high - r.low);
      Distribute(|item|, r.low, r.high - r.low);
    }
  }

  lemma Distribute(n: nat, a: nat, b: nat)
    ensures Times(n, a + b) + b == Times(n, a) + Times(n + 1, b)
  {
  }

  /** expand_ranges, with its growing buffer. */
  method ExpandRangesText(pat: string) returns (text: string)
    ensures text == ExpandRanges(pat)
  {
    hide ExpandRanges, ItemSpan, RangeAt, Emitted;
    var out := new char[|pat| * 4 + 1](_ => '\0');
    var o: nat, i: nat := 0, 0;
    assert pat[0..] == pat;
    while i < |pat|
      invariant i <= |pat| && o < out.Length && fresh(out)
      invariant out[..o] + ExpandRanges(pat[i..]) == ExpandRanges(pat)
      decreases |pat| - i
    {
      ghost var done := out[..o];
      RangesStep(pat[i..]);
      ghost var piece;
      out, o, i, piece := OneItem(pat, i, out, o);
      assert done + piece + ExpandRanges(pat[i..]) == done + (piece + ExpandRanges(pat[i..]));
    }
    assert pat[i..] == "";
    NothingToExpand();
    text := out[..o];
    out[o] := '\0';
  }

  /** One round: the item and its range are read, room is made, and it is written out. */
  method OneItem(pat: string, i: nat, out: array<char>, o: nat) returns (out': array<char>, o': nat, i': nat, ghost piece: string)
    requires i < |pat| && o < out.Length
    modifies out
    ensures (out' == out || fresh(out')) && o' < out'.Length && out'[..o'] == old(out[..o]) + piece && i < i' <= |pat|
    ensures var n := ItemSpan(pat[i..]);
            var r := RangeAt(pat[i..][n..]);
            piece == Emitted(pat[i..][..n], r) && pat[i'..] == pat[i..][n + Skipped(r)..]
  {
    hide ItemSpan, RangeAt, Emitted, Times;
    var e := FindItemEnd(pat, i);
    var item := pat[i..e];
    var r := ScanRange(pat, e);
    Pieces(pat, i, e, Skipped(r));
    NeedIsExact(item, r);
    var need := |item|;
    if r.Range? && r.high >= r.low {
      need := Times(|item|, r.high) + (r.high - r.low);
    }
    out' := out;
    if o + need + 1 >= out.Length {
      out' := Enlarge(out, o, (out.Length + need + 1) * 2);
    }
    piece := Emitted(item, r);
    o' := EmitItem(out', o, item, r);
    i' := e + Skipped(r);
  }

  method EmitItem(out: array<char>, o: nat, item: string, r: Range) returns (o': nat)
    requires o + |Emitted(item, r)| + 1 < out.Length
    modifies out
    ensures o' == o + |Emitted(item, r)| && out[..o'] == old(out[..o]) + Emitted(item, r)
  {
    hide Copies;
    if r.Range? && r.high >= r.low {
      ghost var base := out[..o];
      o' := AppendCopies(out, o, item, r.low);
      o' := AppendCopies(out, o', item + "?", r.high - r.low);
      assert base + Copies(item, r.low) + Copies(item + "?", r.high - r.low)
          == base + (Copies(item, r.low) + Copies(item + "?", r.high - r.low));
    } else {
      o' := Append(out, o, item);
    }
  }

  lemma RangesStep(s: string)
    requires s != ""
    ensures var n := ItemSpan(s);
            var r := RangeAt(s[n..]);
            ExpandRanges(s) == Emitted(s[..n], r) + ExpandRanges(s[n + Skipped(r)..])
  {
    hide ItemSpan, RangeAt, Emitted;
  }

  lemma NothingToExpand()
    ensures ExpandRanges("") == ""
  {
  }

  lemma Pieces(pat: string, i: nat, e: nat, k: nat)
    requires i <= e && e + k <= |pat|
    ensures pat[i..][..e - i] == pat[i..e] && pat[i..][e - i..] == pat[e..] && pat[i..][e - i + k..] == pat[e + k..]
  {
  }
}
