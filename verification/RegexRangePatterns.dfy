/**
  Patterns of units, quantifiers, ranges, groups and bars, and what `expand_ranges` makes of them: a
  range at the outermost level directly behind its unit is written out, any other range stays in the text.
 */
module RegexRangePatterns {
  import opened RegexAlternation
  import opened RegexExpand
  import opened RegexReading
  import opened RegexParse
  import opened RegexMatcher
  import opened RegexCompile
  import opened RegexRanges
  import opened RegexRangeMeaning
  import N = Numerals

  // ---------------------------------------------------------------------------------------
  // Patterns with ranges

  /** The digits of a range {a,b}; an open range {a,} has no b. */
  datatype Bounds = Bounds(a: string, b: string)

  ghost predicate IsBounds(r: Bounds) {
    r.a != "" && N.AllDigits(r.a, 10) && N.AllDigits(r.b, 10)
  }

  ghost function Low(r: Bounds): nat
    requires IsBounds(r)
  {
    N.Value(r.a, 10)
  }

  /** The number the code has for the upper bound: 0 for an open range. */
  ghost function High(r: Bounds): nat
    requires IsBounds(r)
  {
    N.Value(r.b, 10)
  }

  /** A branch: units with any number of ranges behind them, units with a quantifier, and groups. */
  datatype RItems =
    | RNil
    | RUnit(u: string, ranges: seq<Bounds>, rest: RItems)
    | RQuant(u: string, c: char, rest: RItems)
    | RGroup(body: RAlts, rest: RItems)

  datatype RAlts = ROne(s: RItems) | RBar(s: RItems, more: RAlts)

  function RangeTexts(rs: seq<Bounds>): string {
    if rs == [] then "" else RangeText(rs[0].a, rs[0].b) + RangeTexts(rs[1..])
  }

  function RPrint(s: RItems): string {
    match s
    case RNil => ""
    case RUnit(u, rs, rest) => u + (RangeTexts(rs) + RPrint(rest))
    case RQuant(u, c, rest) => u + ([c] + RPrint(rest))
    case RGroup(body, rest) => "(" + (RPrintAll(body) + (")" + RPrint(rest)))
  }

  function RPrintAll(a: RAlts): string {
    match a
    case ROne(s) => RPrint(s)
    case RBar(s, more) => RPrint(s) + ("|" + RPrintAll(more))
  }

  /**
    Well-formed patterns: no plain text that reads as a range behind an item or a bar, and the
    parentheses in the brackets of a group cancel (RegexReading.ScanIsRightIff).
   */
  ghost predicate RGood(s: RItems) {
    match s
    case RNil => true
    case RUnit(u, rs, rest) =>
      IsUnitText(u) && (forall i :: 0 <= i < |rs| ==> IsBounds(rs[i])) && RangeAt(RPrint(rest)) == NoRange && RGood(rest)
    case RQuant(u, c, rest) => IsUnitText(u) && IsQuantifierChar(c) && RangeAt(RPrint(rest)) == NoRange && RGood(rest)
    case RGroup(body, rest) =>
      && RGoodAll(body) && EscapesPaired(RPrintAll(body)) && ScanDepth(RPrintAll(body), 1) == 1
      && RangeAt(RPrint(rest)) == NoRange && RGood(rest)
  }

  ghost predicate RGoodAll(a: RAlts) {
    match a
    case ROne(s) => RGood(s)
    case RBar(s, more) => RGood(s) && RGoodAll(more) && RangeAt(RPrintAll(more)) == NoRange
  }

  // ---------------------------------------------------------------------------------------
  // What becomes of them

  ghost predicate AllBounds(rs: seq<Bounds>) {
    forall i :: 0 <= i < |rs| ==> IsBounds(rs[i])
  }

  /** Ranges behind a range: the first stays, and its closing brace takes the next as its own. */
  ghost function RestText(rs: seq<Bounds>): string
    requires AllBounds(rs)
  {
    if rs == [] then ""
    else "{" + (rs[0].a + ("," + (rs[0].b + BraceText(rs[1..]))))
  }

  ghost function BraceText(rs: seq<Bounds>): string
    requires AllBounds(rs)
  {
    if rs == [] then "}" else WrittenOut("}", Low(rs[0]), High(rs[0])) + RestText(rs[1..])
  }

  ghost function WrittenText(u: string, rs: seq<Bounds>, inside: bool): string
    requires AllBounds(rs)
  {
    if inside || rs == [] then u + RangeTexts(rs) else WrittenOut(u, Low(rs[0]), High(rs[0])) + RestText(rs[1..])
  }

  /** The pattern after expand_ranges; `inside` a group nothing is written out. */
  ghost function Written(s: RItems, inside: bool): Items
    requires RGood(s)
  {
    match s
    case RNil => Nil
    case RUnit(u, rs, rest) => Text(WrittenText(u, rs, inside), Written(rest, inside))
    case RQuant(u, c, rest) => Text(u + [c], Written(rest, inside))
    case RGroup(body, rest) => Group(WrittenAll(body, true), Written(rest, inside))
  }

  ghost function WrittenAll(a: RAlts, inside: bool): Alts
    requires RGoodAll(a)
  {
    match a
    case ROne(s) => One(Written(s, inside))
    case RBar(s, more) => Bar(Written(s, inside), WrittenAll(more, inside))
  }

  /** Inside a group the text stays as it is. */
  lemma {:induction false} InsideUnchanged(s: RItems)
    requires RGood(s)
    ensures PrintItems(Written(s, true)) == RPrint(s)
    decreases s
  {
    hide RangeAt, IsUnitText, ScanDepth, EscapesPaired, RangeTexts;
    match s
    case RNil =>
    case RUnit(u, rs, rest) =>
      InsideUnchanged(rest);
      assert (u + RangeTexts(rs)) + RPrint(rest) == u + (RangeTexts(rs) + RPrint(rest));
    case RQuant(u, c, rest) =>
      InsideUnchanged(rest);
      assert (u + [c]) + RPrint(rest) == u + ([c] + RPrint(rest));
    case RGroup(body, rest) =>
      InsideAllUnchanged(body);
      InsideUnchanged(rest);
      assert "(" + RPrintAll(body) + ")" + RPrint(rest) == "(" + (RPrintAll(body) + (")" + RPrint(rest)));
  }

  lemma {:induction false} InsideAllUnchanged(a: RAlts)
    requires RGoodAll(a)
    ensures PrintAlts(WrittenAll(a, true)) == RPrintAll(a)
    decreases a
  {
    hide RGood, RPrint, Written, PrintItems, RangeAt;
    InsideUnchanged(a.s);
    if a.RBar? {
      InsideAllUnchanged(a.more);
      assert RPrint(a.s) + "|" + RPrintAll(a.more) == RPrint(a.s) + ("|" + RPrintAll(a.more));
    }
  }

  // ---------------------------------------------------------------------------------------
  // Steps of expand_ranges

  predicate NotRange(t: string) {
    RangeAt(t) == NoRange
  }

  /** An item without a range behind it. */
  lemma ItemAlone(item: string, t: string)
    requires item != "" && ItemSpan(item + t) == |item| && NotRange(t)
    ensures ExpandRanges(item + t) == item + ExpandRanges(t)
  {
    hide ItemSpan, RangeAt, ExpandRanges;
    var s := item + t;
    RangesStep(s);
    assert s[..|item|] == item && s[|item|..] == t;
  }

  /** An item and its range. */
  lemma ItemRanged(item: string, r: Bounds, t: string)
    requires item != "" && IsBounds(r) && ItemSpan(item + (RangeText(r.a, r.b) + t)) == |item|
    ensures ExpandRanges(item + (RangeText(r.a, r.b) + t)) == WrittenOut(item, Low(r), High(r)) + ExpandRanges(t)
  {
    hide ItemSpan, RangeAt, ExpandRanges, RangeText, WrittenOut, N.Value;
    var s, n := item + (RangeText(r.a, r.b) + t), |RangeText(r.a, r.b)|;
    RangesStep(s);
    RangeReadThen(r.a, r.b, t);
    assert s[..|item|] == item && s[|item|..] == RangeText(r.a, r.b) + t && s[|item| + n..] == t;
  }

  lemma RangeReadThen(a: string, b: string, t: string)
    requires a != "" && N.AllDigits(a, 10) && N.AllDigits(b, 10)
    ensures RangeAt(RangeText(a, b) + t) == Range(N.Value(a, 10), N.Value(b, 10), |RangeText(a, b)|)
  {
    hide N.Value, N.AfterDigits, RangeText;
    var s, p := RangeText(a, b) + t, 1 + |a|;
    RangeLayoutThen(a, b, t);
    N.DigitsTaken("{", a, "," + b + "}" + t, 10, 1);
    N.DigitsTaken("{" + a + ",", b, "}" + t, 10, p + 1);
  }

  lemma RangeLayoutThen(a: string, b: string, t: string)
    ensures var s, p := RangeText(a, b) + t, 1 + |a|;
            && |RangeText(a, b)| == |a| + |b| + 3 && |s| >= |a| + |b| + 3
            && s == "{" + a + ("," + b + "}" + t) && s == "{" + a + "," + b + ("}" + t)
            && s[0] == '{' && (a != "" ==> s[1] == a[0]) && s[1..p] == a && s[p] == ','
            && s[p + 1..p + 1 + |b|] == b && s[p + 1 + |b|] == '}'
  {
  }

  /** A plain character in front of text that does not start with a brace. */
  lemma CharAlone(c: char, t: string)
    requires c != '\\' && c != '[' && c != '(' && (t == "" || t[0] != '{')
    ensures ExpandRanges([c] + t) == [c] + ExpandRanges(t)
  {
    hide ExpandRanges;
    ItemAlone([c], t);
  }

  predicate RangeChar(c: char) {
    c == '{' || c == ',' || '0' <= c <= '9'
  }

  lemma {:induction false} CharsAlone(x: string, t: string)
    requires (forall i :: 0 <= i < |x| ==> RangeChar(x[i])) && (forall i :: 0 < i < |x| ==> x[i] != '{')
    requires t == "" || t[0] != '{'
    ensures ExpandRanges(x + t) == x + ExpandRanges(t)
    decreases |x|
  {
    hide ExpandRanges;
    if x == "" {
      assert x + t == t;
    } else {
      var c, y := x[0], x[1..];
      CharsAlone(y, t);
      assert x + t == [c] + (y + t);
      CharAlone(c, y + t);
      assert [c] + (y + ExpandRanges(t)) == x + ExpandRanges(t);
    }
  }

  lemma DigitsAreRangeChars(a: string)
    requires N.AllDigits(a, 10)
    ensures forall i :: 0 <= i < |a| ==> RangeChar(a[i]) && a[i] != '{'
  {
    forall i | 0 <= i < |a|
      ensures RangeChar(a[i]) && a[i] != '{'
    {
      assert N.IsDigit(a[i], 10);
    }
  }

  /** The opening part {a,b of a range that is not written out. */
  lemma OpeningAlone(r: Bounds, t: string)
    requires IsBounds(r) && t != "" && t[0] == '}'
    ensures ExpandRanges("{" + (r.a + ("," + (r.b + t)))) == "{" + (r.a + ("," + (r.b + ExpandRanges(t))))
  {
    hide ExpandRanges, RangeChar, N.AllDigits;
    DigitsAreRangeChars(r.a);
    DigitsAreRangeChars(r.b);
    BraceAndComma();
    var x := "{" + r.a + "," + r.b;
    assert forall i :: 0 < i < |x| ==> RangeChar(x[i]) && x[i] != '{' by {
      forall i | 0 < i < |x|
        ensures RangeChar(x[i]) && x[i] != '{'
      {
        if i <= |r.a| {
          assert x[i] == r.a[i - 1];
        } else if i > |r.a| + 1 {
          assert x[i] == r.b[i - |r.a| - 2];
        }
      }
    }
    CharsAlone(x, t);
    assert x + t == "{" + (r.a + ("," + (r.b + t)));
    assert x + ExpandRanges(t) == "{" + (r.a + ("," + (r.b + ExpandRanges(t))));
  }

  lemma BraceAndComma()
    ensures RangeChar('{') && RangeChar(',')
  {
  }

  lemma {:induction false} RestExpands(rs: seq<Bounds>, t: string)
    requires AllBounds(rs) && NotRange(t)
    ensures rs != [] ==> ExpandRanges(RangeTexts(rs) + t) == RestText(rs) + ExpandRanges(t)
    decreases |rs|, 0
  {
    hide ExpandRanges, NotRange, IsBounds, RangeTexts, BraceText;
    if rs != [] {
      var r, more := rs[0], rs[1..];
      RangeTextsThen(rs, t);
      OpeningAlone(r, "}" + (RangeTexts(more) + t));
      BraceExpands(more, t);
      OpeningThen(r.a, r.b, BraceText(more), ExpandRanges(t));
    }
  }

  lemma RangeTextsThen(rs: seq<Bounds>, t: string)
    requires rs != []
    ensures RangeTexts(rs) + t == "{" + (rs[0].a + ("," + (rs[0].b + ("}" + (RangeTexts(rs[1..]) + t)))))
  {
    hide RangeTexts;
    RangeTextsStep(rs);
  }

  lemma RangeTextsStep(rs: seq<Bounds>)
    requires rs != []
    ensures RangeTexts(rs) == RangeText(rs[0].a, rs[0].b) + RangeTexts(rs[1..])
  {
  }

  lemma OpeningThen(a: string, b: string, x: string, y: string)
    ensures "{" + (a + ("," + (b + (x + y)))) == "{" + (a + ("," + (b + x))) + y
  {
  }

  lemma {:induction false} BraceExpands(rs: seq<Bounds>, t: string)
    requires AllBounds(rs) && NotRange(t)
    ensures ExpandRanges("}" + (RangeTexts(rs) + t)) == BraceText(rs) + ExpandRanges(t)
    decreases |rs|, 0
  {
    hide ExpandRanges, NotRange, IsBounds, WrittenOut;
    if rs == [] {
      assert RangeTexts(rs) + t == t;
      BraceSpan(t);
      ItemAlone("}", t);
    } else {
      var r, more := rs[0], rs[1..];
      var v := RangeTexts(more) + t;
      assert RangeTexts(rs) + t == RangeText(r.a, r.b) + v;
      BraceSpan(RangeText(r.a, r.b) + v);
      ItemRanged("}", r, v);
      AfterRange(more, t);
      assert WrittenOut("}", Low(r), High(r)) + (RestText(more) + ExpandRanges(t)) == BraceText(rs) + ExpandRanges(t);
    }
  }

  lemma BraceSpan(t: string)
    ensures ItemSpan("}" + t) == 1
  {
  }

  /** What follows a range: nothing, or ranges that are not written out. */
  lemma {:induction false} AfterRange(rs: seq<Bounds>, t: string)
    requires AllBounds(rs) && NotRange(t)
    ensures ExpandRanges(RangeTexts(rs) + t) == RestText(rs) + ExpandRanges(t)
    decreases |rs|, 1
  {
    hide ExpandRanges, NotRange, IsBounds;
    if rs == [] {
      assert RangeTexts(rs) + t == t && RestText(rs) + ExpandRanges(t) == ExpandRanges(t);
    } else {
      RestExpands(rs, t);
    }
  }

  /** A unit and its ranges at the outermost level. */
  lemma UnitExpands(u: string, rs: seq<Bounds>, t: string)
    requires IsUnitText(u) && AllBounds(rs) && NotRange(t)
    ensures ExpandRanges(u + (RangeTexts(rs) + t)) == WrittenText(u, rs, false) + ExpandRanges(t)
  {
    hide ExpandRanges, NotRange, IsBounds, WrittenOut, IsUnitText, ItemSpan;
    UnitStart(u);
    UnitSpan(u, RangeTexts(rs) + t);
    if rs == [] {
      assert RangeTexts(rs) + t == t && u + RangeTexts(rs) == u;
      ItemAlone(u, t);
    } else {
      var r, more := rs[0], rs[1..];
      var v := RangeTexts(more) + t;
      assert RangeTexts(rs) + t == RangeText(r.a, r.b) + v;
      ItemRanged(u, r, v);
      AfterRange(more, t);
      assert WrittenOut(u, Low(r), High(r)) + (RestText(more) + ExpandRanges(t)) == WrittenText(u, rs, false) + ExpandRanges(t);
    }
  }

  /** A unit and its quantifier are two items without a range. */
  lemma QuantExpands(u: string, c: char, t: string)
    requires IsUnitText(u) && IsQuantifierChar(c) && NotRange(t)
    ensures ExpandRanges(u + ([c] + t)) == u + [c] + ExpandRanges(t)
  {
    hide ExpandRanges, IsUnitText;
    UnitStart(u);
    UnitSpan(u, [c] + t);
    ItemAlone(u, [c] + t);
    ItemAlone([c], t);
    assert u + ([c] + ExpandRanges(t)) == u + [c] + ExpandRanges(t);
  }

  /** A range behind a quantifier takes the quantifier as its item: a*{2,3} becomes a***?. */
  lemma QuantifierRanged(u: string, c: char, r: Bounds, t: string)
    requires IsUnitText(u) && IsQuantifierChar(c) && IsBounds(r)
    ensures ExpandRanges(u + ([c] + (RangeText(r.a, r.b) + t))) == u + WrittenOut([c], Low(r), High(r)) + ExpandRanges(t)
  {
    hide ExpandRanges, IsUnitText, WrittenOut, N.Value;
    var v := RangeText(r.a, r.b) + t;
    UnitStart(u);
    UnitSpan(u, [c] + v);
    ItemAlone(u, [c] + v);
    ItemRanged([c], r, t);
    assert u + (WrittenOut([c], Low(r), High(r)) + ExpandRanges(t)) == u + WrittenOut([c], Low(r), High(r)) + ExpandRanges(t);
  }

  /** A group at the outermost level is one item. */
  lemma GroupExpands(b: string, t: string)
    requires EscapesPaired(b) && ScanDepth(b, 1) == 1 && NotRange(t)
    ensures ExpandRanges("(" + (b + (")" + t))) == "(" + b + ")" + ExpandRanges(t)
  {
    hide ExpandRanges, NotRange, GroupLen, ScanDepth, EscapesPaired;
    var item := "(" + b + ")";
    ScanIsRightIff(b, t);
    assert item + t == "(" + (b + (")" + t));
    assert (item + t)[1..] == b + (")" + t);
    ItemAlone(item, t);
  }

  /** Text that is not a range does not become one in front of a bar. */
  lemma StillNotRange(x: string, t: string)
    requires NotRange(x) && (t == "" || t[0] == '|')
    ensures NotRange(x + t)
  {
    RangeEndsBeforeBar(x, t);
  }

  lemma RangeEndsBeforeBar(x: string, t: string)
    requires t == "" || t[0] == '|'
    ensures RangeAt(x + t).Range? ==> RangeAt(x).Range?
  {
    hide N.Value, N.AfterDigits;
    var s := x + t;
    if RangeAt(s).Range? {
      var p := N.AfterDigits(s, 10, 1);
      var q := N.AfterDigits(s, 10, p + 1);
      DigitsInside(x, t, 1, p);
      DigitsInside(x, t, p + 1, q);
      SameDigits(x, t, 1, p);
      SameDigits(x, t, p + 1, q);
    }
  }

  /** A run of digits that ends at a comma or a brace does not reach the bar. */
  lemma DigitsInside(x: string, t: string, i: nat, p: nat)
    requires (t == "" || t[0] == '|') && i <= |x| && i <= p < |x + t| && p == N.AfterDigits(x + t, 10, i) && (x + t)[p] != '|'
    ensures p < |x|
  {
    if t != "" {
      assert (x + t)[|x|] == '|' && !N.IsDigit((x + t)[|x|], 10);
    }
  }

  lemma {:induction false} SameDigits(x: string, t: string, i: nat, p: nat)
    requires i <= p < |x| && p == N.AfterDigits(x + t, 10, i)
    ensures N.AfterDigits(x, 10, i) == p
    decreases p - i
  {
    hide N.IsDigit;
    assert (x + t)[i] == x[i];
    if i < p {
      SameDigits(x, t, i + 1, p);
    }
  }

  /** expand_ranges on one branch with what follows it. */
  lemma Regrouped(x: string, y: string, z: string, t: string)
    ensures x + (y + z) + t == x + (y + (z + t))
    ensures y + z + t == y + (z + t)
  {
    assert x + (y + z) + t == x + (y + (z + t));
    assert y + z + t == y + (z + t);
  }

  lemma {:induction false} BranchExpands(s: RItems, t: string)
    requires RGood(s) && (t == "" || t[0] == '|')
    ensures ExpandRanges(RPrint(s) + t) == PrintItems(Written(s, false)) + ExpandRanges(t)
    decreases s
  {
    hide ExpandRanges, IsUnitText, RangeTexts, ScanDepth, EscapesPaired, RangeAt, WrittenText, IsBounds;
    match s
    case RNil =>
      assert RPrint(s) + t == t;
      assert "" + ExpandRanges(t) == ExpandRanges(t);
    case RUnit(u, rs, rest) =>
      var v := RPrint(rest) + t;
      StillNotRange(RPrint(rest), t);
      Regrouped(u, RangeTexts(rs), RPrint(rest), t);
      UnitExpands(u, rs, v);
      BranchExpands(rest, t);
      Regrouped("", WrittenText(u, rs, false), PrintItems(Written(rest, false)), ExpandRanges(t));
    case RQuant(u, c, rest) =>
      var v := RPrint(rest) + t;
      StillNotRange(RPrint(rest), t);
      Regrouped(u, [c], RPrint(rest), t);
      QuantExpands(u, c, v);
      BranchExpands(rest, t);
      Regrouped("", u + [c], PrintItems(Written(rest, false)), ExpandRanges(t));
    case RGroup(body, rest) =>
      var v, b := RPrint(rest) + t, RPrintAll(body);
      StillNotRange(RPrint(rest), t);
      assert RPrint(s) + t == "(" + (b + (")" + v));
      GroupExpands(b, v);
      InsideAllUnchanged(body);
      BranchExpands(rest, t);
      assert "(" + b + ")" + (PrintItems(Written(rest, false)) + ExpandRanges(t))
          == "(" + b + ")" + PrintItems(Written(rest, false)) + ExpandRanges(t);
  }

  /** expand_ranges on a pattern yields the text of the written-out pattern. */
  lemma {:induction false} PatternExpands(a: RAlts)
    requires RGoodAll(a)
    ensures ExpandRanges(RPrintAll(a)) == PrintAlts(WrittenAll(a, false))
    decreases a
  {
    hide ExpandRanges, RGood, RPrint, Written, PrintItems;
    NothingToExpand();
    match a
    case ROne(s) =>
      BranchExpands(s, "");
      assert RPrint(s) + "" == RPrint(s) && PrintItems(Written(s, false)) + "" == PrintItems(Written(s, false));
    case RBar(s, more) =>
      var t := "|" + RPrintAll(more);
      BranchExpands(s, t);
      BarSpan(RPrintAll(more));
      ItemAlone("|", RPrintAll(more));
      PatternExpands(more);
      assert PrintItems(Written(s, false)) + ("|" + PrintAlts(WrittenAll(more, false)))
          == PrintItems(Written(s, false)) + "|" + PrintAlts(WrittenAll(more, false));
  }

  lemma BarSpan(t: string)
    ensures ItemSpan("|" + t) == 1
  {
  }
}
