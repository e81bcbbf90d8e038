/**
  When `expand_ranges` keeps the meaning of a pattern: alternative by alternative, exactly if every
  range stands at the outermost level directly behind its unit and its bounds are in order.
 */
module RegexRangeLanguage {
  import opened RegexAlternation
  import opened RegexExpand
  import opened RegexReading
  import opened RegexParse
  import opened RegexMatcher
  import opened RegexCompile
  import opened RegexRanges
  import opened RegexRangeMeaning
  import opened RegexRangePatterns
  import N = Numerals

  // ---------------------------------------------------------------------------------------
  // The alternatives of a pattern as rows of units with ranges

  /** A unit with its ranges and its quantifier, and whether it stands inside a group. */
  datatype Elem = Elem(u: string, ranges: seq<Bounds>, inside: bool, times: Times)

  type Row = seq<Elem>

  function Prefixed(g: Row, xs: seq<Row>): (r: seq<Row>)
    ensures |r| == |xs| && forall i :: 0 <= i < |xs| ==> r[i] == g + xs[i]
  {
    seq(|xs|, i requires 0 <= i < |xs| => g + xs[i])
  }

  function CrossRows(gs: seq<Row>, xs: seq<Row>): seq<Row> {
    if gs == [] then [] else Prefixed(gs[0], xs) + CrossRows(gs[1..], xs)
  }

  /** One row for each choice of branches, in the order of RegexAlternation.ExpandItems. */
  function Rows(s: RItems, inside: bool): seq<Row> {
    match s
    case RNil => [[]]
    case RUnit(u, rs, rest) => Prefixed([Elem(u, rs, inside, Once)], Rows(rest, inside))
    case RQuant(u, c, rest) => Prefixed([Elem(u, [], inside, TimesOfChar(c))], Rows(rest, inside))
    case RGroup(body, rest) => CrossRows(RowsOf(body, true), Rows(rest, inside))
  }

  function RowsOf(a: RAlts, inside: bool): seq<Row> {
    match a
    case ROne(s) => Rows(s, inside)
    case RBar(s, more) => Rows(s, inside) + RowsOf(more, inside)
  }

  ghost predicate GoodElem(e: Elem) {
    IsUnitText(e.u) && AllBounds(e.ranges) && (e.times != Once ==> e.ranges == [])
  }

  ghost predicate GoodRow(es: Row) {
    forall i :: 0 <= i < |es| ==> GoodElem(es[i])
  }

  /** No range, or one closed range outside groups with its bounds in order. */
  ghost predicate Fine(e: Elem)
    requires GoodElem(e)
  {
    e.ranges == [] || (|e.ranges| == 1 && !e.inside && e.ranges[0].b != "" && Low(e.ranges[0]) <= High(e.ranges[0]))
  }

  ghost predicate FineRow(es: Row)
    requires GoodRow(es)
  {
    forall i :: 0 <= i < |es| ==> Fine(es[i])
  }

  /** The same on a pattern. */
  ghost predicate FineItems(s: RItems, inside: bool)
    requires RGood(s)
  {
    match s
    case RNil => true
    case RUnit(u, rs, rest) => Fine(Elem(u, rs, inside, Once)) && FineItems(rest, inside)
    case RQuant(_, _, rest) => FineItems(rest, inside)
    case RGroup(body, rest) => FineAll(body, true) && FineItems(rest, inside)
  }

  ghost predicate FineAll(a: RAlts, inside: bool)
    requires RGoodAll(a)
  {
    match a
    case ROne(s) => FineItems(s, inside)
    case RBar(s, more) => FineItems(s, inside) && FineAll(more, inside)
  }

  ghost predicate GoodRows(xs: seq<Row>) {
    forall i :: 0 <= i < |xs| ==> GoodRow(xs[i])
  }

  ghost predicate FineRows(xs: seq<Row>)
    requires GoodRows(xs)
  {
    forall i :: 0 <= i < |xs| ==> FineRow(xs[i])
  }

  lemma FineConcat(x: Row, y: Row)
    requires GoodRow(x) && GoodRow(y)
    ensures GoodRow(x + y) && (FineRow(x + y) <==> FineRow(x) && FineRow(y))
  {
    hide GoodElem, Fine;
    var z := x + y;
    assert forall i :: 0 <= i < |x| ==> z[i] == x[i];
    assert forall i :: 0 <= i < |y| ==> z[|x| + i] == y[i];
  }

  lemma FinePrefixed(g: Row, xs: seq<Row>)
    requires GoodRow(g) && GoodRows(xs) && xs != []
    ensures GoodRows(Prefixed(g, xs)) && (FineRows(Prefixed(g, xs)) <==> FineRow(g) && FineRows(xs))
  {
    hide GoodRow, FineRow;
    var r := Prefixed(g, xs);
    forall i | 0 <= i < |xs|
      ensures GoodRow(r[i]) && (FineRow(r[i]) <==> FineRow(g) && FineRow(xs[i]))
    {
      FineConcat(g, xs[i]);
    }
    if FineRows(r) {
      assert FineRow(r[0]);
      forall i | 0 <= i < |xs|
        ensures FineRow(xs[i])
      {
        assert FineRow(r[i]);
      }
    }
  }

  lemma FineBoth(xs: seq<Row>, ys: seq<Row>)
    requires GoodRows(xs) && GoodRows(ys)
    ensures GoodRows(xs + ys) && (FineRows(xs + ys) <==> FineRows(xs) && FineRows(ys))
  {
    hide GoodRow, FineRow;
    var zs := xs + ys;
    assert forall i :: 0 <= i < |xs| ==> zs[i] == xs[i];
    assert forall i :: 0 <= i < |ys| ==> zs[|xs| + i] == ys[i];
  }

  lemma {:induction false} FineCross(gs: seq<Row>, xs: seq<Row>)
    requires GoodRows(gs) && GoodRows(xs) && gs != [] && xs != []
    ensures GoodRows(CrossRows(gs, xs)) && CrossRows(gs, xs) != []
    ensures FineRows(CrossRows(gs, xs)) <==> FineRows(gs) && FineRows(xs)
  {
    hide GoodRow, FineRow;
    FinePrefixed(gs[0], xs);
    var g, more := [gs[0]], gs[1..];
    FineBoth(g, more);
    assert gs == g + more;
    assert FineRows(g) <==> FineRow(gs[0]) by {
      assert FineRow(gs[0]) ==> FineRow(g[0]);
    }
    if more != [] {
      FineCross(more, xs);
      FineBoth(Prefixed(gs[0], xs), CrossRows(more, xs));
    } else {
      assert CrossRows(more, xs) == [];
      assert CrossRows(gs, xs) == Prefixed(gs[0], xs);
    }
  }

  /** Every unit of a pattern is in some row. */
  lemma {:induction false} RowsFineIff(s: RItems, inside: bool)
    requires RGood(s)
    ensures GoodRows(Rows(s, inside)) && Rows(s, inside) != []
    ensures FineRows(Rows(s, inside)) <==> FineItems(s, inside)
    decreases s
  {
    hide Fine, IsUnitText, GoodRow, FineRow;
    match s
    case RNil => NoElements();
    case RUnit(u, rs, rest) =>
      RowsFineIff(rest, inside);
      OneElement(Elem(u, rs, inside, Once));
      FinePrefixed([Elem(u, rs, inside, Once)], Rows(rest, inside));
    case RQuant(u, c, rest) =>
      RowsFineIff(rest, inside);
      NoRangeIsFine(u, inside, TimesOfChar(c));
      OneElement(Elem(u, [], inside, TimesOfChar(c)));
      FinePrefixed([Elem(u, [], inside, TimesOfChar(c))], Rows(rest, inside));
    case RGroup(body, rest) =>
      AllRowsFineIff(body, true);
      RowsFineIff(rest, inside);
      FineCross(RowsOf(body, true), Rows(rest, inside));
  }

  lemma NoRangeIsFine(u: string, inside: bool, times: Times)
    requires IsUnitText(u)
    ensures GoodElem(Elem(u, [], inside, times)) && Fine(Elem(u, [], inside, times))
  {
  }

  lemma NoElements()
    ensures GoodRow([]) && FineRow([])
  {
  }

  lemma OneElement(e: Elem)
    requires GoodElem(e)
    ensures GoodRow([e]) && (FineRow([e]) <==> Fine(e))
  {
    hide Fine, IsUnitText;
    assert [e][0] == e;
  }

  lemma {:induction false} AllRowsFineIff(a: RAlts, inside: bool)
    requires RGoodAll(a)
    ensures GoodRows(RowsOf(a, inside)) && RowsOf(a, inside) != []
    ensures FineRows(RowsOf(a, inside)) <==> FineAll(a, inside)
    decreases a
  {
    hide GoodRow, FineRow;
    RowsFineIff(a.s, inside);
    if a.RBar? {
      AllRowsFineIff(a.more, inside);
      FineBoth(Rows(a.s, inside), RowsOf(a.more, inside));
    }
  }

  // ---------------------------------------------------------------------------------------
  // The units a row is compiled to

  /** One unit for every character. */
  function Each(t: string): (r: seq<Unit>)
    ensures |r| == |t| && forall i :: 0 <= i < |t| ==> r[i] == Unit([t[i]], Once)
  {
    seq(|t|, i requires 0 <= i < |t| => Unit([t[i]], Once))
  }

  ghost function OwnUnits(u: string, r: Bounds): seq<Unit>
    requires IsBounds(r)
  {
    var low, high := Least(Low(r), High(r)), Most(Low(r), High(r));
    RangeUnits(u, low, high - low)
  }

  ghost function RestUnits(rs: seq<Bounds>): seq<Unit>
    requires AllBounds(rs)
  {
    if rs == [] then [] else Each("{" + rs[0].a + "," + rs[0].b) + BraceUnits(rs[1..])
  }

  ghost function BraceUnits(rs: seq<Bounds>): seq<Unit>
    requires AllBounds(rs)
  {
    if rs == [] then Each("}") else OwnUnits("}", rs[0]) + RestUnits(rs[1..])
  }

  ghost function ElemUnits(e: Elem): seq<Unit>
    requires GoodElem(e)
  {
    if e.inside || e.ranges == [] then [Unit(e.u, e.times)] + Each(RangeTexts(e.ranges))
    else OwnUnits(e.u, e.ranges[0]) + RestUnits(e.ranges[1..])
  }

  ghost function RowUnits(es: Row): seq<Unit>
    requires GoodRow(es)
  {
    if es == [] then [] else ElemUnits(es[0]) + RowUnits(es[1..])
  }

  /** Clean text with these units that no quantifier starts. */
  ghost predicate TextOf(t: string, us: seq<Unit>) {
    IsClean(t) && IsText(t) && (t == "" || !IsQuantifierChar(t[0])) && TextUnits(t) == us
  }

  lemma NoText()
    ensures TextOf("", [])
  {
    EmptyText();
    TextUnitsNothing();
  }

  lemma UnitText(u: string, t: string, us: seq<Unit>)
    requires IsUnitText(u) && TextOf(t, us)
    ensures TextOf(u + t, [Unit(u, Once)] + us)
  {
    hide IsUnitText, IsClean, IsText, TextUnits;
    UnitStart(u);
    UnitInFront(u, t);
  }

  predicate IsRangeText(t: string) {
    forall i :: 0 <= i < |t| ==> RangeChar(t[i]) || t[i] == '}'
  }

  lemma {:induction false} EachText(x: string, t: string, us: seq<Unit>)
    requires IsRangeText(x) && TextOf(t, us)
    ensures TextOf(x + t, Each(x) + us)
  {
    hide TextOf;
    if x == "" {
      assert x + t == t && Each(x) + us == us;
    } else {
      EachText(x[1..], t, us);
      UnitText(x[..1], x[1..] + t, Each(x[1..]) + us);
      assert x[..1] + (x[1..] + t) == x + t && x[..1] == [x[0]];
      assert [Unit(x[..1], Once)] + (Each(x[1..]) + us) == Each(x) + us;
    }
  }

  lemma OwnText(u: string, r: Bounds, t: string, us: seq<Unit>)
    requires IsUnitText(u) && IsBounds(r) && TextOf(t, us)
    ensures TextOf(WrittenOut(u, Low(r), High(r)) + t, OwnUnits(u, r) + us)
  {
    hide IsUnitText, IsClean, IsText, TextUnits, WrittenOut, RangeUnits, N.Value;
    ReversedIsOnce(u, Low(r), High(r));
    WrittenOutInFront(u, Least(Low(r), High(r)), Most(Low(r), High(r)), t);
  }

  lemma OpeningIsRangeText(r: Bounds)
    requires IsBounds(r)
    ensures IsRangeText("{" + r.a + "," + r.b)
  {
    DigitsAreRangeChars(r.a);
    DigitsAreRangeChars(r.b);
  }

  lemma BraceIsUnit()
    ensures IsUnitText("}") && IsRangeText("}")
  {
  }

  lemma {:induction false} RestIsText(rs: seq<Bounds>)
    requires AllBounds(rs)
    ensures TextOf(RestText(rs), RestUnits(rs))
    decreases |rs|, 0
  {
    hide TextOf, IsBounds, Each, IsRangeText;
    NoText();
    if rs != [] {
      var x := "{" + rs[0].a + "," + rs[0].b;
      OpeningIsRangeText(rs[0]);
      BraceIsText(rs[1..]);
      EachText(x, BraceText(rs[1..]), BraceUnits(rs[1..]));
      assert x + BraceText(rs[1..]) == "{" + (rs[0].a + ("," + (rs[0].b + BraceText(rs[1..]))));
    }
  }

  lemma {:induction false} BraceIsText(rs: seq<Bounds>)
    requires AllBounds(rs)
    ensures TextOf(BraceText(rs), BraceUnits(rs))
    decreases |rs|, 1
  {
    hide TextOf, IsBounds, Each, IsRangeText, OwnUnits, WrittenOut, IsUnitText;
    BraceIsUnit();
    if rs == [] {
      NoText();
      EachText("}", "", []);
      assert "}" + "" == "}" && Each("}") + [] == Each("}");
    } else {
      RestIsText(rs[1..]);
      OwnText("}", rs[0], RestText(rs[1..]), RestUnits(rs[1..]));
    }
  }

  lemma {:induction false} RangeTextsAreText(rs: seq<Bounds>)
    requires AllBounds(rs)
    ensures IsRangeText(RangeTexts(rs))
  {
    if rs != [] {
      RangeTextsAreText(rs[1..]);
      OpeningIsRangeText(rs[0]);
      var x, y := "{" + rs[0].a + "," + rs[0].b, RangeTexts(rs[1..]);
      assert RangeTexts(rs) == x + "}" + y;
    }
  }

  /** A unit with its quantifier. */
  lemma QuantIsText(u: string, c: char, inside: bool)
    requires IsUnitText(u) && IsQuantifierChar(c)
    ensures GoodElem(Elem(u, [], inside, TimesOfChar(c))) && TextOf(u + [c], ElemUnits(Elem(u, [], inside, TimesOfChar(c))))
  {
    hide IsUnitText, TextUnits, IsAtom;
    UnitStart(u);
    var t, k := u + [c], |u|;
    assert t[..k] == u && t[k..] == [c] && t[k + 1..] == "";
    TextUnitsStep(t, k);
    TextUnitsNothing();
    assert CleanCut(t, k);
    QuantifierIsAtom([c]);
    AtomIsText([c]);
    assert IsText(t);
    assert RangeTexts([]) == "" && Each("") == [];
  }

  /** The written text of a unit with its ranges has the units of its element. */
  lemma WrittenIsText(e: Elem)
    requires GoodElem(e) && e.times == Once
    ensures TextOf(WrittenText(e.u, e.ranges, e.inside), ElemUnits(e))
  {
    hide TextOf, IsBounds, Each, IsRangeText, OwnUnits, WrittenOut, IsUnitText, RangeTexts, RestText, RestUnits;
    if e.inside || e.ranges == [] {
      var x := RangeTexts(e.ranges);
      RangeTextsAreText(e.ranges);
      NoText();
      EachText(x, "", []);
      assert x + "" == x && Each(x) + [] == Each(x);
      UnitText(e.u, x, Each(x));
    } else {
      RestIsText(e.ranges[1..]);
      OwnText(e.u, e.ranges[0], RestText(e.ranges[1..]), RestUnits(e.ranges[1..]));
    }
  }

  // The expansions of the written-out pattern, row by row

  ghost predicate Compiled(xs: seq<Items>, rows: seq<Row>)
    requires GoodRows(rows)
  {
    |xs| == |rows| && forall i :: 0 <= i < |rows| ==> Flat(xs[i]) && ItemUnits(xs[i]) == RowUnits(rows[i])
  }

  lemma {:induction false} RowUnitsConcat(x: Row, y: Row)
    requires GoodRow(x) && GoodRow(y)
    ensures GoodRow(x + y) && RowUnits(x + y) == RowUnits(x) + RowUnits(y)
  {
    hide ElemUnits, GoodElem;
    assert forall i :: 0 <= i < |y| ==> (x + y)[|x| + i] == y[i];
    if x == [] {
      assert x + y == y;
    } else {
      RowUnitsConcat(x[1..], y);
      assert (x + y)[1..] == x[1..] + y && (x + y)[0] == x[0];
    }
  }

  lemma OneUnits(e: Elem)
    requires GoodElem(e)
    ensures GoodRow([e]) && RowUnits([e]) == ElemUnits(e)
  {
    hide ElemUnits, IsUnitText;
    assert [e][1..] == [];
    assert RowUnits([]) == [];
  }

  lemma CompiledText(t: string, e: Elem, xs: seq<Items>, rows: seq<Row>)
    requires GoodElem(e) && TextUnits(t) == ElemUnits(e) && GoodRows(rows) && Compiled(xs, rows)
    ensures GoodRows(Prefixed([e], rows)) && Compiled(WithText(t, xs), Prefixed([e], rows))
  {
    hide TextUnits, ElemUnits, RowUnits, GoodRow, GoodElem;
    OneUnits(e);
    forall i | 0 <= i < |rows|
      ensures GoodRow([e] + rows[i]) && RowUnits([e] + rows[i]) == ElemUnits(e) + RowUnits(rows[i])
    {
      RowUnitsConcat([e], rows[i]);
    }
  }

  lemma CompiledGroup(g: Items, row: Row, xs: seq<Items>, rows: seq<Row>)
    requires Flat(g) && GoodRow(row) && ItemUnits(g) == RowUnits(row) && GoodRows(rows) && Compiled(xs, rows)
    ensures GoodRows(Prefixed(row, rows)) && Compiled(WithGroup(g, xs), Prefixed(row, rows))
  {
    hide TextUnits, ElemUnits, RowUnits, GoodRow;
    forall i | 0 <= i < |rows|
      ensures GoodRow(row + rows[i]) && RowUnits(row + rows[i]) == RowUnits(row) + RowUnits(rows[i])
    {
      RowUnitsConcat(row, rows[i]);
    }
  }

  lemma {:induction false} CompiledGroups(gs: seq<Items>, grows: seq<Row>, xs: seq<Items>, rows: seq<Row>)
    requires GoodRows(grows) && Compiled(gs, grows) && GoodRows(rows) && Compiled(xs, rows)
    ensures GoodRows(CrossRows(grows, rows)) && Compiled(WithGroups(gs, xs), CrossRows(grows, rows))
  {
    hide RowUnits, GoodRow, ItemUnits, Flat;
    if grows != [] {
      CompiledGroup(gs[0], grows[0], xs, rows);
      CompiledGroups(gs[1..], grows[1..], xs, rows);
    }
  }

  lemma {:induction false} RowsCompiled(s: RItems, inside: bool)
    requires RGood(s)
    ensures GoodRows(Rows(s, inside)) && Compiled(ExpandItems(Written(s, inside)), Rows(s, inside))
    decreases s
  {
    hide IsUnitText, GoodRow, ElemUnits, TextUnits, WrittenText, ScanDepth, EscapesPaired, RangeAt, IsBounds;
    match s
    case RNil =>
      NoElements();
      assert RowUnits([]) == [];
    case RUnit(u, rs, rest) =>
      RowsCompiled(rest, inside);
      WrittenIsText(Elem(u, rs, inside, Once));
      CompiledText(WrittenText(u, rs, inside), Elem(u, rs, inside, Once), ExpandItems(Written(rest, inside)), Rows(rest, inside));
    case RQuant(u, c, rest) =>
      RowsCompiled(rest, inside);
      QuantIsText(u, c, inside);
      CompiledText(u + [c], Elem(u, [], inside, TimesOfChar(c)), ExpandItems(Written(rest, inside)), Rows(rest, inside));
    case RGroup(body, rest) =>
      AllRowsCompiled(body, true);
      RowsCompiled(rest, inside);
      CompiledGroups(ExpandAlts(WrittenAll(body, true)), RowsOf(body, true), ExpandItems(Written(rest, inside)), Rows(rest, inside));
  }

  lemma {:induction false} AllRowsCompiled(a: RAlts, inside: bool)
    requires RGoodAll(a)
    ensures GoodRows(RowsOf(a, inside)) && Compiled(ExpandAlts(WrittenAll(a, inside)), RowsOf(a, inside))
    decreases a
  {
    hide GoodRow, RowUnits, ItemUnits, Flat;
    RowsCompiled(a.s, inside);
    if a.RBar? {
      AllRowsCompiled(a.more, inside);
    }
  }

  // ---------------------------------------------------------------------------------------
  // The intended language

  /** How often a unit may match when these ranges, the last outermost, stand behind it. */
  ghost predicate Repeats(rs: seq<Bounds>, k: nat)
    requires AllBounds(rs)
    decreases |rs|, 0, 0
  {
    if rs == [] then k == 1
    else exists j: nat :: Within(Last(rs), j) && Sums(rs[..|rs| - 1], j, k)
  }

  function Last(rs: seq<Bounds>): Bounds
    requires rs != []
  {
    rs[|rs| - 1]
  }

  /** An open range has no upper bound. */
  ghost predicate Within(r: Bounds, j: nat)
    requires IsBounds(r)
  {
    Low(r) <= j && (r.b != "" ==> j <= High(r))
  }

  /** k is the sum of j allowed counts. */
  ghost predicate Sums(rs: seq<Bounds>, j: nat, k: nat)
    requires AllBounds(rs)
    decreases |rs|, 1, j
  {
    if j == 0 then k == 0 else exists x: nat :: AtMost(x, k) && Repeats(rs, x) && Sums(rs, j - 1, k - x)
  }

  predicate AtMost(x: nat, k: nat) {
    x <= k
  }

  /** w is cut into one run for every element, of an allowed length. */
  ghost predicate Intended(m: MatchOne, es: Row, w: string)
    requires GoodRow(es)
  {
    if es == [] then w == ""
    else exists k :: 0 <= k <= |w| && RunOfElem(m, es[0], w[..k]) && Intended(m, es[1..], w[k..])
  }

  ghost predicate RunOfElem(m: MatchOne, e: Elem, w: string)
    requires GoodElem(e)
  {
    Counts(e, |w|) && AllMatch(m, e.u, w)
  }

  /** How often the unit of an element may match. */
  ghost predicate Counts(e: Elem, k: nat)
    requires GoodElem(e)
  {
    if e.times == Once then Repeats(e.ranges, k) else AllowedLength(e.times, k)
  }

  lemma {:induction false} SumOfOnes(j: nat, k: nat)
    ensures Sums([], j, k) <==> k == j
  {
    if j > 0 {
      if k > 0 {
        SumOfOnes(j - 1, k - 1);
        assert AtMost(1, k) && Repeats([], 1);
      }
      if Sums([], j, k) {
        var x: nat :| AtMost(x, k) && Repeats([], x) && Sums([], j - 1, k - x);
        SumOfOnes(j - 1, k - x);
      }
    }
  }

  lemma FineRepeats(e: Elem, k: nat)
    requires GoodElem(e) && Fine(e)
    ensures e.ranges == [] ==> (Repeats(e.ranges, k) <==> k == 1)
    ensures e.ranges != [] ==> (Repeats(e.ranges, k) <==> Low(e.ranges[0]) <= k <= High(e.ranges[0]))
  {
    hide IsUnitText;
    if e.ranges != [] {
      assert e.ranges[..0] == [];
      forall j: nat
        ensures Sums(e.ranges[..0], j, k) <==> k == j
      {
        SumOfOnes(j, k);
      }
      assert Sums(e.ranges[..0], k, k) && (Within(Last(e.ranges), k) <==> Low(e.ranges[0]) <= k <= High(e.ranges[0]));
    }
  }

  /** A fine element means what it is compiled to. */
  lemma FineElement(m: MatchOne, e: Elem, w: string)
    requires GoodElem(e) && Fine(e)
    ensures RunOfElem(m, e, w) <==> InLanguage(m, ElemUnits(e), w)
  {
    hide InLanguage, Repeats, IsUnitText, N.Value;
    FineRepeats(e, |w|);
    if e.times != Once {
      assert RangeTexts(e.ranges) == "" && Each("") == [];
      assert ElemUnits(e) == [Unit(e.u, e.times)] + [];
      ConsLanguage(m, Unit(e.u, e.times), [], w);
      forall k | 0 <= k <= |w|
        ensures InLanguage(m, [], w[k..]) <==> k == |w|
      {
        EmptyLanguage(m, w[k..]);
      }
      assert w[..|w|] == w;
    } else if e.ranges == [] {
      assert RangeTexts(e.ranges) == "" && Each("") == [];
      assert ElemUnits(e) == RangeUnits(e.u, 1, 0) by {
        assert RegexRangeMeaning.Times(Unit(e.u, Once), 0) == [] && RegexRangeMeaning.Times(Unit(e.u, Optional), 0) == [];
      }
      RangeLanguage(m, e.u, 1, 0, w);
    } else {
      var low, high := Low(e.ranges[0]), High(e.ranges[0]);
      assert e.ranges[1..] == [] && RestUnits([]) == [];
      assert ElemUnits(e) == RangeUnits(e.u, low, high - low);
      RangeLanguage(m, e.u, low, high - low, w);
    }
  }

  lemma {:induction false} FineRowIntended(m: MatchOne, es: Row, w: string)
    requires GoodRow(es) && FineRow(es)
    ensures Intended(m, es, w) <==> InLanguage(m, RowUnits(es), w)
    decreases |es|
  {
    hide InLanguage, RunOfElem, ElemUnits, GoodElem, Fine;
    if es == [] {
      EmptyLanguage(m, w);
    } else {
      ConcatLanguage(m, ElemUnits(es[0]), RowUnits(es[1..]), w);
      forall k | 0 <= k <= |w|
        ensures RunOfElem(m, es[0], w[..k]) <==> InLanguage(m, ElemUnits(es[0]), w[..k])
        ensures Intended(m, es[1..], w[k..]) <==> InLanguage(m, RowUnits(es[1..]), w[k..])
      {
        FineElement(m, es[0], w[..k]);
        FineRowIntended(m, es[1..], w[k..]);
      }
    }
  }
}
