/** The converse: a row with any other range is compiled to a different language, and the whole path. */
module RegexRangeExact {
  import opened RegexAlternation
  import opened RegexExpand
  import opened RegexReading
  import opened RegexParse
  import opened RegexMatcher
  import opened RegexCompile
  import opened RegexRanges
  import opened RegexRangeMeaning
  import opened RegexRangePatterns
  import opened RegexRangeLanguage
  import N = Numerals

  // ---------------------------------------------------------------------------------------
  // Shortest words

  /** w matches the units of the word one by one. */
  ghost predicate Spells(m: MatchOne, x: seq<string>, w: string) {
    |w| == |x| && forall i :: 0 <= i < |w| ==> m(x[i], w[i])
  }

  lemma SpellsConcat(m: MatchOne, x: seq<string>, y: seq<string>, w: string)
    ensures Spells(m, x + y, w) <==> |w| >= |x| && Spells(m, x, w[..|x|]) && Spells(m, y, w[|x|..])
  {
    if |w| == |x| + |y| {
      var z, k := x + y, |x|;
      forall i | 0 <= i < |w|
        ensures m(z[i], w[i]) <==> if i < k then m(x[i], w[..k][i]) else m(y[i - k], w[k..][i - k])
      {
      }
      if Spells(m, x, w[..k]) && Spells(m, y, w[k..]) {
        forall i | 0 <= i < |w|
          ensures m(z[i], w[i])
        {
          assert i >= k ==> m(y[i - k], w[k..][i - k]);
        }
      }
      if Spells(m, z, w) {
        forall i | 0 <= i < |y|
          ensures m(y[i], w[k..][i])
        {
          assert m(z[k + i], w[k + i]);
        }
      }
    }
  }

  function Copied(u: string, n: nat): (r: seq<string>)
    ensures |r| == n && forall i :: 0 <= i < n ==> r[i] == u
  {
    seq(n, _ => u)
  }

  lemma SpellsCopied(m: MatchOne, u: string, n: nat, w: string)
    ensures Spells(m, Copied(u, n), w) <==> |w| == n && AllMatch(m, u, w)
  {
  }

  /** The shortest word of a list of units. */
  function MinWord(us: seq<Unit>): seq<string> {
    if us == [] then []
    else (if us[0].times == Once || us[0].times == AtLeastOne then [us[0].text] else []) + MinWord(us[1..])
  }

  lemma MinWordStep(u: Unit, us: seq<Unit>)
    ensures MinWord([u] + us) == (if u.times == Once || u.times == AtLeastOne then Copied(u.text, 1) else []) + MinWord(us)
    ensures MinWord([]) == []
  {
    assert ([u] + us)[1..] == us;
    assert [u.text] == Copied(u.text, 1);
  }

  /** Among texts no longer than the shortest word, exactly those that spell it are in the language. */
  lemma {:induction false} ShortestOfUnits(m: MatchOne, us: seq<Unit>, w: string)
    ensures |w| <= |MinWord(us)| ==> (InLanguage(m, us, w) <==> Spells(m, MinWord(us), w))
    decreases |us|
  {
    hide InLanguage, MinWord;
    if us == [] {
      EmptyLanguage(m, w);
      MinWordStep(Unit("", Once), us);
    } else {
      var u, more := us[0], us[1..];
      var n := if u.times == Once || u.times == AtLeastOne then 1 else 0;
      assert us == [u] + more;
      MinWordStep(u, more);
      assert Copied(u.text, 0) == [];
      ConsLanguage(m, u, more, w);
      if |w| <= |MinWord(us)| {
        forall k | 0 <= k <= |w| && UnitAccepts(m, u, w[..k]) && InLanguage(m, more, w[k..])
          ensures k == n
        {
          ShortestOfUnits(m, more, w[k..]);
        }
        SpellsConcat(m, Copied(u.text, n), MinWord(more), w);
        if |w| >= n {
          ShortestOfUnits(m, more, w[n..]);
          SpellsCopied(m, u.text, n, w[..n]);
          assert UnitAccepts(m, u, w[..n]) <==> AllMatch(m, u.text, w[..n]);
        }
      }
    }
  }

  /** The least number of repetitions, if any is allowed. */
  datatype Fewest = Never | AtLeast(n: nat)

  ghost function FewestOf(rs: seq<Bounds>): Fewest
    requires AllBounds(rs)
  {
    if rs == [] then AtLeast(1)
    else
      var r, f := Last(rs), FewestOf(rs[..|rs| - 1]);
      if r.b != "" && High(r) < Low(r) then Never
      else if Low(r) == 0 then AtLeast(0)
      else if f.Never? then Never
      else AtLeast(Product(Low(r), f.n))
  }

  function Product(m: nat, n: nat): nat {
    m * n
  }

  lemma ProductStep(j: nat, n: nat)
    requires j > 0
    ensures Product(j, n) == n + Product(j - 1, n)
  {
  }

  lemma ProductGrows(i: nat, j: nat, n: nat)
    requires i <= j
    ensures Product(i, n) <= Product(j, n)
  {
  }

  ghost predicate IsFewest(rs: seq<Bounds>, f: Fewest)
    requires AllBounds(rs)
  {
    && (f.AtLeast? ==> Repeats(rs, f.n))
    && forall k: nat :: Repeats(rs, k) ==> f.AtLeast? && f.n <= k
  }

  lemma {:induction false} FewestSum(rs: seq<Bounds>, f: Fewest, j: nat)
    requires AllBounds(rs) && IsFewest(rs, f)
    ensures f.AtLeast? ==> Sums(rs, j, Product(j, f.n))
    ensures forall k: nat :: Sums(rs, j, k) ==> j == 0 || (f.AtLeast? && Product(j, f.n) <= k)
    decreases j
  {
    hide Repeats, Product;
    if j > 0 {
      FewestSum(rs, f, j - 1);
      if f.AtLeast? {
        ProductStep(j, f.n);
        assert AtMost(f.n, Product(j, f.n)) && Repeats(rs, f.n) && Sums(rs, j - 1, Product(j, f.n) - f.n);
      }
      forall k: nat | Sums(rs, j, k)
        ensures f.AtLeast? && Product(j, f.n) <= k
      {
        var x: nat :| AtMost(x, k) && Repeats(rs, x) && Sums(rs, j - 1, k - x);
        ProductZero(f.n);
      }
    } else {
      NoSum(rs);
      if f.AtLeast? {
        ProductZero(f.n);
      }
    }
  }

  lemma NoSum(rs: seq<Bounds>)
    requires AllBounds(rs)
    ensures Sums(rs, 0, 0)
  {
  }

  lemma ProductZero(n: nat)
    ensures Product(0, n) == 0
  {
  }

  lemma {:induction false} FewestIs(rs: seq<Bounds>)
    requires AllBounds(rs)
    ensures IsFewest(rs, FewestOf(rs))
    decreases |rs|
  {
    hide Sums, Product, N.Value, IsBounds;
    if rs != [] {
      var r, pre := Last(rs), rs[..|rs| - 1];
      var f := FewestOf(pre);
      FewestIs(pre);
      forall j: nat
        ensures f.AtLeast? ==> Sums(pre, j, Product(j, f.n))
        ensures forall k: nat :: Sums(pre, j, k) ==> j == 0 || (f.AtLeast? && Product(j, f.n) <= k)
      {
        FewestSum(pre, f, j);
      }
      NoSum(pre);
      FewestStep(rs, f);
    }
  }

  lemma FewestStep(rs: seq<Bounds>, f: Fewest)
    requires AllBounds(rs) && rs != [] && f == FewestOf(rs[..|rs| - 1])
    requires var pre := rs[..|rs| - 1];
             && Sums(pre, 0, 0)
             && (forall j: nat :: f.AtLeast? ==> Sums(pre, j, Product(j, f.n)))
             && forall j: nat, k: nat :: Sums(pre, j, k) ==> j == 0 || (f.AtLeast? && Product(j, f.n) <= k)
    ensures IsFewest(rs, FewestOf(rs))
  {
    hide Sums, Product, N.Value, IsBounds;
    var r, pre, g := Last(rs), rs[..|rs| - 1], FewestOf(rs);
    if g.AtLeast? {
      if Low(r) == 0 {
        assert Within(r, 0) && Sums(pre, 0, g.n);
      } else {
        assert Within(r, Low(r)) && Sums(pre, Low(r), Product(Low(r), f.n));
      }
    }
    forall k: nat | Repeats(rs, k)
      ensures g.AtLeast? && g.n <= k
    {
      var j: nat :| Within(r, j) && Sums(pre, j, k);
      if Low(r) > 0 {
        ProductGrows(Low(r), j, f.n);
      }
    }
  }

  /** The same for an element with its quantifier. */
  ghost function ElemFewest(e: Elem): Fewest
    requires GoodElem(e)
  {
    if e.times == Once then FewestOf(e.ranges) else AtLeast(if e.times == AtLeastOne then 1 else 0)
  }

  lemma ElemFewestIs(e: Elem)
    requires GoodElem(e)
    ensures var f := ElemFewest(e);
            && (CanRepeat(e) <==> f.AtLeast?) && (f.AtLeast? ==> Counts(e, f.n))
            && forall k: nat :: Counts(e, k) ==> f.AtLeast? && f.n <= k
  {
    hide Repeats, FewestOf, IsUnitText;
    FewestIs(e.ranges);
  }

  ghost predicate Possible(es: Row)
    requires GoodRow(es)
  {
    forall i :: 0 <= i < |es| ==> CanRepeat(es[i])
  }

  ghost predicate CanRepeat(e: Elem)
    requires GoodElem(e)
  {
    ElemFewest(e).AtLeast?
  }

  /** The shortest word of the intended language. */
  ghost function IntendedWord(es: Row): seq<string>
    requires GoodRow(es) && Possible(es)
  {
    if es == [] then [] else Copied(es[0].u, ElemFewest(es[0]).n) + IntendedWord(es[1..])
  }

  lemma {:induction false} ShortestIntended(m: MatchOne, es: Row, w: string)
    requires GoodRow(es) && Possible(es)
    ensures |w| <= |IntendedWord(es)| ==> (Intended(m, es, w) <==> Spells(m, IntendedWord(es), w))
    decreases |es|
  {
    hide Counts, ElemFewest, GoodElem;
    if es != [] {
      var e, more := es[0], es[1..];
      ElemFewestIs(e);
      var n := ElemFewest(e).n;
      if |w| <= |IntendedWord(es)| {
        forall k | 0 <= k <= |w| && RunOfElem(m, e, w[..k]) && Intended(m, more, w[k..])
          ensures k == n
        {
          ShortestIntended(m, more, w[k..]);
        }
        SpellsConcat(m, Copied(e.u, n), IntendedWord(more), w);
        if |w| >= n {
          ShortestIntended(m, more, w[n..]);
          SpellsCopied(m, e.u, n, w[..n]);
        }
      }
    }
  }

  /** An impossible range leaves no word at all. */
  lemma {:induction false} ImpossibleIsEmpty(m: MatchOne, es: Row, w: string)
    requires GoodRow(es) && !Possible(es)
    ensures !Intended(m, es, w)
    decreases |es|
  {
    hide Counts, ElemFewest, GoodElem;
    ElemFewestIs(es[0]);
    if ElemFewest(es[0]).AtLeast? {
      forall k | 0 <= k <= |w|
        ensures !Intended(m, es[1..], w[k..])
      {
        ImpossibleIsEmpty(m, es[1..], w[k..]);
      }
    }
  }

  // ---------------------------------------------------------------------------------------
  // The two shortest words differ

  lemma {:induction false} MinWordConcat(us: seq<Unit>, vs: seq<Unit>)
    ensures MinWord(us + vs) == MinWord(us) + MinWord(vs)
  {
    hide MinWord;
    if us == [] {
      assert us + vs == vs;
      MinWordStep(Unit("", Once), us);
    } else {
      MinWordConcat(us[1..], vs);
      MinWordStep(us[0], us[1..]);
      MinWordStep(us[0], us[1..] + vs);
      assert us == [us[0]] + us[1..] && us + vs == [us[0]] + (us[1..] + vs);
    }
  }

  lemma {:induction false} MinWordOfOnce(u: string, n: nat)
    ensures MinWord(RegexRangeMeaning.Times(Unit(u, Once), n)) == Copied(u, n)
    ensures MinWord(RegexRangeMeaning.Times(Unit(u, Optional), n)) == []
  {
    if n > 0 {
      MinWordOfOnce(u, n - 1);
      var x, y := RegexRangeMeaning.Times(Unit(u, Once), n), RegexRangeMeaning.Times(Unit(u, Optional), n);
      assert x[1..] == RegexRangeMeaning.Times(Unit(u, Once), n - 1) && y[1..] == RegexRangeMeaning.Times(Unit(u, Optional), n - 1);
      assert Copied(u, n) == [u] + Copied(u, n - 1);
    }
  }

  lemma MinWordOfRange(u: string, low: nat, options: nat)
    ensures MinWord(RangeUnits(u, low, options)) == Copied(u, low)
  {
    MinWordOfOnce(u, low);
    MinWordOfOnce(u, options);
    MinWordConcat(RegexRangeMeaning.Times(Unit(u, Once), low), RegexRangeMeaning.Times(Unit(u, Optional), options));
    assert Copied(u, low) + [] == Copied(u, low);
  }

  lemma {:induction false} MinWordOfEach(t: string)
    ensures |MinWord(Each(t))| == |t| && forall i :: 0 <= i < |t| ==> MinWord(Each(t))[i] == [t[i]]
  {
    if t != "" {
      MinWordOfEach(t[1..]);
      assert Each(t)[1..] == Each(t[1..]);
    }
  }

  /** What stands behind the copies of a unit whose ranges are not fine: an opening brace and a digit. */
  ghost predicate LiteralRange(r: seq<string>) {
    |r| >= 3 && r[0] == ['{'] && r[1] != ['{']
  }

  lemma OpeningWord(r: Bounds, vs: seq<Unit>)
    requires IsBounds(r)
    ensures LiteralRange(MinWord(Each("{" + r.a + "," + r.b) + vs))
  {
    var x := "{" + r.a + "," + r.b;
    MinWordConcat(Each(x), vs);
    MinWordOfEach(x);
    DigitsAreRangeChars(r.a);
    assert x[1] == r.a[0];
  }

  lemma RangeTextsWord(rs: seq<Bounds>)
    requires AllBounds(rs) && rs != []
    ensures LiteralRange(MinWord(Each(RangeTexts(rs))))
  {
    hide RangeTexts, MinWord, LiteralRange;
    var x, y := "{" + rs[0].a + "," + rs[0].b, "}" + RangeTexts(rs[1..]);
    RangeTextsStep(rs);
    assert RangeTexts(rs) == x + y;
    EachConcat(x, y);
    OpeningWord(rs[0], Each(y));
  }

  lemma EachConcat(x: string, y: string)
    ensures Each(x + y) == Each(x) + Each(y)
  {
  }

  /** A single open range outside groups: not written out as meant, but without a trace in the text. */
  predicate Open(e: Elem) {
    !e.inside && |e.ranges| == 1 && e.ranges[0].b == ""
  }

  predicate Shut(e: Elem) {
    !Open(e)
  }

  predicate NoneOpen(es: Row) {
    forall i :: 0 <= i < |es| ==> !Open(es[i])
  }

  /** How many copies of its unit the shortest word of an element starts with. */
  ghost function Front(e: Elem): nat
    requires GoodElem(e)
  {
    if e.times != Once then (if e.times == AtLeastOne then 1 else 0)
    else if e.inside || e.ranges == [] then 1
    else Least(Low(e.ranges[0]), High(e.ranges[0]))
  }

  /** Then comes the literal range, unless the element is fine or its range is open. */
  lemma ElemWord(e: Elem) returns (r: seq<string>)
    requires GoodElem(e) && CanRepeat(e) && !Open(e)
    ensures MinWord(ElemUnits(e)) == Copied(e.u, Front(e)) + r
    ensures Fine(e) ==> r == [] && ElemFewest(e).n == Front(e)
    ensures !Fine(e) ==> LiteralRange(r)
  {
    hide IsUnitText, N.Value;
    if e.times != Once {
      r := [];
      assert RangeTexts(e.ranges) == "" && Each("") == [];
      MinWordStep(Unit(e.u, e.times), []);
      assert Copied(e.u, 0) == [];
    } else if e.inside || e.ranges == [] {
      var x := Each(RangeTexts(e.ranges));
      r := MinWord(x);
      assert ([Unit(e.u, Once)] + x)[1..] == x;
      assert [e.u] == Copied(e.u, 1);
      if e.ranges == [] {
        assert x == [];
      } else {
        RangeTextsWord(e.ranges);
      }
    } else {
      r := OutsideWord(e);
    }
  }

  lemma OutsideWord(e: Elem) returns (r: seq<string>)
    requires GoodElem(e) && !e.inside && e.ranges != [] && CanRepeat(e) && !Open(e)
    ensures MinWord(ElemUnits(e)) == Copied(e.u, Front(e)) + r
    ensures Fine(e) ==> r == [] && ElemFewest(e).n == Front(e)
    ensures !Fine(e) ==> LiteralRange(r)
  {
    hide IsUnitText, N.Value, RangeUnits;
    var first, more := e.ranges[0], e.ranges[1..];
    var low, high := Least(Low(first), High(first)), Most(Low(first), High(first));
    r := MinWord(RestUnits(more));
    MinWordConcat(OwnUnits(e.u, first), RestUnits(more));
    MinWordOfRange(e.u, low, high - low);
    if more == [] {
      assert RestUnits(more) == [];
      SingleFewest(e.ranges);
    } else {
      OpeningWord(more[0], BraceUnits(more[1..]));
    }
  }

  lemma SingleFewest(rs: seq<Bounds>)
    requires AllBounds(rs) && |rs| == 1
    ensures FewestOf(rs) == if rs[0].b != "" && High(rs[0]) < Low(rs[0]) then Never else AtLeast(Low(rs[0]))
  {
    assert rs[..0] == [];
    assert FewestOf(rs[..0]) == AtLeast(1);
  }

  /** Copies of one unit cannot cover a literal range. */
  lemma CopiesStop(u: string, n: nat, rest: seq<string>, w: seq<string>, r: seq<string>, tail: seq<string>)
    requires LiteralRange(r) && Copied(u, n) + rest == w + r + tail
    ensures n < |w| + |r|
  {
    var y := w + r + tail;
    CopiedPrefix(u, n, rest);
    assert y[|w|] == r[0] && y[|w| + 1] == r[1];
  }

  lemma CopiedPrefix(u: string, n: nat, rest: seq<string>)
    ensures forall i :: 0 <= i < n ==> (Copied(u, n) + rest)[i] == u
  {
  }

  lemma Shift(a: seq<string>, rest: seq<string>, b: seq<string>, tail: seq<string>)
    requires a + rest == b + tail && |a| <= |b|
    ensures rest == b[|a|..] + tail
  {
    var x := a + rest;
    assert rest == x[|a|..];
    assert (b + tail)[|a|..] == b[|a|..] + tail;
  }

  /**
    The intended word is never the compiled one behind a nonempty word, and not the compiled one
    itself if some range is not fine.
   */
  lemma {:induction false} WordsDiffer(es: Row, w: seq<string>)
    requires GoodRow(es) && Possible(es) && NoneOpen(es) && (w != [] || !FineRow(es))
    ensures IntendedWord(es) != w + MinWord(RowUnits(es))
    decreases |es|
  {
    hide GoodElem, Fine, ElemUnits, LiteralRange, ElemFewest, MinWord;
    if es != [] {
      var e, more := es[0], es[1..];
      ElemFewestIs(e);
      var r := ElemWord(e);
      MinWordConcat(ElemUnits(e), RowUnits(more));
      var n, k, i, c := ElemFewest(e).n, Front(e), IntendedWord(more), MinWord(RowUnits(more));
      var a, b := Copied(e.u, n), w + Copied(e.u, k) + r;
      if IntendedWord(es) == w + MinWord(RowUnits(es)) {
        assert a + i == b + c;
        if !Fine(e) {
          CopiesStop(e.u, n, i, w + Copied(e.u, k), r, c);
          LiteralLength(r);
        } else {
          FineTail(es);
        }
        Shift(a, i, b, c);
        WordsDiffer(more, b[n..]);
        assert false;
      }
    } else {
      NoUnits();
    }
  }

  lemma NoUnits()
    ensures MinWord([]) == [] && RowUnits([]) == []
  {
  }

  lemma LiteralLength(r: seq<string>)
    requires LiteralRange(r)
    ensures |r| >= 3
  {
  }

  lemma FineTail(es: Row)
    requires GoodRow(es) && es != [] && Fine(es[0])
    ensures FineRow(es) <==> FineRow(es[1..])
  {
    hide GoodElem, Fine;
    assert FineRow(es[1..]) ==> FineRow(es) by {
      forall i | 0 <= i < |es| && FineRow(es[1..])
        ensures Fine(es[i])
      {
        if i > 0 {
          assert es[i] == es[1..][i - 1];
        }
      }
    }
  }

  // ---------------------------------------------------------------------------------------
  // A matcher that tells the two apart

  /** Every character matches. */
  function Anything(): MatchOne {
    (u: string, c: char) => true
  }

  /** X for the unit t, any other character for other units. */
  function Marking(t: string): MatchOne {
    (u: string, c: char) => (c == 'X') == (u == t)
  }

  function Marks(x: seq<string>, t: string): (w: string)
    ensures |w| == |x| && forall i :: 0 <= i < |x| ==> w[i] == if x[i] == t then 'X' else 'Y'
  {
    seq(|x|, i requires 0 <= i < |x| => if x[i] == t then 'X' else 'Y')
  }

  lemma AnySpelling(x: seq<string>, w: string)
    requires |w| == |x|
    ensures Spells(Anything(), x, w)
  {
  }

  // An open range is meant to accept arbitrarily long texts

  /** A unit repeated without limit. */
  predicate Loops(e: Elem) {
    e.times == Any || e.times == AtLeastOne
  }

  predicate Finite(e: Elem) {
    !Loops(e)
  }

  predicate NoneLoops(es: Row) {
    forall i :: 0 <= i < |es| ==> !Loops(es[i])
  }

  predicate Bounded(us: seq<Unit>) {
    forall i :: 0 <= i < |us| ==> us[i].times == Once || us[i].times == Optional
  }

  lemma {:induction false} BoundedLength(m: MatchOne, us: seq<Unit>, w: string)
    requires Bounded(us) && InLanguage(m, us, w)
    ensures |w| <= |us|
  {
    hide InLanguage;
    if us == [] {
      EmptyLanguage(m, w);
    } else {
      assert us == [us[0]] + us[1..];
      ConsLanguage(m, us[0], us[1..], w);
      var k :| 0 <= k <= |w| && UnitAccepts(m, us[0], w[..k]) && InLanguage(m, us[1..], w[k..]);
      BoundedLength(m, us[1..], w[k..]);
    }
  }

  lemma {:induction false} TimesBounded(u: Unit, n: nat)
    requires u.times == Once || u.times == Optional
    ensures Bounded(RegexRangeMeaning.Times(u, n))
  {
    if n > 0 {
      TimesBounded(u, n - 1);
    }
  }

  lemma OwnBounded(u: string, r: Bounds)
    requires IsBounds(r)
    ensures Bounded(OwnUnits(u, r))
  {
    hide N.Value;
    var low, high := Least(Low(r), High(r)), Most(Low(r), High(r));
    TimesBounded(Unit(u, Once), low);
    TimesBounded(Unit(u, Optional), high - low);
  }

  lemma {:induction false} RestBounded(rs: seq<Bounds>)
    requires AllBounds(rs)
    ensures Bounded(RestUnits(rs)) && Bounded(BraceUnits(rs))
  {
    hide OwnUnits, IsBounds;
    if rs != [] {
      RestBounded(rs[1..]);
      OwnBounded("}", rs[0]);
    }
  }

  lemma {:induction false} RowBounded(es: Row)
    requires GoodRow(es) && NoneLoops(es)
    ensures Bounded(RowUnits(es))
  {
    hide OwnUnits, RestUnits, IsUnitText, IsBounds;
    if es != [] {
      RowBounded(es[1..]);
      var e := es[0];
      if !e.inside && e.ranges != [] {
        OwnBounded(e.u, e.ranges[0]);
        RestBounded(e.ranges[1..]);
      }
    }
  }

  lemma OpenCounts(e: Elem, k: nat)
    requires GoodElem(e) && Open(e) && CanRepeat(e) && k >= ElemFewest(e).n
    ensures Counts(e, k)
  {
    hide IsUnitText, N.Value;
    SingleFewest(e.ranges);
    SumOfOnes(k, k);
    assert e.ranges[..0] == [];
    assert Within(Last(e.ranges), k) && Sums(e.ranges[..|e.ranges| - 1], k, k);
  }

  /** A row with an open range accepts longer texts than its shortest word, by any number of characters. */
  lemma {:induction false} LongIntended(es: Row, d: nat, w: string)
    requires GoodRow(es) && Possible(es) && !NoneOpen(es) && |w| == |IntendedWord(es)| + d
    ensures Intended(Anything(), es, w)
    decreases |es|
  {
    hide Counts, ElemFewest, GoodElem, Open;
    var e, more, m := es[0], es[1..], Anything();
    ElemFewestIs(e);
    var n := ElemFewest(e).n;
    if Open(e) {
      var k := n + d;
      OpenCounts(e, k);
      AnySpelling(IntendedWord(more), w[k..]);
      ShortestIntended(m, more, w[k..]);
      assert RunOfElem(m, e, w[..k]);
    } else {
      LongIntended(more, d, w[n..]);
      assert RunOfElem(m, e, w[..n]);
    }
  }

  lemma OpenRowWrong(es: Row) returns (w: string)
    requires GoodRow(es) && Possible(es) && !NoneOpen(es) && NoneLoops(es)
    ensures Intended(Anything(), es, w) && !InLanguage(Anything(), RowUnits(es), w)
  {
    hide InLanguage, Intended, RowUnits, GoodElem, Possible, IntendedWord, NoneOpen, NoneLoops;
    var d := |RowUnits(es)| + 1;
    w := Marks(Copied("", |IntendedWord(es)| + d), "");
    LongIntended(es, d, w);
    RowBounded(es);
    if InLanguage(Anything(), RowUnits(es), w) {
      BoundedLength(Anything(), RowUnits(es), w);
    }
  }

  /** Some matcher and text on which the row's meaning and its compiled form disagree. */
  lemma UnfineRowWrong(es: Row) returns (m: MatchOne, w: string)
    requires GoodRow(es) && !FineRow(es) && (NoneOpen(es) || NoneLoops(es))
    ensures !(Intended(m, es, w) <==> InLanguage(m, RowUnits(es), w))
  {
    hide InLanguage, Intended, GoodElem, Fine, RowUnits, MinWord, Possible, NoneOpen, NoneLoops;
    var y := MinWord(RowUnits(es));
    if !Possible(es) {
      m, w := Anything(), Marks(y, "");
      ImpossibleIsEmpty(m, es, w);
      AnySpelling(y, w);
      ShortestOfUnits(m, RowUnits(es), w);
    } else if !NoneOpen(es) {
      m := Anything();
      w := OpenRowWrong(es);
    } else {
      var x := IntendedWord(es);
      WordsDiffer(es, []);
      assert [] + y == y;
      m, w := Separated(es, x, y);
    }
  }

  lemma Separated(es: Row, x: seq<string>, y: seq<string>) returns (m: MatchOne, w: string)
    requires GoodRow(es) && Possible(es) && x == IntendedWord(es) && y == MinWord(RowUnits(es)) && x != y
    ensures !(Intended(m, es, w) <==> InLanguage(m, RowUnits(es), w))
  {
    hide InLanguage, Intended, GoodElem, RowUnits, MinWord, IntendedWord;
    if |x| < |y| {
      m, w := Anything(), Marks(x, "");
      AnySpelling(x, w);
    } else if |y| < |x| {
      m, w := Anything(), Marks(y, "");
      AnySpelling(y, w);
    } else {
      var i :| 0 <= i < |x| && x[i] != y[i];
      m, w := Marking(x[i]), Marks(x, x[i]);
      assert Spells(m, x, w) && !m(y[i], w[i]);
    }
    ShortestIntended(m, es, w);
    ShortestOfUnits(m, RowUnits(es), w);
  }

  // ---------------------------------------------------------------------------------------
  // The theorem

  /** Every alternative of the written-out pattern has the language its row is meant to have. */
  ghost predicate RangesRight(a: RAlts)
    requires RGoodAll(a)
  {
    var rows, xs := RowsOf(a, false), ExpandAlts(WrittenAll(a, false));
    && GoodRows(rows) && |xs| == |rows|
    && forall m: MatchOne, i: int, w: string :: 0 <= i < |rows| ==> (Intended(m, rows[i], w) <==> InItems(TextMeaning(m), xs[i], w))
  }

  /** No alternative has an open range next to a unit with * or +, which may supply what the range lacks. */
  ghost predicate Telling(a: RAlts) {
    forall i :: 0 <= i < |RowsOf(a, false)| ==> NoneOpen(RowsOf(a, false)[i]) || NoneLoops(RowsOf(a, false)[i])
  }

  /** Every element of a pattern has the property. */
  predicate Every(p: Elem -> bool, s: RItems, inside: bool) {
    match s
    case RNil => true
    case RUnit(u, rs, rest) => p(Elem(u, rs, inside, Once)) && Every(p, rest, inside)
    case RQuant(u, c, rest) => p(Elem(u, [], inside, TimesOfChar(c))) && Every(p, rest, inside)
    case RGroup(body, rest) => EveryAll(p, body, true) && Every(p, rest, inside)
  }

  predicate EveryAll(p: Elem -> bool, a: RAlts, inside: bool) {
    Every(p, a.s, inside) && (a.RBar? ==> EveryAll(p, a.more, inside))
  }

  ghost predicate EveryRow(p: Elem -> bool, xs: seq<Row>) {
    forall i, j :: 0 <= i < |xs| && 0 <= j < |xs[i]| ==> p(xs[i][j])
  }

  lemma {:induction false} EveryCross(p: Elem -> bool, gs: seq<Row>, xs: seq<Row>)
    requires EveryRow(p, gs) && EveryRow(p, xs)
    ensures EveryRow(p, CrossRows(gs, xs))
  {
    if gs != [] {
      EveryCross(p, gs[1..], xs);
      EveryPrefixed(p, gs[0], xs);
    }
  }

  lemma EveryPrefixed(p: Elem -> bool, g: Row, xs: seq<Row>)
    requires EveryRow(p, [g]) && EveryRow(p, xs)
    ensures EveryRow(p, Prefixed(g, xs))
  {
    assert [g][0] == g;
  }

  lemma {:induction false} EveryInRows(p: Elem -> bool, s: RItems, inside: bool)
    requires Every(p, s, inside)
    ensures EveryRow(p, Rows(s, inside))
    decreases s
  {
    hide EveryRow;
    match s
    case RNil => assert EveryRow(p, [[]]) by { NoRow(p); }
    case RUnit(u, rs, rest) =>
      EveryInRows(p, rest, inside);
      SingleRow(p, Elem(u, rs, inside, Once));
      EveryPrefixed(p, [Elem(u, rs, inside, Once)], Rows(rest, inside));
    case RQuant(u, c, rest) =>
      EveryInRows(p, rest, inside);
      SingleRow(p, Elem(u, [], inside, TimesOfChar(c)));
      EveryPrefixed(p, [Elem(u, [], inside, TimesOfChar(c))], Rows(rest, inside));
    case RGroup(body, rest) =>
      EveryInAllRows(p, body, true);
      EveryInRows(p, rest, inside);
      EveryCross(p, RowsOf(body, true), Rows(rest, inside));
  }

  lemma NoRow(p: Elem -> bool)
    ensures EveryRow(p, [[]])
  {
  }

  lemma SingleRow(p: Elem -> bool, e: Elem)
    requires p(e)
    ensures EveryRow(p, [[e]])
  {
  }

  lemma {:induction false} EveryInAllRows(p: Elem -> bool, a: RAlts, inside: bool)
    requires EveryAll(p, a, inside)
    ensures EveryRow(p, RowsOf(a, inside))
    decreases a
  {
    EveryInRows(p, a.s, inside);
    if a.RBar? {
      EveryInAllRows(p, a.more, inside);
    }
  }

  /** In particular where there is no open range, or no * and no +. */
  lemma ShutOrFinite(a: RAlts)
    requires EveryAll(Shut, a, false) || EveryAll(Finite, a, false)
    ensures Telling(a)
  {
    if EveryAll(Shut, a, false) {
      EveryInAllRows(Shut, a, false);
    } else {
      EveryInAllRows(Finite, a, false);
    }
  }

  /** Right if all ranges are fine; and only then, where it can be told. */
  lemma RangesRightIff(a: RAlts)
    requires RGoodAll(a)
    ensures FineAll(a, false) ==> RangesRight(a)
    ensures Telling(a) ==> (RangesRight(a) <==> FineAll(a, false))
  {
    hide NoneOpen, NoneLoops, InLanguage, Intended, GoodRow, FineRow, RowUnits, RangesRight;
    var rows := RowsOf(a, false);
    AllRowsFineIff(a, false);
    RightByRows(a);
    if FineAll(a, false) {
      forall m: MatchOne, i: int, w: string | 0 <= i < |rows|
        ensures Intended(m, rows[i], w) <==> InLanguage(m, RowUnits(rows[i]), w)
      {
        FineRowIntended(m, rows[i], w);
      }
    } else if Telling(a) {
      var i :| 0 <= i < |rows| && !FineRow(rows[i]);
      var m, w := UnfineRowWrong(rows[i]);
    }
  }

  ghost predicate RowsRight(rows: seq<Row>)
    requires GoodRows(rows)
  {
    forall m: MatchOne, i: int, w: string :: 0 <= i < |rows| ==> (Intended(m, rows[i], w) <==> InLanguage(m, RowUnits(rows[i]), w))
  }

  lemma RightByRows(a: RAlts)
    requires RGoodAll(a)
    ensures GoodRows(RowsOf(a, false)) && (RangesRight(a) <==> RowsRight(RowsOf(a, false)))
  {
    hide InLanguage, Intended, GoodRow, RowUnits, TextMeaning, InItems, ItemUnits, Flat;
    var rows, xs := RowsOf(a, false), ExpandAlts(WrittenAll(a, false));
    AllRowsCompiled(a, false);
    forall m: MatchOne, i: int, w: string | 0 <= i < |rows|
      ensures InItems(TextMeaning(m), xs[i], w) <==> InLanguage(m, RowUnits(rows[i]), w)
    {
      ItemsLanguage(m, xs[i], w);
    }
    if RangesRight(a) {
      forall m: MatchOne, i: int, w: string | 0 <= i < |rows|
        ensures Intended(m, rows[i], w) <==> InLanguage(m, RowUnits(rows[i]), w)
      {
        assert Intended(m, rows[i], w) <==> InItems(TextMeaning(m), xs[i], w);
      }
    }
  }

  /** Some alternative is meant to accept w. */
  ghost predicate IntendedSome(m: MatchOne, a: RAlts, w: string)
    requires GoodRows(RowsOf(a, false))
  {
    exists i :: 0 <= i < |RowsOf(a, false)| && Intended(m, RowsOf(a, false)[i], w)
  }

  lemma FinePatternMeaning(m: MatchOne, a: RAlts, w: string)
    requires RGoodAll(a) && FineAll(a, false)
    ensures GoodRows(RowsOf(a, false))
    ensures InAlts(TextMeaning(m), WrittenAll(a, false), w) <==> IntendedSome(m, a, w)
  {
    hide TextMeaning, InItems, InAlts, Intended, GoodRow, ExpandAlts, RowsOf, WrittenAll, FineAll, RGoodAll;
    RangesRightIff(a);
    ExpansionPreservesMeaning(TextMeaning(m), WrittenAll(a, false), w);
  }

  lemma {:induction false} WrittenIsClean(s: RItems, inside: bool)
    requires RGood(s)
    ensures CleanItems(Written(s, inside))
    decreases s
  {
    hide IsUnitText, WrittenText, IsClean, RangeAt, ScanDepth, EscapesPaired, IsBounds;
    match s
    case RNil =>
    case RUnit(u, rs, rest) =>
      WrittenIsText(Elem(u, rs, inside, Once));
      WrittenIsClean(rest, inside);
    case RQuant(u, c, rest) =>
      QuantIsText(u, c, inside);
      WrittenIsClean(rest, inside);
    case RGroup(body, rest) =>
      AllWrittenIsClean(body, true);
      WrittenIsClean(rest, inside);
  }

  lemma {:induction false} AllWrittenIsClean(a: RAlts, inside: bool)
    requires RGoodAll(a)
    ensures CleanAlts(WrittenAll(a, inside))
    decreases a
  {
    WrittenIsClean(a.s, inside);
    if a.RBar? {
      AllWrittenIsClean(a.more, inside);
    }
  }

  /**
    regcomp and regexec on every pattern of units, ranges, groups and bars whose ranges are fine: a
    match exactly if some substring is one the pattern is meant to accept, and one starts where reported.
   */
  method SearchRanged(m: MatchOne, pattern: string, text: string, ghost a: RAlts) returns (pos: int)
    requires RGoodAll(a) && RPrintAll(a) == pattern && FineAll(a, false)
    requires SameReading(WrittenAll(a, false)) && MostGroupsOf(WrittenAll(a, false)) <= 9
    ensures GoodRows(RowsOf(a, false))
    ensures pos < 0 <==> forall i, j :: 0 <= i <= j <= |text| ==> !IntendedSome(m, a, text[i..j])
    ensures pos >= 0 ==> exists j :: pos <= j <= |text| && IntendedSome(m, a, text[pos..j])
  {
    hide TextMeaning, InAlts, IntendedSome, RGoodAll, FineAll, WrittenAll, SameReading, MostGroupsOf, ExpandRanges, GoodRows, RowsOf;
    ghost var x := WrittenAll(a, false);
    PatternExpands(a);
    AllWrittenIsClean(a, false);
    GroupsOfExpansion(x);
    FinePatternMeaning(m, a, "");
    pos := SearchReading(m, pattern, text, x);
    forall i, j | 0 <= i <= j <= |text|
      ensures InAlts(TextMeaning(m), x, text[i..j]) <==> IntendedSome(m, a, text[i..j])
    {
      FinePatternMeaning(m, a, text[i..j]);
    }
  }

  // ---------------------------------------------------------------------------------------
  // Ranges that are not fine although their bounds are in order

  ghost predicate IsTwoThree(r: Bounds) {
    IsBounds(r) && Low(r) == 2 && High(r) == 3
  }

  lemma {:induction false} PlainScan(s: string, depth: nat)
    requires depth > 0 && forall i :: 0 <= i < |s| ==> s[i] != '\\' && s[i] != '(' && s[i] != ')'
    ensures ScanDepth(s, depth) == depth && EscapesPaired(s)
  {
    if s != "" {
      PlainScan(s[1..], depth);
    }
  }

  lemma OneUnitPlain(u: string, r: Bounds)
    requires |u| == 1 && IsUnitText(u) && IsBounds(r)
    ensures RGood(RUnit(u, [r], RNil)) && RGoodAll(ROne(RGroup(ROne(RUnit(u, [r], RNil)), RNil)))
  {
    hide RangeText;
    var inner := RUnit(u, [r], RNil);
    assert RPrint(RNil) == "" && RGood(RNil);
    assert RGood(inner) && RGoodAll(ROne(inner));
    var t := RangeText(r.a, r.b);
    assert RangeTexts([r]) == t by {
      assert [r][1..] == [];
      assert RangeTexts([]) == "";
    }
    RangeTextsAreText([r]);
    assert RPrintAll(ROne(inner)) == u + t;
    PlainScan(u + t, 1);
    assert RGood(RGroup(ROne(inner), RNil));
  }

  /** A range in a group, as in (a{2,3}), and a range behind a range, as in a{2,3}{2,3}. */
  lemma OrderedButWrong(u: string, r: Bounds)
    requires |u| == 1 && IsUnitText(u) && IsTwoThree(r)
    ensures var inGroup := ROne(RGroup(ROne(RUnit(u, [r], RNil)), RNil)); RGoodAll(inGroup) && !RangesRight(inGroup)
    ensures var behind := ROne(RUnit(u, [r, r], RNil)); RGoodAll(behind) && !RangesRight(behind)
  {
    hide IsUnitText, RangesRight, IsBounds;
    var inner := RUnit(u, [r], RNil);
    var inGroup := ROne(RGroup(ROne(inner), RNil));
    var behind := ROne(RUnit(u, [r, r], RNil));
    assert RPrint(RNil) == "" && RGood(RNil);
    assert RGood(RUnit(u, [r, r], RNil));
    OneUnitPlain(u, r);
    assert Shut(Elem(u, [r], true, Once)) && Every(Shut, RNil, true) && Every(Shut, RNil, false);
    assert Every(Shut, behind.s, false) && Every(Shut, inner, true) && EveryAll(Shut, ROne(inner), true);
    assert Every(Shut, inGroup.s, false);
    ShutOrFinite(behind);
    ShutOrFinite(inGroup);
    RangesRightIff(behind);
    RangesRightIff(inGroup);
    assert !FineItems(inner, true);
    assert !FineAll(ROne(inner), true);
    assert !FineItems(inGroup.s, false);
  }

  /** An open range is written out as if its upper bound were 0: a{0,} vanishes, a{1,} and a{2,} leave one a. */
  lemma OpenRangeWrong(u: string, r: Bounds)
    requires IsUnitText(u) && IsBounds(r) && r.b == ""
    ensures var a := ROne(RUnit(u, [r], RNil));
            && RGoodAll(a) && RPrintAll(a) == u + RangeText(r.a, "") && !RangesRight(a)
            && ExpandRanges(RPrintAll(a)) == if Low(r) == 0 then "" else u
  {
    hide IsUnitText, RangesRight, RangeText, ExpandRanges;
    var s := RUnit(u, [r], RNil);
    assert RPrint(RNil) == "" && RGood(RNil);
    assert RGood(s) && RGoodAll(ROne(s));
    assert [r][1..] == [] && RangeTexts([]) == "" && RestText([]) == "";
    assert RangeTexts([r]) == RangeText(r.a, "") && RPrint(s) == u + RangeText(r.a, "");
    PatternExpands(ROne(s));
    assert Copies(u, 0) == "" && Copies(u + "?", 0) == "";
    var t := WrittenText(u, [r], false);
    assert t == if Low(r) == 0 then "" else u;
    TextPrinted(t);
    assert WrittenAll(ROne(s), false) == One(Text(t, Nil)) by {
      assert Written(RNil, false) == Nil;
    }
    assert !FineItems(s, false);
    assert Every(Finite, s, false);
    ShutOrFinite(ROne(s));
    RangesRightIff(ROne(s));
  }

  lemma TextPrinted(t: string)
    ensures PrintAlts(One(Text(t, Nil))) == t
  {
    assert PrintItems(Nil) == "" && t + "" == t;
  }

  lemma OpenInstances()
    ensures ExpandRanges("a{0,}") == "" && ExpandRanges("a{1,}") == "a"
  {
    hide RangesRight, ExpandRanges, RPrintAll, RGoodAll;
    var zero, one := Bounds("0", ""), Bounds("1", "");
    assert N.Value("0", 10) == 0 && N.Value("1", 10) == 1;
    OpenRangeWrong("a", zero);
    OpenRangeWrong("a", one);
    assert "a" + RangeText("0", "") == "a{0,}" && "a" + RangeText("1", "") == "a{1,}";
  }

  /** As in a{0,}a*: the range is not fine, but the star makes up for it.  This is why Telling is asked for. */
  lemma CoveredByStar(u: string, r: Bounds)
    requires IsUnitText(u) && IsBounds(r) && r.b == "" && Low(r) == 0
    ensures var a := ROne(RUnit(u, [r], RQuant(u, '*', RNil))); RGoodAll(a) && !FineAll(a, false) && RangesRight(a)
  {
    hide IsUnitText, RangesRight, RangeAt, Intended, InLanguage, RowUnits, N.Value;
    var tail := RQuant(u, '*', RNil);
    var a := ROne(RUnit(u, [r], tail));
    var e, f := Elem(u, [r], false, Once), Elem(u, [], false, Any);
    NotRangeAhead(u);
    assert RGood(RNil);
    assert RGood(tail);
    assert RGood(a.s);
    assert !FineItems(a.s, false);
    assert Rows(RNil, false) == [[]] && [f] + [] == [f];
    assert Rows(tail, false) == [[f]];
    assert [e] + [f] == [e, f];
    assert RowsOf(a, false) == [[e, f]];
    RightByRows(a);
    forall m: MatchOne, w: string
      ensures Intended(m, [e, f], w) <==> InLanguage(m, RowUnits([e, f]), w)
    {
      StarTakesAll(m, u, r, w);
    }
  }

  lemma NotRangeAhead(u: string)
    requires IsUnitText(u)
    ensures RPrint(RNil) == "" && RangeAt("") == NoRange && RangeAt(RPrint(RQuant(u, '*', RNil))) == NoRange
  {
    UnitStart(u);
    assert RPrint(RQuant(u, '*', RNil)) == u + (['*'] + "");
  }

  lemma StarTakesAll(m: MatchOne, u: string, r: Bounds, w: string)
    requires IsUnitText(u) && IsBounds(r) && r.b == "" && Low(r) == 0
    ensures var es := [Elem(u, [r], false, Once), Elem(u, [], false, Any)];
            GoodRow(es) && (Intended(m, es, w) <==> InLanguage(m, RowUnits(es), w))
  {
    hide IsUnitText, InLanguage, Counts, Intended, RunOfElem, ElemUnits, Fine, RowUnits;
    var e, f := Elem(u, [r], false, Once), Elem(u, [], false, Any);
    NoRangeIsFine(u, false, Any);
    SingleFewest([r]);
    OpenCounts(e, 0);
    EmptyThenStar(m, e, f, w);
    OneRow(m, f, w);
    FineElement(m, f, w);
    StarRuns(m, f, w);
    VanishedUnits(u, r);
    VanishedFirst(e, f);
  }

  lemma StarRuns(m: MatchOne, f: Elem, w: string)
    requires GoodElem(f) && f.times == Any
    ensures RunOfElem(m, f, w) <==> AllMatch(m, f.u, w)
  {
  }

  lemma EmptyThenStar(m: MatchOne, e: Elem, f: Elem, w: string)
    requires GoodElem(e) && GoodElem(f) && e.u == f.u && f.times == Any && Counts(e, 0)
    ensures GoodRow([e, f]) && (Intended(m, [e, f], w) <==> AllMatch(m, f.u, w))
  {
    hide GoodElem, Counts, AllMatch;
    var es := [e, f];
    assert es[1..] == [f];
    if Intended(m, es, w) {
      var k :| 0 <= k <= |w| && RunOfElem(m, e, w[..k]) && Intended(m, es[1..], w[k..]);
      OneRow(m, f, w[k..]);
      AllMatchJoined(m, f.u, w, k);
    }
    if AllMatch(m, f.u, w) {
      AllMatchJoined(m, f.u, w, 0);
      OneRow(m, f, w);
      StarRuns(m, f, w);
      assert w[..0] == "" && w[0..] == w;
      assert RunOfElem(m, e, w[..0]) && Intended(m, es[1..], w[0..]);
    }
  }

  lemma AllMatchJoined(m: MatchOne, u: string, w: string, k: nat)
    requires k <= |w|
    ensures AllMatch(m, u, w) <==> AllMatch(m, u, w[..k]) && AllMatch(m, u, w[k..])
  {
    assert forall i :: k <= i < |w| ==> w[i] == w[k..][i - k];
  }

  lemma VanishedFirst(e: Elem, f: Elem)
    requires GoodElem(e) && GoodElem(f) && ElemUnits(e) == []
    ensures GoodRow([e, f]) && RowUnits([e, f]) == RowUnits([f])
  {
    hide GoodElem, ElemUnits;
    assert [e, f][1..] == [f];
    assert RowUnits([e, f]) == [] + RowUnits([f]);
  }

  lemma VanishedUnits(u: string, r: Bounds)
    requires IsUnitText(u) && IsBounds(r) && r.b == "" && Low(r) == 0
    ensures ElemUnits(Elem(u, [r], false, Once)) == []
  {
    hide IsUnitText;
    assert [r][1..] == [] && RestUnits([]) == [];
    assert RegexRangeMeaning.Times(Unit(u, Optional), 0) == [] && RegexRangeMeaning.Times(Unit(u, Once), 0) == [];
  }

  /**
    As in a{2,1}|a: the first alternative is wrong, but together the alternatives accept what they are
    meant to.  This is why RangesRight speaks of each alternative.
   */
  lemma CoveredByAnother(m: MatchOne, u: string, r: Bounds, w: string)
    requires IsUnitText(u) && IsBounds(r) && r.b != "" && High(r) < Low(r)
    ensures var a := RBar(RUnit(u, [r], RNil), ROne(RUnit(u, [], RNil)));
            && RGoodAll(a) && !FineAll(a, false) && GoodRows(RowsOf(a, false))
            && (InAlts(TextMeaning(m), WrittenAll(a, false), w) <==> IntendedSome(m, a, w))
  {
    hide IsUnitText, TextMeaning, InItems, InAlts, InLanguage, N.Value, WrittenAll, Compiled, RangeAt, Intended;
    var a := RBar(RUnit(u, [r], RNil), ROne(RUnit(u, [], RNil)));
    var e, plain := Elem(u, [r], false, Once), Elem(u, [], false, Once);
    CoveredIsGood(u, r);
    AllRowsCompiled(a, false);
    TwoRows(u, r);
    ExpansionPreservesMeaning(TextMeaning(m), WrittenAll(a, false), w);
    OneRow(m, e, w);
    OneRow(m, plain, w);
    FineElement(m, plain, w);
    SingleFewest([r]);
    ImpossibleIsEmpty(m, [e], w);
    SameUnits(u, r);
    CompiledSome(m, a, w);
    var rows := RowsOf(a, false);
    assert rows == [[e], [plain]] && GoodRow([e]) && GoodRow([plain]);
    assert IntendedSome(m, a, w) <==> Intended(m, [plain], w) by {
      assert Intended(m, rows[1], w) ==> IntendedSome(m, a, w);
    }
  }

  lemma CoveredIsGood(u: string, r: Bounds)
    requires IsUnitText(u) && IsBounds(r) && r.b != "" && High(r) < Low(r)
    ensures var a := RBar(RUnit(u, [r], RNil), ROne(RUnit(u, [], RNil)));
            RGoodAll(a) && !FineAll(a, false) && !CanRepeat(Elem(u, [r], false, Once)) && GoodRow([Elem(u, [r], false, Once)]) && !Possible([Elem(u, [r], false, Once)])
  {
    hide N.Value;
    assert RPrint(RNil) == "" && RGood(RNil);
    var x, y := RUnit(u, [r], RNil), RUnit(u, [], RNil);
    assert RGood(x) && RGood(y);
    assert RangeTexts([]) == "" && RPrint(y) == u + ("" + "");
    assert u + ("" + "") == u;
    UnitStart(u);
    UnitIsNoRange(u);
    SingleFewest([r]);
    var es := [Elem(u, [r], false, Once)];
    assert !CanRepeat(es[0]);
    assert !FineItems(x, false);
  }

  lemma UnitIsNoRange(u: string)
    requires IsUnitText(u)
    ensures NotRange(u)
  {
  }

  lemma TwoRows(u: string, r: Bounds)
    ensures RowsOf(RBar(RUnit(u, [r], RNil), ROne(RUnit(u, [], RNil))), false) == [[Elem(u, [r], false, Once)], [Elem(u, [], false, Once)]]
  {
    var x, y := RUnit(u, [r], RNil), RUnit(u, [], RNil);
    assert Rows(RNil, false) == [[]];
    var e, plain := Elem(u, [r], false, Once), Elem(u, [], false, Once);
    assert [e] + [] == [e] && [plain] + [] == [plain];
    assert Rows(x, false) == [[e]] && Rows(y, false) == [[plain]];
    assert RowsOf(ROne(y), false) == Rows(y, false);
    assert RowsOf(RBar(x, ROne(y)), false) == Rows(x, false) + RowsOf(ROne(y), false);
  }

  lemma OneRow(m: MatchOne, e: Elem, w: string)
    requires GoodElem(e)
    ensures GoodRow([e]) && (Intended(m, [e], w) <==> RunOfElem(m, e, w)) && RowUnits([e]) == ElemUnits(e)
  {
    hide RunOfElem, ElemUnits, IsUnitText;
    OneUnits(e);
    assert [e][1..] == [];
    assert w[..|w|] == w && w[|w|..] == "";
    assert Intended(m, [], "");
    assert forall k :: 0 <= k <= |w| && Intended(m, [e][1..], w[k..]) ==> k == |w|;
  }

  lemma SameUnits(u: string, r: Bounds)
    requires IsUnitText(u) && IsBounds(r) && High(r) < Low(r)
    ensures ElemUnits(Elem(u, [r], false, Once)) == ElemUnits(Elem(u, [], false, Once))
  {
    hide IsUnitText, N.Value;
    assert [r][1..] == [] && RestUnits([]) == [] && RangeTexts([]) == "" && Each("") == [];
    assert RegexRangeMeaning.Times(Unit(u, Optional), 0) == [] && RegexRangeMeaning.Times(Unit(u, Once), 0) == [];
    assert RegexRangeMeaning.Times(Unit(u, Once), 1) == [Unit(u, Once)];
  }

  /** The language of the written-out pattern is the union over its rows. */
  lemma CompiledSome(m: MatchOne, a: RAlts, w: string)
    requires RGoodAll(a)
    ensures GoodRows(RowsOf(a, false))
    ensures InAlts(TextMeaning(m), WrittenAll(a, false), w) <==>
            exists i :: 0 <= i < |RowsOf(a, false)| && InLanguage(m, RowUnits(RowsOf(a, false)[i]), w)
  {
    hide TextMeaning, InItems, InAlts, InLanguage, GoodRow, ExpandAlts, RowsOf, WrittenAll, RGoodAll, RowUnits, ItemUnits, Flat;
    AllRowsCompiled(a, false);
    ExpansionPreservesMeaning(TextMeaning(m), WrittenAll(a, false), w);
    var rows, xs := RowsOf(a, false), ExpandAlts(WrittenAll(a, false));
    forall i | 0 <= i < |rows|
      ensures InItems(TextMeaning(m), xs[i], w) <==> InLanguage(m, RowUnits(rows[i]), w)
    {
      ItemsLanguage(m, xs[i], w);
    }
  }
}
