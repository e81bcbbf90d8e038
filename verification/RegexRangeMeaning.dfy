/** What a repetition range means: a unit followed by {m,n} matches m to n characters of that unit. */
module RegexRangeMeaning {
  import opened RegexAlternation
  import opened RegexExpand
  import opened RegexReading
  import opened RegexParse
  import opened RegexMatcher
  import opened RegexCompile
  import opened RegexRanges
  import N = Numerals

  // ---------------------------------------------------------------------------------------
  // The language of the written-out units

  function Times(u: Unit, n: nat): seq<Unit> {
    if n == 0 then [] else [u] + Times(u, n - 1)
  }

  function RangeUnits(text: string, low: nat, options: nat): seq<Unit> {
    Times(Unit(text, Once), low) + Times(Unit(text, Optional), options)
  }

  /** `low` copies and `options` optional copies accept exactly the runs of low to low + options matches. */
  lemma {:induction false} RangeLanguage(m: MatchOne, text: string, low: nat, options: nat, w: string)
    ensures InLanguage(m, RangeUnits(text, low, options), w)
            <==> low <= |w| <= low + options && AllMatch(m, text, w)
    decreases low, options
  {
    hide InLanguage;
    if low > 0 {
      var u, us := Unit(text, Once), RangeUnits(text, low - 1, options);
      assert RangeUnits(text, low, options) == [u] + us;
      ConsLanguage(m, u, us, w);
      if |w| > 0 {
        RangeLanguage(m, text, low - 1, options, w[1..]);
        FirstMatches(m, text, w);
        assert UnitAccepts(m, u, w[..1]) <==> m(text, w[0]);
      }
    } else if options > 0 {
      var u, us := Unit(text, Optional), RangeUnits(text, 0, options - 1);
      assert RangeUnits(text, 0, options) == [u] + us;
      ConsLanguage(m, u, us, w);
      RangeLanguage(m, text, 0, options - 1, w);
      assert UnitAccepts(m, u, w[..0]) && w[0..] == w;
      if |w| > 0 {
        RangeLanguage(m, text, 0, options - 1, w[1..]);
        FirstMatches(m, text, w);
        assert UnitAccepts(m, u, w[..1]) <==> m(text, w[0]);
      }
    } else {
      assert RangeUnits(text, 0, 0) == [];
      EmptyLanguage(m, w);
    }
  }

  lemma FirstMatches(m: MatchOne, text: string, w: string)
    requires w != ""
    ensures AllMatch(m, text, w) <==> m(text, w[0]) && AllMatch(m, text, w[1..])
  {
    if AllMatch(m, text, w[1..]) && m(text, w[0]) {
      forall i | 0 <= i < |w|
        ensures m(text, w[i])
      {
        if i > 0 {
          assert w[i] == w[1..][i - 1];
        }
      }
    }
  }

  // ---------------------------------------------------------------------------------------
  // The written-out text has those units

  lemma UnitStart(u: string)
    requires IsUnitText(u)
    ensures u != "" && !IsQuantifierChar(u[0]) && IsAtom(u)
  {
  }

  /** Optional copies in front of any text. */
  lemma {:induction false} OptionalCopies(u: string, n: nat, rest: string)
    requires IsUnitText(u) && IsClean(rest) && IsText(rest) && (rest == "" || !IsQuantifierChar(rest[0]))
    ensures var t := Copies(u + "?", n) + rest;
            && IsClean(t) && IsText(t) && (t == "" || !IsQuantifierChar(t[0]))
            && TextUnits(t) == Times(Unit(u, Optional), n) + TextUnits(rest)
  {
    hide IsUnitText, TextUnits, IsClean, IsText;
    if n == 0 {
      assert Copies(u + "?", 0) + rest == rest;
      assert [] + TextUnits(rest) == TextUnits(rest);
    } else {
      OptionalCopies(u, n - 1, rest);
      var more := Copies(u + "?", n - 1) + rest;
      assert Copies(u + "?", n) + rest == (u + "?") + more;
      OptionInFront(u, more);
      assert [Unit(u, Optional)] + (Times(Unit(u, Optional), n - 1) + TextUnits(rest))
          == Times(Unit(u, Optional), n) + TextUnits(rest);
    }
  }

  lemma EmptyText()
    ensures IsClean("") && IsText("")
  {
  }

  lemma OptionInFront(u: string, rest: string)
    requires IsUnitText(u) && IsClean(rest) && IsText(rest)
    ensures var t := (u + "?") + rest;
            IsClean(t) && IsText(t) && !IsQuantifierChar(t[0]) && TextUnits(t) == [Unit(u, Optional)] + TextUnits(rest)
  {
    hide IsUnitText, TextUnits, IsAtom;
    UnitStart(u);
    var t, k := (u + "?") + rest, |u|;
    assert t[..k] == u && t[k] == '?' && t[k + 1..] == rest && t[k..] == "?" + rest;
    TextUnitsStep(t, k);
    assert CleanCut(t, k);
    QuestionIsText(rest);
  }

  lemma QuestionIsText(rest: string)
    requires IsText(rest)
    ensures IsText("?" + rest)
  {
    var t := "?" + rest;
    assert t[..1] == "?" && t[1..] == rest;
    assert IsAtom(t[..1]);
  }

  /** Plain copies in front of a text that does not start with a quantifier. */
  lemma {:induction false} PlainCopies(u: string, n: nat, rest: string)
    requires IsUnitText(u) && IsClean(rest) && IsText(rest) && (rest == "" || !IsQuantifierChar(rest[0]))
    ensures var t := Copies(u, n) + rest;
            && IsClean(t) && IsText(t) && (t == "" || !IsQuantifierChar(t[0]))
            && TextUnits(t) == Times(Unit(u, Once), n) + TextUnits(rest)
  {
    hide IsUnitText, TextUnits, IsClean, IsText;
    if n == 0 {
      assert Copies(u, 0) + rest == rest;
      assert [] + TextUnits(rest) == TextUnits(rest);
    } else {
      PlainCopies(u, n - 1, rest);
      var more := Copies(u, n - 1) + rest;
      assert Copies(u, n) + rest == u + more;
      UnitInFront(u, more);
      assert [Unit(u, Once)] + (Times(Unit(u, Once), n - 1) + TextUnits(rest))
          == Times(Unit(u, Once), n) + TextUnits(rest);
    }
  }

  lemma UnitInFront(u: string, more: string)
    requires IsUnitText(u) && IsClean(more) && IsText(more) && (more == "" || !IsQuantifierChar(more[0]))
    ensures var t := u + more;
            IsClean(t) && IsText(t) && !IsQuantifierChar(t[0]) && TextUnits(t) == [Unit(u, Once)] + TextUnits(more)
  {
    hide IsUnitText, TextUnits, IsAtom;
    UnitStart(u);
    var t, k := u + more, |u|;
    assert t[..k] == u && t[k..] == more;
    TextUnitsStep(t, k);
    assert CleanCut(t, k);
  }

  /** A written-out range in front of any text. */
  lemma WrittenOutInFront(u: string, low: nat, high: nat, rest: string)
    requires IsUnitText(u) && low <= high && IsClean(rest) && IsText(rest) && (rest == "" || !IsQuantifierChar(rest[0]))
    ensures var t := WrittenOut(u, low, high) + rest;
            && IsClean(t) && IsText(t) && (t == "" || !IsQuantifierChar(t[0]))
            && TextUnits(t) == RangeUnits(u, low, high - low) + TextUnits(rest)
  {
    hide IsClean, IsText, TextUnits, IsUnitText;
    var options := Copies(u + "?", high - low) + rest;
    OptionalCopies(u, high - low, rest);
    PlainCopies(u, low, options);
    assert WrittenOut(u, low, high) + rest == Copies(u, low) + options;
    assert Times(Unit(u, Once), low) + (Times(Unit(u, Optional), high - low) + TextUnits(rest))
        == RangeUnits(u, low, high - low) + TextUnits(rest);
  }

  lemma WrittenOutUnits(u: string, low: nat, high: nat)
    requires IsUnitText(u) && low <= high
    ensures IsClean(WrittenOut(u, low, high)) && IsText(WrittenOut(u, low, high))
    ensures TextUnits(WrittenOut(u, low, high)) == RangeUnits(u, low, high - low)
  {
    hide IsClean, IsText, TextUnits, IsUnitText, WrittenOut, RangeUnits;
    EmptyText();
    TextUnitsNothing();
    WrittenOutInFront(u, low, high, "");
    assert WrittenOut(u, low, high) + "" == WrittenOut(u, low, high);
    assert RangeUnits(u, low, high - low) + [] == RangeUnits(u, low, high - low);
  }

  // ---------------------------------------------------------------------------------------
  // Reading the range

  lemma UnitSpan(u: string, v: string)
    requires IsUnitText(u)
    ensures ItemSpan(u + v) == |u|
  {
    var s := u + v;
    if u[0] == '[' {
      var b := u[1..|u| - 1];
      ClassEnds(b, v);
      assert s[1..] == b + "]" + v;
    }
  }

  function RangeText(a: string, b: string): string {
    "{" + a + "," + b + "}"
  }

  lemma RangeRead(a: string, b: string)
    requires a != "" && N.AllDigits(a, 10) && N.AllDigits(b, 10)
    ensures RangeAt(RangeText(a, b)) == Range(N.Value(a, 10), N.Value(b, 10), |a| + |b| + 3)
  {
    hide N.Value, N.AfterDigits, RangeText;
    RangeLayout(a, b);
    N.DigitsTaken("{", a, "," + b + "}", 10, 1);
    N.DigitsTaken("{" + a + ",", b, "}", 10, |a| + 2);
  }

  lemma RangeLayout(a: string, b: string)
    ensures var t, p := RangeText(a, b), 1 + |a|;
            && |t| == |a| + |b| + 3 && t == "{" + a + ("," + b + "}") == "{" + a + "," + b + "}"
            && t[0] == '{' && (a != "" ==> t[1] == a[0]) && t[1..p] == a && t[p] == ','
            && t[p + 1..p + 1 + |b|] == b && t[p + 1 + |b|] == '}'
  {
  }

  lemma RangeExpands(u: string, a: string, b: string)
    requires IsUnitText(u) && a != "" && N.AllDigits(a, 10) && N.AllDigits(b, 10)
    ensures ExpandRanges(u + RangeText(a, b)) == WrittenOut(u, N.Value(a, 10), N.Value(b, 10))
  {
    hide IsUnitText, ItemSpan, RangeAt, N.Value, WrittenOut, RangeText, ExpandRanges;
    var s, r := u + RangeText(a, b), RangeText(a, b);
    RangeLayout(a, b);
    UnitSpan(u, r);
    RangeRead(a, b);
    UnitStart(u);
    RangesStep(s);
    assert s[..|u|] == u && s[|u|..] == r;
    assert s[|u| + (|a| + |b| + 3)..] == "";
    NothingToExpand();
  }

  // ---------------------------------------------------------------------------------------
  // Reversed bounds, which include every {m,} with m > 0: the item once

  function Least(low: nat, high: nat): nat {
    if high < low then 1 else low
  }

  function Most(low: nat, high: nat): nat {
    if high < low then 1 else high
  }

  lemma ReversedIsOnce(u: string, low: nat, high: nat)
    ensures WrittenOut(u, low, high) == WrittenOut(u, Least(low, high), Most(low, high))
  {
    if high < low {
      assert Copies(u, 0) == "" && Copies(u, 1) == u + "" == u;
      assert u + Copies(u + "?", 0) == u;
    }
  }

  // ---------------------------------------------------------------------------------------
  // Searching for a range

  lemma RangeMeaning(m: MatchOne, u: string, low: nat, high: nat, w: string)
    requires IsUnitText(u)
    ensures InAlts(TextMeaning(m), One(Text(WrittenOut(u, low, high), Nil)), w)
            <==> Least(low, high) <= |w| <= Most(low, high) && AllMatch(m, u, w)
  {
    hide InLanguage, WrittenOut, IsUnitText, TextUnits;
    var t := WrittenOut(u, low, high);
    ReversedIsOnce(u, low, high);
    WrittenOutUnits(u, Least(low, high), Most(low, high));
    RangeLanguage(m, u, Least(low, high), Most(low, high) - Least(low, high), w);
    assert w[..|w|] == w && w[|w|..] == "";
    assert InItems(TextMeaning(m), Text(t, Nil), w) <==> TextMeaning(m)(t, w) by {
      forall k | 0 <= k <= |w| && InItems(TextMeaning(m), Nil, w[k..])
        ensures k == |w|
      {
      }
    }
  }

  lemma RangeSupported(u: string, low: nat, high: nat)
    requires IsUnitText(u)
    ensures Supported(One(Text(WrittenOut(u, low, high), Nil)))
  {
    hide WrittenOut, IsUnitText, IsClean, IsText, Supported;
    ReversedIsOnce(u, low, high);
    WrittenOutUnits(u, Least(low, high), Most(low, high));
    TextSupported(WrittenOut(u, low, high));
  }

  lemma TextSupported(t: string)
    requires IsClean(t) && IsText(t)
    ensures Supported(One(Text(t, Nil)))
  {
    hide IsClean, IsText, SameReading;
    var x := Text(t, Nil);
    assert ExpandItems(Nil) == [Nil];
    assert ExpandItems(x) == [x];
    assert ExpandAlts(One(x)) == [x];
    assert GoodItems(Nil) && AlignedItems(Nil) && CleanItems(Nil) && Flat(Nil) && GroupCount(Nil) == 0;
    assert GoodAlts(One(x)) && AlignedAlts(One(x)) && CleanAlts(One(x)) && Flat(x) && GroupCount(x) == 0;
    SameReadingIfAligned(One(x));
  }

  /** regcomp and regexec on u{m,n}: a match exactly if m to n characters in a row match u, one if m > n. */
  method SearchRange(m: MatchOne, u: string, a: string, b: string, text: string) returns (pos: int)
    requires IsUnitText(u) && a != "" && N.AllDigits(a, 10) && N.AllDigits(b, 10)
    ensures pos < 0 <==> forall i, j :: 0 <= i <= j <= |text| ==> !RunOf(m, u, N.Value(a, 10), N.Value(b, 10), text[i..j])
    ensures pos >= 0 ==> exists j :: pos <= j <= |text| && RunOf(m, u, N.Value(a, 10), N.Value(b, 10), text[pos..j])
  {
    hide N.Value, AllMatch, WrittenOut, IsUnitText, Supported, InAlts, TextMeaning, ExpandRanges;
    ghost var low, high := N.Value(a, 10), N.Value(b, 10);
    ghost var x := One(Text(WrittenOut(u, low, high), Nil));
    RangeExpands(u, a, b);
    RangeSupported(u, low, high);
    PrintOne(WrittenOut(u, low, high));
    pos := SearchReading(m, u + RangeText(a, b), text, x);
    forall i, j | 0 <= i <= j <= |text|
      ensures InAlts(TextMeaning(m), x, text[i..j]) <==> RunOf(m, u, low, high, text[i..j])
    {
      RangeMeaning(m, u, low, high, text[i..j]);
    }
  }

  /** A run of characters that match u, as many as the range allows. */
  predicate RunOf(m: MatchOne, u: string, low: nat, high: nat, w: string) {
    Least(low, high) <= |w| <= Most(low, high) && AllMatch(m, u, w)
  }

  lemma PrintOne(t: string)
    ensures PrintAlts(One(Text(t, Nil))) == t
  {
    assert PrintItems(Nil) == "";
    assert PrintItems(Text(t, Nil)) == t + "" == t;
  }
}
