/** Patterns with '^' in front, '$' behind, or both: the whole path through regcomp and regexec. */
module RegexAnchors {
  import opened RegexAlternation
  import opened RegexExpand
  import opened RegexReading
  import opened RegexParse
  import opened RegexMatcher
  import opened RegexCompile
  import RegexRanges

  // ---------------------------------------------------------------------------------------
  // Anchored branches

  function Mark(anchored: bool, c: char): string {
    if anchored then [c] else ""
  }

  function Appended(s: Items, t: string): Items {
    match s
    case Nil => Text(t, Nil)
    case Text(u, rest) => Text(u, Appended(rest, t))
    case Group(body, rest) => Group(body, Appended(rest, t))
  }

  /** The branch between its anchors. */
  function Anchored(front: bool, s: Items, back: bool): Items {
    Text(Mark(front, '^'), Appended(s, Mark(back, '$')))
  }

  function AnchoredText(front: bool, t: string, back: bool): string {
    Mark(front, '^') + (t + Mark(back, '$'))
  }

  lemma {:induction false} AppendedPrints(s: Items, t: string)
    ensures PrintItems(Appended(s, t)) == PrintItems(s) + t
    decreases s
  {
    match s
    case Nil => assert t + "" == t && "" + t == t;
    case Text(u, rest) => AppendedPrints(rest, t);
    case Group(body, rest) => AppendedPrints(rest, t);
  }

  lemma AnchoredPrints(front: bool, s: Items, back: bool)
    ensures PrintItems(Anchored(front, s, back)) == AnchoredText(front, PrintItems(s), back)
  {
    AppendedPrints(s, Mark(back, '$'));
  }

  function AppendAll(xs: seq<Items>, t: string): (r: seq<Items>)
    ensures |r| == |xs| && forall i :: 0 <= i < |xs| ==> r[i] == Appended(xs[i], t)
  {
    seq(|xs|, i requires 0 <= i < |xs| => Appended(xs[i], t))
  }

  lemma {:induction false} WithGroupsAppended(gs: seq<Items>, xs: seq<Items>, t: string)
    ensures WithGroups(gs, AppendAll(xs, t)) == AppendAll(WithGroups(gs, xs), t)
  {
    if gs != [] {
      WithGroupsAppended(gs[1..], xs, t);
      assert WithGroup(gs[0], AppendAll(xs, t)) == AppendAll(WithGroup(gs[0], xs), t);
    }
  }

  lemma {:induction false} AppendedExpands(s: Items, t: string)
    ensures ExpandItems(Appended(s, t)) == AppendAll(ExpandItems(s), t)
    decreases s
  {
    match s
    case Nil => assert ExpandItems(Nil) == [Nil];
    case Text(u, rest) =>
      AppendedExpands(rest, t);
      assert WithText(u, AppendAll(ExpandItems(rest), t)) == AppendAll(WithText(u, ExpandItems(rest)), t);
    case Group(body, rest) =>
      AppendedExpands(rest, t);
      WithGroupsAppended(ExpandAlts(body), ExpandItems(rest), t);
  }

  /** The anchors stand around every expansion. */
  lemma AnchoredExpands(front: bool, s: Items, back: bool)
    ensures var xs, ys := ExpandItems(s), ExpandItems(Anchored(front, s, back));
            |ys| == |xs| && forall i :: 0 <= i < |xs| ==> PrintItems(ys[i]) == AnchoredText(front, PrintItems(xs[i]), back)
  {
    var xs := ExpandItems(s);
    AppendedExpands(s, Mark(back, '$'));
    forall i | 0 <= i < |xs|
      ensures PrintItems(Anchored(front, xs[i], back)) == AnchoredText(front, PrintItems(xs[i]), back)
    {
      AnchoredPrints(front, xs[i], back);
    }
  }

  // ---------------------------------------------------------------------------------------
  // Their tokens

  lemma BackCompiled(groups: nat, back: bool)
    ensures var p := Compile(Mark(back, '$'), groups, []);
            Continues(p) && Units(p) == [] && (EndAnchored(p) <==> back) && Terminated(Mark(back, '$'))
  {
    var t := Mark(back, '$');
    if back {
      assert t[1..] == "";
      CompileNothing(groups, []);
      assert Compile(t, groups, []) == [End];
    }
  }

  lemma FrontCompiled(v: string)
    ensures Compile("^" + v, 0, []) == [Begin] + Compile(v, 0, []) && (Terminated("^" + v) <==> Terminated(v))
  {
    assert ("^" + v)[1..] == v;
  }

  /** What one anchored alternative matches. */
  lemma AnchoredAlternative(m: MatchOne, x: Items, front: bool, back: bool, text: string, i: nat)
    requires Flat(x) && CleanItems(x) && GroupCount(x) <= 9 && i <= |text|
    ensures var p := Compile(AnchoredText(front, PrintItems(x), back), 0, []);
            && Terminated(AnchoredText(front, PrintItems(x), back)) && WellFormedAlternative(p)
            && (MatchesAt(m, p, text, i) <==>
                exists j :: Between(text, front, back, i, j) && InItems(TextMeaning(m), x, text[i..j]))
  {
    hide Compile, Terminated, IsClean, InLanguage, Units, TextMeaning, TextUnits, WellFormed, InItems, ItemUnits, GroupCount;
    var b := Mark(back, '$');
    var body := PrintItems(x) + b;
    BackCompiled(GroupCount(x), back);
    CompileItems(x, b, 0, []);
    CleanItemsTerminate(x, b);
    var q := Compile(body, 0, []);
    assert ItemUnits(x) + [] == ItemUnits(x);
    FrontCompiled(body);
    assert "" + body == body;
    NoBegin(q);
    forall j | i <= j <= |text|
      ensures InItems(TextMeaning(m), x, text[i..j]) && (back ==> j == |text|) <==> MatchEnds(m, q, text, i, j)
    {
      ItemsLanguage(m, x, text[i..j]);
    }
    var p := Compile(AnchoredText(front, PrintItems(x), back), 0, []);
    if front {
      assert p[1..] == q;
    }
    if MatchesAt(m, p, text, i) {
      var j: int :| MatchEnds(m, q, text, i, j);
      assert Between(text, front, back, i, j);
    }
    if j: int :| Between(text, front, back, i, j) && InItems(TextMeaning(m), x, text[i..j]) {
      assert MatchEnds(m, q, text, i, j);
    }
  }

  lemma NoBegin(p: seq<Token>)
    requires WellFormed(p)
    ensures p != [] ==> !p[0].Begin?
  {
  }

  /** The substring from i to j starts at 0 if `front`, and ends with the text if `back`. */
  predicate Between(text: string, front: bool, back: bool, i: int, j: int) {
    0 <= i <= j <= |text| && (front ==> i == 0) && (back ==> j == |text|)
  }

  // ---------------------------------------------------------------------------------------
  // The whole path

  /**
    Compiling and searching with a branch between anchors, its groups and alternations included: a match
    exactly if some substring in the language of the branch starts and ends where the anchors say.
   */
  method SearchAnchored(m: MatchOne, pattern: string, text: string, ghost s: Items, ghost front: bool, ghost back: bool)
    returns (pos: int)
    requires RegexRanges.ExpandRanges(pattern) == AnchoredText(front, PrintItems(s), back)
    requires SameReading(One(Anchored(front, s, back))) && CleanItems(s) && MostGroups(s) <= 9
    ensures pos < 0 <==> forall i, j :: Between(text, front, back, i, j) ==> !InItems(TextMeaning(m), s, text[i..j])
    ensures pos >= 0 ==> exists j :: Between(text, front, back, pos, j) && InItems(TextMeaning(m), s, text[pos..j])
  {
    hide ExpandText, Compile, CleanItems, GroupCount, ExpandItems, SameReading, MatchesAt, WellFormedAlternative, TextMeaning, InItems, Flat, PrintItems, MostGroups;
    hide AnchoredText, Between, Terminated;
    var alts, _, ok := Regcomp(pattern);
    ghost var xs, ys := ExpandItems(s), ExpandItems(Anchored(front, s, back));
    AnchoredPrints(front, s, back);
    RightIfSameReading(One(Anchored(front, s, back)));
    AnchoredExpands(front, s, back);
    GroupsOfItems(s);
    ItemsExpansionIsClean(s);
    forall k | 0 <= k < |xs|
      ensures Terminated(PrintItems(ys[k])) && WellFormedAlternative(Compile(PrintItems(ys[k]), 0, []))
    {
      AnchoredAlternative(m, xs[k], front, back, "", 0);
    }
    ghost var which;
    pos, which := Regexec(m, alts, text);
    AnchoredMeaning(m, s, xs, front, back, alts, text, pos, which);
  }

  lemma AnchoredMeaning(m: MatchOne, s: Items, xs: seq<Items>, front: bool, back: bool, alts: seq<seq<Token>>, text: string, pos: int, which: nat)
    requires xs == ExpandItems(s) && AllClean(xs) && GroupsWithin(xs, 9) && |alts| == |xs|
    requires forall k :: 0 <= k < |xs| ==> alts[k] == Compile(AnchoredText(front, PrintItems(xs[k]), back), 0, [])
    requires forall k :: 0 <= k < |alts| ==> WellFormedAlternative(alts[k])
    requires pos == -1 || 0 <= pos <= |text|
    requires pos < 0 <==> forall k :: 0 <= k < |alts| ==> !MatchesSomewhere(m, alts[k], text)
    requires pos >= 0 ==> which < |alts| && MatchesAt(m, alts[which], text, pos)
    ensures pos < 0 <==> forall i, j :: Between(text, front, back, i, j) ==> !InItems(TextMeaning(m), s, text[i..j])
    ensures pos >= 0 ==> exists j :: Between(text, front, back, pos, j) && InItems(TextMeaning(m), s, text[pos..j])
  {
    hide Compile, CleanItems, GroupCount, ExpandItems, MatchesAt, WellFormedAlternative, TextMeaning, InItems, Flat, PrintItems, AnchoredText;
    var meaning := TextMeaning(m);
    if pos >= 0 {
      AnchoredAlternative(m, xs[which], front, back, text, pos);
      var j :| Between(text, front, back, pos, j) && InItems(meaning, xs[which], text[pos..j]);
      ItemsExpansion(meaning, s, text[pos..j]);
      assert InSome(meaning, xs, text[pos..j]);
    } else {
      forall i, j | Between(text, front, back, i, j)
        ensures !InItems(meaning, s, text[i..j])
      {
        ItemsExpansion(meaning, s, text[i..j]);
        forall k | 0 <= k < |xs|
          ensures !InItems(meaning, xs[k], text[i..j])
        {
          AnchoredAlternative(m, xs[k], front, back, text, i);
          assert !MatchesSomewhere(m, alts[k], text);
          assert !MatchesAt(m, alts[k], text, i);
        }
      }
    }
  }

  // ---------------------------------------------------------------------------------------
  // Texts of units

  lemma {:induction false} AtomsInFront(t: string, v: string)
    requires IsAtom(t) && IsText(v)
    ensures IsText(t + v)
  {
    hide IsClassBody;
    var s := t + v;
    assert 0 < |t| <= |s| && s[..|t|] == t && s[|t|..] == v;
  }

  lemma {:induction false} CleanIsText(t: string)
    requires IsClean(t)
    ensures IsText(t)
    decreases |t|
  {
    hide IsText, IsUnitText, IsAtom;
    if t == "" {
      assert IsText(t) by { NoText(); }
    } else {
      var k: int :| CleanCut(t, k);
      UnitIsAtom(t[..k]);
      assert t == t[..k] + t[k..];
      if k < |t| && IsQuantifierChar(t[k]) {
        CleanIsText(t[k + 1..]);
        PlainIsAtom(t[k]);
        AtomsInFront([t[k]], t[k + 1..]);
        assert t[k..] == [t[k]] + t[k + 1..];
      } else {
        CleanIsText(t[k..]);
      }
      AtomsInFront(t[..k], t[k..]);
    }
  }

  lemma NoText()
    ensures IsText("")
  {
  }

  lemma UnitIsAtom(t: string)
    requires IsUnitText(t)
    ensures IsAtom(t)
  {
  }

  lemma PlainIsAtom(c: char)
    requires IsQuantifierChar(c) || c == '^' || c == '$'
    ensures IsAtom([c])
  {
  }

  lemma MarkIsText(anchored: bool, c: char)
    requires c == '^' || c == '$'
    ensures IsText(Mark(anchored, c))
  {
    hide IsText, IsAtom;
    NoText();
    if anchored {
      PlainIsAtom(c);
      AtomsInFront([c], "");
      assert [c] + "" == [c];
    }
  }

  /**
    The same for every text t of units, each perhaps quantified, which is what is left between the anchors
    once ranges are written out: ^t, t$ and ^t$.
   */
  method SearchAnchoredUnits(m: MatchOne, pattern: string, text: string, ghost t: string, ghost front: bool, ghost back: bool)
    returns (pos: int)
    requires RegexRanges.ExpandRanges(pattern) == AnchoredText(front, t, back) && IsClean(t)
    ensures pos < 0 <==> forall i, j :: Between(text, front, back, i, j) ==> !TextMeaning(m)(t, text[i..j])
    ensures pos >= 0 ==> exists j :: Between(text, front, back, pos, j) && TextMeaning(m)(t, text[pos..j])
  {
    hide IsClean, TextMeaning, InItems, SameReading, AnchoredText, IsText;
    ghost var s := Text(t, Nil);
    UnitsSupported(t, front, back);
    pos := SearchAnchored(m, pattern, text, s, front, back);
    forall w: string
      ensures InItems(TextMeaning(m), s, w) <==> TextMeaning(m)(t, w)
    {
      OneTextMeaning(TextMeaning(m), t, w);
    }
  }

  lemma UnitsSupported(t: string, front: bool, back: bool)
    requires IsClean(t)
    ensures var s := Text(t, Nil);
            PrintItems(s) == t && SameReading(One(Anchored(front, s, back))) && CleanItems(s) && MostGroups(s) == 0
  {
    hide IsText, IsClean, SameReading;
    var s := Text(t, Nil);
    assert PrintItems(Nil) == "" && t + "" == t;
    CleanIsText(t);
    MarkIsText(front, '^');
    MarkIsText(back, '$');
    var last := Text(Mark(back, '$'), Nil);
    assert Appended(Nil, Mark(back, '$')) == last;
    var a := One(Anchored(front, s, back));
    assert GoodItems(Nil) && AlignedItems(Nil) && CleanItems(Nil) && MostGroups(Nil) == 0;
    assert GoodItems(last) && AlignedItems(last);
    assert GoodItems(Text(t, last)) && AlignedItems(Text(t, last));
    assert GoodItems(a.s) && AlignedItems(a.s);
    SameReadingIfAligned(a);
  }

  lemma OneTextMeaning(meaning: Meaning, t: string, w: string)
    ensures InItems(meaning, Text(t, Nil), w) <==> meaning(t, w)
  {
    assert w[..|w|] == w && w[|w|..] == "";
    assert forall k :: 0 <= k <= |w| && InItems(meaning, Nil, w[k..]) ==> k == |w|;
  }
}
