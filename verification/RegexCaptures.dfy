/**
  The captures of a match.  regcomp reports as re_nsub the number of groups of the last alternative;
  regexec makes room for that many captures and one more, or for none if it is 0; and the matcher
  stores at the number of every group it passes, whichever alternative it tries.
 */
module RegexCaptures {
  import opened RegexAlternation
  import opened RegexExpand
  import opened RegexReading
  import opened RegexParse
  import opened RegexMatcher
  import opened RegexCompile

  predicate IsCapture(t: Token) {
    t.CapOpen? || t.CapClose?
  }

  /** Every capture of the token list has its place among `room` captures numbered from 0. */
  predicate Fits(p: seq<Token>, room: nat) {
    forall i :: 0 <= i < |p| && IsCapture(p[i]) ==> p[i].group < room
  }

  /** No captures are kept, or every token of every alternative stores within the room made. */
  ghost predicate StoresInBounds(alts: seq<seq<Token>>, nsub: nat) {
    nsub == 0 || forall k :: 0 <= k < |alts| ==> Fits(alts[k], nsub + 1)
  }

  ghost predicate Known(stack: seq<nat>, groups: nat) {
    forall i :: 0 <= i < |stack| ==> stack[i] <= groups
  }

  /** compile_single numbers groups in order, and closes only groups it has opened. */
  lemma {:induction false} GroupsNumbered(s: string, groups: nat, stack: seq<nat>)
    requires Known(stack, groups)
    ensures var p := Compile(s, groups, stack);
            && Fits(p, groups + Opened(p) + 1)
            && (Opened(p) > 0 ==> CapOpen(groups + Opened(p)) in p)
    decreases |s|
  {
    hide Compile, FirstToken, Fits, Opened, Known, StackAfter;
    if s == "" {
      CompileNothing(groups, stack);
      NothingFits(groups + 1);
    } else {
      var (t, n) := FirstToken(s, groups, stack);
      FirstCapture(s, groups, stack);
      CompileStep(s, 0, groups, stack);
      assert s[0..] == s;
      var rest := Compile(s[n..], GroupsAfter(t, groups), StackAfter(t, stack));
      GroupsNumbered(s[n..], GroupsAfter(t, groups), StackAfter(t, stack));
      ConsOpened(t, rest);
      FitsCons(t, rest, groups + Opened([t] + rest) + 1);
    }
  }

  lemma NothingFits(room: nat)
    ensures Opened([]) == 0 && Fits([], room)
  {
  }

  lemma FitsCons(t: Token, rest: seq<Token>, room: nat)
    ensures Fits([t] + rest, room) <==> (IsCapture(t) ==> t.group < room) && Fits(rest, room)
  {
    var p := [t] + rest;
    assert p[0] == t && forall i :: 0 < i < |p| ==> p[i] == rest[i - 1];
    if Fits(p, room) {
      forall i | 0 <= i < |rest| && IsCapture(rest[i])
        ensures rest[i].group < room
      {
        assert p[i + 1] == rest[i];
      }
    }
  }

  lemma ConsOpened(t: Token, rest: seq<Token>)
    ensures Opened([t] + rest) == GroupsAfter(t, Opened(rest))
  {
    assert ([t] + rest)[1..] == rest;
  }

  lemma FirstCapture(s: string, groups: nat, stack: seq<nat>)
    requires s != "" && Known(stack, groups)
    ensures var t := FirstToken(s, groups, stack).0;
            && (t.CapOpen? ==> t.group == groups + 1) && (t.CapClose? ==> t.group <= groups)
            && Known(StackAfter(t, stack), GroupsAfter(t, groups))
  {
  }

  /** A token list fits exactly if there is room for as many groups as it opens. */
  lemma FitsIff(s: string, n: nat)
    requires n > 0
    ensures Fits(Compile(s, 0, []), n + 1) <==> Opened(Compile(s, 0, [])) <= n
  {
    hide Compile, Opened;
    var p := Compile(s, 0, []);
    GroupsNumbered(s, 0, []);
    if Opened(p) > n {
      var i :| 0 <= i < |p| && p[i] == CapOpen(Opened(p));
      assert IsCapture(p[i]);
    }
  }

  /** The stores stay in bounds exactly if the last alternative has no group, or no alternative has more. */
  lemma StoresInBoundsIff(pats: seq<string>)
    ensures var alts := CompileAll(pats);
            StoresInBounds(alts, LastOpened(alts)) <==>
            LastOpened(alts) == 0 || forall k :: 0 <= k < |alts| ==> Opened(alts[k]) <= LastOpened(alts)
  {
    hide Compile, Opened, Fits;
    var alts := CompileAll(pats);
    var n := LastOpened(alts);
    if n > 0 {
      forall k | 0 <= k < |alts|
        ensures Fits(alts[k], n + 1) <==> Opened(alts[k]) <= n
      {
        FitsIff(pats[k], n);
      }
    }
  }

  // ---------------------------------------------------------------------------------------
  // On patterns

  lemma {:induction false} TextOpensNothing(t: string, v: string, groups: nat, stack: seq<nat>)
    requires IsClean(t)
    ensures Opened(Compile(t + v, groups, stack)) == Opened(Compile(v, groups, stack))
    decreases |t|
  {
    hide Compile, IsUnitText, Opened;
    if t == "" {
      assert t + v == v;
    } else {
      var k: int :| CleanCut(t, k);
      if k < |t| && IsQuantifierChar(t[k]) {
        var c, rest := t[k], t[k + 1..];
        assert t + v == t[..k] + ([c] + (rest + v));
        CompileUnit(t[..k], [c] + (rest + v), groups, stack);
        ConsOpened(Single(t[..k]), Compile([c] + (rest + v), groups, stack));
        QuantifierOpensNothing(c, rest + v, groups, stack);
        TextOpensNothing(rest, v, groups, stack);
      } else {
        assert t + v == t[..k] + (t[k..] + v);
        CompileUnit(t[..k], t[k..] + v, groups, stack);
        ConsOpened(Single(t[..k]), Compile(t[k..] + v, groups, stack));
        TextOpensNothing(t[k..], v, groups, stack);
      }
    }
  }

  lemma QuantifierOpensNothing(c: char, v: string, groups: nat, stack: seq<nat>)
    requires IsQuantifierChar(c)
    ensures Opened(Compile([c] + v, groups, stack)) == Opened(Compile(v, groups, stack))
  {
    QuantifierToken(c, v, groups, stack);
    assert ([c] + v)[1..] == v;
    ConsOpened(FirstToken([c] + v, groups, stack).0, Compile(v, groups, stack));
  }

  /** A branch opens the groups it is written with. */
  lemma {:induction false} ItemsOpened(x: Items, v: string, groups: nat, stack: seq<nat>)
    requires Flat(x) && CleanItems(x) && groups + GroupCount(x) <= 9
    ensures Opened(Compile(PrintItems(x) + v, groups, stack))
         == GroupCount(x) + Opened(Compile(v, groups + GroupCount(x), stack))
    decreases x
  {
    hide Compile, IsClean, Opened;
    match x
    case Nil => assert PrintItems(x) + v == v;
    case Text(t, rest) =>
      ItemsOpened(rest, v, groups, stack);
      assert PrintItems(x) + v == t + (PrintItems(rest) + v);
      TextOpensNothing(t, PrintItems(rest) + v, groups, stack);
    case Group(body, rest) =>
      var after, tail := groups + 1 + GroupCount(body.s), PrintItems(rest) + v;
      ItemsOpened(rest, v, after, stack);
      CompileParens(tail, after, stack, groups + 1);
      ConsOpened(CapClose(groups + 1), Compile(tail, after, stack));
      ItemsOpened(body.s, ")" + tail, groups + 1, stack + [groups + 1]);
      var inner := PrintItems(body.s) + (")" + tail);
      CompileParens(inner, groups, stack, 0);
      ConsOpened(CapOpen(groups + 1), Compile(inner, groups + 1, stack + [groups + 1]));
      GroupInFront(body, rest, v);
  }

  lemma BranchOpened(x: Items)
    requires Flat(x) && CleanItems(x) && GroupCount(x) <= 9
    ensures Opened(Compile(PrintItems(x), 0, [])) == GroupCount(x)
  {
    hide Compile, IsClean, PrintItems;
    ItemsOpened(x, "", 0, []);
    CompileNothing(GroupCount(x), []);
    assert PrintItems(x) + "" == PrintItems(x);
  }

  /** The same for the alternatives of a supported pattern, by the groups they are written with. */
  lemma PatternStoresInBoundsIff(a: Alts)
    requires Supported(a)
    ensures var alts, xs := CompileAll(ExpandText(PrintAlts(a))), ExpandAlts(a);
            && |alts| == |xs| > 0
            && LastOpened(alts) == GroupCount(xs[|xs| - 1])
            && (StoresInBounds(alts, LastOpened(alts)) <==>
                GroupCount(xs[|xs| - 1]) == 0 || forall k :: 0 <= k < |xs| ==> GroupCount(xs[k]) <= GroupCount(xs[|xs| - 1]))
  {
    hide Compile, Opened, StoresInBounds, GroupCount, SameReading, CleanItems, Flat, ExpandText, ExpandAlts;
    var xs := ExpandAlts(a);
    SomeExpansion(a);
    RightIfSameReading(a);
    ExpansionIsClean(a);
    forall k | 0 <= k < |xs|
      ensures Opened(Compile(PrintItems(xs[k]), 0, [])) == GroupCount(xs[k])
    {
      BranchOpened(xs[k]);
    }
    StoresInBoundsIff(PrintAll(xs));
  }

  lemma {:induction false} SomeExpansion(a: Alts)
    ensures ExpandAlts(a) != []
    decreases a
  {
    SomeItemsExpansion(a.s);
  }

  lemma {:induction false} SomeItemsExpansion(s: Items)
    ensures ExpandItems(s) != []
    decreases s
  {
    match s
    case Nil =>
    case Text(t, rest) => SomeItemsExpansion(rest);
    case Group(body, rest) => SomeExpansion(body); SomeItemsExpansion(rest);
  }

  /** ((u)|v), as in ((a)|b). */
  function Nested(u: string, v: string): Alts {
    One(Group(Bar(Group(One(Text(u, Nil)), Nil), One(Text(v, Nil))), Nil))
  }

  lemma NestedScan(b: string)
    requires |b| == 5 && b[0] == '(' && IsPlain(b[1]) && b[2] == ')' && b[3] == '|' && IsPlain(b[4])
    ensures ScanDepth(b, 1) == 1 && EscapesPaired(b)
  {
    assert ScanDepth("", 1) == 1 && EscapesPaired("");
    assert b[4..][1..] == "" && ScanDepth(b[4..], 1) == 1 && EscapesPaired(b[4..]);
    assert b[3..][1..] == b[4..] && ScanDepth(b[3..], 1) == 1 && EscapesPaired(b[3..]);
    assert b[2..][1..] == b[3..] && ScanDepth(b[2..], 2) == 1 && EscapesPaired(b[2..]);
    assert b[1..][1..] == b[2..] && ScanDepth(b[1..], 2) == 1 && EscapesPaired(b[1..]);
  }

  lemma UnitScan(u: string)
    requires |u| == 1 && IsPlain(u[0])
    ensures ScanDepth(u, 1) == 1 && EscapesPaired(u)
  {
    assert ScanDepth("", 1) == 1 && EscapesPaired("") && u[1..] == "";
  }

  lemma NestedSupported(u: string, v: string)
    requires |u| == |v| == 1 && IsUnitText(u) && IsUnitText(v)
    ensures Supported(Nested(u, v))
  {
    hide SameReading, CleanAlts, GroupCount, ExpandAlts, IsUnitText;
    NestedGood(u, v);
    NestedAligned(u, v);
    SameReadingIfAligned(Nested(u, v));
    NestedExpansions(u, v);
  }

  lemma NestedGood(u: string, v: string)
    requires |u| == |v| == 1 && IsUnitText(u) && IsUnitText(v)
    ensures GoodAlts(Nested(u, v)) && CleanAlts(Nested(u, v))
  {
    hide IsText, IsClean, IsUnitText;
    UnitIsText(u);
    UnitIsText(v);
    PieceIsClean(u);
    PieceIsClean(v);
    var tu, tv := Text(u, Nil), Text(v, Nil);
    assert GoodItems(Nil) && CleanItems(Nil);
    assert GoodAlts(One(tu)) && GoodAlts(One(tv)) && CleanAlts(One(tu)) && CleanAlts(One(tv));
    var inner := Group(One(tu), Nil);
    assert GoodItems(inner) && CleanItems(inner);
    var bar := Bar(inner, One(tv));
    assert GoodAlts(bar) && CleanAlts(bar);
    assert GoodItems(Group(bar, Nil)) && CleanItems(Group(bar, Nil));
  }

  lemma NestedAligned(u: string, v: string)
    requires |u| == |v| == 1 && IsUnitText(u) && IsUnitText(v)
    ensures AlignedAlts(Nested(u, v))
  {
    hide ScanDepth, EscapesPaired, GroupLen;
    UnitIsText(u);
    UnitIsText(v);
    NestedPrinted(u, v);
    UnitScan(u);
    ScanIsRightIff(u, "");
    var tu, tv := Text(u, Nil), Text(v, Nil);
    assert AlignedItems(Nil) && AlignedAlts(One(tu));
    AlignedInGroup(One(tu));
    var inner := Group(One(tu), Nil);
    var b := "(" + u + ")" + "" + "|" + v;
    NestedScan(b);
    ScanIsRightIff(b, "");
    var bar := Bar(inner, One(tv));
    assert AlignedAlts(One(tv)) && AlignedAlts(bar) && PrintAlts(bar) == b;
    AlignedInGroup(bar);
  }

  lemma AlignedInGroup(body: Alts)
    requires AlignedAlts(body) && GroupLen(PrintAlts(body) + (")" + ""), 1) == |PrintAlts(body)| + 1
    ensures AlignedItems(Group(body, Nil))
  {
    hide GroupLen;
    assert PrintItems(Nil) == "" && AlignedItems(Nil);
  }

  lemma UnitIsText(u: string)
    requires |u| == 1 && IsUnitText(u)
    ensures IsPlain(u[0]) && IsText(u)
  {
    assert u[..1] == u && u[1..] == "" && IsAtom(u[..1]) && IsText("");
  }

  /** Its first alternative stores a second capture, and there is room for one. */
  lemma NestedStoresOutside(u: string, v: string)
    requires |u| == |v| == 1 && IsUnitText(u) && IsUnitText(v)
    ensures Supported(Nested(u, v)) && PrintAlts(Nested(u, v)) == "((" + u + ")|" + v + ")"
    ensures var alts := CompileAll(ExpandText(PrintAlts(Nested(u, v)))); LastOpened(alts) == 1 && !StoresInBounds(alts, LastOpened(alts))
  {
    hide IsUnitText, ExpandText, StoresInBounds, LastOpened, CompileAll, Supported, ExpandAlts, PrintAlts;
    var a := Nested(u, v);
    NestedSupported(u, v);
    NestedExpansions(u, v);
    PatternStoresInBoundsIff(a);
    var xs := ExpandAlts(a);
    assert GroupCount(xs[0]) == 2 && GroupCount(xs[|xs| - 1]) == 1;
    NestedPrinted(u, v);
  }

  lemma NestedPrinted(u: string, v: string)
    ensures PrintAlts(One(Text(u, Nil))) == u
    ensures PrintAlts(Bar(Group(One(Text(u, Nil)), Nil), One(Text(v, Nil)))) == "(" + u + ")" + "" + "|" + v
    ensures PrintAlts(Nested(u, v)) == "((" + u + ")|" + v + ")"
  {
    var tu, tv := Text(u, Nil), Text(v, Nil);
    assert PrintItems(Nil) == "";
    assert u + "" == u && v + "" == v;
    assert PrintItems(tu) == u && PrintItems(tv) == v;
    var inner := Group(One(tu), Nil);
    assert PrintItems(inner) == "(" + u + ")" + "";
    var bar := Bar(inner, One(tv));
    assert PrintAlts(bar) == "(" + u + ")" + "" + "|" + v;
    assert PrintItems(Group(bar, Nil)) == "(" + PrintAlts(bar) + ")" + "";
  }

  lemma NestedExpansions(u: string, v: string)
    ensures var x, y := Group(One(Group(One(Text(u, Nil)), Nil)), Nil), Group(One(Text(v, Nil)), Nil);
            ExpandAlts(Nested(u, v)) == [x, y] && Flat(x) && Flat(y) && GroupCount(x) == 2 && GroupCount(y) == 1
  {
    var tu, tv := Text(u, Nil), Text(v, Nil);
    assert ExpandItems(Nil) == [Nil];
    assert ExpandItems(tu) == [tu] && ExpandItems(tv) == [tv];
    AloneInGroup(tu);
    var inner := Group(One(tu), Nil);
    assert ExpandItems(inner) == [inner];
    var bar := Bar(inner, One(tv));
    assert ExpandAlts(bar) == [inner, tv];
    TwoInGroup(inner, tv);
    assert ExpandItems(Group(bar, Nil)) == WithGroups([inner, tv], [Nil]);
    assert GroupCount(Nil) == 0 && GroupCount(tu) == 0 && GroupCount(tv) == 0 && GroupCount(inner) == 1;
  }

  lemma AloneInGroup(g: Items)
    ensures WithGroups([g], [Nil]) == [Group(One(g), Nil)]
  {
    assert [g][1..] == [] && WithGroups([], [Nil]) == [];
    assert WithGroup(g, [Nil]) == [Group(One(g), Nil)];
  }

  lemma TwoInGroup(g: Items, h: Items)
    ensures WithGroups([g, h], [Nil]) == [Group(One(g), Nil), Group(One(h), Nil)]
  {
    AloneInGroup(h);
    assert [g, h][1..] == [h];
    assert WithGroup(g, [Nil]) == [Group(One(g), Nil)];
  }
}
