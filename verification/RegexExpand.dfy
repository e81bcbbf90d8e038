/**
  The character-level rewriting of `expand_alts` as functions of the remaining text, and the pattern
  it takes a text for: for every text the rewriting prints exactly the expansion of that pattern.
 */
module RegexExpand {
  import opened RegexAlternation

  // ---------------------------------------------------------------------------------------
  // The scans

  /** Splits at the bars outside groups and bracket expressions; `acc` is the current segment. */
  function Split(s: string, level: nat, cls: bool, acc: string): (r: seq<string>)
    ensures |r| >= 1
    ensures forall i :: 0 <= i < |r| ==> |r[i]| <= |acc| + |s|
    ensures |r| > 1 ==> forall i :: 0 <= i < |r| ==> |r[i]| < |acc| + |s|
    decreases |s|
  {
    if s == "" then [acc]
    else if s[0] == '\\' && |s| >= 2 then Split(s[2..], level, cls, acc + s[..2])
    else if cls then Split(s[1..], level, s[0] != ']', acc + s[..1])
    else if s[0] == '[' then Split(s[1..], level, true, acc + s[..1])
    else if s[0] == '(' then Split(s[1..], level + 1, cls, acc + s[..1])
    else if s[0] == ')' && level > 0 then Split(s[1..], level - 1, cls, acc + s[..1])
    else if s[0] == '|' && level == 0 then [acc] + Split(s[1..], level, cls, "")
    else Split(s[1..], level, cls, acc + s[..1])
  }

  /** Characters up to and including the end of a bracket expression whose '[' has been read. */
  function ClassLen(s: string): (n: nat)
    ensures n <= |s|
    decreases |s|
  {
    if s == "" then 0
    else if s[0] == '\\' && |s| >= 2 then 2 + ClassLen(s[2..])
    else if s[0] == ']' then 1
    else 1 + ClassLen(s[1..])
  }

  /** Characters up to and including the parenthesis that closes `depth` open groups. */
  function GroupLen(s: string, depth: nat): (n: nat)
    ensures n <= |s|
    ensures depth > 0 && s != "" ==> n > 0
    decreases |s|
  {
    if s == "" || depth == 0 then 0
    else if s[0] == '\\' && |s| >= 2 then 2 + GroupLen(s[2..], depth)
    else if s[0] == '(' then 1 + GroupLen(s[1..], depth + 1)
    else if s[0] == ')' then 1 + GroupLen(s[1..], depth - 1)
    else 1 + GroupLen(s[1..], depth)
  }

  function AppendAll(cur: seq<string>, t: string): (r: seq<string>)
    ensures |r| == |cur| && forall i :: 0 <= i < |cur| ==> r[i] == cur[i] + t
  {
    seq(|cur|, i requires 0 <= i < |cur| => cur[i] + t)
  }

  /** c + x for every x. */
  function PrependAll(c: string, xs: seq<string>): (r: seq<string>)
    ensures |r| == |xs| && forall i :: 0 <= i < |xs| ==> r[i] == c + xs[i]
  {
    seq(|xs|, i requires 0 <= i < |xs| => c + xs[i])
  }

  /** Every prefix with every continuation, the prefix varying slowest. */
  function Cross(cur: seq<string>, xs: seq<string>): seq<string> {
    if cur == [] then [] else PrependAll(cur[0], xs) + Cross(cur[1..], xs)
  }

  function Parenthesise(xs: seq<string>): (r: seq<string>)
    ensures |r| == |xs| && forall i :: 0 <= i < |xs| ==> r[i] == "(" + xs[i] + ")"
  {
    seq(|xs|, i requires 0 <= i < |xs| => "(" + xs[i] + ")")
  }

  /** The characters of the bracket expression in front, and of the group in front. */
  function ClassSpan(s: string): (n: nat)
    requires s != ""
    ensures 0 < n <= |s|
  {
    1 + ClassLen(s[1..])
  }

  function GroupSpan(s: string): (n: nat)
    requires s != ""
    ensures 0 < n <= |s|
  {
    1 + GroupLen(s[1..], 1)
  }

  /** The loop over groups: `cur` holds the patterns built from the text already read. */
  function Process(s: string, cur: seq<string>): seq<string>
    decreases |s|, 1, 0
  {
    if s == "" then cur
    else if s[0] == '\\' && |s| >= 2 then Process(s[2..], AppendAll(cur, s[..2]))
    else if s[0] == '[' then
      var n := ClassSpan(s);
      Process(s[n..], AppendAll(cur, s[..n]))
    else if s[0] == '(' then
      Process(s[GroupSpan(s)..], Cross(cur, GroupChoices(s)))
    else Process(s[1..], AppendAll(cur, s[..1]))
  }

  /** The expansions of the group in front, each in parentheses. */
  function GroupChoices(s: string): seq<string>
    requires s != ""
    decreases |s|, 0, 0
  {
    Parenthesise(ExpandText(GroupText(s, GroupSpan(s))))
  }

  /** The text between the parentheses of a group that takes the first n characters. */
  function GroupText(s: string, n: nat): (t: string)
    requires 0 < n <= |s|
    ensures |t| < |s|
  {
    if n >= 2 then s[1..n - 1] else ""
  }

  function ExpandText(pat: string): seq<string>
    decreases |pat|, 3, 0
  {
    var segs := Split(pat, 0, false, "");
    if |segs| > 1 then ExpandEach(segs, |pat|) else Process(pat, [""])
  }

  function ExpandEach(segs: seq<string>, bound: nat): seq<string>
    requires forall i :: 0 <= i < |segs| ==> |segs[i]| < bound
    decreases bound, 2, |segs|
  {
    if segs == [] then [] else ExpandText(segs[0]) + ExpandEach(segs[1..], bound)
  }

  // ---------------------------------------------------------------------------------------
  // Pieces of text pass through every scan

  lemma {:induction false} SplitClassBody(b: string, v: string, level: nat, acc: string)
    requires IsClassBody(b)
    ensures Split(b + "]" + v, level, true, acc) == Split(v, level, false, acc + b + "]")
    decreases |b|
  {
    var s := b + "]" + v;
    if b == "" {
      assert s[1..] == v && acc + s[..1] == acc + b + "]";
    } else if b[0] == '\\' {
      assert s[2..] == b[2..] + "]" + v;
      assert acc + s[..2] + b[2..] + "]" == acc + b + "]";
      SplitClassBody(b[2..], v, level, acc + s[..2]);
    } else {
      assert s[1..] == b[1..] + "]" + v;
      assert acc + s[..1] + b[1..] + "]" == acc + b + "]";
      SplitClassBody(b[1..], v, level, acc + s[..1]);
    }
  }

  lemma SplitAtom(t: string, v: string, level: nat, acc: string)
    requires IsAtom(t)
    ensures Split(t + v, level, false, acc) == Split(v, level, false, acc + t)
  {
    var s := t + v;
    if |t| == 1 && IsPlain(t[0]) {
      assert s[1..] == v && s[..1] == t;
    } else if |t| == 2 && t[0] == '\\' {
      assert s[2..] == v && s[..2] == t;
    } else {
      var b := t[1..|t| - 1];
      assert s[1..] == b + "]" + v && s[..1] == "[";
      assert acc + "[" + b + "]" == acc + t;
      SplitClassBody(b, v, level, acc + "[");
    }
  }

  lemma {:induction false} SplitText(t: string, v: string, level: nat, acc: string)
    requires IsText(t)
    ensures Split(t + v, level, false, acc) == Split(v, level, false, acc + t)
    decreases |t|
  {
    hide Split, IsAtom;
    if t == "" {
      assert t + v == v && acc + t == acc;
    } else {
      var k :| 0 < k <= |t| && IsAtom(t[..k]) && IsText(t[k..]);
      assert t + v == t[..k] + (t[k..] + v);
      assert acc + t[..k] + t[k..] == acc + t;
      SplitAtom(t[..k], t[k..] + v, level, acc);
      SplitText(t[k..], v, level, acc + t[..k]);
    }
  }

  lemma SplitParens(w: string, level: nat, acc: string)
    ensures Split("(" + w, level, false, acc) == Split(w, level + 1, false, acc + "(")
    ensures Split(")" + w, level + 1, false, acc) == Split(w, level, false, acc + ")")
  {
    assert ("(" + w)[1..] == w && ("(" + w)[..1] == "(";
    assert (")" + w)[1..] == w && (")" + w)[..1] == ")";
  }

  /** A branch never splits, at any level; several branches do not split inside a group. */
  lemma {:induction false} SplitItems(s: Items, v: string, level: nat, acc: string)
    requires GoodItems(s)
    ensures Split(PrintItems(s) + v, level, false, acc) == Split(v, level, false, acc + PrintItems(s))
    decreases s
  {
    hide Split, IsText;
    match s
    case Nil =>
      assert PrintItems(s) + v == v && acc + PrintItems(s) == acc;
    case Text(t, rest) =>
      assert PrintItems(s) + v == t + (PrintItems(rest) + v);
      assert acc + t + PrintItems(rest) == acc + PrintItems(s);
      SplitText(t, PrintItems(rest) + v, level, acc);
      SplitItems(rest, v, level, acc + t);
    case Group(body, rest) =>
      var tail := PrintItems(rest) + v;
      assert PrintItems(s) + v == "(" + (PrintAlts(body) + (")" + tail));
      SplitParens(PrintAlts(body) + (")" + tail), level, acc);
      SplitAlts(body, ")" + tail, level + 1, acc + "(");
      var acc1 := acc + "(" + PrintAlts(body);
      SplitParens(tail, level, acc1);
      SplitItems(rest, v, level, acc1 + ")");
      assert acc1 + ")" + PrintItems(rest) == acc + PrintItems(s);
  }

  lemma {:induction false} SplitAlts(a: Alts, v: string, level: nat, acc: string)
    requires GoodAlts(a) && level > 0
    ensures Split(PrintAlts(a) + v, level, false, acc) == Split(v, level, false, acc + PrintAlts(a))
    decreases a
  {
    hide Split, PrintItems;
    match a
    case One(s) => SplitItems(s, v, level, acc);
    case Bar(s, more) =>
      var after := "|" + (PrintAlts(more) + v);
      assert PrintAlts(a) + v == PrintItems(s) + after;
      SplitItems(s, after, level, acc);
      var acc1 := acc + PrintItems(s);
      SplitInnerBar(PrintAlts(more) + v, level, acc1);
      SplitAlts(more, v, level, acc1 + "|");
      assert acc1 + "|" + PrintAlts(more) == acc + PrintAlts(a);
  }

  lemma SplitInnerBar(w: string, level: nat, acc: string)
    requires level > 0
    ensures Split("|" + w, level, false, acc) == Split(w, level, false, acc + "|")
  {
    assert ("|" + w)[1..] == w && ("|" + w)[..1] == "|";
  }

  function Branches(a: Alts): (r: seq<string>)
    ensures |r| >= 1 && (|r| == 1 <==> a.One?)
  {
    match a
    case One(s) => [PrintItems(s)]
    case Bar(s, more) => [PrintItems(s)] + Branches(more)
  }

  /** At the outermost level the split yields the branches. */
  lemma {:induction false} SplitIntoBranches(a: Alts)
    requires GoodAlts(a)
    ensures Split(PrintAlts(a), 0, false, "") == Branches(a)
    decreases a
  {
    match a
    case One(s) =>
      assert PrintItems(s) + "" == PrintItems(s) && "" + PrintItems(s) == PrintItems(s);
      SplitItems(s, "", 0, "");
    case Bar(s, more) =>
      var after := "|" + PrintAlts(more);
      assert PrintAlts(a) == PrintItems(s) + after && "" + PrintItems(s) == PrintItems(s);
      SplitItems(s, after, 0, "");
      assert after[1..] == PrintAlts(more);
      SplitIntoBranches(more);
  }

  // ---------------------------------------------------------------------------------------
  // Finding the end of a bracket expression and of a group

  lemma {:induction false} ClassEnds(b: string, v: string)
    requires IsClassBody(b)
    ensures ClassLen(b + "]" + v) == |b| + 1
    decreases |b|
  {
    var s := b + "]" + v;
    if b == "" {
    } else if b[0] == '\\' {
      assert s[2..] == b[2..] + "]" + v;
      ClassEnds(b[2..], v);
    } else {
      assert s[1..] == b[1..] + "]" + v;
      ClassEnds(b[1..], v);
    }
  }

  // ---------------------------------------------------------------------------------------
  // Algebra of the lists

  lemma CrossUnit(xs: seq<string>)
    ensures Cross([""], xs) == xs
  {
    assert forall i :: 0 <= i < |xs| ==> "" + xs[i] == xs[i];
    assert PrependAll("", xs) == xs;
    assert Cross([""][1..], xs) == [];
  }

  lemma {:induction false} CrossEmpty(cur: seq<string>)
    ensures Cross(cur, [""]) == cur
  {
    if cur != [] {
      CrossEmpty(cur[1..]);
      assert cur[0] + "" == cur[0];
      assert PrependAll(cur[0], [""]) == [cur[0]];
    }
  }

  lemma {:induction false} CrossAppend(cur: seq<string>, t: string, xs: seq<string>)
    ensures Cross(AppendAll(cur, t), xs) == Cross(cur, PrependAll(t, xs))
  {
    if cur != [] {
      CrossAppend(cur[1..], t, xs);
      assert AppendAll(cur, t)[1..] == AppendAll(cur[1..], t);
      forall i | 0 <= i < |xs|
        ensures PrependAll(cur[0] + t, xs)[i] == PrependAll(cur[0], PrependAll(t, xs))[i]
      {
        assert cur[0] + t + xs[i] == cur[0] + (t + xs[i]);
      }
      assert PrependAll(cur[0] + t, xs) == PrependAll(cur[0], PrependAll(t, xs));
    }
  }

  lemma {:induction false} CrossConcat(a: seq<string>, b: seq<string>, xs: seq<string>)
    ensures Cross(a + b, xs) == Cross(a, xs) + Cross(b, xs)
  {
    if a == [] {
      assert a + b == b;
    } else {
      assert (a + b)[1..] == a[1..] + b;
      CrossConcat(a[1..], b, xs);
      assert Cross(a + b, xs) == PrependAll(a[0], xs) + (Cross(a[1..], xs) + Cross(b, xs));
    }
  }

  lemma {:induction false} PrependCross(c: string, ys: seq<string>, xs: seq<string>)
    ensures Cross(PrependAll(c, ys), xs) == PrependAll(c, Cross(ys, xs))
  {
    if ys == [] {
      assert PrependAll(c, ys) == [];
    } else {
      PrependCross(c, ys[1..], xs);
      assert PrependAll(c, ys)[1..] == PrependAll(c, ys[1..]);
      forall i | 0 <= i < |xs|
        ensures PrependAll(c + ys[0], xs)[i] == PrependAll(c, PrependAll(ys[0], xs))[i]
      {
        assert c + ys[0] + xs[i] == c + (ys[0] + xs[i]);
      }
      assert PrependAll(c + ys[0], xs) == PrependAll(c, PrependAll(ys[0], xs));
      var p, q := PrependAll(ys[0], xs), Cross(ys[1..], xs);
      assert PrependAll(c, p + q) == PrependAll(c, p) + PrependAll(c, q);
    }
  }

  lemma {:induction false} CrossAssociative(cur: seq<string>, ys: seq<string>, xs: seq<string>)
    ensures Cross(Cross(cur, ys), xs) == Cross(cur, Cross(ys, xs))
  {
    if cur != [] {
      CrossAssociative(cur[1..], ys, xs);
      CrossConcat(PrependAll(cur[0], ys), Cross(cur[1..], ys), xs);
      PrependCross(cur[0], ys, xs);
    }
  }

  // ---------------------------------------------------------------------------------------
  // The expansions of a pattern, printed

  function Choices(s: Items): (r: seq<string>)
    ensures |r| > 0
  {
    match s
    case Nil => [""]
    case Text(t, rest) => PrependAll(t, Choices(rest))
    case Group(body, rest) => Combined(Parenthesise(AllChoices(body)), Choices(rest))
  }

  function AllChoices(a: Alts): (r: seq<string>)
    ensures |r| > 0
  {
    match a
    case One(s) => Choices(s)
    case Bar(s, more) => Choices(s) + AllChoices(more)
  }

  /** Cross, with its length. */
  function Combined(cur: seq<string>, xs: seq<string>): (r: seq<string>)
    ensures r == Cross(cur, xs) && |r| == |cur| * |xs|
  {
    CrossLength(cur, xs);
    Cross(cur, xs)
  }

  lemma {:induction false} CrossLength(cur: seq<string>, xs: seq<string>)
    ensures |Cross(cur, xs)| == |cur| * |xs|
  {
    if cur != [] {
      CrossLength(cur[1..], xs);
      assert |cur| * |xs| == |xs| + |cur[1..]| * |xs|;
    }
  }

  function PrintAll(xs: seq<Items>): (r: seq<string>)
    ensures |r| == |xs| && forall i :: 0 <= i < |xs| ==> r[i] == PrintItems(xs[i])
  {
    seq(|xs|, i requires 0 <= i < |xs| => PrintItems(xs[i]))
  }

  /** Printing a choice of group bodies and continuations. */
  lemma {:induction false} PrintWithGroups(gs: seq<Items>, xs: seq<Items>)
    ensures PrintAll(WithGroups(gs, xs)) == Cross(Parenthesise(PrintAll(gs)), PrintAll(xs))
  {
    if gs == [] {
      assert Parenthesise(PrintAll(gs)) == [];
    } else {
      PrintWithGroups(gs[1..], xs);
      var p := Parenthesise(PrintAll(gs));
      assert p[1..] == Parenthesise(PrintAll(gs[1..]));
      forall i | 0 <= i < |xs|
        ensures PrintItems(Group(One(gs[0]), xs[i])) == p[0] + PrintItems(xs[i])
      {
        assert PrintAlts(One(gs[0])) == PrintItems(gs[0]);
      }
      assert PrintAll(WithGroup(gs[0], xs)) == PrependAll(p[0], PrintAll(xs));
      var a, b := WithGroup(gs[0], xs), WithGroups(gs[1..], xs);
      assert PrintAll(a + b) == PrintAll(a) + PrintAll(b);
    }
  }

  lemma PrintAllConcat(xs: seq<Items>, ys: seq<Items>)
    ensures PrintAll(xs + ys) == PrintAll(xs) + PrintAll(ys)
  {
    hide PrintItems;
  }

  /** They are the printed expansions of RegexAlternation. */
  lemma {:induction false} ChoicesAreExpansions(a: Alts)
    ensures AllChoices(a) == PrintAll(ExpandAlts(a))
    decreases a
  {
    match a
    case One(s) => BranchChoices(s);
    case Bar(s, more) =>
      BranchChoices(s);
      ChoicesAreExpansions(more);
      PrintAllConcat(ExpandItems(s), ExpandAlts(more));
  }

  lemma {:induction false} BranchChoices(s: Items)
    ensures Choices(s) == PrintAll(ExpandItems(s))
    decreases s
  {
    match s
    case Nil => assert PrintAll(ExpandItems(s)) == [""];
    case Text(t, rest) => BranchChoices(rest); assert PrintAll(ExpandItems(s)) == PrependAll(t, PrintAll(ExpandItems(rest)));
    case Group(body, rest) =>
      ChoicesAreExpansions(body);
      BranchChoices(rest);
      PrintWithGroups(ExpandAlts(body), ExpandItems(rest));
  }

  // ---------------------------------------------------------------------------------------
  // The pattern the routine takes a text for

  function Append(a: Alts, b: Alts): Alts {
    match a
    case One(s) => Bar(s, b)
    case Bar(s, more) => Bar(s, Append(more, b))
  }

  /** The reading of expand_alts: groups end where the scan for parentheses ends them. */
  function GroupReading(pat: string): Alts
    decreases |pat|, 3, 0
  {
    var segs := Split(pat, 0, false, "");
    if |segs| > 1 then SegmentReading(segs, |pat|) else One(BranchReading(pat))
  }

  function SegmentReading(segs: seq<string>, bound: nat): Alts
    requires segs != [] && forall i :: 0 <= i < |segs| ==> |segs[i]| < bound
    decreases bound, 2, |segs|
  {
    if |segs| == 1 then GroupReading(segs[0]) else Append(GroupReading(segs[0]), SegmentReading(segs[1..], bound))
  }

  function BranchReading(s: string): Items
    decreases |s|, 1, 0
  {
    if s == "" then Nil
    else if s[0] == '\\' && |s| >= 2 then Text(s[..2], BranchReading(s[2..]))
    else if s[0] == '[' then
      var n := ClassSpan(s);
      Text(s[..n], BranchReading(s[n..]))
    else if s[0] == '(' then
      var n := GroupSpan(s);
      Group(GroupReading(GroupText(s, n)), BranchReading(s[n..]))
    else Text(s[..1], BranchReading(s[1..]))
  }

  lemma {:induction false} AppendChoices(a: Alts, b: Alts)
    ensures AllChoices(Append(a, b)) == AllChoices(a) + AllChoices(b)
  {
    if a.Bar? {
      AppendChoices(a.more, b);
      assert Choices(a.s) + (AllChoices(a.more) + AllChoices(b)) == (Choices(a.s) + AllChoices(a.more)) + AllChoices(b);
    }
  }

  /** For every text the routine returns the expansions of its reading. */
  lemma {:induction false} ExpandTextIsReading(pat: string)
    ensures ExpandText(pat) == AllChoices(GroupReading(pat))
    decreases |pat|, 3, 0
  {
    hide Process, Split, BranchReading;
    var segs := Split(pat, 0, false, "");
    if |segs| > 1 {
      ExpandEachIsReading(segs, |pat|);
    } else {
      ProcessIsReading(pat, [""]);
      CrossUnit(Choices(BranchReading(pat)));
    }
  }

  lemma {:induction false} ExpandEachIsReading(segs: seq<string>, bound: nat)
    requires segs != [] && forall i :: 0 <= i < |segs| ==> |segs[i]| < bound
    ensures ExpandEach(segs, bound) == AllChoices(SegmentReading(segs, bound))
    decreases bound, 2, |segs|
  {
    hide ExpandText, GroupReading;
    ExpandTextIsReading(segs[0]);
    if |segs| > 1 {
      ExpandEachIsReading(segs[1..], bound);
      AppendChoices(GroupReading(segs[0]), SegmentReading(segs[1..], bound));
    } else {
      assert ExpandEach(segs[1..], bound) == [];
    }
  }

  lemma {:induction false} ProcessIsReading(s: string, cur: seq<string>)
    ensures Process(s, cur) == Cross(cur, Choices(BranchReading(s)))
    decreases |s|, 1, 0
  {
    hide ExpandText, GroupReading, Cross, ClassLen, GroupLen;
    if s == "" {
      CrossEmpty(cur);
    } else if s[0] == '(' {
      ProcessGroupReading(s, cur);
    } else {
      var n := if s[0] == '\\' && |s| >= 2 then 2 else if s[0] == '[' then ClassSpan(s) else 1;
      ProcessIsReading(s[n..], AppendAll(cur, s[..n]));
      CrossAppend(cur, s[..n], Choices(BranchReading(s[n..])));
    }
  }

  lemma {:induction false} ProcessGroupReading(s: string, cur: seq<string>)
    requires s != "" && s[0] == '('
    ensures Process(s, cur) == Cross(cur, Choices(BranchReading(s)))
    decreases |s|, 0, 1
  {
    hide ExpandText, GroupReading, Cross, ClassLen, GroupLen;
    var n := GroupSpan(s);
    ExpandTextIsReading(GroupText(s, n));
    var gs := GroupChoices(s);
    ProcessIsReading(s[n..], Cross(cur, gs));
    CrossAssociative(cur, gs, Choices(BranchReading(s[n..])));
  }
}
