/**
  When `expand_alts` is right.  Its search for the end of a group counts parentheses and does not
  know bracket expressions, so it may read a pattern differently from its grammar.  Here the two
  readings of a text are compared.
 */
module RegexReading {
  import opened RegexAlternation
  import opened RegexExpand

  // ---------------------------------------------------------------------------------------
  // Readings up to the grouping of text: single characters, and groups only where there is a choice

  function Chars(t: string, x: Items): Items {
    if t == "" then x else Text(t[..1], Chars(t[1..], x))
  }

  function Concat(x: Items, y: Items): Items {
    match x
    case Nil => y
    case Text(t, rest) => Text(t, Concat(rest, y))
    case Group(body, rest) => Group(body, Concat(rest, y))
  }

  /** A group without a choice is its text with the parentheses. */
  function NormGroup(body: Alts, rest: Items): Items {
    match body
    case One(x) => Chars("(", Concat(x, Chars(")", rest)))
    case Bar(_, _) => Group(body, rest)
  }

  function Norm(s: Items): Items {
    match s
    case Nil => Nil
    case Text(t, rest) => Chars(t, Norm(rest))
    case Group(body, rest) => NormGroup(NormAll(body), Norm(rest))
  }

  function NormAll(a: Alts): Alts {
    match a
    case One(s) => One(Norm(s))
    case Bar(s, more) => Bar(Norm(s), NormAll(more))
  }

  lemma {:induction false} CharsChoices(t: string, x: Items)
    ensures Choices(Chars(t, x)) == PrependAll(t, Choices(x))
  {
    PrependParts(t, Choices(x));
    if t != "" {
      CharsChoices(t[1..], x);
    }
  }

  lemma PrependParts(t: string, r: seq<string>)
    ensures t == "" ==> PrependAll(t, r) == r
    ensures t != "" ==> PrependAll(t[..1], PrependAll(t[1..], r)) == PrependAll(t, r)
  {
    if t == "" {
      assert forall i :: 0 <= i < |r| ==> t + r[i] == r[i];
    } else {
      forall i | 0 <= i < |r|
        ensures t[..1] + (t[1..] + r[i]) == t + r[i]
      {
      }
    }
  }

  lemma {:induction false} ConcatChoices(x: Items, y: Items)
    ensures Choices(Concat(x, y)) == Cross(Choices(x), Choices(y))
    decreases x
  {
    hide Cross;
    match x
    case Nil => CrossUnit(Choices(y));
    case Text(t, rest) =>
      ConcatChoices(rest, y);
      PrependCross(t, Choices(rest), Choices(y));
    case Group(body, rest) =>
      ConcatChoices(rest, y);
      CrossAssociative(Parenthesise(AllChoices(body)), Choices(rest), Choices(y));
  }

  lemma ParenthesisedCross(xs: seq<string>, ys: seq<string>)
    ensures Cross(Parenthesise(xs), ys) == PrependAll("(", Cross(xs, PrependAll(")", ys)))
  {
    hide Cross;
    var open := PrependAll("(", xs);
    assert Parenthesise(xs) == AppendAll(open, ")");
    CrossAppend(open, ")", ys);
    PrependCross("(", xs, PrependAll(")", ys));
  }

  lemma NormGroupChoices(body: Alts, rest: Items)
    ensures Choices(NormGroup(body, rest)) == Cross(Parenthesise(AllChoices(body)), Choices(rest))
  {
    hide Cross, Chars;
    if body.One? {
      var close := Chars(")", rest);
      CharsChoices("(", Concat(body.s, close));
      ConcatChoices(body.s, close);
      CharsChoices(")", rest);
      ParenthesisedCross(Choices(body.s), Choices(rest));
    }
  }

  /** The expansions do not change. */
  lemma {:induction false} NormChoices(s: Items)
    ensures Choices(Norm(s)) == Choices(s)
    decreases s
  {
    hide Cross;
    match s
    case Nil =>
    case Text(t, rest) =>
      NormChoices(rest);
      CharsChoices(t, Norm(rest));
    case Group(body, rest) =>
      NormChoices(rest);
      NormAllChoices(body);
      NormGroupChoices(NormAll(body), Norm(rest));
  }

  lemma {:induction false} NormAllChoices(a: Alts)
    ensures AllChoices(NormAll(a)) == AllChoices(a)
    decreases a
  {
    match a
    case One(s) => NormChoices(s);
    case Bar(s, more) => NormChoices(s); NormAllChoices(more);
  }

  // ---------------------------------------------------------------------------------------
  // Same reading, right expansion

  /** The routine reads the text of the pattern as the pattern. */
  predicate SameReading(a: Alts) {
    NormAll(GroupReading(PrintAlts(a))) == NormAll(a)
  }

  /** What expand_alts is for: the printed expansions, in order. */
  ghost predicate ExpandsRight(a: Alts) {
    ExpandText(PrintAlts(a)) == PrintAll(ExpandAlts(a))
  }

  lemma RightIfSameReading(a: Alts)
    requires SameReading(a)
    ensures ExpandsRight(a)
  {
    hide GroupReading, ExpandText, NormAll, AllChoices;
    var b := GroupReading(PrintAlts(a));
    ExpandTextIsReading(PrintAlts(a));
    NormAllChoices(a);
    NormAllChoices(b);
    ChoicesAreExpansions(a);
  }

  /** Without a choice the normal form is the text. */
  lemma {:induction false} OneChoice(s: Items)
    requires |Choices(s)| == 1
    ensures Norm(s) == Chars(Choices(s)[0], Nil)
    decreases s
  {
    match s
    case Nil =>
    case Text(t, rest) =>
      OneChoice(rest);
      CharsTwice(t, Choices(rest)[0], Nil);
    case Group(body, rest) =>
      OneProduct(|AllChoices(body)|, |Choices(rest)|);
      assert body.One?;
      OneChoice(body.s);
      OneChoice(rest);
      OneChoiceGroup(body.s, rest);
  }

  lemma OneChoiceGroup(x: Items, rest: Items)
    requires |Choices(x)| == 1 && |Choices(rest)| == 1
    requires Norm(x) == Chars(Choices(x)[0], Nil) && Norm(rest) == Chars(Choices(rest)[0], Nil)
    ensures var s := Group(One(x), rest); |Choices(s)| == 1 && Norm(s) == Chars(Choices(s)[0], Nil)
  {
    hide Choices, Chars;
    var s, t, u := Group(One(x), rest), Choices(x)[0], Choices(rest)[0];
    NormOfGroup(x, rest);
    ConcatChars(t, Chars(")", Chars(u, Nil)));
    CharsTwice(")", u, Nil);
    CharsTwice(t, ")" + u, Nil);
    CharsTwice("(", t + (")" + u), Nil);
    SingleGroup(x, rest, t, u);
    assert "(" + (t + (")" + u)) == "(" + t + ")" + u;
  }

  lemma NormOfGroup(x: Items, rest: Items)
    ensures Norm(Group(One(x), rest)) == Chars("(", Concat(Norm(x), Chars(")", Norm(rest))))
  {
  }

  lemma SingleGroup(x: Items, rest: Items, t: string, u: string)
    requires Choices(x) == [t] && Choices(rest) == [u]
    ensures Choices(Group(One(x), rest)) == ["(" + t + ")" + u]
  {
    var xs := AllChoices(One(x));
    assert xs == [t];
    assert Parenthesise(xs) == ["(" + t + ")"];
    assert Cross(Parenthesise(xs)[1..], [u]) == [];
  }

  lemma OneProduct(m: nat, n: nat)
    requires m * n == 1
    ensures m == 1 && n == 1
  {
    NoSmaller(m, n);
    NoSmaller(n, m);
  }

  lemma NoSmaller(m: nat, n: nat)
    ensures n == 0 ==> m * n == 0
    ensures n >= 1 ==> m * n >= m
  {
  }

  lemma {:induction false} CharsTwice(t: string, u: string, x: Items)
    ensures Chars(t, Chars(u, x)) == Chars(t + u, x)
  {
    if t == "" {
      assert t + u == u;
    } else {
      CharsTwice(t[1..], u, x);
      assert (t + u)[..1] == t[..1] && (t + u)[1..] == t[1..] + u;
    }
  }

  lemma {:induction false} ConcatChars(t: string, y: Items)
    ensures Concat(Chars(t, Nil), y) == Chars(t, y)
  {
    if t != "" {
      ConcatChars(t[1..], y);
    }
  }

  lemma OneChoiceOfAll(a: Alts)
    requires |AllChoices(a)| == 1
    ensures NormAll(a) == One(Chars(AllChoices(a)[0], Nil))
  {
    assert a.One?;
    OneChoice(a.s);
  }

  /**
    If the pattern, or the routine's reading of it, offers one string only (no bar is an alternation
    there), the expansion is right exactly if the readings are the same.
   */
  lemma RightIffSameReading(a: Alts)
    requires |AllChoices(a)| == 1 || |AllChoices(GroupReading(PrintAlts(a)))| == 1
    ensures ExpandsRight(a) <==> SameReading(a)
  {
    hide GroupReading, ExpandText, NormAll, AllChoices;
    if SameReading(a) {
      RightIfSameReading(a);
    } else if ExpandsRight(a) {
      var b := GroupReading(PrintAlts(a));
      ExpandTextIsReading(PrintAlts(a));
      ChoicesAreExpansions(a);
      OneChoiceOfAll(a);
      OneChoiceOfAll(b);
      assert false;
    }
  }

  /** The routine is wrong wherever it sees a different number of alternatives. */
  lemma WrongIfCountsDiffer(a: Alts)
    requires |AllChoices(a)| != |AllChoices(GroupReading(PrintAlts(a)))|
    ensures !ExpandsRight(a)
  {
    hide GroupReading, ExpandText, AllChoices;
    ExpandTextIsReading(PrintAlts(a));
    ChoicesAreExpansions(a);
  }

  // ---------------------------------------------------------------------------------------
  // Groups whose end is found

  /** At every group the scan for parentheses ends at the group's own closing parenthesis. */
  predicate AlignedItems(s: Items) {
    match s
    case Nil => true
    case Text(_, rest) => AlignedItems(rest)
    case Group(body, rest) =>
      && GroupLen(PrintAlts(body) + (")" + PrintItems(rest)), 1) == |PrintAlts(body)| + 1
      && AlignedAlts(body) && AlignedItems(rest)
  }

  predicate AlignedAlts(a: Alts) {
    match a
    case One(s) => AlignedItems(s)
    case Bar(s, more) => AlignedItems(s) && AlignedAlts(more)
  }

  lemma AtomRead(t: string, v: string)
    requires IsAtom(t)
    ensures BranchReading(t + v) == Text(t, BranchReading(v))
  {
    hide BranchReading, IsClassBody;
    var s := t + v;
    PieceRead(s);
    assert s[..|t|] == t && s[|t|..] == v;
    if IsClass(t) {
      var b := t[1..|t| - 1];
      assert s[1..] == b + "]" + v;
      ClassEnds(b, v);
    }
  }

  /** The piece of text in front: an escape, a bracket expression or one character. */
  function PieceSpan(s: string): (n: nat)
    requires s != ""
    ensures 0 < n <= |s|
  {
    if s[0] == '\\' && |s| >= 2 then 2 else if s[0] == '[' then ClassSpan(s) else 1
  }

  lemma PieceRead(s: string)
    requires s != "" && s[0] != '('
    ensures BranchReading(s) == Text(s[..PieceSpan(s)], BranchReading(s[PieceSpan(s)..]))
  {
    hide GroupReading, ClassLen, GroupLen;
  }

  lemma {:induction false} TextRead(t: string, v: string)
    requires IsText(t)
    ensures Norm(BranchReading(t + v)) == Chars(t, Norm(BranchReading(v)))
    decreases |t|
  {
    hide BranchReading, IsAtom;
    if t == "" {
      assert t + v == v;
    } else {
      var k :| 0 < k <= |t| && IsAtom(t[..k]) && IsText(t[k..]);
      assert t + v == t[..k] + (t[k..] + v);
      AtomRead(t[..k], t[k..] + v);
      TextRead(t[k..], v);
      CharsTwice(t[..k], t[k..], Norm(BranchReading(v)));
      assert t[..k] + t[k..] == t;
    }
  }

  lemma GroupRead(b: string, v: string)
    requires GroupLen(b + (")" + v), 1) == |b| + 1
    ensures BranchReading("(" + (b + (")" + v))) == Group(GroupReading(b), BranchReading(v))
  {
    hide GroupLen, GroupReading;
    var s := "(" + (b + (")" + v));
    assert s[1..] == b + (")" + v);
    assert GroupSpan(s) == |b| + 2;
    assert GroupText(s, |b| + 2) == b && s[|b| + 2..] == v;
  }

  lemma {:induction false} ItemsRead(s: Items)
    requires GoodItems(s) && AlignedItems(s)
    ensures Norm(BranchReading(PrintItems(s))) == Norm(s)
    decreases s, 0
  {
    hide BranchReading, GroupReading, IsText;
    match s
    case Nil => NothingRead();
    case Text(t, rest) =>
      TextRead(t, PrintItems(rest));
      ItemsRead(rest);
    case Group(body, rest) =>
      assert PrintItems(s) == "(" + (PrintAlts(body) + (")" + PrintItems(rest)));
      GroupRead(PrintAlts(body), PrintItems(rest));
      ItemsRead(rest);
      SameReadingIfAligned(body);
  }

  lemma NothingRead()
    ensures BranchReading("") == Nil
  {
  }

  /** Then the two readings are the same. */
  lemma {:induction false} SameReadingIfAligned(a: Alts)
    requires GoodAlts(a) && AlignedAlts(a)
    ensures SameReading(a)
    decreases a, 1
  {
    hide Split, BranchReading, PrintItems;
    SplitIntoBranches(a);
    match a
    case One(s) =>
      ItemsRead(s);
      assert GroupReading(PrintAlts(a)) == One(BranchReading(PrintItems(s)));
    case Bar(s, more) =>
      BranchesRead(a, |PrintAlts(a)|);
  }

  lemma {:induction false} BranchesRead(a: Alts, bound: nat)
    requires GoodAlts(a) && AlignedAlts(a)
    requires forall i :: 0 <= i < |Branches(a)| ==> |Branches(a)[i]| < bound
    ensures NormAll(SegmentReading(Branches(a), bound)) == NormAll(a)
    decreases a, 0
  {
    hide Split, BranchReading, PrintItems, AlignedItems;
    var b := Branches(a);
    OneBranchRead(a.s);
    ItemsRead(a.s);
    if a.Bar? {
      assert b[1..] == Branches(a.more);
      assert forall i :: 0 <= i < |Branches(a.more)| ==> Branches(a.more)[i] == b[i + 1];
      BranchesRead(a.more, bound);
    }
  }

  lemma OneBranchRead(s: Items)
    requires GoodItems(s)
    ensures GroupReading(PrintItems(s)) == One(BranchReading(PrintItems(s)))
  {
    hide Split, BranchReading;
    SplitIntoBranches(One(s));
  }

  // ---------------------------------------------------------------------------------------
  // When a single scan is right

  /** The depth of the scan behind s when it starts at `depth`; -1 if it has ended before. */
  function ScanDepth(s: string, depth: nat): (d: int)
    ensures d >= -1
    decreases |s|
  {
    if s == "" then depth
    else if depth == 0 then -1
    else if s[0] == '\\' && |s| >= 2 then ScanDepth(s[2..], depth)
    else if s[0] == '(' then ScanDepth(s[1..], depth + 1)
    else if s[0] == ')' then ScanDepth(s[1..], depth - 1)
    else ScanDepth(s[1..], depth)
  }

  /** Every backslash has its character. */
  predicate EscapesPaired(s: string) {
    s == "" || (if s[0] == '\\' then |s| >= 2 && EscapesPaired(s[2..]) else EscapesPaired(s[1..]))
  }

  lemma {:induction false} ScanThrough(b: string, v: string, depth: nat)
    requires EscapesPaired(b) && depth > 0
    ensures ScanDepth(b, depth) > 0 ==> GroupLen(b + v, depth) == |b| + GroupLen(v, ScanDepth(b, depth))
    ensures ScanDepth(b, depth) <= 0 ==> GroupLen(b + v, depth) <= |b|
    decreases |b|
  {
    var s := b + v;
    if b == "" {
      assert s == v;
    } else if b[0] == '\\' {
      assert s[2..] == b[2..] + v;
      ScanThrough(b[2..], v, depth);
    } else {
      assert s[1..] == b[1..] + v;
      var d := if b[0] == '(' then depth + 1 else if b[0] == ')' then depth - 1 else depth;
      if d > 0 {
        ScanThrough(b[1..], v, d);
      }
    }
  }

  /**
    The scan of a group ends at its own closing parenthesis exactly if it is at depth 1 there, or
    deeper and nothing follows the group.  It is at depth 1 if the bracket expressions of the group
    hold no parentheses, or they cancel and never close the group.
   */
  lemma ScanIsRightIff(b: string, v: string)
    requires EscapesPaired(b)
    ensures GroupLen(b + (")" + v), 1) == |b| + 1 <==> ScanDepth(b, 1) == 1 || (ScanDepth(b, 1) > 1 && v == "")
  {
    hide GroupLen;
    var w := ")" + v;
    ScanThrough(b, w, 1);
    var d := ScanDepth(b, 1);
    if d > 0 {
      CloseStep(v, d);
    }
  }

  lemma CloseStep(v: string, d: nat)
    requires d > 0
    ensures GroupLen(")" + v, d) == 1 + GroupLen(v, d - 1)
    ensures GroupLen(v, 0) == 0 && (v != "" && d > 1 ==> GroupLen(v, d - 1) > 0) && GroupLen("", d) == 0
  {
    assert (")" + v)[1..] == v;
  }

  // ---------------------------------------------------------------------------------------
  // Text that is lost

  /** Every group the routine visits ends in a parenthesis, which it drops and puts back. */
  predicate KeepsText(pat: string)
    decreases |pat|, 3, 0
  {
    var segs := Split(pat, 0, false, "");
    if |segs| > 1 then SegmentsKeep(segs, |pat|) else BranchKeeps(pat)
  }

  predicate SegmentsKeep(segs: seq<string>, bound: nat)
    requires forall i :: 0 <= i < |segs| ==> |segs[i]| < bound
    decreases bound, 2, |segs|
  {
    segs == [] || (KeepsText(segs[0]) && SegmentsKeep(segs[1..], bound))
  }

  predicate BranchKeeps(s: string)
    decreases |s|, 1, 0
  {
    if s == "" then true
    else if s[0] == '\\' && |s| >= 2 then BranchKeeps(s[2..])
    else if s[0] == '[' then BranchKeeps(s[ClassSpan(s)..])
    else if s[0] == '(' then
      var n := GroupSpan(s);
      n >= 2 && s[n - 1] == ')' && KeepsText(GroupText(s, n)) && BranchKeeps(s[n..])
    else BranchKeeps(s[1..])
  }

  function Joined(segs: seq<string>): string
    requires segs != []
  {
    if |segs| == 1 then segs[0] else segs[0] + "|" + Joined(segs[1..])
  }

  /** How the scan goes on behind one character that does not split. */
  function NextLevel(c: char, level: nat, cls: bool): nat {
    if cls then level else if c == '(' then level + 1 else if c == ')' && level > 0 then level - 1 else level
  }

  function NextClass(c: char, cls: bool): bool {
    if cls then c != ']' else c == '['
  }

  lemma SplitFirst(s: string, level: nat, cls: bool, acc: string)
    requires s != ""
    ensures Split(s, level, cls, acc) ==
            if s[0] == '\\' && |s| >= 2 then Split(s[2..], level, cls, acc + s[..2])
            else if s[0] == '|' && level == 0 && !cls then [acc] + Split(s[1..], level, cls, "")
            else Split(s[1..], NextLevel(s[0], level, cls), NextClass(s[0], cls), acc + s[..1])
  {
  }

  lemma SplitNothing(level: nat, cls: bool, acc: string)
    ensures Split("", level, cls, acc) == [acc]
  {
  }

  lemma {:induction false} SplitJoined(s: string, level: nat, cls: bool, acc: string)
    ensures Joined(Split(s, level, cls, acc)) == acc + s
    decreases |s|
  {
    hide Split, NextLevel, NextClass;
    if s == "" {
      SplitNothing(level, cls, acc);
      assert acc + s == acc;
    } else {
      SplitFirst(s, level, cls, acc);
      if s[0] == '\\' && |s| >= 2 {
        SplitJoined(s[2..], level, cls, acc + s[..2]);
        assert acc + s[..2] + s[2..] == acc + s;
      } else if s[0] == '|' && level == 0 && !cls {
        SplitJoined(s[1..], level, cls, "");
        var r := Split(s[1..], level, cls, "");
        assert ([acc] + r)[1..] == r;
        assert acc + "|" + ("" + s[1..]) == acc + s;
      } else {
        SplitJoined(s[1..], NextLevel(s[0], level, cls), NextClass(s[0], cls), acc + s[..1]);
        assert acc + s[..1] + s[1..] == acc + s;
      }
    }
  }

  lemma {:induction false} AppendPrint(a: Alts, b: Alts)
    ensures PrintAlts(Append(a, b)) == PrintAlts(a) + "|" + PrintAlts(b)
  {
    if a.Bar? {
      AppendPrint(a.more, b);
      assert PrintItems(a.s) + "|" + (PrintAlts(a.more) + "|" + PrintAlts(b)) == PrintItems(a.s) + "|" + PrintAlts(a.more) + "|" + PrintAlts(b);
    }
  }

  /** Equal wholes made of parts that are no shorter have equal parts. */
  lemma PartsEqual(x: string, m: string, y: string, x': string, y': string)
    requires |x| >= |x'| && |y| >= |y'|
    ensures x + m + y == x' + m + y' <==> x == x' && y == y'
    ensures |x + m + y| >= |x' + m + y'|
  {
    if x + m + y == x' + m + y' {
      assert |x| == |x'|;
      assert x == (x + m + y)[..|x|] && x' == (x' + m + y')[..|x|];
      assert y == (x + m + y)[|x + m|..] && y' == (x' + m + y')[|x + m|..];
    }
  }

  /** The reading prints back as the text exactly if no text is lost; it is never shorter. */
  lemma {:induction false} PrintedBackIff(pat: string)
    ensures PrintAlts(GroupReading(pat)) == pat <==> KeepsText(pat)
    ensures |PrintAlts(GroupReading(pat))| >= |pat|
    decreases |pat|, 3, 0
  {
    hide Split, BranchReading, BranchKeeps;
    var segs := Split(pat, 0, false, "");
    if |segs| > 1 {
      SplitJoined(pat, 0, false, "");
      assert "" + pat == pat;
      SegmentsPrintedBack(segs, |pat|);
    } else {
      BranchPrintedBack(pat);
    }
  }

  lemma {:induction false} SegmentsPrintedBack(segs: seq<string>, bound: nat)
    requires segs != [] && forall i :: 0 <= i < |segs| ==> |segs[i]| < bound
    ensures PrintAlts(SegmentReading(segs, bound)) == Joined(segs) <==> SegmentsKeep(segs, bound)
    ensures |PrintAlts(SegmentReading(segs, bound))| >= |Joined(segs)|
    decreases bound, 2, |segs|
  {
    hide GroupReading, KeepsText, PrintAlts;
    PrintedBackIff(segs[0]);
    if |segs| > 1 {
      var a, b := GroupReading(segs[0]), SegmentReading(segs[1..], bound);
      SegmentsPrintedBack(segs[1..], bound);
      AppendPrint(a, b);
      PartsEqual(PrintAlts(a), "|", PrintAlts(b), segs[0], Joined(segs[1..]));
    } else {
      assert SegmentsKeep(segs[1..], bound);
    }
  }

  lemma {:induction false} BranchPrintedBack(s: string)
    ensures PrintItems(BranchReading(s)) == s <==> BranchKeeps(s)
    ensures |PrintItems(BranchReading(s))| >= |s|
    decreases |s|, 1, 0
  {
    hide GroupReading, KeepsText, ClassLen, GroupLen;
    if s == "" {
    } else if s[0] == '(' {
      GroupPrintedBack(s);
    } else {
      var n := PieceSpan(s);
      BranchPrintedBack(s[n..]);
      PartsEqual(s[..n], "", PrintItems(BranchReading(s[n..])), s[..n], s[n..]);
      assert s == s[..n] + "" + s[n..];
      assert PrintItems(BranchReading(s)) == s[..n] + "" + PrintItems(BranchReading(s[n..]));
    }
  }

  lemma {:induction false} GroupPrintedBack(s: string)
    requires s != "" && s[0] == '('
    ensures PrintItems(BranchReading(s)) == s <==> BranchKeeps(s)
    ensures |PrintItems(BranchReading(s))| >= |s|
    decreases |s|, 0, 1
  {
    hide GroupReading, KeepsText, ClassLen, GroupLen;
    var n := GroupSpan(s);
    var b, g := GroupText(s, n), PrintAlts(GroupReading(GroupText(s, n)));
    PrintedBackIff(b);
    BranchPrintedBack(s[n..]);
    var rest := PrintItems(BranchReading(s[n..]));
    assert PrintItems(BranchReading(s)) == ("(" + g + ")") + "" + rest;
    assert s == s[..n] + "" + s[n..];
    PartsEqual("(" + g + ")", "", rest, s[..n], s[n..]);
    GroupParts(s, n, g);
  }

  lemma GroupParts(s: string, n: nat, g: string)
    requires 0 < n <= |s| && s[0] == '(' && |g| >= |GroupText(s, n)|
    ensures "(" + g + ")" == s[..n] <==> n >= 2 && s[n - 1] == ')' && g == GroupText(s, n)
    ensures |"(" + g + ")"| >= n
  {
    var p := "(" + g + ")";
    if p == s[..n] {
      assert p[|p| - 1] == ')' && s[..n][n - 1] == s[n - 1];
      assert g == p[1..|p| - 1] && GroupText(s, n) == s[..n][1..n - 1];
    }
    if n >= 2 {
      assert s[..n] == [s[0]] + s[1..n - 1] + [s[n - 1]];
    }
  }

  lemma {:induction false} NoBarNoChoice(pat: string)
    requires '|' !in pat
    ensures GroupReading(pat).One? && |Choices(GroupReading(pat).s)| == 1
    ensures Choices(GroupReading(pat).s) == [PrintAlts(GroupReading(pat))]
    decreases |pat|, 3, 0
  {
    hide BranchReading;
    NoBarOneSegment(pat, 0, false, "");
    NoBarBranch(pat);
  }

  lemma {:induction false} NoBarOneSegment(s: string, level: nat, cls: bool, acc: string)
    requires '|' !in s
    ensures |Split(s, level, cls, acc)| == 1
    decreases |s|
  {
    hide Split, NextLevel, NextClass;
    if s == "" {
      SplitNothing(level, cls, acc);
    } else {
      SplitFirst(s, level, cls, acc);
      if s[0] == '\\' && |s| >= 2 {
        NoBarOneSegment(s[2..], level, cls, acc + s[..2]);
      } else {
        NoBarOneSegment(s[1..], NextLevel(s[0], level, cls), NextClass(s[0], cls), acc + s[..1]);
      }
    }
  }

  lemma {:induction false} NoBarBranch(s: string)
    requires '|' !in s
    ensures Choices(BranchReading(s)) == [PrintItems(BranchReading(s))]
    decreases |s|, 1, 0
  {
    hide GroupReading, ClassLen, GroupLen;
    if s == "" {
    } else if s[0] == '(' {
      var n := GroupSpan(s);
      NoBarNoChoice(GroupText(s, n));
      NoBarBranch(s[n..]);
      var g := GroupReading(GroupText(s, n));
      assert Parenthesise(AllChoices(g)) == ["(" + PrintAlts(g) + ")"];
      assert Cross(Parenthesise(AllChoices(g))[1..], Choices(BranchReading(s[n..]))) == [];
    } else {
      var n := PieceSpan(s);
      NoBarBranch(s[n..]);
    }
  }

  /**
    Every text without a bar, well-formed or not, comes back as it is exactly if no text is lost; and
    text is lost exactly if some visited group does not end in a parenthesis.
   */
  lemma BarFreeUnchangedIff(pat: string)
    requires '|' !in pat
    ensures ExpandText(pat) == [pat] <==> KeepsText(pat)
  {
    hide GroupReading, KeepsText, ExpandText;
    ExpandTextIsReading(pat);
    NoBarNoChoice(pat);
    PrintedBackIff(pat);
  }

  /** In the last group the routine visits in a branch, the scan runs to the end and drops a character. */
  predicate EndsOpen(s: string)
    decreases |s|
  {
    s != "" &&
    if s[0] == '(' then
      var n := GroupSpan(s);
      if n == |s| then s[n - 1] != ')' else EndsOpen(s[n..])
    else EndsOpen(s[PieceSpan(s)..])
  }

  ghost predicate AllEndWith(xs: seq<string>, c: char) {
    forall i :: 0 <= i < |xs| ==> xs[i] != "" && xs[i][|xs[i]| - 1] == c
  }

  lemma {:induction false} CrossEnds(xs: seq<string>, ys: seq<string>, c: char)
    requires AllEndWith(ys, c)
    ensures AllEndWith(Cross(xs, ys), c)
  {
    if xs != [] {
      CrossEnds(xs[1..], ys, c);
    }
  }

  /** Then every pattern returned for the branch ends in a parenthesis. */
  lemma {:induction false} OpenEnds(s: string)
    requires EndsOpen(s)
    ensures AllEndWith(Choices(BranchReading(s)), ')')
    decreases |s|
  {
    hide GroupReading, BranchReading, ClassLen, GroupLen, Cross;
    if s[0] == '(' {
      var n := GroupSpan(s);
      GroupStep(s);
      var gs := Parenthesise(AllChoices(GroupReading(GroupText(s, n))));
      if n == |s| {
        NothingRead();
        CrossEmpty(gs);
      } else {
        OpenEnds(s[n..]);
        CrossEnds(gs, Choices(BranchReading(s[n..])), ')');
      }
    } else {
      PieceRead(s);
      OpenEnds(s[PieceSpan(s)..]);
    }
  }

  lemma GroupStep(s: string)
    requires s != "" && s[0] == '('
    ensures var n := GroupSpan(s); BranchReading(s) == Group(GroupReading(GroupText(s, n)), BranchReading(s[n..]))
  {
  }

  /** Every expansion of a branch that does not end in a group ends as the branch does. */
  lemma {:induction false} LastCharKept(x: Items, c: char)
    requires PrintItems(x) != "" && PrintItems(x)[|PrintItems(x)| - 1] == c != ')'
    ensures AllEndWith(Choices(x), c)
    decreases x
  {
    hide Cross;
    match x
    case Text(t, rest) =>
      if PrintItems(rest) != "" {
        LastCharKept(rest, c);
      } else {
        EmptyPrint(rest);
      }
    case Group(body, rest) =>
      LastCharKept(rest, c);
      CrossEnds(Parenthesise(AllChoices(body)), Choices(rest), c);
  }

  lemma {:induction false} EmptyPrint(x: Items)
    requires PrintItems(x) == ""
    ensures Choices(x) == [""]
  {
    if x.Text? {
      EmptyPrint(x.rest);
    }
  }

  function LastBranch(a: Alts): Items {
    match a
    case One(s) => s
    case Bar(_, more) => LastBranch(more)
  }

  lemma {:induction false} LastChoice(a: Alts)
    ensures var xs, ys := AllChoices(a), Choices(LastBranch(a)); xs[|xs| - 1] == ys[|ys| - 1]
  {
    if a.Bar? {
      LastChoice(a.more);
    }
  }

  lemma {:induction false} LastOfReading(a: Alts, bound: nat)
    requires GoodAlts(a) && forall i :: 0 <= i < |Branches(a)| ==> |Branches(a)[i]| < bound
    ensures LastBranch(SegmentReading(Branches(a), bound)) == BranchReading(PrintItems(LastBranch(a)))
    decreases a
  {
    hide BranchReading, PrintItems, Split;
    var b := Branches(a);
    OneBranchRead(a.s);
    if a.Bar? {
      assert b[1..] == Branches(a.more);
      assert forall i :: 0 <= i < |Branches(a.more)| ==> Branches(a.more)[i] == b[i + 1];
      LastOfReading(a.more, bound);
    }
  }

  /** A pattern whose last branch ends open is expanded wrongly: its last character is lost. */
  lemma LostTextIsWrong(a: Alts)
    requires GoodAlts(a) && EndsOpen(PrintItems(LastBranch(a)))
    ensures !ExpandsRight(a)
  {
    hide BranchReading, PrintItems, PrintAlts, GroupReading, EndsOpen, AllChoices, Choices, ExpandText, LastBranch, GoodAlts;
    hide AllEndWith, LastCharIs;
    var x := LastBranch(a);
    var s := PrintItems(x);
    OpenLast(s);
    OpenEnds(s);
    LastCharKept(x, s[|s| - 1]);
    LastBranchRead(a);
    var b := GroupReading(PrintAlts(a));
    LastEnds(a, s[|s| - 1]);
    LastEnds(b, ')');
    ExpandTextIsReading(PrintAlts(a));
    ChoicesAreExpansions(a);
  }

  /** How the last expansion ends. */
  lemma LastEnds(a: Alts, c: char)
    requires AllEndWith(Choices(LastBranch(a)), c)
    ensures LastCharIs(AllChoices(a), c) && forall d :: LastCharIs(AllChoices(a), d) ==> d == c
  {
    hide Choices, AllChoices, LastBranch;
    LastChoice(a);
  }

  ghost predicate LastCharIs(xs: seq<string>, c: char) {
    xs != [] && var x := xs[|xs| - 1]; x != "" && x[|x| - 1] == c
  }

  lemma LastBranchRead(a: Alts)
    requires GoodAlts(a)
    ensures LastBranch(GroupReading(PrintAlts(a))) == BranchReading(PrintItems(LastBranch(a)))
  {
    hide BranchReading, PrintItems, Split;
    SplitIntoBranches(a);
    if a.Bar? {
      LastOfReading(a, |PrintAlts(a)|);
    }
  }

  lemma {:induction false} OpenLast(s: string)
    requires EndsOpen(s)
    ensures s != "" && s[|s| - 1] != ')'
    decreases |s|
  {
    hide ClassLen, GroupLen;
    var n := if s[0] == '(' then GroupSpan(s) else PieceSpan(s);
    if n < |s| {
      OpenLast(s[n..]);
      assert s[n..][|s| - n - 1] == s[|s| - 1];
    }
  }

  lemma NoBarReading(s: string)
    requires '|' !in s
    ensures GroupReading(s) == One(BranchReading(s)) && (KeepsText(s) <==> BranchKeeps(s))
  {
    hide BranchReading, BranchKeeps;
    NoBarOneSegment(s, 0, false, "");
  }

  // ---------------------------------------------------------------------------------------
  // An end that is found too early

  /** The start of a text splits no more often than the text. */
  lemma {:induction false} PrefixSplitsLess(s: string, k: nat, level: nat, cls: bool, acc: string)
    requires k <= |s|
    ensures |Split(s[..k], level, cls, acc)| <= |Split(s, level, cls, acc)|
    decreases k
  {
    hide Split, NextLevel, NextClass;
    if k == 0 {
      SplitNothing(level, cls, acc);
    } else {
      var t := s[..k];
      SplitFirst(s, level, cls, acc);
      SplitFirst(t, level, cls, acc);
      if s[0] == '\\' && |s| >= 2 {
        if k == 1 {
          assert t[1..] == "";
          SplitNothing(NextLevel(t[0], level, cls), NextClass(t[0], cls), acc + t[..1]);
        } else {
          assert t[2..] == s[2..][..k - 2] && t[..2] == s[..2];
          PrefixSplitsLess(s[2..], k - 2, level, cls, acc + s[..2]);
        }
      } else {
        assert t[1..] == s[1..][..k - 1] && t[..1] == s[..1];
        PrefixSplitsLess(s[1..], k - 1, level, cls, "");
        PrefixSplitsLess(s[1..], k - 1, NextLevel(s[0], level, cls), NextClass(s[0], cls), acc + s[..1]);
      }
    }
  }

  lemma {:induction false} NoGroupOneChoice(s: string)
    requires '(' !in s
    ensures |Choices(BranchReading(s))| == 1
    decreases |s|
  {
    hide BranchReading;
    if s == "" {
      NothingRead();
    } else {
      PieceRead(s);
      NoGroupOneChoice(s[PieceSpan(s)..]);
    }
  }

  /**
    A group with a bar of its own whose scan has ended in the first branch, and no other opening
    parenthesis: the bar is taken for text.
   */
  lemma EarlyEndIsWrong(x: Items, more: Alts, rest: Items)
    requires GoodAlts(One(Group(Bar(x, more), rest))) && '(' !in PrintAlts(Bar(x, more)) && '(' !in PrintItems(rest)
    requires EscapesPaired(PrintItems(x)) && ScanDepth(PrintItems(x), 1) <= 0
    ensures !ExpandsRight(One(Group(Bar(x, more), rest)))
  {
    hide BranchReading, Split, ScanDepth, EscapesPaired, GroupLen;
    var a, b := One(Group(Bar(x, more), rest)), PrintItems(x);
    var s := PrintAlts(a);
    var after := "|" + PrintAlts(more) + ")" + PrintItems(rest);
    GroupPrinted(x, more, rest);
    assert s[1..] == b + after;
    assert '(' !in PrintAlts(more) && '(' !in b && '(' !in after by {
      NoneInParts(b, PrintAlts(more));
    }
    ScanThrough(b, after, 1);
    var n := GroupSpan(s);
    var inside := GroupText(s, n);
    GroupStep(s);
    OneBranchRead(a.s);
    assert n >= 2 ==> inside == b[..n - 2];
    InsideOneChoice(x, if n >= 2 then n - 2 else 0);
    assert b[..0] == "";
    NoGroupOneChoice(s[n..]);
    OneTimesOne(GroupReading(inside), BranchReading(s[n..]));
    assert |AllChoices(a)| >= 2 by {
      TwoOrMore(x, more, rest);
    }
    WrongIfCountsDiffer(a);
  }

  lemma GroupPrinted(x: Items, more: Alts, rest: Items)
    ensures PrintAlts(One(Group(Bar(x, more), rest)))
         == "(" + (PrintItems(x) + ("|" + PrintAlts(more) + ")" + PrintItems(rest)))
  {
    hide PrintItems, PrintAlts;
    PrintSteps(x, more, rest);
    Regrouped(PrintItems(x), PrintAlts(more), PrintItems(rest));
  }

  lemma PrintSteps(x: Items, more: Alts, rest: Items)
    ensures PrintAlts(Bar(x, more)) == PrintItems(x) + "|" + PrintAlts(more)
    ensures PrintAlts(One(Group(Bar(x, more), rest))) == "(" + PrintAlts(Bar(x, more)) + ")" + PrintItems(rest)
  {
  }

  lemma Regrouped(b: string, c: string, d: string)
    ensures "(" + (b + "|" + c) + ")" + d == "(" + (b + ("|" + c + ")" + d))
  {
  }

  lemma NoneInParts(b: string, c: string)
    ensures '(' !in b + "|" + c ==> '(' !in b && '(' !in c
  {
    var z := b + "|" + c;
    assert forall i :: 0 <= i < |b| ==> z[i] == b[i];
    assert forall i :: 0 <= i < |c| ==> z[|b| + 1 + i] == c[i];
  }

  lemma InsideOneChoice(x: Items, k: nat)
    requires GoodItems(x) && k <= |PrintItems(x)| && '(' !in PrintItems(x)
    ensures |AllChoices(GroupReading(PrintItems(x)[..k]))| == 1
  {
    hide BranchReading, Split;
    var t := PrintItems(x);
    SplitIntoBranches(One(x));
    PrefixSplitsLess(t, k, 0, false, "");
    NoGroupOneChoice(t[..k]);
  }

  lemma OneTimesOne(b: Alts, y: Items)
    requires |AllChoices(b)| == 1 && |Choices(y)| == 1
    ensures |Choices(Group(b, y))| == 1
  {
  }

  lemma TwoOrMore(x: Items, more: Alts, rest: Items)
    ensures |Choices(Group(Bar(x, more), rest))| >= 2
  {
    var m, n := |AllChoices(Bar(x, more))|, |Choices(rest)|;
    NoSmaller(m, n);
  }
}
