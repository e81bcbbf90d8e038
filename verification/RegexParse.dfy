/** The reading of a pattern text by its grammar: bars, groups, and pieces of text with their quantifiers. */
module RegexParse {
  import opened RegexAlternation
  import opened RegexExpand
  import opened RegexReading

  predicate IsQuantifierChar(c: char) {
    c == '*' || c == '+' || c == '?'
  }

  /**
    The rest of a pattern inside `depth` open groups: every escape has its character, every
    bracket expression and every group is closed.
   */
  predicate Balanced(s: string, depth: nat)
    decreases |s|
  {
    if s == "" then depth == 0
    else if s[0] == '\\' then |s| >= 2 && Balanced(s[2..], depth)
    else if s[0] == '[' then
      var n := ClassLen(s[1..]);
      n > 0 && s[n] == ']' && IsClassBody(s[1..n]) && Balanced(s[n + 1..], depth)
    else if s[0] == '(' then Balanced(s[1..], depth + 1)
    else if s[0] == ')' then depth > 0 && Balanced(s[1..], depth - 1)
    else Balanced(s[1..], depth)
  }

  predicate StartsText(s: string) {
    s != "" && s[0] != '(' && s[0] != ')' && s[0] != '|'
  }

  /** A piece of text and the quantifier behind it, if there is one. */
  function PieceLen(s: string): (n: nat)
    requires s != ""
    ensures 0 < n <= |s|
  {
    var k := PieceSpan(s);
    if k < |s| && IsQuantifierChar(s[k]) then k + 1 else k
  }

  lemma AtomInFront(s: string, depth: nat)
    requires Balanced(s, depth) && StartsText(s)
    ensures IsAtom(s[..PieceSpan(s)]) && Balanced(s[PieceSpan(s)..], depth)
  {
    var k := PieceSpan(s);
    var t := s[..k];
    if s[0] == '[' {
      assert t[1..|t| - 1] == s[1..k - 1];
    }
  }

  lemma AtomIsText(t: string)
    requires IsAtom(t)
    ensures IsText(t)
  {
    assert t[..|t|] == t && t[|t|..] == "";
  }

  lemma PieceInFront(s: string, depth: nat)
    requires Balanced(s, depth) && StartsText(s)
    ensures IsText(s[..PieceLen(s)]) && Balanced(s[PieceLen(s)..], depth)
  {
    hide IsAtom, ClassLen;
    AtomInFront(s, depth);
    var k, n := PieceSpan(s), PieceLen(s);
    AtomIsText(s[..k]);
    if n == k + 1 {
      var t, q := s[..n], s[k..n];
      QuantifierIsAtom(q);
      AtomIsText(q);
      assert t[..k] == s[..k] && t[k..] == q;
      AfterQuantifier(s[k..], depth);
      assert s[k..][1..] == s[n..];
    }
  }

  lemma QuantifierIsAtom(q: string)
    requires |q| == 1 && IsQuantifierChar(q[0])
    ensures IsAtom(q)
  {
  }

  lemma AfterQuantifier(s: string, depth: nat)
    requires s != "" && IsQuantifierChar(s[0]) && Balanced(s, depth)
    ensures Balanced(s[1..], depth)
  {
  }

  lemma OpenBalanced(s: string, depth: nat)
    requires s != "" && s[0] == '(' && Balanced(s, depth)
    ensures Balanced(s[1..], depth + 1)
  {
  }

  lemma CloseBalanced(s: string, m: nat, depth: nat)
    requires m + 1 < |s| && s[1..][m] == ')' && Balanced(s[1..][m..], depth + 1)
    ensures s[m + 1] == ')' && Balanced(s[m + 2..], depth)
  {
    var after := s[1..][m..];
    assert after[0] == ')' && after[1..] == s[m + 2..];
  }

  lemma BarBalanced(s: string, k: nat, depth: nat)
    requires k < |s| && s[k] == '|' && Balanced(s[k..], depth)
    ensures Balanced(s[k + 1..], depth)
  {
    assert s[k..][1..] == s[k + 1..];
  }

  lemma TextPieces(s: string, k: nat, m: nat)
    requires k + m <= |s|
    ensures s[..k + m] == s[..k] + s[k..][..m] && s[k + m..] == s[k..][m..]
    ensures k + m < |s| ==> s[k..][m] == s[k + m]
  {
  }

  lemma BarPieces(s: string, k: nat, m: nat)
    requires k + 1 + m <= |s| && s[k] == '|'
    ensures s[..k + 1 + m] == s[..k] + "|" + s[k + 1..][..m] && s[k + 1 + m..] == s[k + 1..][m..]
    ensures k + 1 + m < |s| ==> s[k + 1..][m] == s[k + 1 + m]
  {
  }

  lemma GroupPieces(s: string, m: nat, k: nat)
    requires m + 2 + k <= |s| && s[0] == '(' && s[m + 1] == ')'
    ensures s[..m + 2 + k] == "(" + s[1..][..m] + ")" + s[m + 2..][..k]
    ensures s[m + 2 + k..] == s[m + 2..][k..]
    ensures m + 2 + k < |s| ==> s[m + 2..][k] == s[m + 2 + k]
  {
  }

  // ---------------------------------------------------------------------------------------
  // The reading

  /** Where a branch stops: at a bar, at the parenthesis that closes the group, or at the end. */
  predicate BranchStops(s: string, n: nat, depth: nat) {
    && n <= |s| && Balanced(s[n..], depth)
    && (n == |s| || s[n] == '|' || (s[n] == ')' && depth > 0))
  }

  predicate AltsStop(s: string, n: nat, depth: nat) {
    && n <= |s| && Balanced(s[n..], depth)
    && if depth == 0 then n == |s| else n < |s| && s[n] == ')'
  }

  lemma NothingStops(s: string, depth: nat)
    requires Balanced(s, depth) && (s == "" || s[0] == '|' || s[0] == ')')
    ensures BranchStops(s, 0, depth)
  {
    assert s[0..] == s;
  }

  lemma BranchEndsHere(s: string, n: nat, depth: nat)
    requires BranchStops(s, n, depth) && (n >= |s| || s[n] != '|')
    ensures AltsStop(s, n, depth)
  {
    assert n == |s| ==> s[n..] == "";
  }

  /** A group, a piece of text or a bar in front of what has been read. */
  lemma GroupOpens(s: string, m: nat, depth: nat)
    requires s != "" && s[0] == '(' && AltsStop(s[1..], m, depth + 1)
    ensures m + 2 <= |s| && s[m + 1] == ')' && Balanced(s[m + 2..], depth)
  {
    hide Balanced;
    CloseBalanced(s, m, depth);
  }

  lemma GroupStops(s: string, m: nat, k: nat, depth: nat)
    requires m + 2 <= |s| && s[0] == '(' && s[m + 1] == ')' && BranchStops(s[m + 2..], k, depth)
    ensures BranchStops(s, m + 2 + k, depth)
  {
    hide Balanced;
    GroupPieces(s, m, k);
  }

  lemma PieceStops(s: string, k: nat, m: nat, depth: nat)
    requires k <= |s| && BranchStops(s[k..], m, depth)
    ensures BranchStops(s, k + m, depth)
  {
    hide Balanced;
    TextPieces(s, k, m);
  }

  lemma BarContinues(s: string, k: nat, depth: nat)
    requires BranchStops(s, k, depth) && k < |s| && s[k] == '|'
    ensures Balanced(s[k + 1..], depth)
  {
    BarBalanced(s, k, depth);
  }

  lemma BarStops(s: string, k: nat, m: nat, depth: nat)
    requires k < |s| && s[k] == '|' && AltsStop(s[k + 1..], m, depth)
    ensures AltsStop(s, k + 1 + m, depth)
  {
    hide Balanced;
    BarPieces(s, k, m);
  }

  /** The branch in front and its length. */
  function ReadItems(s: string, depth: nat): (r: (Items, nat))
    requires Balanced(s, depth)
    ensures BranchStops(s, r.1, depth)
    decreases |s|, 0
  {
    hide Balanced, BranchStops, AltsStop, PieceLen;
    if s == "" || s[0] == '|' || s[0] == ')' then
      NothingStops(s, depth);
      (Nil, 0)
    else if s[0] == '(' then
      OpenBalanced(s, depth);
      var (body, m) := ReadAlts(s[1..], depth + 1);
      GroupOpens(s, m, depth);
      var (rest, k) := ReadItems(s[m + 2..], depth);
      GroupStops(s, m, k, depth);
      (Group(body, rest), m + 2 + k)
    else
      PieceInFront(s, depth);
      var k := PieceLen(s);
      var (rest, m) := ReadItems(s[k..], depth);
      PieceStops(s, k, m, depth);
      (Text(s[..k], rest), k + m)
  }

  /** The branches in front and their length. */
  function ReadAlts(s: string, depth: nat): (r: (Alts, nat))
    requires Balanced(s, depth)
    ensures AltsStop(s, r.1, depth)
    decreases |s|, 1
  {
    hide Balanced, BranchStops, AltsStop;
    var (x, k) := ReadItems(s, depth);
    if k < |s| && s[k] == '|' then
      BarContinues(s, k, depth);
      var (more, m) := ReadAlts(s[k + 1..], depth);
      BarStops(s, k, m, depth);
      (Bar(x, more), k + 1 + m)
    else
      BranchEndsHere(s, k, depth);
      (One(x), k)
  }

  function Reading(s: string): Alts
    requires Balanced(s, 0)
  {
    ReadAlts(s, 0).0
  }

  /** The text is the printed reading, and the reading is well formed. */
  lemma {:induction false} ItemsReadBack(s: string, depth: nat)
    requires Balanced(s, depth)
    ensures var (x, n) := ReadItems(s, depth); s[..n] == PrintItems(x) && GoodItems(x)
    decreases |s|, 0
  {
    hide Balanced, IsText, PrintAlts, GoodAlts, BranchStops;
    if s == "" || s[0] == '|' || s[0] == ')' {
    } else if s[0] == '(' {
      OpenBalanced(s, depth);
      AltsReadBack(s[1..], depth + 1);
      var (body, m) := ReadAlts(s[1..], depth + 1);
      CloseBalanced(s, m, depth);
      ItemsReadBack(s[m + 2..], depth);
      var (rest, k) := ReadItems(s[m + 2..], depth);
      StopsInside(s[m + 2..], k, depth);
      GroupPieces(s, m, k);
    } else {
      PieceInFront(s, depth);
      var k := PieceLen(s);
      ItemsReadBack(s[k..], depth);
      var (rest, m) := ReadItems(s[k..], depth);
      StopsInside(s[k..], m, depth);
      TextPieces(s, k, m);
    }
  }

  lemma StopsInside(s: string, n: nat, depth: nat)
    requires BranchStops(s, n, depth)
    ensures n <= |s|
  {
  }

  lemma {:induction false} AltsReadBack(s: string, depth: nat)
    requires Balanced(s, depth)
    ensures var (a, n) := ReadAlts(s, depth); s[..n] == PrintAlts(a) && GoodAlts(a)
    decreases |s|, 1
  {
    hide Balanced, IsText, PrintItems, GoodItems, ReadItems;
    ItemsReadBack(s, depth);
    var (x, k) := ReadItems(s, depth);
    if k < |s| && s[k] == '|' {
      BarBalanced(s, k, depth);
      AltsReadBack(s[k + 1..], depth);
      var (more, m) := ReadAlts(s[k + 1..], depth);
      BarPieces(s, k, m);
    }
  }

  lemma ReadingPrints(s: string)
    requires Balanced(s, 0)
    ensures PrintAlts(Reading(s)) == s && GoodAlts(Reading(s))
  {
    hide ReadAlts, Balanced, PrintAlts, GoodAlts;
    AltsReadBack(s, 0);
    assert s[..|s|] == s;
  }

  /**
    Every balanced pattern whose groups end, for the routine, where its grammar ends them: the routine
    returns patterns without any alternation, and for every meaning of the text pieces the pattern
    denotes exactly the strings that some returned pattern denotes.
   */
  lemma BalancedPatternExpands(pat: string) returns (xs: seq<Items>)
    requires Balanced(pat, 0) && SameReading(Reading(pat))
    ensures ExpandText(pat) == PrintAll(xs) && AllFlat(xs)
    ensures forall m: Meaning, w: string :: InAlts(m, Reading(pat), w) <==> InSome(m, xs, w)
  {
    hide Reading, SameReading, PrintAlts, GoodAlts, Balanced, ExpandText;
    var a := Reading(pat);
    ReadingPrints(pat);
    RightIfSameReading(a);
    xs := ExpandAlts(a);
    ExpansionIsFlat(a);
    forall m: Meaning, w: string
      ensures InAlts(m, a, w) <==> InSome(m, xs, w)
    {
      ExpansionPreservesMeaning(m, a, w);
    }
  }
}
