/**
  `expand_alts` of regex.c: alternation is removed from a pattern by rewriting it into the list of
  patterns that choose one branch of every alternation.  The rewriting works on characters; here
  it is shown to preserve meaning, for any meaning of the pieces between groups and bars.
 */
module RegexAlternation {

  // ---------------------------------------------------------------------------------------
  // Patterns

  /** Branches separated by bars. */
  datatype Alts = One(s: Items) | Bar(s: Items, more: Alts)

  /** A branch: pieces of text without groups or bars, and groups. */
  datatype Items = Nil | Text(text: string, rest: Items) | Group(body: Alts, rest: Items)

  function PrintAlts(a: Alts): string {
    match a
    case One(s) => PrintItems(s)
    case Bar(s, more) => PrintItems(s) + "|" + PrintAlts(more)
  }

  function PrintItems(s: Items): string {
    match s
    case Nil => ""
    case Text(t, rest) => t + PrintItems(rest)
    case Group(body, rest) => "(" + PrintAlts(body) + ")" + PrintItems(rest)
  }

  /** The inside of a bracket expression: escapes in pairs, no bare ']'. */
  predicate IsClassBody(t: string) {
    t == "" || (if t[0] == '\\' then |t| >= 2 && IsClassBody(t[2..]) else t[0] != ']' && IsClassBody(t[1..]))
  }

  /** A character that is a piece of text by itself. */
  predicate IsPlain(c: char) {
    c != '\\' && c != '[' && c != '(' && c != ')' && c != '|'
  }

  predicate IsClass(t: string) {
    |t| >= 2 && t[0] == '[' && t[|t| - 1] == ']' && IsClassBody(t[1..|t| - 1])
  }

  /** A text piece: a plain character, an escaped character or a bracket expression. */
  predicate IsAtom(t: string) {
    (|t| == 1 && IsPlain(t[0])) || (|t| == 2 && t[0] == '\\') || IsClass(t)
  }

  /** Any number of such pieces. */
  ghost predicate IsText(t: string) {
    t == "" || exists k :: 0 < k <= |t| && IsAtom(t[..k]) && IsText(t[k..])
  }

  /** Well-formed patterns. */
  ghost predicate GoodAlts(a: Alts) {
    match a
    case One(s) => GoodItems(s)
    case Bar(s, more) => GoodItems(s) && GoodAlts(more)
  }

  ghost predicate GoodItems(s: Items) {
    match s
    case Nil => true
    case Text(t, rest) => IsText(t) && GoodItems(rest)
    case Group(body, rest) => GoodAlts(body) && GoodItems(rest)
  }

  // ---------------------------------------------------------------------------------------
  // Meaning

  /** Whether a piece of text matches a string; the theorem holds for every such meaning. */
  type Meaning = (string, string) -> bool

  ghost predicate InAlts(m: Meaning, a: Alts, w: string) {
    match a
    case One(s) => InItems(m, s, w)
    case Bar(s, more) => InItems(m, s, w) || InAlts(m, more, w)
  }

  ghost predicate InItems(m: Meaning, s: Items, w: string) {
    match s
    case Nil => w == ""
    case Text(t, rest) => exists k :: 0 <= k <= |w| && m(t, w[..k]) && InItems(m, rest, w[k..])
    case Group(body, rest) => exists k :: 0 <= k <= |w| && InAlts(m, body, w[..k]) && InItems(m, rest, w[k..])
  }

  /** No bar is left anywhere. */
  ghost predicate Flat(s: Items) {
    match s
    case Nil => true
    case Text(_, rest) => Flat(rest)
    case Group(body, rest) => body.One? && Flat(body.s) && Flat(rest)
  }

  // ---------------------------------------------------------------------------------------
  // The expansion on patterns

  function ExpandAlts(a: Alts): seq<Items> {
    match a
    case One(s) => ExpandItems(s)
    case Bar(s, more) => ExpandItems(s) + ExpandAlts(more)
  }

  function ExpandItems(s: Items): seq<Items> {
    match s
    case Nil => [Nil]
    case Text(t, rest) => WithText(t, ExpandItems(rest))
    case Group(body, rest) => WithGroups(ExpandAlts(body), ExpandItems(rest))
  }

  function WithText(t: string, xs: seq<Items>): (r: seq<Items>)
    ensures |r| == |xs| && forall i :: 0 <= i < |xs| ==> r[i] == Text(t, xs[i])
  {
    seq(|xs|, i requires 0 <= i < |xs| => Text(t, xs[i]))
  }

  function WithGroup(g: Items, xs: seq<Items>): (r: seq<Items>)
    ensures |r| == |xs| && forall i :: 0 <= i < |xs| ==> r[i] == Group(One(g), xs[i])
  {
    seq(|xs|, i requires 0 <= i < |xs| => Group(One(g), xs[i]))
  }

  /** Every choice of a group body with every choice of the rest, the group varying slowest. */
  function WithGroups(gs: seq<Items>, xs: seq<Items>): seq<Items> {
    if gs == [] then [] else WithGroup(gs[0], xs) + WithGroups(gs[1..], xs)
  }

  ghost predicate InSome(m: Meaning, xs: seq<Items>, w: string) {
    exists i :: 0 <= i < |xs| && InItems(m, xs[i], w)
  }

  lemma InSomeConcat(m: Meaning, xs: seq<Items>, ys: seq<Items>, w: string)
    ensures InSome(m, xs + ys, w) <==> InSome(m, xs, w) || InSome(m, ys, w)
  {
    var zs := xs + ys;
    if InSome(m, xs, w) {
      var i :| 0 <= i < |xs| && InItems(m, xs[i], w);
      assert zs[i] == xs[i];
    }
    if InSome(m, ys, w) {
      var i :| 0 <= i < |ys| && InItems(m, ys[i], w);
      assert zs[|xs| + i] == ys[i];
    }
  }

  ghost predicate SplitsInto(m: Meaning, gs: seq<Items>, xs: seq<Items>, w: string) {
    exists k :: 0 <= k <= |w| && InSome(m, gs, w[..k]) && InSome(m, xs, w[k..])
  }

  lemma WithGroupMeaning(m: Meaning, g: Items, xs: seq<Items>, w: string)
    ensures InSome(m, WithGroup(g, xs), w) <==>
            exists k :: 0 <= k <= |w| && InItems(m, g, w[..k]) && InSome(m, xs, w[k..])
  {
    var r := WithGroup(g, xs);
    if InSome(m, r, w) {
      var i :| 0 <= i < |r| && InItems(m, r[i], w);
      var k :| 0 <= k <= |w| && InAlts(m, One(g), w[..k]) && InItems(m, xs[i], w[k..]);
      assert InItems(m, g, w[..k]) && InSome(m, xs, w[k..]);
    }
    if exists k :: 0 <= k <= |w| && InItems(m, g, w[..k]) && InSome(m, xs, w[k..]) {
      var k :| 0 <= k <= |w| && InItems(m, g, w[..k]) && InSome(m, xs, w[k..]);
      var i :| 0 <= i < |xs| && InItems(m, xs[i], w[k..]);
      assert InAlts(m, One(g), w[..k]);
      assert InItems(m, r[i], w);
    }
  }

  lemma {:induction false} WithGroupsMeaning(m: Meaning, gs: seq<Items>, xs: seq<Items>, w: string)
    ensures InSome(m, WithGroups(gs, xs), w) <==> SplitsInto(m, gs, xs, w)
  {
    if gs != [] {
      var first, others := [gs[0]], gs[1..];
      WithGroupsMeaning(m, others, xs, w);
      WithGroupMeaning(m, gs[0], xs, w);
      InSomeConcat(m, WithGroup(gs[0], xs), WithGroups(others, xs), w);
      assert gs == first + others;
      forall v: string
        ensures InSome(m, gs, v) <==> InItems(m, gs[0], v) || InSome(m, others, v)
      {
        InSomeConcat(m, first, others, v);
        assert InSome(m, first, v) <==> InItems(m, first[0], v);
      }
    }
  }

  lemma WithTextMeaning(m: Meaning, t: string, xs: seq<Items>, w: string)
    ensures InSome(m, WithText(t, xs), w) <==>
            exists k :: 0 <= k <= |w| && m(t, w[..k]) && InSome(m, xs, w[k..])
  {
    var r := WithText(t, xs);
    if InSome(m, r, w) {
      var i :| 0 <= i < |r| && InItems(m, r[i], w);
      var k :| 0 <= k <= |w| && m(t, w[..k]) && InItems(m, xs[i], w[k..]);
      assert InSome(m, xs, w[k..]);
    }
    if exists k :: 0 <= k <= |w| && m(t, w[..k]) && InSome(m, xs, w[k..]) {
      var k :| 0 <= k <= |w| && m(t, w[..k]) && InSome(m, xs, w[k..]);
      var i :| 0 <= i < |xs| && InItems(m, xs[i], w[k..]);
      assert InItems(m, r[i], w);
    }
  }

  /** The pattern's language is the union of the languages of the expanded patterns. */
  lemma {:induction false} ExpansionPreservesMeaning(m: Meaning, a: Alts, w: string)
    ensures InAlts(m, a, w) <==> InSome(m, ExpandAlts(a), w)
    decreases a
  {
    match a
    case One(s) => ItemsExpansion(m, s, w);
    case Bar(s, more) =>
      ItemsExpansion(m, s, w);
      ExpansionPreservesMeaning(m, more, w);
      InSomeConcat(m, ExpandItems(s), ExpandAlts(more), w);
  }

  lemma {:induction false} ItemsExpansion(m: Meaning, s: Items, w: string)
    ensures InItems(m, s, w) <==> InSome(m, ExpandItems(s), w)
    decreases s
  {
    match s
    case Nil => assert ExpandItems(s)[0] == Nil;
    case Text(t, rest) =>
      WithTextMeaning(m, t, ExpandItems(rest), w);
      forall k | 0 <= k <= |w|
        ensures InItems(m, rest, w[k..]) <==> InSome(m, ExpandItems(rest), w[k..])
      {
        ItemsExpansion(m, rest, w[k..]);
      }
    case Group(body, rest) =>
      WithGroupsMeaning(m, ExpandAlts(body), ExpandItems(rest), w);
      forall k | 0 <= k <= |w|
        ensures InItems(m, rest, w[k..]) <==> InSome(m, ExpandItems(rest), w[k..])
        ensures InAlts(m, body, w[..k]) <==> InSome(m, ExpandAlts(body), w[..k])
      {
        ItemsExpansion(m, rest, w[k..]);
        ExpansionPreservesMeaning(m, body, w[..k]);
      }
  }

  ghost predicate AllFlat(xs: seq<Items>) {
    forall i :: 0 <= i < |xs| ==> Flat(xs[i])
  }

  lemma {:induction false} ExpansionIsFlat(a: Alts)
    ensures AllFlat(ExpandAlts(a))
    decreases a
  {
    match a
    case One(s) => ItemsExpansionIsFlat(s);
    case Bar(s, more) => ItemsExpansionIsFlat(s); ExpansionIsFlat(more);
  }

  lemma {:induction false} ItemsExpansionIsFlat(s: Items)
    ensures AllFlat(ExpandItems(s))
    decreases s
  {
    match s
    case Nil =>
    case Text(t, rest) => ItemsExpansionIsFlat(rest);
    case Group(body, rest) =>
      ExpansionIsFlat(body);
      ItemsExpansionIsFlat(rest);
      WithGroupsFlat(ExpandAlts(body), ExpandItems(rest));
  }

  lemma {:induction false} WithGroupsFlat(gs: seq<Items>, xs: seq<Items>)
    requires AllFlat(gs) && AllFlat(xs)
    ensures AllFlat(WithGroups(gs, xs))
  {
    if gs != [] {
      WithGroupsFlat(gs[1..], xs);
    }
  }
}
