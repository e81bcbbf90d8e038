/**
  The backtracking matcher of regex.c on token lists without back-references.  `matchone` is an
  arbitrary predicate on a token's text and a character.  The end of a token list plays the part
  of the UNUSED token; the end of the text that of the NUL.
 */
module RegexMatcher {

  datatype Token =
    | CapOpen(group: nat) | CapClose(group: nat)
    | Begin | End
    | Question | Star | Plus
    | BackRef(group: nat)
    | Single(text: string)  // any token that matches one character: a literal, '.', a class, \d, ..

  type MatchOne = (string, char) -> bool

  predicate IsQuantifier(t: Token) {
    t.Question? || t.Star? || t.Plus?
  }

  /** Quantifiers only after single-character tokens, '$' only last, no '^' and no back-reference. */
  predicate WellFormed(p: seq<Token>) {
    p == [] || p == [End] ||
    (match p[0]
     case CapOpen(_) => WellFormed(p[1..])
     case CapClose(_) => WellFormed(p[1..])
     case Single(_) => if Quantified(p) then WellFormed(p[2..]) else WellFormed(p[1..])
     case _ => false)
  }

  predicate Quantified(p: seq<Token>) {
    |p| >= 2 && IsQuantifier(p[1])
  }

  // ---------------------------------------------------------------------------------------
  // The language of a token list

  datatype Times = Once | Optional | Any | AtLeastOne

  /** A token with its quantifier. */
  datatype Unit = Unit(text: string, times: Times)

  function TimesOf(t: Token): Times {
    match t
    case Question => Optional
    case Star => Any
    case Plus => AtLeastOne
    case _ => Once
  }

  function Units(p: seq<Token>): seq<Unit>
    requires WellFormed(p)
  {
    if p == [] || p == [End] then []
    else if p[0].Single? then
      if Quantified(p) then [Unit(p[0].text, TimesOf(p[1]))] + Units(p[2..])
      else [Unit(p[0].text, Once)] + Units(p[1..])
    else Units(p[1..])
  }

  /** Whether the list ends in '$'. */
  predicate EndAnchored(p: seq<Token>) {
    p != [] && p[|p| - 1] == End
  }

  predicate AllMatch(m: MatchOne, text: string, w: string) {
    forall i :: 0 <= i < |w| ==> m(text, w[i])
  }

  predicate AllowedLength(times: Times, n: nat) {
    match times
    case Once => n == 1
    case Optional => n <= 1
    case Any => true
    case AtLeastOne => n >= 1
  }

  predicate UnitAccepts(m: MatchOne, u: Unit, w: string) {
    AllowedLength(u.times, |w|) && AllMatch(m, u.text, w)
  }

  function Flatten(parts: seq<string>): string {
    if parts == [] then "" else parts[0] + Flatten(parts[1..])
  }

  ghost predicate Accepts(m: MatchOne, units: seq<Unit>, parts: seq<string>) {
    |parts| == |units| && forall i :: 0 <= i < |units| ==> UnitAccepts(m, units[i], parts[i])
  }

  /** w can be cut into one part per unit, each accepted by its unit. */
  ghost predicate InLanguage(m: MatchOne, units: seq<Unit>, w: string) {
    exists parts: seq<string> :: Accepts(m, units, parts) && Flatten(parts) == w
  }

  /** Some prefix of the text from i on is in the language; all of it, if the list ends in '$'. */
  ghost predicate Matches(m: MatchOne, p: seq<Token>, text: string, i: nat)
    requires WellFormed(p) && i <= |text|
  {
    exists j :: MatchEnds(m, p, text, i, j)
  }

  ghost predicate MatchEnds(m: MatchOne, p: seq<Token>, text: string, i: nat, j: int)
    requires WellFormed(p) && i <= |text|
  {
    i <= j <= |text| && InLanguage(m, Units(p), text[i..j]) && (EndAnchored(p) ==> j == |text|)
  }

  // ---------------------------------------------------------------------------------------
  // How a match begins

  lemma EmptyLanguage(m: MatchOne, w: string)
    ensures InLanguage(m, [], w) <==> w == ""
  {
    if w == "" {
      assert Accepts(m, [], []) && Flatten([]) == w;
    }
    if InLanguage(m, [], w) {
      var parts :| Accepts(m, [], parts) && Flatten(parts) == w;
      assert parts == [];
    }
  }

  lemma ConsLanguage(m: MatchOne, u: Unit, us: seq<Unit>, w: string)
    ensures InLanguage(m, [u] + us, w) <==>
            exists k :: 0 <= k <= |w| && UnitAccepts(m, u, w[..k]) && InLanguage(m, us, w[k..])
  {
    var units := [u] + us;
    if InLanguage(m, units, w) {
      var parts :| Accepts(m, units, parts) && Flatten(parts) == w;
      var k := |parts[0]|;
      assert w[..k] == parts[0] && w[k..] == Flatten(parts[1..]);
      assert units[0] == u && units[1..] == us;
      assert Accepts(m, us, parts[1..]);
      assert UnitAccepts(m, u, w[..k]) && InLanguage(m, us, w[k..]);
    }
    if exists k :: 0 <= k <= |w| && UnitAccepts(m, u, w[..k]) && InLanguage(m, us, w[k..]) {
      var k :| 0 <= k <= |w| && UnitAccepts(m, u, w[..k]) && InLanguage(m, us, w[k..]);
      var parts :| Accepts(m, us, parts) && Flatten(parts) == w[k..];
      var all := [w[..k]] + parts;
      assert all[1..] == parts;
      assert Accepts(m, units, all) && Flatten(all) == w;
    }
  }

  /** A list that starts with a unit `u` and goes on with `q` matches at i iff it can be cut at some k. */
  ghost predicate CutAt(m: MatchOne, u: Unit, q: seq<Token>, text: string, i: nat, k: int)
    requires WellFormed(q) && i <= |text|
  {
    i <= k <= |text| && UnitAccepts(m, u, text[i..k]) && Matches(m, q, text, k)
  }

  lemma MatchesCons(m: MatchOne, p: seq<Token>, u: Unit, q: seq<Token>, text: string, i: nat)
    requires WellFormed(p) && WellFormed(q) && i <= |text|
    requires Units(p) == [u] + Units(q) && EndAnchored(p) == EndAnchored(q)
    ensures Matches(m, p, text, i) <==> exists k :: CutAt(m, u, q, text, i, k)
  {
    hide Units, InLanguage, UnitAccepts, WellFormed;
    if Matches(m, p, text, i) {
      var j :| MatchEnds(m, p, text, i, j);
      var w := text[i..j];
      ConsLanguage(m, u, Units(q), w);
      var n :| 0 <= n <= |w| && UnitAccepts(m, u, w[..n]) && InLanguage(m, Units(q), w[n..]);
      assert w[..n] == text[i..i + n] && w[n..] == text[i + n..j];
      assert MatchEnds(m, q, text, i + n, j);
      assert CutAt(m, u, q, text, i, i + n);
    }
    if exists k :: CutAt(m, u, q, text, i, k) {
      var k :| CutAt(m, u, q, text, i, k);
      var j :| MatchEnds(m, q, text, k, j);
      var w := text[i..j];
      assert w[..k - i] == text[i..k] && w[k - i..] == text[k..j];
      ConsLanguage(m, u, Units(q), w);
      assert MatchEnds(m, p, text, i, j);
    }
  }

  lemma MatchesNothing(m: MatchOne, text: string, i: nat)
    requires i <= |text|
    ensures Matches(m, [], text, i)
    ensures Matches(m, [End], text, i) <==> i == |text|
  {
    EmptyLanguage(m, "");
    assert text[i..i] == "";
    assert MatchEnds(m, [], text, i, i);
    if i == |text| {
      assert MatchEnds(m, [End], text, i, i);
    }
    if Matches(m, [End], text, i) {
      var j :| MatchEnds(m, [End], text, i, j);
      EmptyLanguage(m, text[i..j]);
    }
  }

  lemma MatchesCapture(m: MatchOne, p: seq<Token>, text: string, i: nat)
    requires WellFormed(p) && i <= |text| && p != [] && (p[0].CapOpen? || p[0].CapClose?)
    ensures WellFormed(p[1..])
    ensures Matches(m, p, text, i) <==> Matches(m, p[1..], text, i)
  {
    assert EndAnchored(p) == EndAnchored(p[1..]);
    assert Units(p) == Units(p[1..]);
    assert forall j :: MatchEnds(m, p, text, i, j) <==> MatchEnds(m, p[1..], text, i, j);
  }

  lemma MatchesSingle(m: MatchOne, p: seq<Token>, text: string, i: nat)
    requires WellFormed(p) && i <= |text| && p != [] && p[0].Single? && !Quantified(p)
    ensures WellFormed(p[1..])
    ensures Matches(m, p, text, i) <==>
            i < |text| && m(p[0].text, text[i]) && Matches(m, p[1..], text, i + 1)
  {
    var u, q := Unit(p[0].text, Once), p[1..];
    assert EndAnchored(p) == EndAnchored(q);
    assert Units(p) == [u] + Units(q);
    hide Units, WellFormed, InLanguage, MatchEnds;
    MatchesCons(m, p, u, q, text, i);
    if i < |text| && m(p[0].text, text[i]) && Matches(m, q, text, i + 1) {
      assert text[i..i + 1] == [text[i]];
      assert CutAt(m, u, q, text, i, i + 1);
    }
    if exists k :: CutAt(m, u, q, text, i, k) {
      var k: int :| CutAt(m, u, q, text, i, k);
      assert k == i + 1 && text[i..k][0] == text[i];
    }
  }

  lemma MatchesQuantified(m: MatchOne, p: seq<Token>, text: string, i: nat)
    requires WellFormed(p) && i <= |text| && p != [] && p[0].Single? && Quantified(p)
    ensures WellFormed(p[2..])
    ensures Matches(m, p, text, i) <==>
            exists k :: CutAt(m, Unit(p[0].text, TimesOf(p[1])), p[2..], text, i, k)
  {
    var q := p[2..];
    assert EndAnchored(p) == EndAnchored(q);
    MatchesCons(m, p, Unit(p[0].text, TimesOf(p[1])), q, text, i);
  }

  // ---------------------------------------------------------------------------------------
  // The matcher

  /** The greedy scan of matchstar and matchplus: the longest run of matching characters. */
  method LongestRun(m: MatchOne, t: string, text: string, i: nat) returns (e: nat)
    requires i <= |text|
    ensures i <= e <= |text|
    ensures forall k :: i <= k <= |text| ==> (AllMatch(m, t, text[i..k]) <==> k <= e)
  {
    e := i;
    while e < |text| && m(t, text[e])
      invariant i <= e <= |text| && forall n :: i <= n < e ==> m(t, text[n])
    {
      e := e + 1;
    }
    forall k | i <= k <= |text|
      ensures AllMatch(m, t, text[i..k]) <==> k <= e
    {
      if k > e {
        assert text[i..k][e - i] == text[e];
      }
    }
  }

  /** matchstar: greedy, then giving characters back one at a time. */
  method MatchStar(m: MatchOne, t: string, pat: seq<Token>, text: string, i: nat) returns (r: bool)
    requires WellFormed(pat) && i <= |text|
    ensures r <==> exists k :: CutAt(m, Unit(t, Any), pat, text, i, k)
    decreases |pat|, 1
  {
    var e := LongestRun(m, t, text, i);
    var k := e;
    r := false;
    while k >= i
      invariant i - 1 <= k <= e
      invariant forall n :: k < n <= e ==> !Matches(m, pat, text, n)
    {
      var found := MatchPattern(m, pat, text, k);
      if found {
        assert CutAt(m, Unit(t, Any), pat, text, i, k);
        return true;
      }
      k := k - 1;
    }
  }

  /** matchplus: the same, but at least one character stays. */
  method MatchPlus(m: MatchOne, t: string, pat: seq<Token>, text: string, i: nat) returns (r: bool)
    requires WellFormed(pat) && i <= |text|
    ensures r <==> exists k :: CutAt(m, Unit(t, AtLeastOne), pat, text, i, k)
    decreases |pat|, 1
  {
    var e := LongestRun(m, t, text, i);
    var k := e;
    r := false;
    while k > i
      invariant i <= k <= e
      invariant forall n :: k < n <= e ==> !Matches(m, pat, text, n)
    {
      var found := MatchPattern(m, pat, text, k);
      if found {
        assert CutAt(m, Unit(t, AtLeastOne), pat, text, i, k);
        return true;
      }
      k := k - 1;
    }
  }

  /** matchquestion: first without the character, then with it. */
  method MatchQuestion(m: MatchOne, t: string, pat: seq<Token>, text: string, i: nat) returns (r: bool)
    requires WellFormed(pat) && i <= |text|
    ensures r <==> exists k :: CutAt(m, Unit(t, Optional), pat, text, i, k)
    decreases |pat|, 1
  {
    OptionalCut(m, t, pat, text, i);
    r := MatchPattern(m, pat, text, i);
    if !r && i < |text| && m(t, text[i]) {
      r := MatchPattern(m, pat, text, i + 1);
    }
  }

  lemma OptionalCut(m: MatchOne, t: string, pat: seq<Token>, text: string, i: nat)
    requires WellFormed(pat) && i <= |text|
    ensures (exists k :: CutAt(m, Unit(t, Optional), pat, text, i, k)) <==>
            Matches(m, pat, text, i) || (i < |text| && m(t, text[i]) && Matches(m, pat, text, i + 1))
  {
    var u := Unit(t, Optional);
    if Matches(m, pat, text, i) {
      assert CutAt(m, u, pat, text, i, i);
    }
    if i < |text| && m(t, text[i]) && Matches(m, pat, text, i + 1) {
      assert CutAt(m, u, pat, text, i, i + 1);
    }
    if exists k :: CutAt(m, u, pat, text, i, k) {
      var k: int :| CutAt(m, u, pat, text, i, k);
      if k == i + 1 {
        assert text[i..k][0] == text[i];
      }
    }
  }

  /** matchpattern is sound and complete. */
  method MatchPattern(m: MatchOne, pat: seq<Token>, text: string, i: nat) returns (r: bool)
    requires WellFormed(pat) && i <= |text|
    ensures r <==> Matches(m, pat, text, i)
    decreases |pat|, 0
  {
    hide WellFormed, Matches, Units;
    var p, pos: nat := pat, i;
    while true
      invariant pos <= |text| && WellFormed(p) && |p| <= |pat|
      invariant Matches(m, pat, text, i) <==> Matches(m, p, text, pos)
      decreases |p|
    {
      if p == [] || p == [End] {
        MatchesNothing(m, text, pos);
        return p == [] || pos == |text|;
      }
      WellFormedHead(p);
      if p[0].CapOpen? || p[0].CapClose? {
        MatchesCapture(m, p, text, pos);
        p := p[1..];
        continue;
      }
      if Quantified(p) {
        MatchesQuantified(m, p, text, pos);
        assert TimesOf(p[1]) == if p[1].Question? then Optional else if p[1].Star? then Any else AtLeastOne;
        if p[1].Question? {
          r := MatchQuestion(m, p[0].text, p[2..], text, pos);
        } else if p[1].Star? {
          r := MatchStar(m, p[0].text, p[2..], text, pos);
        } else {
          r := MatchPlus(m, p[0].text, p[2..], text, pos);
        }
        return;
      }
      MatchesSingle(m, p, text, pos);
      if pos < |text| && m(p[0].text, text[pos]) {
        p, pos := p[1..], pos + 1;
        continue;
      }
      return false;
    }
  }

  lemma WellFormedHead(p: seq<Token>)
    requires WellFormed(p) && p != [] && p != [End]
    ensures p[0].CapOpen? || p[0].CapClose? || p[0].Single?
  {
  }

  // ---------------------------------------------------------------------------------------
  // regexec

  /** A compiled alternative: '^' may come first. */
  predicate WellFormedAlternative(p: seq<Token>) {
    WellFormed(if p != [] && p[0].Begin? then p[1..] else p)
  }

  /** The alternative matches with its match starting at i. */
  ghost predicate MatchesAt(m: MatchOne, p: seq<Token>, text: string, i: nat)
    requires WellFormedAlternative(p) && i <= |text|
  {
    if p != [] && p[0].Begin? then i == 0 && Matches(m, p[1..], text, 0) else Matches(m, p, text, i)
  }

  ghost predicate MatchesSomewhere(m: MatchOne, p: seq<Token>, text: string)
    requires WellFormedAlternative(p)
  {
    exists i :: 0 <= i <= |text| && MatchesAt(m, p, text, i)
  }

  /** The leftmost place where one alternative matches, or -1. */
  method SearchAlternative(m: MatchOne, p: seq<Token>, text: string) returns (pos: int)
    requires WellFormedAlternative(p)
    ensures pos == -1 || 0 <= pos <= |text|
    ensures pos < 0 ==> !MatchesSomewhere(m, p, text)
    ensures pos >= 0 ==> MatchesAt(m, p, text, pos) && forall i :: 0 <= i < pos ==> !MatchesAt(m, p, text, i)
  {
    if p != [] && p[0].Begin? {
      var found := MatchPattern(m, p[1..], text, 0);
      return if found then 0 else -1;
    }
    pos := 0;
    while pos <= |text|
      invariant 0 <= pos <= |text| + 1
      invariant forall i :: 0 <= i < pos ==> !MatchesAt(m, p, text, i)
    {
      var found := MatchPattern(m, p, text, pos);
      if found {
        return;
      }
      pos := pos + 1;
    }
    pos := -1;
  }

  /**
    regexec: the leftmost match of the first alternative, in list order, that matches anywhere;
    -1 stands for REG_NOMATCH.
   */
  method Regexec(m: MatchOne, alts: seq<seq<Token>>, text: string) returns (pos: int, ghost which: nat)
    requires forall a :: 0 <= a < |alts| ==> WellFormedAlternative(alts[a])
    ensures pos == -1 || 0 <= pos <= |text|
    ensures pos < 0 <==> forall a :: 0 <= a < |alts| ==> !MatchesSomewhere(m, alts[a], text)
    ensures pos >= 0 ==>
              && which < |alts| && MatchesAt(m, alts[which], text, pos)
              && (forall i :: 0 <= i < pos ==> !MatchesAt(m, alts[which], text, i))
              && forall a :: 0 <= a < which ==> !MatchesSomewhere(m, alts[a], text)
  {
    pos, which := -1, 0;
    var a := 0;
    while a < |alts| && pos < 0
      invariant 0 <= a <= |alts|
      invariant pos == -1 || 0 <= pos <= |text|
      invariant pos < 0 ==> forall b :: 0 <= b < a ==> !MatchesSomewhere(m, alts[b], text)
      invariant pos >= 0 ==>
                  && which < |alts| && MatchesAt(m, alts[which], text, pos)
                  && (forall i :: 0 <= i < pos ==> !MatchesAt(m, alts[which], text, i))
                  && forall b :: 0 <= b < which ==> !MatchesSomewhere(m, alts[b], text)
    {
      pos := SearchAlternative(m, alts[a], text);
      which := a;
      a := a + 1;
    }
    if pos >= 0 {
      assert MatchesSomewhere(m, alts[which], text);
    }
  }
}
