/**
  `compile_single` of regex.c, and the whole path from a pattern to the answer of regexec: rewrite
  the alternation away, compile each resulting pattern to tokens, search with each token list.
 */
module RegexCompile {
  import opened RegexAlternation
  import opened RegexExpand
  import opened RegexReading
  import opened RegexParse
  import opened RegexRewrite
  import opened RegexMatcher
  import RegexRanges

  // ---------------------------------------------------------------------------------------
  // compile_single as a function of the remaining text

  /** The rest of a POSIX name such as :alpha:] inside brackets, with its closing ":]". */
  function PosixLen(s: string): (n: nat)
    ensures n <= |s|
  {
    if s == "" then 0
    else if |s| >= 2 && s[0] == ':' && s[1] == ']' then 2
    else 1 + PosixLen(s[1..])
  }

  /** Characters of a bracket expression after its '[', with the closing ']'. */
  function BracketLen(s: string): (n: nat)
    ensures n <= |s|
    decreases |s|
  {
    if s == "" then 0
    else if s[0] == '\\' && |s| >= 2 then 2 + BracketLen(s[2..])
    else if s[0] == '[' && |s| >= 2 && s[1] == ':' then
      var n := 1 + PosixLen(s[1..]);
      n + BracketLen(s[n..])
    else if s[0] == ']' then 1
    else 1 + BracketLen(s[1..])
  }

  /** Whether the bracket expression is closed before the text ends. */
  predicate BracketCloses(s: string)
    decreases |s|
  {
    if s == "" then false
    else if s[0] == '\\' && |s| >= 2 then BracketCloses(s[2..])
    else if s[0] == '[' && |s| >= 2 && s[1] == ':' then BracketCloses(s[1 + PosixLen(s[1..])..])
    else s[0] == ']' || BracketCloses(s[1..])
  }

  /** The token that starts the text and the number of characters it takes. */
  function FirstToken(s: string, groups: nat, stack: seq<nat>): (r: (Token, nat))
    requires s != ""
    ensures 0 < r.1 <= |s|
  {
    match s[0]
    case '^' => (Begin, 1)
    case '$' => (End, 1)
    case '*' => (Star, 1)
    case '+' => (Plus, 1)
    case '?' => (Question, 1)
    case '\\' =>
      if |s| < 2 then (Single(s), 1)
      else if '1' <= s[1] <= '9' then (BackRef(s[1] as nat - '0' as nat), 2)
      else (Single(s[..2]), 2)
    case '(' => if groups < 9 then (CapOpen(groups + 1), 1) else (Single(s[..1]), 1)
    case ')' => if stack != [] then (CapClose(stack[|stack| - 1]), 1) else (Single(s[..1]), 1)
    case '[' => var n := 1 + BracketLen(s[1..]); (Single(s[..n]), n)
    case _ => (Single(s[..1]), 1)
  }

  function GroupsAfter(t: Token, groups: nat): nat {
    if t.CapOpen? then groups + 1 else groups
  }

  function StackAfter(t: Token, stack: seq<nat>): seq<nat> {
    if t.CapOpen? then stack + [t.group] else if t.CapClose? && stack != [] then stack[..|stack| - 1] else stack
  }

  function Compile(s: string, groups: nat, stack: seq<nat>): seq<Token>
    decreases |s|
  {
    if s == "" then [] else
      var (t, n) := FirstToken(s, groups, stack);
      [t] + Compile(s[n..], GroupsAfter(t, groups), StackAfter(t, stack))
  }

  /**
    Every bracket expression is closed and every backslash has its character.  On other texts
    compile_single steps past the terminator, or leaves a token without a type.
   */
  predicate Terminated(s: string)
    decreases |s|
  {
    s == "" || (TokenEnds(s) && Terminated(s[FirstToken(s, 0, []).1..]))
  }

  predicate TokenEnds(s: string)
    requires s != ""
  {
    if s[0] == '\\' then |s| >= 2 else if s[0] == '[' then BracketCloses(s[1..]) else true
  }

  lemma TokenLength(s: string, groups: nat, stack: seq<nat>)
    requires s != ""
    ensures FirstToken(s, groups, stack).1 == FirstToken(s, 0, []).1
  {
  }

  /** The number of groups a token list opens. */
  function Opened(p: seq<Token>): nat {
    if p == [] then 0 else GroupsAfter(p[0], Opened(p[1..]))
  }

  lemma {:induction false} OpenedAppend(p: seq<Token>, t: Token)
    ensures Opened(p + [t]) == GroupsAfter(t, Opened(p))
  {
    if p == [] {
      assert p + [t] == [t];
    } else {
      OpenedAppend(p[1..], t);
      assert (p + [t])[1..] == p[1..] + [t];
    }
  }

  // ---------------------------------------------------------------------------------------
  // The routine

  method ScanBracket(pattern: string, i: nat) returns (e: nat, copied: nat, closed: bool)
    requires i < |pattern| && pattern[i] == '['
    ensures e == i + 1 + BracketLen(pattern[i + 1..]) <= |pattern|
    ensures copied <= e - i && (closed <==> BracketCloses(pattern[i + 1..]))
  {
    hide BracketLen, PosixLen, BracketCloses;
    e, copied := i + 1, 0;
    var open := true;
    while e < |pattern| && open
      invariant i < e <= |pattern| && copied <= e - i - 1
      invariant i + 1 + BracketLen(pattern[i + 1..]) == if open then e + BracketLen(pattern[e..]) else e
      invariant BracketCloses(pattern[i + 1..]) <==> !open || BracketCloses(pattern[e..])
      decreases |pattern| - e
    {
      BracketStep(pattern, e);
      if pattern[e] == '\\' && e + 1 < |pattern| {
        e, copied := e + 2, copied + 2;
      } else if pattern[e] == '[' && e + 1 < |pattern| && pattern[e + 1] == ':' {
        var p := ScanPosix(pattern, e + 1);
        copied := copied + (p - e);
        e := p;
      } else if pattern[e] == ']' {
        e, open := e + 1, false;
      } else {
        e, copied := e + 1, copied + 1;
      }
    }
    copied, closed := copied + 1, !open;
    BracketNothing(pattern, e);
  }

  lemma BracketNothing(p: string, e: nat)
    requires e <= |p|
    ensures e == |p| ==> BracketLen(p[e..]) == 0 && !BracketCloses(p[e..])
  {
  }

  lemma BracketStep(p: string, e: nat)
    requires e < |p|
    ensures BracketLen(p[e..]) ==
            if p[e] == '\\' && e + 1 < |p| then 2 + BracketLen(p[e + 2..])
            else if p[e] == '[' && e + 1 < |p| && p[e + 1] == ':' then
              1 + PosixLen(p[e + 1..]) + BracketLen(p[e + 1 + PosixLen(p[e + 1..])..])
            else if p[e] == ']' then 1
            else 1 + BracketLen(p[e + 1..])
    ensures BracketCloses(p[e..]) <==>
            if p[e] == '\\' && e + 1 < |p| then BracketCloses(p[e + 2..])
            else if p[e] == '[' && e + 1 < |p| && p[e + 1] == ':' then BracketCloses(p[e + 1 + PosixLen(p[e + 1..])..])
            else p[e] == ']' || BracketCloses(p[e + 1..])
  {
    var s := p[e..];
    assert s[1..] == p[e + 1..];
    if e + 1 < |p| {
      assert s[2..] == p[e + 2..];
      var n := 1 + PosixLen(s[1..]);
      assert s[n..] == p[e + n..];
    }
  }

  method ScanPosix(pattern: string, i: nat) returns (e: nat)
    requires i < |pattern|
    ensures e == i + PosixLen(pattern[i..]) <= |pattern|
  {
    e := i;
    while e < |pattern| && !(pattern[e] == ':' && e + 1 < |pattern| && pattern[e + 1] == ']')
      invariant i <= e <= |pattern|
      invariant i + PosixLen(pattern[i..]) == e + PosixLen(pattern[e..])
    {
      assert pattern[e..][1..] == pattern[e + 1..];
      e := e + 1;
    }
    if e < |pattern| {
      e := e + 2;
    }
  }

  /**
    The token list of one pattern, if it is terminated.  `cclIdx` is the fill of the class buffer, whose
    limit also ends the loop; the limit is never reached before the pattern is.
   */
  method CompileSingle(pattern: string) returns (pat: seq<Token>, groups: nat, ok: bool)
    ensures ok <==> Terminated(pattern)
    ensures ok ==> pat == Compile(pattern, 0, []) && groups == Opened(pat)
  {
    hide Compile, BracketLen, BracketCloses, Terminated, FirstToken, Opened;
    pat, groups, ok := [], 0, true;
    var i, stack: seq<nat>, cclIdx := 0, [], 1;
    NothingOpened();
    assert pattern[0..] == pattern;
    while i < |pattern|
      invariant 0 <= i <= |pattern| && 1 <= cclIdx <= i + 1
      invariant Terminated(pattern) <==> Terminated(pattern[i..])
      invariant Compile(pattern, 0, []) == pat + Compile(pattern[i..], groups, stack)
      invariant groups == Opened(pat)
      decreases |pattern| - i
    {
      CompileStep(pattern, i, groups, stack);
      var t, n, copied, ends := NextToken(pattern, i, groups, stack);
      if !ends {
        return pat, groups, false;
      }
      ghost var rest := Compile(pattern[i + n..], GroupsAfter(t, groups), StackAfter(t, stack));
      assert pat + ([t] + rest) == (pat + [t]) + rest;
      OpenedAppend(pat, t);
      groups, stack := GroupsAfter(t, groups), StackAfter(t, stack);
      pat := pat + [t];
      cclIdx := cclIdx + copied;
      i := i + n;
      if cclIdx + 1 >= |pattern| * 2 {
        break;
      }
    }
    assert pattern[i..] == "";
    CompileNothing(groups, stack);
  }

  /** One token: its text is copied to the class buffer if it is a bracket expression. */
  method NextToken(pattern: string, i: nat, groups: nat, stack: seq<nat>) returns (t: Token, n: nat, copied: nat, ends: bool)
    requires i < |pattern|
    ensures (t, n) == FirstToken(pattern[i..], groups, stack) && i + n <= |pattern| && n > 0 && copied <= n
    ensures ends <==> TokenEnds(pattern[i..])
  {
    hide BracketLen, BracketCloses;
    var s := pattern[i..];
    assert s[1..] == pattern[i + 1..];
    copied, ends := 0, true;
    if pattern[i] == '[' {
      var e;
      e, copied, ends := ScanBracket(pattern, i);
      assert s[..e - i] == pattern[i..e];
      t, n := Single(pattern[i..e]), e - i;
    } else {
      ends := pattern[i] != '\\' || i + 1 < |pattern|;
      var r := FirstToken(s, groups, stack);
      t, n := r.0, r.1;
    }
  }

  lemma CompileStep(p: string, i: nat, groups: nat, stack: seq<nat>)
    requires i < |p|
    ensures var r := FirstToken(p[i..], groups, stack);
            && Compile(p[i..], groups, stack) == [r.0] + Compile(p[i + r.1..], GroupsAfter(r.0, groups), StackAfter(r.0, stack))
            && (Terminated(p[i..]) <==> TokenEnds(p[i..]) && Terminated(p[i + r.1..]))
  {
    hide FirstToken, TokenEnds;
    var r := FirstToken(p[i..], groups, stack);
    TokenLength(p[i..], groups, stack);
    assert p[i..][r.1..] == p[i + r.1..];
  }

  lemma NothingOpened()
    ensures Opened([]) == 0
  {
  }

  lemma CompileNothing(groups: nat, stack: seq<nat>)
    ensures Compile("", groups, stack) == [] && Terminated("")
  {
  }

  // ---------------------------------------------------------------------------------------
  // Patterns whose meaning is that of their units: no anchors, back-references or nested brackets

  predicate NoBracketInside(b: string) {
    b == "" || (if b[0] == '\\' then |b| >= 2 && NoBracketInside(b[2..]) else b[0] != '[' && NoBracketInside(b[1..]))
  }

  predicate IsUnitText(t: string) {
    || (|t| == 1 && IsPlain(t[0]) && !IsQuantifierChar(t[0]) && t[0] != '^' && t[0] != '$')
    || (|t| == 2 && t[0] == '\\' && !('1' <= t[1] <= '9'))
    || (IsClass(t) && NoBracketInside(t[1..|t| - 1]))
  }

  /** Units, each perhaps with a quantifier. */
  ghost predicate IsClean(t: string)
    decreases |t|, 1
  {
    t == "" || exists k :: CleanCut(t, k)
  }

  ghost predicate CleanCut(t: string, k: int)
    decreases |t|, 0
  {
    && 0 < k <= |t| && IsUnitText(t[..k])
    && if k < |t| && IsQuantifierChar(t[k]) then IsClean(t[k + 1..]) else IsClean(t[k..])
  }

  function TimesOfChar(c: char): Times {
    if c == '*' then Any else if c == '+' then AtLeastOne else if c == '?' then Optional else Once
  }

  /** The units of a piece of text. */
  function TextUnits(t: string): seq<Unit>
    decreases |t|
  {
    if t == "" then [] else
      var n := FirstToken(t, 0, []).1;
      if n < |t| && IsQuantifierChar(t[n]) then [Unit(t[..n], TimesOfChar(t[n]))] + TextUnits(t[n + 1..])
      else [Unit(t[..n], Once)] + TextUnits(t[n..])
  }

  lemma {:induction false} BracketEnds(b: string, v: string)
    requires IsClassBody(b) && NoBracketInside(b)
    ensures BracketLen(b + "]" + v) == |b| + 1
    decreases |b|
  {
    var s := b + "]" + v;
    if b == "" {
    } else if b[0] == '\\' {
      assert s[2..] == b[2..] + "]" + v;
      BracketEnds(b[2..], v);
    } else {
      assert s[1..] == b[1..] + "]" + v;
      BracketEnds(b[1..], v);
    }
  }

  /** A unit's text compiles to one token, whatever follows. */
  lemma UnitToken(t: string, v: string, groups: nat, stack: seq<nat>)
    requires IsUnitText(t)
    ensures FirstToken(t + v, groups, stack) == (Single(t), |t|)
  {
    var s := t + v;
    assert s[..|t|] == t;
    if IsClass(t) {
      var b := t[1..|t| - 1];
      assert s[1..] == b + "]" + v;
      BracketEnds(b, v);
    }
  }

  predicate StartsQuantified(p: seq<Token>) {
    p != [] && IsQuantifier(p[0])
  }

  /** A token list that can follow a unit. */
  ghost predicate Continues(p: seq<Token>) {
    WellFormed(p) && !StartsQuantified(p)
  }

  lemma ConsUnit(t: string, rest: seq<Token>)
    requires Continues(rest)
    ensures Continues([Single(t)] + rest) && Units([Single(t)] + rest) == [Unit(t, Once)] + Units(rest)
    ensures EndAnchored([Single(t)] + rest) <==> EndAnchored(rest)
  {
    var p := [Single(t)] + rest;
    assert p[1..] == rest;
  }

  lemma ConsQuantifiedUnit(t: string, q: Token, rest: seq<Token>)
    requires Continues(rest) && IsQuantifier(q)
    ensures Continues([Single(t), q] + rest)
    ensures Units([Single(t), q] + rest) == [Unit(t, TimesOf(q))] + Units(rest)
    ensures EndAnchored([Single(t), q] + rest) <==> EndAnchored(rest)
  {
    var p := [Single(t), q] + rest;
    assert p[2..] == rest;
  }

  lemma QuantifierToken(c: char, v: string, groups: nat, stack: seq<nat>)
    requires IsQuantifierChar(c)
    ensures var t := FirstToken([c] + v, groups, stack);
            t.1 == 1 && IsQuantifier(t.0) && TimesOf(t.0) == TimesOfChar(c)
            && Compile([c] + v, groups, stack) == [t.0] + Compile(v, groups, stack)
  {
    assert ([c] + v)[1..] == v;
  }

  /** A backslash and a digit from 1 to 9 refer to the group of that number. */
  lemma CompileReference(k: nat, v: string, groups: nat, stack: seq<nat>)
    requires 1 <= k <= 9
    ensures Compile(['\\', "0123456789"[k]] + v, groups, stack) == [BackRef(k)] + Compile(v, groups, stack)
  {
    var c := "0123456789"[k];
    assert c as nat == '0' as nat + k;
    assert (['\\', c] + v)[2..] == v;
  }

  lemma CompileUnit(t: string, v: string, groups: nat, stack: seq<nat>)
    requires IsUnitText(t)
    ensures Compile(t + v, groups, stack) == [Single(t)] + Compile(v, groups, stack)
  {
    UnitToken(t, v, groups, stack);
    assert (t + v)[|t|..] == v && t + v != "";
  }

  /** A unit with its quantifier, and a unit without one, in front of any text. */
  lemma CompileQuantified(u: string, c: char, more: string, groups: nat, stack: seq<nat>)
    requires IsUnitText(u) && IsQuantifierChar(c) && Continues(Compile(more, groups, stack))
    ensures var p := Compile(u + ([c] + more), groups, stack);
            Continues(p) && Units(p) == [Unit(u, TimesOfChar(c))] + Units(Compile(more, groups, stack))
            && (EndAnchored(p) <==> EndAnchored(Compile(more, groups, stack)))
  {
    hide Compile, FirstToken, IsUnitText, WellFormed, Units;
    CompileUnit(u, [c] + more, groups, stack);
    QuantifierToken(c, more, groups, stack);
    var q := FirstToken([c] + more, groups, stack).0;
    ConsQuantifiedUnit(u, q, Compile(more, groups, stack));
    assert [Single(u)] + ([q] + Compile(more, groups, stack)) == [Single(u), q] + Compile(more, groups, stack);
  }

  lemma CompilePlain(u: string, more: string, groups: nat, stack: seq<nat>)
    requires IsUnitText(u) && Continues(Compile(more, groups, stack))
    ensures var p := Compile(u + more, groups, stack);
            Continues(p) && Units(p) == [Unit(u, Once)] + Units(Compile(more, groups, stack))
            && (EndAnchored(p) <==> EndAnchored(Compile(more, groups, stack)))
  {
    hide Compile, IsUnitText, WellFormed, Units;
    CompileUnit(u, more, groups, stack);
    ConsUnit(u, Compile(more, groups, stack));
  }

  lemma {:induction false} CompileText(t: string, v: string, groups: nat, stack: seq<nat>)
    requires IsClean(t) && Continues(Compile(v, groups, stack))
    ensures Continues(Compile(t + v, groups, stack))
    ensures Units(Compile(t + v, groups, stack)) == TextUnits(t) + Units(Compile(v, groups, stack))
    ensures EndAnchored(Compile(t + v, groups, stack)) <==> EndAnchored(Compile(v, groups, stack))
    decreases |t|
  {
    hide Compile, IsUnitText, WellFormed, Units, TextUnits;
    if t == "" {
      assert t + v == v;
      TextUnitsNothing();
    } else {
      var k: int :| CleanCut(t, k);
      var u := t[..k];
      TextUnitsStep(t, k);
      if k < |t| && IsQuantifierChar(t[k]) {
        var rest := t[k + 1..];
        assert t + v == u + ([t[k]] + (rest + v));
        CompileText(rest, v, groups, stack);
        CompileQuantified(u, t[k], rest + v, groups, stack);
      } else {
        var rest := t[k..];
        assert t + v == u + (rest + v);
        CompileText(rest, v, groups, stack);
        CompilePlain(u, rest + v, groups, stack);
      }
    }
  }

  lemma TextUnitsNothing()
    ensures TextUnits("") == []
  {
  }

  lemma TextUnitsStep(t: string, k: int)
    requires 0 < k <= |t| && IsUnitText(t[..k])
    ensures TextUnits(t) ==
            if k < |t| && IsQuantifierChar(t[k]) then [Unit(t[..k], TimesOfChar(t[k]))] + TextUnits(t[k + 1..])
            else [Unit(t[..k], Once)] + TextUnits(t[k..])
  {
    hide FirstToken, IsUnitText;
    UnitToken(t[..k], t[k..], 0, []);
    assert t[..k] + t[k..] == t;
  }

  // ---------------------------------------------------------------------------------------
  // A pattern without alternation compiles to the units of its texts

  ghost predicate CleanItems(s: Items) {
    match s
    case Nil => true
    case Text(t, rest) => IsClean(t) && CleanItems(rest)
    case Group(body, rest) => CleanAlts(body) && CleanItems(rest)
  }

  ghost predicate CleanAlts(a: Alts) {
    match a
    case One(s) => CleanItems(s)
    case Bar(s, more) => CleanItems(s) && CleanAlts(more)
  }

  function GroupCount(s: Items): nat
    requires Flat(s)
  {
    match s
    case Nil => 0
    case Text(_, rest) => GroupCount(rest)
    case Group(body, rest) => 1 + GroupCount(body.s) + GroupCount(rest)
  }

  function ItemUnits(s: Items): seq<Unit>
    requires Flat(s)
  {
    match s
    case Nil => []
    case Text(t, rest) => TextUnits(t) + ItemUnits(rest)
    case Group(body, rest) => ItemUnits(body.s) + ItemUnits(rest)
  }

  lemma CompileParens(v: string, groups: nat, stack: seq<nat>, g: nat)
    ensures groups < 9 ==>
              Compile("(" + v, groups, stack) == [CapOpen(groups + 1)] + Compile(v, groups + 1, stack + [groups + 1])
    ensures Compile(")" + v, groups, stack + [g]) == [CapClose(g)] + Compile(v, groups, stack)
  {
    assert ("(" + v)[1..] == v && (")" + v)[1..] == v;
    assert (stack + [g])[..|stack|] == stack;
  }

  lemma ConsCapture(t: Token, rest: seq<Token>)
    requires Continues(rest) && (t.CapOpen? || t.CapClose?)
    ensures Continues([t] + rest) && Units([t] + rest) == Units(rest) && (EndAnchored([t] + rest) <==> EndAnchored(rest))
  {
    var p := [t] + rest;
    assert p[1..] == rest;
  }

  lemma {:induction false} CompileItems(x: Items, v: string, groups: nat, stack: seq<nat>)
    requires Flat(x) && CleanItems(x) && groups + GroupCount(x) <= 9
    requires Continues(Compile(v, groups + GroupCount(x), stack))
    ensures Continues(Compile(PrintItems(x) + v, groups, stack))
    ensures Units(Compile(PrintItems(x) + v, groups, stack))
         == ItemUnits(x) + Units(Compile(v, groups + GroupCount(x), stack))
    ensures EndAnchored(Compile(PrintItems(x) + v, groups, stack)) <==> EndAnchored(Compile(v, groups + GroupCount(x), stack))
    decreases x
  {
    hide Compile, IsClean, WellFormed, Units, TextUnits;
    match x
    case Nil =>
      assert PrintItems(x) + v == v;
    case Text(t, rest) =>
      CompileItems(rest, v, groups, stack);
      assert PrintItems(x) + v == t + (PrintItems(rest) + v);
      CompileText(t, PrintItems(rest) + v, groups, stack);
    case Group(body, rest) =>
      var after := groups + 1 + GroupCount(body.s);
      var tail := PrintItems(rest) + v;
      CompileItems(rest, v, after, stack);
      CloseGroup(tail, after, stack, groups + 1);
      CompileItems(body.s, ")" + tail, groups + 1, stack + [groups + 1]);
      OpenGroup(PrintItems(body.s) + (")" + tail), groups, stack);
      GroupInFront(body, rest, v);
      assert ItemUnits(body.s) + (ItemUnits(rest) + Units(Compile(v, after + GroupCount(rest), stack)))
          == ItemUnits(x) + Units(Compile(v, after + GroupCount(rest), stack));
      hide PrintItems, ItemUnits, GroupCount;
  }

  lemma GroupInFront(body: Alts, rest: Items, v: string)
    requires body.One?
    ensures PrintItems(Group(body, rest)) + v == "(" + (PrintItems(body.s) + (")" + (PrintItems(rest) + v)))
  {
  }

  lemma CloseGroup(tail: string, groups: nat, stack: seq<nat>, g: nat)
    requires Continues(Compile(tail, groups, stack))
    ensures Continues(Compile(")" + tail, groups, stack + [g]))
    ensures Units(Compile(")" + tail, groups, stack + [g])) == Units(Compile(tail, groups, stack))
    ensures EndAnchored(Compile(")" + tail, groups, stack + [g])) <==> EndAnchored(Compile(tail, groups, stack))
  {
    CompileParens(tail, groups, stack, g);
    ConsCapture(CapClose(g), Compile(tail, groups, stack));
  }

  lemma OpenGroup(inner: string, groups: nat, stack: seq<nat>)
    requires groups < 9 && Continues(Compile(inner, groups + 1, stack + [groups + 1]))
    ensures Continues(Compile("(" + inner, groups, stack))
    ensures Units(Compile("(" + inner, groups, stack)) == Units(Compile(inner, groups + 1, stack + [groups + 1]))
    ensures EndAnchored(Compile("(" + inner, groups, stack)) <==> EndAnchored(Compile(inner, groups + 1, stack + [groups + 1]))
  {
    CompileParens(inner, groups, stack, 0);
    ConsCapture(CapOpen(groups + 1), Compile(inner, groups + 1, stack + [groups + 1]));
  }

  lemma CompilePattern(x: Items)
    requires Flat(x) && CleanItems(x) && GroupCount(x) <= 9
    ensures var p := Compile(PrintItems(x), 0, []); Continues(p) && Units(p) == ItemUnits(x) && !EndAnchored(p)
  {
    hide IsClean, TextUnits;
    CompileNothing(GroupCount(x), []);
    CompileItems(x, "", 0, []);
    assert PrintItems(x) + "" == PrintItems(x);
    assert ItemUnits(x) + Units([]) == ItemUnits(x);
  }

  // ---------------------------------------------------------------------------------------
  // The meaning of a text is the language of its units

  ghost function TextMeaning(m: MatchOne): Meaning {
    (t: string, w: string) => InLanguage(m, TextUnits(t), w)
  }

  /** What a unit and a unit with each quantifier mean. */
  lemma UnitMeans(m: MatchOne, u: string, w: string)
    requires IsUnitText(u)
    ensures TextMeaning(m)(u, w) <==> |w| == 1 && AllMatch(m, u, w)
    ensures TextMeaning(m)(u + "?", w) <==> |w| <= 1 && AllMatch(m, u, w)
    ensures TextMeaning(m)(u + "*", w) <==> AllMatch(m, u, w)
    ensures TextMeaning(m)(u + "+", w) <==> |w| >= 1 && AllMatch(m, u, w)
  {
    hide InLanguage, IsUnitText, AllMatch, TextUnits;
    UnitNotEmpty(u);
    QuantifiedUnits(u, '?');
    QuantifiedUnits(u, '*');
    QuantifiedUnits(u, '+');
    assert u[..|u|] == u && u[|u|..] == "";
    TextUnitsStep(u, |u|);
    TextUnitsNothing();
    assert [Unit(u, Once)] + [] == [Unit(u, Once)];
    SingleUnit(m, Unit(u, Once), w);
    SingleUnit(m, Unit(u, Optional), w);
    SingleUnit(m, Unit(u, Any), w);
    SingleUnit(m, Unit(u, AtLeastOne), w);
  }

  lemma QuantifiedUnits(u: string, c: char)
    requires IsUnitText(u) && IsQuantifierChar(c)
    ensures TextUnits(u + [c]) == [Unit(u, TimesOfChar(c))]
  {
    hide IsUnitText, TextUnits;
    UnitNotEmpty(u);
    var t := u + [c];
    assert t[..|u|] == u && t[|u|] == c && t[|u| + 1..] == "";
    TextUnitsStep(t, |u|);
    TextUnitsNothing();
  }

  lemma SingleUnit(m: MatchOne, u: Unit, w: string)
    ensures InLanguage(m, [u], w) <==> UnitAccepts(m, u, w)
  {
    hide InLanguage, UnitAccepts;
    assert [u] + [] == [u];
    ConsLanguage(m, u, [], w);
    forall k | 0 <= k <= |w|
      ensures InLanguage(m, [], w[k..]) <==> k == |w|
    {
      EmptyLanguage(m, w[k..]);
    }
    assert w[..|w|] == w;
  }

  ghost predicate SplitLanguage(m: MatchOne, us: seq<Unit>, vs: seq<Unit>, w: string) {
    exists k :: 0 <= k <= |w| && InLanguage(m, us, w[..k]) && InLanguage(m, vs, w[k..])
  }

  lemma {:induction false} ConcatLanguage(m: MatchOne, us: seq<Unit>, vs: seq<Unit>, w: string)
    ensures InLanguage(m, us + vs, w) <==> SplitLanguage(m, us, vs, w)
    decreases |us|
  {
    if us == [] {
      assert us + vs == vs;
      EmptyLanguage(m, w[..0]);
      assert w[0..] == w;
      forall k | 0 <= k <= |w| && InLanguage(m, us, w[..k])
        ensures k == 0
      {
        EmptyLanguage(m, w[..k]);
      }
    } else {
      ConcatForward(m, us, vs, w);
      ConcatBackward(m, us, vs, w);
    }
  }

  lemma {:induction false} ConcatForward(m: MatchOne, us: seq<Unit>, vs: seq<Unit>, w: string)
    requires us != []
    ensures InLanguage(m, us + vs, w) ==> SplitLanguage(m, us, vs, w)
    decreases |us|, 0
  {
    hide InLanguage, UnitAccepts;
    if InLanguage(m, us + vs, w) {
      var u, rest := us[0], us[1..];
      assert us + vs == [u] + (rest + vs) && us == [u] + rest;
      ConsLanguage(m, u, rest + vs, w);
      var k :| 0 <= k <= |w| && UnitAccepts(m, u, w[..k]) && InLanguage(m, rest + vs, w[k..]);
      ConcatLanguage(m, rest, vs, w[k..]);
      var n :| 0 <= n <= |w[k..]| && InLanguage(m, rest, w[k..][..n]) && InLanguage(m, vs, w[k..][n..]);
      var front := w[..k + n];
      assert front[..k] == w[..k] && front[k..] == w[k..][..n] && w[k + n..] == w[k..][n..];
      ConsLanguage(m, u, rest, front);
      assert InLanguage(m, us, front);
    }
  }

  lemma {:induction false} ConcatBackward(m: MatchOne, us: seq<Unit>, vs: seq<Unit>, w: string)
    requires us != []
    ensures SplitLanguage(m, us, vs, w) ==> InLanguage(m, us + vs, w)
    decreases |us|, 0
  {
    hide InLanguage, UnitAccepts;
    if SplitLanguage(m, us, vs, w) {
      var u, rest := us[0], us[1..];
      assert us + vs == [u] + (rest + vs) && us == [u] + rest;
      var n :| 0 <= n <= |w| && InLanguage(m, us, w[..n]) && InLanguage(m, vs, w[n..]);
      var front := w[..n];
      ConsLanguage(m, u, rest, front);
      var k :| 0 <= k <= |front| && UnitAccepts(m, u, front[..k]) && InLanguage(m, rest, front[k..]);
      var back := w[k..];
      assert front[..k] == w[..k] && front[k..] == back[..n - k] && w[n..] == back[n - k..];
      ConcatLanguage(m, rest, vs, back);
      assert SplitLanguage(m, rest, vs, back);
      ConsLanguage(m, u, rest + vs, w);
    }
  }

  lemma {:induction false} ItemsLanguage(m: MatchOne, x: Items, w: string)
    requires Flat(x)
    ensures InItems(TextMeaning(m), x, w) <==> InLanguage(m, ItemUnits(x), w)
    decreases x
  {
    hide InLanguage, TextUnits;
    match x
    case Nil => EmptyLanguage(m, w);
    case Text(t, rest) =>
      ConcatLanguage(m, TextUnits(t), ItemUnits(rest), w);
      forall k | 0 <= k <= |w|
        ensures InItems(TextMeaning(m), rest, w[k..]) <==> InLanguage(m, ItemUnits(rest), w[k..])
      {
        ItemsLanguage(m, rest, w[k..]);
      }
    case Group(body, rest) =>
      ConcatLanguage(m, ItemUnits(body.s), ItemUnits(rest), w);
      forall k | 0 <= k <= |w|
        ensures InItems(TextMeaning(m), rest, w[k..]) <==> InLanguage(m, ItemUnits(rest), w[k..])
        ensures InAlts(TextMeaning(m), body, w[..k]) <==> InLanguage(m, ItemUnits(body.s), w[..k])
      {
        ItemsLanguage(m, rest, w[k..]);
        ItemsLanguage(m, body.s, w[..k]);
      }
  }

  // ---------------------------------------------------------------------------------------
  // From the pattern to the answer

  ghost predicate AllClean(xs: seq<Items>) {
    forall i :: 0 <= i < |xs| ==> CleanItems(xs[i])
  }

  lemma {:induction false} ExpansionIsClean(a: Alts)
    requires CleanAlts(a)
    ensures AllClean(ExpandAlts(a))
    decreases a
  {
    match a
    case One(s) => ItemsExpansionIsClean(s);
    case Bar(s, more) => ItemsExpansionIsClean(s); ExpansionIsClean(more);
  }

  lemma {:induction false} ItemsExpansionIsClean(s: Items)
    requires CleanItems(s)
    ensures AllClean(ExpandItems(s))
    decreases s
  {
    match s
    case Nil =>
    case Text(t, rest) => ItemsExpansionIsClean(rest);
    case Group(body, rest) =>
      ExpansionIsClean(body);
      ItemsExpansionIsClean(rest);
      WithGroupsClean(ExpandAlts(body), ExpandItems(rest));
  }

  lemma {:induction false} WithGroupsClean(gs: seq<Items>, xs: seq<Items>)
    requires AllClean(gs) && AllClean(xs)
    ensures AllClean(WithGroups(gs, xs))
  {
    if gs != [] {
      WithGroupsClean(gs[1..], xs);
    }
  }

  /** The patterns of regcomp's scope: read rightly, clean, at most nine groups in every alternative. */
  ghost predicate Supported(a: Alts) {
    && SameReading(a) && CleanAlts(a)
    && forall i :: 0 <= i < |ExpandAlts(a)| ==> Flat(ExpandAlts(a)[i]) && GroupCount(ExpandAlts(a)[i]) <= 9
  }

  // The same on the text of a pattern

  /** A unit, perhaps with a quantifier. */
  predicate IsPiece(t: string) {
    IsUnitText(t) || (|t| >= 2 && IsQuantifierChar(t[|t| - 1]) && IsUnitText(t[..|t| - 1]))
  }

  predicate PieceItems(s: Items) {
    match s
    case Nil => true
    case Text(t, rest) => IsPiece(t) && PieceItems(rest)
    case Group(body, rest) => PieceAlts(body) && PieceItems(rest)
  }

  predicate PieceAlts(a: Alts) {
    match a
    case One(s) => PieceItems(s)
    case Bar(s, more) => PieceItems(s) && PieceAlts(more)
  }

  /** The largest number of groups in an alternative. */
  function MostGroups(s: Items): nat {
    match s
    case Nil => 0
    case Text(_, rest) => MostGroups(rest)
    case Group(body, rest) => 1 + MostGroupsOf(body) + MostGroups(rest)
  }

  function MostGroupsOf(a: Alts): nat {
    match a
    case One(s) => MostGroups(s)
    case Bar(s, more) => if MostGroups(s) < MostGroupsOf(more) then MostGroupsOf(more) else MostGroups(s)
  }

  /**
    Balanced, every group ends for expand_alts where it ends by the grammar, every quantifier stands
    behind a unit, no anchors and back-references, at most nine groups in every alternative.
   */
  predicate SupportedText(s: string) {
    && Balanced(s, 0)
    && var a := Reading(s); SameReading(a) && PieceAlts(a) && MostGroupsOf(a) <= 9
  }

  lemma PieceIsClean(t: string)
    requires IsPiece(t)
    ensures IsClean(t)
  {
    hide IsUnitText;
    var k := if IsUnitText(t) then |t| else |t| - 1;
    assert t[..|t|] == t && t[|t|..] == "";
    UnitNotEmpty(t[..k]);
    assert IsClean("");
    assert CleanCut(t, k);
  }

  lemma UnitNotEmpty(t: string)
    requires IsUnitText(t)
    ensures t != ""
  {
  }

  lemma {:induction false} PiecesAreClean(a: Alts)
    requires PieceAlts(a)
    ensures CleanAlts(a)
    decreases a
  {
    match a
    case One(s) => ItemPiecesAreClean(s);
    case Bar(s, more) => ItemPiecesAreClean(s); PiecesAreClean(more);
  }

  lemma {:induction false} ItemPiecesAreClean(s: Items)
    requires PieceItems(s)
    ensures CleanItems(s)
    decreases s
  {
    hide IsPiece, IsClean;
    match s
    case Nil =>
    case Text(t, rest) => PieceIsClean(t); ItemPiecesAreClean(rest);
    case Group(body, rest) => PiecesAreClean(body); ItemPiecesAreClean(rest);
  }

  ghost predicate GroupsWithin(xs: seq<Items>, n: nat) {
    forall i :: 0 <= i < |xs| ==> Flat(xs[i]) && GroupCount(xs[i]) <= n
  }

  lemma {:induction false} GroupsOfExpansion(a: Alts)
    ensures GroupsWithin(ExpandAlts(a), MostGroupsOf(a))
    decreases a
  {
    match a
    case One(s) => GroupsOfItems(s);
    case Bar(s, more) => GroupsOfItems(s); GroupsOfExpansion(more);
  }

  lemma {:induction false} GroupsOfItems(s: Items)
    ensures GroupsWithin(ExpandItems(s), MostGroups(s))
    decreases s
  {
    match s
    case Nil =>
    case Text(t, rest) => GroupsOfItems(rest);
    case Group(body, rest) =>
      GroupsOfExpansion(body);
      GroupsOfItems(rest);
      WithGroupsWithin(ExpandAlts(body), ExpandItems(rest), MostGroupsOf(body), MostGroups(rest));
  }

  lemma {:induction false} WithGroupsWithin(gs: seq<Items>, xs: seq<Items>, m: nat, n: nat)
    requires GroupsWithin(gs, m) && GroupsWithin(xs, n)
    ensures GroupsWithin(WithGroups(gs, xs), 1 + m + n)
  {
    if gs != [] {
      WithGroupsWithin(gs[1..], xs, m, n);
    }
  }

  lemma SupportedIfText(s: string)
    requires SupportedText(s)
    ensures Supported(Reading(s)) && PrintAlts(Reading(s)) == s
  {
    hide Balanced, Reading, SameReading, MostGroupsOf, PieceAlts, CleanAlts, ExpandAlts, GroupCount;
    ReadingPrints(s);
    PiecesAreClean(Reading(s));
    GroupsOfExpansion(Reading(s));
  }

  /** The token lists of the expanded patterns. */
  function CompileAll(pats: seq<string>): (r: seq<seq<Token>>)
    ensures |r| == |pats| && forall i :: 0 <= i < |pats| ==> r[i] == Compile(pats[i], 0, [])
  {
    seq(|pats|, i requires 0 <= i < |pats| => Compile(pats[i], 0, []))
  }

  ghost predicate AllTerminated(pats: seq<string>) {
    forall i :: 0 <= i < |pats| ==> Terminated(pats[i])
  }

  /** The groups of the last alternative, which is what regcomp reports as re_nsub. */
  function LastOpened(alts: seq<seq<Token>>): nat {
    if alts == [] then 0 else Opened(alts[|alts| - 1])
  }

  method CompileList(pats: seq<string>) returns (alts: seq<seq<Token>>, nsub: nat, ok: bool)
    ensures ok <==> AllTerminated(pats)
    ensures ok ==> alts == CompileAll(pats) && nsub == LastOpened(alts)
  {
    hide Compile, Terminated, CompileAll, Opened;
    alts, nsub, ok := [], 0, true;
    for i := 0 to |pats|
      invariant ok && nsub == LastOpened(alts) && |alts| == i && forall k :: 0 <= k < i ==> Terminated(pats[k]) && alts[k] == Compile(pats[k], 0, [])
    {
      var pat;
      pat, nsub, ok := CompileSingle(pats[i]);
      if !ok {
        return;
      }
      alts := alts + [pat];
    }
    assert alts == CompileAll(pats);
  }

  /** regcomp: ranges, then alternation, then tokens, if every alternative is terminated. */
  method Regcomp(pattern: string) returns (alts: seq<seq<Token>>, nsub: nat, ok: bool)
    ensures ok <==> AllTerminated(ExpandText(RegexRanges.ExpandRanges(pattern)))
    ensures ok ==> alts == CompileAll(ExpandText(RegexRanges.ExpandRanges(pattern))) && nsub == LastOpened(alts)
  {
    hide ExpandText, CompileAll, AllTerminated;
    var expanded := RegexRanges.ExpandRangesText(pattern);
    var pats := ExpandAltsInto(expanded);
    alts, nsub, ok := CompileList(pats);
  }

  // Clean patterns are terminated

  lemma {:induction false} ClassBodyCloses(b: string, v: string)
    requires IsClassBody(b) && NoBracketInside(b)
    ensures BracketCloses(b + "]" + v)
    decreases |b|
  {
    var s := b + "]" + v;
    if b == "" {
    } else if b[0] == '\\' {
      assert s[2..] == b[2..] + "]" + v;
      ClassBodyCloses(b[2..], v);
    } else {
      assert s[1..] == b[1..] + "]" + v;
      ClassBodyCloses(b[1..], v);
    }
  }

  lemma UnitTerminates(t: string, v: string)
    requires IsUnitText(t)
    ensures t != "" && (Terminated(t + v) <==> Terminated(v))
  {
    hide BracketCloses;
    var s := t + v;
    UnitToken(t, v, 0, []);
    assert s[|t|..] == v;
    if IsClass(t) {
      var b := t[1..|t| - 1];
      assert s[1..] == b + "]" + v;
      ClassBodyCloses(b, v);
    }
  }

  lemma CharTerminates(c: char, v: string)
    requires IsQuantifierChar(c) || c == '(' || c == ')'
    ensures Terminated([c] + v) <==> Terminated(v)
  {
    assert ([c] + v)[1..] == v;
  }

  lemma {:induction false} CleanTextTerminates(t: string, v: string)
    requires IsClean(t)
    ensures Terminated(t + v) <==> Terminated(v)
    decreases |t|
  {
    hide Terminated, IsUnitText;
    if t == "" {
      assert t + v == v;
    } else {
      var k: int :| CleanCut(t, k);
      if k < |t| && IsQuantifierChar(t[k]) {
        var rest := t[k + 1..];
        assert t + v == t[..k] + ([t[k]] + (rest + v));
        UnitTerminates(t[..k], [t[k]] + (rest + v));
        CharTerminates(t[k], rest + v);
        CleanTextTerminates(rest, v);
      } else {
        assert t + v == t[..k] + (t[k..] + v);
        UnitTerminates(t[..k], t[k..] + v);
        CleanTextTerminates(t[k..], v);
      }
    }
  }

  lemma {:induction false} CleanItemsTerminate(x: Items, v: string)
    requires Flat(x) && CleanItems(x)
    ensures Terminated(PrintItems(x) + v) <==> Terminated(v)
    decreases x
  {
    hide Terminated, IsClean;
    match x
    case Nil => assert PrintItems(x) + v == v;
    case Text(t, rest) =>
      CleanItemsTerminate(rest, v);
      assert PrintItems(x) + v == t + (PrintItems(rest) + v);
      CleanTextTerminates(t, PrintItems(rest) + v);
    case Group(body, rest) =>
      var tail := PrintItems(rest) + v;
      CleanItemsTerminate(rest, v);
      CharTerminates(')', tail);
      CleanItemsTerminate(body.s, ")" + tail);
      CharTerminates('(', PrintItems(body.s) + (")" + tail));
      GroupInFront(body, rest, v);
  }

  lemma ExpansionTerminates(xs: seq<Items>)
    requires AllClean(xs) && forall i :: 0 <= i < |xs| ==> Flat(xs[i])
    ensures AllTerminated(PrintAll(xs))
  {
    hide Terminated, CleanItems, Flat;
    CompileNothing(0, []);
    forall i | 0 <= i < |xs|
      ensures Terminated(PrintItems(xs[i]))
    {
      CleanItemsTerminate(xs[i], "");
      assert PrintItems(xs[i]) + "" == PrintItems(xs[i]);
    }
  }

  /** A compiled alternative matches at i iff some substring from i on is in the branch's language. */
  lemma AlternativeMeaning(m: MatchOne, x: Items, text: string, i: nat)
    requires Flat(x) && CleanItems(x) && GroupCount(x) <= 9 && i <= |text|
    ensures WellFormedAlternative(Compile(PrintItems(x), 0, []))
    ensures MatchesAt(m, Compile(PrintItems(x), 0, []), text, i) <==>
            exists j :: i <= j <= |text| && InItems(TextMeaning(m), x, text[i..j])
  {
    hide Compile, IsClean, InLanguage, Units, TextMeaning, TextUnits;
    CompilePattern(x);
    var p := Compile(PrintItems(x), 0, []);
    assert !EndAnchored(p);
    forall j | i <= j <= |text|
      ensures InItems(TextMeaning(m), x, text[i..j]) <==> MatchEnds(m, p, text, i, j)
    {
      ItemsLanguage(m, x, text[i..j]);
    }
    assert p != [] ==> !p[0].Begin?;
  }

  /** Compiling and searching with a pattern of which a supported reading is known. */
  method SearchReading(m: MatchOne, pattern: string, text: string, ghost a: Alts) returns (pos: int)
    requires Supported(a) && PrintAlts(a) == RegexRanges.ExpandRanges(pattern)
    ensures pos < 0 <==> forall i, j :: 0 <= i <= j <= |text| ==> !InAlts(TextMeaning(m), a, text[i..j])
    ensures pos >= 0 ==> exists j :: pos <= j <= |text| && InAlts(TextMeaning(m), a, text[pos..j])
  {
    var alts, _, ok := Regcomp(pattern);
    ghost var xs := ExpandAlts(a);
    RightIfSameReading(a);
    ExpansionIsClean(a);
    ExpansionTerminates(xs);
    hide ExpandText, Compile, CleanItems, GroupCount, ExpandAlts, SameReading;
    forall k | 0 <= k < |xs|
      ensures WellFormedAlternative(alts[k])
    {
      AlternativeMeaning(m, xs[k], "", 0);
    }
    ghost var which;
    pos, which := Regexec(m, alts, text);
    SearchMeaning(m, a, xs, alts, text, pos, which);
  }

  /**
    Compiling a pattern that is supported once its ranges are written out (RegexRanges.NoBraceUnchanged
    covers patterns without ranges) and searching with the result finds a match exactly if some
    substring of the text is in the pattern's language, and the reported start begins one.
   */
  method SearchPattern(m: MatchOne, pattern: string, text: string) returns (pos: int)
    requires SupportedText(RegexRanges.ExpandRanges(pattern))
    ensures var a := Reading(RegexRanges.ExpandRanges(pattern));
            && (pos < 0 <==> forall i, j :: 0 <= i <= j <= |text| ==> !InAlts(TextMeaning(m), a, text[i..j]))
            && (pos >= 0 ==> exists j :: pos <= j <= |text| && InAlts(TextMeaning(m), a, text[pos..j]))
  {
    hide Reading, Supported, InAlts, TextMeaning;
    SupportedIfText(RegexRanges.ExpandRanges(pattern));
    pos := SearchReading(m, pattern, text, Reading(RegexRanges.ExpandRanges(pattern)));
  }

  lemma SearchMeaning(m: MatchOne, a: Alts, xs: seq<Items>, alts: seq<seq<Token>>, text: string, pos: int, which: nat)
    requires Supported(a) && xs == ExpandAlts(a) && AllClean(xs) && alts == CompileAll(PrintAll(xs))
    requires forall k :: 0 <= k < |alts| ==> WellFormedAlternative(alts[k])
    requires pos == -1 || 0 <= pos <= |text|
    requires pos < 0 <==> forall k :: 0 <= k < |alts| ==> !MatchesSomewhere(m, alts[k], text)
    requires pos >= 0 ==> which < |alts| && MatchesAt(m, alts[which], text, pos)
    ensures pos < 0 <==> forall i, j :: 0 <= i <= j <= |text| ==> !InAlts(TextMeaning(m), a, text[i..j])
    ensures pos >= 0 ==> exists j :: pos <= j <= |text| && InAlts(TextMeaning(m), a, text[pos..j])
  {
    hide Compile, CleanItems, GroupCount, ExpandAlts, MatchesAt, WellFormedAlternative, TextMeaning, SameReading;
    var meaning := TextMeaning(m);
    forall w: string
      ensures InAlts(meaning, a, w) <==> InSome(meaning, xs, w)
    {
      ExpansionPreservesMeaning(meaning, a, w);
    }
    if pos >= 0 {
      AlternativeMeaning(m, xs[which], text, pos);
      var j :| pos <= j <= |text| && InItems(meaning, xs[which], text[pos..j]);
      assert InSome(meaning, xs, text[pos..j]);
    } else {
      forall i, j | 0 <= i <= j <= |text|
        ensures !InAlts(meaning, a, text[i..j])
      {
        forall k | 0 <= k < |xs|
          ensures !InItems(meaning, xs[k], text[i..j])
        {
          AlternativeMeaning(m, xs[k], text, i);
          assert !MatchesSomewhere(m, alts[k], text);
          assert !MatchesAt(m, alts[k], text, i);
        }
      }
    }
  }
}
