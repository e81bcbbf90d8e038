/**
  A pattern that `expand_alts` reads differently from its grammar and expands rightly all the same:
  in ([)](([(])()|)) the group at the bar ends one parenthesis late, and the parenthesis lost there is
  made up for by one that an empty group adds.
 */
module RegexCoincidence {
  import opened RegexAlternation
  import opened RegexExpand
  import opened RegexReading

  /** The branch ([(])() of the inner group. */
  function Inner(): Items {
    Group(One(Text("[(]", Nil)), Group(One(Nil), Nil))
  }

  /** ([)](([(])()|)) by the grammar. */
  function Pattern(): Alts {
    One(Group(One(Text("[)]", Group(Bar(Inner(), One(Nil)), Nil))), Nil))
  }

  /** The inner branch for the routine: a group with the text [(])( */
  function InnerMisread(): Items {
    Group(One(Text("[(]", Text(")", Group(One(Nil), Nil)))), Nil)
  }

  function Misread(): Alts {
    One(Group(One(Text("[", Nil)), Text("]", Group(Bar(InnerMisread(), One(Text(")", Nil))), Nil))))
  }

  lemma Printed()
    ensures PrintItems(Inner()) == "([(])()"
    ensures PrintAlts(Pattern()) == "(" + ("[" + (")" + ("]" + ("(" + ("([(])()|)" + (")" + ""))))))
  {
    assert PrintItems(Nil) == "" && PrintAlts(One(Nil)) == "";
    assert PrintItems(Group(One(Nil), Nil)) == "()";
    assert PrintAlts(One(Text("[(]", Nil))) == "[(]";
    assert PrintItems(Inner()) == "(" + "[(]" + ")" + "()" == "([(])()";
    assert PrintAlts(Bar(Inner(), One(Nil))) == "([(])()" + "|" + "" == "([(])()|";
    var g := Group(Bar(Inner(), One(Nil)), Nil);
    assert PrintItems(g) == "(" + "([(])()|" + ")" + "";
    assert PrintItems(Text("[)]", g)) == "[)]" + PrintItems(g);
  }

  lemma BracketIsText(t: string)
    requires t == "[)]" || t == "[(]"
    ensures IsText(t)
  {
    assert t[1..2] == ")" || t[1..2] == "(";
    assert t[1..2][1..] == "";
    assert IsClassBody("");
    assert IsAtom(t);
    assert t[..3] == t && t[3..] == "";
  }

  lemma PatternGood()
    ensures GoodAlts(Pattern()) && GoodItems(Inner())
  {
    hide IsText;
    BracketIsText("[)]");
    BracketIsText("[(]");
    assert GoodItems(Nil) && GoodAlts(One(Nil));
    assert GoodItems(Group(One(Nil), Nil));
    assert GoodAlts(One(Text("[(]", Nil)));
    assert GoodItems(Inner());
    assert GoodAlts(Bar(Inner(), One(Nil)));
    assert GoodItems(Group(Bar(Inner(), One(Nil)), Nil));
    assert GoodItems(Text("[)]", Group(Bar(Inner(), One(Nil)), Nil)));
  }

  // The routine's reading

  /** Single characters that are text. */
  lemma CharRead(c: char, v: string)
    requires c != '\\' && c != '[' && c != '('
    ensures BranchReading([c] + v) == Text([c], BranchReading(v))
  {
    hide BranchReading;
    var s := [c] + v;
    PieceRead(s);
    assert s[..1] == [c] && s[1..] == v;
  }

  lemma OpenBracketRead()
    ensures GroupReading("[") == One(Text("[", Nil))
  {
    hide BranchReading, Split;
    NothingRead();
    NoBarReading("[");
    PieceRead("[");
    assert ClassLen("") == 0;
    assert "["[1..] == "" && "["[..1] == "[";
  }

  lemma BracketRead(v: string)
    ensures BranchReading("[(]" + v) == Text("[(]", BranchReading(v))
  {
    hide BranchReading;
    AtomRead("[(]", v) by {
      assert "[(]"[1..2] == "(" && "("[1..] == "" && IsClassBody("");
    }
  }

  lemma LoneParenthesisRead(s: string)
    requires |s| == 1 && s[0] == '('
    ensures BranchReading(s) == Group(One(Nil), Nil)
  {
    hide BranchReading, GroupReading, Split, GroupLen;
    GroupStep(s);
    CloseStep("", 1);
    assert s[1..] == "";
    NoBarReading("");
    NothingRead();
  }

  /** The text [(])( : its last parenthesis opens an empty group. */
  lemma CutOffRead()
    ensures GroupReading("[(]" + (")" + "(")) == One(Text("[(]", Text(")", Group(One(Nil), Nil))))
  {
    hide BranchReading, Split, GroupReading;
    NoBarReading("[(]" + (")" + "("));
    BracketRead(")" + "(");
    CharRead(')', "(");
    LoneParenthesisRead("(");
  }

  lemma InnerScan(s: string)
    requires s == "([(])()"
    ensures GroupSpan(s) == 7
  {
    hide GroupLen;
    var b, v := "[(]" + (")" + "("), ")";
    var w := s[1..];
    assert w == b + v;
    assert ScanDepth(b, 1) == 2 && EscapesPaired(b) by {
      ScanOf();
    }
    ScanThrough(b, v, 1);
    CloseStep("", 2);
    CloseStep("", 1);
    assert ")" + "" == v;
  }

  lemma ScanOf()
    ensures ScanDepth("[(]" + (")" + "("), 1) == 2 && EscapesPaired("[(]" + (")" + "("))
  {
    var s := "[(]" + (")" + "(");
    assert |s| == 5 && s[0] == '[' && s[1] == '(' && s[2] == ']' && s[3] == ')' && s[4] == '(';
    assert s[1..][1..] == s[2..] && s[2..][1..] == s[3..] && s[3..][1..] == s[4..] && s[4..][1..] == "";
    assert ScanDepth("", 2) == 2 && EscapesPaired("");
    assert ScanDepth(s[4..], 1) == 2 && EscapesPaired(s[4..]);
    assert ScanDepth(s[3..], 2) == 2 && EscapesPaired(s[3..]);
    assert ScanDepth(s[2..], 2) == 2 && EscapesPaired(s[2..]);
    assert ScanDepth(s[1..], 1) == 2 && EscapesPaired(s[1..]);
  }

  lemma InnerRead()
    ensures BranchReading("([(])()") == InnerMisread()
  {
    hide BranchReading, GroupReading, GroupLen;
    var s := "([(])()";
    InnerScan(s);
    GroupStep(s);
    assert GroupText(s, 7) == "[(]" + (")" + "(") && s[7..] == "";
    CutOffRead();
    NothingRead();
  }

  lemma SegmentsOf()
    ensures Split("([(])()" + ("|" + ")"), 0, false, "") == ["([(])()", ")"]
  {
    hide Split;
    Printed();
    PatternGood();
    var a := "([(])()";
    SplitItems(Inner(), "|" + ")", 0, "");
    assert "" + a == a;
    var t := "|" + ")";
    SplitFirst(t, 0, false, a);
    assert t[1..] == ")";
    SplitFirst(")", 0, false, "");
    assert ")"[1..] == "" && ")"[..1] == ")" && "" + ")" == ")";
    SplitNothing(NextLevel(')', 0, false), NextClass(')', false), ")");
  }

  lemma BodyRead()
    ensures GroupReading("([(])()" + ("|" + ")")) == Bar(InnerMisread(), One(Text(")", Nil)))
  {
    hide Split, BranchReading, InnerMisread;
    SegmentsOf();
    InnerRead();
    Printed();
    PatternGood();
    OneBranchRead(Inner());
    NoBarReading(")");
    CharRead(')', "");
    NothingRead();
    assert [')'] + "" == ")";
    var segs := ["([(])()", ")"];
    assert segs[1..] == [")"];
    assert SegmentReading([")"], 9) == GroupReading(")");
  }

  lemma BodyScan()
    ensures ScanDepth("([(])()" + ("|" + ")"), 1) == 1 && EscapesPaired("([(])()" + ("|" + ")"))
  {
    var s := "([(])()" + ("|" + ")");
    assert |s| == 9 && s[0] == '(' && s[1] == '[' && s[2] == '(' && s[3] == ']' && s[4] == ')' && s[5] == '(' && s[6] == ')';
    assert s[7] == '|' && s[8] == ')';
    assert ScanDepth("", 1) == 1 && EscapesPaired("");
    assert s[8..][1..] == "" && ScanDepth(s[8..], 2) == 1 && EscapesPaired(s[8..]);
    assert s[7..][1..] == s[8..] && ScanDepth(s[7..], 2) == 1 && EscapesPaired(s[7..]);
    assert s[6..][1..] == s[7..] && ScanDepth(s[6..], 3) == 1 && EscapesPaired(s[6..]);
    assert s[5..][1..] == s[6..] && ScanDepth(s[5..], 2) == 1 && EscapesPaired(s[5..]);
    assert s[4..][1..] == s[5..] && ScanDepth(s[4..], 3) == 1 && EscapesPaired(s[4..]);
    assert s[3..][1..] == s[4..] && ScanDepth(s[3..], 3) == 1 && EscapesPaired(s[3..]);
    assert s[2..][1..] == s[3..] && ScanDepth(s[2..], 2) == 1 && EscapesPaired(s[2..]);
    assert s[1..][1..] == s[2..] && ScanDepth(s[1..], 2) == 1 && EscapesPaired(s[1..]);
  }

  /** The routine takes the pattern for something else. */
  lemma PatternRead()
    ensures GroupReading(PrintAlts(Pattern())) == Misread()
  {
    hide Split, BranchReading, GroupReading, GroupLen, ScanDepth, EscapesPaired, Inner, InnerMisread, PrintAlts, GoodAlts;
    var b := "([(])()" + ("|" + ")");
    Printed();
    PatternGood();
    WholeIsOneBranch();
    assert "([(])()|)" == b;
    BodyScan();
    ScanIsRightIff(b, "");
    GroupRead(b, "");
    BodyRead();
    NothingRead();
    var v := "(" + (b + (")" + ""));
    CharRead(']', v);
    BracketScan();
    ScanIsRightIff("[", "]" + v);
    GroupRead("[", "]" + v);
    OpenBracketRead();
  }

  lemma BracketScan()
    ensures ScanDepth("[", 1) == 1 && EscapesPaired("[")
  {
    assert "["[1..] == "" && ScanDepth("", 1) == 1 && EscapesPaired("");
  }

  lemma WholeIsOneBranch()
    ensures GroupReading(PrintAlts(Pattern())) == One(BranchReading(PrintAlts(Pattern())))
  {
    hide GroupReading, BranchReading;
    PatternGood();
    OneBranchRead(Pattern().s);
  }

  // Both readings offer the same two strings

  lemma GroupOfTwo(a: Alts, t: string, t': string)
    requires AllChoices(a) == [t, t']
    ensures Choices(Group(a, Nil)) == ["(" + t + ")", "(" + t' + ")"]
  {
    hide Choices, AllChoices, Cross;
    GroupChoicesStep(a, Nil);
    NoChoice();
    var g := Parenthesise([t, t']);
    CrossEmpty(g);
    assert g == ["(" + t + ")", "(" + t' + ")"];
  }

  lemma GroupChoicesStep(a: Alts, rest: Items)
    ensures Choices(Group(a, rest)) == Cross(Parenthesise(AllChoices(a)), Choices(rest))
  {
  }

  lemma NoChoice()
    ensures Choices(Nil) == [""]
  {
  }

  lemma TextOfOne(t: string, rest: Items, u: string)
    requires Choices(rest) == [u]
    ensures Choices(Text(t, rest)) == [t + u]
  {
  }

  lemma TwoBranches(x: Items, y: Items, t: string, u: string)
    requires Choices(x) == [t] && Choices(y) == [u]
    ensures AllChoices(Bar(x, One(y))) == [t, u]
  {
  }

  lemma InnerChoices()
    ensures Choices(Inner()) == ["([(])()"] && Choices(InnerMisread()) == ["([(])())"]
  {
    hide Choices, AllChoices;
    NoChoice();
    SingleGroup(Nil, Nil, "", "");
    assert "(" + "" + ")" + "" == "()";
    TextOfOne("[(]", Nil, "");
    assert "[(]" + "" == "[(]";
    SingleGroup(Text("[(]", Nil), Group(One(Nil), Nil), "[(]", "()");
    assert "(" + "[(]" + ")" + "()" == "([(])()";
    TextOfOne(")", Group(One(Nil), Nil), "()");
    TextOfOne("[(]", Text(")", Group(One(Nil), Nil)), ")" + "()");
    SingleGroup(Text("[(]", Text(")", Group(One(Nil), Nil))), Nil, "[(]" + (")" + "()"), "");
    assert "(" + ("[(]" + (")" + "()")) + ")" + "" == "([(])())";
  }

  lemma PatternChoices()
    ensures AllChoices(Pattern()) == ["([)](([(])()))", "([)]())"]
  {
    hide Choices, Inner;
    InnerChoices();
    NoChoice();
    var a, b := Bar(Inner(), One(Nil)), "([(])()";
    TwoBranches(Inner(), Nil, b, "");
    GroupOfTwo(a, b, "");
    var g := Group(a, Nil);
    TextOfTwo("[)]", g, "(" + b + ")", "(" + "" + ")");
    var x, y := "[)]" + ("(" + b + ")"), "[)]" + ("(" + "" + ")");
    assert AllChoices(One(Text("[)]", g))) == [x, y];
    GroupOfTwo(One(Text("[)]", g)), x, y);
    assert "(" + x + ")" == "([)](([(])()))" && "(" + y + ")" == "([)]())";
  }

  lemma TextOfTwo(t: string, rest: Items, u: string, v: string)
    requires Choices(rest) == [u, v]
    ensures Choices(Text(t, rest)) == [t + u, t + v]
  {
  }

  lemma MisreadChoices()
    ensures AllChoices(Misread()) == ["([)](([(])()))", "([)]())"]
  {
    hide Choices, InnerMisread;
    InnerChoices();
    NoChoice();
    TextOfOne(")", Nil, "");
    assert ")" + "" == ")";
    var a, b := Bar(InnerMisread(), One(Text(")", Nil))), "([(])())";
    TwoBranches(InnerMisread(), Text(")", Nil), b, ")");
    GroupOfTwo(a, b, ")");
    var g := Group(a, Nil);
    TextOfTwo("]", g, "(" + b + ")", "(" + ")" + ")");
    TextOfOne("[", Nil, "");
    assert "[" + "" == "[";
    FrontOfTwo(Text("[", Nil), "[", Text("]", g), "]" + ("(" + b + ")"), "]" + ("(" + ")" + ")"));
    assert "(" + "[" + ")" + ("]" + ("(" + b + ")")) == "([)](([(])()))";
    assert "(" + "[" + ")" + ("]" + ("(" + ")" + ")")) == "([)]())";
  }

  lemma FrontOfTwo(x: Items, t: string, rest: Items, u: string, v: string)
    requires Choices(x) == [t] && Choices(rest) == [u, v]
    ensures Choices(Group(One(x), rest)) == ["(" + t + ")" + u, "(" + t + ")" + v]
  {
    hide Choices;
    GroupChoicesStep(One(x), rest);
    assert AllChoices(One(x)) == [t];
    var g := Parenthesise([t]);
    assert g == ["(" + t + ")"] && g[1..] == [] && Cross([], [u, v]) == [];
    assert Cross(g, [u, v]) == PrependAll(g[0], [u, v]) + Cross(g[1..], [u, v]);
  }

  /** The number of characters behind the choice in a normal form. */
  function Behind(s: Items): nat {
    match s
    case Nil => 0
    case Text(_, rest) => Behind(rest)
    case Group(_, rest) => Length(rest)
  }

  function Length(s: Items): nat {
    match s
    case Nil => 0
    case Text(_, rest) => 1 + Length(rest)
    case Group(_, rest) => 1 + Length(rest)
  }

  lemma {:induction false} CharsBehind(t: string, x: Items)
    ensures Behind(Chars(t, x)) == Behind(x)
  {
    if t != "" {
      CharsBehind(t[1..], x);
    }
  }

  lemma ReadingsDiffer()
    ensures NormAll(Misread()) != NormAll(Pattern())
  {
    hide Chars, Inner, InnerMisread;
    var p, m := Bar(Inner(), One(Nil)), Bar(InnerMisread(), One(Text(")", Nil)));
    assert Norm(Nil) == Nil;
    var gp, gm := Group(NormAll(p), Nil), Group(NormAll(m), Nil);
    assert Norm(Group(p, Nil)) == gp && Norm(Group(m, Nil)) == gm;
    // the pattern: text, the choice, and a parenthesis
    var inner := Norm(Text("[)]", Group(p, Nil)));
    assert inner == Chars("[)]", gp);
    BehindConcat("[)]", NormAll(p));
    CharsBehind("(", Concat(inner, Chars(")", Nil)));
    assert Norm(Pattern().s) == Chars("(", Concat(inner, Chars(")", Norm(Nil))));
    // the misreading: nothing behind the choice
    var tail := Norm(Text("]", Group(m, Nil)));
    assert tail == Chars("]", gm);
    CharsBehind("]", gm);
    CharsBehind(")", tail);
    var open := Norm(Text("[", Nil));
    ConcatChars("[", Chars(")", tail));
    CharsBehind("[", Chars(")", tail));
    CharsBehind("(", Concat(open, Chars(")", tail)));
    assert Norm(Misread().s) == Chars("(", Concat(open, Chars(")", tail)));
  }

  lemma {:induction false} BehindConcat(t: string, a: Alts)
    requires a.Bar?
    ensures Behind(Concat(Chars(t, Group(a, Nil)), Chars(")", Nil))) == 1
  {
    if t == "" {
      assert Chars(")", Nil) == Text(")", Nil) by {
        assert ")"[1..] == "" && ")"[..1] == ")";
        assert Chars("", Nil) == Nil;
      }
      assert Concat(Nil, Text(")", Nil)) == Text(")", Nil);
      assert Length(Text(")", Nil)) == 1 by {
        assert Length(Nil) == 0;
      }
    } else {
      BehindConcat(t[1..], a);
    }
  }

  /** So the same reading is not necessary where both readings have alternatives. */
  lemma MisreadButRight()
    ensures GoodAlts(Pattern()) && !SameReading(Pattern()) && ExpandsRight(Pattern())
  {
    hide GroupReading, ExpandText, AllChoices, NormAll, PrintAlts, Pattern, Misread;
    PatternGood();
    PatternRead();
    ReadingsDiffer();
    PatternChoices();
    MisreadChoices();
    ExpandTextIsReading(PrintAlts(Pattern()));
    ChoicesAreExpansions(Pattern());
  }
}
