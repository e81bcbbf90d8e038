/** The loops of `expand_alts`, and two patterns they get wrong. */
module RegexRewrite {
  import opened RegexAlternation
  import opened RegexExpand
  import opened RegexReading

  // ---------------------------------------------------------------------------------------
  // The routine

  method FindClassEnd(pat: string, i: nat) returns (j: nat)
    requires i < |pat|
    ensures j == i + 1 + ClassLen(pat[i + 1..]) <= |pat|
  {
    j := i + 1;
    var inClass := true;
    while j < |pat| && inClass
      invariant i < j <= |pat|
      invariant i + 1 + ClassLen(pat[i + 1..]) == if inClass then j + ClassLen(pat[j..]) else j
      decreases |pat| - j
    {
      assert forall k :: j <= k <= |pat| ==> pat[j..][k - j..] == pat[k..];
      if pat[j] == '\\' && j + 1 < |pat| {
        j := j + 2;
      } else if pat[j] == ']' {
        inClass := false;
        j := j + 1;
      } else {
        j := j + 1;
      }
    }
  }

  method FindGroupEnd(pat: string, i: nat) returns (j: nat)
    requires i < |pat|
    ensures j == i + 1 + GroupLen(pat[i + 1..], 1) <= |pat|
  {
    hide GroupLen;
    j := i + 1;
    var depth: nat := 1;
    while j < |pat| && depth > 0
      invariant i < j <= |pat|
      invariant i + 1 + GroupLen(pat[i + 1..], 1) == j + GroupLen(pat[j..], depth)
      decreases |pat| - j
    {
      GroupLenStep(pat, j, depth);
      if pat[j] == '\\' && j + 1 < |pat| {
        j := j + 2;
      } else if pat[j] == '(' {
        depth, j := depth + 1, j + 1;
      } else if pat[j] == ')' {
        depth, j := depth - 1, j + 1;
      } else {
        j := j + 1;
      }
    }
    GroupLenDone(pat, j, depth);
  }

  lemma GroupLenStep(pat: string, j: nat, depth: nat)
    requires j < |pat| && depth > 0
    ensures GroupLen(pat[j..], depth) ==
            if pat[j] == '\\' && j + 1 < |pat| then 2 + GroupLen(pat[j + 2..], depth)
            else if pat[j] == '(' then 1 + GroupLen(pat[j + 1..], depth + 1)
            else if pat[j] == ')' then 1 + GroupLen(pat[j + 1..], depth - 1)
            else 1 + GroupLen(pat[j + 1..], depth)
  {
    assert pat[j..][1..] == pat[j + 1..];
    if j + 1 < |pat| {
      assert pat[j..][2..] == pat[j + 2..];
    }
  }

  lemma GroupLenDone(pat: string, j: nat, depth: nat)
    requires j <= |pat| && (j == |pat| || depth == 0)
    ensures GroupLen(pat[j..], depth) == 0
  {
  }

  lemma SplitStep(pat: string, start: nat, i: nat, level: nat, cls: bool)
    requires start <= i < |pat|
    ensures Split(pat[i..], level, cls, pat[start..i]) ==
            if pat[i] == '\\' && i + 1 < |pat| then Split(pat[i + 2..], level, cls, pat[start..i + 2])
            else if cls then Split(pat[i + 1..], level, pat[i] != ']', pat[start..i + 1])
            else if pat[i] == '[' then Split(pat[i + 1..], level, true, pat[start..i + 1])
            else if pat[i] == '(' then Split(pat[i + 1..], level + 1, cls, pat[start..i + 1])
            else if pat[i] == ')' && level > 0 then Split(pat[i + 1..], level - 1, cls, pat[start..i + 1])
            else if pat[i] == '|' && level == 0 then [pat[start..i]] + Split(pat[i + 1..], level, cls, pat[i + 1..i + 1])
            else Split(pat[i + 1..], level, cls, pat[start..i + 1])
  {
    var s, acc := pat[i..], pat[start..i];
    assert s[1..] == pat[i + 1..] && acc + s[..1] == pat[start..i + 1] && pat[i + 1..i + 1] == "";
    if i + 1 < |pat| {
      assert s[2..] == pat[i + 2..] && acc + s[..2] == pat[start..i + 2];
    }
  }

  lemma SplitDone(pat: string, start: nat, level: nat, cls: bool)
    requires start <= |pat|
    ensures Split(pat[|pat|..], level, cls, pat[start..|pat|]) == [pat[start..]]
  {
    assert pat[start..|pat|] == pat[start..];
  }

  method SplitSegments(pat: string) returns (seg: seq<string>)
    ensures seg == Split(pat, 0, false, "")
  {
    hide Split;
    seg := [];
    var level: nat, cls, start: nat, i: nat := 0, false, 0, 0;
    assert pat[0..] == pat && pat[0..0] == "";
    while i < |pat|
      invariant start <= i <= |pat|
      invariant Split(pat, 0, false, "") == seg + Split(pat[i..], level, cls, pat[start..i])
      decreases |pat| - i
    {
      SplitStep(pat, start, i, level, cls);
      var c := pat[i];
      if c == '\\' && i + 1 < |pat| {
        i := i + 1;
      } else if cls {
        if c == ']' {
          cls := false;
        }
      } else if c == '[' {
        cls := true;
      } else if c == '(' {
        level := level + 1;
      } else if c == ')' && level > 0 {
        level := level - 1;
      } else if c == '|' && level == 0 {
        ghost var rest := Split(pat[i + 1..], level, cls, pat[i + 1..i + 1]);
        assert seg + ([pat[start..i]] + rest) == (seg + [pat[start..i]]) + rest;
        seg := seg + [pat[start..i]];
        start := i + 1;
      }
      i := i + 1;
    }
    SplitDone(pat, start, level, cls);
    seg := seg + [pat[start..]];
  }

  method AppendToAll(cur: seq<string>, t: string) returns (r: seq<string>)
    ensures r == AppendAll(cur, t)
  {
    r := cur;
    for j := 0 to |cur|
      invariant |r| == |cur|
      invariant forall k :: 0 <= k < j ==> r[k] == cur[k] + t
      invariant forall k :: j <= k < |cur| ==> r[k] == cur[k]
    {
      r := r[j := r[j] + t];
    }
  }

  method CombineWithGroup(cur: seq<string>, sub: seq<string>) returns (newl: seq<string>)
    ensures newl == Cross(cur, Parenthesise(sub))
  {
    newl := [];
    ghost var xs := Parenthesise(sub);
    assert cur[..0] == [];
    for k := 0 to |cur|
      invariant newl == Cross(cur[..k], xs)
    {
      ghost var before := newl;
      for m := 0 to |sub|
        invariant newl == before + PrependAll(cur[k], xs)[..m]
      {
        assert xs[m] == "(" + sub[m] + ")";
        assert cur[k] + "(" + sub[m] + ")" == cur[k] + xs[m];
        newl := newl + [cur[k] + "(" + sub[m] + ")"];
      }
      CrossConcat(cur[..k], [cur[k]], xs);
      assert cur[..k + 1] == cur[..k] + [cur[k]];
      assert Cross([cur[k]], xs) == PrependAll(cur[k], xs) + Cross([cur[k]][1..], xs);
    }
    assert cur[..|cur|] == cur;
  }

  /** expand_alts: the patterns appended to the caller's list. */
  method ExpandAltsInto(pat: string) returns (out: seq<string>)
    ensures out == ExpandText(pat)
    decreases |pat|
  {
    hide Split, Process, ClassLen, GroupLen;
    var seg := SplitSegments(pat);
    out := [];
    if |seg| > 1 {
      assert seg[0..] == seg;
      for i := 0 to |seg|
        invariant ExpandEach(seg, |pat|) == out + ExpandEach(seg[i..], |pat|)
      {
        var part := ExpandAltsInto(seg[i]);
        assert seg[i..][1..] == seg[i + 1..];
        assert out + (part + ExpandEach(seg[i + 1..], |pat|)) == (out + part) + ExpandEach(seg[i + 1..], |pat|);
        out := out + part;
      }
      return;
    }
    out := ExpandGroups(pat);
  }

  /** The second half of expand_alts: patterns without a bar at the outermost level. */
  method ExpandGroups(pat: string) returns (cur: seq<string>)
    ensures cur == Process(pat, [""])
    decreases |pat|, 0
  {
    hide ClassLen, GroupLen, ExpandText, Process, Cross;
    cur := [""];
    var i := 0;
    assert pat[0..] == pat;
    while i < |pat|
      invariant 0 <= i <= |pat|
      invariant Process(pat, [""]) == Process(pat[i..], cur)
      decreases |pat| - i
    {
      ProcessStep(pat, i, cur);
      if pat[i] == '\\' && i + 1 < |pat| {
        cur := AppendToAll(cur, pat[i..i + 2]);
        i := i + 2;
      } else if pat[i] == '[' {
        var j := FindClassEnd(pat, i);
        cur := AppendToAll(cur, pat[i..j]);
        i := j;
      } else if pat[i] == '(' {
        var j := FindGroupEnd(pat, i);
        var inside := if j - i >= 2 then pat[i + 1..j - 1] else "";
        GroupSlice(pat, i, j);
        var sub := ExpandAltsInto(inside);
        cur := CombineWithGroup(cur, sub);
        i := j;
      } else {
        cur := AppendToAll(cur, pat[i..i + 1]);
        i := i + 1;
      }
    }
    assert pat[i..] == "";
    ProcessNothing(cur);
  }

  lemma ProcessNothing(cur: seq<string>)
    ensures Process("", cur) == cur
  {
  }

  lemma GroupSlice(pat: string, i: nat, j: nat)
    requires i < j <= |pat|
    ensures GroupText(pat[i..], j - i) == if j - i >= 2 then pat[i + 1..j - 1] else ""
  {
    if j - i >= 2 {
      assert pat[i..][1..j - i - 1] == pat[i + 1..j - 1];
    }
  }

  lemma ProcessStep(pat: string, i: nat, cur: seq<string>)
    requires i < |pat|
    ensures var n := i + 1 + ClassLen(pat[i + 1..]);
            var g := i + 1 + GroupLen(pat[i + 1..], 1);
            Process(pat[i..], cur) ==
            if pat[i] == '\\' && i + 1 < |pat| then Process(pat[i + 2..], AppendAll(cur, pat[i..i + 2]))
            else if pat[i] == '[' then Process(pat[n..], AppendAll(cur, pat[i..n]))
            else if pat[i] == '(' then
              Process(pat[g..], Cross(cur, Parenthesise(ExpandText(GroupText(pat[i..], g - i)))))
            else Process(pat[i + 1..], AppendAll(cur, pat[i..i + 1]))
  {
    hide ExpandText, Cross, AppendAll, ClassLen, GroupLen;
    var s := pat[i..];
    var n, g := 1 + ClassLen(pat[i + 1..]), 1 + GroupLen(pat[i + 1..], 1);
    assert s[1..] == pat[i + 1..] && s[..1] == pat[i..i + 1];
    assert s[n..] == pat[i + n..] && s[..n] == pat[i..i + n] && s[g..] == pat[i + g..];
    if i + 1 < |pat| {
      assert s[2..] == pat[i + 2..] && s[..2] == pat[i..i + 2];
    }
  }

  // ---------------------------------------------------------------------------------------
  // Groups whose end is found too early or too late

  /** The pattern ([)]|b): a group whose bracket expression holds a parenthesis. */
  predicate IsBad(p: string) {
    |p| == 7 && p[0] == '(' && p[1] == '[' && p[2] == ')' && p[3] == ']' && p[4] == '|' && p[5] == 'b' && p[6] == ')'
  }

  /** Where the first loop of expand_alts stands after i characters of that pattern. */
  lemma SplitOfBad(p: string)
    requires IsBad(p)
    ensures Split(p, 0, false, "") == [p]
  {
    hide Split;
    assert p[0..] == p && p[0..0] == "";
    SplitStep(p, 0, 0, 0, false);
    SplitStep(p, 0, 1, 1, false);
    SplitStep(p, 0, 2, 1, true);
    SplitStep(p, 0, 3, 1, true);
    SplitOfBadTail(p);
  }

  lemma SplitOfBadTail(p: string)
    requires IsBad(p)
    ensures Split(p[4..], 1, false, p[0..4]) == [p]
  {
    hide Split;
    SplitStep(p, 0, 4, 1, false);
    SplitStep(p, 0, 5, 1, false);
    SplitStep(p, 0, 6, 1, false);
    SplitDone(p, 0, 0, false);
    assert p[0..] == p;
  }

  /** The group's text is an alternation: it splits into [)] and b. */
  lemma SplitOfBadBody(p: string, q: string)
    requires IsBad(p) && q == p[1..6]
    ensures Split(q, 0, false, "") == [q[..3], q[4..]]
  {
    hide Split;
    assert q[0..] == q && q[0..0] == "";
    SplitStep(q, 0, 0, 0, false);
    SplitStep(q, 0, 1, 0, true);
    SplitStep(q, 0, 2, 0, true);
    SplitStep(q, 0, 3, 0, false);
    SplitStep(q, 4, 4, 0, false);
    SplitDone(q, 4, 0, false);
    assert q[0..3] == q[..3];
  }

  lemma NoBarNoSplit(pat: string)
    requires |Split(pat, 0, false, "")| == 1
    ensures ExpandText(pat) == Process(pat, [""])
  {
  }

  lemma LoneBracket(q: string)
    requires |q| == 1 && q[0] == '['
    ensures ExpandText(q) == [q]
  {
    hide Process, Split, Cross, GroupLen, ExpandText;
    var e := q[1..];
    assert q[0..] == q && q[0..0] == "" && q[0..1] == q && e == "";
    SplitStep(q, 0, 0, 0, false);
    SplitDone(q, 0, 0, true);
    NoBarNoSplit(q);
    ProcessStep(q, 0, [""]);
    ProcessNothing(AppendAll([""], q));
    assert "" + q == q;
    assert AppendAll([""], q) == [q];
  }

  /** The group scan stops at the parenthesis in the brackets. */
  lemma BadGroup(p: string)
    requires IsBad(p)
    ensures Process(p, [""]) == Process(p[3..], [p[..3]])
  {
    hide Process, GroupLen, ExpandText;
    assert p[0..] == p;
    GroupLenStep(p, 1, 1);
    GroupLenStep(p, 2, 1);
    GroupLenDone(p, 3, 0);
    ProcessStep(p, 0, [""]);
    var q := GroupText(p, 3);
    assert q == p[1..2];
    LoneBracket(q);
    var g := Parenthesise([q]);
    assert "(" + q + ")" == p[..3];
    assert g == [p[..3]];
    CrossUnit(g);
  }

  lemma TextStep(p: string, i: nat)
    requires i < |p| && p[i] != '\\' && p[i] != '[' && p[i] != '('
    ensures Process(p[i..], [p[..i]]) == Process(p[i + 1..], [p[..i + 1]])
  {
    hide Process;
    ProcessStep(p, i, [p[..i]]);
    assert p[..i] + p[i..i + 1] == p[..i + 1];
    assert AppendAll([p[..i]], p[i..i + 1]) == [p[..i + 1]];
  }

  /**
    For ([)]|b) the bar inside the group is taken for text: the only pattern returned is the
    pattern itself, although the group's text splits into two branches.
   */
  lemma ParenthesisInBracketsBreaksExpansion(p: string)
    requires IsBad(p)
    ensures ExpandText(p) == [p] && |Split(p[1..6], 0, false, "")| == 2
  {
    hide Process, Split;
    SplitOfBad(p);
    SplitOfBadBody(p, p[1..6]);
    BadGroup(p);
    TextStep(p, 3);
    TextStep(p, 4);
    TextStep(p, 5);
    TextStep(p, 6);
    assert p[7..] == "" && p[..7] == p;
    ProcessNothing([p]);
  }

  /** The pattern ([(]a)b: the bracket expression of its group holds an opening parenthesis. */
  predicate IsLate(p: string) {
    |p| == 7 && p[0] == '(' && p[1] == '[' && p[2] == '(' && p[3] == ']' && p[4] == 'a' && p[5] == ')' && p[6] == 'b'
  }

  lemma LateScan(p: string)
    requires IsLate(p)
    ensures GroupLen(p[1..], 1) == 6
  {
    hide GroupLen;
    GroupLenStep(p, 1, 1);
    GroupLenStep(p, 2, 1);
    GroupLenStep(p, 3, 2);
    GroupLenStep(p, 4, 2);
    GroupLenStep(p, 5, 2);
    GroupLenStep(p, 6, 1);
    GroupLenDone(p, 7, 1);
  }

  /** The text of the group is taken to be [(]a), which comes back as it is. */
  lemma LateBody(q: string)
    requires |q| == 5 && q[0] == '[' && q[1] == '(' && q[2] == ']' && q[3] == 'a' && q[4] == ')'
    ensures ExpandText(q) == [q]
  {
    hide ExpandText, KeepsText;
    BarFreeUnchangedIff(q);
    NoBarReading(q);
    assert ClassLen(q[1..]) == 2;
    assert BranchKeeps(q[5..]);
    assert q[3..][1..] == q[4..] && q[4..][1..] == q[5..];
    assert BranchKeeps(q[4..]);
    assert BranchKeeps(q[3..]);
  }

  /** The scan of the group runs to the end, and the b is lost. */
  lemma LateEndLosesText(p: string)
    requires IsLate(p)
    ensures ExpandText(p) == [p[..6] + ")"]
  {
    hide Process, Split, GroupLen, ExpandText;
    var q := p[1..6];
    NoBarOneSegment(p, 0, false, "");
    NoBarNoSplit(p);
    LateScan(p);
    assert p[0..] == p && p[7..] == "";
    ProcessStep(p, 0, [""]);
    assert GroupText(p, 7) == q;
    LateBody(q);
    var g := Parenthesise([q]);
    assert "(" + q + ")" == p[..6] + ")";
    assert g == [p[..6] + ")"];
    CrossUnit(g);
    ProcessNothing(g);
  }
}
