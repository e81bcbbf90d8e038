/** The component loop of realpath, which normalises a path in place in the output buffer. */
module RealPath {

  // ---------------------------------------------------------------------------------------
  // Paths as lists of names

  /** Length of the longest prefix without a slash. */
  function SegmentLength(s: string): (n: nat)
    ensures n <= |s| && (n < |s| ==> s[n] == '/') && forall i :: 0 <= i < n ==> s[i] != '/'
  {
    if s == [] || s[0] == '/' then 0 else 1 + SegmentLength(s[1..])
  }

  /** The parts of a path between slashes, empty ones dropped. */
  function Components(s: string): seq<string>
    decreases |s|
  {
    if s == [] then []
    else if s[0] == '/' then Components(s[1..])
    else [s[..SegmentLength(s)]] + Components(s[SegmentLength(s)..])
  }

  function Step(stack: seq<string>, name: string): seq<string> {
    if name == "." then stack
    else if name == ".." then (if stack == [] then [] else stack[..|stack| - 1])
    else stack + [name]
  }

  /** The names folded over a stack: "." is skipped, ".." pops, the root absorbs. */
  function Resolve(names: seq<string>, stack: seq<string>): seq<string> {
    if names == [] then stack else Resolve(names[1..], Step(stack, names[0]))
  }

  function Body(stack: seq<string>): string {
    if stack == [] then [] else ['/'] + stack[0] + Body(stack[1..])
  }

  function Render(stack: seq<string>): string {
    if stack == [] then "/" else Body(stack)
  }

  function Normal(path: string): string {
    Render(Resolve(Components(path), []))
  }

  ghost predicate Proper(name: string) {
    name != [] && '/' !in name && name != "." && name != ".."
  }

  ghost predicate AllProper(stack: seq<string>) {
    forall i :: 0 <= i < |stack| ==> Proper(stack[i])
  }

  // ---------------------------------------------------------------------------------------
  // What the names "." and ".." mean

  lemma {:induction false} ComponentsBehind(p: string, q: string)
    ensures Components(p + "/" + q) == Components(p) + Components(q)
    decreases |p|
  {
    hide Components, SegmentLength;
    var s := p + "/" + q;
    ComponentsStep(s);
    ComponentsStep(p);
    if p == "" {
      assert s[1..] == q && [] + Components(q) == Components(q);
    } else if p[0] == '/' {
      assert s[1..] == p[1..] + "/" + q;
      ComponentsBehind(p[1..], q);
    } else {
      var n := SegmentLength(p);
      SegmentBehind(p, "/" + q);
      SegmentNotEmpty(p);
      assert s == p + ("/" + q) && s[..n] == p[..n] && s[n..] == p[n..] + "/" + q;
      ComponentsBehind(p[n..], q);
      assert [p[..n]] + (Components(p[n..]) + Components(q)) == [p[..n]] + Components(p[n..]) + Components(q);
    }
  }

  lemma ComponentsStep(s: string)
    ensures s == "" ==> Components(s) == []
    ensures s != "" && s[0] == '/' ==> Components(s) == Components(s[1..])
    ensures s != "" && s[0] != '/' ==> Components(s) == [s[..SegmentLength(s)]] + Components(s[SegmentLength(s)..])
  {
  }

  lemma SegmentNotEmpty(p: string)
    requires p != "" && p[0] != '/'
    ensures SegmentLength(p) > 0
  {
  }

  lemma {:induction false} SegmentBehind(p: string, rest: string)
    requires rest != "" && rest[0] == '/'
    ensures SegmentLength(p + rest) == SegmentLength(p)
  {
    var s := p + rest;
    if p == "" {
      assert s == rest;
    } else if p[0] != '/' {
      assert s[1..] == p[1..] + rest;
      SegmentBehind(p[1..], rest);
    }
  }

  lemma {:induction false} ResolveBehind(a: seq<string>, b: seq<string>, stack: seq<string>)
    ensures Resolve(a + b, stack) == Resolve(b, Resolve(a, stack))
    decreases |a|
  {
    if a == [] {
      assert a + b == b;
    } else {
      assert (a + b)[1..] == a[1..] + b;
      ResolveBehind(a[1..], b, Step(stack, a[0]));
    }
  }

  /** "." changes nothing, and ".." takes a name back. */
  lemma DotsMean(p: string, name: string)
    requires Proper(name)
    ensures Normal(p + "/" + ".") == Normal(p) && Normal(p + "/" + name + "/" + "..") == Normal(p)
  {
    hide Components, Render;
    var stack := Resolve(Components(p), []);
    OneName(".");
    OneName("..");
    OneName(name);
    ComponentsBehind(p, ".");
    ResolveBehind(Components(p), ["."], []);
    ComponentsBehind(p, name);
    ComponentsBehind(p + "/" + name, "..");
    ResolveBehind(Components(p), [name], []);
    ResolveBehind(Components(p) + [name], [".."], []);
    OneStep(".", stack);
    OneStep(name, stack);
    OneStep("..", stack + [name]);
    assert (stack + [name])[..|stack|] == stack;
  }

  lemma OneStep(name: string, stack: seq<string>)
    ensures Resolve([name], stack) == Step(stack, name)
  {
    assert [name][1..] == [];
  }

  lemma OneName(name: string)
    requires name != "" && '/' !in name
    ensures Components(name) == [name]
  {
    hide SegmentLength;
    assert name + "" == name;
    SegmentOf(name, "");
    assert name[..|name|] == name && name[|name|..] == "";
  }

  // ---------------------------------------------------------------------------------------
  // Normal paths are fixed points

  lemma {:induction false} BodyAppend(stack: seq<string>, name: string)
    ensures Body(stack + [name]) == Body(stack) + ['/'] + name
  {
    if stack == [] {
      assert ([] + [name])[1..] == [];
    } else {
      BodyAppend(stack[1..], name);
      assert (stack + [name])[1..] == stack[1..] + [name];
    }
  }

  lemma {:induction false} SegmentOf(name: string, rest: string)
    requires '/' !in name && (rest == [] || rest[0] == '/')
    ensures SegmentLength(name + rest) == |name|
  {
    var s := name + rest;
    if name == [] {
      assert s == rest;
    } else {
      SegmentOf(name[1..], rest);
      assert s[1..] == name[1..] + rest && s[0] == name[0];
    }
  }

  lemma FirstComponent(name: string, rest: string)
    requires name != [] && '/' !in name && (rest == [] || rest[0] == '/')
    ensures Components(['/'] + name + rest) == [name] + Components(rest)
  {
    hide SegmentLength;
    SegmentOf(name, rest);
    var s := name + rest;
    assert (['/'] + name + rest)[1..] == s;
    assert s[0] == name[0];
    assert s[..|name|] == name && s[|name|..] == rest;
  }

  lemma {:induction false} ComponentsOfBody(stack: seq<string>)
    requires AllProper(stack)
    ensures Components(Body(stack)) == stack
  {
    hide Components;
    if stack == [] {
      NoComponents();
    } else {
      assert Proper(stack[0]);
      ComponentsOfBody(stack[1..]);
      FirstComponent(stack[0], Body(stack[1..]));
      assert stack == [stack[0]] + stack[1..];
    }
  }

  lemma NoComponents()
    ensures Components([]) == [] && Components("/") == []
  {
    assert "/"[1..] == [];
  }

  lemma {:induction false} ResolveProper(names: seq<string>, stack: seq<string>)
    requires AllProper(names)
    ensures Resolve(names, stack) == stack + names
  {
    if names != [] {
      assert Proper(names[0]);
      ResolveProper(names[1..], stack + [names[0]]);
      assert stack + names == stack + [names[0]] + names[1..];
    }
  }

  ghost predicate Names(names: seq<string>) {
    forall i :: 0 <= i < |names| ==> names[i] != [] && '/' !in names[i]
  }

  lemma {:induction false} ComponentsAreNames(s: string)
    ensures Names(Components(s))
    decreases |s|
  {
    if s != [] {
      ComponentsAreNames(s[if s[0] == '/' then 1 else SegmentLength(s)..]);
    }
  }

  lemma {:induction false} ResolvedIsProper(names: seq<string>, stack: seq<string>)
    requires Names(names) && AllProper(stack)
    ensures AllProper(Resolve(names, stack))
  {
    if names != [] {
      ResolvedIsProper(names[1..], Step(stack, names[0]));
    }
  }

  /** Normalising is idempotent. */
  lemma NormalIsIdempotent(path: string)
    ensures Normal(Normal(path)) == Normal(path)
  {
    var stack := Resolve(Components(path), []);
    ComponentsAreNames(path);
    ResolvedIsProper(Components(path), []);
    NoComponents();
    if stack != [] {
      ComponentsOfBody(stack);
      ResolveProper(stack, []);
      assert [] + stack == stack;
    }
  }

  /** The result is absolute, does not end in a slash unless it is the root, and has no dot parts. */
  lemma NormalForm(path: string)
    ensures var r := Normal(path);
            && |r| > 0 && r[0] == '/' && (|r| > 1 ==> r[|r| - 1] != '/')
            && AllProper(Components(r))
  {
    var stack := Resolve(Components(path), []);
    ComponentsAreNames(path);
    ResolvedIsProper(Components(path), []);
    LastIsNoSlash(stack);
    NoComponents();
    ComponentsOfBody(stack);
  }

  lemma LastIsNoSlash(stack: seq<string>)
    requires AllProper(stack)
    ensures var r := Render(stack); |r| > 0 && r[0] == '/' && (|r| > 1 ==> r[|r| - 1] != '/') && (stack != [] ==> |r| > 1)
  {
    if stack != [] {
      var n := |stack| - 1;
      assert Proper(stack[n]) && stack == stack[..n] + [stack[n]];
      BodyAppend(stack[..n], stack[n]);
      assert Render(stack)[|Render(stack)| - 1] == stack[n][|stack[n]| - 1];
    }
  }

  // ---------------------------------------------------------------------------------------
  // The code

  /** The buffer holds a normal path and its terminator. */
  ghost predicate Shows(out: array<char>, len: nat, stack: seq<string>)
    reads out
  {
    len < out.Length && out[..len] == Render(stack) && out[len] == '\0' && AllProper(stack)
  }

  lemma SlashFirst(s: string)
    requires s != [] && s[0] == '/'
    ensures Components(s) == Components(s[1..])
  {
  }

  lemma TailOf(s: string, i: nat)
    requires i < |s|
    ensures s[i..][1..] == s[i + 1..] && s[i..][0] == s[i]
  {
  }

  method SkipSlashes(full: string, p: nat) returns (q: nat)
    requires p <= |full|
    ensures p <= q <= |full| && Components(full[q..]) == Components(full[p..])
    ensures q == |full| || full[q] != '/'
  {
    hide Components;
    q := p;
    while q < |full| && full[q] == '/'
      invariant p <= q <= |full| && Components(full[q..]) == Components(full[p..])
    {
      TailOf(full, q);
      SlashFirst(full[q..]);
      q := q + 1;
    }
  }

  method SegmentEnd(full: string, start: nat) returns (p: nat)
    requires start < |full| && full[start] != '/'
    ensures start < p <= |full| && (p < |full| ==> full[p] == '/') && '/' !in full[start..p]
    ensures Components(full[start..]) == [full[start..p]] + Components(full[p..])
  {
    p := start;
    ghost var s := full[start..];
    while p < |full| && full[p] != '/'
      invariant start <= p <= |full| && forall i :: start <= i < p ==> full[i] != '/'
    {
      p := p + 1;
    }
    var name, rest := full[start..p], full[p..];
    assert s == name + rest && name[0] == full[start];
    SegmentOf(name, rest);
    assert s[..|name|] == name && s[|name|..] == rest;
  }

  /** The ".." case: the last name is cut off. */
  method Pop(out: array<char>, len0: nat, ghost stack: seq<string>) returns (len: nat)
    requires Shows(out, len0, stack)
    modifies out
    ensures len <= len0 && Shows(out, len, Step(stack, ".."))
  {
    hide Render, Step, Proper, AllProper;
    len := len0;
    LastIsNoSlash(stack);
    ghost var text, cut := out[..len0], LastSlash(stack);
    RootPops(stack);
    if len > 1 {
      PopText(stack);
      while len > 1 && out[len - 1] != '/'
        invariant cut <= len <= len0
      {
        assert text[len - 1] == out[len - 1];
        len := len - 1;
      }
      assert len == cut by {
        assert text[len - 1] == out[len - 1];
      }
      if len > 1 {
        len := len - 1;
      }
      assert out[..len] == text[..len];
      out[len] := '\0';
    }
  }

  /** One past the last slash of a rendered stack. */
  ghost function LastSlash(stack: seq<string>): (n: nat)
    ensures n >= 1
  {
    if stack == [] then 1 else |Body(stack[..|stack| - 1])| + 1
  }

  lemma RootPops(stack: seq<string>)
    requires AllProper(stack)
    ensures |Render(stack)| == 1 ==> Step(stack, "..") == stack && stack == []
    ensures |Render(stack)| != 1 ==> stack != []
    ensures AllProper(Step(stack, ".."))
  {
    LastIsNoSlash(stack);
  }

  lemma PopText(stack: seq<string>)
    requires stack != [] && AllProper(stack)
    ensures var text, cut := Render(stack), LastSlash(stack);
            && cut <= |text| && text[cut - 1] == '/' && (forall i :: cut <= i < |text| ==> text[i] != '/')
            && text[..if cut > 1 then cut - 1 else 1] == Render(Step(stack, ".."))
  {
    var n := |stack| - 1;
    var rest, name := stack[..n], stack[n];
    assert stack == rest + [name] && Proper(name);
    BodyAppend(rest, name);
    LastIsNoSlash(rest);
    var text := Body(rest) + ['/'] + name;
    assert text[..|Body(rest)|] == Body(rest);
    assert forall i :: |Body(rest)| + 1 <= i < |text| ==> text[i] == name[i - |Body(rest)| - 1];
  }

  /** Another name: appended, with a slash unless the path is still the root. */
  method Push(out: array<char>, len0: nat, name: string, ghost stack: seq<string>) returns (len: nat)
    requires Shows(out, len0, stack) && Proper(name) && (if len0 > 1 then len0 + 1 else 1) + |name| < out.Length
    modifies out
    ensures len == (if len0 > 1 then len0 + 1 else 1) + |name| && Shows(out, len, Step(stack, name))
  {
    hide Body, Proper, AllProper;
    PushText(stack, name);
    LastIsNoSlash(stack);
    len := len0;
    ghost var text := if stack == [] then "/" else Render(stack) + ['/'];
    if len > 1 {
      out[len] := '/';
      len := len + 1;
      assert out[..len] == text;
    }
    assert out[..len] == text;
    CopyName(out, len, name);
    len := len + |name|;
    out[len] := '\0';
    assert out[..len] == text + name;
  }

  lemma PushText(stack: seq<string>, name: string)
    requires AllProper(stack) && Proper(name)
    ensures Step(stack, name) == stack + [name] && AllProper(stack + [name])
    ensures Render(stack + [name]) == (if stack == [] then "/" else Render(stack) + ['/']) + name
    ensures stack == [] <==> |Render(stack)| == 1
  {
    BodyAppend(stack, name);
    LastIsNoSlash(stack);
  }

  /** memcpy of a component. */
  method CopyName(out: array<char>, at: nat, name: string)
    requires at + |name| <= out.Length
    modifies out
    ensures out[..at + |name|] == old(out[..at]) + name
  {
    var i := 0;
    while i < |name|
      invariant 0 <= i <= |name| && out[..at] == old(out[..at]) && forall k :: 0 <= k < i ==> out[at + k] == name[k]
    {
      out[at + i] := name[i];
      i := i + 1;
    }
  }

  /** realpath on the full path, into a buffer of strlen(full) + 2 bytes. */
  method Realpath(full: string, out: array<char>) returns (len: nat)
    requires out.Length >= |full| + 2
    modifies out
    ensures len < |full| + 2 && out[..len] == Normal(full) && out[len] == '\0'
  {
    hide Components, Resolve, Step, Render, Proper;
    len := 1;
    out[0], out[1] := '/', '\0';
    ghost var stack: seq<string> := [];
    RootShown(out);
    var p := 0;
    assert full[0..] == full;
    if p < |full| && full[p] == '/' {
      SlashFirst(full);
      p := p + 1;
    }
    while p < |full|
      invariant 0 <= p <= |full| && Shows(out, len, stack) && len <= p + 1
      invariant len == 1 || p == |full| || full[p] == '/'
      invariant Resolve(Components(full[p..]), stack) == Resolve(Components(full), [])
    {
      var start := SkipSlashes(full, p);
      if start == |full| {
        p := start;
        break;
      }
      p := SegmentEnd(full, start);
      var name := full[start..p];
      ResolveStep(name, Components(full[p..]), stack);
      if name == "." {
      } else if name == ".." {
        len := Pop(out, len, stack);
      } else {
        ProperName(name);
        len := Push(out, len, name, stack);
      }
      StepDot(stack);
      stack := Step(stack, name);
    }
    assert full[p..] == [];
    NoComponents();
    ResolveDone(stack);
    // the last branch of the source, cutting a trailing slash, is never taken
    LastIsNoSlash(stack);
    assert !(len > 1 && out[..len][len - 1] == '/');
  }

  lemma ProperName(name: string)
    requires name != [] && '/' !in name && name != "." && name != ".."
    ensures Proper(name)
  {
  }

  lemma RootShown(out: array<char>)
    requires out.Length >= 2 && out[0] == '/' && out[1] == '\0'
    ensures Shows(out, 1, [])
  {
    assert out[..1] == "/";
  }

  lemma StepDot(stack: seq<string>)
    ensures Step(stack, ".") == stack
  {
  }

  lemma ResolveStep(name: string, rest: seq<string>, stack: seq<string>)
    ensures Resolve([name] + rest, stack) == Resolve(rest, Step(stack, name))
  {
    assert ([name] + rest)[1..] == rest;
  }

  lemma ResolveDone(stack: seq<string>)
    ensures Resolve([], stack) == stack
  {
  }
}
