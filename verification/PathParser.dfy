/**
  The kernel's path parser (pparser.c) over a heap whose allocations may fail: a script says which
  kzalloc calls are refused, and allocations after the script's end are granted.
 */
module PathParser {
  import opened RealPath

  const MAX_PATH: nat := 108  // VANA_MAX_PATH

  // ---------------------------------------------------------------------------------------
  // What is parsed

  /** Drop the component of length n and the slash behind it. */
  function Rest(s: string): string
    ensures s != [] ==> |Rest(s)| < |s| || SegmentLength(s) == 0
  {
    var n := SegmentLength(s);
    if n < |s| then s[n + 1..] else []
  }

  /** The components up to the first empty one. */
  function Parts(s: string): seq<string>
    decreases |s|
  {
    var n := SegmentLength(s);
    if n == 0 then [] else [s[..n]] + Parts(Rest(s))
  }

  function Take(grants: seq<bool>): (bool, seq<bool>) {
    if grants == [] then (true, []) else (grants[0], grants[1..])
  }

  /** The components that get their two allocations, and the script left over. */
  function Parsed(s: string, grants: seq<bool>): (seq<string>, seq<bool>)
    decreases |s|
  {
    var n := SegmentLength(s);
    var (g1, rest1) := Take(grants);
    if !g1 || n == 0 then ([], rest1)
    else
      var (g2, rest2) := Take(rest1);
      if !g2 then ([], rest2)
      else
        var r := Parsed(Rest(s), rest2);
        ([s[..n]] + r.0, r.1)
  }

  /** Under failures, a prefix of the components. */
  lemma {:induction false} ParsedIsPrefix(s: string, grants: seq<bool>)
    ensures Parsed(s, grants).0 <= Parts(s)
    decreases |s|
  {
    var n := SegmentLength(s);
    var (g1, rest1) := Take(grants);
    if g1 && n > 0 {
      var (g2, rest2) := Take(rest1);
      if g2 {
        ParsedIsPrefix(Rest(s), rest2);
      }
    }
  }

  /** Without failures, all of them. */
  lemma {:induction false} ParsedIsAll(s: string, grants: seq<bool>)
    requires false !in grants
    ensures Parsed(s, grants).0 == Parts(s)
    decreases |s|
  {
    var n := SegmentLength(s);
    if n > 0 {
      var (g1, rest1) := Take(grants);
      var (g2, rest2) := Take(rest1);
      ParsedIsAll(Rest(s), rest2);
    }
  }

  function Joined(names: seq<string>): string {
    if names == [] then [] else names[0] + if |names| == 1 then [] else ['/'] + Joined(names[1..])
  }

  /** A path made of names is parsed into those names. */
  lemma {:induction false} PartsOfJoined(names: seq<string>)
    requires Names(names)
    ensures Parts(Joined(names)) == names
  {
    hide Parts, Joined;
    JoinedStep(names);
    if names != [] {
      var name, more := names[0], if |names| == 1 then [] else ['/'] + Joined(names[1..]);
      PartsStep(name, more);
      PartsOfJoined(names[1..]);
      JoinedStep(names[1..]);
      assert names == [name] + names[1..];
      assert |names| > 1 ==> more[1..] == Joined(names[1..]);
    } else {
      PartsStep([], []);
      assert [] + [] == Joined(names);
    }
  }

  lemma PartsStep(name: string, more: string)
    requires '/' !in name && (more == [] || more[0] == '/')
    ensures Parts(name + more) == if name == [] then [] else [name] + Parts(if more == [] then [] else more[1..])
  {
    hide SegmentLength;
    var s := name + more;
    SegmentOf(name, more);
    assert s[..|name|] == name;
    if more != [] {
      assert s[|name| + 1..] == more[1..];
    }
  }

  lemma JoinedStep(names: seq<string>)
    ensures names == [] ==> Joined(names) == []
    ensures names != [] ==> Joined(names) == names[0] + if |names| == 1 then [] else ['/'] + Joined(names[1..])
  {
  }

  /** pathparser_path_valid_format, and the length test in front of it. */
  predicate ValidFormat(path: string) {
    |path| <= MAX_PATH && |path| >= 3 && '0' <= path[0] <= '9' && path[1] == ':' && path[2] == '/'
  }

  function DrivePath(drive: nat, names: seq<string>): string
    requires drive < 10
  {
    [('0' as int + drive) as char, ':', '/'] + Joined(names)
  }

  /** Without failures, "d:/" and the joined names give exactly that drive and those names. */
  lemma WholePathParsed(drive: nat, names: seq<string>, grants: seq<bool>)
    requires drive < 10 && Names(names) && false !in grants && 3 + |Joined(names)| <= MAX_PATH
    ensures var path := DrivePath(drive, names);
            && ValidFormat(path) && path[0] as int - '0' as int == drive
            && Parsed(path[3..], grants).0 == names
  {
    hide Joined, Parsed, Parts;
    assert DrivePath(drive, names)[3..] == Joined(names);
    PartsOfJoined(names);
    ParsedIsAll(Joined(names), grants);
  }

  // ---------------------------------------------------------------------------------------
  // The heap

  /** A path_root, a path_part or a string of MAX_PATH characters. */
  datatype Object = Root(drive: int, first: nat) | Part(str: nat, next: nat) | Chars(buf: seq<char>)

  type Heap = map<nat, Object>

  /** The addresses of one list element. */
  datatype Link = Link(str: nat, part: nat)

  ghost predicate Spells(buf: seq<char>, name: string) {
    |buf| == MAX_PATH && |name| < MAX_PATH && buf[..|name|] == name && forall i :: |name| <= i < MAX_PATH ==> buf[i] == '\0'
  }

  function NextOf(links: seq<Link>, i: nat): nat {
    if i + 1 < |links| then links[i + 1].part else 0
  }

  ghost predicate ElementOk(heap: Heap, links: seq<Link>, names: seq<string>, i: nat)
    requires i < |links| == |names|
  {
    && links[i].part in heap && heap[links[i].part] == Part(links[i].str, NextOf(links, i))
    && links[i].str in heap && heap[links[i].str].Chars? && Spells(heap[links[i].str].buf, names[i])
  }

  /** The linked list of the names. */
  ghost predicate Chain(heap: Heap, links: seq<Link>, names: seq<string>) {
    |links| == |names| && forall i :: 0 <= i < |links| ==> ElementOk(heap, links, names, i)
  }

  /** Addresses grow along the list, so all are different; all are at least lo and below hi. */
  ghost predicate Growing(links: seq<Link>, lo: nat, hi: nat) {
    && (forall i :: 0 <= i < |links| ==> lo <= links[i].str < links[i].part < hi)
    && (forall i, j :: 0 <= i < j < |links| ==> links[i].part < links[j].str)
  }

  /** All addresses of the list. */
  ghost function All(links: seq<Link>): set<nat> {
    (set i | 0 <= i < |links| :: links[i].str) + (set i | 0 <= i < |links| :: links[i].part)
  }

  lemma AllAppend(links: seq<Link>, l: Link)
    ensures All(links + [l]) == All(links) + {l.str, l.part}
  {
    var more := links + [l];
    assert more[|links|] == l;
    assert forall i :: 0 <= i < |links| ==> more[i] == links[i];
    forall a | a in All(links) + {l.str, l.part}
      ensures a in All(more)
    {
      if a == l.str || a == l.part {
      } else if i :| 0 <= i < |links| && links[i].str == a {
        assert more[i].str == a;
      } else {
        var i :| 0 <= i < |links| && links[i].part == a;
        assert more[i].part == a;
      }
    }
  }

  /** The heap after an element is made and linked behind the last one. */
  function Appended(heap: Heap, links: seq<Link>, l: Link, buf: seq<char>): Heap {
    var h := heap[l.str := Chars(buf)][l.part := Part(l.str, 0)];
    if links == [] then h else h[links[|links| - 1].part := Part(links[|links| - 1].str, l.part)]
  }

  lemma ChainAppend(heap: Heap, links: seq<Link>, names: seq<string>, lo: nat, l: Link, buf: seq<char>, name: string)
    requires Chain(heap, links, names) && Growing(links, lo, l.str) && lo <= l.str < l.part && Spells(buf, name)
    ensures Chain(Appended(heap, links, l, buf), links + [l], names + [name])
    ensures Growing(links + [l], lo, l.part + 1)
  {
    hide Spells;
    var h, links', names' := Appended(heap, links, l, buf), links + [l], names + [name];
    forall i | 0 <= i < |links'|
      ensures ElementOk(h, links', names', i)
    {
      if i < |links| {
        assert links'[i] == links[i] && names'[i] == names[i] && ElementOk(heap, links, names, i);
        assert NextOf(links', i) == if i + 1 < |links| then NextOf(links, i) else l.part;
        if i + 1 < |links| {
          assert links[i].part < links[|links| - 1].str;
        }
      }
    }
  }

  lemma AppendedRest(heap: Heap, links: seq<Link>, l: Link, buf: seq<char>)
    requires l.str !in heap && l.part !in heap
    ensures Appended(heap, links, l, buf) - All(links + [l]) == heap - All(links)
  {
    AllAppend(links, l);
    if links != [] {
      assert links[|links| - 1].part in All(links);
    }
  }

  /** Freeing the first element leaves the list of the others. */
  lemma ChainTail(heap: Heap, links: seq<Link>, names: seq<string>, lo: nat, hi: nat)
    requires Chain(heap, links, names) && Growing(links, lo, hi) && links != []
    ensures Chain(heap - {links[0].str} - {links[0].part}, links[1..], names[1..])
    ensures All(links) == All(links[1..]) + {links[0].str, links[0].part} && Growing(links[1..], lo, hi)
    ensures links[0].str in heap && links[0].part in heap && links[0].str != links[0].part && |names| == |links|
    ensures heap[links[0].part] == Part(links[0].str, NextOf(links, 0))
  {
    assert ElementOk(heap, links, names, 0);
    hide ElementOk, All;
    var h, l, rest := heap - {links[0].str} - {links[0].part}, links[0], links[1..];
    forall i | 0 <= i < |rest|
      ensures ElementOk(h, rest, names[1..], i)
    {
      ElementLater(heap, links, names, lo, hi, i);
    }
    assert links == [l] + rest;
    AllFront(l, rest);
  }

  lemma ElementLater(heap: Heap, links: seq<Link>, names: seq<string>, lo: nat, hi: nat, i: nat)
    requires Chain(heap, links, names) && Growing(links, lo, hi) && i + 1 < |links|
    ensures ElementOk(heap - {links[0].str} - {links[0].part}, links[1..], names[1..], i)
  {
    hide Spells;
    assert ElementOk(heap, links, names, i + 1) && NextOf(links[1..], i) == NextOf(links, i + 1);
    assert links[0].part < links[i + 1].str;
  }

  lemma AllFront(l: Link, rest: seq<Link>)
    ensures All([l] + rest) == All(rest) + {l.str, l.part}
  {
    var links := [l] + rest;
    assert links[0] == l;
    assert forall i :: 0 <= i < |rest| ==> links[i + 1] == rest[i];
    forall a | a in All(rest)
      ensures a in All(links)
    {
      if i :| 0 <= i < |rest| && rest[i].str == a {
        assert links[i + 1].str == a;
      } else {
        var i :| 0 <= i < |rest| && rest[i].part == a;
        assert links[i + 1].part == a;
      }
    }
  }

  // ---------------------------------------------------------------------------------------
  // The code

  function ZeroedString(): (buf: seq<char>)
    ensures |buf| == MAX_PATH && forall i :: 0 <= i < MAX_PATH ==> buf[i] == '\0'
  {
    seq(108, _ => '\0')
  }

  /** The kernel heap: live objects, the next fresh address, and which allocations will be granted. */
  class Kernel {
    var heap: Heap
    var next: nat
    var grants: seq<bool>

    ghost predicate Valid()
      reads this
    {
      next > 0 && forall a :: a in heap ==> 0 < a < next
    }

    constructor (grants: seq<bool>)
      ensures Valid() && heap == map[] && this.grants == grants
    {
      heap, next, this.grants := map[], 1, grants;
    }

    method Kzalloc(zeroed: Object) returns (a: nat)
      requires Valid()
      modifies this
      ensures Valid() && grants == Take(old(grants)).1
      ensures if Take(old(grants)).0 then a == old(next) && next == a + 1 && a !in old(heap) && heap == old(heap)[a := zeroed]
              else a == 0 && heap == old(heap) && next == old(next)
    {
      var (granted, rest) := Take(grants);
      grants := rest;
      if !granted {
        return 0;
      }
      a := next;
      next := next + 1;
      heap := heap[a := zeroed];
    }

    method Kfree(a: nat)
      requires Valid() && a in heap
      modifies `heap
      ensures Valid() && heap == old(heap) - {a}
    {
      heap := heap - {a};
    }

    /** The loop that copies characters up to a slash or the end. */
    method CopyComponent(a: nat, path: string, p: nat, ghost h0: Heap) returns (q: nat)
      requires Valid() && p <= |path| && |path| - p < MAX_PATH
      requires a in heap && heap[a] == Chars(ZeroedString()) && heap == h0[a := heap[a]]
      modifies `heap
      ensures Valid() && p <= q <= |path| && (q < |path| ==> path[q] == '/') && '/' !in path[p..q]
      ensures a in heap && heap[a].Chars? && heap == h0[a := heap[a]] && Spells(heap[a].buf, path[p..q])
    {
      q := p;
      var i := 0;
      while q < |path| && path[q] != '/'
        invariant p <= q <= |path| && i == q - p && '/' !in path[p..q]
        invariant Valid() && a in heap && heap[a].Chars? && heap == h0[a := heap[a]]
        invariant Spells(heap[a].buf, path[p..q])
      {
        Spelled(heap[a].buf, path[p..q], path[q]);
        assert path[p..q + 1] == path[p..q] + [path[q]];
        heap := heap[a := Chars(heap[a].buf[i := path[q]])];
        q := q + 1;
        i := i + 1;
      }
    }

    /** pathparser_get_path_part: the next component in a fresh string, which it never overruns. */
    method GetPathPart(path: string, p: nat) returns (str: nat, q: nat)
      requires Valid() && p <= |path| && |path| - p < MAX_PATH
      modifies this
      ensures Valid() && grants == Take(old(grants)).1 && p <= q <= |path| && next >= old(next)
      ensures var n := SegmentLength(path[p..]);
              if !Take(old(grants)).0 || n == 0 then str == 0 && heap == old(heap)
              else
                && str == old(next) && next == str + 1 && str !in old(heap) && str in heap && heap[str].Chars?
                && Spells(heap[str].buf, path[p..][..n]) && heap == old(heap)[str := heap[str]]
                && path[q..] == Rest(path[p..])
    {
      hide SegmentLength;
      str, q := 0, p;
      var a := Kzalloc(Chars(ZeroedString()));
      if a == 0 {
        return;
      }
      ghost var h0 := old(heap);
      q := CopyComponent(a, path, p, h0);
      var name := path[p..q];
      ghost var s := path[p..];
      assert s == name + path[q..];
      SegmentOf(name, path[q..]);
      if q < |path| && path[q] == '/' {
        q := q + 1;
      }
      assert path[q..] == Rest(s) by {
        assert SegmentLength(s) < |s| ==> s[SegmentLength(s) + 1..] == path[q..];
      }
      if name == [] {
        Kfree(a);
        assert heap == h0;
        return;
      }
      str := a;
      assert s[..|name|] == name;
    }
  
    /** pathparser_parse_path_part: the list grows by one element, or nothing is left allocated. */
    method ParsePathPart(last: nat, path: string, p: nat, ghost links: seq<Link>, ghost names: seq<string>, ghost lo: nat)
      returns (part: nat, q: nat, ghost l: Link)
      requires Valid() && p <= |path| && |path| - p < MAX_PATH && 0 < lo <= next
      requires Chain(heap, links, names) && Growing(links, lo, next)
      requires last == if links == [] then 0 else links[|links| - 1].part
      modifies this
      ensures Valid() && p <= q <= |path| && old(next) <= next
      ensures var s := path[p..];
              var (g1, rest1) := Take(old(grants));
              var (g2, rest2) := Take(rest1);
              if !g1 || SegmentLength(s) == 0 then part == 0 && heap == old(heap) && grants == rest1
              else if !g2 then part == 0 && heap == old(heap) && grants == rest2
              else
                && part == l.part != 0 && grants == rest2 && path[q..] == Rest(s)
                && Chain(heap, links + [l], names + [s[..SegmentLength(s)]]) && Growing(links + [l], lo, next)
                && heap - All(links + [l]) == old(heap) - All(links)
                && (forall a :: a in old(heap) && a !in All(links) ==> a in heap && heap[a] == old(heap)[a])
    {
      hide SegmentLength, Rest, All, Chain, Growing, Spells;
      l := Link(0, 0);
      part, q := 0, p;
      var str;
      str, q := GetPathPart(path, p);
      if str == 0 {
        return;
      }
      part := Kzalloc(Part(0, 0));
      if part == 0 {
        Kfree(str);
        assert heap == old(heap);
        return;
      }
      l := Link(str, part);
      GrowingWider(links, lo, old(next), str);
      LinkIn(Link(str, part), last, old(heap), links, names, lo, path[p..][..SegmentLength(path[p..])]);
      GrowingWider(links + [l], lo, part + 1, next);
    }

    /** The new part gets its string and is linked behind the last one. */
    method LinkIn(l: Link, last: nat, ghost h0: Heap, ghost links: seq<Link>, ghost names: seq<string>, ghost lo: nat, ghost name: string)
      requires Valid() && Chain(h0, links, names) && Growing(links, lo, l.str) && lo <= l.str < l.part
      requires last == if links == [] then 0 else links[|links| - 1].part
      requires l.str !in h0 && l.part !in h0 && 0 < lo
      requires l.str in heap && heap[l.str].Chars? && Spells(heap[l.str].buf, name)
      requires heap == h0[l.str := heap[l.str]][l.part := Part(0, 0)]
      modifies `heap
      ensures Valid() && Chain(heap, links + [l], names + [name]) && Growing(links + [l], lo, l.part + 1)
      ensures heap - All(links + [l]) == h0 - All(links)
      ensures forall a :: a in h0 && a !in All(links) ==> a in heap && heap[a] == h0[a]
    {
      hide All, Chain, Spells;
      ghost var buf := heap[l.str].buf;
      LastInHeap(h0, links, names);
      ChainAppend(h0, links, names, lo, l, buf, name);
      AppendedRest(h0, links, l, buf);
      heap := heap[l.part := Part(l.str, 0)];
      if last != 0 {
        heap := heap[last := Part(heap[last].str, l.part)];
      }
      assert heap.Keys == old(heap.Keys);
      assert heap == Appended(h0, links, l, buf);
      RestKept(h0, heap, links, l);
    }
  
    /** A parsed path: the root, the list behind it, and nothing else but what was there before. */
    ghost predicate Holds(root: nat, drive: int, links: seq<Link>, names: seq<string>, before: Heap)
      reads this
    {
      && root in heap && heap[root] == Object.Root(drive, if links == [] then 0 else links[0].part)
      && root !in All(links) && Chain(heap, links, names) && Growing(links, root + 1, next)
      && heap - All(links) - {root} == before
    }

    /**
      pathparser_parse: nothing is left allocated, or a root whose list holds exactly the components
      that got their memory.
     */
    method Parse(path: string) returns (root: nat, ghost links: seq<Link>, ghost names: seq<string>)
      requires Valid()
      modifies this
      ensures Valid()
      ensures root == 0 ==> heap == old(heap)
      ensures if !ValidFormat(path) || !Take(old(grants)).0 then root == 0
              else
                var r := Parsed(path[3..], Take(old(grants)).1);
                && names == r.0 && grants == r.1 && (root == 0 <==> names == [])
                && (root != 0 ==> Holds(root, path[0] as int - '0' as int, links, names, old(heap)))
    {
      hide Parsed, SegmentLength;
      root, links, names := 0, [], [];
      if !ValidFormat(path) {
        return;
      }
      var drive := path[0] as int - '0' as int;
      root := Kzalloc(Object.Root(drive, 0));
      if root == 0 {
        return;
      }
      var ok;
      ok, links, names := ParseList(root, drive, path, old(heap));
      if !ok {
        Kfree(root);
        root := 0;
        assert heap == old(heap);
      }
    }

    /** The first part, and the others behind it. */
    method ParseList(root: nat, drive: int, path: string, ghost before: Heap)
      returns (ok: bool, ghost links: seq<Link>, ghost names: seq<string>)
      requires Valid() && 3 <= |path| <= MAX_PATH && 0 < root && next == root + 1
      requires root !in before && heap == before[root := Object.Root(drive, 0)]
      modifies this
      ensures Valid()
      ensures var r := Parsed(path[3..], old(grants)); names == r.0 && grants == r.1 && (ok <==> names != [])
      ensures if ok then Holds(root, drive, links, names, before) else heap == old(heap)
    {
      hide Parsed, SegmentLength, Chain, Growing, Holds;
      ok, links, names := false, [], [];
      ParsedStep(path[3..], grants);
      NoLinks();
      EmptyChain(heap, next);
      var first, p;
      ghost var l;
      first, p, l := ParsePathPart(0, path, 3, [], [], next);
      if first == 0 {
        return;
      }
      links, names := [l], [path[3..][..SegmentLength(path[3..])]];
      assert [] + links == links && [] + names == names;
      FirstPart(old(heap), heap, links, root, before);
      SetFirst(root, drive, first, links, names, before);
      links, names := ParseMore(first, path, p, root, drive, links, names, before);
      ok := true;
    }

    /** path_root->first = first_part. */
    method SetFirst(root: nat, drive: int, first: nat, ghost links: seq<Link>, ghost names: seq<string>, ghost before: Heap)
      requires Valid() && root in heap && links != [] && first == links[0].part && root !in before
      requires Chain(heap, links, names) && Growing(links, root + 1, next)
      requires forall a :: a in heap - All(links) ==> a == root || (a in before && heap[a] == before[a])
      requires forall a :: a in before ==> a in heap - All(links)
      modifies `heap
      ensures Valid() && Holds(root, drive, links, names, before)
    {
      hide Spells, Chain, All;
      ghost var h0 := heap;
      heap := heap[root := Object.Root(drive, first)];
      NotInAll(links, root, next);
      ChainElsewhere(h0, links, names, root, heap[root]);
      assert heap - All(links) - {root} == before;
    }

    /** The loop of pathparser_parse. */
    method ParseMore(first: nat, path: string, start: nat, ghost root: nat, ghost drive: int,
                     ghost links0: seq<Link>, ghost names0: seq<string>, ghost before: Heap)
      returns (ghost links: seq<Link>, ghost names: seq<string>)
      requires Valid() && start <= |path| && |path| - start < MAX_PATH && 0 < root < next
      requires links0 != [] && Holds(root, drive, links0, names0, before) && first == links0[|links0| - 1].part != 0
      modifies this
      ensures Valid() && Holds(root, drive, links, names, before)
      ensures var r := Parsed(path[start..], old(grants)); names == names0 + r.0 && grants == r.1
    {
      hide Parsed, SegmentLength, Holds;
      links, names := links0, names0;
      var part, p := first, start;
      while part != 0
        invariant Valid() && start <= p <= |path| && root < next && Holds(root, drive, links, names, before) && links != []
        invariant part != 0 ==> part == links[|links| - 1].part
        invariant var all, r := Parsed(path[start..], old(grants)), Parsed(path[p..], grants);
                  if part != 0 then names0 + all.0 == names + r.0 && all.1 == r.1
                  else names == names0 + all.0 && grants == all.1
        decreases part != 0, |path| - p
      {
        ParsedStep(path[p..], grants);
        ghost var l, more;
        part, p, l, more := NextPart(part, path, p, root, drive, links, names, before);
        if part != 0 {
          links, names := links + [l], names + [more];
        }
      }
    }

    method NextPart(last: nat, path: string, p: nat, ghost root: nat, ghost drive: int,
                    ghost links: seq<Link>, ghost names: seq<string>, ghost before: Heap)
      returns (part: nat, q: nat, ghost l: Link, ghost name: string)
      requires Valid() && p <= |path| && |path| - p < MAX_PATH && root < next
      requires links != [] && Holds(root, drive, links, names, before) && last == links[|links| - 1].part
      modifies this
      ensures Valid() && p <= q <= |path| && root < next
      ensures var s := path[p..];
              var (g1, rest1) := Take(old(grants));
              var (g2, rest2) := Take(rest1);
              if !g1 || SegmentLength(s) == 0 then part == 0 && grants == rest1 && Holds(root, drive, links, names, before)
              else if !g2 then part == 0 && grants == rest2 && Holds(root, drive, links, names, before)
              else
                && part == l.part != 0 && grants == rest2 && path[q..] == Rest(s) && q > p && name == s[..SegmentLength(s)]
                && Holds(root, drive, links + [l], names + [name], before)
    {
      hide SegmentLength, Rest, Chain, All, Growing;
      assert root in heap;
      part, q, l := ParsePathPart(last, path, p, links, names, root + 1);
      name := path[p..][..SegmentLength(path[p..])];
      if part != 0 {
        NotInAll(links + [l], root, next);
        assert heap - All(links + [l]) - {root} == before;
        RestShorter(path[p..]);
        assert |path[q..]| < |path[p..]|;
      } else {
        GrowingWider(links, root + 1, old(next), next);
      }
    }

    /**
      pathparser_free on what the parser returned, a path or null.  Its first load reads from an object only if
      there is one; it faults exactly at null.
     */
    method FreePath(root: nat, ghost drive: int, ghost links: seq<Link>, ghost names: seq<string>, ghost before: Heap) returns (fault: bool)
      requires Valid() && (root != 0 ==> Holds(root, drive, links, names, before))
      modifies `heap
      ensures Valid() && (fault <==> root == 0) && heap == if fault then old(heap) else before
    {
      hide Chain, All, Growing;
      fault := root !in heap;
      if !fault {
        FreeParts(root, heap[root].first, drive, links, names, before);
      }
    }

    /** The rest of it: the parts one after the other, then the root. */
    method FreeParts(root: nat, first: nat, ghost drive: int, ghost links: seq<Link>, ghost names: seq<string>, ghost before: Heap)
      requires Valid() && Holds(root, drive, links, names, before) && first == heap[root].first
      modifies `heap
      ensures Valid() && heap == before
    {
      hide Chain, All, Growing;
      var part := first;
      ghost var rest, more := links, names;
      NotNull(heap, links, names, root + 1, next);
      while part != 0
        invariant Valid() && Chain(heap, rest, more) && Growing(rest, root + 1, next)
        invariant part == (if rest == [] then 0 else rest[0].part) && (part == 0 <==> rest == [])
        invariant root in heap && root !in All(rest) && heap - All(rest) - {root} == before
        decreases |rest|
      {
        ChainTail(heap, rest, more, root + 1, next);
        var nextPart := heap[part].next;
        ghost var h0 := heap;
        Kfree(heap[part].str);
        Kfree(part);
        rest, more := rest[1..], more[1..];
        NotNull(heap, rest, more, root + 1, next);
        NotInAll(rest, root, next);
        part := nextPart;
        assert heap - All(rest) - {root} == before;
      }
      NoLinks();
      assert heap - {root} == before;
      Kfree(root);
    }

    /** Parsing and freeing give every allocation back, under every pattern of failures. */
    method ParseThenFree(path: string)
      requires Valid()
      modifies this
      ensures Valid() && heap == old(heap)
    {
      var root;
      ghost var links, names;
      root, links, names := Parse(path);
      if root != 0 {
        var _ := FreePath(root, path[0] as int - '0' as int, links, names, old(heap));
      }
    }
  }

  lemma EmptyChain(heap: Heap, lo: nat)
    ensures Chain(heap, [], []) && Growing([], lo, lo)
  {
  }

  /** Only the new element was added. */
  lemma FirstPart(heap: Heap, heap': Heap, links: seq<Link>, root: nat, before: Heap)
    requires root !in before && root in heap && heap == before[root := heap[root]]
    requires heap' - All(links) == heap - All([])
    ensures root in heap' && forall a :: a in heap' - All(links) ==> a == root || (a in before && heap'[a] == before[a])
    ensures forall a :: a in before ==> a in heap' - All(links)
  {
    NoLinks();
    hide All;
    var h := heap' - All(links);
    assert h == heap;
    assert root in h;
    forall a | a in h
      ensures heap'[a] == heap[a]
    {
      assert h[a] == heap[a];
    }
  }

  lemma RestShorter(s: string)
    requires SegmentLength(s) > 0
    ensures |Rest(s)| < |s|
  {
  }

  lemma NoLinks()
    ensures All([]) == {}
  {
  }

  lemma NotNull(heap: Heap, links: seq<Link>, names: seq<string>, lo: nat, hi: nat)
    requires Growing(links, lo, hi)
    ensures links != [] ==> links[0].part != 0 && NextOf(links, 0) == if |links| == 1 then 0 else links[1..][0].part
    ensures |links| > 1 ==> links[1].part != 0
  {
  }

  lemma NotInAll(links: seq<Link>, root: nat, hi: nat)
    requires Growing(links, root + 1, hi)
    ensures root !in All(links)
  {
  }

  lemma ChainElsewhere(heap: Heap, links: seq<Link>, names: seq<string>, a: nat, o: Object)
    requires Chain(heap, links, names) && a !in All(links)
    ensures Chain(heap[a := o], links, names)
  {
    hide Spells;
    var h := heap[a := o];
    forall i | 0 <= i < |links|
      ensures ElementOk(h, links, names, i)
    {
      assert ElementOk(heap, links, names, i);
      assert links[i].str in All(links) && links[i].part in All(links);
    }
  }

  lemma ParsedStep(s: string, grants: seq<bool>)
    ensures var n := SegmentLength(s);
            var (g1, rest1) := Take(grants);
            var (g2, rest2) := Take(rest1);
            && (!g1 || n == 0 ==> Parsed(s, grants) == ([], rest1))
            && (g1 && n > 0 && !g2 ==> Parsed(s, grants) == ([], rest2))
            && (g1 && n > 0 && g2 ==>
                  var r := Parsed(Rest(s), rest2); Parsed(s, grants) == ([s[..n]] + r.0, r.1))
  {
  }

  lemma LastInHeap(heap: Heap, links: seq<Link>, names: seq<string>)
    requires Chain(heap, links, names)
    ensures links != [] ==>
              var l := links[|links| - 1]; l.part in heap && heap[l.part] == Part(l.str, 0)
  {
    hide Spells;
    if links != [] {
      assert ElementOk(heap, links, names, |links| - 1);
    }
  }

  lemma GrowingWider(links: seq<Link>, lo: nat, hi: nat, hi': nat)
    requires Growing(links, lo, hi) && hi <= hi'
    ensures Growing(links, lo, hi')
  {
  }

  lemma RestKept(heap: Heap, heap': Heap, links: seq<Link>, l: Link)
    requires heap' - All(links + [l]) == heap - All(links)
    ensures forall a :: a in heap && a !in All(links) ==> a in heap' && heap'[a] == heap[a]
  {
    hide All;
    forall a | a in heap && a !in All(links)
      ensures a in heap' && heap'[a] == heap[a]
    {
      assert a in heap - All(links) && (heap - All(links))[a] == heap[a];
    }
  }

  lemma Spelled(buf: seq<char>, name: string, c: char)
    requires Spells(buf, name) && |name| + 1 < MAX_PATH
    ensures Spells(buf[|name| := c], name + [c])
  {
  }
}
