/**
  Binary search trees as values: the trees that search_tree.c keeps in linked nodes, with the address
  of each node.  Keys are pointers; the comparison function orders them by a rank, and different
  pointers may compare equal.
 */
module SearchTrees {

  datatype Tree = Leaf | Node(left: Tree, addr: nat, key: nat, right: Tree)

  type Ranking = nat -> int

  function Keys(t: Tree): seq<nat> {
    match t
    case Leaf => []
    case Node(l, _, k, r) => Keys(l) + [k] + Keys(r)
  }

  function Addrs(t: Tree): set<nat> {
    match t
    case Leaf => {}
    case Node(l, a, _, r) => Addrs(l) + {a} + Addrs(r)
  }

  /** No node occurs twice, and none is at the null address. */
  ghost predicate Distinct(t: Tree) {
    match t
    case Leaf => true
    case Node(l, a, _, r) =>
      a != 0 && a !in Addrs(l) && a !in Addrs(r) && Addrs(l) !! Addrs(r) && Distinct(l) && Distinct(r)
  }

  /** All ranks below / above a bound. */
  ghost predicate AllBelow(t: Tree, rank: Ranking, x: int) {
    match t
    case Leaf => true
    case Node(l, _, k, r) => rank(k) < x && AllBelow(l, rank, x) && AllBelow(r, rank, x)
  }

  ghost predicate AllAbove(t: Tree, rank: Ranking, x: int) {
    match t
    case Leaf => true
    case Node(l, _, k, r) => rank(k) > x && AllAbove(l, rank, x) && AllAbove(r, rank, x)
  }

  /** The search-tree invariant. */
  ghost predicate Ordered(t: Tree, rank: Ranking) {
    match t
    case Leaf => true
    case Node(l, _, k, r) => AllBelow(l, rank, rank(k)) && AllAbove(r, rank, rank(k)) && Ordered(l, rank) && Ordered(r, rank)
  }

  ghost predicate Increasing(s: seq<nat>, rank: Ranking) {
    forall i, j :: 0 <= i < j < |s| ==> rank(s[i]) < rank(s[j])
  }

  lemma {:induction false} BoundsOfKeys(t: Tree, rank: Ranking, x: int)
    ensures AllBelow(t, rank, x) <==> forall i :: 0 <= i < |Keys(t)| ==> rank(Keys(t)[i]) < x
    ensures AllAbove(t, rank, x) <==> forall i :: 0 <= i < |Keys(t)| ==> rank(Keys(t)[i]) > x
  {
    if t.Node? {
      BoundsOfKeys(t.left, rank, x);
      BoundsOfKeys(t.right, rank, x);
      var n := |Keys(t.left)|;
      assert Keys(t)[n] == t.key;
      assert Keys(t)[..n] == Keys(t.left) && Keys(t)[n + 1..] == Keys(t.right);
      assert forall i :: 0 <= i < n ==> Keys(t)[i] == Keys(t.left)[i];
      assert forall i :: 0 <= i < |Keys(t.right)| ==> Keys(t)[n + 1 + i] == Keys(t.right)[i];
      assert forall i :: n < i < |Keys(t)| ==> Keys(t)[i] == Keys(t.right)[i - n - 1];
    }
  }

  /** The in-order keys are strictly increasing exactly in search trees. */
  lemma {:induction false} OrderedIffIncreasing(t: Tree, rank: Ranking)
    ensures Ordered(t, rank) <==> Increasing(Keys(t), rank)
  {
    if t.Node? {
      var x, y := Keys(t.left), Keys(t.right);
      OrderedIffIncreasing(t.left, rank);
      OrderedIffIncreasing(t.right, rank);
      BoundsOfKeys(t.left, rank, rank(t.key));
      BoundsOfKeys(t.right, rank, rank(t.key));
      IncreasingParts(x, t.key, y, rank);
    }
  }

  lemma IncreasingParts(x: seq<nat>, k: nat, y: seq<nat>, rank: Ranking)
    ensures Increasing(x + [k] + y, rank) <==>
            (Increasing(x, rank) && Increasing(y, rank)
             && (forall i :: 0 <= i < |x| ==> rank(x[i]) < rank(k)) && (forall i :: 0 <= i < |y| ==> rank(y[i]) > rank(k)))
  {
    var z, n := x + [k] + y, |x|;
    assert z[n] == k;
    assert forall i :: 0 <= i < n ==> z[i] == x[i];
    assert forall i :: 0 <= i < |y| ==> z[n + 1 + i] == y[i];
    assert forall i :: n < i < |z| ==> z[i] == y[i - n - 1];
  }

  // ---------------------------------------------------------------------------------------
  // Looking up, inserting, deleting

  /** The node with a key of this rank, 0 if none. */
  function Find(t: Tree, rank: Ranking, key: nat): nat {
    match t
    case Leaf => 0
    case Node(l, a, k, r) =>
      if rank(key) < rank(k) then Find(l, rank, key) else if rank(key) > rank(k) then Find(r, rank, key) else a
  }

  function Insert(t: Tree, rank: Ranking, key: nat, newAddr: nat): Tree {
    match t
    case Leaf => Node(Leaf, newAddr, key, Leaf)
    case Node(l, a, k, r) =>
      if rank(key) < rank(k) then Node(Insert(l, rank, key, newAddr), a, k, r)
      else if rank(key) > rank(k) then Node(l, a, k, Insert(r, rank, key, newAddr))
      else t
  }

  function MinKey(t: Tree): nat
    requires t.Node?
  {
    if t.left.Leaf? then t.key else MinKey(t.left)
  }

  function MinAddr(t: Tree): nat
    requires t.Node?
  {
    if t.left.Leaf? then t.addr else MinAddr(t.left)
  }

  function RemoveMin(t: Tree): Tree
    requires t.Node?
  {
    if t.left.Leaf? then t.right else Node(RemoveMin(t.left), t.addr, t.key, t.right)
  }

  /** The node found is unlinked, or takes over the key of its successor, whose node goes. */
  function Delete(t: Tree, rank: Ranking, key: nat): Tree {
    match t
    case Leaf => Leaf
    case Node(l, a, k, r) =>
      if rank(key) < rank(k) then Node(Delete(l, rank, key), a, k, r)
      else if rank(key) > rank(k) then Node(l, a, k, Delete(r, rank, key))
      else if l.Leaf? then r
      else if r.Leaf? then l
      else Node(l, a, MinKey(r), RemoveMin(r))
  }

  /** The node that delete frees. */
  function Freed(t: Tree, rank: Ranking, key: nat): set<nat> {
    match t
    case Leaf => {}
    case Node(l, a, k, r) =>
      if rank(key) < rank(k) then Freed(l, rank, key)
      else if rank(key) > rank(k) then Freed(r, rank, key)
      else if l.Leaf? || r.Leaf? then {a}
      else {MinAddr(r)}
  }

  /** One node is freed if the key is found, none otherwise. */
  lemma {:induction false} FreedIffFound(t: Tree, rank: Ranking, key: nat)
    requires Distinct(t)
    ensures |Freed(t, rank, key)| == if Find(t, rank, key) != 0 then 1 else 0
  {
    if t.Node? {
      FreedIffFound(t.left, rank, key);
      FreedIffFound(t.right, rank, key);
    }
  }

  /** The parent of the node found, `up` if that is the root. */
  function Parent(t: Tree, rank: Ranking, key: nat, up: nat): nat {
    match t
    case Leaf => 0
    case Node(l, a, k, r) =>
      if rank(key) < rank(k) then Parent(l, rank, key, a)
      else if rank(key) > rank(k) then Parent(r, rank, key, a)
      else up
  }

  ghost function Elements(t: Tree): set<nat> {
    match t
    case Leaf => {}
    case Node(l, _, k, r) => Elements(l) + {k} + Elements(r)
  }

  lemma {:induction false} ElementsOfKeys(t: Tree, k: nat)
    ensures k in Elements(t) <==> k in Keys(t)
  {
    if t.Node? {
      ElementsOfKeys(t.left, k);
      ElementsOfKeys(t.right, k);
    }
  }

  lemma {:induction false} BoundsOfElements(t: Tree, rank: Ranking, x: int, k: nat)
    requires k in Elements(t)
    ensures AllBelow(t, rank, x) ==> rank(k) < x
    ensures AllAbove(t, rank, x) ==> rank(k) > x
  {
    if t.Node? {
      if k in Elements(t.left) {
        BoundsOfElements(t.left, rank, x, k);
      } else if k in Elements(t.right) {
        BoundsOfElements(t.right, rank, x, k);
      }
    }
  }

  lemma {:induction false} Transitive(t: Tree, rank: Ranking, x: int, y: int)
    requires x <= y
    ensures AllBelow(t, rank, x) ==> AllBelow(t, rank, y)
    ensures AllAbove(t, rank, y) ==> AllAbove(t, rank, x)
  {
    if t.Node? {
      Transitive(t.left, rank, x, y);
      Transitive(t.right, rank, x, y);
    }
  }

  /** Find is right in both directions. */
  lemma {:induction false} FindIsMembership(t: Tree, rank: Ranking, key: nat)
    requires Ordered(t, rank) && Distinct(t)
    ensures Find(t, rank, key) != 0 <==> exists k :: k in Elements(t) && rank(k) == rank(key)
    ensures Find(t, rank, key) != 0 ==> Find(t, rank, key) in Addrs(t)
  {
    if t.Node? {
      FindIsMembership(t.left, rank, key);
      FindIsMembership(t.right, rank, key);
      forall k | k in Elements(t) && rank(k) == rank(key)
        ensures rank(key) < rank(t.key) ==> k in Elements(t.left)
        ensures rank(key) > rank(t.key) ==> k in Elements(t.right)
      {
        if k in Elements(t.left) {
          BoundsOfElements(t.left, rank, rank(t.key), k);
        } else if k in Elements(t.right) {
          BoundsOfElements(t.right, rank, rank(t.key), k);
        }
      }
      assert t.key in Elements(t);
    }
  }

  /** tsearch is insertion into a set of keys that are different in rank. */
  lemma {:induction false} InsertIsSetInsert(t: Tree, rank: Ranking, key: nat, newAddr: nat)
    requires Ordered(t, rank) && Distinct(t) && newAddr != 0 && newAddr !in Addrs(t)
    ensures var t' := Insert(t, rank, key, newAddr);
            && Ordered(t', rank) && Distinct(t')
            && (forall x :: AllBelow(t, rank, x) && rank(key) < x ==> AllBelow(t', rank, x))
            && (forall x :: AllAbove(t, rank, x) && rank(key) > x ==> AllAbove(t', rank, x))
            && if Find(t, rank, key) != 0 then t' == t
               else Elements(t') == Elements(t) + {key} && Addrs(t') == Addrs(t) + {newAddr}
  {
    if t.Node? {
      if rank(key) < rank(t.key) {
        InsertIsSetInsert(t.left, rank, key, newAddr);
      } else if rank(key) > rank(t.key) {
        InsertIsSetInsert(t.right, rank, key, newAddr);
      }
    }
  }

  lemma {:induction false} MinIsLeast(t: Tree, rank: Ranking)
    requires t.Node? && Ordered(t, rank) && Distinct(t)
    ensures Ordered(RemoveMin(t), rank) && Distinct(RemoveMin(t))
    ensures AllAbove(RemoveMin(t), rank, rank(MinKey(t)))
    ensures MinKey(t) in Elements(t) && Elements(RemoveMin(t)) == Elements(t) - {MinKey(t)}
    ensures MinAddr(t) in Addrs(t) && Addrs(RemoveMin(t)) == Addrs(t) - {MinAddr(t)}
    ensures forall x :: AllAbove(t, rank, x) ==> AllAbove(RemoveMin(t), rank, x) && rank(MinKey(t)) > x
    ensures forall x :: AllBelow(t, rank, x) ==> AllBelow(RemoveMin(t), rank, x)
  {
    if t.left.Leaf? {
      KeyNotBeside(t, rank);
    } else {
      MinIsLeast(t.left, rank);
      BoundsOfElements(t.left, rank, rank(t.key), MinKey(t));
      Transitive(t.right, rank, rank(MinKey(t)), rank(t.key));
      KeyNotBeside(t, rank);
      NotAmong(t.right, rank, rank(t.key), MinKey(t));
    }
  }

  lemma KeyNotBeside(t: Tree, rank: Ranking)
    requires t.Node? && Ordered(t, rank)
    ensures t.key !in Elements(t.left) && t.key !in Elements(t.right)
  {
    if t.key in Elements(t.left) {
      BoundsOfElements(t.left, rank, rank(t.key), t.key);
    }
    if t.key in Elements(t.right) {
      BoundsOfElements(t.right, rank, rank(t.key), t.key);
    }
  }

  lemma NotAmong(t: Tree, rank: Ranking, x: int, k: nat)
    ensures AllAbove(t, rank, x) && rank(k) <= x ==> k !in Elements(t)
    ensures AllBelow(t, rank, x) && rank(k) >= x ==> k !in Elements(t)
  {
    if k in Elements(t) {
      BoundsOfElements(t, rank, x, k);
    }
  }

  lemma {:induction false} DeleteKeepsOrder(t: Tree, rank: Ranking, key: nat)
    requires Ordered(t, rank) && Distinct(t)
    ensures Ordered(Delete(t, rank, key), rank)
    ensures forall x :: AllBelow(t, rank, x) ==> AllBelow(Delete(t, rank, key), rank, x)
    ensures forall x :: AllAbove(t, rank, x) ==> AllAbove(Delete(t, rank, key), rank, x)
  {
    if t.Node? {
      if rank(key) < rank(t.key) {
        DeleteKeepsOrder(t.left, rank, key);
      } else if rank(key) > rank(t.key) {
        DeleteKeepsOrder(t.right, rank, key);
      } else if t.left.Node? && t.right.Node? {
        MinIsLeast(t.right, rank);
        BoundsOfElements(t.right, rank, rank(t.key), MinKey(t.right));
        Transitive(t.left, rank, rank(t.key), rank(MinKey(t.right)));
        forall x | AllBelow(t, rank, x)
          ensures rank(MinKey(t.right)) < x
        {
          BoundsOfElements(t.right, rank, x, MinKey(t.right));
        }
      }
    }
  }

  lemma {:induction false} DeleteFreesOne(t: Tree, rank: Ranking, key: nat)
    requires Ordered(t, rank) && Distinct(t)
    ensures Distinct(Delete(t, rank, key)) && Freed(t, rank, key) <= Addrs(t)
    ensures Addrs(Delete(t, rank, key)) == Addrs(t) - Freed(t, rank, key)
  {
    if t.Node? {
      if rank(key) < rank(t.key) {
        DeleteFreesOne(t.left, rank, key);
      } else if rank(key) > rank(t.key) {
        DeleteFreesOne(t.right, rank, key);
      } else if t.left.Node? && t.right.Node? {
        MinIsLeast(t.right, rank);
      }
    }
  }

  lemma {:induction false} DeleteRemoves(t: Tree, rank: Ranking, key: nat, k: nat)
    requires Ordered(t, rank) && Distinct(t)
    ensures k in Elements(Delete(t, rank, key)) <==> k in Elements(t) && rank(k) != rank(key)
  {
    if t.Node? {
      DeletedElements(t, rank, key);
      if rank(key) < rank(t.key) {
        DeleteRemoves(t.left, rank, key, k);
      } else if rank(key) > rank(t.key) {
        DeleteRemoves(t.right, rank, key, k);
      } else if t.left.Node? && t.right.Node? {
        MinIsLeast(t.right, rank);
      }
    }
  }

  /** tdelete removes the keys of that rank (there is at most one) and frees exactly one node for it. */
  lemma DeleteIsSetRemove(t: Tree, rank: Ranking, key: nat)
    requires Ordered(t, rank) && Distinct(t)
    ensures var t' := Delete(t, rank, key);
            && Ordered(t', rank) && Distinct(t')
            && Elements(t') == (set k | k in Elements(t) && rank(k) != rank(key))
            && Addrs(t') == Addrs(t) - Freed(t, rank, key) && Freed(t, rank, key) <= Addrs(t)
  {
    hide *;
    DeleteKeepsOrder(t, rank, key);
    DeleteFreesOne(t, rank, key);
    forall k
      ensures k in Elements(Delete(t, rank, key)) <==> k in Elements(t) && rank(k) != rank(key)
    {
      DeleteRemoves(t, rank, key, k);
    }
  }

  /** Where the elements of one rank can be. */
  lemma DeletedElements(t: Tree, rank: Ranking, key: nat)
    requires t.Node? && Ordered(t, rank)
    ensures forall k :: k in Elements(t.left) ==> rank(k) < rank(t.key)
    ensures forall k :: k in Elements(t.right) ==> rank(k) > rank(t.key)
  {
    forall k | k in Elements(t.left)
      ensures rank(k) < rank(t.key)
    {
      BoundsOfElements(t.left, rank, rank(t.key), k);
    }
    forall k | k in Elements(t.right)
      ensures rank(k) > rank(t.key)
    {
      BoundsOfElements(t.right, rank, rank(t.key), k);
    }
  }

  // ---------------------------------------------------------------------------------------
  // Walking

  datatype Visit = Preorder | Postorder | Endorder | LeafVisit

  datatype Event = Event(key: nat, visit: Visit, level: nat)

  /** The calls of the action made by walk. */
  function Events(t: Tree, level: nat): seq<Event> {
    match t
    case Leaf => []
    case Node(l, _, k, r) =>
      if l.Leaf? && r.Leaf? then [Event(k, LeafVisit, level)]
      else
        [Event(k, Preorder, level)] + Events(l, level + 1) + [Event(k, Postorder, level)]
        + Events(r, level + 1) + [Event(k, Endorder, level)]
  }

  /** The keys of the visits that are in order. */
  function InOrder(events: seq<Event>): seq<nat> {
    if events == [] then []
    else
      var rest := InOrder(events[1..]);
      if events[0].visit.Postorder? || events[0].visit.LeafVisit? then [events[0].key] + rest else rest
  }

  lemma {:induction false} InOrderConcat(a: seq<Event>, b: seq<Event>)
    ensures InOrder(a + b) == InOrder(a) + InOrder(b)
  {
    if a == [] {
      assert a + b == b;
    } else {
      InOrderConcat(a[1..], b);
      assert (a + b)[1..] == a[1..] + b;
    }
  }

  /** The postorder and leaf visits list the keys in tree order. */
  lemma {:induction false} InOrderIsKeys(t: Tree, level: nat)
    ensures InOrder(Events(t, level)) == Keys(t)
  {
    if t.Node? && !(t.left.Leaf? && t.right.Leaf?) {
      var k := t.key;
      var pre, post, end := [Event(k, Preorder, level)], [Event(k, Postorder, level)], [Event(k, Endorder, level)];
      var l, r := Events(t.left, level + 1), Events(t.right, level + 1);
      InOrderIsKeys(t.left, level + 1);
      InOrderIsKeys(t.right, level + 1);
      InOrderConcat(pre + l + post + r, end);
      InOrderConcat(pre + l + post, r);
      InOrderConcat(pre + l, post);
      InOrderConcat(pre, l);
      OneEvent(pre[0]);
      OneEvent(post[0]);
      OneEvent(end[0]);
    } else if t.Node? {
      OneEvent(Event(t.key, LeafVisit, level));
    }
  }

  lemma OneEvent(e: Event)
    ensures InOrder([e]) == if e.visit.Postorder? || e.visit.LeafVisit? then [e.key] else []
  {
    assert [e][1..] == [];
  }

  /** twalk: strictly increasing, each key once. */
  lemma WalkIsSorted(t: Tree, rank: Ranking)
    requires Ordered(t, rank)
    ensures Increasing(InOrder(Events(t, 0)), rank)
    ensures forall k :: k in InOrder(Events(t, 0)) <==> k in Elements(t)
  {
    InOrderIsKeys(t, 0);
    OrderedIffIncreasing(t, rank);
    forall k
      ensures k in Keys(t) <==> k in Elements(t)
    {
      ElementsOfKeys(t, k);
    }
  }

  // The other two orders, with the levels

  /** The visits of one kind, a leaf's only visit included. */
  function Select(events: seq<Event>, v: Visit): seq<(nat, nat)> {
    if events == [] then []
    else
      var rest := Select(events[1..], v);
      if events[0].visit == v || events[0].visit.LeafVisit? then [(events[0].key, events[0].level)] + rest else rest
  }

  /** Keys with their depths: a node before, between or after its subtrees. */
  function Listed(t: Tree, level: nat, v: Visit): seq<(nat, nat)> {
    if t.Leaf? then []
    else
      var k, l, r := [(t.key, level)], Listed(t.left, level + 1, v), Listed(t.right, level + 1, v);
      if v.Preorder? then k + l + r else if v.Postorder? then l + k + r else l + r + k
  }

  function Childless(t: Tree): nat {
    if t.Leaf? then 0 else if t.left.Leaf? && t.right.Leaf? then 1 else Childless(t.left) + Childless(t.right)
  }

  lemma {:induction false} SelectConcat(a: seq<Event>, b: seq<Event>, v: Visit)
    ensures Select(a + b, v) == Select(a, v) + Select(b, v)
  {
    if a == [] {
      assert a + b == b;
    } else {
      SelectConcat(a[1..], b, v);
      assert (a + b)[1..] == a[1..] + b;
    }
  }

  lemma SelectOne(k: nat, visit: Visit, level: nat, v: Visit)
    ensures Select([Event(k, visit, level)], v) == if visit == v || visit.LeafVisit? then [(k, level)] else []
  {
    assert [Event(k, visit, level)][1..] == [];
  }

  /** Every node is visited before, between and after its subtrees, at its depth. */
  lemma {:induction false} WalkOrders(t: Tree, level: nat, v: Visit)
    requires !v.LeafVisit?
    ensures Select(Events(t, level), v) == Listed(t, level, v)
    decreases t
  {
    hide Events, Select;
    if t.Node? {
      WalkOrders(t.left, level + 1, v);
      WalkOrders(t.right, level + 1, v);
      WalkOrder(t, level, v);
      assert t.left.Leaf? ==> Listed(t.left, level + 1, v) == [];
      assert t.right.Leaf? ==> Listed(t.right, level + 1, v) == [];
    } else {
      NoEvents(level, v);
    }
  }

  lemma NoEvents(level: nat, v: Visit)
    ensures Select(Events(Leaf, level), v) == []
  {
  }

  /** Three times, but once if it has no children. */
  lemma {:induction false} VisitCount(t: Tree, level: nat)
    ensures |Events(t, level)| == 3 * |Keys(t)| - 2 * Childless(t)
    decreases t
  {
    if t.Node? {
      VisitCount(t.left, level + 1);
      VisitCount(t.right, level + 1);
    }
  }

  lemma WalkOrder(t: Tree, level: nat, v: Visit)
    requires t.Node?
    ensures var one := (x: Visit) => if x == v then [(t.key, level)] else [];
            Select(Events(t, level), v) ==
            if t.left.Leaf? && t.right.Leaf? then [(t.key, level)]
            else one(Preorder) + Select(Events(t.left, level + 1), v) + one(Postorder) + Select(Events(t.right, level + 1), v) + one(Endorder)
  {
    hide Select;
    var k, l, r := t.key, Events(t.left, level + 1), Events(t.right, level + 1);
    var a, b, c := [Event(k, Preorder, level)], [Event(k, Postorder, level)], [Event(k, Endorder, level)];
    SelectOne(k, LeafVisit, level, v);
    SelectOne(k, Preorder, level, v);
    SelectOne(k, Postorder, level, v);
    SelectOne(k, Endorder, level, v);
    SelectConcat(a, l, v);
    SelectConcat(a + l, b, v);
    SelectConcat(a + l + b, r, v);
    SelectConcat(a + l + b + r, c, v);
  }
}
