/**
  tsearch, tfind, tdelete and twalk on linked nodes.  The nodes live in an explicit store; a location
  is a place that holds a node pointer, which is what the source's `struct node **` ranges over.
 */
module SearchTreeCode {
  import opened SearchTrees

  datatype Cell = Cell(key: nat, left: nat, right: nat)

  datatype Store = Store(root: nat, nodes: map<nat, Cell>)

  datatype Loc = Root | LeftOf(addr: nat) | RightOf(addr: nat)

  predicate InStore(s: Store, p: Loc) {
    p.Root? || p.addr in s.nodes
  }

  function Get(s: Store, p: Loc): nat
    requires InStore(s, p)
  {
    match p
    case Root => s.root
    case LeftOf(a) => s.nodes[a].left
    case RightOf(a) => s.nodes[a].right
  }

  function Put(s: Store, p: Loc, v: nat): Store
    requires InStore(s, p)
  {
    match p
    case Root => s.(root := v)
    case LeftOf(a) => s.(nodes := s.nodes[a := s.nodes[a].(left := v)])
    case RightOf(a) => s.(nodes := s.nodes[a := s.nodes[a].(right := v)])
  }

  /** The pointer v is the root of the linked form of t. */
  ghost predicate Holds(s: Store, v: nat, t: Tree)
    decreases t
  {
    match t
    case Leaf => v == 0
    case Node(l, a, k, r) =>
      v == a && a != 0 && a in s.nodes && s.nodes[a].key == k
      && Holds(s, s.nodes[a].left, l) && Holds(s, s.nodes[a].right, r)
  }

  // ---------------------------------------------------------------------------------------
  // A tree with one subtree taken out

  datatype Context = Top
                   | InLeft(up: Context, addr: nat, key: nat, right: Tree)
                   | InRight(up: Context, left: Tree, addr: nat, key: nat)

  function Plug(c: Context, t: Tree): Tree {
    match c
    case Top => t
    case InLeft(up, a, k, r) => Plug(up, Node(t, a, k, r))
    case InRight(up, l, a, k) => Plug(up, Node(l, a, k, t))
  }

  /** Where the pointer to the missing subtree is kept; the outermost one is at `base`. */
  function Hole(base: Loc, c: Context): Loc {
    match c
    case Top => base
    case InLeft(_, a, _, _) => LeftOf(a)
    case InRight(_, _, a, _) => RightOf(a)
  }

  function ContextAddrs(c: Context): set<nat> {
    match c
    case Top => {}
    case InLeft(up, a, _, r) => ContextAddrs(up) + {a} + Addrs(r)
    case InRight(up, l, a, _) => ContextAddrs(up) + {a} + Addrs(l)
  }

  /** The context is linked from `base` on, whatever is in its hole. */
  ghost predicate Around(s: Store, base: Loc, c: Context)
    ensures Around(s, base, c) ==> InStore(s, Hole(base, c)) && InStore(s, base)
  {
    match c
    case Top => InStore(s, base)
    case InLeft(up, a, k, r) =>
      Around(s, base, up) && Get(s, Hole(base, up)) == a && a != 0 && a in s.nodes
      && s.nodes[a].key == k && Holds(s, s.nodes[a].right, r)
    case InRight(up, l, a, k) =>
      Around(s, base, up) && Get(s, Hole(base, up)) == a && a != 0 && a in s.nodes
      && s.nodes[a].key == k && Holds(s, s.nodes[a].left, l)
  }

  /** The nodes of the context are distinct and none is in `used` or is the node of `base`. */
  ghost predicate Apart(base: Loc, c: Context, used: set<nat>) {
    match c
    case Top => base.Root? || base.addr !in used
    case InLeft(up, a, _, r) => a !in used && a !in Addrs(r) && Addrs(r) !! used && Apart(base, up, used + {a} + Addrs(r))
    case InRight(up, l, a, _) => a !in used && a !in Addrs(l) && Addrs(l) !! used && Apart(base, up, used + {a} + Addrs(l))
  }

  lemma {:induction false} ApartMeans(base: Loc, c: Context, used: set<nat>)
    requires Apart(base, c, used)
    ensures ContextAddrs(c) !! used && (base.Root? || (base.addr !in used && base.addr !in ContextAddrs(c)))
    decreases c
  {
    match c {
      case Top => {}
      case InLeft(up, a, _, r) => { ApartMeans(base, up, used + {a} + Addrs(r)); }
      case InRight(up, l, a, _) => { ApartMeans(base, up, used + {a} + Addrs(l)); }
    }
  }

  lemma {:induction false} ApartLess(base: Loc, c: Context, used: set<nat>, fewer: set<nat>)
    requires Apart(base, c, used) && fewer <= used
    ensures Apart(base, c, fewer)
    decreases c
  {
    match c {
      case Top => {}
      case InLeft(up, a, _, r) => { ApartLess(base, up, used + {a} + Addrs(r), fewer + {a} + Addrs(r)); }
      case InRight(up, l, a, _) => { ApartLess(base, up, used + {a} + Addrs(l), fewer + {a} + Addrs(l)); }
    }
  }

  ghost predicate SameAt(s: Store, s': Store, addrs: set<nat>) {
    forall a :: a in addrs && a in s.nodes ==> a in s'.nodes && s'.nodes[a] == s.nodes[a]
  }

  lemma {:induction false} HoldsFrame(s: Store, s': Store, v: nat, t: Tree)
    requires Holds(s, v, t) && SameAt(s, s', Addrs(t))
    ensures Holds(s', v, t)
    decreases t
  {
    if t.Node? {
      HoldsFrame(s, s', s.nodes[v].left, t.left);
      HoldsFrame(s, s', s.nodes[v].right, t.right);
    }
  }

  lemma {:induction false} AroundFrame(s: Store, s': Store, base: Loc, c: Context)
    requires Around(s, base, c) && SameAt(s, s', ContextAddrs(c))
    requires InStore(s', base) && (c.Top? || Get(s', base) == Get(s, base))
    ensures Around(s', base, c)
  {
    match c {
      case Top => {}
      case InLeft(up, a, _, r) => {
        AroundFrame(s, s', base, up);
        assert a in ContextAddrs(c);
        HoldsFrame(s, s', s.nodes[a].right, r);
        HoleKept(s, s', base, up);
      }
      case InRight(up, l, a, _) => {
        AroundFrame(s, s', base, up);
        assert a in ContextAddrs(c);
        HoldsFrame(s, s', s.nodes[a].left, l);
        HoleKept(s, s', base, up);
      }
    }
  }

  lemma HoleKept(s: Store, s': Store, base: Loc, c: Context)
    requires InStore(s, Hole(base, c)) && SameAt(s, s', ContextAddrs(c)) && InStore(s', base)
    requires c.Top? ==> Get(s', base) == Get(s, base)
    ensures InStore(s', Hole(base, c)) && Get(s', Hole(base, c)) == Get(s, Hole(base, c))
  {
    if !c.Top? {
      assert c.addr in ContextAddrs(c);
    }
  }

  /** Filling the hole does not disturb what is around it. */
  lemma AroundPut(s: Store, base: Loc, c: Context, v: nat, used: set<nat>)
    requires Around(s, base, c) && Apart(base, c, used)
    ensures Around(Put(s, Hole(base, c), v), base, c)
  {
    var s' := Put(s, Hole(base, c), v);
    match c {
      case Top => {}
      case InLeft(up, a, _, r) => {
        ApartMeans(base, up, used + {a} + Addrs(r));
        AroundFrame(s, s', base, up);
        HoleKept(s, s', base, up);
        HoldsFrame(s, s', s.nodes[a].right, r);
      }
      case InRight(up, l, a, _) => {
        ApartMeans(base, up, used + {a} + Addrs(l));
        AroundFrame(s, s', base, up);
        HoleKept(s, s', base, up);
        HoldsFrame(s, s', s.nodes[a].left, l);
      }
    }
  }

  /** A context and a subtree in its hole make the whole tree. */
  lemma {:induction false} Recompose(s: Store, base: Loc, c: Context, t: Tree)
    requires Around(s, base, c) && Holds(s, Get(s, Hole(base, c)), t)
    ensures InStore(s, base) && Holds(s, Get(s, base), Plug(c, t))
    decreases c
  {
    match c {
      case Top => {}
      case InLeft(up, a, k, r) => { Recompose(s, base, up, Node(t, a, k, r)); }
      case InRight(up, l, a, k) => { Recompose(s, base, up, Node(l, a, k, t)); }
    }
  }

  /** The place p holds the subtree t of the tree in context c. */
  ghost predicate At(s: Store, base: Loc, c: Context, t: Tree) {
    Around(s, base, c) && Holds(s, Get(s, Hole(base, c)), t) && Apart(base, c, Addrs(t)) && Distinct(t)
  }

  lemma Descend(s: Store, base: Loc, c: Context, t: Tree)
    requires At(s, base, c, t) && t.Node?
    ensures At(s, base, InLeft(c, t.addr, t.key, t.right), t.left)
    ensures At(s, base, InRight(c, t.left, t.addr, t.key), t.right)
  {
    assert Addrs(t.left) + {t.addr} + Addrs(t.right) == Addrs(t);
    assert Addrs(t.right) + {t.addr} + Addrs(t.left) == Addrs(t);
  }

  /** Putting another tree into the hole, possibly along with changes to nodes outside the context. */
  lemma Replaced(s: Store, s': Store, base: Loc, c: Context, t: Tree, v: nat, t': Tree)
    requires At(s, base, c, t) && Holds(s', v, t')
    requires var q := Put(s, Hole(base, c), v);
             SameAt(q, s', ContextAddrs(c)) && InStore(s', base) && InStore(q, base) && Get(s', base) == Get(q, base)
    ensures Holds(s', Get(s', base), Plug(c, t'))
  {
    var q := Put(s, Hole(base, c), v);
    AroundPut(s, base, c, v, Addrs(t));
    AroundFrame(q, s', base, c);
    HoleKept(q, s', base, c);
    assert Get(q, Hole(base, c)) == v;
    Recompose(s', base, c, t');
  }

  // ---------------------------------------------------------------------------------------
  // Insertion at an empty place

  function Linked(s: Store, p: Loc, a: nat, key: nat): Store
    requires InStore(s, p) && a !in s.nodes
  {
    Put(s.(nodes := s.nodes[a := Cell(key, 0, 0)]), p, a)
  }

  lemma LinkedHolds(s: Store, c: Context, a: nat, key: nat)
    requires At(s, Root, c, Leaf) && a !in s.nodes && a != 0
    ensures var s' := Linked(s, Hole(Root, c), a, key);
            Holds(s', s'.root, Plug(c, Node(Leaf, a, key, Leaf))) && s'.nodes.Keys == s.nodes.Keys + {a}
  {
    var p := Hole(Root, c);
    var s', q := Linked(s, p, a, key), Put(s, p, a);
    assert forall b :: b in q.nodes ==> b != a;
    Replaced(s, s', Root, c, Leaf, a, Node(Leaf, a, key, Leaf));
  }

  // ---------------------------------------------------------------------------------------
  // Deletion

  function Without(s: Store, a: nat): Store {
    s.(nodes := s.nodes - {a})
  }

  /** A node with at most one child is replaced by that child. */
  lemma SplicedHolds(s: Store, c: Context, t: Tree, v: nat, t': Tree)
    requires At(s, Root, c, t) && t.Node?
    requires (t.left.Leaf? && v == s.nodes[t.addr].right && t' == t.right)
             || (t.right.Leaf? && v == s.nodes[t.addr].left && t' == t.left)
    ensures var s' := Without(Put(s, Hole(Root, c), v), t.addr);
            Holds(s', s'.root, Plug(c, t')) && s'.nodes.Keys == s.nodes.Keys - {t.addr}
  {
    var q := Put(s, Hole(Root, c), v);
    var s' := Without(q, t.addr);
    ApartMeans(Root, c, Addrs(t));
    assert c.Top? || c.addr in ContextAddrs(c);
    HoldsFrame(s, s', v, t');
    Replaced(s, s', Root, c, t, v, t');
  }

  /** The successor's node min is taken out of the right subtree of t, its key moves to t. */
  function Promoted(s: Store, a: nat, minp: Loc, min: nat): Store
    requires a in s.nodes && min in s.nodes && a != min && InStore(s, minp) && (minp.Root? || minp.addr != min)
  {
    var s1 := s.(nodes := s.nodes[a := s.nodes[a].(key := s.nodes[min].key)]);
    var s2 := Without(s1, min);
    Put(s2, minp, s.nodes[min].right)
  }

  lemma PromotedRight(s: Store, a: nat, d: Context, m: Tree)
    requires a in s.nodes && a != 0 && At(s, RightOf(a), d, m) && m.Node? && m.left.Leaf?
    ensures var minp := Hole(RightOf(a), d);
            && m.addr in s.nodes && a != m.addr && InStore(s, minp) && minp.addr != m.addr
            && var s' := Promoted(s, a, minp, m.addr);
               && a in s'.nodes && Holds(s', s'.nodes[a].right, Plug(d, m.right))
               && s'.nodes[a].key == m.key && s'.nodes[a].left == s.nodes[a].left
               && s'.root == s.root && s'.nodes.Keys == s.nodes.Keys - {m.addr}
               && SameAt(s, s', s.nodes.Keys - {a} - {m.addr} - ContextAddrs(d))
  {
    var base := RightOf(a);
    var minp := Hole(base, d);
    ApartMeans(base, d, Addrs(m));
    assert d.Top? || d.addr in ContextAddrs(d);
    var v := s.nodes[m.addr].right;
    var s', q := Promoted(s, a, minp, m.addr), Put(s, minp, v);
    HoldsFrame(s, s', v, m.right);
    assert Get(s', base) == Get(q, base);
    Replaced(s, s', base, d, m, v, m.right);
  }

  lemma {:induction false} PlugAddrs(c: Context, t: Tree)
    ensures Addrs(Plug(c, t)) == ContextAddrs(c) + Addrs(t)
    decreases c
  {
    match c {
      case Top => {}
      case InLeft(up, a, k, r) => { PlugAddrs(up, Node(t, a, k, r)); }
      case InRight(up, l, a, k) => { PlugAddrs(up, Node(l, a, k, t)); }
    }
  }

  lemma PromotedHolds(s: Store, c: Context, t: Tree, d: Context, m: Tree)
    requires At(s, Root, c, t) && t.Node?
    requires At(s, RightOf(t.addr), d, m) && m.Node? && m.left.Leaf? && Plug(d, m) == t.right
    ensures var minp := Hole(RightOf(t.addr), d);
            && m.addr in s.nodes && t.addr != m.addr && InStore(s, minp) && minp.addr != m.addr
            && var s' := Promoted(s, t.addr, minp, m.addr);
               && Holds(s', s'.root, Plug(c, Node(t.left, t.addr, m.key, Plug(d, m.right))))
               && s'.nodes.Keys == s.nodes.Keys - {m.addr}
  {
    var a := t.addr;
    PromotedRight(s, a, d, m);
    PlugAddrs(d, m);
    ApartMeans(Root, c, Addrs(t));
    var minp := Hole(RightOf(a), d);
    var s' := Promoted(s, a, minp, m.addr);
    HoldsFrame(s, s', s.nodes[a].left, t.left);
    AroundFrame(s, s', Root, c);
    HoleKept(s, s', Root, c);
    Recompose(s', Root, c, Node(t.left, a, m.key, Plug(d, m.right)));
  }

  lemma AtHolds(s: Store, base: Loc, c: Context, t: Tree)
    requires At(s, base, c, t)
    ensures InStore(s, Hole(base, c)) && Holds(s, Get(s, Hole(base, c)), t) && Distinct(t)
  {
  }

  lemma NullChildren(s: Store, n: nat, t: Tree)
    requires Holds(s, n, t) && t.Node?
    ensures n in s.nodes && n == t.addr
    ensures (s.nodes[n].left == 0 <==> t.left.Leaf?) && (s.nodes[n].right == 0 <==> t.right.Leaf?)
  {
  }

  /** The node at a holds a key that compares equal. */
  ghost predicate NodeOf(s: Store, a: nat, rank: Ranking, key: nat) {
    a in s.nodes && rank(s.nodes[a].key) == rank(key)
  }

  /** a is the parent of such a node, or such a node itself if that is the root. */
  ghost predicate AboveNodeOf(s: Store, a: nat, rank: Ranking, key: nat) {
    if NodeOf(s, s.root, rank, key) then a == s.root
    else a in s.nodes && (NodeOf(s, s.nodes[a].left, rank, key) || NodeOf(s, s.nodes[a].right, rank, key))
  }

  lemma {:induction false} KeyAmongElements(s: Store, v: nat, t: Tree, a: nat)
    requires Holds(s, v, t) && a in Addrs(t)
    ensures a in s.nodes && s.nodes[a].key in Elements(t)
    decreases t
  {
    if a in Addrs(t.left) {
      KeyAmongElements(s, s.nodes[v].left, t.left, a);
    } else if a in Addrs(t.right) {
      KeyAmongElements(s, s.nodes[v].right, t.right, a);
    }
  }

  /** The root pointer and the nodes reachable from it; `tree` is the tree they form. */
  class SearchTree {
    const rank: Ranking
    var store: Store
    ghost var tree: Tree

    /** Linked as `tree`, no node shared or leaked, and ordered. */
    ghost predicate Valid()
      reads this
    {
      Holds(store, store.root, tree) && Distinct(tree) && Ordered(tree, rank) && store.nodes.Keys == Addrs(tree)
    }

    constructor (rank: Ranking)
      ensures Valid() && this.rank == rank && tree == Leaf
    {
      this.rank, store, tree := rank, Store(0, map[]), Leaf;
    }

    /** compar. */
    function Compare(a: nat, b: nat): int {
      rank(a) - rank(b)
    }

    /** tsearch; malloc answers with the address newAddr if it is granted. */
    method Tsearch(key: nat, granted: bool, newAddr: nat) returns (r: nat)
      requires Valid() && newAddr != 0 && newAddr !in store.nodes
      modifies this
      ensures Valid()
      ensures if old(Find(tree, rank, key)) != 0 then r == old(Find(tree, rank, key)) && tree == old(tree) && store == old(store)
              else if !granted then r == 0 && tree == old(tree) && store == old(store)
              else r == newAddr && tree == Insert(old(tree), rank, key, newAddr)
                   && Elements(tree) == old(Elements(tree)) + {key}
      ensures r != 0 ==> NodeOf(store, r, rank, key) && store.nodes[r].key in Elements(tree)
    {
      InsertIsSetInsert(tree, rank, key, newAddr);
      hide Distinct, Ordered, Insert, Find;
      r := TsearchAt(key, granted, newAddr, Root, Top, tree);
      if r != 0 {
        KeyAmongElements(store, store.root, tree, r);
      }
    }

    method TsearchAt(key: nat, granted: bool, newAddr: nat, p: Loc, ghost c: Context, ghost t: Tree) returns (r: nat)
      requires At(store, Root, c, t) && p == Hole(Root, c) && Plug(c, t) == tree && newAddr != 0 && newAddr !in store.nodes
      requires Find(t, rank, key) == Find(tree, rank, key)
      requires Plug(c, Insert(t, rank, key, newAddr)) == Insert(tree, rank, key, newAddr)
      modifies this
      ensures if old(Find(tree, rank, key)) != 0 then r == old(Find(tree, rank, key)) && tree == old(tree) && store == old(store)
              else if !granted then r == 0 && tree == old(tree) && store == old(store)
              else r == newAddr && tree == Insert(old(tree), rank, key, newAddr) && Holds(store, store.root, tree)
                   && store.nodes.Keys == old(store.nodes.Keys) + {newAddr}
      ensures r != 0 ==> NodeOf(store, r, rank, key)
      decreases t
    {
      var n := Get(store, p);
      if n == 0 {
        if !granted {
          return 0;
        }
        LinkedHolds(store, c, newAddr, key);
        store := store.(nodes := store.nodes[newAddr := Cell(key, 0, 0)]);
        store := Put(store, p, newAddr);
        tree := Insert(tree, rank, key, newAddr);
        return newAddr;
      }
      Descend(store, Root, c, t);
      var cmp := Compare(key, store.nodes[n].key);
      if cmp < 0 {
        r := TsearchAt(key, granted, newAddr, LeftOf(n), InLeft(c, t.addr, t.key, t.right), t.left);
      } else if cmp > 0 {
        r := TsearchAt(key, granted, newAddr, RightOf(n), InRight(c, t.left, t.addr, t.key), t.right);
      } else {
        r := n;
      }
    }

    /** tfind. */
    method Tfind(key: nat) returns (r: nat)
      requires Valid()
      ensures r == Find(tree, rank, key)
      ensures r != 0 <==> exists k :: k in Elements(tree) && rank(k) == rank(key)
      ensures r != 0 ==> NodeOf(store, r, rank, key) && store.nodes[r].key in Elements(tree)
    {
      FindIsMembership(tree, rank, key);
      r := TfindAt(key, Root, tree);
      if r != 0 {
        KeyAmongElements(store, store.root, tree, r);
      }
    }

    method TfindAt(key: nat, p: Loc, ghost t: Tree) returns (r: nat)
      requires InStore(store, p) && Holds(store, Get(store, p), t)
      ensures r == Find(t, rank, key) && (r != 0 ==> NodeOf(store, r, rank, key))
      decreases t
    {
      var n := Get(store, p);
      if n == 0 {
        return 0;
      }
      var cmp := Compare(key, store.nodes[n].key);
      if cmp < 0 {
        r := TfindAt(key, LeftOf(n), t.left);
      } else if cmp > 0 {
        r := TfindAt(key, RightOf(n), t.right);
      } else {
        r := n;
      }
    }

    /** tdelete: the parent of the node found, or that node itself if it was the root. */
    method Tdelete(key: nat) returns (r: nat)
      requires Valid()
      modifies this
      ensures Valid() && tree == Delete(old(tree), rank, key)
      ensures Elements(tree) == (set k | k in old(Elements(tree)) && rank(k) != rank(key))
      ensures store.nodes.Keys == old(store.nodes.Keys) - Freed(old(tree), rank, key)
      ensures var up := Parent(old(tree), rank, key, 0);
              r == if up != 0 then up else old(Find(tree, rank, key))
      ensures r != 0 <==> exists k :: k in old(Elements(tree)) && rank(k) == rank(key)
      ensures r != 0 ==> AboveNodeOf(old(store), r, rank, key)
    {
      FindIsMembership(tree, rank, key);
      DeleteIsSetRemove(tree, rank, key);
      hide Ordered, Elements;
      if store.root == 0 {
        return 0;
      }
      var p, parent := Root, 0;
      ghost var c, t := Top, tree;
      while Get(store, p) != 0
        invariant At(store, Root, c, t) && p == Hole(Root, c) && Plug(c, t) == tree && unchanged(this)
        invariant Find(t, rank, key) == Find(tree, rank, key)
        invariant Parent(t, rank, key, parent) == Parent(tree, rank, key, 0)
        invariant if parent == 0 then p == Root else p == LeftOf(parent) || p == RightOf(parent)
        invariant Plug(c, Delete(t, rank, key)) == Delete(tree, rank, key) && Freed(t, rank, key) == Freed(tree, rank, key)
        decreases t
      {
        Descend(store, Root, c, t);
        var n := Get(store, p);
        var cmp := Compare(key, store.nodes[n].key);
        if cmp == 0 {
          break;
        }
        parent := n;
        if cmp < 0 {
          p, c, t := LeftOf(n), InLeft(c, t.addr, t.key, t.right), t.left;
        } else {
          p, c, t := RightOf(n), InRight(c, t.left, t.addr, t.key), t.right;
        }
      }
      var n := Get(store, p);
      if n == 0 {
        return 0;
      }
      r := if parent != 0 then parent else n;
      assert NodeOf(store, n, rank, key) && AboveNodeOf(store, r, rank, key);
      RemoveAt(p, key, c, t);
    }

    /** The node found at p is removed. */
    method RemoveAt(p: Loc, ghost key: nat, ghost c: Context, ghost t: Tree)
      requires At(store, Root, c, t) && p == Hole(Root, c) && t.Node? && rank(key) == rank(t.key)
      modifies this
      ensures Holds(store, store.root, tree) && tree == Plug(c, Delete(t, rank, key))
      ensures store.nodes.Keys == old(store.nodes.Keys) - Freed(t, rank, key)
    {
      hide At, Holds, Distinct, Around, Apart;
      AtHolds(store, Root, c, t);
      var n := Get(store, p);
      NullChildren(store, n, t);
      if store.nodes[n].left == 0 {
        SplicedHolds(store, c, t, store.nodes[n].right, t.right);
        store := Put(store, p, store.nodes[n].right);
        store := Without(store, n);
      } else if store.nodes[n].right == 0 {
        SplicedHolds(store, c, t, store.nodes[n].left, t.left);
        store := Put(store, p, store.nodes[n].left);
        store := Without(store, n);
      } else {
        var minp, min;
        ghost var d, m;
        minp, min, d, m := Successor(n, t);
        PromotedHolds(store, c, t, d, m);
        var child := store.nodes[min].right;
        store := store.(nodes := store.nodes[n := store.nodes[n].(key := store.nodes[min].key)]);
        store := Without(store, min);
        store := Put(store, minp, child);
      }
      tree := Plug(c, Delete(t, rank, key));
    }

    /** The loop that looks for the least node of the right subtree of n. */
    method Successor(n: nat, ghost t: Tree) returns (minp: Loc, min: nat, ghost d: Context, ghost m: Tree)
      requires Holds(store, n, t) && t.Node? && t.right.Node? && Distinct(t)
      ensures At(store, RightOf(n), d, m) && m.Node? && m.left.Leaf? && Plug(d, m) == t.right
      ensures minp == Hole(RightOf(n), d) && min == m.addr == MinAddr(t.right) && m.key == MinKey(t.right)
      ensures Plug(d, m.right) == RemoveMin(t.right)
    {
      minp, min := RightOf(n), store.nodes[n].right;
      d, m := Top, t.right;
      NullChildren(store, n, t);
      NullChildren(store, min, m);
      while store.nodes[min].left != 0
        invariant At(store, RightOf(n), d, m) && m.Node? && Plug(d, m) == t.right
        invariant minp == Hole(RightOf(n), d) && min == m.addr && min in store.nodes
        invariant store.nodes[min].left == 0 <==> m.left.Leaf?
        invariant MinKey(m) == MinKey(t.right) && MinAddr(m) == MinAddr(t.right)
        invariant Plug(d, RemoveMin(m)) == RemoveMin(t.right)
        decreases m
      {
        Descend(store, RightOf(n), d, m);
        minp, d, m := LeftOf(min), InLeft(d, m.addr, m.key, m.right), m.left;
        min := store.nodes[min].left;
        NullChildren(store, min, m);
      }
    }

    /** twalk: the calls of the action, in order. */
    method Twalk() returns (events: seq<Event>)
      requires Valid()
      ensures events == Events(tree, 0) && Increasing(InOrder(events), rank)
      ensures forall k :: k in InOrder(events) <==> k in Elements(tree)
    {
      WalkIsSorted(tree, rank);
      events := Walk(store.root, 0, tree);
    }

    method Walk(n: nat, level: nat, ghost t: Tree) returns (events: seq<Event>)
      requires Holds(store, n, t)
      ensures events == Events(t, level)
      decreases t
    {
      if n == 0 {
        return [];
      }
      var cell := store.nodes[n];
      if cell.left == 0 && cell.right == 0 {
        return [Event(cell.key, LeafVisit, level)];
      }
      events := [Event(cell.key, Preorder, level)];
      if cell.left != 0 {
        var l := Walk(cell.left, level + 1, t.left);
        events := events + l;
      }
      events := events + [Event(cell.key, Postorder, level)];
      if cell.right != 0 {
        var r := Walk(cell.right, level + 1, t.right);
        events := events + r;
      }
      events := events + [Event(cell.key, Endorder, level)];
    }
  }
}
