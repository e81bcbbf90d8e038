/** Whole sequences of calls on the search tree and on the hash table. */
module SearchSessions {
  import T = SearchTrees
  import C = SearchTreeCode
  import H = HashSearch

  // ---------------------------------------------------------------------------------------
  // tsearch, tfind, tdelete

  datatype TreeOp = Search(key: nat, granted: bool) | Lookup(key: nat) | Remove(key: nat)

  ghost predicate HasRank(keys: set<nat>, rank: T.Ranking, key: nat) {
    exists k :: k in keys && rank(k) == rank(key)
  }

  /** The keys after one call: at most one of each rank, the first entered. */
  ghost function KeysAfter(keys: set<nat>, rank: T.Ranking, op: TreeOp): set<nat> {
    match op
    case Search(key, granted) => if granted && !HasRank(keys, rank, key) then keys + {key} else keys
    case Lookup(_) => keys
    case Remove(key) => set k | k in keys && rank(k) != rank(key)
  }

  ghost function KeysOf(ops: seq<TreeOp>, rank: T.Ranking): set<nat> {
    if ops == [] then {} else KeysAfter(KeysOf(ops[..|ops| - 1], rank), rank, ops[|ops| - 1])
  }

  lemma KeysStep(ops: seq<TreeOp>, n: nat, rank: T.Ranking)
    requires n < |ops|
    ensures KeysOf(ops[..n + 1], rank) == KeysAfter(KeysOf(ops[..n], rank), rank, ops[n])
  {
    assert ops[..n + 1][..n] == ops[..n];
  }

  /** A null pointer, a pointer to a node with its key, or (from tdelete) any other pointer. */
  datatype Reply = Null | Holding(key: nat) | Other

  /**
    What a call answers: null exactly if no key of that rank is there, for tsearch afterwards, else
    before; tsearch and tfind otherwise give a node that holds the key of that rank.
   */
  ghost predicate Answered(keys: set<nat>, rank: T.Ranking, op: TreeOp, reply: Reply) {
    match op
    case Search(key, granted) =>
      if HasRank(keys, rank, key) then HoldsKey(keys, rank, key, reply)
      else reply == if granted then Holding(key) else Null
    case Lookup(key) => if HasRank(keys, rank, key) then HoldsKey(keys, rank, key, reply) else reply.Null?
    case Remove(key) => if HasRank(keys, rank, key) then reply.Other? else reply.Null?
  }

  ghost predicate HoldsKey(keys: set<nat>, rank: T.Ranking, key: nat, reply: Reply) {
    reply.Holding? && reply.key in keys && rank(reply.key) == rank(key)
  }

  method TreeCall(tree: C.SearchTree, op: TreeOp, newAddr: nat) returns (reply: Reply)
    requires tree.Valid() && newAddr > 0 && forall a :: a in tree.store.nodes ==> a < newAddr
    modifies tree
    ensures tree.Valid() && forall a :: a in tree.store.nodes ==> a <= newAddr
    ensures T.Elements(tree.tree) == KeysAfter(old(T.Elements(tree.tree)), tree.rank, op)
    ensures Answered(old(T.Elements(tree.tree)), tree.rank, op, reply)
  {
    hide C.Holds, T.Distinct, T.Ordered, T.Elements, T.Insert, T.Delete, T.Find;
    T.FindIsMembership(tree.tree, tree.rank, op.key);
    match op {
      case Search(key, granted) =>
        T.InsertIsSetInsert(tree.tree, tree.rank, key, newAddr);
        var r := tree.Tsearch(key, granted, newAddr);
        reply := if r != 0 then Holding(tree.store.nodes[r].key) else Null;
      case Lookup(key) =>
        var r := tree.Tfind(key);
        reply := if r != 0 then Holding(tree.store.nodes[r].key) else Null;
      case Remove(key) =>
        var r := tree.Tdelete(key);
        reply := if r != 0 then Other else Null;
    }
  }

  /** Any sequence of calls: every answer, and the walk at the end, are those of the set of keys. */
  method TreeSession(rank: T.Ranking, ops: seq<TreeOp>) returns (replies: seq<Reply>, keys: seq<nat>)
    ensures |replies| == |ops| && forall n :: 0 <= n < |ops| ==> Answered(KeysOf(ops[..n], rank), rank, ops[n], replies[n])
    ensures T.Increasing(keys, rank) && forall k :: k in keys <==> k in KeysOf(ops, rank)
  {
    hide KeysAfter, Answered, KeysOf;
    var tree := new C.SearchTree(rank);
    replies := [];
    NoKeys(rank);
    for n := 0 to |ops|
      invariant fresh(tree) && tree.Valid() && tree.rank == rank && forall a :: a in tree.store.nodes ==> a <= n
      invariant T.Elements(tree.tree) == KeysOf(ops[..n], rank)
      invariant |replies| == n && forall i :: 0 <= i < n ==> Answered(KeysOf(ops[..i], rank), rank, ops[i], replies[i])
    {
      var f := TreeCall(tree, ops[n], n + 1);
      KeysStep(ops, n, rank);
      replies := replies + [f];
    }
    assert ops[..|ops|] == ops;
    var events := tree.Twalk();
    keys := T.InOrder(events);
  }

  lemma NoKeys(rank: T.Ranking)
    ensures KeysOf([], rank) == {} && T.Elements(T.Leaf) == {}
  {
  }

  // ---------------------------------------------------------------------------------------
  // hsearch

  datatype Answer = Missing | Found(entry: H.Entry)

  datatype Call = Call(item: H.Entry, action: H.Action)

  /** A first-write-wins map of at most n keys. */
  function MapAfter(m: map<H.Key, H.Entry>, n: nat, c: Call): map<H.Key, H.Entry> {
    if c.action == H.Enter && c.item.key !in m && |m| < n then m[c.item.key := c.item] else m
  }

  function MapOf(calls: seq<Call>, n: nat): map<H.Key, H.Entry> {
    if calls == [] then map[] else MapAfter(MapOf(calls[..|calls| - 1], n), n, calls[|calls| - 1])
  }

  lemma MapStep(calls: seq<Call>, i: nat, n: nat)
    requires i < |calls|
    ensures MapOf(calls[..i + 1], n) == MapAfter(MapOf(calls[..i], n), n, calls[i])
  {
    assert calls[..i + 1][..i] == calls[..i];
  }

  function AnswerOf(m: map<H.Key, H.Entry>, c: Call): Answer {
    if c.item.key in m then Found(m[c.item.key]) else Missing
  }

  method TableCall(table: H.HashTable, c: Call) returns (a: Answer)
    requires table.Valid() && table.table != null && table.items == |table.entries|
    requires H.Covers(H.Hash(c.item.key), table.table.Length)
    modifies table`items, table`entries, table.table, table.used
    ensures table.Valid() && table.items == |table.entries|
    ensures table.entries == MapAfter(old(table.entries), table.table.Length, c) && a == AnswerOf(table.entries, c)
  {
    hide H.Covers, H.Hash, H.Represents, H.Count, H.FirstFree, H.Probe;
    var r := table.Hsearch(c.item, c.action);
    a := if r >= 0 then Found(table.table[r]) else Missing;
  }

  /**
    Any sequence of hsearch calls on a new table of n slots, for keys whose paths cover it
    (HashSearch.ProbesCoverIff): every answer is that of a first-write-wins map of at most n keys.
   */
  method TableSession(n: nat, calls: seq<Call>) returns (answers: seq<Answer>)
    requires 0 < n < H.WORD && forall i :: 0 <= i < |calls| ==> H.Covers(H.Hash(calls[i].item.key), n)
    ensures |answers| == |calls|
    ensures forall i :: 0 <= i < |calls| ==> answers[i] == AnswerOf(MapOf(calls[..i + 1], n), calls[i])
  {
    hide H.Covers, H.Hash, H.Represents, H.Count, MapOf, MapAfter, AnswerOf;
    var table := new H.HashTable();
    var made := table.Hcreate(n, true, true);
    answers := [];
    NoEntries(n);
    for i := 0 to |calls|
      invariant fresh(table) && fresh(table.table) && fresh(table.used)
      invariant table.Valid() && table.table != null && table.table.Length == n
      invariant table.items == |table.entries| && table.entries == MapOf(calls[..i], n)
      invariant |answers| == i && forall j :: 0 <= j < i ==> answers[j] == AnswerOf(MapOf(calls[..j + 1], n), calls[j])
    {
      var a := TableCall(table, calls[i]);
      MapStep(calls, i, n);
      answers := answers + [a];
    }
  }

  lemma NoEntries(n: nat)
    ensures MapOf([], n) == map[]
  {
  }
}
