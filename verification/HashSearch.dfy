/** The open-addressed table of search_hash.c: hcreate, hdestroy and hsearch. */
module HashSearch {
  import opened Division

  const WORD: nat := 0x1_0000_0000_0000_0000  // unsigned long and size_t

  /** A character of a C string as unsigned char, other than the terminator. */
  predicate IsKey(s: string) {
    forall i :: 0 <= i < |s| ==> 1 <= s[i] as nat <= 255
  }

  type Key = s: string | IsKey(s) witness []

  datatype Entry = Entry(key: Key, data: nat)

  datatype Action = Find | Enter

  // ---------------------------------------------------------------------------------------
  // Hashing

  /** The djb2 hash: 33 * h + c for each character, in unsigned long. */
  function Hash(s: string): (h: nat)
    ensures h < WORD
  {
    if s == [] then 5381 else (33 * Hash(s[..|s| - 1]) + s[|s| - 1] as nat) % 0x1_0000_0000_0000_0000
  }

  method HashStr(s: Key) returns (h: nat)
    ensures h == Hash(s)
  {
    h := 5381;
    var i := 0;
    assert s[..0] == [];
    while i < |s|
      invariant 0 <= i <= |s| && h == Hash(s[..i])
    {
      var c := s[i] as nat;
      ShiftAndAdd(h, c);
      assert s[..i + 1][..i] == s[..i];
      h := ((h * 32 % WORD + h) % WORD + c) % WORD;
      i := i + 1;
    }
    assert s[..i] == s;
  }

  lemma ShiftAndAdd(h: nat, c: nat)
    ensures ((h * 32 % WORD + h) % WORD + c) % WORD == (33 * h + c) % WORD
  {
    AddMod(h * 32, h, WORD);
    AddMod(h * 32 + h, c, WORD);
  }

  lemma KnownHashes()
    ensures Hash("") == 5381 && Hash("a") == 177670 && Hash("ab") == 5863208
  {
    assert "a"[..0] == "" && "ab"[..1] == "a";
  }

  /** The i-th slot tried for a hash; the sum wraps. */
  function Probe(h: nat, i: nat, n: nat): (slot: nat)
    requires n > 0
    ensures slot < n
  {
    (h + i) % 0x1_0000_0000_0000_0000 % n
  }

  // ---------------------------------------------------------------------------------------
  // Which slots are tried

  ghost predicate Covers(h: nat, n: nat)
    requires n > 0
  {
    forall slot :: 0 <= slot < n ==> Tried(h, n, slot)
  }

  ghost predicate Tried(h: nat, n: nat, slot: nat)
    requires n > 0
  {
    exists i :: 0 <= i < n && Probe(h, i, n) == slot
  }

  /** Every slot is tried exactly if hash plus size does not wrap or the size divides 2^64. */
  lemma ProbesCoverIff(h: nat, n: nat)
    requires 0 < n < WORD && h < WORD
    ensures Covers(h, n) <==> h + n <= WORD || WORD % n == 0
  {
    hide Probe;
    if h + n <= WORD || WORD % n == 0 {
      forall slot | 0 <= slot < n
        ensures Tried(h, n, slot)
      {
        var i := (slot - h) % n;
        SlotReached(h, n, slot, i);
        assert Probe(h, i, n) == slot;
      }
    } else {
      var r, w := WORD % n, WORD - h;
      forall i | 0 <= i < n
        ensures Probe(h, i, n) != MissedSlot(r, w, n)
      {
        ProbeMisses(h, n, i);
      }
      ProbeMisses(h, n, 0);
      assert !Tried(h, n, MissedSlot(r, w, n));
    }
  }

  lemma ProbeIs(h: nat, i: nat, n: nat)
    requires 0 < n < WORD && h < WORD && i < n
    ensures Probe(h, i, n) == (if h + i < WORD then h + i else h + i - WORD) % n
  {
    var x := h + i;
    assert x % 0x1_0000_0000_0000_0000 == if x < WORD then x else x - WORD;
  }

  lemma SlotReached(h: nat, n: nat, slot: nat, i: nat)
    requires 0 < n < WORD && h < WORD && slot < n && i == (slot - h) % n
    requires h + n <= WORD || WORD % n == 0
    ensures i < n && Probe(h, i, n) == slot
  {
    hide Probe;
    ModShift(h, slot, n);
    ProbeIs(h, i, n);
    if h + i >= WORD {
      ModSub(h + i, WORD, n);
      Unique(slot, n, 0, slot);
    }
  }

  /** Adding the difference modulo n. */
  lemma ModShift(h: int, slot: int, n: nat)
    requires n > 0 && 0 <= slot < n
    ensures (h + (slot - h) % n) % n == slot
  {
    var q := (slot - h) / n;
    assert slot - h == n * q + (slot - h) % n;
    assert h + (slot - h) % n == slot - n * q;
    Unique(h + (slot - h) % n, n, -q, slot);
  }

  lemma ModSub(x: nat, w: nat, n: nat)
    requires n > 0 && w <= x
    ensures (x - w) % n == (x % n - w % n) % n
  {
    var q := x / n - w / n;
    var y := x % n - w % n;
    assert x - w == n * q + y by {
      assert n * (x / n) - n * (w / n) == n * q;
    }
    Unique(x - w, n, q + y / n, y % n) by {
      assert y == n * (y / n) + y % n;
      assert n * q + n * (y / n) == n * (q + y / n);
    }
  }

  /** A slot that is not tried: before the run of slots up to the wrap, or the last one. */
  ghost function MissedSlot(r: nat, w: nat, n: nat): int {
    if r <= w then n + r - w - 1 else n - 1
  }

  lemma ProbeMisses(h: nat, n: nat, i: nat)
    requires 0 < n < WORD && h < WORD && i < n && h + n > WORD && WORD % n != 0
    ensures Probe(h, i, n) != MissedSlot(WORD % n, WORD - h, n) && 0 <= MissedSlot(WORD % n, WORD - h, n) < n
  {
    hide Probe;
    ProbeIs(h, i, n);
    var r, q := WORD % n, WORD / n;
    var x := h + i;
    assert WORD == n * q + r;
    if x < WORD {
      var e := WORD - x;
      if r >= e {
        Unique(x, n, q, r - e);
      } else {
        assert n * (q - 1) == n * q - n;
        Unique(x, n, q - 1, r - e + n);
      }
    } else {
      Unique(x - WORD, n, 0, x - WORD);
    }
  }

  // ---------------------------------------------------------------------------------------
  // The table as a map

  ghost function Slot(t: seq<Entry>, key: Key, i: nat): (slot: nat)
    requires |t| > 0
    ensures slot < |t|
  {
    Probe(Hash(key), i, |t|)
  }

  /** The first i slots of the probe path of key are in use, by other keys. */
  ghost predicate Passed(t: seq<Entry>, u: seq<bool>, key: Key, i: nat)
    requires |t| == |u| > 0
  {
    forall j :: 0 <= j < i ==> u[Slot(t, key, j)] && t[Slot(t, key, j)].key != key
  }

  ghost predicate PlacedAt(t: seq<Entry>, u: seq<bool>, key: Key, i: nat)
    requires |t| == |u| > 0
  {
    i < |t| && Passed(t, u, key, i) && u[Slot(t, key, i)] && t[Slot(t, key, i)].key == key
  }

  /** The table holds exactly the entries: each on its probe path with no free slot before it. */
  ghost predicate Represents(t: seq<Entry>, u: seq<bool>, entries: map<Key, Entry>) {
    && 0 < |t| == |u| < WORD
    && (forall slot :: 0 <= slot < |t| && u[slot] ==> t[slot].key in entries && entries[t[slot].key] == t[slot])
    && (forall k :: k in entries ==> exists i :: PlacedAt(t, u, k, i))
  }

  /** A key is found at the end of the part of its path that is in use by others. */
  lemma PlacedAfterPassed(t: seq<Entry>, u: seq<bool>, key: Key, k: nat, i: nat)
    requires |t| == |u| > 0 && PlacedAt(t, u, key, k) && Passed(t, u, key, i)
    ensures i <= k < |t| && u[Slot(t, key, i)]
  {
    hide Slot;
  }

  /** A free slot on the probe path, or a whole path of other keys, shows that the key is absent. */
  lemma AbsentIfFree(t: seq<Entry>, u: seq<bool>, entries: map<Key, Entry>, key: Key, i: nat)
    requires Represents(t, u, entries) && Passed(t, u, key, i) && i <= |t|
    requires i < |t| ==> !u[Slot(t, key, i)]
    ensures key !in entries
  {
    hide Slot, Passed, PlacedAt;
    forall k: nat
      ensures !PlacedAt(t, u, key, k)
    {
      if PlacedAt(t, u, key, k) {
        PlacedAfterPassed(t, u, key, k, i);
      }
    }
  }

  lemma EnterKeeps(t: seq<Entry>, u: seq<bool>, entries: map<Key, Entry>, item: Entry, i: nat)
    requires Represents(t, u, entries) && Passed(t, u, item.key, i) && i < |t| && !u[Slot(t, item.key, i)]
    ensures var slot := Slot(t, item.key, i);
            Represents(t[slot := item], u[slot := true], entries[item.key := item])
  {
    hide Slot, PlacedAt, Passed;
    AbsentIfFree(t, u, entries, item.key, i);
    var slot := Slot(t, item.key, i);
    var t', u', entries' := t[slot := item], u[slot := true], entries[item.key := item];
    NewPlaced(t, u, item, i);
    forall k | k in entries && k != item.key
      ensures exists j :: PlacedAt(t', u', k, j)
    {
      var j :| PlacedAt(t, u, k, j);
      StaysPlaced(t, u, k, j, slot, item);
    }
  }

  lemma NewPlaced(t: seq<Entry>, u: seq<bool>, item: Entry, i: nat)
    requires |t| == |u| > 0 && Passed(t, u, item.key, i) && i < |t| && !u[Slot(t, item.key, i)]
    ensures var slot := Slot(t, item.key, i); PlacedAt(t[slot := item], u[slot := true], item.key, i)
  {
    hide Probe, Hash;
    var slot := Slot(t, item.key, i);
    var t', u' := t[slot := item], u[slot := true];
    forall j | 0 <= j < i
      ensures u'[Slot(t', item.key, j)] && t'[Slot(t', item.key, j)].key != item.key
    {
      assert Slot(t', item.key, j) == Slot(t, item.key, j) != slot;
    }
  }

  lemma StaysPlaced(t: seq<Entry>, u: seq<bool>, k: Key, j: nat, slot: nat, item: Entry)
    requires |t| == |u| > 0 && PlacedAt(t, u, k, j) && slot < |t| && !u[slot]
    ensures PlacedAt(t[slot := item], u[slot := true], k, j)
  {
    hide Probe, Hash;
    var t', u' := t[slot := item], u[slot := true];
    assert forall a :: Slot(t', k, a) == Slot(t, k, a);
  }

  function Count(u: seq<bool>): (c: nat)
    ensures c <= |u|
  {
    if u == [] then 0 else Count(u[1..]) + if u[0] then 1 else 0
  }

  lemma {:induction false} CountSet(u: seq<bool>, slot: nat)
    requires slot < |u| && !u[slot]
    ensures Count(u[slot := true]) == Count(u) + 1
  {
    if slot > 0 {
      CountSet(u[1..], slot - 1);
      assert u[slot := true][1..] == u[1..][slot - 1 := true];
    } else {
      assert u[0 := true][1..] == u[1..];
    }
  }

  /** As many slots in use as there are: all of them. */
  lemma {:induction false} CountFull(u: seq<bool>)
    ensures Count(u) == |u| <==> forall i :: 0 <= i < |u| ==> u[i]
  {
    if u != [] {
      CountFull(u[1..]);
      assert forall i :: 1 <= i < |u| ==> u[i] == u[1..][i - 1];
      assert forall i :: 0 <= i < |u| - 1 ==> u[1..][i] == u[i + 1];
    }
  }

  lemma {:induction false} CountNone(u: seq<bool>)
    requires forall i :: 0 <= i < |u| ==> !u[i]
    ensures Count(u) == 0
  {
    if u != [] {
      CountNone(u[1..]);
    }
  }

  /** The static data of search_hash.c; `entries` is the map of the first writes. */
  class HashTable {
    var table: array?<Entry>
    var used: array?<bool>
    var items: nat
    ghost var entries: map<Key, Entry>

    ghost predicate Valid()
      reads this, table, used
    {
      if table == null then used == null && items == 0 && entries == map[]
      else
        && used != null && table.Length == used.Length
        && Represents(table[..], used[..], entries) && items == Count(used[..])
    }

    constructor ()
      ensures Valid() && table == null
    {
      table, used, items, entries := null, null, 0, map[];
    }

    /** hcreate; gotTable and gotUsed are the answers of the two calloc calls (for a size other than 0). */
    method Hcreate(nel: nat, gotTable: bool, gotUsed: bool) returns (r: int)
      requires Valid() && nel < WORD
      modifies this
      ensures Valid()
      ensures r == if old(table) == null && nel > 0 && gotTable && gotUsed then 1 else 0
      ensures r == 0 ==> table == old(table) && used == old(used) && items == old(items) && entries == old(entries)
      ensures r == 1 ==> fresh(table) && fresh(used) && table.Length == nel && entries == map[] && items == 0
      ensures r == 1 ==> forall i :: 0 <= i < nel ==> !used[i]
    {
      if table != null {
        return 0;
      }
      // calloc of no bytes gives null
      if nel == 0 || !gotTable || !gotUsed {
        return 0;
      }
      table := new Entry[nel](_ => Entry([], 0));
      used := new bool[nel](_ => false);
      items, entries := 0, map[];
      CountNone(used[..]);
      return 1;
    }

    method Hdestroy()
      modifies this
      ensures Valid() && table == null
    {
      table, used, items, entries := null, null, 0, map[];
    }

    /** hsearch: the slot of the entry, -1 for null. */
    method Hsearch(item: Entry, action: Action) returns (r: int)
      requires Valid()
      modifies this`items, this`entries, table, used
      ensures Valid() && -1 <= r && (table == null ==> r == -1) && (table != null ==> r < table.Length)
      ensures r >= 0 ==> item.key in entries && used[r] && table[r] == entries[item.key]
      ensures action == Find || item.key in old(entries) ==> entries == old(entries) && (r >= 0 <==> item.key in entries)
      ensures entries == old(entries) ==> items == old(items)
      ensures action == Enter && item.key !in old(entries) && table != null ==>
                var i := FirstFree(old(used[..]), Hash(item.key), 0);
                if i == table.Length then
                  r == -1 && entries == old(entries) && used[..] == old(used[..])
                  && (Covers(Hash(item.key), table.Length) ==> items == table.Length)
                else
                  r == Probe(Hash(item.key), i, table.Length) && entries == old(entries)[item.key := item]
                  && used[..] == old(used[..])[r := true] && old(items) < table.Length && items == old(items) + 1
    {
      if table == null {
        return -1;
      }
      hide Probe, Hash, Represents, Count, Covers, FirstFree, Passed, Slot;
      ghost var t, u := table[..], used[..];
      var h, i, idx := Locate(item.key);
      AbsentOrFound(t, u, entries, item.key, i);
      if i == table.Length {
        if Covers(h, table.Length) {
          AllPassed(t, u, item.key);
          CountFull(u);
        }
        return -1;
      }
      if !used[idx] {
        if action == Enter {
          EnterAt(idx, item, i);
          return idx;
        }
        return -1;
      }
      return idx;
    }

    /** The loop of hsearch: it stops at the first slot that is free or holds the key. */
    method Locate(key: Key) returns (h: nat, i: nat, idx: nat)
      requires Valid() && table != null
      ensures h == Hash(key) && i <= table.Length && Passed(table[..], used[..], key, i)
      ensures i < table.Length ==>
                idx == Slot(table[..], key, i) && idx == Probe(h, i, table.Length) && (!used[idx] || table[idx].key == key)
      ensures i == table.Length || !used[idx] ==> FirstFree(used[..], h, 0) == i
    {
      hide Probe, Hash, Count, FirstFree;
      h := HashStr(key);
      i, idx := 0, 0;
      ghost var t, u := table[..], used[..];
      while i < table.Length
        invariant 0 <= i <= table.Length && Passed(t, u, key, i) && FirstFree(u, h, 0) == FirstFree(u, h, i)
      {
        idx := Probe(h, i, table.Length);
        FreeStep(u, h, i);
        if !used[idx] || table[idx].key == key {
          return;
        }
        i := i + 1;
      }
      FreeDone(u, h);
    }

    /** The insertion; the source's test for a full table cannot succeed here, as slot idx is free. */
    method EnterAt(idx: nat, item: Entry, ghost i: nat)
      requires Valid() && table != null && i < table.Length && Passed(table[..], used[..], item.key, i)
      requires idx == Slot(table[..], item.key, i) && !used[idx]
      modifies this`items, this`entries, table, used
      ensures Valid() && old(items) < table.Length && items == old(items) + 1
      ensures entries == old(entries)[item.key := item]
      ensures used[..] == old(used[..])[idx := true] && table[..] == old(table[..])[idx := item]
    {
      hide Probe, Hash, Represents, Count, Passed, Slot;
      ghost var t, u := table[..], used[..];
      CountFull(u);
      EnterKeeps(t, u, entries, item, i);
      CountSet(u, idx);
      table[idx] := item;
      used[idx] := true;
      items := items + 1;
      entries := entries[item.key := item];
      assert table[..] == t[idx := item] && used[..] == u[idx := true];
    }
  }

  /** The first free slot on the probe path from the i-th on; |u| if there is none. */
  ghost function FirstFree(u: seq<bool>, h: nat, i: nat): (k: nat)
    requires i <= |u|
    ensures i <= k <= |u|
    decreases |u| - i
  {
    if i == |u| || !u[Probe(h, i, |u|)] then i else FirstFree(u, h, i + 1)
  }

  lemma FreeStep(u: seq<bool>, h: nat, i: nat)
    requires i < |u|
    ensures FirstFree(u, h, i) == if u[Probe(h, i, |u|)] then FirstFree(u, h, i + 1) else i
  {
  }

  lemma FreeDone(u: seq<bool>, h: nat)
    ensures FirstFree(u, h, |u|) == |u|
  {
  }

  /** Where the search stops decides whether the key is there. */
  lemma AbsentOrFound(t: seq<Entry>, u: seq<bool>, entries: map<Key, Entry>, key: Key, i: nat)
    requires Represents(t, u, entries) && Passed(t, u, key, i) && i <= |t|
    requires i < |t| ==> !u[Slot(t, key, i)] || t[Slot(t, key, i)].key == key
    ensures key in entries <==> i < |t| && u[Slot(t, key, i)]
    ensures key in entries ==> entries[key] == t[Slot(t, key, i)]
  {
    hide Slot, Passed;
    if i == |t| || !u[Slot(t, key, i)] {
      AbsentIfFree(t, u, entries, key, i);
    }
  }

  lemma AllPassed(t: seq<Entry>, u: seq<bool>, key: Key)
    requires |t| == |u| > 0 && Passed(t, u, key, |t|) && Covers(Hash(key), |t|)
    ensures forall slot :: 0 <= slot < |u| ==> u[slot]
  {
    hide Probe, Hash;
    forall slot | 0 <= slot < |u|
      ensures u[slot]
    {
      assert Tried(Hash(key), |t|, slot);
      var i :| 0 <= i < |t| && Probe(Hash(key), i, |t|) == slot;
      assert u[Slot(t, key, i)];
    }
  }

  // ---------------------------------------------------------------------------------------
  // A path that wraps

  lemma HashMore(s: string, c: char)
    ensures Hash(s + [c]) == (33 * Hash(s) + c as nat) % WORD
    ensures IsKey(s) && 1 <= c as nat <= 255 ==> IsKey(s + [c])
  {
    assert (s + [c])[..|s|] == s;
  }

  /** A key whose hash is 2^64 - 1. */
  lemma LargestHash() returns (k: Key)
    ensures Hash(k) == WORD - 1
  {
    var s := LargestHashText();
    k := s;
  }

  lemma LargestHashText() returns (s: string)
    ensures Hash(s) == WORD - 1 && IsKey(s)
  {
    hide Hash, IsKey;
    s := [];
    EmptyHash();
    HashMore(s, '#'); s := s + ['#']; assert Hash(s) == 177608;
    HashMore(s, 'n'); s := s + ['n']; assert Hash(s) == 5861174;
    HashMore(s, 't'); s := s + ['t']; assert Hash(s) == 193418858;
    HashMore(s, 'd'); s := s + ['d']; assert Hash(s) == 6382822414;
    HashMore(s, 'w'); s := s + ['w']; assert Hash(s) == 210633139781;
    HashMore(s, 'g'); s := s + ['g']; assert Hash(s) == 6950893612876;
    HashMore(s, 's'); s := s + ['s']; assert Hash(s) == 229379489225023;
    HashMore(s, 'a'); s := s + ['a']; assert Hash(s) == 7569523144425856;
    HashMore(s, '+'); s := s + ['+']; assert Hash(s) == 249794263766053291;
    HashMore(s, 'y'); s := s + ['y']; assert Hash(s) == 8243210704279758724;
    HashMore(s, 'z'); s := s + ['z']; assert Hash(s) == 13771536209298315390;
    HashMore(s, 'y'); s := s + ['y']; assert Hash(s) == 11738837137815169207;
    HashMore(s, 'h'); s := s + ['h'];
  }

  lemma EmptyHash()
    ensures Hash([]) == 5381 && IsKey([])
  {
  }

  /** One table of three slots where entering a new key fails although a slot is free. */
  method EnterFailsBeforeFull(key: Key) returns (table: HashTable, r: int)
    requires Hash(key) == WORD - 1
    ensures table.Valid() && table.table != null && table.table.Length == 3
    ensures r == -1 && key !in table.entries && exists slot :: 0 <= slot < 3 && !table.used[slot]
  {
    hide Hash, FirstFree, Probe, Represents, Count, Covers;
    table := new HashTable();
    var created := table.Hcreate(3, true, true);
    ThreeSlots();
    ghost var u := table.used[..];
    FreeStep(u, Hash("c"), 0);
    r := table.Hsearch(Entry("c", 1), Enter);
    u := table.used[..];
    FreeStep(u, Hash("a"), 0);
    r := table.Hsearch(Entry("a", 2), Enter);
    u := table.used[..];
    FreeStep(u, Hash(key), 0);
    FreeStep(u, Hash(key), 1);
    FreeStep(u, Hash(key), 2);
    FreeDone(u, Hash(key));
    r := table.Hsearch(Entry(key, 3), Enter);
    assert !table.used[..][2];
  }

  lemma ThreeSlots()
    ensures Probe(Hash("c"), 0, 3) == 0 && Probe(Hash("a"), 0, 3) == 1
    ensures Probe(WORD - 1, 0, 3) == 0 && Probe(WORD - 1, 1, 3) == 0 && Probe(WORD - 1, 2, 3) == 1
    ensures Hash("c") != Hash("a") && Hash("c") != WORD - 1 && Hash("a") != WORD - 1
  {
    hide Hash;
    EmptyHash();
    HashMore([], 'a');
    HashMore([], 'c');
    assert [] + ['a'] == "a" && [] + ['c'] == "c";
  }
}
