/** The byte-budget cache of src/lru.c: a hash table whose nodes also form an insertion-order list,
    oldest first, so that deleting and re-adding an entry makes it the most recent.
 */
module Lru {
  type Key = nat

  /** A pointer handed to the cache; zero is the null pointer. */
  type Pointer = nat

  datatype Entry = Entry(key: Key, value: Pointer, size: nat)

  // ---- The cache as a recency list, oldest first ----

  function Keys(l: seq<Entry>): set<Key> {
    set i | 0 <= i < |l| :: l[i].key
  }

  ghost predicate DistinctKeys(l: seq<Entry>) {
    forall i, j :: 0 <= i < j < |l| ==> l[i].key != l[j].key
  }

  function TotalSize(l: seq<Entry>): nat {
    if |l| == 0 then 0 else l[0].size + TotalSize(l[1..])
  }

  /** The position of a key, or the length of the list. */
  function IndexOf(l: seq<Entry>, key: Key): (i: nat)
    ensures i <= |l| && (i < |l| ==> l[i].key == key)
    ensures forall j :: 0 <= j < i ==> l[j].key != key
  {
    if |l| == 0 || l[0].key == key then 0 else 1 + IndexOf(l[1..], key)
  }

  /** The list without a key. */
  function Without(l: seq<Entry>, key: Key): seq<Entry> {
    var i := IndexOf(l, key);
    if i < |l| then l[..i] + l[i + 1..] else l
  }

  /** A hit moves the entry to the recent end. */
  function Promote(l: seq<Entry>, key: Key): seq<Entry> {
    var i := IndexOf(l, key);
    if i < |l| then Without(l, key) + [l[i]] else l
  }

  /** Drop the oldest entries until the budget is met or one entry is left; zero means no budget. */
  function Evict(l: seq<Entry>, budget: nat): (r: seq<Entry>)
    ensures |r| <= |l| && r == l[|l| - |r|..]
  {
    if budget == 0 || TotalSize(l) <= budget || |l| <= 1 then l else Evict(l[1..], budget)
  }

  /** Insert or replace an entry, then evict. */
  function Put(l: seq<Entry>, e: Entry, budget: nat): seq<Entry> {
    Evict(Without(l, e.key) + [e], budget)
  }

  // ---- Eviction drops exactly the shortest prefix that is needed ----

  /** Dropping `n` entries is enough. */
  predicate Enough(l: seq<Entry>, budget: nat, n: nat)
    requires n <= |l|
  {
    budget == 0 || TotalSize(l[n..]) <= budget || |l| - n <= 1
  }

  lemma {:induction false} EvictIsShortest(l: seq<Entry>, budget: nat)
    ensures var n := |l| - |Evict(l, budget)|;
            Enough(l, budget, n) && forall m :: 0 <= m < n ==> !Enough(l, budget, m)
    ensures |l| > 0 ==> |Evict(l, budget)| > 0 && Evict(l, budget)[|Evict(l, budget)| - 1] == l[|l| - 1]
  {
    assert l[0..] == l;
    if !(budget == 0 || TotalSize(l) <= budget || |l| <= 1) {
      var t := l[1..];
      EvictIsShortest(t, budget);
      var n := |l| - |Evict(l, budget)|;
      forall m | 0 <= m < n
        ensures !Enough(l, budget, m)
      {
        if m > 0 {
          assert l[m..] == t[m - 1..];
          assert !Enough(t, budget, m - 1);
        }
      }
      assert l[n..] == t[n - 1..];
    }
  }

  lemma {:induction false} TotalSizeConcat(a: seq<Entry>, b: seq<Entry>)
    ensures TotalSize(a + b) == TotalSize(a) + TotalSize(b)
  {
    if |a| == 0 {
      assert a + b == b;
    } else {
      assert (a + b)[1..] == a[1..] + b;
      TotalSizeConcat(a[1..], b);
    }
  }

  lemma WithoutSplits(l: seq<Entry>, key: Key)
    ensures var i := IndexOf(l, key);
            i < |l| ==> l == l[..i] + [l[i]] + l[i + 1..] && Without(l, key) == l[..i] + l[i + 1..]
                        && TotalSize(l) == TotalSize(Without(l, key)) + l[i].size
  {
    hide TotalSize;
    var i := IndexOf(l, key);
    if i < |l| {
      TotalSizeConcat(l[..i] + [l[i]], l[i + 1..]);
      TotalSizeConcat(l[..i], [l[i]]);
      TotalSizeConcat(l[..i], l[i + 1..]);
      TotalSizeOne(l[i]);
      assert l == l[..i] + [l[i]] + l[i + 1..];
    }
  }

  lemma TotalSizeOne(e: Entry)
    ensures TotalSize([e]) == e.size
  {
    assert [e][1..] == [];
  }

  lemma WithoutKeepsOthers(l: seq<Entry>, key: Key)
    requires DistinctKeys(l)
    ensures DistinctKeys(Without(l, key))
    ensures forall j :: 0 <= j < |Without(l, key)| ==> Without(l, key)[j].key != key && Without(l, key)[j] in l
    ensures forall e :: e in l && e.key != key ==> e in Without(l, key)
  {
    var i := IndexOf(l, key);
    var r := Without(l, key);
    if i < |l| {
      assert forall j :: 0 <= j < |r| ==> r[j] == l[if j < i then j else j + 1];
      forall e | e in l && e.key != key
        ensures e in r
      {
        var j :| 0 <= j < |l| && l[j] == e;
        assert r[if j < i then j else j - 1] == e;
      }
    }
  }

  /** The values that dropping these entries hands to `free_func`. */
  function Releases(dropped: seq<Entry>): seq<Pointer> {
    if |dropped| == 0 then [] else
      var n := |dropped| - 1;
      Releases(dropped[..n]) + if dropped[n].value != 0 then [dropped[n].value] else []
  }

  /** What replacing the entry of a key releases: its old value, unless it is handed over again. */
  function ReplacementReleases(l: seq<Entry>, e: Entry): seq<Pointer> {
    var i := IndexOf(l, e.key);
    if i < |l| && l[i].value != 0 && l[i].value != e.value then [l[i].value] else []
  }

  /** The entries that `Put` evicts. */
  function Evicted(l: seq<Entry>, e: Entry, budget: nat): seq<Entry> {
    var all := Without(l, e.key) + [e];
    all[..|all| - |Put(l, e, budget)|]
  }

  // ---- The hash table ----

  /** The table's nodes are exactly the entries of the list. */
  ghost predicate Linked(table: map<Key, Entry>, list: seq<Entry>) {
    && DistinctKeys(list)
    && (forall e :: e in list ==> e.key in table && table[e.key] == e)
    && (forall k :: k in table ==> table[k].key == k && table[k] in list)
  }

  lemma LinkedFind(table: map<Key, Entry>, list: seq<Entry>, key: Key)
    requires Linked(table, list)
    ensures key in table <==> IndexOf(list, key) < |list|
    ensures key in table ==> list[IndexOf(list, key)] == table[key]
  {
    if key in table {
      var i :| 0 <= i < |list| && list[i] == table[key];
      IndexUnique(list, key, i);
    }
    if IndexOf(list, key) < |list| {
      assert list[IndexOf(list, key)] in list;
    }
  }

  lemma LinkedDelete(table: map<Key, Entry>, list: seq<Entry>, key: Key)
    requires Linked(table, list) && key in table
    ensures Linked(table - {key}, Without(list, key))
  {
    WithoutKeepsOthers(list, key);
    var r := Without(list, key);
    forall e | e in r
      ensures e.key in table - {key} && (table - {key})[e.key] == e
    {
      var j :| 0 <= j < |r| && r[j] == e;
    }
  }

  lemma LinkedAdd(table: map<Key, Entry>, list: seq<Entry>, e: Entry)
    requires Linked(table, list) && e.key !in table
    ensures Linked(table[e.key := e], list + [e])
  {
    var r := list + [e];
    forall i, j | 0 <= i < j < |r|
      ensures r[i].key != r[j].key
    {
      assert r[i] in list;
    }
  }

  lemma {:induction false} LinkedCount(table: map<Key, Entry>, list: seq<Entry>)
    requires Linked(table, list)
    ensures |table| == |list|
  {
    if |list| == 0 {
      assert table.Keys == {};
    } else {
      var key := list[0].key;
      assert list[0] in list;
      LinkedDelete(table, list, key);
      IndexUnique(list, key, 0);
      assert Without(list, key) == list[1..];
      LinkedCount(table - {key}, list[1..]);
      assert table.Keys == (table - {key}).Keys + {key};
    }
  }

  lemma IndexUnique(l: seq<Entry>, key: Key, i: nat)
    requires i < |l| && l[i].key == key && DistinctKeys(l)
    ensures IndexOf(l, key) == i
  {
  }

  class Cache {
    const maxBytes: nat
    const freeFunc: bool
    var curBytes: nat
    var table: map<Key, Entry>
    var list: seq<Entry>           // the table's nodes in insertion order, oldest first
    var released: seq<Pointer>     // calls of the callback, in order

    ghost predicate Valid()
      reads this
    {
      Linked(table, list) && curBytes == TotalSize(list)
    }

    constructor (maxBytes: nat, freeFunc: bool)
      ensures Valid() && list == [] && released == []
      ensures this.maxBytes == maxBytes && this.freeFunc == freeFunc
    {
      this.maxBytes := maxBytes;
      this.freeFunc := freeFunc;
      curBytes, table, list, released := 0, map[], [], [];
    }

    /** Unlink a node from the table and the list. */
    method HashDelete(key: Key)
      requires Linked(table, list) && key in table
      modifies this`table, this`list
      ensures Linked(table, list) && list == Without(old(list), key) && table == old(table) - {key}
    {
      hide Linked, Without;
      LinkedDelete(table, list, key);
      table := table - {key};
      list := Without(list, key);
    }

    /** Add a node at the recent end. */
    method HashAdd(e: Entry)
      requires Linked(table, list) && e.key !in table
      modifies this`table, this`list
      ensures Linked(table, list) && list == old(list) + [e] && table == old(table)[e.key := e]
    {
      hide Linked;
      LinkedAdd(table, list, e);
      table := table[e.key := e];
      list := list + [e];
    }

    /** `find_in_cache_uint64`: a hit returns the value and becomes the most recent entry; a miss
        returns the null pointer. */
    method Find(key: Key) returns (value: Pointer)
      requires Valid()
      modifies this`table, this`list
      ensures Valid() && list == Promote(old(list), key)
      ensures var i := IndexOf(old(list), key); value == if i < |old(list)| then old(list)[i].value else 0
    {
      hide Linked, Without, TotalSize;
      LinkedFind(table, list, key);
      value := 0;
      if key in table {
        var entry := table[key];
        WithoutSplits(list, key);
        HashDelete(key);
        TotalSizeConcat(list, [entry]);
        TotalSizeOne(entry);
        EntryKey(old(table), old(list), key);
        HashAdd(entry);
        value := entry.value;
      }
    }

    /** `drop_entry`: unlink the oldest entry and free its value. */
    method DropOldest()
      requires Valid() && |list| > 0
      modifies this
      ensures Valid() && list == old(list)[1..]
      ensures released == old(released) + if freeFunc then Releases([old(list)[0]]) else []
    {
      hide Linked, Without, TotalSize;
      var entry := list[0];
      OldestIsLinked(table, list);
      WithoutSplits(list, entry.key);
      ReleaseOne(entry);
      HashDelete(entry.key);
      curBytes := curBytes - entry.size;
      if freeFunc && entry.value != 0 {
        released := released + [entry.value];
      }
    }

    /** `add_to_cache_uint64`: insert or replace, then evict the oldest entries while over budget. */
    method Add(key: Key, value: Pointer, size: nat)
      requires Valid() && curBytes + size < 0x1_0000_0000_0000_0000
      modifies this
      ensures Valid() && list == Put(old(list), Entry(key, value, size), maxBytes)
      ensures released == old(released) + if freeFunc
                then ReplacementReleases(old(list), Entry(key, value, size))
                     + Releases(Evicted(old(list), Entry(key, value, size), maxBytes))
                else []
    {
      hide Linked, TotalSize, Evict, Releases;
      ghost var e := Entry(key, value, size);
      Replace(key, value);
      TotalSizeConcat(list, [e]);
      TotalSizeOne(e);
      ghost var all := list + [e];
      HashAdd(Entry(key, value, size));
      curBytes := curBytes + size;
      ghost var before := released;
      EvictWhileOver(key);
    }

    /** Take out the entry of a key that is about to be added again. */
    method Replace(key: Key, value: Pointer)
      requires Valid()
      modifies this
      ensures Valid() && list == Without(old(list), key) && key !in table
      ensures released == old(released) + if freeFunc then ReplacementReleases(old(list), Entry(key, value, 0)) else []
    {
      hide Linked, TotalSize;
      LinkedFind(table, list, key);
      WithoutSplits(list, key);
      if key in table {
        var entry := table[key];
        curBytes := curBytes - entry.size;
        if freeFunc && entry.value != 0 && entry.value != value {
          released := released + [entry.value];
        }
        HashDelete(key);
      }
    }

    /** The eviction loop; the entry just inserted is never dropped. */
    method EvictWhileOver(inserted: Key)
      requires Valid() && |list| > 0 && list[|list| - 1].key == inserted
      modifies this
      ensures Valid() && list == Evict(old(list), maxBytes)
      ensures released == old(released) + if freeFunc then Releases(old(list)[..|old(list)| - |list|]) else []
    {
      hide Linked, TotalSize, Evict, Releases, Evicting, IndexOf, Without;
      ghost var all := list;
      ghost var n := 0;
      EvictingStart(all, maxBytes, freeFunc, released);
      if maxBytes == 0 {
        EvictingDone(all, 0, list, maxBytes, freeFunc, old(released), released);
        return;
      }
      while curBytes > maxBytes && |table| > 1
        invariant Linked(table, list) && curBytes == TotalSize(list)
        invariant Evicting(all, n, list, maxBytes, freeFunc, old(released), released)
        decreases |list|
      {
        LinkedCount(table, list);
        EvictingNewest(all, n, list, maxBytes, freeFunc, old(released), released);
        var oldest := list[0];
        OldestIsNotNewest(table, list);
        if oldest.key == inserted {
          break;
        }
        EvictingStep(all, n, list, maxBytes, freeFunc, old(released), released);
        DropOldest();
        n := n + 1;
      }
      LinkedCount(table, list);
      EvictingDone(all, n, list, maxBytes, freeFunc, old(released), released);
    }

    /** `free_cache`: drop every entry. */
    method Free()
      requires Valid()
      modifies this
      ensures Valid() && list == []
      ensures released == old(released) + if freeFunc then Releases(old(list)) else []
    {
      hide Linked, TotalSize, Releases;
      ghost var all := list;
      ghost var n := 0;
      ReleaseNone(all, freeFunc, released);
      while |list| > 0
        invariant Valid() && n <= |all| && list == all[n..]
        invariant released == old(released) + if freeFunc then Releases(all[..n]) else []
        decreases |list|
      {
        ReleaseStep(all, n, freeFunc, old(released));
        DropOldest();
        n := n + 1;
      }
      assert all[..n] == all;
    }
  }

  /** The eviction loop has dropped the first `n` entries and released their values, and `rest` is left. */
  ghost predicate Evicting(all: seq<Entry>, n: nat, rest: seq<Entry>, budget: nat, freeFunc: bool,
                           before: seq<Pointer>, released: seq<Pointer>)
  {
    && n < |all| && rest == all[n..] && Evict(all, budget) == Evict(rest, budget)
    && released == before + if freeFunc then Releases(all[..n]) else []
  }

  lemma EvictingStart(all: seq<Entry>, budget: nat, freeFunc: bool, before: seq<Pointer>)
    requires |all| > 0
    ensures Evicting(all, 0, all, budget, freeFunc, before, before)
  {
    ReleaseNone(all, freeFunc, before);
  }

  lemma EvictingNewest(all: seq<Entry>, n: nat, rest: seq<Entry>, budget: nat, freeFunc: bool,
                       before: seq<Pointer>, released: seq<Pointer>)
    requires Evicting(all, n, rest, budget, freeFunc, before, released)
    ensures |rest| > 0 && rest[|rest| - 1] == all[|all| - 1]
  {
  }

  lemma EvictingStep(all: seq<Entry>, n: nat, rest: seq<Entry>, budget: nat, freeFunc: bool,
                     before: seq<Pointer>, released: seq<Pointer>)
    requires Evicting(all, n, rest, budget, freeFunc, before, released)
    requires |rest| > 1 && budget != 0 && TotalSize(rest) > budget
    ensures Evicting(all, n + 1, rest[1..], budget, freeFunc, before,
                     released + if freeFunc then Releases([rest[0]]) else [])
  {
    ReleaseStep(all, n, freeFunc, before);
    assert Evict(rest, budget) == Evict(rest[1..], budget);
  }

  lemma EvictingDone(all: seq<Entry>, n: nat, rest: seq<Entry>, budget: nat, freeFunc: bool,
                     before: seq<Pointer>, released: seq<Pointer>)
    requires Evicting(all, n, rest, budget, freeFunc, before, released)
    requires budget == 0 || TotalSize(rest) <= budget || |rest| <= 1
    ensures rest == Evict(all, budget)
    ensures released == before + if freeFunc then Releases(all[..|all| - |rest|]) else []
  {
  }

  lemma ReleaseNone(all: seq<Entry>, freeFunc: bool, before: seq<Pointer>)
    ensures all[0..] == all && all[..0] == [] && Releases([]) == []
    ensures before == before + if freeFunc then Releases(all[..0]) else []
  {
  }

  lemma ReleaseStep(all: seq<Entry>, n: nat, freeFunc: bool, before: seq<Pointer>)
    requires n < |all|
    ensures all[n..][1..] == all[n + 1..] && all[n..][0] == all[n]
    ensures (before + if freeFunc then Releases(all[..n]) else []) + (if freeFunc then Releases([all[n]]) else [])
            == before + if freeFunc then Releases(all[..n + 1]) else []
  {
    assert all[..n + 1][..n] == all[..n];
    ReleaseOne(all[n]);
  }

  lemma EntryKey(table: map<Key, Entry>, list: seq<Entry>, key: Key)
    requires Linked(table, list) && key in table
    ensures table[key].key == key
  {
  }

  lemma OldestIsLinked(table: map<Key, Entry>, list: seq<Entry>)
    requires Linked(table, list) && |list| > 0
    ensures list[0].key in table && IndexOf(list, list[0].key) == 0 && Without(list, list[0].key) == list[1..]
  {
    assert list[0] in list;
  }

  lemma OldestIsNotNewest(table: map<Key, Entry>, list: seq<Entry>)
    requires Linked(table, list) && |list| > 1
    ensures list[0].key != list[|list| - 1].key
  {
  }

  lemma ReleaseOne(e: Entry)
    ensures Releases([e]) == if e.value != 0 then [e.value] else []
  {
    assert [e][..0] == [];
  }
}
