/** Properties of whole runs of the cache: stack inclusion between budgets, and single release of every
    pointer handed over.
 */
module LruRuns {
  import opened Lru

  // ---- Stack inclusion ----

  /** What a miss loads: each key has one entry, of a fixed size. */
  type Loader = Key -> Entry

  /** One read-through access: find, then add on a miss. */
  function Access(l: seq<Entry>, key: Key, load: Loader, budget: nat): seq<Entry> {
    if IndexOf(l, key) < |l| then Promote(l, key) else Put(l, load(key), budget)
  }

  ghost predicate Loads(load: Loader) {
    forall k :: load(k).key == k && load(k).value != 0
  }

  function Run(l: seq<Entry>, trace: seq<Key>, load: Loader, budget: nat): seq<Entry>
    decreases |trace|
  {
    if |trace| == 0 then l else Run(Access(l, trace[0], load, budget), trace[1..], load, budget)
  }

  /** Which accesses of the trace hit. */
  function Hits(l: seq<Entry>, trace: seq<Key>, load: Loader, budget: nat): (h: seq<bool>)
    ensures |h| == |trace|
    decreases |trace|
  {
    if |trace| == 0 then [] else
      [IndexOf(l, trace[0]) < |l|] + Hits(Access(l, trace[0], load, budget), trace[1..], load, budget)
  }

  ghost predicate Suffix(s: seq<Entry>, l: seq<Entry>) {
    |s| <= |l| && l[|l| - |s|..] == s
  }

  /** Every entry is what its key loads. */
  ghost predicate AllLoaded(l: seq<Entry>, load: Loader) {
    DistinctKeys(l) && forall e :: e in l ==> e == load(e.key)
  }

  /** The second budget is at least the first; zero is unlimited. */
  predicate NoTighter(b1: nat, b2: nat) {
    b2 == 0 || (b1 != 0 && b1 <= b2)
  }

  lemma SuffixTrans(a: seq<Entry>, b: seq<Entry>, c: seq<Entry>)
    requires Suffix(a, b) && Suffix(b, c)
    ensures Suffix(a, c)
  {
    assert c[|c| - |a|..] == c[|c| - |b|..][|b| - |a|..];
  }

  predicate OverBudget(l: seq<Entry>, budget: nat) {
    budget != 0 && TotalSize(l) > budget && |l| > 1
  }

  lemma EvictOnce(l: seq<Entry>, budget: nat)
    ensures Suffix(Evict(l, budget), l)
    ensures Evict(l, budget) == if OverBudget(l, budget) then Evict(l[1..], budget) else l
  {
  }

  lemma SuffixOfTail(s: seq<Entry>, l: seq<Entry>)
    requires Suffix(s, l)
    ensures if |s| < |l| then Suffix(s, l[1..]) else s == l
  {
    if |s| < |l| {
      assert l[1..][|l| - 1 - |s|..] == l[|l| - |s|..];
    }
  }

  lemma SuffixRefl(s: seq<Entry>)
    ensures Suffix(s, s)
  {
  }

  lemma {:induction false} EvictSuffix(s: seq<Entry>, l: seq<Entry>, b1: nat, b2: nat)
    requires Suffix(s, l) && NoTighter(b1, b2)
    ensures Suffix(Evict(s, b1), Evict(l, b2))
    decreases |l|
  {
    hide Evict, Suffix, TotalSize;
    EvictOnce(s, b1);
    EvictOnce(l, b2);
    if OverBudget(l, b2) {
      SuffixOfTail(s, l);
      if |s| < |l| {
        EvictSuffix(s, l[1..], b1, b2);
      } else {
        SuffixRefl(l[1..]);
        EvictSuffix(l[1..], l[1..], b1, b2);
      }
    } else {
      SuffixTrans(Evict(s, b1), s, l);
    }
  }

  lemma LoadedWithout(l: seq<Entry>, key: Key, load: Loader)
    requires AllLoaded(l, load)
    ensures AllLoaded(Without(l, key), load)
  {
    WithoutKeepsOthers(l, key);
    forall e | e in Without(l, key)
      ensures e == load(e.key)
    {
      var j :| 0 <= j < |Without(l, key)| && Without(l, key)[j] == e;
    }
  }

  lemma LoadedPush(l: seq<Entry>, key: Key, load: Loader)
    requires AllLoaded(l, load) && load(key).key == key && forall e :: e in l ==> e.key != key
    ensures AllLoaded(l + [load(key)], load)
  {
    forall i, j | 0 <= i < j < |l| + 1
      ensures (l + [load(key)])[i].key != (l + [load(key)])[j].key
    {
      assert l[i] in l;
    }
  }

  lemma LoadedSuffix(s: seq<Entry>, l: seq<Entry>, load: Loader)
    requires Suffix(s, l) && AllLoaded(l, load)
    ensures AllLoaded(s, load)
  {
    forall i | 0 <= i < |s|
      ensures s[i] == l[|l| - |s| + i]
    {
    }
  }

  /** An access puts the loaded entry of the key last, whether it hits or misses. */
  lemma AccessIsPut(l: seq<Entry>, key: Key, load: Loader, budget: nat)
    requires AllLoaded(l, load) && load(key).key == key
    ensures Access(l, key, load, budget)
            == if IndexOf(l, key) < |l| then Without(l, key) + [load(key)]
               else Evict(Without(l, key) + [load(key)], budget)
    ensures AllLoaded(Without(l, key) + [load(key)], load) && AllLoaded(Access(l, key, load, budget), load)
  {
    hide Without, Evict;
    WithoutKeepsOthers(l, key);
    LoadedWithout(l, key, load);
    forall e | e in Without(l, key)
      ensures e.key != key
    {
      var j :| 0 <= j < |Without(l, key)| && Without(l, key)[j] == e;
    }
    LoadedPush(Without(l, key), key, load);
    var all := Without(l, key) + [load(key)];
    assert Suffix(Evict(all, budget), all);
    LoadedSuffix(Evict(all, budget), all, load);
    if IndexOf(l, key) < |l| { assert l[IndexOf(l, key)] in l; }
  }

  lemma SuffixAt(s: seq<Entry>, l: seq<Entry>, j: int)
    requires Suffix(s, l) && |l| - |s| <= j < |l|
    ensures l[j] == s[j - (|l| - |s|)]
  {
  }

  lemma IndexInSuffix(s: seq<Entry>, l: seq<Entry>, key: Key)
    requires Suffix(s, l) && DistinctKeys(l)
    ensures var i := IndexOf(s, key); var j := IndexOf(l, key); var d := |l| - |s|;
            if i < |s| then j == d + i else j == |l| || j < d
  {
    hide IndexOf;
    var d := |l| - |s|;
    var i, j := IndexOf(s, key), IndexOf(l, key);
    if i < |s| {
      SuffixAt(s, l, d + i);
      IndexUnique(l, key, d + i);
    } else if d <= j < |l| {
      SuffixAt(s, l, j);
    }
  }

  lemma CutInside(s: seq<Entry>, l: seq<Entry>, i: nat)
    requires Suffix(s, l) && i < |s|
    ensures Suffix(s[..i] + s[i + 1..], l[..|l| - |s| + i] + l[|l| - |s| + i + 1..])
  {
    var d := |l| - |s|;
    assert l[..d + i] + l[d + i + 1..] == l[..d] + (s[..i] + s[i + 1..]);
  }

  lemma CutBefore(s: seq<Entry>, l: seq<Entry>, j: nat)
    requires Suffix(s, l) && j < |l| - |s|
    ensures Suffix(s, l[..j] + l[j + 1..])
  {
    var d := |l| - |s|;
    assert l[..j] + l[j + 1..] == (l[..j] + l[j + 1..d]) + s;
  }

  lemma WithoutIs(l: seq<Entry>, key: Key)
    ensures var i := IndexOf(l, key); if i < |l| then Without(l, key) == l[..i] + l[i + 1..] else Without(l, key) == l
  {
  }

  lemma WithoutSuffix(s: seq<Entry>, l: seq<Entry>, key: Key)
    requires Suffix(s, l) && DistinctKeys(l)
    ensures Suffix(Without(s, key), Without(l, key))
    ensures IndexOf(s, key) < |s| ==> IndexOf(l, key) < |l|
  {
    hide *;
    IndexInSuffix(s, l, key);
    WithoutIs(s, key);
    WithoutIs(l, key);
    var i, j := IndexOf(s, key), IndexOf(l, key);
    if i < |s| {
      CutInside(s, l, i);
    } else if j < |l| {
      CutBefore(s, l, j);
    }
  }

  lemma SuffixPush(s: seq<Entry>, l: seq<Entry>, e: Entry)
    requires Suffix(s, l)
    ensures Suffix(s + [e], l + [e])
  {
    assert l + [e] == l[..|l| - |s|] + (s + [e]);
  }

  lemma AccessKeepsInclusion(s: seq<Entry>, l: seq<Entry>, key: Key, load: Loader, b1: nat, b2: nat)
    requires Suffix(s, l) && AllLoaded(l, load) && NoTighter(b1, b2) && load(key).key == key
    ensures Suffix(Access(s, key, load, b1), Access(l, key, load, b2))
    ensures IndexOf(s, key) < |s| ==> IndexOf(l, key) < |l|
    ensures AllLoaded(Access(l, key, load, b2), load)
  {
    hide Without, Evict, Access;
    LoadedSuffix(s, l, load);
    AccessIsPut(s, key, load, b1);
    AccessIsPut(l, key, load, b2);
    WithoutSuffix(s, l, key);
    var s', l' := Without(s, key) + [load(key)], Without(l, key) + [load(key)];
    SuffixPush(Without(s, key), Without(l, key), load(key));
    EvictSuffix(s', l', b1, b2);
    assert Suffix(Evict(s', b1), s');
    SuffixTrans(Evict(s', b1), s', l');
  }

  /** Stack inclusion: over every trace, the recency list of the smaller cache is a suffix of the
      larger's, and every hit of the smaller is a hit of the larger. */
  lemma {:induction false} StackInclusion(s: seq<Entry>, l: seq<Entry>, trace: seq<Key>, load: Loader, b1: nat, b2: nat)
    requires Suffix(s, l) && AllLoaded(l, load) && NoTighter(b1, b2) && forall k :: load(k).key == k
    ensures Suffix(Run(s, trace, load, b1), Run(l, trace, load, b2))
    ensures forall i :: 0 <= i < |trace| && Hits(s, trace, load, b1)[i] ==> Hits(l, trace, load, b2)[i]
    decreases |trace|
  {
    hide Access, Suffix, AllLoaded;
    if |trace| > 0 {
      AccessKeepsInclusion(s, l, trace[0], load, b1, b2);
      StackInclusion(Access(s, trace[0], load, b1), Access(l, trace[0], load, b2), trace[1..], load, b1, b2);
    }
  }

  /** The read-through access on the real table: every key loads its own entry, never a null pointer. */
  method ReadThrough(cache: Cache, key: Key, load: Loader) returns (hit: bool)
    requires cache.Valid() && AllLoaded(cache.list, load) && Loads(load)
    requires cache.curBytes + load(key).size < 0x1_0000_0000_0000_0000
    modifies cache
    ensures cache.Valid() && cache.list == Access(old(cache.list), key, load, cache.maxBytes)
    ensures hit <==> IndexOf(old(cache.list), key) < |old(cache.list)|
    ensures AllLoaded(cache.list, load) && cache.curBytes <= old(cache.curBytes) + load(key).size
  {
    hide Linked, Promote, Put, Evicted, Releases, Without, TotalSize;
    AccessIsPut(cache.list, key, load, cache.maxBytes);
    AccessSize(cache.list, key, load, cache.maxBytes);
    FoundIsLoaded(cache.list, key, load);
    var found := cache.Find(key);
    hit := found != 0;
    if !hit {
      PromoteMiss(cache.list, old(cache.list), key);
      cache.Add(key, load(key).value, load(key).size);
    }
  }

  lemma FoundIsLoaded(l: seq<Entry>, key: Key, load: Loader)
    requires AllLoaded(l, load)
    ensures IndexOf(l, key) < |l| ==> l[IndexOf(l, key)] == load(key)
  {
    if IndexOf(l, key) < |l| {
      assert l[IndexOf(l, key)] in l;
    }
  }

  lemma PromoteMiss(l: seq<Entry>, before: seq<Entry>, key: Key)
    requires IndexOf(before, key) == |before| && l == Promote(before, key)
    ensures l == before
  {
  }

  lemma SuffixSize(s: seq<Entry>, l: seq<Entry>)
    requires Suffix(s, l)
    ensures TotalSize(s) <= TotalSize(l)
  {
    TotalSizeConcat(l[..|l| - |s|], s);
    assert l == l[..|l| - |s|] + s;
  }

  lemma AccessSize(l: seq<Entry>, key: Key, load: Loader, budget: nat)
    requires AllLoaded(l, load) && Loads(load)
    ensures TotalSize(Access(l, key, load, budget)) <= TotalSize(l) + load(key).size
  {
    hide TotalSize, Without, Evict, Access;
    AccessIsPut(l, key, load, budget);
    WithoutSplits(l, key);
    WithoutMiss(l, key);
    var all := Without(l, key) + [load(key)];
    TotalSizeConcat(Without(l, key), [load(key)]);
    TotalSizeOne(load(key));
    SuffixSize(Evict(all, budget), all);
  }

  lemma WithoutMiss(l: seq<Entry>, key: Key)
    ensures IndexOf(l, key) == |l| ==> Without(l, key) == l
  {
  }

  function TraceSize(trace: seq<Key>, load: Loader): nat {
    if |trace| == 0 then 0 else load(trace[0]).size + TraceSize(trace[1..], load)
  }

  /** A whole trace on the real table is a run of the recency list, hit for hit. */
  method RunTrace(cache: Cache, trace: seq<Key>, load: Loader) returns (hits: seq<bool>)
    requires cache.Valid() && AllLoaded(cache.list, load) && Loads(load)
    requires cache.curBytes + TraceSize(trace, load) < 0x1_0000_0000_0000_0000
    modifies cache
    ensures cache.Valid() && cache.list == Run(old(cache.list), trace, load, cache.maxBytes)
    ensures hits == Hits(old(cache.list), trace, load, cache.maxBytes)
  {
    hide Linked, Access, AllLoaded, Loads, TotalSize;
    hits := [];
    var n := 0;
    while n < |trace|
      invariant n <= |trace| && cache.Valid() && AllLoaded(cache.list, load)
      invariant cache.curBytes + TraceSize(trace[n..], load) < 0x1_0000_0000_0000_0000
      invariant Run(old(cache.list), trace, load, cache.maxBytes) == Run(cache.list, trace[n..], load, cache.maxBytes)
      invariant Hits(old(cache.list), trace, load, cache.maxBytes)
                == hits + Hits(cache.list, trace[n..], load, cache.maxBytes)
    {
      assert trace[n..][1..] == trace[n + 1..];
      var hit := ReadThrough(cache, trace[n], load);
      hits := hits + [hit];
      n := n + 1;
    }
  }

  // ---- Ownership ----

  datatype Op = FindOp(key: Key) | AddOp(entry: Entry)

  /** The state of a cache with a callback: its list and the values released so far. */
  datatype State = State(list: seq<Entry>, released: seq<Pointer>)

  /** What `Cache.Find` and `Cache.Add` do to the state. */
  function Step(s: State, op: Op, budget: nat): State {
    match op
    case FindOp(key) => s.(list := Promote(s.list, key))
    case AddOp(e) => State(Put(s.list, e, budget),
                           s.released + ReplacementReleases(s.list, e) + Releases(Evicted(s.list, e, budget)))
  }

  /** The caller never hands over a pointer that is held under another key or already freed. */
  ghost predicate Disciplined(s: State, op: Op) {
    op.AddOp? && op.entry.value != 0 ==>
      && op.entry.value !in s.released
      && forall x :: x in s.list && x.value == op.entry.value ==> x.key == op.entry.key
  }

  function HandedBy(op: Op): set<Pointer> {
    if op.AddOp? && op.entry.value != 0 then {op.entry.value} else {}
  }

  /** Every pointer handed over is either held once or has been released once. */
  ghost predicate Owned(s: State, handed: set<Pointer>) {
    DistinctKeys(s.list) && multiset(s.released) + multiset(Releases(s.list)) == multiset(handed)
  }

  lemma {:induction false} ReleasesConcat(a: seq<Entry>, b: seq<Entry>)
    ensures Releases(a + b) == Releases(a) + Releases(b)
  {
    if |b| == 0 {
      assert a + b == a;
    } else {
      var n := |b| - 1;
      assert (a + b)[..|a| + n] == a + b[..n];
      ReleasesConcat(a, b[..n]);
    }
  }

  lemma {:induction false} ReleasesMember(l: seq<Entry>, p: Pointer)
    ensures p in Releases(l) <==> p != 0 && exists e :: e in l && e.value == p
  {
    if |l| > 0 {
      var n := |l| - 1;
      ReleasesMember(l[..n], p);
      assert l == l[..n] + [l[n]];
    }
  }

  /** Taking a key out of the list takes its value out of what is held. */
  lemma WithoutReleases(l: seq<Entry>, key: Key)
    ensures var i := IndexOf(l, key);
            multiset(Releases(l))
            == multiset(Releases(Without(l, key))) + multiset(if i < |l| then Releases([l[i]]) else [])
  {
    hide Releases;
    WithoutSplits(l, key);
    var i := IndexOf(l, key);
    if i < |l| {
      ReleasesConcat(l[..i] + [l[i]], l[i + 1..]);
      ReleasesConcat(l[..i], [l[i]]);
      ReleasesConcat(l[..i], l[i + 1..]);
    }
  }

  lemma DistinctPush(l: seq<Entry>, e: Entry)
    requires DistinctKeys(l)
    ensures DistinctKeys(Without(l, e.key) + [e])
  {
    WithoutKeepsOthers(l, e.key);
  }

  lemma StepKeepsOwned(s: State, op: Op, budget: nat, handed: set<Pointer>)
    requires Owned(s, handed) && Disciplined(s, op)
    ensures Owned(Step(s, op, budget), handed + HandedBy(op))
  {
    match op {
      case FindOp(key) => FindKeepsOwned(s, key, handed);
      case AddOp(e) => AddKeepsOwned(s, e, budget, handed);
    }
  }

  lemma FindKeepsOwned(s: State, key: Key, handed: set<Pointer>)
    requires Owned(s, handed)
    ensures Owned(s.(list := Promote(s.list, key)), handed)
  {
    hide Releases, Without;
    var i := IndexOf(s.list, key);
    if i < |s.list| {
      DistinctPush(s.list, s.list[i]);
      WithoutReleases(s.list, key);
      ReleasesConcat(Without(s.list, key), [s.list[i]]);
    }
  }

  lemma EvictSplits(all: seq<Entry>, budget: nat)
    requires DistinctKeys(all)
    ensures DistinctKeys(Evict(all, budget))
    ensures all == all[..|all| - |Evict(all, budget)|] + Evict(all, budget)
  {
    var kept := Evict(all, budget);
    forall i, j | 0 <= i < j < |kept|
      ensures kept[i].key != kept[j].key
    {
      SuffixAt(kept, all, |all| - |kept| + i);
      SuffixAt(kept, all, |all| - |kept| + j);
    }
  }

  lemma AddKeepsOwned(s: State, e: Entry, budget: nat, handed: set<Pointer>)
    requires Owned(s, handed) && Disciplined(s, AddOp(e))
    ensures Owned(Step(s, AddOp(e), budget), handed + HandedBy(AddOp(e)))
  {
    hide Releases, Without, Evict, DistinctKeys, ReplacementReleases, Disciplined, HandedBy;
    var all := Without(s.list, e.key) + [e];
    var kept := Evict(all, budget);
    var dropped := all[..|all| - |kept|];
    DistinctPush(s.list, e);
    EvictSplits(all, budget);
    ReleasesConcat(dropped, kept);
    ReleasesConcat(Without(s.list, e.key), [e]);
    ReplacementBalance(s, e, handed);
    var t := Step(s, AddOp(e), budget);
    assert t.list == kept && t.released == s.released + ReplacementReleases(s.list, e) + Releases(dropped);
    assert Releases(dropped) + Releases(kept) == Releases(Without(s.list, e.key)) + Releases([e]);
    SameMultiset(s.released, ReplacementReleases(s.list, e), Releases(dropped), Releases(kept),
                 Releases(Without(s.list, e.key)), Releases([e]));
  }

  lemma SameMultiset(r: seq<Pointer>, x: seq<Pointer>, a: seq<Pointer>, b: seq<Pointer>, c: seq<Pointer>,
                     d: seq<Pointer>)
    requires a + b == c + d
    ensures multiset(r + x + a) + multiset(b) == multiset(r) + multiset(x) + multiset(c) + multiset(d)
  {
    var m := multiset(r) + multiset(x);
    var ab, cd := multiset(a) + multiset(b), multiset(c) + multiset(d);
    assert ab == multiset(a + b) == multiset(c + d) == cd;
    assert m + multiset(a) + multiset(b) == m + ab;
    assert m + multiset(c) + multiset(d) == m + cd;
  }

  /** Replacing the entry of a key: the old value is released unless it comes back, and a new pointer
      was never handed over before. */
  lemma ReplacementBalance(s: State, e: Entry, handed: set<Pointer>)
    requires Owned(s, handed) && Disciplined(s, AddOp(e))
    ensures multiset(s.released) + multiset(ReplacementReleases(s.list, e))
            + multiset(Releases(Without(s.list, e.key))) + multiset(Releases([e]))
            == multiset(handed + HandedBy(AddOp(e)))
  {
    hide Releases, Without, IndexOf, DistinctKeys, Disciplined;
    WithoutReleases(s.list, e.key);
    ReleaseOne(e);
    var i := IndexOf(s.list, e.key);
    if i < |s.list| {
      ReleaseOne(s.list[i]);
    }
    var was := if i < |s.list| then s.list[i].value else 0;
    assert multiset(Releases(s.list)) == multiset(Releases(Without(s.list, e.key))) + One(was);
    assert multiset(Releases([e])) == One(e.value);
    assert multiset(ReplacementReleases(s.list, e)) == if was == e.value then multiset{} else One(was);
    if e.value == 0 {
      assert handed + HandedBy(AddOp(e)) == handed;
    } else {
      NewPointer(s, e, handed);
      if e.value in handed {
        assert handed + HandedBy(AddOp(e)) == handed;
      } else {
        assert multiset(handed + {e.value}) == multiset(handed) + multiset{e.value};
      }
    }
  }

  ghost function One(p: Pointer): multiset<Pointer> {
    if p != 0 then multiset{p} else multiset{}
  }

  /** A pointer that is handed over again is the one held under the same key. */
  lemma NewPointer(s: State, e: Entry, handed: set<Pointer>)
    requires Owned(s, handed) && Disciplined(s, AddOp(e)) && e.value != 0
    ensures e.value in handed <==> IndexOf(s.list, e.key) < |s.list| && s.list[IndexOf(s.list, e.key)].value == e.value
  {
    hide Releases;
    var held := Releases(s.list);
    ReleasesMember(s.list, e.value);
    assert e.value in multiset(handed) <==> e.value in multiset(s.released) + multiset(held);
    assert e.value in handed <==> e.value in held;
    var i := IndexOf(s.list, e.key);
    if e.value in handed {
      var x :| x in s.list && x.value == e.value;
      var j :| 0 <= j < |s.list| && s.list[j] == x;
      IndexUnique(s.list, e.key, j);
    } else if i < |s.list| {
      assert s.list[i] in s.list;
    }
  }

  function RunOps(s: State, ops: seq<Op>, budget: nat): State
    decreases |ops|
  {
    if |ops| == 0 then s else RunOps(Step(s, ops[0], budget), ops[1..], budget)
  }

  ghost predicate DisciplinedRun(s: State, ops: seq<Op>, budget: nat)
    decreases |ops|
  {
    |ops| > 0 ==> Disciplined(s, ops[0]) && DisciplinedRun(Step(s, ops[0], budget), ops[1..], budget)
  }

  function HandedByAll(ops: seq<Op>): set<Pointer> {
    if |ops| == 0 then {} else HandedBy(ops[0]) + HandedByAll(ops[1..])
  }

  lemma {:induction false} RunKeepsOwned(s: State, ops: seq<Op>, budget: nat, handed: set<Pointer>)
    requires Owned(s, handed) && DisciplinedRun(s, ops, budget)
    ensures Owned(RunOps(s, ops, budget), handed + HandedByAll(ops))
    decreases |ops|
  {
    hide Owned, Step, Disciplined, HandedBy;
    if |ops| == 0 {
      assert handed + HandedByAll(ops) == handed;
    } else {
      StepKeepsOwned(s, ops[0], budget, handed);
      RunKeepsOwned(Step(s, ops[0], budget), ops[1..], budget, handed + HandedBy(ops[0]));
      assert handed + HandedBy(ops[0]) + HandedByAll(ops[1..]) == handed + HandedByAll(ops);
    }
  }

  /** From an empty cache, whatever a disciplined caller does, by the time `free_cache` has dropped the
      remaining entries every non-null pointer handed over has been freed exactly once. */
  lemma EveryPointerFreedOnce(ops: seq<Op>, budget: nat)
    requires DisciplinedRun(State([], []), ops, budget)
    ensures var s := RunOps(State([], []), ops, budget);
            multiset(s.released + Releases(s.list)) == multiset(HandedByAll(ops))
  {
    hide RunOps;
    assert Releases([]) == [];
    RunKeepsOwned(State([], []), ops, budget, {});
    assert {} + HandedByAll(ops) == HandedByAll(ops);
  }

  // ---- The same for the real table ----

  function OpSizes(ops: seq<Op>): nat {
    if |ops| == 0 then 0 else (if ops[0].AddOp? then ops[0].entry.size else 0) + OpSizes(ops[1..])
  }

  lemma StepSize(s: State, op: Op, budget: nat)
    ensures TotalSize(Step(s, op, budget).list) <= TotalSize(s.list) + OpSizes([op])
  {
    hide TotalSize, Without, Evict, Evicted, Releases, ReplacementReleases;
    var key := if op.AddOp? then op.entry.key else op.key;
    var i := IndexOf(s.list, key);
    WithoutSplits(s.list, key);
    WithoutMiss(s.list, key);
    assert OpSizes([op][1..]) == 0;
    if op.AddOp? || i < |s.list| {
      var e := if op.AddOp? then op.entry else s.list[i];
      TotalSizeConcat(Without(s.list, key), [e]);
      TotalSizeOne(e);
      SuffixSize(Evict(Without(s.list, key) + [e], budget), Without(s.list, key) + [e]);
    }
  }

  /** One call of the cache is one step. */
  method Perform(cache: Cache, op: Op)
    requires cache.Valid() && cache.freeFunc && cache.curBytes + OpSizes([op]) < 0x1_0000_0000_0000_0000
    modifies cache
    ensures cache.Valid() && cache.curBytes <= old(cache.curBytes) + OpSizes([op])
    ensures State(cache.list, cache.released) == Step(State(old(cache.list), old(cache.released)), op, cache.maxBytes)
  {
    hide Linked, Promote, Put, Evicted, Releases, ReplacementReleases, TotalSize;
    StepSize(State(cache.list, cache.released), op, cache.maxBytes);
    assert OpSizes([op][1..]) == 0;
    match op {
      case FindOp(key) =>
        var value := cache.Find(key);
      case AddOp(e) =>
        cache.Add(e.key, e.value, e.size);
        AppendAssociates(old(cache.released), ReplacementReleases(old(cache.list), e),
                         Releases(Evicted(old(cache.list), e, cache.maxBytes)));
    }
  }

  lemma AppendAssociates(a: seq<Pointer>, b: seq<Pointer>, c: seq<Pointer>)
    ensures a + (b + c) == a + b + c
  {
  }

  lemma OpSizesStep(ops: seq<Op>)
    requires |ops| > 0
    ensures OpSizes(ops) == OpSizes([ops[0]]) + OpSizes(ops[1..])
  {
    assert OpSizes([ops[0]][1..]) == 0;
  }

  /** The whole life of a cache with a callback: created, used by a disciplined caller, freed. */
  method Lifetime(maxBytes: nat, ops: seq<Op>) returns (cache: Cache)
    requires DisciplinedRun(State([], []), ops, maxBytes) && OpSizes(ops) < 0x1_0000_0000_0000_0000
    ensures cache.list == [] && multiset(cache.released) == multiset(HandedByAll(ops))
  {
    hide Linked, Releases, Step, OpSizes, TotalSize, HandedByAll, DisciplinedRun;
    cache := new Cache(maxBytes, true);
    EveryPointerFreedOnce(ops, maxBytes);
    EmptySize();
    var n := 0;
    assert ops[0..] == ops;
    while n < |ops|
      invariant n <= |ops| && cache.Valid() && fresh(cache) && cache.freeFunc && cache.maxBytes == maxBytes
      invariant cache.curBytes + OpSizes(ops[n..]) < 0x1_0000_0000_0000_0000
      invariant RunOps(State([], []), ops, maxBytes)
                == RunOps(State(cache.list, cache.released), ops[n..], maxBytes)
    {
      assert ops[n..][1..] == ops[n + 1..];
      OpSizesStep(ops[n..]);
      Perform(cache, ops[n]);
      n := n + 1;
    }
    cache.Free();
  }

  lemma EmptySize()
    ensures TotalSize([]) == 0
  {
  }
}
