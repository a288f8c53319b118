/** Node pools that list a node more than once, or use the type `node-pool`: the webhook lets both
    through. What marking and clean-up make of them, and exactly when nothing is left behind. */
module RepeatedNames {
  import opened Objects
  import opened Taints
  import opened NodeMarking
  import opened NodeWalks
  import opened NodePasses

  /** The keys the removals look up at entry `i`: those of the last entry of its node. */
  function LookupKeys(pool: Pool, i: nat): seq<string>
    requires i < |pool.entries|
  {
    KeysFor(pool.entries, pool.entries[i].name)
  }

  /** Entry `i` lists a node an earlier entry lists already. */
  predicate Repeats(pool: Pool, i: nat)
    requires i < |pool.entries|
  {
    pool.entries[i].name in Names(pool)[..i]
  }

  /** After a repetition come repetitions only. */
  predicate RepeatsLast(pool: Pool) {
    forall i, j :: 0 <= i < j < |pool.entries| && Repeats(pool, i) ==> Repeats(pool, j)
  }

  /** Every entry's machine types are among those of the last entry of its node; the label of the
      type `node-pool` is the status label, which is always removed. */
  predicate KeysAgree(pool: Pool) {
    forall i, k :: 0 <= i < |pool.entries| && k in EntryKeys(pool, i) && k != STATUS_KEY ==> k in LookupKeys(pool, i)
  }

  /** No type twice in an entry, and `node-pool` only alone; an entry with one type always complies. */
  ghost predicate PlainTypes(pool: Pool) {
    && (forall i :: 0 <= i < |pool.entries| ==> Distinct(pool.entries[i].types))
    && (forall i :: 0 <= i < |pool.entries| && NODE_POOL_NAME in pool.entries[i].types ==> |pool.entries[i].types| == 1)
  }

  lemma {:induction false} LastEntry(entries: seq<PoolEntry>, i: nat) returns (l: nat)
    requires i < |entries|
    ensures l < |entries| && entries[l].name == entries[i].name
    ensures i <= l && forall j :: l < j < |entries| ==> entries[j].name != entries[i].name
    ensures KeysFor(entries, entries[i].name) == TypeKeys(entries[l].types)
    decreases |entries|
  {
    var n := |entries| - 1;
    if entries[n].name == entries[i].name {
      l := n;
    } else {
      l := LastEntry(entries[..n], i);
    }
  }

  lemma FreeForLookup(store: Store, pool: Pool, i: nat)
    requires AllFree(store, pool) && i < |pool.entries|
    ensures Free(NodeOf(store, pool, i), LookupKeys(pool, i))
  {
    var l := LastEntry(pool.entries, i);
    assert Free(NodeOf(store, pool, l), EntryKeys(pool, l));
  }

  // ----- a label nobody looks up -----

  lemma MarkLabelsAre(node: Node, group: string, removed: seq<string>, entry: PoolEntry, envtest: bool, now: int)
    requires Mark(node, group, removed, entry, envtest, now).Some?
    ensures var labels := Mark(node, group, removed, entry, envtest, now).value.labels;
      && STATUS_KEY in labels
      && (forall k :: k in TypeKeys(entry.types) ==> k in labels && labels[k] == group)
      && (forall k :: k in node.labels && k != STATUS_KEY && k !in removed && node.labels[k] == group ==>
        k in labels && labels[k] == group)
  {
  }

  ghost predicate Carries(store: Store, name: string, k: string, value: string) {
    name in store && k in store[name].labels && store[name].labels[k] == value
  }

  lemma MarkEntryLabels(store: Store, pool: Pool, i: nat, api: Api, envtest: bool, name: string, k: string)
    requires i < |pool.entries| && k != STATUS_KEY && k !in KeysFor(pool.entries, name)
    requires MarkEntry(store, Names(pool), i, MarkStep(pool, envtest, api.clock), api).1 == Done
    requires Carries(store, name, k, pool.group) || (pool.entries[i].name == name && k in EntryKeys(pool, i))
    ensures Carries(MarkEntry(store, Names(pool), i, MarkStep(pool, envtest, api.clock), api).0, name, k, pool.group)
  {
    var p := pool.entries[i];
    MarkEntryEffect(store, Names(pool), i, MarkStep(pool, envtest, api.clock), api);
    if p.name == name {
      MarkLabelsAre(store[name], pool.group, KeysFor(pool.entries, name), p, envtest, api.clock(i));
    }
  }

  lemma {:induction false} MarkFromLabels(
      store: Store, pool: Pool, i: nat, q: nat, api: Api, envtest: bool, k: string)
    requires i <= |pool.entries| && q < |pool.entries| && k != STATUS_KEY && k !in LookupKeys(pool, q)
    requires MarkFrom(store, Names(pool), i, MarkStep(pool, envtest, api.clock), api).1 == Done
    requires Carries(store, pool.entries[q].name, k, pool.group) || (i <= q && k in EntryKeys(pool, q))
    ensures Carries(MarkFrom(store, Names(pool), i, MarkStep(pool, envtest, api.clock), api).0,
                    pool.entries[q].name, k, pool.group)
    decreases |pool.entries| - i
  {
    if i < |pool.entries| {
      var s1 := MarkEntry(store, Names(pool), i, MarkStep(pool, envtest, api.clock), api).0;
      if Carries(store, pool.entries[q].name, k, pool.group) || i == q {
        MarkEntryLabels(store, pool, i, api, envtest, pool.entries[q].name, k);
      }
      MarkFromLabels(s1, pool, i + 1, q, api, envtest, k);
    }
  }

  lemma {:induction false} CleanKeepsLabel(
      store: Store, pool: Pool, i: nat, api: Api, name: string, key: string, value: string)
    requires i <= |pool.entries| && Carries(store, name, key, value)
    requires key != STATUS_KEY && key !in KeysFor(pool.entries, name)
    ensures Carries(CleanFrom(store, Names(pool), i, CleanStep(pool), api).0, name, key, value)
    decreases |pool.entries| - i
  {
    if i < |pool.entries| && !api.getFails(i) {
      var n := pool.entries[i].name;
      var c := CleanStep(pool)(i, Fetched(store, n));
      if c.Some? && c.value != Fetched(store, n) && !api.updateFails(i) {
        CleanKeepsLabel(store[n := c.value], pool, i + 1, api, name, key, value);
      }
    }
  }

  /** In any pool: a type of entry `q` that the last entry of the same node does not have stays on the
      node as a label after a completed marking pass and a clean-up, whatever answers that gets. */
  lemma RepeatedNameLeaks(store: Store, pool: Pool, q: nat, k: string, api: Api, api': Api, envtest: bool)
    requires q < |pool.entries| && k in EntryKeys(pool, q) && k != STATUS_KEY && k !in LookupKeys(pool, q)
    requires MarkPass(store, pool, api, envtest).1 == Done
    ensures Carries(CleanPass(MarkPass(store, pool, api, envtest).0, pool, api').0,
                    pool.entries[q].name, k, pool.group)
  {
    MarkFromLabels(store, pool, 0, q, api, envtest, k);
    CleanKeepsLabel(MarkPass(store, pool, api, envtest).0, pool, 0, api', pool.entries[q].name, k, pool.group);
  }

  // ----- a status taint written twice -----

  /** At most one status taint, or a list the removal panics on. */
  predicate SoundTaints(ts: seq<Taint>) {
    Count(ts, STATUS_KEY) <= 1 || Overruns(ts, STATUS_KEY)
  }

  lemma NoneLeft(ts: seq<Taint>, keys: seq<string>)
    requires Count(ts, STATUS_KEY) <= 1
    ensures RemoveManaged(ts, STATUS_KEY, keys).Some?
    ensures STATUS_KEY !in KeySet(RemoveManaged(ts, STATUS_KEY, keys).value)
  {
    AtMostOnceIsRemovable(ts, STATUS_KEY, []);
    SurvivorsCounted(ts, STATUS_KEY);
    DropEachCounts(Skipping(ts, STATUS_KEY), keys, STATUS_KEY);
    CountZero(DropEach(Skipping(ts, STATUS_KEY), keys), STATUS_KEY);
  }

  lemma {:induction false} UpdateCounts(ts: seq<Taint>, i: nat, t: Taint, key: string)
    requires i < |ts| && ts[i].key != key && t.key != key
    ensures Count(ts[i := t], key) == Count(ts, key)
  {
    if i > 0 {
      UpdateCounts(ts[1..], i - 1, t, key);
      assert ts[i := t][1..] == ts[1..][i - 1 := t];
    } else {
      assert ts[0 := t][1..] == ts[1..];
    }
  }

  lemma PlaceCounts(ts: seq<Taint>, seen: set<string>, t: Taint, key: string)
    requires t.key != key
    ensures Count(PlaceTaint(ts, seen, t), key) == Count(ts, key)
  {
    var i := FirstIndex(ts, t.key);
    if i >= 0 {
      UpdateCounts(ts, i, t, key);
    }
    CountConcat(ts, [t], key);
    assert [t][1..] == [];
  }

  lemma {:induction false} PlaceEachCounts(
      ts: seq<Taint>, seen: set<string>, keys: seq<string>, group: string, now: int, key: string)
    requires key !in keys
    ensures Count(PlaceEach(ts, seen, keys, group, now), key) == Count(ts, key)
    decreases keys
  {
    if keys != [] {
      var t := ManagedTaint(keys[0], group, now);
      PlaceCounts(ts, seen, t, key);
      PlaceEachCounts(PlaceTaint(ts, seen, t), seen, keys[1..], group, now, key);
    }
  }

  /** One marking keeps taints sound; a tainted entry of the type `node-pool` spoils them. */
  lemma MarkSound(node: Node, group: string, removed: seq<string>, entry: PoolEntry, envtest: bool, now: int)
    requires SoundTaints(node.taints) && Mark(node, group, removed, entry, envtest, now).Some?
    requires NODE_POOL_NAME in entry.types ==> |entry.types| == 1
    ensures var ts := Mark(node, group, removed, entry, envtest, now).value.taints;
      SoundTaints(ts) && (entry.taint && NODE_POOL_NAME in entry.types ==> Overruns(ts, STATUS_KEY))
  {
    var keys := TypeKeys(entry.types);
    StatusKeyNotListed(entry.types);
    if entry.taint {
      NoneLeft(node.taints, removed);
      var ts := RemoveManaged(node.taints, STATUS_KEY, removed).value;
      var value := StatusValue(entry.mode, KeySet(ts), envtest);
      var placed := ts + [ManagedTaint(STATUS_KEY, value, now)];
      if NODE_POOL_NAME in entry.types {
        assert keys == [STATUS_KEY];
        PlaceStatusTwice(ts, group, value, now);
      } else {
        CountZero(ts, STATUS_KEY);
        CountConcat(ts, [ManagedTaint(STATUS_KEY, value, now)], STATUS_KEY);
        PlaceEachCounts(placed, KeySet(ts), keys, group, now, STATUS_KEY);
      }
    }
  }

  ghost predicate Spoilt(store: Store, name: string) {
    name in store && Overruns(store[name].taints, STATUS_KEY)
  }

  /** A spoilt list stops tainted entries and is left alone by the others. */
  lemma MarkSpoilt(node: Node, group: string, removed: seq<string>, entry: PoolEntry, envtest: bool, now: int)
    requires Overruns(node.taints, STATUS_KEY) && Mark(node, group, removed, entry, envtest, now).Some?
    ensures Mark(node, group, removed, entry, envtest, now).value.taints == node.taints
  {
  }

  /** The node entry `i` writes, seen from the store. */
  lemma MarkEntryNode(store: Store, pool: Pool, i: nat, api: Api, envtest: bool)
    requires i < |pool.entries|
    requires MarkEntry(store, Names(pool), i, MarkStep(pool, envtest, api.clock), api).1 == Done
    ensures var p := pool.entries[i];
      var s := MarkEntry(store, Names(pool), i, MarkStep(pool, envtest, api.clock), api).0;
      && p.name in store
      && var m := Mark(store[p.name], pool.group, LookupKeys(pool, i), p, envtest, api.clock(i));
      && m.Some?
      && s == store[p.name := if Unwritten(store[p.name], m.value) then store[p.name] else m.value]
  {
    MarkEntryEffect(store, Names(pool), i, MarkStep(pool, envtest, api.clock), api);
  }

  lemma SpoiltKept(store: Store, pool: Pool, i: nat, api: Api, envtest: bool, name: string)
    requires i < |pool.entries| && Spoilt(store, name)
    requires MarkEntry(store, Names(pool), i, MarkStep(pool, envtest, api.clock), api).1 == Done
    ensures Spoilt(MarkEntry(store, Names(pool), i, MarkStep(pool, envtest, api.clock), api).0, name)
  {
    var p := pool.entries[i];
    MarkEntryNode(store, pool, i, api, envtest);
    if p.name == name {
      MarkSpoilt(store[name], pool.group, LookupKeys(pool, i), p, envtest, api.clock(i));
    }
  }

  lemma {:induction false} SpoiltStays(store: Store, pool: Pool, i: nat, api: Api, envtest: bool, name: string)
    requires i <= |pool.entries| && Spoilt(store, name)
    requires MarkFrom(store, Names(pool), i, MarkStep(pool, envtest, api.clock), api).1 == Done
    ensures Spoilt(MarkFrom(store, Names(pool), i, MarkStep(pool, envtest, api.clock), api).0, name)
    decreases |pool.entries| - i
  {
    if i < |pool.entries| {
      SpoiltKept(store, pool, i, api, envtest, name);
      SpoiltStays(MarkEntry(store, Names(pool), i, MarkStep(pool, envtest, api.clock), api).0,
                  pool, i + 1, api, envtest, name);
    }
  }

  ghost predicate AllSound(store: Store, pool: Pool) {
    forall j :: 0 <= j < |pool.entries| ==> SoundTaints(NodeOf(store, pool, j).taints)
  }

  lemma SoundKept(store: Store, pool: Pool, i: nat, api: Api, envtest: bool)
    requires PlainTypes(pool) && AllSound(store, pool) && i < |pool.entries|
    requires MarkEntry(store, Names(pool), i, MarkStep(pool, envtest, api.clock), api).1 == Done
    ensures var p := pool.entries[i];
      var s := MarkEntry(store, Names(pool), i, MarkStep(pool, envtest, api.clock), api).0;
      AllSound(s, pool) && (p.taint && NODE_POOL_NAME in p.types ==> Spoilt(s, p.name))
  {
    var p := pool.entries[i];
    MarkEntryNode(store, pool, i, api, envtest);
    var node := NodeOf(store, pool, i);
    MarkSound(node, pool.group, LookupKeys(pool, i), p, envtest, api.clock(i));
    var s := MarkEntry(store, Names(pool), i, MarkStep(pool, envtest, api.clock), api).0;
    forall j | 0 <= j < |pool.entries| ensures SoundTaints(NodeOf(s, pool, j).taints) {
      assert SoundTaints(NodeOf(store, pool, j).taints);
    }
  }

  lemma {:induction false} TaintedStatusTypeSpoils(
      store: Store, pool: Pool, i: nat, q: nat, api: Api, envtest: bool)
    requires PlainTypes(pool) && AllSound(store, pool) && i <= q < |pool.entries|
    requires pool.entries[q].taint && NODE_POOL_NAME in pool.entries[q].types
    requires MarkFrom(store, Names(pool), i, MarkStep(pool, envtest, api.clock), api).1 == Done
    ensures Spoilt(MarkFrom(store, Names(pool), i, MarkStep(pool, envtest, api.clock), api).0, pool.entries[q].name)
    decreases |pool.entries| - i
  {
    var s1 := MarkEntry(store, Names(pool), i, MarkStep(pool, envtest, api.clock), api).0;
    SoundKept(store, pool, i, api, envtest);
    if i == q {
      SpoiltStays(s1, pool, i + 1, api, envtest, pool.entries[q].name);
    } else {
      TaintedStatusTypeSpoils(s1, pool, i + 1, q, api, envtest);
    }
  }

  lemma {:induction false} CleanKeepsSpoilt(store: Store, pool: Pool, i: nat, api: Api, name: string)
    requires i <= |pool.entries| && Spoilt(store, name)
    ensures Spoilt(CleanFrom(store, Names(pool), i, CleanStep(pool), api).0, name)
    decreases |pool.entries| - i
  {
    if i < |pool.entries| && !api.getFails(i) {
      var n := pool.entries[i].name;
      var c := CleanStep(pool)(i, Fetched(store, n));
      if c.Some? && c.value != Fetched(store, n) && !api.updateFails(i) {
        CleanKeepsSpoilt(store[n := c.value], pool, i + 1, api, name);
      }
    }
  }

  // ----- agreeing repetitions -----

  lemma MarkCoveredLabels(labels: Labels, group: string, removed: seq<string>, keys: seq<string>, value: string)
    requires CarriesGroup(labels, group, removed)
    requires forall k :: k in keys && k != STATUS_KEY ==> k in removed
    ensures var after := SetLabels(StripLabels(labels, group, removed)[STATUS_KEY := value], keys, group);
      && STATUS_KEY in after
      && CarriesGroup(after, group, removed)
      && after - ManagedKeys(removed) == labels - ManagedKeys(removed)
  {
  }

  lemma MarkCoveredTaints(
      ts: seq<Taint>, removed: seq<string>, keys: seq<string>, group: string, value: string, now: int)
    requires KeySet(ts) !! ManagedKeys(removed) && STATUS_KEY !in keys
    requires forall k :: k in keys ==> k in removed && Occurrences(keys, k) <= Occurrences(removed, k)
    ensures var status := ManagedTaint(STATUS_KEY, value, now);
      var placed := PlaceEach(PlaceTaint(ts, KeySet(ts), status), KeySet(ts), keys, group, now);
      && Count(placed, STATUS_KEY) <= 1
      && (forall k :: k in removed ==> Count(placed, k) <= Occurrences(removed, k))
      && Without(placed, ManagedKeys(removed)) == ts
  {
    var s := ManagedTaint(STATUS_KEY, value, now);
    var added := FreshTaints(keys, group, now);
    PlacedIs(ts, keys, group, value, now);
    forall k | k in ManagedKeys(removed)
      ensures Count(ts + ([s] + added), k) == (if k == STATUS_KEY then 1 else 0) + Occurrences(keys, k)
      ensures Occurrences(keys, k) <= Occurrences(removed, k)
    {
      CountConcat(ts, [s] + added, k);
      CountConcat([s], added, k);
      CountZero(ts, k);
      FreshCounts(keys, group, now, k);
      NotListed(keys, k);
    }
    NotListed(keys, STATUS_KEY);
    NotListed(removed, STATUS_KEY);
    WithoutConcat(ts, [s] + added, ManagedKeys(removed));
    WithoutConcat([s], added, ManagedKeys(removed));
    FreshVanishes(keys, group, now, ManagedKeys(removed));
    WithoutNothing(ts, ManagedKeys(removed));
    assert ts + ([] + []) == ts;
  }

  /** Marking with removals that cover more types than the entry has: a tame node is marked, and its
      unmanaged part is kept. */
  lemma MarkCovered(node: Node, group: string, removed: seq<string>, entry: PoolEntry, envtest: bool, now: int)
    requires entry.taint ==> NODE_POOL_NAME !in entry.types
    requires forall k :: k in TypeKeys(entry.types) && k != STATUS_KEY ==> k in removed
    requires forall k :: k in TypeKeys(entry.types) ==> Occurrences(TypeKeys(entry.types), k) <= 1
    requires Tame(node, group, removed)
    ensures var m := Mark(node, group, removed, entry, envtest, now);
      m.Some? && Marked(m.value, group, removed) && Rest(m.value, removed) == Rest(node, removed)
  {
    var keys := TypeKeys(entry.types);
    TameIsRemovable(node, group, removed);
    RemoveManagedExact(node.taints, STATUS_KEY, removed);
    var ts := if entry.taint then Without(node.taints, ManagedKeys(removed)) else node.taints;
    var value := StatusValue(entry.mode, KeySet(ts), envtest);
    MarkCoveredLabels(node.labels, group, removed, keys, value);
    assert node.annotations[MACHINE_GROUP_KEY := group] - {MACHINE_GROUP_KEY} == node.annotations - {MACHINE_GROUP_KEY};
    if entry.taint {
      StatusKeyNotListed(entry.types);
      WithoutKeys(node.taints, ManagedKeys(removed));
      forall k | k in keys ensures Occurrences(keys, k) <= Occurrences(removed, k) {
        NotListed(removed, k);
      }
      MarkCoveredTaints(ts, removed, keys, group, value, now);
    }
  }

  lemma {:induction false} DistinctOnce(keys: seq<string>, k: string)
    requires Distinct(keys)
    ensures Occurrences(keys, k) <= 1
  {
    if keys != [] {
      assert Distinct(keys[1..]) by {
        assert forall i :: 0 <= i < |keys[1..]| ==> keys[1..][i] == keys[i + 1];
      }
      DistinctOnce(keys[1..], k);
      NotListed(keys[1..], keys[0]);
      assert forall i :: 0 <= i < |keys[1..]| ==> keys[1..][i] == keys[i + 1];
    }
  }

  lemma TypesOnce(types: seq<string>, k: string)
    requires Distinct(types)
    ensures Occurrences(TypeKeys(types), k) <= 1
  {
    forall i, j | 0 <= i < j < |types| ensures TypeKeys(types)[i] != TypeKeys(types)[j] {
      TypeKeyInjective(types[i], types[j]);
    }
    DistinctOnce(TypeKeys(types), k);
  }

  /** Entry `j` as it must be found after marking: marked, and otherwise what it was in `base`. */
  ghost predicate Touched(store: Store, base: Store, pool: Pool, j: nat)
    requires j < |pool.entries|
  {
    && Marked(NodeOf(store, pool, j), pool.group, LookupKeys(pool, j))
    && Rest(NodeOf(store, pool, j), LookupKeys(pool, j)) == NodeOf(base, pool, j)
  }

  /** The nodes of the first `i` entries are touched, all others are those of `base`. */
  ghost predicate TouchedTo(store: Store, base: Store, pool: Pool, i: nat)
    requires i <= |pool.entries|
  {
    && store.Keys == base.Keys
    && (forall j :: 0 <= j < i ==> Touched(store, base, pool, j))
    && (forall name :: name in base && name !in Names(pool)[..i] ==> store[name] == base[name])
  }

  ghost predicate Compliant(pool: Pool) {
    PlainTypes(pool) && NoTaintedStatusType(pool) && KeysAgree(pool)
  }

  lemma NodeIsTouched(node: Node, base: Node, pool: Pool, i: nat, envtest: bool, now: int)
    requires Compliant(pool) && i < |pool.entries|
    requires Free(base, LookupKeys(pool, i))
    requires Tame(node, pool.group, LookupKeys(pool, i)) && Rest(node, LookupKeys(pool, i)) == base
    ensures var m := Mark(node, pool.group, LookupKeys(pool, i), pool.entries[i], envtest, now);
      && m.Some?
      && var after := if Unwritten(node, m.value) then node else m.value;
      Marked(after, pool.group, LookupKeys(pool, i)) && Rest(after, LookupKeys(pool, i)) == base
  {
    var keys := EntryKeys(pool, i);
    forall k | k in keys ensures Occurrences(keys, k) <= 1 {
      TypesOnce(pool.entries[i].types, k);
    }
    MarkCovered(node, pool.group, LookupKeys(pool, i), pool.entries[i], envtest, now);
  }

  lemma EntryIsReady(store: Store, base: Store, pool: Pool, i: nat)
    requires AllFree(base, pool) && i < |pool.entries| && TouchedTo(store, base, pool, i)
    requires pool.entries[i].name in store
    ensures Tame(NodeOf(store, pool, i), pool.group, LookupKeys(pool, i))
    ensures Rest(NodeOf(store, pool, i), LookupKeys(pool, i)) == NodeOf(base, pool, i)
  {
    if Repeats(pool, i) {
      var q :| 0 <= q < i && Names(pool)[q] == pool.entries[i].name;
      assert Touched(store, base, pool, q);
    } else {
      FreeForLookup(base, pool, i);
      FreeIsTame(NodeOf(base, pool, i), pool.group, LookupKeys(pool, i));
      FreeIsRest(NodeOf(base, pool, i), LookupKeys(pool, i));
    }
  }

  lemma TouchedNext(store: Store, base: Store, pool: Pool, i: nat, node: Node)
    requires i < |pool.entries| && TouchedTo(store, base, pool, i) && pool.entries[i].name in store
    requires Marked(node, pool.group, LookupKeys(pool, i))
    requires Rest(node, LookupKeys(pool, i)) == NodeOf(base, pool, i)
    ensures TouchedTo(store[pool.entries[i].name := node], base, pool, i + 1)
  {
    var name := pool.entries[i].name;
    var s := store[name := node];
    forall j | 0 <= j < i + 1 ensures Touched(s, base, pool, j) {
      if pool.entries[j].name != name {
        assert Touched(store, base, pool, j);
      }
    }
    assert Names(pool)[..i + 1] == Names(pool)[..i] + [name];
  }

  lemma EntryTouches(store: Store, base: Store, pool: Pool, i: nat, api: Api, envtest: bool)
    requires Compliant(pool) && AllFree(base, pool) && i < |pool.entries| && TouchedTo(store, base, pool, i)
    requires MarkEntry(store, Names(pool), i, MarkStep(pool, envtest, api.clock), api).1 == Done
    ensures TouchedTo(MarkEntry(store, Names(pool), i, MarkStep(pool, envtest, api.clock), api).0, base, pool, i + 1)
  {
    MarkEntryNode(store, pool, i, api, envtest);
    EntryIsReady(store, base, pool, i);
    FreeForLookup(base, pool, i);
    var node := NodeOf(store, pool, i);
    NodeIsTouched(node, NodeOf(base, pool, i), pool, i, envtest, api.clock(i));
    var m := Mark(node, pool.group, LookupKeys(pool, i), pool.entries[i], envtest, api.clock(i)).value;
    TouchedNext(store, base, pool, i, if Unwritten(node, m) then node else m);
  }

  lemma {:induction false} PassTouches(store: Store, base: Store, pool: Pool, i: nat, api: Api, envtest: bool)
    requires Compliant(pool) && AllFree(base, pool) && i <= |pool.entries| && TouchedTo(store, base, pool, i)
    requires MarkFrom(store, Names(pool), i, MarkStep(pool, envtest, api.clock), api).1 == Done
    ensures TouchedTo(MarkFrom(store, Names(pool), i, MarkStep(pool, envtest, api.clock), api).0,
                      base, pool, |pool.entries|)
    decreases |pool.entries| - i
  {
    if i < |pool.entries| {
      EntryTouches(store, base, pool, i, api, envtest);
      PassTouches(MarkEntry(store, Names(pool), i, MarkStep(pool, envtest, api.clock), api).0,
                  base, pool, i + 1, api, envtest);
    }
  }

  /** The clean-up step takes a touched node back to `base`, and leaves that alone. */
  lemma CleanStepOf(marked: Store, base: Store, pool: Pool, i: nat)
    requires AllFree(base, pool) && i < |pool.entries| && Touched(marked, base, pool, i)
    ensures CleanStep(pool)(i, NodeOf(marked, pool, i)) == Some(NodeOf(base, pool, i))
    ensures CleanStep(pool)(i, NodeOf(base, pool, i)) == Some(NodeOf(base, pool, i))
    ensures NodeOf(marked, pool, i) != NodeOf(base, pool, i)
  {
    var keys := LookupKeys(pool, i);
    var node := NodeOf(base, pool, i);
    FreeForLookup(base, pool, i);
    FreeIsTame(node, pool.group, keys);
    FreeIsRest(node, keys);
    TameStrips(node, pool.group, keys);
    TameStrips(NodeOf(marked, pool, i), pool.group, keys);
    assert STATUS_KEY in ManagedKeys(keys);
  }

  /** The clean-up of agreeing repetitions. */
  lemma CleanOfTouched(marked: Store, base: Store, pool: Pool, api: Api) returns (stop: nat)
    requires AllFree(base, pool) && TouchedTo(marked, base, pool, |pool.entries|) && Faultless(api)
    ensures stop <= |pool.entries| && (stop < |pool.entries| ==> Repeats(pool, stop))
    ensures forall q :: 0 <= q < stop ==> !Repeats(pool, q)
    ensures var (s, o) := CleanPass(marked, pool, api);
      o == Done && RestoredTo(s, marked, base, Names(pool), stop)
  {
    var names := Names(pool);
    var step := CleanStep(pool);
    forall j | 0 <= j < |names|
      ensures TakesBack(marked, base, names, j, step)
    {
      assert Touched(marked, base, pool, j);
      CleanStepOf(marked, base, pool, j);
    }
    stop := CleanStopsAtRepeat(marked, marked, base, names, 0, step, api);
  }

  /** An entry that only repeats lie behind of, and is none itself, comes before the first repetition. */
  lemma RepeatsLastIs(pool: Pool, stop: nat)
    requires stop <= |pool.entries| && (stop < |pool.entries| ==> Repeats(pool, stop))
    requires forall q :: 0 <= q < stop ==> !Repeats(pool, q)
    ensures RepeatsLast(pool) <==>
      forall j :: 0 <= j < |pool.entries| ==> pool.entries[j].name in Names(pool)[..stop]
  {
    var names := Names(pool);
    if RepeatsLast(pool) {
      forall j | 0 <= j < |pool.entries| ensures pool.entries[j].name in names[..stop] {
        var f := FirstListing(names, j);
        assert !Repeats(pool, f);
        assert f < stop;
        assert names[..stop][f] == names[j];
      }
    }
    if forall j :: 0 <= j < |pool.entries| ==> pool.entries[j].name in names[..stop] {
      forall i, j | 0 <= i < j < |pool.entries| && Repeats(pool, i) ensures Repeats(pool, j) {
        assert stop <= i;
        assert pool.entries[j].name in names[..stop];
        var q :| 0 <= q < stop && names[..stop][q] == names[j];
        assert names[..j][q] == names[j];
      }
    }
  }

  lemma {:induction false} FirstListing(names: seq<string>, j: nat) returns (f: nat)
    requires j < |names|
    ensures f <= j && names[f] == names[j] && names[f] !in names[..f]
    decreases j
  {
    if names[j] in names[..j] {
      var q :| 0 <= q < j && names[..j][q] == names[j];
      f := FirstListing(names, q);
    } else {
      f := j;
    }
  }

  // ----- exactly when nothing is left behind -----

  /** For agreeing repetitions: all listed nodes are freed, and the store is the old one, exactly if
      repetitions come last. */
  lemma CompliantRoundTrip(store: Store, pool: Pool, api: Api, api': Api, envtest: bool)
    requires Compliant(pool) && AllFree(store, pool) && Faultless(api')
    requires MarkPass(store, pool, api, envtest).1 == Done
    ensures var (s, o) := CleanPass(MarkPass(store, pool, api, envtest).0, pool, api');
      && o == Done
      && (AllFree(s, pool) <==> RepeatsLast(pool))
      && (s == store <==> RepeatsLast(pool))
  {
    var marked := MarkPass(store, pool, api, envtest).0;
    PassTouches(store, store, pool, 0, api, envtest);
    var stop := CleanOfTouched(marked, store, pool, api');
    StopDecides(CleanPass(marked, pool, api').0, marked, store, pool, stop);
  }

  lemma StopDecides(s: Store, marked: Store, base: Store, pool: Pool, stop: nat)
    requires stop <= |pool.entries| && (stop < |pool.entries| ==> Repeats(pool, stop))
    requires forall q :: 0 <= q < stop ==> !Repeats(pool, q)
    requires RestoredTo(s, marked, base, Names(pool), stop)
    requires AllFree(base, pool) && TouchedTo(marked, base, pool, |pool.entries|)
    ensures AllFree(s, pool) <==> RepeatsLast(pool)
    ensures s == base <==> RepeatsLast(pool)
  {
    RepeatsLastIs(pool, stop);
    if RepeatsLast(pool) {
      AllRestored(s, marked, base, pool, stop);
    } else {
      var j :| 0 <= j < |pool.entries| && pool.entries[j].name !in Names(pool)[..stop];
      StillMarked(s, marked, base, pool, stop, j);
    }
  }

  lemma StillMarked(s: Store, marked: Store, base: Store, pool: Pool, stop: nat, j: nat)
    requires stop <= |pool.entries| && RestoredTo(s, marked, base, Names(pool), stop)
    requires AllFree(base, pool) && TouchedTo(marked, base, pool, |pool.entries|)
    requires j < |pool.entries| && pool.entries[j].name !in Names(pool)[..stop]
    ensures !AllFree(s, pool) && s != base
  {
    assert Touched(marked, base, pool, j);
    assert NodeOf(s, pool, j) == NodeOf(marked, pool, j);
    assert STATUS_KEY in ManagedKeys(EntryKeys(pool, j));
    assert !Free(NodeOf(s, pool, j), EntryKeys(pool, j));
    assert Free(NodeOf(base, pool, j), EntryKeys(pool, j));
  }

  lemma AllRestored(s: Store, marked: Store, base: Store, pool: Pool, stop: nat)
    requires stop <= |pool.entries| && RestoredTo(s, marked, base, Names(pool), stop)
    requires TouchedTo(marked, base, pool, |pool.entries|)
    requires forall j :: 0 <= j < |pool.entries| ==> pool.entries[j].name in Names(pool)[..stop]
    ensures s == base
  {
    var names := Names(pool);
    assert names[..|pool.entries|] == names;
    forall name | name in base ensures s[name] == base[name] {
      if name in names {
        var j :| 0 <= j < |names| && names[j] == name;
        assert pool.entries[j].name in names[..stop];
      }
    }
  }

  /** Exactly when marking can be undone, for every pool whose entries have plain types (in particular
      exactly one, as the webhook demands). If no listed node carries a managed key, then a completed
      marking pass and a fault-free clean-up leave every listed node free, and the store as it was,
      exactly if no tainted entry has the type `node-pool`, entries of one node agree with the last of
      them, and repetitions come last. */
  lemma MarkCleanExact(store: Store, pool: Pool, api: Api, api': Api, envtest: bool)
    requires PlainTypes(pool) && AllFree(store, pool) && Faultless(api')
    requires MarkPass(store, pool, api, envtest).1 == Done
    ensures var result := CleanPass(MarkPass(store, pool, api, envtest).0, pool, api');
      && (AllFree(result.0, pool) <==> NoTaintedStatusType(pool) && KeysAgree(pool) && RepeatsLast(pool))
      && (result == (store, Done) <==> NoTaintedStatusType(pool) && KeysAgree(pool) && RepeatsLast(pool))
  {
    if !NoTaintedStatusType(pool) {
      TaintedStatusTypeLeaks(store, pool, api, api', envtest);
    } else if !KeysAgree(pool) {
      var q, k :| 0 <= q < |pool.entries| && k in EntryKeys(pool, q) && k != STATUS_KEY && k !in LookupKeys(pool, q);
      RepeatedNameLeaks(store, pool, q, k, api, api', envtest);
      assert k in ManagedKeys(EntryKeys(pool, q));
    } else {
      CompliantRoundTrip(store, pool, api, api', envtest);
    }
  }

  lemma TaintedStatusTypeLeaks(store: Store, pool: Pool, api: Api, api': Api, envtest: bool)
    requires PlainTypes(pool) && AllFree(store, pool) && !NoTaintedStatusType(pool)
    requires MarkPass(store, pool, api, envtest).1 == Done
    ensures !AllFree(CleanPass(MarkPass(store, pool, api, envtest).0, pool, api').0, pool)
  {
    var q :| 0 <= q < |pool.entries| && pool.entries[q].taint && NODE_POOL_NAME in pool.entries[q].types;
    forall j | 0 <= j < |pool.entries| ensures SoundTaints(NodeOf(store, pool, j).taints) {
      assert STATUS_KEY in ManagedKeys(EntryKeys(pool, j));
      CountZero(NodeOf(store, pool, j).taints, STATUS_KEY);
    }
    TaintedStatusTypeSpoils(store, pool, 0, q, api, envtest);
    var name := pool.entries[q].name;
    var marked := MarkPass(store, pool, api, envtest).0;
    CleanKeepsSpoilt(marked, pool, 0, api', name);
    SpoiltIsNotFree(CleanPass(marked, pool, api').0, pool, q);
  }

  lemma SpoiltIsNotFree(store: Store, pool: Pool, q: nat)
    requires q < |pool.entries| && Spoilt(store, pool.entries[q].name)
    ensures !AllFree(store, pool)
  {
    var ts := NodeOf(store, pool, q).taints;
    assert ts[|ts| - 1] in ts;
    assert STATUS_KEY in KeySet(ts) && STATUS_KEY in ManagedKeys(EntryKeys(pool, q));
  }

  /** A repetition hides what follows: the clean-up succeeds and leaves later nodes marked. */
  lemma RepeatHidesLater(
      store: Store, pool: Pool, r: nat, j: nat, api: Api, api': Api, envtest: bool)
    requires Compliant(pool) && AllFree(store, pool) && Faultless(api')
    requires MarkPass(store, pool, api, envtest).1 == Done
    requires r < |pool.entries| && Repeats(pool, r)
    requires j < |pool.entries| && pool.entries[j].name !in Names(pool)[..r]
    ensures var marked := MarkPass(store, pool, api, envtest).0;
      var (s, o) := CleanPass(marked, pool, api');
      && o == Done
      && NodeOf(s, pool, j) == NodeOf(marked, pool, j)
      && Marked(NodeOf(s, pool, j), pool.group, LookupKeys(pool, j))
  {
    var names := Names(pool);
    var marked := MarkPass(store, pool, api, envtest).0;
    PassTouches(store, store, pool, 0, api, envtest);
    var stop := CleanOfTouched(marked, store, pool, api');
    assert stop <= r;
    assert names[j] !in names[..stop] by {
      assert forall q :: 0 <= q < stop ==> names[..stop][q] == names[..r][q];
    }
    assert Touched(marked, store, pool, j);
  }

  /** The shortest case: one entry listed twice in front of another. */
  lemma TwiceListedHidesNext(
      store: Store, group: string, e: PoolEntry, f: PoolEntry, api: Api, api': Api, envtest: bool)
    requires e.name != f.name && |e.types| == |f.types| == 1
    requires NODE_POOL_NAME !in e.types && NODE_POOL_NAME !in f.types
    requires AllFree(store, Pool(group, [e, e, f])) && Faultless(api')
    requires MarkPass(store, Pool(group, [e, e, f]), api, envtest).1 == Done
    ensures var pool := Pool(group, [e, e, f]);
      var (s, o) := CleanPass(MarkPass(store, pool, api, envtest).0, pool, api');
      o == Done && f.name in s && Marked(s[f.name], group, TypeKeys(f.types))
  {
    var pool := Pool(group, [e, e, f]);
    var names := Names(pool);
    assert names[..1] == [e.name];
    assert pool.entries[..2] == [e, e];
    assert LookupKeys(pool, 0) == KeysFor([e, e], e.name) == TypeKeys(e.types);
    assert LookupKeys(pool, 1) == TypeKeys(e.types) && LookupKeys(pool, 2) == TypeKeys(f.types);
    RepeatHidesLater(store, pool, 1, 2, api, api', envtest);
  }
}
