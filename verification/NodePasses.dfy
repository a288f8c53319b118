/** Whole passes of the MachineNodePool controller: what a marking pass and a clean-up pass leave
    in the node store, whatever the API server answers. */
module NodePasses {
  import opened Objects
  import opened Taints
  import opened NodeMarking
  import opened NodeWalks

  datatype Pool = Pool(group: string, entries: seq<PoolEntry>)

  function Names(pool: Pool): (names: seq<string>)
    ensures |names| == |pool.entries|
  {
    seq(|pool.entries|, i requires 0 <= i < |pool.entries| => pool.entries[i].name)
  }

  function EntryKeys(pool: Pool, i: nat): seq<string>
    requires i < |pool.entries|
  {
    TypeKeys(pool.entries[i].types)
  }

  function MarkStep(pool: Pool, envtest: bool, clock: nat -> int): Step {
    (i: nat, node: Node) =>
      if i < |pool.entries|
      then Mark(node, pool.group, KeysFor(pool.entries, pool.entries[i].name), pool.entries[i], envtest, clock(i))
      else None
  }

  function CleanStep(pool: Pool): Step {
    (i: nat, node: Node) =>
      if i < |pool.entries|
      then Strip(node, pool.group, KeysFor(pool.entries, pool.entries[i].name))
      else None
  }

  /** `reconcileNode`. */
  function MarkPass(store: Store, pool: Pool, api: Api, envtest: bool): (Store, Outcome) {
    MarkFrom(store, Names(pool), 0, MarkStep(pool, envtest, api.clock), api)
  }

  /** `cleanupNode`. */
  function CleanPass(store: Store, pool: Pool, api: Api): (Store, Outcome) {
    CleanFrom(store, Names(pool), 0, CleanStep(pool), api)
  }

  // ----- what the passes rely on -----

  /** No tainted entry has the machine type whose key is the status key. */
  ghost predicate NoTaintedStatusType(pool: Pool) {
    forall i :: 0 <= i < |pool.entries| && pool.entries[i].taint ==> NODE_POOL_NAME !in pool.entries[i].types
  }

  /** Distinct node names, and no tainted entry with the type `node-pool`. The webhook checks
      neither. */
  ghost predicate WellShaped(pool: Pool) {
    Distinct(Names(pool)) && NoTaintedStatusType(pool)
  }

  /** Every tainted entry's node, if it exists, has taints the removal can cope with. */
  ghost predicate Clearable(store: Store, pool: Pool) {
    forall i :: 0 <= i < |pool.entries| && pool.entries[i].name in store && pool.entries[i].taint ==>
      Removable(store[pool.entries[i].name].taints, STATUS_KEY, EntryKeys(pool, i))
  }

  ghost predicate AllExist(store: Store, pool: Pool) {
    forall i :: 0 <= i < |pool.entries| ==> pool.entries[i].name in store
  }

  function NodeOf(store: Store, pool: Pool, i: nat): Node
    requires i < |pool.entries|
  {
    Fetched(store, pool.entries[i].name)
  }

  ghost predicate AllTame(store: Store, pool: Pool) {
    forall i :: 0 <= i < |pool.entries| ==> Tame(NodeOf(store, pool, i), pool.group, EntryKeys(pool, i))
  }

  ghost predicate AllFree(store: Store, pool: Pool) {
    forall i :: 0 <= i < |pool.entries| ==> Free(NodeOf(store, pool, i), EntryKeys(pool, i))
  }

  lemma {:induction false} KeysForName(entries: seq<PoolEntry>, i: nat)
    requires i < |entries|
    requires forall j :: i < j < |entries| ==> entries[j].name != entries[i].name
    ensures KeysFor(entries, entries[i].name) == TypeKeys(entries[i].types)
    decreases |entries|
  {
    if i < |entries| - 1 {
      KeysForName(entries[..|entries| - 1], i);
    }
  }

  lemma LookupIsEntry(pool: Pool, i: nat)
    requires WellShaped(pool) && i < |pool.entries|
    ensures KeysFor(pool.entries, pool.entries[i].name) == EntryKeys(pool, i)
  {
    forall j | i < j < |pool.entries| ensures pool.entries[j].name != pool.entries[i].name {
      assert Names(pool)[i] != Names(pool)[j];
    }
    KeysForName(pool.entries, i);
  }

  lemma MarkStepIs(pool: Pool, envtest: bool, clock: nat -> int, i: nat, node: Node)
    requires WellShaped(pool) && i < |pool.entries|
    requires pool.entries[i].taint ==> Removable(node.taints, STATUS_KEY, EntryKeys(pool, i))
    ensures MarkStep(pool, envtest, clock)(i, node)
         == Some(Remark(node, pool.group, pool.entries[i], envtest, clock(i)))
  {
    LookupIsEntry(pool, i);
    MarkIs(node, pool.group, pool.entries[i], envtest, clock(i));
  }

  lemma CleanStepIs(pool: Pool, i: nat, node: Node)
    requires WellShaped(pool) && i < |pool.entries| && Tame(node, pool.group, EntryKeys(pool, i))
    ensures CleanStep(pool)(i, node) == Some(Rest(node, EntryKeys(pool, i)))
    ensures CleanStep(pool)(i, node) == Some(node) <==> Free(node, EntryKeys(pool, i))
    ensures Free(Rest(node, EntryKeys(pool, i)), EntryKeys(pool, i))
  {
    LookupIsEntry(pool, i);
    TameStrips(node, pool.group, EntryKeys(pool, i));
    FreeIsRest(node, EntryKeys(pool, i));
    RestIsFree(node, EntryKeys(pool, i));
  }

  // ----- marking -----

  /** The node entry `i` leaves behind. */
  function Remarked(node: Node, pool: Pool, i: nat, envtest: bool, now: int): Node
    requires i < |pool.entries|
  {
    var m := Remark(node, pool.group, pool.entries[i], envtest, now);
    if Unwritten(node, m) then node else m
  }

  /** `s` is `store` with exactly the first `k` entries marked. */
  ghost predicate MarkedTo(store: Store, s: Store, pool: Pool, k: nat, envtest: bool, clock: nat -> int)
    requires k <= |pool.entries|
  {
    && s.Keys == store.Keys
    && (forall i :: 0 <= i < k ==> pool.entries[i].name in store)
    && (forall i :: 0 <= i < k ==>
      NodeOf(s, pool, i) == Remarked(NodeOf(store, pool, i), pool, i, envtest, clock(i)))
    && (forall name :: name in store && !Among(Names(pool), name, 0, k) ==> s[name] == store[name])
  }

  /** Entry `i` ends a marking pass: its node cannot be read, does not exist, or needs a write that
      is refused. */
  predicate EntryStops(store: Store, pool: Pool, i: nat, api: Api, envtest: bool)
    requires i < |pool.entries|
  {
    || api.getFails(i)
    || pool.entries[i].name !in store
    || (api.updateFails(i)
        && Remarked(NodeOf(store, pool, i), pool, i, envtest, api.clock(i)) != NodeOf(store, pool, i))
  }

  lemma EntryFailsIs(store: Store, pool: Pool, i: nat, api: Api, envtest: bool)
    requires WellShaped(pool) && Clearable(store, pool) && i < |pool.entries|
    ensures EntryFails(store, Names(pool), i, MarkStep(pool, envtest, api.clock), api)
       <==> EntryStops(store, pool, i, api, envtest)
    ensures pool.entries[i].name in store ==>
      Written(NodeOf(store, pool, i), i, MarkStep(pool, envtest, api.clock))
      == Remarked(NodeOf(store, pool, i), pool, i, envtest, api.clock(i))
    ensures pool.entries[i].name in store ==>
      MarkStep(pool, envtest, api.clock)(i, NodeOf(store, pool, i)) != None
  {
    if pool.entries[i].name in store {
      MarkStepIs(pool, envtest, api.clock, i, store[pool.entries[i].name]);
    }
  }

  /** A marking pass, whatever the API answers: it never panics, the entries before the one that
      ends it are fully marked, that one and every other node are untouched. */
  lemma MarkPassExact(store: Store, pool: Pool, api: Api, envtest: bool)
    requires WellShaped(pool) && Clearable(store, pool)
    ensures var (s, o) := MarkPass(store, pool, api, envtest);
      var k := Reached(o, |pool.entries|);
      && k <= |pool.entries|
      && MarkedTo(store, s, pool, k, envtest, api.clock)
      && (forall i :: 0 <= i < k ==> !EntryStops(store, pool, i, api, envtest))
      && (o != Done ==> o == Failed(k) && k < |pool.entries| && EntryStops(store, pool, k, api, envtest))
  {
    var names := Names(pool);
    var step := MarkStep(pool, envtest, api.clock);
    MarkFromEffect(store, names, 0, step, api);
    MarkFromCause(store, names, 0, step, api);
    forall i | 0 <= i < |pool.entries| {
      EntryFailsIs(store, pool, i, api, envtest);
    }
  }

  /** After a completed pass, any later pass (completed or not, at any time) changes timestamps of
      managed taints at most: labels and taint lists stay. */
  lemma MarkPassIdempotent(store: Store, pool: Pool, api: Api, api': Api, envtest: bool)
    requires WellShaped(pool) && Clearable(store, pool)
    requires MarkPass(store, pool, api, envtest).1 == Done
    ensures var s := MarkPass(store, pool, api, envtest).0;
      var s' := MarkPass(s, pool, api', envtest).0;
      && s'.Keys == s.Keys
      && forall name :: name in s ==>
        s'[name].labels == s[name].labels && SameButTime(s'[name].taints, s[name].taints)
  {
    var s := MarkPass(store, pool, api, envtest).0;
    var s' := MarkPass(s, pool, api', envtest).0;
    MarkPassExact(store, pool, api, envtest);
    forall i | 0 <= i < |pool.entries| && pool.entries[i].taint
      ensures Removable(s[pool.entries[i].name].taints, STATUS_KEY, EntryKeys(pool, i))
    {
      RemarkedRemovable(NodeOf(store, pool, i), pool, i, envtest, api.clock(i));
    }
    MarkPassExact(s, pool, api', envtest);
    var k := Reached(MarkPass(s, pool, api', envtest).1, |pool.entries|);
    forall name | name in s
      ensures s'[name].labels == s[name].labels && SameButTime(s'[name].taints, s[name].taints)
    {
      if Among(Names(pool), name, 0, k) {
        var i :| 0 <= i < k && pool.entries[i].name == name;
        RemarkedTwice(NodeOf(store, pool, i), pool, i, envtest, api.clock(i), api'.clock(i));
        assert NodeOf(s, pool, i) == s[name] && NodeOf(s', pool, i) == s'[name];
      }
    }
  }

  lemma RemarkedRemovable(node: Node, pool: Pool, i: nat, envtest: bool, now: int)
    requires WellShaped(pool) && i < |pool.entries| && pool.entries[i].taint
    ensures Removable(Remarked(node, pool, i, envtest, now).taints, STATUS_KEY, EntryKeys(pool, i))
  {
    var entry := pool.entries[i];
    StatusKeyNotListed(entry.types);
    MarkedIsRemovable(node.taints, EntryKeys(pool, i), pool.group,
      StatusValue(entry.mode, KeySet(node.taints), envtest), now);
  }

  lemma RemarkedTwice(node: Node, pool: Pool, i: nat, envtest: bool, now: int, later: int)
    requires WellShaped(pool) && i < |pool.entries|
    ensures var once := Remarked(node, pool, i, envtest, now);
      var twice := Remarked(once, pool, i, envtest, later);
      twice.labels == once.labels && SameButTime(twice.taints, once.taints)
  {
    var entry := pool.entries[i];
    var m := Remark(node, pool.group, entry, envtest, now);
    RemarkIdempotent(node, pool.group, entry, envtest, now, later);
    assert Remark(Remarked(node, pool, i, envtest, now), pool.group, entry, envtest, later).labels
        == Remark(m, pool.group, entry, envtest, later).labels;
    assert Remark(Remarked(node, pool, i, envtest, now), pool.group, entry, envtest, later).taints
        == Remark(m, pool.group, entry, envtest, later).taints;
  }

  /** The annotation that routes node events back to the pool is not restored on its own: after a
      completed entry it is right exactly if it was right before or something else had to change. */
  lemma AnnotationExact(store: Store, pool: Pool, api: Api, envtest: bool, i: nat)
    requires WellShaped(pool) && Clearable(store, pool) && i < |pool.entries|
    requires MarkPass(store, pool, api, envtest).1 == Done
    ensures var before := NodeOf(store, pool, i);
      var after := NodeOf(MarkPass(store, pool, api, envtest).0, pool, i);
      var wanted := Remark(before, pool.group, pool.entries[i], envtest, api.clock(i));
      (MACHINE_GROUP_KEY in after.annotations && after.annotations[MACHINE_GROUP_KEY] == pool.group)
      <==>
      || (MACHINE_GROUP_KEY in before.annotations && before.annotations[MACHINE_GROUP_KEY] == pool.group)
      || before.labels != wanted.labels
      || before.taints != wanted.taints
  {
    MarkPassExact(store, pool, api, envtest);
  }

  /** `nodeReconcileRequest`: the pools whose group the node's annotation names. */
  function NodeTargets(node: Node, pools: map<string, Pool>): set<string> {
    set name | name in pools && pools[name].group == Lookup(node.annotations, MACHINE_GROUP_KEY)
  }

  /** So node events reach the pool after a completed pass exactly under that condition. */
  lemma EventsReachPool(
      store: Store, name: string, pools: map<string, Pool>, api: Api, envtest: bool, i: nat)
    requires name in pools && pools[name].group != ""
    requires WellShaped(pools[name]) && Clearable(store, pools[name]) && i < |pools[name].entries|
    requires MarkPass(store, pools[name], api, envtest).1 == Done
    ensures var pool := pools[name];
      var before := NodeOf(store, pool, i);
      var wanted := Remark(before, pool.group, pool.entries[i], envtest, api.clock(i));
      name in NodeTargets(NodeOf(MarkPass(store, pool, api, envtest).0, pool, i), pools) <==>
        name in NodeTargets(before, pools) || before.labels != wanted.labels || before.taints != wanted.taints
  {
    AnnotationExact(store, pools[name], api, envtest, i);
  }

  // ----- cleaning up -----

  lemma CleanEntryIs(store: Store, pool: Pool, i: nat)
    requires WellShaped(pool) && i < |pool.entries| && Tame(NodeOf(store, pool, i), pool.group, EntryKeys(pool, i))
    ensures CleanStep(pool)(i, NodeOf(store, pool, i)) == Some(Rest(NodeOf(store, pool, i), EntryKeys(pool, i)))
    ensures Dirty(store, Names(pool), i, CleanStep(pool)) <==> !Free(NodeOf(store, pool, i), EntryKeys(pool, i))
    ensures Cleanable(store, Names(pool), i, CleanStep(pool))
  {
    CleanStepIs(pool, i, NodeOf(store, pool, i));
  }

  /** A clean-up pass over tame nodes, existing or not, never panics. It unmarks the entries before
      some `k`, all of them dirty, and touches nothing else. Success means the end of the list or a
      clean entry, a missing node being one; failure an entry that could not be read, or not written
      although it was dirty. */
  lemma CleanPassExact(store: Store, pool: Pool, api: Api) returns (k: nat)
    requires WellShaped(pool) && AllTame(store, pool)
    ensures k <= |pool.entries|
    ensures var (s, o) := CleanPass(store, pool, api);
      && s.Keys == store.Keys
      && (forall i :: 0 <= i < k ==> !Free(NodeOf(store, pool, i), EntryKeys(pool, i)))
      && (forall i :: 0 <= i < k ==> NodeOf(s, pool, i) == Rest(NodeOf(store, pool, i), EntryKeys(pool, i)))
      && (forall i :: k <= i < |pool.entries| ==> NodeOf(s, pool, i) == NodeOf(store, pool, i))
      && (forall name :: name in store && !Among(Names(pool), name, 0, k) ==> s[name] == store[name])
      && (forall i :: 0 <= i < k ==> !api.getFails(i) && !api.updateFails(i))
      && (o == Done ==> k < |pool.entries| ==>
          Free(NodeOf(store, pool, k), EntryKeys(pool, k)) && !api.getFails(k))
      && (o != Done ==> o == Failed(k) && k < |pool.entries|)
      && (o != Done ==> api.getFails(k) || (api.updateFails(k) && !Free(NodeOf(store, pool, k), EntryKeys(pool, k))))
  {
    var names := Names(pool);
    var step := CleanStep(pool);
    forall i | 0 <= i < |pool.entries|
      ensures step(i, NodeOf(store, pool, i)) == Some(Rest(NodeOf(store, pool, i), EntryKeys(pool, i)))
      ensures Dirty(store, names, i, step) <==> !Free(NodeOf(store, pool, i), EntryKeys(pool, i))
      ensures Cleanable(store, names, i, step)
    {
      CleanEntryIs(store, pool, i);
    }
    k := CleanFromEffect(store, names, 0, step, api);
    var s := CleanPass(store, pool, api).0;
    forall i | k <= i < |pool.entries| ensures NodeOf(s, pool, i) == NodeOf(store, pool, i) {
      assert names[i] !in names[0..k];
    }
  }

  /** The early return: a fault-free clean-up leaves every listed node clean exactly when the nodes
      that needed cleaning came first. */
  lemma CleanPassComplete(store: Store, pool: Pool, api: Api)
    requires WellShaped(pool) && AllTame(store, pool) && Faultless(api)
    ensures CleanPass(store, pool, api).1 == Done
    ensures AllFree(CleanPass(store, pool, api).0, pool) <==>
      forall i, j :: 0 <= i < j < |pool.entries| && !Free(NodeOf(store, pool, j), EntryKeys(pool, j))
        ==> !Free(NodeOf(store, pool, i), EntryKeys(pool, i))
  {
    var k := CleanPassExact(store, pool, api);
    var s := CleanPass(store, pool, api).0;
    forall i | 0 <= i < k ensures Free(NodeOf(s, pool, i), EntryKeys(pool, i)) {
      RestIsFree(NodeOf(store, pool, i), EntryKeys(pool, i));
    }
  }

  lemma CleanStopsAtFreeFirst(store: Store, pool: Pool, api: Api)
    requires WellShaped(pool) && |pool.entries| > 0 && Faultless(api)
    requires Free(NodeOf(store, pool, 0), EntryKeys(pool, 0))
    ensures CleanPass(store, pool, api) == (store, Done)
  {
    var node := NodeOf(store, pool, 0);
    FreeIsTame(node, pool.group, EntryKeys(pool, 0));
    CleanStepIs(pool, 0, node);
    assert Names(pool)[0] == pool.entries[0].name;
  }

  /** An API error in the middle of a clean-up is not made good by a retry: the retry finds the
      first node clean, reports success and leaves every remaining node as it is. */
  lemma CleanRetryGivesUp(store: Store, pool: Pool, api: Api, api': Api)
    requires WellShaped(pool) && AllTame(store, pool)
    requires CleanPass(store, pool, api).1.Failed? && CleanPass(store, pool, api).1.at > 0
    requires Faultless(api')
    ensures var s := CleanPass(store, pool, api).0;
      CleanPass(s, pool, api') == (s, Done)
    ensures forall i :: CleanPass(store, pool, api).1.at <= i < |pool.entries| ==>
      NodeOf(CleanPass(CleanPass(store, pool, api).0, pool, api').0, pool, i) == NodeOf(store, pool, i)
  {
    var k := CleanPassExact(store, pool, api);
    var s := CleanPass(store, pool, api).0;
    RestIsFree(NodeOf(store, pool, 0), EntryKeys(pool, 0));
    CleanStopsAtFreeFirst(s, pool, api');
  }

  /** The same early return at a node that no longer exists, anywhere in the list: the clean-up
      reports success and every entry from there on keeps its node as it is. */
  lemma CleanStopsAtMissingNode(store: Store, pool: Pool, api: Api, v: nat)
    requires WellShaped(pool) && AllTame(store, pool) && Faultless(api)
    requires v < |pool.entries| && pool.entries[v].name !in store
    ensures var (s, o) := CleanPass(store, pool, api);
      o == Done && forall i :: v <= i < |pool.entries| ==> NodeOf(s, pool, i) == NodeOf(store, pool, i)
  {
    var k := CleanPassExact(store, pool, api);
    assert Free(NodeOf(store, pool, v), EntryKeys(pool, v));
  }

  /** Mark and unmark: if no listed node carries a managed key, a completed marking pass followed by
      a clean-up pass gives back the very same store. */
  lemma PassRoundTrip(store: Store, pool: Pool, api: Api, api': Api, envtest: bool)
    requires WellShaped(pool) && AllFree(store, pool)
    requires MarkPass(store, pool, api, envtest).1 == Done && Faultless(api')
    ensures CleanPass(MarkPass(store, pool, api, envtest).0, pool, api') == (store, Done)
  {
    var s := MarkPass(store, pool, api, envtest).0;
    var n := |pool.entries|;
    forall i | 0 <= i < n
      ensures Tame(NodeOf(store, pool, i), pool.group, EntryKeys(pool, i))
      ensures Removable(NodeOf(store, pool, i).taints, STATUS_KEY, EntryKeys(pool, i))
    {
      FreeIsTame(NodeOf(store, pool, i), pool.group, EntryKeys(pool, i));
      TameIsRemovable(NodeOf(store, pool, i), pool.group, EntryKeys(pool, i));
    }
    MarkPassExact(store, pool, api, envtest);
    forall i | 0 <= i < n
      ensures Marked(NodeOf(s, pool, i), pool.group, EntryKeys(pool, i))
      ensures !Free(NodeOf(s, pool, i), EntryKeys(pool, i))
      ensures Rest(NodeOf(s, pool, i), EntryKeys(pool, i)) == NodeOf(store, pool, i)
    {
      FreeBecomesMarked(NodeOf(store, pool, i), pool, i, envtest, api.clock(i));
    }
    CleanUndoes(store, s, pool, api');
  }

  lemma CleanUndoes(store: Store, s: Store, pool: Pool, api: Api)
    requires WellShaped(pool) && AllExist(store, pool) && s.Keys == store.Keys && Faultless(api)
    requires AllTame(s, pool)
    requires forall i :: 0 <= i < |pool.entries| ==> !Free(NodeOf(s, pool, i), EntryKeys(pool, i))
    requires forall i :: 0 <= i < |pool.entries| ==>
      Rest(NodeOf(s, pool, i), EntryKeys(pool, i)) == NodeOf(store, pool, i)
    requires forall name :: name in store && !Among(Names(pool), name, 0, |pool.entries|) ==> s[name] == store[name]
    ensures CleanPass(s, pool, api) == (store, Done)
  {
    var n := |pool.entries|;
    var k := CleanPassExact(s, pool, api);
    assert k == n;
    var s' := CleanPass(s, pool, api).0;
    forall name | name in store ensures s'[name] == store[name] {
      if Among(Names(pool), name, 0, n) {
        var i :| 0 <= i < n && pool.entries[i].name == name;
        assert NodeOf(s', pool, i) == NodeOf(store, pool, i);
      }
    }
    assert s' == store;
  }

  lemma FreeBecomesMarked(node: Node, pool: Pool, i: nat, envtest: bool, now: int)
    requires WellShaped(pool) && i < |pool.entries| && Free(node, EntryKeys(pool, i))
    ensures var m := Remarked(node, pool, i, envtest, now);
      && Marked(m, pool.group, EntryKeys(pool, i))
      && !Free(m, EntryKeys(pool, i))
      && Rest(m, EntryKeys(pool, i)) == node
  {
    var keys := EntryKeys(pool, i);
    var entry := pool.entries[i];
    FreeIsTame(node, pool.group, keys);
    RemarkMarks(node, pool.group, entry, envtest, now);
    RemarkKeepsRest(node, pool.group, entry, envtest, now);
    FreeIsRest(node, keys);
    assert STATUS_KEY in ManagedKeys(keys);
  }
}
