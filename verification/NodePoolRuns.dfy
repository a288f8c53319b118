/** The finalizer protocol of the MachineNodePool controller as a state machine, and what holds in
    every run of it. */
module NodePoolRuns {
  import opened Objects
  import opened Taints
  import opened NodeMarking
  import opened NodeWalks
  import opened NodePasses

  datatype PoolObject =
    | Absent
    | Present(spec: Pool, finalizer: bool, deleting: bool)

  datatype State = State(store: Store, pool: PoolObject)

  /** One call of `reconcile`. `poolUpdateFails` is the answer to the update of the pool object;
      deleting an object that has lost its last finalizer is left to `Step`. */
  function Reconcile(s: State, api: Api, envtest: bool, poolUpdateFails: bool): State {
    match s.pool
    case Absent => s
    case Present(spec, finalizer, deleting) =>
      if !deleting then
        if !finalizer then
          if poolUpdateFails then s else s.(pool := Present(spec, true, false))
        else s.(store := MarkPass(s.store, spec, api, envtest).0)
      else if finalizer then
        var (store, o) := CleanPass(s.store, spec, api);
        if o != Done || poolUpdateFails then s.(store := store)
        else State(store, Present(spec, false, true))
      else s
  }

  /** Entry `i` is listed, and its node carries something managed. */
  ghost predicate Occupied(store: Store, pool: Pool, i: nat) {
    i < |pool.entries| && !Free(NodeOf(store, pool, i), EntryKeys(pool, i))
  }

  /** Entry `i` of both specs has the same node and machine types; mode and taint flag may differ. */
  predicate SameEntry(a: Pool, b: Pool, i: nat) {
    && i < |a.entries| && i < |b.entries|
    && a.group == b.group
    && a.entries[i].name == b.entries[i].name
    && a.entries[i].types == b.entries[i].types
  }

  /** The edits that do no harm: entries of occupied nodes stay in their places, with their types; all
      others may be added, dropped, moved and changed, as long as their nodes carry nothing managed. */
  ghost predicate KeepsOccupied(spec: Pool, shape: Pool, store: Store) {
    && WellShaped(spec)
    && (forall i :: Occupied(store, shape, i) ==> SameEntry(spec, shape, i))
    && (forall i :: Occupied(store, spec, i) ==> Occupied(store, shape, i))
  }

  /** The managed part of a node. */
  function Managed(node: Node, keys: seq<string>): Node {
    Node(map k | k in node.labels && k in ManagedKeys(keys) :: node.labels[k],
         map k | k in node.annotations && k == MACHINE_GROUP_KEY :: node.annotations[k],
         Only(node.taints, ManagedKeys(keys)))
  }

  /** The managed part of the node of entry `i` is the same in both stores. */
  predicate ManagedSame(store: Store, store': Store, pool: Pool, i: nat)
    requires i < |pool.entries|
  {
    Managed(NodeOf(store', pool, i), EntryKeys(pool, i)) == Managed(NodeOf(store, pool, i), EntryKeys(pool, i))
  }

  /** Anybody may change nodes, as long as managed keys are left alone; and a node may disappear, unless
      a marked one is listed behind it. */
  ghost predicate Outside(store: Store, store': Store, pool: Pool) {
    forall i :: 0 <= i < |pool.entries| ==>
      || ManagedSame(store, store', pool, i)
      || (pool.entries[i].name !in store' && FreeBehind(store', pool, i))
  }

  ghost predicate FreeBehind(store: Store, pool: Pool, i: nat) {
    forall j :: i < j < |pool.entries| ==> Free(NodeOf(store, pool, j), EntryKeys(pool, j))
  }

  datatype Action =
    | Create(spec: Pool)
    | Edit(spec: Pool)
    | Delete
    | Vanish
    | Change(store: Store)
    | Run(api: Api, envtest: bool, poolUpdateFails: bool)

  /** The API answers during a clean-up that do no harm: an error at the first entry, or none at any
      later node that is to be cleaned. */
  predicate Harmless(store: Store, spec: Pool, api: Api) {
    || (|spec.entries| > 0
        && (api.getFails(0) || (api.updateFails(0) && !Free(NodeOf(store, spec, 0), EntryKeys(spec, 0)))))
    || forall k :: 0 < k < |spec.entries| && !Free(NodeOf(store, spec, k), EntryKeys(spec, k)) ==>
      !api.getFails(k) && !api.updateFails(k)
  }

  /** The state after an action; None when it is not possible. Clean-ups meet harmless answers here;
      `FailedCleanupLeaks` shows what any others do. */
  ghost function Step(s: State, a: Action, shape: Pool): Option<State> {
    match a
    case Create(spec) =>
      if s.pool == Absent && KeepsOccupied(spec, shape, s.store)
      then Some(s.(pool := Present(spec, false, false))) else None
    case Edit(spec) =>
      if s.pool.Present? && KeepsOccupied(spec, shape, s.store) then Some(s.(pool := s.pool.(spec := spec))) else None
    case Delete =>
      if s.pool.Present? then Some(s.(pool := s.pool.(deleting := true))) else None
    case Vanish =>
      if s.pool.Present? && s.pool.deleting && !s.pool.finalizer then Some(s.(pool := Absent)) else None
    case Change(store) =>
      if Outside(s.store, store, shape) then Some(s.(store := store)) else None
    case Run(api, envtest, fails) =>
      if s.pool.Present? && s.pool.deleting && !Harmless(s.store, s.pool.spec, api) then None
      else Some(Reconcile(s, api, envtest, fails))
  }

  /** The last spec that was set. */
  function NextShape(a: Action, shape: Pool): Pool {
    match a
    case Create(spec) => spec
    case Edit(spec) => spec
    case _ => shape
  }

  /** The state a run ends in, and the last spec set by then. */
  ghost function After(s: State, actions: seq<Action>, shape: Pool): Option<(State, Pool)>
    decreases |actions|
  {
    if actions == [] then Some((s, shape))
    else
      match Step(s, actions[0], shape)
      case None => None
      case Some(t) => After(t, actions[1..], NextShape(actions[0], shape))
  }

  /** The first `m` listed nodes are marked and the others carry nothing managed. */
  ghost predicate MarkedPrefix(store: Store, shape: Pool, m: nat) {
    && m <= |shape.entries|
    && (forall i :: 0 <= i < m ==> Marked(NodeOf(store, shape, i), shape.group, EntryKeys(shape, i)))
    && (forall i :: m <= i < |shape.entries| ==> Free(NodeOf(store, shape, i), EntryKeys(shape, i)))
  }

  ghost predicate Holding(pool: PoolObject) {
    pool.Present? && pool.finalizer
  }

  ghost predicate Good(s: State, shape: Pool, m: nat) {
    && MarkedPrefix(s.store, shape, m)
    && (m > 0 ==> Holding(s.pool))
    && (s.pool.Present? ==> s.pool.spec == shape && WellShaped(shape))
  }

  lemma MarkedNotFree(node: Node, group: string, keys: seq<string>)
    requires Marked(node, group, keys)
    ensures !Free(node, keys)
  {
    assert STATUS_KEY in ManagedKeys(keys);
  }

  lemma PrefixFacts(store: Store, spec: Pool, m: nat)
    requires MarkedPrefix(store, spec, m)
    ensures AllTame(store, spec) && Clearable(store, spec)
    ensures forall i :: 0 <= i < |spec.entries| ==> (Free(NodeOf(store, spec, i), EntryKeys(spec, i)) <==> i >= m)
  {
    forall i | 0 <= i < |spec.entries|
      ensures Tame(NodeOf(store, spec, i), spec.group, EntryKeys(spec, i))
      ensures Removable(NodeOf(store, spec, i).taints, STATUS_KEY, EntryKeys(spec, i))
      ensures Free(NodeOf(store, spec, i), EntryKeys(spec, i)) <==> i >= m
    {
      PrefixFact(store, spec, m, i);
    }
  }

  lemma PrefixFact(store: Store, spec: Pool, m: nat, i: nat)
    requires MarkedPrefix(store, spec, m) && i < |spec.entries|
    ensures Tame(NodeOf(store, spec, i), spec.group, EntryKeys(spec, i))
    ensures Removable(NodeOf(store, spec, i).taints, STATUS_KEY, EntryKeys(spec, i))
    ensures Free(NodeOf(store, spec, i), EntryKeys(spec, i)) <==> i >= m
  {
    if i < m {
      MarkedNotFree(NodeOf(store, spec, i), spec.group, EntryKeys(spec, i));
    } else {
      FreeIsTame(NodeOf(store, spec, i), spec.group, EntryKeys(spec, i));
    }
    TameIsRemovable(NodeOf(store, spec, i), spec.group, EntryKeys(spec, i));
  }

  /** The marked entries are kept. */
  lemma MarkedEntriesKept(store: Store, spec: Pool, shape: Pool, m: nat)
    requires KeepsOccupied(spec, shape, store) && MarkedPrefix(store, shape, m)
    ensures m <= |spec.entries|
    ensures forall i :: 0 <= i < m ==> SameEntry(spec, shape, i)
    ensures forall i :: m <= i < |spec.entries| ==> Free(NodeOf(store, spec, i), EntryKeys(spec, i))
  {
    PrefixFacts(store, shape, m);
    forall i | 0 <= i < m ensures SameEntry(spec, shape, i) {
      assert Occupied(store, shape, i);
    }
    assert m > 0 ==> SameEntry(spec, shape, m - 1);
    forall i | m <= i < |spec.entries| ensures Free(NodeOf(store, spec, i), EntryKeys(spec, i)) {
      assert !Occupied(store, shape, i);
      assert !Occupied(store, spec, i);
    }
  }

  lemma EditKeepsPrefix(store: Store, spec: Pool, shape: Pool, m: nat)
    requires KeepsOccupied(spec, shape, store) && MarkedPrefix(store, shape, m)
    ensures MarkedPrefix(store, spec, m)
  {
    MarkedEntriesKept(store, spec, shape, m);
    forall i | 0 <= i < m ensures Marked(NodeOf(store, spec, i), spec.group, EntryKeys(spec, i)) {
      assert SameEntry(spec, shape, i);
      assert Marked(NodeOf(store, shape, i), shape.group, EntryKeys(shape, i));
    }
  }

  // ----- controller steps -----

  lemma MarkKeepsPrefix(store: Store, spec: Pool, m: nat, api: Api, envtest: bool) returns (m': nat)
    requires WellShaped(spec) && MarkedPrefix(store, spec, m)
    ensures MarkedPrefix(MarkPass(store, spec, api, envtest).0, spec, m')
    ensures m' >= m
    ensures MarkPass(store, spec, api, envtest).1 == Done ==> m' == |spec.entries|
    ensures !MarkPass(store, spec, api, envtest).1.Crashed?
  {
    PrefixFacts(store, spec, m);
    MarkPassExact(store, spec, api, envtest);
    var (s, o) := MarkPass(store, spec, api, envtest);
    var k := Reached(o, |spec.entries|);
    m' := if k < m then m else k;
    forall i | 0 <= i < k ensures Marked(NodeOf(s, spec, i), spec.group, EntryKeys(spec, i)) {
      RemarkedIsMarked(NodeOf(store, spec, i), spec, i, envtest, api.clock(i));
    }
    forall i | k <= i < |spec.entries| ensures NodeOf(s, spec, i) == NodeOf(store, spec, i) {
      assert Names(spec)[i] !in Names(spec)[0..k];
    }
  }

  lemma RemarkedIsMarked(node: Node, pool: Pool, i: nat, envtest: bool, now: int)
    requires WellShaped(pool) && i < |pool.entries| && Tame(node, pool.group, EntryKeys(pool, i))
    ensures Marked(Remarked(node, pool, i, envtest, now), pool.group, EntryKeys(pool, i))
  {
    RemarkMarks(node, pool.group, pool.entries[i], envtest, now);
  }

  /** What a clean-up of `m` marked entries in front does: it frees the first `k`, leaves the others,
      and gets past them all unless the answers are harmful. */
  lemma CleanOfPrefix(store: Store, spec: Pool, m: nat, api: Api) returns (k: nat)
    requires WellShaped(spec) && MarkedPrefix(store, spec, m)
    ensures var (s, o) := CleanPass(store, spec, api);
      && k <= m && s.Keys == store.Keys
      && (o == Done ==> k == m)
      && (o != Done ==> o == Failed(k) && k < |spec.entries|)
      && (forall i :: 0 <= i < k ==> Free(NodeOf(s, spec, i), EntryKeys(spec, i)))
      && (forall i :: k <= i < |spec.entries| ==> NodeOf(s, spec, i) == NodeOf(store, spec, i))
    ensures Harmless(store, spec, api) <==> k == 0 || k == m
  {
    PrefixFacts(store, spec, m);
    k := CleanPassExact(store, spec, api);
    assert m < |spec.entries| ==> Free(NodeOf(store, spec, m), EntryKeys(spec, m));
    var s := CleanPass(store, spec, api).0;
    forall i | 0 <= i < k ensures Free(NodeOf(s, spec, i), EntryKeys(spec, i)) {
      RestIsFree(NodeOf(store, spec, i), EntryKeys(spec, i));
    }
  }

  /** The harmless answers are exactly those with which a clean-up of `m` marked nodes fails at the
      first entry, behind the marked nodes, or not at all. */
  lemma HarmlessIs(store: Store, spec: Pool, m: nat, api: Api)
    requires WellShaped(spec) && MarkedPrefix(store, spec, m)
    ensures Harmless(store, spec, api) <==>
      match CleanPass(store, spec, api).1
      case Done => true
      case Failed(k) => k == 0 || k >= m
      case Crashed(_) => false
  {
    var k := CleanOfPrefix(store, spec, m, api);
  }

  lemma CleanKeepsPrefix(store: Store, spec: Pool, m: nat, api: Api) returns (m': nat)
    requires WellShaped(spec) && MarkedPrefix(store, spec, m) && Harmless(store, spec, api)
    ensures MarkedPrefix(CleanPass(store, spec, api).0, spec, m')
    ensures CleanPass(store, spec, api).1 == Done ==> m' == 0
  {
    var k := CleanOfPrefix(store, spec, m, api);
    m' := if k == m then 0 else m;
  }

  // ----- steps of others -----

  /** The first marked node that an outside change took away, or `m`. */
  lemma {:induction false} FirstLost(store: Store, store': Store, pool: Pool, i: nat, m: nat) returns (f: nat)
    requires i <= m <= |pool.entries|
    ensures i <= f <= m
    ensures forall j :: i <= j < f ==> ManagedSame(store, store', pool, j)
    ensures f < m ==> !ManagedSame(store, store', pool, f)
    decreases m - i
  {
    if i == m || !ManagedSame(store, store', pool, i) {
      f := i;
    } else {
      f := FirstLost(store, store', pool, i + 1, m);
    }
  }

  lemma OutsideKeeps(store: Store, store': Store, shape: Pool, m: nat) returns (m': nat)
    requires MarkedPrefix(store, shape, m) && Outside(store, store', shape)
    ensures m' <= m && MarkedPrefix(store', shape, m')
  {
    m' := FirstLost(store, store', shape, 0, m);
    forall i | 0 <= i < |shape.entries|
      ensures i < m' ==> Marked(NodeOf(store', shape, i), shape.group, EntryKeys(shape, i))
      ensures i >= m' ==> Free(NodeOf(store', shape, i), EntryKeys(shape, i))
    {
      if ManagedSame(store, store', shape, i) {
        ManagedDecides(NodeOf(store, shape, i), NodeOf(store', shape, i), shape.group, EntryKeys(shape, i));
      }
    }
  }

  lemma ManagedDecides(a: Node, b: Node, group: string, keys: seq<string>)
    requires Managed(a, keys) == Managed(b, keys)
    ensures Marked(a, group, keys) ==> Marked(b, group, keys)
    ensures Free(a, keys) ==> Free(b, keys)
  {
    var all := ManagedKeys(keys);
    forall k | k in all
      ensures k in a.labels <==> k in b.labels
      ensures k in a.labels ==> a.labels[k] == b.labels[k]
      ensures Count(a.taints, k) == Count(b.taints, k)
      ensures k in KeySet(a.taints) <==> k in KeySet(b.taints)
    {
      assert k in a.labels <==> k in Managed(a, keys).labels;
      assert k in b.labels <==> k in Managed(b, keys).labels;
      OnlyCounts(a.taints, all, k);
      OnlyCounts(b.taints, all, k);
      CountZero(a.taints, k);
      CountZero(b.taints, k);
    }
    assert MACHINE_GROUP_KEY in a.annotations <==> MACHINE_GROUP_KEY in Managed(a, keys).annotations;
    assert MACHINE_GROUP_KEY in b.annotations <==> MACHINE_GROUP_KEY in Managed(b, keys).annotations;
    forall k | k in keys ensures k in all {
    }
  }

  lemma StepKeepsGood(s: State, a: Action, shape: Pool, m: nat) returns (m': nat)
    requires Good(s, shape, m) && Step(s, a, shape).Some?
    ensures Good(Step(s, a, shape).value, NextShape(a, shape), m')
  {
    m' := m;
    match a
    case Create(spec) => EditKeepsPrefix(s.store, spec, shape, m);
    case Edit(spec) => EditKeepsPrefix(s.store, spec, shape, m);
    case Delete =>
    case Vanish =>
    case Change(store) => m' := OutsideKeeps(s.store, store, shape, m);
    case Run(api, envtest, fails) =>
      if Holding(s.pool) {
        if s.pool.deleting {
          m' := CleanKeepsPrefix(s.store, shape, m, api);
        } else {
          m' := MarkKeepsPrefix(s.store, shape, m, api, envtest);
        }
      }
  }

  lemma {:induction false} RunsStayGood(s: State, actions: seq<Action>, shape: Pool, m: nat)
    returns (m': nat)
    requires Good(s, shape, m) && After(s, actions, shape).Some?
    ensures var (t, final) := After(s, actions, shape).value;
      Good(t, final, m')
    decreases |actions|
  {
    if actions == [] {
      m' := m;
    } else {
      var next := StepKeepsGood(s, actions[0], shape, m);
      m' := RunsStayGood(Step(s, actions[0], shape).value, actions[1..], NextShape(actions[0], shape), next);
    }
  }

  /** Safety over runs. Start with listed nodes that carry nothing managed and with no pool; let pools be
      created, edited (entries of marked nodes kept), deleted and reconciled in any order, marking passes
      aborted anywhere, clean-ups answered harmlessly, outsiders change anything unmanaged and nodes
      disappear with nothing marked behind them. In every state reached the marked nodes are a prefix
      of the entries, the other listed nodes are free of managed keys, and without the finalizer all of
      them are. */
  lemma RunsAreSafe(store: Store, actions: seq<Action>, shape: Pool)
    requires AllFree(store, shape) && After(State(store, Absent), actions, shape).Some?
    ensures var (t, final) := After(State(store, Absent), actions, shape).value;
      && (exists m :: MarkedPrefix(t.store, final, m))
      && (!Holding(t.pool) ==> AllFree(t.store, final))
  {
    assert Good(State(store, Absent), shape, 0);
    var m := RunsStayGood(State(store, Absent), actions, shape, 0);
    var (t, final) := After(State(store, Absent), actions, shape).value;
    assert MarkedPrefix(t.store, final, m);
  }

  /** Progress: with an API that answers, one reconciliation of a held pool marks every listed node if
      they all exist, or, once the pool is being deleted, frees every one and lets the pool go. */
  lemma FaultlessReconcile(s: State, shape: Pool, m: nat, api: Api, envtest: bool)
    requires Good(s, shape, m) && Holding(s.pool) && Faultless(api)
    requires s.pool.deleting || AllExist(s.store, shape)
    ensures var t := Reconcile(s, api, envtest, false);
      if s.pool.deleting then AllFree(t.store, shape) && t.pool == s.pool.(finalizer := false)
      else MarkedPrefix(t.store, shape, |shape.entries|) && t.pool == s.pool
  {
    if s.pool.deleting {
      var _ := CleanOfPrefix(s.store, shape, m, api);
      PrefixFacts(s.store, shape, m);
      CleanPassComplete(s.store, shape, api);
    } else {
      PrefixFacts(s.store, shape, m);
      MarkPassExact(s.store, shape, api, envtest);
      var _ := MarkKeepsPrefix(s.store, shape, m, api, envtest);
    }
  }

  /** Progress from creation: of two reconciliations that are answered the first writes the finalizer and
      touches no node, the second marks every listed one. */
  lemma FreshPoolGetsMarked(s: State, shape: Pool, api: Api, envtest: bool)
    requires Good(s, shape, 0) && s.pool == Present(shape, false, false)
    requires Faultless(api) && AllExist(s.store, shape)
    ensures var held := Reconcile(s, api, envtest, false);
      var t := Reconcile(held, api, envtest, false);
      && held == State(s.store, Present(shape, true, false))
      && t.pool == held.pool
      && MarkedPrefix(t.store, shape, |shape.entries|)
  {
    FaultlessReconcile(State(s.store, Present(shape, true, false)), shape, 0, api, envtest);
  }

  /** A whole life: created, marked, deleted and cleaned up by answered calls, with nobody else touching
      the nodes, the pool loses its finalizer and leaves the very store it found. */
  lemma WholeLife(store: Store, shape: Pool, api: Api, envtest: bool)
    requires WellShaped(shape) && AllFree(store, shape) && AllExist(store, shape) && Faultless(api)
    ensures var s := State(store, Present(shape, false, false));
      var t := Reconcile(Reconcile(s, api, envtest, false), api, envtest, false);
      var doomed := t.(pool := t.pool.(deleting := true));
      && MarkedPrefix(t.store, shape, |shape.entries|)
      && Reconcile(doomed, api, envtest, false) == State(store, Present(shape, false, true))
  {
    FreshPoolGetsMarked(State(store, Present(shape, false, false)), shape, api, envtest);
    forall i | 0 <= i < |shape.entries|
      ensures Removable(NodeOf(store, shape, i).taints, STATUS_KEY, EntryKeys(shape, i))
    {
      FreeIsTame(NodeOf(store, shape, i), shape.group, EntryKeys(shape, i));
      TameIsRemovable(NodeOf(store, shape, i), shape.group, EntryKeys(shape, i));
    }
    MarkPassExact(store, shape, api, envtest);
    PassRoundTrip(store, shape, api, api, envtest);
  }

  /** A refused update of the pool object leaves that object as it was, in every state. */
  lemma RefusedUpdateKeepsPool(s: State, api: Api, envtest: bool)
    ensures Reconcile(s, api, envtest, true).pool == s.pool
    ensures !Holding(s.pool) ==> Reconcile(s, api, envtest, true) == s
  {
  }

  // ----- why the runs exclude what they exclude -----

  /** Any answers that are not harmless do harm: after the failed clean-up the next reconciliation
      removes the finalizer although a listed node, entry `k`, is still marked. */
  lemma FailedCleanupLeaks(s: State, shape: Pool, m: nat, api: Api, api': Api, envtest: bool) returns (k: nat)
    requires Good(s, shape, m) && Holding(s.pool) && s.pool.deleting
    requires !Harmless(s.store, shape, api) && Faultless(api')
    ensures 0 < k < m
    ensures var t := Reconcile(Reconcile(s, api, envtest, false), api', envtest, false);
      && t.pool == s.pool.(finalizer := false)
      && Marked(NodeOf(t.store, shape, k), shape.group, EntryKeys(shape, k))
  {
    k := CleanOfPrefix(s.store, shape, m, api);
    PrefixFacts(s.store, shape, m);
    CleanRetryGivesUp(s.store, shape, api, api');
  }

  /** A marked node that disappears in front of another marked one does the same harm, even with an API
      that answers. */
  lemma VanishedNodeLeaks(s: State, shape: Pool, m: nat, v: nat, k: nat, api: Api, envtest: bool)
    requires Good(s, shape, m) && Holding(s.pool) && s.pool.deleting && Faultless(api)
    requires v < k < m
    ensures var gone := s.(store := s.store - {shape.entries[v].name});
      var t := Reconcile(gone, api, envtest, false);
      && t.pool == s.pool.(finalizer := false)
      && Marked(NodeOf(t.store, shape, k), shape.group, EntryKeys(shape, k))
  {
    var gone := s.store - {shape.entries[v].name};
    PrefixFacts(s.store, shape, m);
    forall i | 0 <= i < |shape.entries|
      ensures i != v ==> NodeOf(gone, shape, i) == NodeOf(s.store, shape, i)
      ensures Tame(NodeOf(gone, shape, i), shape.group, EntryKeys(shape, i))
    {
      assert i != v ==> Names(shape)[i] != Names(shape)[v];
    }
    CleanStopsAtMissingNode(gone, shape, api, v);
  }

  /** A call of the controller with some pool. */
  datatype Call = Call(pool: PoolObject, api: Api, envtest: bool, poolUpdateFails: bool)

  function Calls(store: Store, calls: seq<Call>): Store
    decreases |calls|
  {
    if calls == [] then store
    else
      var c := calls[0];
      Calls(Reconcile(State(store, c.pool), c.api, c.envtest, c.poolUpdateFails).store, calls[1..])
  }

  /** A node that no spec lists any more keeps whatever it carries through every later call, with any
      pools, clean-ups included: a dropped entry's node stays marked. */
  lemma {:induction false} DroppedNodeStays(store: Store, calls: seq<Call>, name: string)
    requires name in store
    requires forall c :: c in calls && c.pool.Present? ==> name !in Names(c.pool.spec)
    ensures name in Calls(store, calls) && Calls(store, calls)[name] == store[name]
    decreases |calls|
  {
    if calls != [] {
      var c := calls[0];
      assert c in calls;
      if c.pool.Present? {
        var spec := c.pool.spec;
        MarkFromFrame(store, Names(spec), 0, MarkStep(spec, c.envtest, c.api.clock), c.api, name);
        CleanFromFrame(store, Names(spec), 0, CleanStep(spec), c.api, name);
      }
      DroppedNodeStays(Reconcile(State(store, c.pool), c.api, c.envtest, c.poolUpdateFails).store, calls[1..], name);
    }
  }

  // ----- what the controller leaves alone -----

  /** Both stores have the same nodes, and they agree on everything imperator does not manage. */
  ghost predicate SameRest(store: Store, store': Store, shape: Pool) {
    && store.Keys == store'.Keys
    && (forall i :: 0 <= i < |shape.entries| ==>
      Rest(NodeOf(store, shape, i), EntryKeys(shape, i)) == Rest(NodeOf(store', shape, i), EntryKeys(shape, i)))
    && (forall name :: name in store && name !in Names(shape) ==> store[name] == store'[name])
  }

  lemma MarkKeepsRest(store: Store, spec: Pool, m: nat, api: Api, envtest: bool)
    requires WellShaped(spec) && MarkedPrefix(store, spec, m)
    ensures SameRest(store, MarkPass(store, spec, api, envtest).0, spec)
  {
    PrefixFacts(store, spec, m);
    MarkPassExact(store, spec, api, envtest);
    var (s, o) := MarkPass(store, spec, api, envtest);
    var k := Reached(o, |spec.entries|);
    forall i | 0 <= i < |spec.entries|
      ensures Rest(NodeOf(store, spec, i), EntryKeys(spec, i)) == Rest(NodeOf(s, spec, i), EntryKeys(spec, i))
    {
      if i < k {
        RemarkedKeepsRest(NodeOf(store, spec, i), spec, i, envtest, api.clock(i));
        assert NodeOf(s, spec, i) == Remarked(NodeOf(store, spec, i), spec, i, envtest, api.clock(i));
      } else {
        assert Names(spec)[i] !in Names(spec)[0..k];
      }
    }
  }

  lemma RemarkedKeepsRest(node: Node, pool: Pool, i: nat, envtest: bool, now: int)
    requires i < |pool.entries|
    ensures Rest(Remarked(node, pool, i, envtest, now), EntryKeys(pool, i)) == Rest(node, EntryKeys(pool, i))
  {
    RemarkKeepsRest(node, pool.group, pool.entries[i], envtest, now);
  }

  lemma CleanKeepsRest(store: Store, spec: Pool, m: nat, api: Api)
    requires WellShaped(spec) && MarkedPrefix(store, spec, m)
    ensures SameRest(store, CleanPass(store, spec, api).0, spec)
  {
    PrefixFacts(store, spec, m);
    var k := CleanPassExact(store, spec, api);
    var s := CleanPass(store, spec, api).0;
    forall i | 0 <= i < k
      ensures Rest(NodeOf(store, spec, i), EntryKeys(spec, i)) == Rest(NodeOf(s, spec, i), EntryKeys(spec, i))
    {
      RestIsFree(NodeOf(store, spec, i), EntryKeys(spec, i));
      FreeIsRest(NodeOf(s, spec, i), EntryKeys(spec, i));
    }
  }

  lemma StepKeepsRest(s: State, a: Action, shape: Pool, m: nat)
    requires Good(s, shape, m) && Step(s, a, shape).Some? && !a.Change?
    ensures SameRest(s.store, Step(s, a, shape).value.store, shape)
  {
    if a.Run? && Holding(s.pool) {
      if s.pool.deleting {
        CleanKeepsRest(s.store, shape, m, a.api);
      } else {
        MarkKeepsRest(s.store, shape, m, a.api, a.envtest);
      }
    }
  }

  /** A node that no marked entry lists has not changed. */
  lemma UnmarkedIsSame(base: Store, store: Store, shape: Pool, m: nat, name: string)
    requires SameRest(base, store, shape) && AllFree(base, shape) && MarkedPrefix(store, shape, m)
    requires forall i :: 0 <= i < m ==> shape.entries[i].name != name
    ensures Fetched(base, name) == Fetched(store, name)
  {
    if name in Names(shape) {
      var i :| 0 <= i < |shape.entries| && Names(shape)[i] == name;
      FreeIsRest(NodeOf(base, shape, i), EntryKeys(shape, i));
      FreeIsRest(NodeOf(store, shape, i), EntryKeys(shape, i));
    }
  }

  lemma EditKeepsRest(base: Store, store: Store, spec: Pool, shape: Pool, m: nat)
    requires SameRest(base, store, shape) && AllFree(base, shape)
    requires KeepsOccupied(spec, shape, store) && MarkedPrefix(store, shape, m)
    ensures SameRest(base, store, spec) && AllFree(base, spec)
  {
    MarkedEntriesKept(store, spec, shape, m);
    forall i | 0 <= i < |spec.entries|
      ensures Rest(NodeOf(base, spec, i), EntryKeys(spec, i)) == Rest(NodeOf(store, spec, i), EntryKeys(spec, i))
      ensures Free(NodeOf(base, spec, i), EntryKeys(spec, i))
    {
      if i < m {
        assert SameEntry(spec, shape, i);
        assert NodeOf(base, spec, i) == NodeOf(base, shape, i) && NodeOf(store, spec, i) == NodeOf(store, shape, i);
      } else {
        NotKept(spec, shape, m, spec.entries[i].name, i);
        UnmarkedIsSame(base, store, shape, m, spec.entries[i].name);
      }
    }
    forall name | name in base && name !in Names(spec) ensures base[name] == store[name] {
      NotKept(spec, shape, m, name, |spec.entries|);
      UnmarkedIsSame(base, store, shape, m, name);
    }
  }

  /** A name behind the kept entries, or not listed at all, is none of theirs. */
  lemma NotKept(spec: Pool, shape: Pool, m: nat, name: string, i: nat)
    requires WellShaped(spec) && m <= i <= |spec.entries|
    requires if i < |spec.entries| then spec.entries[i].name == name else name !in Names(spec)
    requires m <= |shape.entries| && forall j :: 0 <= j < m ==> SameEntry(spec, shape, j)
    ensures forall j :: 0 <= j < m ==> shape.entries[j].name != name
  {
    forall j | 0 <= j < m ensures shape.entries[j].name != name {
      assert SameEntry(spec, shape, j) && Names(spec)[j] == shape.entries[j].name;
      assert i < |spec.entries| ==> Names(spec)[j] != Names(spec)[i];
    }
  }

  lemma {:induction false} RunKeepsRest(base: Store, s: State, actions: seq<Action>, shape: Pool, m: nat)
    requires Good(s, shape, m) && SameRest(base, s.store, shape) && AllFree(base, shape)
    requires After(s, actions, shape).Some? && forall a :: a in actions ==> !a.Change?
    ensures var (t, final) := After(s, actions, shape).value;
      SameRest(base, t.store, final) && AllFree(base, final)
    decreases |actions|
  {
    if actions != [] {
      var a := actions[0];
      var t := Step(s, a, shape).value;
      assert a in actions;
      StepKeepsRest(s, a, shape, m);
      assert SameRest(base, t.store, shape);
      if a.Create? || a.Edit? {
        EditKeepsRest(base, s.store, a.spec, shape, m);
      }
      var next := StepKeepsGood(s, a, shape, m);
      RunKeepsRest(base, t, actions[1..], NextShape(a, shape), next);
    }
  }

  /** Conservation over runs: if nobody else touches the nodes, then in every state without the
      finalizer, whatever happened before, the node store is exactly the one the run began with. */
  lemma RunsRestore(store: Store, actions: seq<Action>, shape: Pool)
    requires AllFree(store, shape)
    requires After(State(store, Absent), actions, shape).Some? && forall a :: a in actions ==> !a.Change?
    ensures var (t, _) := After(State(store, Absent), actions, shape).value;
      !Holding(t.pool) ==> t.store == store
  {
    var s := State(store, Absent);
    var (t, final) := After(s, actions, shape).value;
    RunKeepsRest(store, s, actions, shape, 0);
    RunsAreSafe(store, actions, shape);
    if !Holding(t.pool) {
      forall name | name in store ensures t.store[name] == store[name] {
        if name in Names(final) {
          var i :| 0 <= i < |final.entries| && Names(final)[i] == name;
          FreeIsRest(NodeOf(store, final, i), EntryKeys(final, i));
          FreeIsRest(NodeOf(t.store, final, i), EntryKeys(final, i));
          assert NodeOf(store, final, i) == store[name] && NodeOf(t.store, final, i) == t.store[name];
        }
      }
      assert t.store == store;
    }
  }
}
