/** The node conditions the MachineNodePool controller reports, read back from what it wrote. */
module NodeStatus {
  import opened Objects
  import opened Taints
  import opened NodeMarking
  import opened NodeWalks
  import opened NodePasses

  datatype NodeCondition = Healthy | Maintenance | Unhealthy | Blank

  datatype PoolCondition = PoolCondition(name: string, condition: NodeCondition)

  /** The value of the last taint of a key. */
  function LastValue(ts: seq<Taint>, key: string, default: string): string {
    if ts == [] then default
    else LastValue(ts[1..], key, if ts[0].key == key then ts[0].value else default)
  }

  /** The condition `updateStatus` derives for one node: from the label, or from the taint when the
      entry is tainted. */
  function ConditionOf(node: Node, entry: PoolEntry): NodeCondition {
    var shown := Lookup(node.labels, STATUS_KEY);
    var value := if entry.taint then LastValue(node.taints, STATUS_KEY, shown) else shown;
    if entry.mode == MODE_MAINTENANCE then Maintenance
    else if value == MODE_READY then Healthy
    else if value == MODE_NOT_READY then Unhealthy
    else Blank
  }

  /** The condition a node deserves. */
  function Deserved(node: Node, entry: PoolEntry, envtest: bool): NodeCondition {
    if entry.mode == MODE_MAINTENANCE then Maintenance
    else if Down(KeySet(node.taints), envtest) then Unhealthy
    else Healthy
  }

  function Conditions(store: Store, pool: Pool): (cs: seq<PoolCondition>)
    ensures |cs| == |pool.entries|
  {
    seq(|pool.entries|, i requires 0 <= i < |pool.entries| =>
      PoolCondition(pool.entries[i].name, ConditionOf(NodeOf(store, pool, i), pool.entries[i])))
  }

  lemma {:induction false} LastValueConcat(a: seq<Taint>, b: seq<Taint>, key: string, default: string)
    ensures LastValue(a + b, key, default) == LastValue(b, key, LastValue(a, key, default))
  {
    if a == [] {
      assert a + b == b;
    } else {
      assert (a + b)[1..] == a[1..] + b;
      LastValueConcat(a[1..], b, key, if a[0].key == key then a[0].value else default);
    }
  }

  lemma {:induction false} FreshHasNoStatus(keys: seq<string>, group: string, now: int, default: string)
    requires STATUS_KEY !in keys
    ensures LastValue(FreshTaints(keys, group, now), STATUS_KEY, default) == default
  {
    if keys != [] {
      FreshHasNoStatus(keys[1..], group, now, default);
      assert FreshTaints(keys, group, now)[1..] == FreshTaints(keys[1..], group, now);
    }
  }

  /** The condition that comes out for a node. An untainted entry of the type `node-pool` has written
      the group over the status label. */
  function Reported(node: Node, pool: Pool, i: nat, envtest: bool): NodeCondition
    requires i < |pool.entries|
  {
    var entry := pool.entries[i];
    if NODE_POOL_NAME !in entry.types || entry.mode == MODE_MAINTENANCE then Deserved(node, entry, envtest)
    else if pool.group == MODE_READY then Healthy
    else if pool.group == MODE_NOT_READY then Unhealthy
    else Blank
  }

  function Expected(store: Store, pool: Pool, envtest: bool): (cs: seq<PoolCondition>)
    ensures |cs| == |pool.entries|
  {
    seq(|pool.entries|, i requires 0 <= i < |pool.entries| =>
      PoolCondition(pool.entries[i].name, Reported(NodeOf(store, pool, i), pool, i, envtest)))
  }

  lemma RemarkCondition(node: Node, group: string, entry: PoolEntry, envtest: bool, now: int)
    requires NODE_POOL_NAME !in entry.types
    ensures ConditionOf(Remark(node, group, entry, envtest, now), entry) == Deserved(node, entry, envtest)
  {
    var keys := TypeKeys(entry.types);
    var value := StatusValue(entry.mode, KeySet(node.taints), envtest);
    StatusKeyNotListed(entry.types);
    MarkedLabelsRest(node.labels, keys, group, value);
    if entry.taint {
      var s := ManagedTaint(STATUS_KEY, value, now);
      var added := FreshTaints(keys, group, now);
      LastValueConcat(Without(node.taints, ManagedKeys(keys)), [s] + added, STATUS_KEY, value);
      assert ([s] + added)[1..] == added;
      FreshHasNoStatus(keys, group, now, value);
    }
  }

  lemma OverwrittenStatus(node: Node, group: string, entry: PoolEntry, envtest: bool, now: int)
    requires NODE_POOL_NAME in entry.types
    ensures Lookup(Remark(node, group, entry, envtest, now).labels, STATUS_KEY) == group
  {
    var keys := TypeKeys(entry.types);
    var q :| 0 <= q < |entry.types| && entry.types[q] == NODE_POOL_NAME;
    StatusKeyIsATypeKey(NODE_POOL_NAME);
    assert keys[q] == STATUS_KEY;
    MarkedLabelsRest(node.labels, keys, group, StatusValue(entry.mode, KeySet(node.taints), envtest));
  }

  lemma RemarkedCondition(node: Node, pool: Pool, i: nat, envtest: bool, now: int)
    requires WellShaped(pool) && i < |pool.entries|
    ensures ConditionOf(Remarked(node, pool, i, envtest, now), pool.entries[i]) == Reported(node, pool, i, envtest)
  {
    var entry := pool.entries[i];
    if NODE_POOL_NAME !in entry.types {
      RemarkCondition(node, pool.group, entry, envtest, now);
    } else {
      OverwrittenStatus(node, pool.group, entry, envtest, now);
      assert MODE_READY[0] != MODE_NOT_READY[0];
    }
  }

  /** After a completed marking pass the reported conditions are, entry by entry, the ones the nodes
      deserve, none of them blank, whether read from labels or from taints; only entries of the type
      `node-pool` report what their group's name reads as. */
  lemma ConditionsTruthful(store: Store, pool: Pool, api: Api, envtest: bool)
    requires WellShaped(pool) && Clearable(store, pool)
    requires MarkPass(store, pool, api, envtest).1 == Done
    ensures Conditions(MarkPass(store, pool, api, envtest).0, pool) == Expected(store, pool, envtest)
    ensures forall i :: 0 <= i < |pool.entries| && NODE_POOL_NAME !in pool.entries[i].types ==>
      Expected(store, pool, envtest)[i]
      == PoolCondition(pool.entries[i].name, Deserved(NodeOf(store, pool, i), pool.entries[i], envtest))
  {
    var s := MarkPass(store, pool, api, envtest).0;
    MarkPassExact(store, pool, api, envtest);
    forall i | 0 <= i < |pool.entries|
      ensures ConditionOf(NodeOf(s, pool, i), pool.entries[i]) == Reported(NodeOf(store, pool, i), pool, i, envtest)
    {
      RemarkedCondition(NodeOf(store, pool, i), pool, i, envtest, api.clock(i));
      assert NodeOf(s, pool, i) == Remarked(NodeOf(store, pool, i), pool, i, envtest, api.clock(i));
    }
  }

  /** The same, from the raw taints: an entry in maintenance reports that; another one is healthy exactly
      if no taint takes its node out of service, the not-ready one forgiven in the test environment. */
  lemma ConditionsFromTaints(store: Store, pool: Pool, api: Api, envtest: bool, i: nat)
    requires WellShaped(pool) && Clearable(store, pool)
    requires MarkPass(store, pool, api, envtest).1 == Done
    requires i < |pool.entries| && NODE_POOL_NAME !in pool.entries[i].types
    ensures var ts := NodeOf(store, pool, i).taints;
      var reported := Conditions(MarkPass(store, pool, api, envtest).0, pool)[i];
      && reported.name == pool.entries[i].name
      && reported.condition in {Healthy, Unhealthy, Maintenance}
      && (reported.condition == Maintenance <==> pool.entries[i].mode == MODE_MAINTENANCE)
      && (reported.condition == Healthy <==>
          && pool.entries[i].mode != MODE_MAINTENANCE
          && forall q :: 0 <= q < |ts| ==>
            ts[q].key !in CANNOT_USE_TAINTS || (envtest && ts[q].key == NOT_READY_TAINT))
  {
    var ts := NodeOf(store, pool, i).taints;
    ConditionsTruthful(store, pool, api, envtest);
    forall key | key in CANNOT_USE_TAINTS {
      PresentKey(ts, key);
    }
    DownIs(ts, ts, envtest);
  }

  lemma {:induction false} LastValueAt(ts: seq<Taint>, key: string, default: string, last: int)
    requires -1 <= last < |ts| && (last >= 0 ==> ts[last].key == key)
    requires forall j :: last < j < |ts| ==> ts[j].key != key
    ensures LastValue(ts, key, default) == if last < 0 then default else ts[last].value
  {
    if ts != [] {
      var next := if ts[0].key == key then ts[0].value else default;
      LastValueAt(ts[1..], key, next, if last < 0 then -1 else last - 1);
    }
  }

  /** What is reported for any node, whoever wrote its labels and taints: the last status taint speaks for
      a tainted entry, the label for one without that taint or that flag. */
  lemma ConditionReads(node: Node, entry: PoolEntry, last: int)
    requires -1 <= last < |node.taints| && (last >= 0 ==> node.taints[last].key == STATUS_KEY)
    requires forall j :: last < j < |node.taints| ==> node.taints[j].key != STATUS_KEY
    ensures var shown :=
        if entry.taint && last >= 0 then node.taints[last].value
        else if STATUS_KEY in node.labels then node.labels[STATUS_KEY]
        else "";
      && (ConditionOf(node, entry) == Maintenance <==> entry.mode == MODE_MAINTENANCE)
      && (ConditionOf(node, entry) == Healthy <==> entry.mode != MODE_MAINTENANCE && shown == MODE_READY)
      && (ConditionOf(node, entry) == Unhealthy <==> entry.mode != MODE_MAINTENANCE && shown == MODE_NOT_READY)
  {
    LastValueAt(node.taints, STATUS_KEY, Lookup(node.labels, STATUS_KEY), last);
    assert MODE_READY[0] == 'r' && MODE_NOT_READY[0] == 'n';
  }

  // ----- what is persisted -----

  /** The persisted status; `ready` is its Ready condition, if there is one. */
  datatype PoolStatus = PoolStatus(conditions: seq<PoolCondition>, ready: Option<bool>)

  predicate AllRead(store: Store, pool: Pool, getFails: nat -> bool) {
    forall i :: 0 <= i < |pool.entries| ==> pool.entries[i].name in store && !getFails(i)
  }

  /** `updateStatus`: Ready turns true only together with changed conditions. */
  function Report(status: PoolStatus, store: Store, pool: Pool, getFails: nat -> bool, updateFails: bool): PoolStatus {
    if AllRead(store, pool, getFails) && status.conditions != Conditions(store, pool) && !updateFails
    then PoolStatus(Conditions(store, pool), Some(true))
    else status
  }

  /** The status after a reconciliation that has marked nodes, successfully or not. */
  function StatusAfter(
      status: PoolStatus, store: Store, pool: Pool, api: Api, envtest: bool,
      getFails: nat -> bool, updateFails: bool): PoolStatus {
    var (s, o) := MarkPass(store, pool, api, envtest);
    match o
    case Done => Report(status, s, pool, getFails, updateFails)
    case Failed(_) => if updateFails then status else status.(ready := Some(false))
    case Crashed(_) => status
  }

  /** A completed pass with an answering API persists the truth about the nodes. It makes the pool
      Ready exactly if it was or a condition differs from the one persisted before: a failed pass
      leaves the pool not ready for as long as its nodes' conditions stay the same. */
  lemma ReadyExact(
      status: PoolStatus, store: Store, pool: Pool, api: Api, envtest: bool, getFails: nat -> bool)
    requires WellShaped(pool) && Clearable(store, pool)
    requires MarkPass(store, pool, api, envtest).1 == Done
    requires forall i :: 0 <= i < |pool.entries| ==> !getFails(i)
    ensures var after := StatusAfter(status, store, pool, api, envtest, getFails, false);
      && after.conditions == Expected(store, pool, envtest)
      && (after.ready == Some(true) <==>
          status.ready == Some(true) || status.conditions != Expected(store, pool, envtest))
  {
    MarkPassExact(store, pool, api, envtest);
    ConditionsTruthful(store, pool, api, envtest);
  }

  /** A pass that an entry stops is reported as not ready, with the conditions of before, if the report
      gets through; it is never taken for a completed one. */
  lemma StoppedPassReported(
      status: PoolStatus, store: Store, pool: Pool, api: Api, envtest: bool,
      getFails: nat -> bool, updateFails: bool, i: nat)
    requires WellShaped(pool) && Clearable(store, pool)
    requires i < |pool.entries| && EntryStops(store, pool, i, api, envtest)
    ensures StatusAfter(status, store, pool, api, envtest, getFails, updateFails)
         == PoolStatus(status.conditions, if updateFails then status.ready else Some(false))
  {
    MarkPassExact(store, pool, api, envtest);
  }

  /** A listed node that is gone or cannot be read, or a refused write, leaves the status as it was. */
  lemma RefusedReport(status: PoolStatus, store: Store, pool: Pool, getFails: nat -> bool, updateFails: bool)
    requires updateFails
      || exists i :: 0 <= i < |pool.entries| && (pool.entries[i].name !in store || getFails(i))
    ensures Report(status, store, pool, getFails, updateFails) == status
  {
  }
}
