/** The MachineNodePool controller as it runs: node objects whose maps and taint slices are changed
    in place, and a reconciler that reads and writes the node store. */
module NodePoolController {
  import opened Objects
  import opened Taints
  import opened GoSlices
  import opened NodeMarking
  import opened NodeWalks
  import opened NodePasses
  import opened NodeStatus
  import opened NodePoolRuns

  method GetScheduleMachineTypeKeys(types: seq<string>) returns (keys: seq<string>)
    ensures keys == TypeKeys(types)
  {
    keys := [];
    for n := 0 to |types|
      invariant keys == TypeKeys(types)[..n]
    {
      keys := keys + [TypeKey(types[n])];
    }
  }

  /** The name-to-keys map both removals build. */
  method ScheduleKeys(entries: seq<PoolEntry>) returns (m: map<string, seq<string>>)
    ensures forall name :: KeysFor(entries, name) == if name in m then m[name] else []
  {
    m := map[];
    for n := 0 to |entries|
      invariant forall name :: KeysFor(entries[..n], name) == if name in m then m[name] else []
    {
      var keys := GetScheduleMachineTypeKeys(entries[n].types);
      m := m[entries[n].name := keys];
      assert entries[..n + 1][..n] == entries[..n];
    }
    assert entries[..|entries|] == entries;
  }

  /** The search for a taint that takes the node out of service, then the mode. */
  method PoolStatusValue(mode: string, present: map<string, string>, envtest: bool) returns (value: string)
    ensures value == StatusValue(mode, present.Keys, envtest)
    ensures mode == MODE_MAINTENANCE ==> value == MODE_MAINTENANCE
    ensures mode != MODE_MAINTENANCE ==>
      value == if forall c :: c in CANNOT_USE_TAINTS && c in present ==> envtest && c == NOT_READY_TAINT
               then MODE_READY else MODE_NOT_READY
  {
    value := MODE_READY;
    for n := 0 to |CANNOT_USE_TAINTS|
      invariant value == MODE_READY
      invariant forall q :: 0 <= q < n ==>
        CANNOT_USE_TAINTS[q] !in present || (envtest && CANNOT_USE_TAINTS[q] == NOT_READY_TAINT)
    {
      var t := CANNOT_USE_TAINTS[n];
      if t !in present {
        continue;
      }
      if envtest && t == NOT_READY_TAINT {
        continue;
      }
      value := MODE_NOT_READY;
      break;
    }
    if mode == MODE_MAINTENANCE {
      value := MODE_MAINTENANCE;
    }
  }

  class NodeObject {
    var labels: Labels
    var annotations: Labels
    var taints: Slice<Taint>

    predicate Valid()
      reads this
    {
      taints.Valid()
    }

    function Value(): Node
      requires Valid()
      reads this, taints.data
    {
      Node(labels, annotations, taints.Contents())
    }

    constructor (node: Node)
      ensures Valid() && fresh(taints.data) && Value() == node
    {
      var ts := FromSeq(node.taints);
      labels, annotations, taints := node.labels, node.annotations, ts;
    }

    method RemoveAnnotation()
      modifies this`annotations
      ensures annotations == old(annotations) - {MACHINE_GROUP_KEY}
    {
      annotations := annotations - {MACHINE_GROUP_KEY};
    }

    method RemoveLabel(name: string, pool: Pool)
      modifies this`labels
      ensures labels == StripLabels(old(labels), pool.group, KeysFor(pool.entries, name))
    {
      labels := labels - {STATUS_KEY};
      var scheduled := ScheduleKeys(pool.entries);
      if name in scheduled {
        var keys := scheduled[name];
        for n := 0 to |keys|
          invariant labels == StripLabels(old(labels), pool.group, keys[..n])
        {
          StripOneMore(old(labels), pool.group, keys, n);
          if Lookup(labels, keys[n]) != pool.group {
            continue;
          }
          labels := labels - {keys[n]};
        }
        assert keys[..|keys|] == keys;
      }
    }

    /** The status part of `removeNodeTaint`. */
    method RemoveStatusTaint() returns (crashed: bool)
      requires Valid()
      modifies this`taints, taints.data
      ensures Valid() && taints.data == old(taints.data)
      ensures crashed <==> Overruns(old(taints.Contents()), STATUS_KEY)
      ensures !crashed ==> taints.Contents() == Skipping(old(taints.Contents()), STATUS_KEY)
    {
      var present := ExtractKeyValues(taints);
      if STATUS_KEY in present {
        crashed, taints := RangeDelete(taints, STATUS_KEY);
      } else {
        NothingToSkip(taints.Contents(), STATUS_KEY);
        crashed := false;
      }
    }

    /** The machine-type part of `removeNodeTaint`. */
    method RemoveTypeTaints(keys: seq<string>)
      requires Valid()
      modifies this`taints, taints.data
      ensures Valid() && taints.data == old(taints.data)
      ensures taints.Contents() == DropEach(old(taints.Contents()), keys)
    {
      for n := 0 to |keys|
        invariant Valid() && taints.data == old(taints.data)
        invariant DropEach(taints.Contents(), keys[n..]) == DropEach(old(taints.Contents()), keys)
      {
        taints := DeleteFirst(taints, keys[n]);
        assert keys[n..][1..] == keys[n + 1..];
      }
    }

    method RemoveTaint(name: string, pool: Pool) returns (crashed: bool)
      requires Valid()
      modifies this`taints, taints.data
      ensures Valid() && taints.data == old(taints.data)
      ensures crashed <==> RemoveManaged(old(taints.Contents()), STATUS_KEY, KeysFor(pool.entries, name)) == None
      ensures !crashed ==>
        RemoveManaged(old(taints.Contents()), STATUS_KEY, KeysFor(pool.entries, name)) == Some(taints.Contents())
    {
      crashed := RemoveStatusTaint();
      if crashed {
        return;
      }
      var scheduled := ScheduleKeys(pool.entries);
      if name in scheduled {
        RemoveTypeTaints(scheduled[name]);
      }
    }

    /** Append, or overwrite in place when the key was present before anything was set. */
    method PlaceTaint(seen: map<string, string>, t: Taint)
      requires Valid()
      modifies this`taints, taints.data
      ensures Valid() && (taints.data == old(taints.data) || fresh(taints.data))
      ensures taints.Contents() == NodeMarking.PlaceTaint(old(taints.Contents()), seen.Keys, t)
    {
      if t.key !in seen {
        taints := Append(taints, t);
      } else {
        var i := GetTaintKeyIndex(taints, t.key);
        if i >= 0 {
          ghost var before := taints.Contents();
          taints.data[i] := t;
          assert taints.Contents() == before[i := t];
        }
      }
    }

    /** Status label and machine-type labels. */
    method SetLabels(keys: seq<string>, group: string, value: string)
      modifies this`labels
      ensures labels == NodeMarking.SetLabels(old(labels)[STATUS_KEY := value], keys, group)
    {
      labels := labels[STATUS_KEY := value];
      ghost var base := labels;
      for n := 0 to |keys|
        invariant labels == NodeMarking.SetLabels(base, keys[..n], group)
      {
        SetOneMore(base, keys, n, group);
        labels := labels[keys[n] := group];
      }
      assert keys[..|keys|] == keys;
    }

    /** Status taint and machine-type taints. */
    method SetTaints(seen: map<string, string>, keys: seq<string>, group: string, value: string, now: int)
      requires Valid()
      modifies this`taints, taints.data
      ensures Valid() && (taints.data == old(taints.data) || fresh(taints.data))
      ensures taints.Contents() == PlaceEach(
        NodeMarking.PlaceTaint(old(taints.Contents()), seen.Keys, ManagedTaint(STATUS_KEY, value, now)),
        seen.Keys, keys, group, now)
    {
      PlaceTaint(seen, ManagedTaint(STATUS_KEY, value, now));
      ghost var placed := taints.Contents();
      for n := 0 to |keys|
        invariant Valid() && (taints.data == old(taints.data) || fresh(taints.data))
        invariant PlaceEach(taints.Contents(), seen.Keys, keys[n..], group, now)
               == PlaceEach(placed, seen.Keys, keys, group, now)
      {
        PlaceTaint(seen, ManagedTaint(keys[n], group, now));
        assert keys[n..][1..] == keys[n + 1..];
      }
    }

    /** One turn of the `reconcileNode` loop on the fetched node. */
    method Mark(pool: Pool, p: PoolEntry, envtest: bool, now: int) returns (crashed: bool)
      requires Valid()
      modifies this, taints.data
      ensures Valid()
      ensures crashed <==>
        NodeMarking.Mark(old(Value()), pool.group, KeysFor(pool.entries, p.name), p, envtest, now) == None
      ensures !crashed ==>
        NodeMarking.Mark(old(Value()), pool.group, KeysFor(pool.entries, p.name), p, envtest, now) == Some(Value())
    {
      RemoveLabel(p.name, pool);
      if p.taint {
        crashed := RemoveTaint(p.name, pool);
        if crashed {
          return;
        }
      }
      crashed := false;
      annotations := annotations[MACHINE_GROUP_KEY := pool.group];
      var present := ExtractKeyValues(taints);
      var value := PoolStatusValue(p.mode, present, envtest);
      var keys := GetScheduleMachineTypeKeys(p.types);
      SetLabels(keys, pool.group, value);
      if p.taint {
        SetTaints(present, keys, pool.group, value, now);
      }
    }

    /** One turn of the `cleanupNode` loop on the fetched node. */
    method Clean(name: string, pool: Pool) returns (crashed: bool)
      requires Valid()
      modifies this, taints.data
      ensures Valid()
      ensures crashed <==> Strip(old(Value()), pool.group, KeysFor(pool.entries, name)) == None
      ensures !crashed ==> Strip(old(Value()), pool.group, KeysFor(pool.entries, name)) == Some(Value())
    {
      RemoveAnnotation();
      RemoveLabel(name, pool);
      crashed := RemoveTaint(name, pool);
    }
  }

  lemma StripOneMore(base: Labels, group: string, keys: seq<string>, n: nat)
    requires n < |keys|
    ensures var before := StripLabels(base, group, keys[..n]);
      StripLabels(base, group, keys[..n + 1])
        == if Lookup(before, keys[n]) != group then before else before - {keys[n]}
  {
    assert keys[..n + 1] == keys[..n] + [keys[n]];
    assert forall k :: k in keys[..n + 1] <==> k in keys[..n] || k == keys[n];
  }

  lemma SetOneMore(base: Labels, keys: seq<string>, n: nat, group: string)
    requires n < |keys|
    ensures NodeMarking.SetLabels(base, keys[..n], group)[keys[n] := group]
         == NodeMarking.SetLabels(base, keys[..n + 1], group)
  {
    assert keys[..n + 1] == keys[..n] + [keys[n]];
    assert AsSet(keys[..n + 1]) == AsSet(keys[..n]) + {keys[n]};
  }

  lemma NothingToSkip(ts: seq<Taint>, key: string)
    requires key !in KeySet(ts)
    ensures Skipping(ts, key) == ts && !Overruns(ts, key)
  {
    SkippingIsFilter(ts, key);
    WithoutNothing(ts, {key});
    forall q | 0 <= q < |ts| ensures ts[q].key != key {
      assert ts[q] in ts;
    }
  }

  /** The cluster as the controller sees and changes it. */
  class MachineNodePoolReconciler {
    var nodes: Store
    var pool: PoolObject
    var status: PoolStatus

    constructor (nodes: Store, pool: PoolObject, status: PoolStatus)
      ensures this.nodes == nodes && this.pool == pool && this.status == status
    {
      this.nodes, this.pool, this.status := nodes, pool, status;
    }

    method ReconcileNode(spec: Pool, api: Api, envtest: bool) returns (o: Outcome)
      modifies this`nodes
      ensures (nodes, o) == MarkPass(old(nodes), spec, api, envtest)
    {
      ghost var names := Names(spec);
      ghost var step := MarkStep(spec, envtest, api.clock);
      for i := 0 to |spec.entries|
        invariant MarkFrom(nodes, names, i, step, api) == MarkPass(old(nodes), spec, api, envtest)
      {
        var p := spec.entries[i];
        if api.getFails(i) || p.name !in nodes {
          return Failed(i);
        }
        var origin := nodes[p.name];
        var node := new NodeObject(origin);
        var crashed := node.Mark(spec, p, envtest, api.clock(i));
        if crashed {
          return Crashed(i);
        }
        if Unwritten(origin, node.Value()) {
          continue;
        }
        if api.updateFails(i) {
          return Failed(i);
        }
        nodes := nodes[p.name := node.Value()];
      }
      return Done;
    }

    method CleanupNode(spec: Pool, api: Api) returns (o: Outcome)
      modifies this`nodes
      ensures (nodes, o) == CleanPass(old(nodes), spec, api)
    {
      ghost var names := Names(spec);
      ghost var step := CleanStep(spec);
      for i := 0 to |spec.entries|
        invariant CleanFrom(nodes, names, i, step, api) == CleanPass(old(nodes), spec, api)
      {
        var p := spec.entries[i];
        if api.getFails(i) {
          return Failed(i);
        }
        var origin := Fetched(nodes, p.name);
        var node := new NodeObject(origin);
        var crashed := node.Clean(p.name, spec);
        if crashed {
          return Crashed(i);
        }
        if node.Value() == origin {
          return Done;
        }
        if api.updateFails(i) {
          return Failed(i);
        }
        nodes := nodes[p.name := node.Value()];
      }
      return Done;
    }

    /** `updateStatus`: nothing is persisted unless every listed node could be read. */
    method UpdateStatus(spec: Pool, getFails: nat -> bool, updateFails: bool) returns (ok: bool)
      modifies this`status
      ensures status == Report(old(status), nodes, spec, getFails, updateFails)
      ensures ok <==> AllRead(nodes, spec, getFails) && status.conditions == Conditions(nodes, spec)
    {
      var found: seq<PoolCondition> := [];
      for i := 0 to |spec.entries|
        invariant found == Conditions(nodes, spec)[..i]
        invariant forall j :: 0 <= j < i ==> spec.entries[j].name in nodes && !getFails(j)
      {
        var p := spec.entries[i];
        if getFails(i) || p.name !in nodes {
          return false;
        }
        var node := nodes[p.name];
        var value := Lookup(node.labels, STATUS_KEY);
        if p.taint {
          ghost var all := LastValue(node.taints, STATUS_KEY, value);
          for n := 0 to |node.taints|
            invariant LastValue(node.taints[n..], STATUS_KEY, value) == all
          {
            if node.taints[n].key == STATUS_KEY {
              value := node.taints[n].value;
            }
            assert node.taints[n..][1..] == node.taints[n + 1..];
          }
          assert value == all;
        }
        var nc := Blank;
        if p.mode == MODE_MAINTENANCE {
          nc := Maintenance;
        } else if value == MODE_READY {
          nc := Healthy;
        } else if value == MODE_NOT_READY {
          nc := Unhealthy;
        }
        assert NodeOf(nodes, spec, i) == node && nc == ConditionOf(node, p);
        found := found + [PoolCondition(p.name, nc)];
        assert Conditions(nodes, spec)[..i + 1] == Conditions(nodes, spec)[..i] + [Conditions(nodes, spec)[i]];
      }
      if status.conditions != found {
        if updateFails {
          return false;
        }
        status := PoolStatus(found, Some(true));
      }
      return true;
    }

    /** `reconcile`. The status is written only after marking: the conditions after a completed pass,
        Ready false after one that failed. */
    method Reconcile(api: Api, envtest: bool, poolUpdateFails: bool, readFails: nat -> bool, statusUpdateFails: bool)
      modifies this
      ensures State(nodes, pool) == NodePoolRuns.Reconcile(State(old(nodes), old(pool)), api, envtest, poolUpdateFails)
      ensures status ==
        if old(pool).Present? && !old(pool).deleting && old(pool).finalizer
        then StatusAfter(old(status), old(nodes), old(pool).spec, api, envtest, readFails, statusUpdateFails)
        else old(status)
    {
      if pool == Absent {
        return;
      }
      if !pool.deleting {
        if !pool.finalizer {
          if !poolUpdateFails {
            pool := pool.(finalizer := true);
          }
          return;
        }
      } else {
        if pool.finalizer {
          var o := CleanupNode(pool.spec, api);
          if o == Done && !poolUpdateFails {
            pool := pool.(finalizer := false);
          }
        }
        return;
      }
      var o := ReconcileNode(pool.spec, api, envtest);
      if o.Failed? && !statusUpdateFails {
        status := status.(ready := Some(false));
      }
      if o == Done {
        var _ := UpdateStatus(pool.spec, readFails, statusUpdateFails);
      }
    }
  }
}
