/** The Machine controller: the history of machine types, the reservation StatefulSets and the usage
    counters. */
module MachineController {
  import opened Objects
  import opened Generators
  import opened Pods
  import opened Rollouts

  /** Go's int32 arithmetic. */
  function Wrap32(x: int): int {
    (x + 0x8000_0000) % 0x1_0000_0000 - 0x8000_0000
  }

  predicate Fits32(x: int) {
    -0x8000_0000 <= x < 0x8000_0000
  }

  datatype Usage = Usage(maximum: int, reserved: int, used: int, waiting: int)

  datatype Available = Available(name: string, usage: Usage)

  datatype MachineSpec = MachineSpec(group: string, types: seq<MachineType>, nodePool: seq<PoolEntry>)

  function TypeNames(types: seq<MachineType>): (names: seq<string>)
    ensures |names| == |types|
  {
    seq(|types|, i requires 0 <= i < |types| => types[i].name)
  }

  // ----- MachineTypeStock -----

  /** The names not yet in `stock`, appended in order. The lookup map is not updated on the way, so
      a name listed twice is appended twice. */
  function MergeStock(stock: seq<string>, names: seq<string>): seq<string> {
    stock + Unstocked(stock, names)
  }

  function Unstocked(stock: seq<string>, names: seq<string>): seq<string> {
    if names == [] then []
    else (if names[0] in stock then [] else [names[0]]) + Unstocked(stock, names[1..])
  }

  /** The MachineNodePool of a machine, finalizer and status aside. */
  datatype PoolRecord = PoolRecord(labels: Labels, group: string, nodePool: seq<PoolEntry>, stock: seq<string>)

  const BLANK_POOL: PoolRecord := PoolRecord(map[], "", [], [])

  /** What `reconcileMachineNodePool` makes of the pool object it finds, if it finds one. A group label
      is written only where there is none. */
  function NextPool(record: Option<PoolRecord>, spec: MachineSpec): PoolRecord {
    var origin := if record.Some? then record.value else BLANK_POOL;
    PoolRecord(
      if MACHINE_GROUP_KEY in origin.labels then origin.labels else origin.labels[MACHINE_GROUP_KEY := spec.group],
      spec.group,
      spec.nodePool,
      MergeStock(origin.stock, TypeNames(spec.types)))
  }

  // ----- reservation StatefulSets -----

  function Referenced(nodePool: seq<PoolEntry>, name: string): bool {
    exists i :: 0 <= i < |nodePool| && name in nodePool[i].types
  }

  /** `GetMachineTypeUsage`: the first entry of that name. */
  function FindUsage(status: seq<Available>, name: string): Option<Usage> {
    if status == [] then None
    else if status[0].name == name then Some(status[0].usage)
    else FindUsage(status[1..], name)
  }

  function Replicas(usage: Usage, unscheduled: int): int {
    var r := Wrap32(usage.maximum - Wrap32(Wrap32(usage.used + usage.waiting) + unscheduled));
    if r < 0 then 0 else r
  }

  type StatefulSets = map<string, StatefulSet>

  /** The StatefulSet wanted for type `i`, if any. */
  function WantedSet(spec: MachineSpec, status: seq<Available>, pods: seq<Pod>, env: Env, i: nat): Option<StatefulSet>
    requires i < |spec.types|
  {
    var mt := spec.types[i];
    if !Referenced(spec.nodePool, mt.name) then None
    else
      match FindUsage(status, mt.name)
      case None => None
      case Some(usage) =>
        var unscheduled := Wrap32(Count(pods, Unscheduled, spec.group, mt.name, env));
        Some(ReservationSet(mt, spec.group, Replicas(usage, unscheduled)))
  }

  /** What the loop of `reconcileStatefulSet` writes, type by type. */
  function WantedSets(
      spec: MachineSpec, status: seq<Available>, pods: seq<Pod>, env: Env): (wanted: Wanted<StatefulSet>)
    ensures |wanted| == |spec.types|
  {
    seq(|spec.types|, i requires 0 <= i < |spec.types| =>
      match WantedSet(spec, status, pods, env, i)
      case None => None
      case Some(sts) => Some(Named(ReservationName(spec.group, spec.types[i].name), sts)))
  }

  type Services = map<string, Service>

  /** What the loop of `reconcileService` writes: every type with a usage entry has its Service. */
  function WantedServices(spec: MachineSpec, status: seq<Available>): (wanted: Wanted<Service>)
    ensures |wanted| == |spec.types|
  {
    seq(|spec.types|, i requires 0 <= i < |spec.types| =>
      var name := spec.types[i].name;
      if FindUsage(status, name) == None then None
      else Some(Named(ReservationName(spec.group, name), ReservationService(name, spec.group))))
  }

  // ----- usage -----

  /** The desired-number map: the last type of a name wins, an unknown name has zero. */
  function Desired(types: seq<MachineType>, name: string): int {
    if types == [] then 0
    else
      var last := types[|types| - 1];
      if last.name == name then last.available else Desired(types[..|types| - 1], name)
  }

  function StatusNames(status: seq<Available>): (names: seq<string>)
    ensures |names| == |status|
  {
    seq(|status|, i requires 0 <= i < |status| => status[i].name)
  }

  function FreshUsage(spec: MachineSpec, name: string, pods: seq<Pod>, env: Env): Usage {
    Usage(Desired(spec.types, name),
          Wrap32(Count(pods, Reserved, spec.group, name, env)),
          Wrap32(Count(pods, Used, spec.group, name, env)),
          Wrap32(Count(pods, Waiting, spec.group, name, env)))
  }

  /** The status entries after a type of the spec without one got its own. */
  function EntryNames(spec: MachineSpec, status: seq<Available>): seq<string> {
    MergeStock(StatusNames(status), TypeNames(spec.types))
  }

  function FreshStatus(spec: MachineSpec, names: seq<string>, pods: seq<Pod>, env: Env): (status: seq<Available>)
    ensures |status| == |names|
  {
    seq(|names|, i requires 0 <= i < |names| => Available(names[i], FreshUsage(spec, names[i], pods, env)))
  }

  /** The namespace of every guest pod that is looked at can be read. */
  predicate Readable(group: string, names: seq<string>, pods: seq<Pod>, env: Env) {
    forall i :: 0 <= i < |names| ==> GuestsReadable(group, names[i], pods, env)
  }

  predicate GuestsReadable(group: string, name: string, pods: seq<Pod>, env: Env) {
    forall k :: 0 <= k < |pods| && HasRole(pods[k], group, name, ROLE_GUEST) ==>
      pods[k].namespace in env.namespaces
  }

  function NextStatus(spec: MachineSpec, status: seq<Available>, pods: seq<Pod>, env: Env): seq<Available> {
    var names := EntryNames(spec, status);
    if Readable(spec.group, names, pods, env) then FreshStatus(spec, names, pods, env) else status
  }

  // ----- one pass -----

  /** What one `reconcile` reads and writes besides the machine's spec and the pods. */
  datatype World = World(status: seq<Available>, pool: Option<PoolRecord>, sets: StatefulSets, services: Services)

  /** One `reconcile` with an API that answers: it sizes the StatefulSets by the status of the pass
      before, then refreshes the status. */
  function Pass(spec: MachineSpec, pods: seq<Pod>, env: Env, w: World): World {
    World(NextStatus(spec, w.status, pods, env),
          Some(NextPool(w.pool, spec)),
          Applied(w.sets, WantedSets(spec, w.status, pods, env), |spec.types|),
          Applied(w.services, WantedServices(spec, w.status), |spec.types|))
  }

  /** What the API server answers during one `reconcile`. */
  datatype MachineApi =
    MachineApi(pool: Answer, rollout: nat -> Answer, service: nat -> Answer, listFails: nat -> bool, statusFails: bool)

  ghost predicate Answering(api: MachineApi) {
    && api.pool == Accepted
    && (forall i :: api.rollout(i) == Accepted)
    && (forall i :: api.service(i) == Accepted)
    && (forall i :: !api.listFails(i))
    && !api.statusFails
  }

  function PoolStep(record: Option<PoolRecord>, spec: MachineSpec, answer: Answer): (Option<PoolRecord>, bool) {
    var next := Some(NextPool(record, spec));
    if answer == Refused then (record, false) else (next, answer == Accepted || next == record)
  }

  predicate Listed(names: seq<string>, listFails: nat -> bool) {
    forall i :: 0 <= i < |names| ==> !listFails(i)
  }

  /** The status is written only when it changes. */
  function StatusStep(
      spec: MachineSpec, status: seq<Available>, pods: seq<Pod>, env: Env,
      listFails: nat -> bool, statusFails: bool): (seq<Available>, bool) {
    var names := EntryNames(spec, status);
    if !Readable(spec.group, names, pods, env) || !Listed(names, listFails) then (status, false)
    else
      var next := FreshStatus(spec, names, pods, env);
      if next != status && statusFails then (status, false) else (next, true)
  }

  /** One `reconcile`, whatever the API answers; the first error ends it. */
  function Attempt(spec: MachineSpec, pods: seq<Pod>, env: Env, api: MachineApi, w: World): (World, bool) {
    var (pool, pooled) := PoolStep(w.pool, spec, api.pool);
    var (sets, rolled) :=
      if pooled then Rollout(w.sets, WantedSets(spec, w.status, pods, env), api.rollout, 0) else (w.sets, false);
    var (services, served) :=
      if rolled then Rollout(w.services, WantedServices(spec, w.status), api.service, 0) else (w.services, false);
    var (status, ok) :=
      if served then StatusStep(spec, w.status, pods, env, api.listFails, api.statusFails) else (w.status, false);
    (World(status, pool, sets, services), ok)
  }

  // ----- the controller -----

  lemma WrapStep(x: int)
    ensures Wrap32(Wrap32(x) + 1) == Wrap32(x + 1)
    ensures Fits32(x) ==> Wrap32(x) == x
  {
  }

  lemma CountNext(pods: seq<Pod>, n: nat, c: Counter, group: string, name: string, env: Env)
    requires n < |pods|
    ensures Count(pods[..n + 1], c, group, name, env)
         == Count(pods[..n], c, group, name, env) + if CountsIn(pods[n], c, group, name, env) then 1 else 0
  {
    assert pods[..n + 1] == pods[..n] + [pods[n]];
    CountConcat(pods[..n], [pods[n]], c, group, name, env);
    CountOne(pods[n], c, group, name, env);
  }

  /** A counter on to the next pod, in int32. */
  lemma WrapNext(pods: seq<Pod>, n: nat, c: Counter, group: string, name: string, env: Env)
    requires n < |pods|
    ensures var before := Wrap32(Count(pods[..n], c, group, name, env));
      Wrap32(Count(pods[..n + 1], c, group, name, env))
        == if CountsIn(pods[n], c, group, name, env) then Wrap32(before + 1) else before
  {
    CountNext(pods, n, c, group, name, env);
    WrapStep(Count(pods[..n], c, group, name, env));
  }

  lemma UnstockedNext(merged: seq<string>, stock: seq<string>, names: seq<string>, n: nat)
    requires n < |names|
    ensures merged + Unstocked(stock, names[n..])
         == (if names[n] in stock then merged else merged + [names[n]]) + Unstocked(stock, names[n + 1..])
  {
    assert names[n..][1..] == names[n + 1..];
  }

  class MachineReconciler {
    var spec: MachineSpec
    var status: seq<Available>
    var pool: Option<PoolRecord>
    var statefulSets: StatefulSets
    var services: Services

    constructor (spec: MachineSpec, w: World)
      ensures this.spec == spec && Value() == w
    {
      this.spec, status, pool, statefulSets, services := spec, w.status, w.pool, w.sets, w.services;
    }

    function Value(): World
      reads this
    {
      World(status, pool, statefulSets, services)
    }

    /** `reconcileMachineNodePool`. */
    method ReconcileMachineNodePool(answer: Answer) returns (ok: bool)
      modifies this`pool
      ensures (pool, ok) == PoolStep(old(pool), spec, answer)
    {
      if answer == Refused {
        return false;
      }
      var origin := pool;
      var record := if origin.Some? then origin.value else BLANK_POOL;
      var known := StockMap(record.stock);
      if MACHINE_GROUP_KEY !in record.labels {
        record := record.(labels := record.labels[MACHINE_GROUP_KEY := spec.group]);
      }
      record := record.(group := spec.group);
      record := record.(nodePool := spec.nodePool);
      ghost var names := TypeNames(spec.types);
      var stock := record.stock;
      for n := 0 to |spec.types|
        invariant stock + Unstocked(record.stock, names[n..]) == MergeStock(record.stock, names)
      {
        UnstockedNext(stock, record.stock, names, n);
        if spec.types[n].name in known {
          continue;
        }
        stock := stock + [spec.types[n].name];
      }
      assert names[|spec.types|..] == [] && stock + [] == stock;
      record := record.(stock := stock);
      assert record == NextPool(origin, spec);
      ok := answer == Accepted || origin == Some(record);
      pool := Some(record);
    }

    method StockMap(stock: seq<string>) returns (known: set<string>)
      ensures forall k :: k in known <==> k in stock
    {
      known := {};
      for n := 0 to |stock|
        invariant forall k :: k in known <==> k in stock[..n]
      {
        assert stock[..n + 1] == stock[..n] + [stock[n]];
        if stock[n] in known {
          continue;
        }
        known := known + {stock[n]};
      }
      assert stock[..|stock|] == stock;
    }

    /** `getUnscheduledPodNum`. */
    method UnscheduledPodNum(name: string, pods: seq<Pod>, env: Env) returns (num: int)
      ensures num == Wrap32(Count(pods, Unscheduled, spec.group, name, env))
    {
      num := 0;
      for n := 0 to |pods|
        invariant num == Wrap32(Count(pods[..n], Unscheduled, spec.group, name, env))
      {
        var p := pods[n];
        WrapNext(pods, n, Unscheduled, spec.group, name, env);
        if p.namespace != env.core || !HasRole(p, spec.group, name, ROLE_RESERVATION) {
          continue;
        }
        if p.terminating {
          continue;
        }
        if p.phase != Pending {
          continue;
        }
        if p.nodeName != "" {
          continue;
        }
        var conditions := GetPodConditionTypeMap(p.conditions);
        if POD_SCHEDULED !in conditions {
          continue;
        }
        var scheduled := conditions[POD_SCHEDULED];
        if scheduled.reason == UNSCHEDULABLE && scheduled.status == CONDITION_FALSE {
          num := Wrap32(num + 1);
        }
      }
      assert pods[..|pods|] == pods;
    }

    /** The set of machine types the node pool refers to. */
    method ReferencedTypes() returns (referenced: set<string>)
      ensures forall name :: name in referenced <==> Referenced(spec.nodePool, name)
    {
      referenced := {};
      for n := 0 to |spec.nodePool|
        invariant forall name :: name in referenced <==> exists i :: 0 <= i < n && name in spec.nodePool[i].types
      {
        var types := spec.nodePool[n].types;
        referenced := referenced + set t | t in types;
        assert forall name :: name in types <==> name in spec.nodePool[n].types;
      }
    }

    method GetMachineTypeUsage(name: string) returns (usage: Option<Usage>)
      ensures usage == FindUsage(status, name)
    {
      for n := 0 to |status|
        invariant FindUsage(status, name) == FindUsage(status[n..], name)
      {
        assert status[n..][0] == status[n] && status[n..][1..] == status[n + 1..];
        if status[n].name != name {
          continue;
        }
        return Some(status[n].usage);
      }
      return None;
    }

    method StsReplica(usage: Usage, unscheduled: int) returns (replicas: int)
      ensures replicas == Replicas(usage, unscheduled) >= 0
    {
      replicas := Wrap32(usage.maximum - Wrap32(Wrap32(usage.used + usage.waiting) + unscheduled));
      if replicas < 0 {
        replicas := 0;
      }
    }

    /** `reconcileStatefulSet`. */
    method ReconcileStatefulSet(pods: seq<Pod>, env: Env, answer: nat -> Answer) returns (ok: bool)
      modifies this`statefulSets
      ensures (statefulSets, ok) == Rollout(old(statefulSets), WantedSets(spec, status, pods, env), answer, 0)
    {
      ghost var wanted := WantedSets(spec, status, pods, env);
      var referenced := ReferencedTypes();
      for i := 0 to |spec.types|
        invariant Rollout(statefulSets, wanted, answer, i) == Rollout(old(statefulSets), wanted, answer, 0)
      {
        var mt := spec.types[i];
        if mt.name !in referenced {
          continue;
        }
        var usage := GetMachineTypeUsage(mt.name);
        if usage == None {
          continue;
        }
        if answer(i) == Refused {
          return false;
        }
        var unscheduled := UnscheduledPodNum(mt.name, pods, env);
        var replicas := StsReplica(usage.value, unscheduled);
        var name := ReservationName(spec.group, mt.name);
        var sts := new StatefulSetObject(if name in statefulSets then statefulSets[name] else BLANK_SET);
        sts.Generate(mt, spec.group, replicas);
        var generated := sts.Value();
        assert WantedSet(spec, status, pods, env, i) == Some(generated);
        var before := statefulSets;
        statefulSets := statefulSets[name := generated];
        if answer(i) == Unreported && statefulSets != before {
          return false;
        }
      }
      return true;
    }

    /** `reconcileService`. */
    method ReconcileService(answer: nat -> Answer) returns (ok: bool)
      modifies this`services
      ensures (services, ok) == Rollout(old(services), WantedServices(spec, status), answer, 0)
    {
      ghost var wanted := WantedServices(spec, status);
      for i := 0 to |spec.types|
        invariant Rollout(services, wanted, answer, i) == Rollout(old(services), wanted, answer, 0)
      {
        var mt := spec.types[i];
        var usage := GetMachineTypeUsage(mt.name);
        if usage == None {
          continue;
        }
        if answer(i) == Refused {
          return false;
        }
        var name := ReservationName(spec.group, mt.name);
        var before := services;
        services := services[name := ReservationService(mt.name, spec.group)];
        if answer(i) == Unreported && services != before {
          return false;
        }
      }
      return true;
    }

    method CountReserved(name: string, pods: seq<Pod>, env: Env) returns (reserved: int)
      ensures reserved == Wrap32(Count(pods, Reserved, spec.group, name, env))
    {
      reserved := 0;
      for n := 0 to |pods|
        invariant reserved == Wrap32(Count(pods[..n], Reserved, spec.group, name, env))
      {
        var po := pods[n];
        WrapNext(pods, n, Reserved, spec.group, name, env);
        if !HasRole(po, spec.group, name, ROLE_RESERVATION) {
          continue;
        }
        var conditions := GetPodConditionTypeMap(po.conditions);
        if po.terminating {
          continue;
        }
        var ready := CONTAINERS_READY in conditions && conditions[CONTAINERS_READY].status == CONDITION_TRUE;
        if po.phase == Running && ready {
          reserved := Wrap32(reserved + 1);
        } else if po.phase == Pending && po.nodeName != "" {
          reserved := Wrap32(reserved + 1);
        }
      }
      assert pods[..|pods|] == pods;
    }

    /** Which counter a live guest goes to. */
    method ClassifyGuest(po: Pod) returns (placed: bool, waits: bool)
      ensures placed <==> Up(po)
      ensures waits <==> Unplaced(po)
      ensures !(placed && waits)
    {
      placed, waits := false, false;
      var conditions := GetPodConditionTypeMap(po.conditions);
      var ready := CONTAINERS_READY in conditions && conditions[CONTAINERS_READY].status == CONDITION_TRUE;
      if po.phase == Running && ready {
        placed := true;
      } else if po.phase == Pending {
        if po.nodeName != "" {
          placed := true;
        } else if POD_SCHEDULED in conditions {
          var scheduled := conditions[POD_SCHEDULED];
          if scheduled.reason == UNSCHEDULABLE && scheduled.status == CONDITION_FALSE {
            waits := true;
          }
        }
      }
    }

    /** The guest loop of `updateStatus`; it fails at the first guest whose namespace is unreadable. */
    method CountGuests(name: string, pods: seq<Pod>, env: Env) returns (ok: bool, used: int, waiting: int)
      ensures ok <==> GuestsReadable(spec.group, name, pods, env)
      ensures ok ==> used == Wrap32(Count(pods, Used, spec.group, name, env))
      ensures ok ==> waiting == Wrap32(Count(pods, Waiting, spec.group, name, env))
    {
      used, waiting := 0, 0;
      for n := 0 to |pods|
        invariant forall k :: 0 <= k < n && HasRole(pods[k], spec.group, name, ROLE_GUEST) ==>
          pods[k].namespace in env.namespaces
        invariant used == Wrap32(Count(pods[..n], Used, spec.group, name, env))
        invariant waiting == Wrap32(Count(pods[..n], Waiting, spec.group, name, env))
      {
        var po := pods[n];
        WrapNext(pods, n, Used, spec.group, name, env);
        WrapNext(pods, n, Waiting, spec.group, name, env);
        if !HasRole(po, spec.group, name, ROLE_GUEST) {
          continue;
        }
        if po.namespace !in env.namespaces {
          ok := false;
          return;
        }
        if Lookup(env.namespaces[po.namespace], INJECTION_KEY) != INJECTION_ENABLED {
          continue;
        }
        if po.terminating {
          continue;
        }
        var placed, waits := ClassifyGuest(po);
        if placed {
          used := Wrap32(used + 1);
        } else if waits {
          waiting := Wrap32(waiting + 1);
        }
      }
      ok := true;
      assert pods[..|pods|] == pods;
    }

    method DesiredNum(name: string) returns (num: int)
      ensures num == Desired(spec.types, name)
    {
      num := 0;
      for n := 0 to |spec.types|
        invariant num == Desired(spec.types[..n], name)
      {
        assert spec.types[..n + 1][..n] == spec.types[..n];
        if spec.types[n].name == name {
          num := spec.types[n].available;
        }
      }
      assert spec.types[..|spec.types|] == spec.types;
    }

    /** The entries of `updateStatus` before counting: types of the spec without one get one. */
    method AddMissing() returns (entries: seq<Available>)
      ensures StatusNames(entries) == EntryNames(spec, status)
    {
      ghost var known, names := StatusNames(status), TypeNames(spec.types);
      entries := status;
      for n := 0 to |spec.types|
        invariant StatusNames(entries) + Unstocked(known, names[n..]) == MergeStock(known, names)
      {
        assert names[n..][1..] == names[n + 1..];
        var mt := spec.types[n];
        if exists i :: 0 <= i < |status| && status[i].name == mt.name {
          ghost var i :| 0 <= i < |status| && status[i].name == mt.name;
          assert known[i] == mt.name;
          continue;
        }
        assert forall i :: 0 <= i < |known| ==> known[i] != mt.name;
        ghost var before := entries;
        entries := entries + [Available(mt.name, Usage(mt.available, 0, 0, 0))];
        assert StatusNames(entries) == StatusNames(before) + [mt.name];
      }
    }

    /** The counting loop of `updateStatus` over the status entries. */
    method FillEntries(entries: seq<Available>, pods: seq<Pod>, env: Env, listFails: nat -> bool)
      returns (ok: bool, filled: seq<Available>)
      ensures ok <==> Readable(spec.group, StatusNames(entries), pods, env) && Listed(StatusNames(entries), listFails)
      ensures ok ==> filled == FreshStatus(spec, StatusNames(entries), pods, env)
    {
      ghost var names := StatusNames(entries);
      ghost var target := FreshStatus(spec, names, pods, env);
      filled := [];
      for i := 0 to |entries|
        invariant forall j :: 0 <= j < i ==> GuestsReadable(spec.group, names[j], pods, env) && !listFails(j)
        invariant filled == target[..i]
      {
        var name := entries[i].name;
        assert names[i] == name;
        if listFails(i) {
          return false, [];
        }
        var reserved := CountReserved(name, pods, env);
        var readable, used, waiting := CountGuests(name, pods, env);
        if !readable {
          return false, [];
        }
        var maximum := DesiredNum(name);
        filled := filled + [Available(name, Usage(maximum, reserved, used, waiting))];
        assert target[i] == Available(name, Usage(maximum, reserved, used, waiting));
      }
      ok := true;
    }

    /** `updateStatus`: a failing list, an unreadable namespace or a refused write ends it with nothing
        persisted. */
    method UpdateStatus(pods: seq<Pod>, env: Env, listFails: nat -> bool, statusFails: bool) returns (ok: bool)
      modifies this`status
      ensures (status, ok) == StatusStep(spec, old(status), pods, env, listFails, statusFails)
    {
      var entries := AddMissing();
      var filled;
      ok, filled := FillEntries(entries, pods, env, listFails);
      if ok && filled != status {
        if statusFails {
          return false;
        }
        status := filled;
      }
    }

    /** `reconcile`. */
    method Reconcile(pods: seq<Pod>, env: Env, api: MachineApi) returns (ok: bool)
      modifies this
      ensures spec == old(spec)
      ensures (Value(), ok) == Attempt(spec, pods, env, api, old(Value()))
    {
      ok := ReconcileMachineNodePool(api.pool);
      if !ok {
        return;
      }
      ok := ReconcileStatefulSet(pods, env, api.rollout);
      if !ok {
        return;
      }
      ok := ReconcileService(api.service);
      if !ok {
        return;
      }
      ok := UpdateStatus(pods, env, api.listFails, api.statusFails);
    }
  }
}
