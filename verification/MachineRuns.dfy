/** What sequences of Machine reconciliations achieve: stable counters and replicas, conserved
    reservations, and a history of machine types. */
module MachineRuns {
  import opened Objects
  import opened Generators
  import opened Pods
  import opened Rollouts
  import opened MachineController

  // ----- reservations are conserved -----

  function Max(a: int, b: int): int {
    if a < b then b else a
  }

  /** Demand on a type, in pods: guests running or waiting, and reservations without a node. */
  function Demand(pods: seq<Pod>, group: string, name: string, env: Env): nat {
    Count(pods, Used, group, name, env) + Count(pods, Waiting, group, name, env)
    + Count(pods, Unscheduled, group, name, env)
  }

  /** Each field of a refreshed usage is the size of its own set of pods. */
  lemma UsageIsCardinality(spec: MachineSpec, name: string, pods: seq<Pod>, env: Env)
    requires |pods| < 0x8000_0000
    ensures var usage := FreshUsage(spec, name, pods, env);
      && usage.reserved == |Members(pods, Reserved, spec.group, name, env)|
      && usage.used == |Members(pods, Used, spec.group, name, env)|
      && usage.waiting == |Members(pods, Waiting, spec.group, name, env)|
  {
    forall c ensures Wrap32(Count(pods, c, spec.group, name, env)) == |Members(pods, c, spec.group, name, env)| {
      CountIsCardinality(pods, c, spec.group, name, env);
      CountWithinPods(pods, c, spec.group, name, env);
      WrapStep(Count(pods, c, spec.group, name, env));
    }
  }

  lemma CountWithinPods(pods: seq<Pod>, c: Counter, group: string, name: string, env: Env)
    ensures Count(pods, c, group, name, env) <= |pods|
  {
  }

  lemma DemandFits(pods: seq<Pod>, group: string, name: string, env: Env)
    ensures Demand(pods, group, name, env) <= |pods|
  {
    CountersPartition(pods, group, [name], env);
    assert [name][1..] == [];
    assert Total(pods, group, [name], env) >= Demand(pods, group, name, env) + Total(pods, group, [], env);
  }

  /** With fewer than 2^31 pods no int32 sum overflows: replicas never exceed the maximum, and
      replicas and demand together make up the maximum, or the demand if that is more. */
  lemma ReplicasConserve(spec: MachineSpec, name: string, pods: seq<Pod>, env: Env)
    requires |pods| < 0x8000_0000 && 0 <= Desired(spec.types, name) < 0x8000_0000
    ensures var maximum := Desired(spec.types, name);
      var demand := Demand(pods, spec.group, name, env);
      var unscheduled := Wrap32(Count(pods, Unscheduled, spec.group, name, env));
      var replicas := Replicas(FreshUsage(spec, name, pods, env), unscheduled);
      && 0 <= replicas <= maximum
      && replicas == Max(0, maximum - demand)
      && replicas + demand == Max(maximum, demand)
  {
    DemandFits(pods, spec.group, name, env);
    NoOverflow(Desired(spec.types, name),
      Wrap32(Count(pods, Reserved, spec.group, name, env)),
      Count(pods, Used, spec.group, name, env),
      Count(pods, Waiting, spec.group, name, env),
      Count(pods, Unscheduled, spec.group, name, env));
  }

  lemma NoOverflow(maximum: int, reserved: int, used: nat, waiting: nat, unscheduled: nat)
    requires 0 <= maximum < 0x8000_0000 && used + waiting + unscheduled < 0x8000_0000
    ensures Replicas(Usage(maximum, reserved, Wrap32(used), Wrap32(waiting)), Wrap32(unscheduled))
         == Max(0, maximum - (used + waiting + unscheduled))
  {
    WrapStep(used);
    WrapStep(waiting);
    WrapStep(unscheduled);
    WrapStep(used + waiting);
    WrapStep(used + waiting + unscheduled);
    WrapStep(maximum - (used + waiting + unscheduled));
  }

  /** The pod carries group, type and the guest role. */
  predicate GuestOf(p: Pod, group: string, name: string) {
    && MACHINE_GROUP_KEY in p.labels && p.labels[MACHINE_GROUP_KEY] == group
    && MACHINE_TYPE_KEY in p.labels && p.labels[MACHINE_TYPE_KEY] == name
    && POD_ROLE_KEY in p.labels && p.labels[POD_ROLE_KEY] == ROLE_GUEST
  }

  /** The namespaces that have to be readable are those of the guests of the listed types, live or not. */
  lemma ReadableIs(group: string, names: seq<string>, pods: seq<Pod>, env: Env)
    ensures Readable(group, names, pods, env) <==>
      forall p, name :: p in pods && name in names && GuestOf(p, group, name) ==> p.namespace in env.namespaces
  {
    forall p: Pod, name: string ensures HasRole(p, group, name, ROLE_GUEST) <==> GuestOf(p, group, name) {
      HasRoleIs(p, group, name, ROLE_GUEST);
    }
    if Readable(group, names, pods, env) {
      forall p, name | p in pods && name in names && GuestOf(p, group, name)
        ensures p.namespace in env.namespaces
      {
        var i :| 0 <= i < |names| && names[i] == name;
        assert GuestsReadable(group, names[i], pods, env);
      }
    } else {
      var i :| 0 <= i < |names| && !GuestsReadable(group, names[i], pods, env);
      var k :| 0 <= k < |pods| && HasRole(pods[k], group, names[i], ROLE_GUEST)
        && pods[k].namespace !in env.namespaces;
      assert GuestOf(pods[k], group, names[i]) && pods[k] in pods && names[i] in names;
    }
  }

  // ----- two passes stabilise -----

  lemma UnstockedIn(stock: seq<string>, names: seq<string>, x: string)
    ensures x in Unstocked(stock, names) <==> x in names && x !in stock
  {
    if names != [] {
      UnstockedIn(stock, names[1..], x);
      assert names == [names[0]] + names[1..];
    }
  }

  lemma NothingUnstocked(stock: seq<string>, names: seq<string>)
    requires forall x :: x in names ==> x in stock
    ensures MergeStock(stock, names) == stock
  {
    if names != [] {
      NothingUnstocked(stock, names[1..]);
      assert names[0] in names;
    }
    assert Unstocked(stock, names) == [];
  }

  lemma MergeTwice(stock: seq<string>, names: seq<string>)
    ensures MergeStock(MergeStock(stock, names), names) == MergeStock(stock, names)
    ensures forall x :: x in names ==> x in MergeStock(stock, names)
  {
    forall x | x in names ensures x in MergeStock(stock, names) {
      UnstockedIn(stock, names, x);
    }
    NothingUnstocked(MergeStock(stock, names), names);
  }

  lemma PoolSettles(record: Option<PoolRecord>, spec: MachineSpec)
    ensures NextPool(Some(NextPool(record, spec)), spec) == NextPool(record, spec)
  {
    var origin := if record.Some? then record.value else BLANK_POOL;
    MergeTwice(origin.stock, TypeNames(spec.types));
  }

  lemma {:induction false} FreshIsFound(spec: MachineSpec, names: seq<string>, pods: seq<Pod>, env: Env, name: string)
    requires name in names
    ensures FindUsage(FreshStatus(spec, names, pods, env), name) == Some(FreshUsage(spec, name, pods, env))
  {
    assert FreshStatus(spec, names, pods, env)[0].name == names[0];
    if names[0] != name {
      FreshIsFound(spec, names[1..], pods, env, name);
      assert FreshStatus(spec, names, pods, env)[1..] == FreshStatus(spec, names[1..], pods, env);
    }
  }

  /** A refreshed status is refreshed again to itself. */
  lemma StatusSettles(spec: MachineSpec, status: seq<Available>, pods: seq<Pod>, env: Env)
    requires Readable(spec.group, EntryNames(spec, status), pods, env)
    ensures var next := NextStatus(spec, status, pods, env);
      && next == FreshStatus(spec, EntryNames(spec, status), pods, env)
      && EntryNames(spec, next) == EntryNames(spec, status)
      && NextStatus(spec, next, pods, env) == next
  {
    var names := EntryNames(spec, status);
    var next := FreshStatus(spec, names, pods, env);
    assert StatusNames(next) == names;
    MergeTwice(StatusNames(status), TypeNames(spec.types));
  }

  lemma {:induction false} WantedKey(
      sets: StatefulSets, spec: MachineSpec, status: seq<Available>, pods: seq<Pod>, env: Env, n: nat, i: nat)
    requires Distinct(TypeNames(spec.types)) && i < n <= |spec.types|
    requires WantedSet(spec, status, pods, env, i).Some?
    ensures var key := ReservationName(spec.group, spec.types[i].name);
      var after := Applied(sets, WantedSets(spec, status, pods, env), n);
      key in after && after[key] == WantedSet(spec, status, pods, env, i).value
  {
    if i < n - 1 {
      WantedKey(sets, spec, status, pods, env, n - 1, i);
      assert TypeNames(spec.types)[i] != TypeNames(spec.types)[n - 1];
      ReservationNameInjective(spec.group, spec.types[i].name, spec.types[n - 1].name);
    }
  }

  /** Whatever a pass with any status writes, a pass with a complete status writes as well. */
  lemma CompleteCovers(
      spec: MachineSpec, status: seq<Available>, pods: seq<Pod>, env: Env,
      complete: seq<Available>, pods': seq<Pod>, env': Env)
    requires forall i :: 0 <= i < |spec.types| ==> FindUsage(complete, spec.types[i].name).Some?
    ensures forall i :: 0 <= i < |spec.types| && WantedSets(spec, status, pods, env)[i].Some? ==>
      Covers(WantedSets(spec, complete, pods', env'), |spec.types|, WantedSets(spec, status, pods, env)[i].value.name)
    ensures forall i :: 0 <= i < |spec.types| && WantedServices(spec, status)[i].Some? ==>
      Covers(WantedServices(spec, complete), |spec.types|, WantedServices(spec, status)[i].value.name)
  {
    var earlier, later := WantedSets(spec, status, pods, env), WantedSets(spec, complete, pods', env');
    forall i | 0 <= i < |spec.types| && earlier[i].Some?
      ensures Covers(later, |spec.types|, earlier[i].value.name)
    {
      assert WantedSet(spec, complete, pods', env', i).Some?;
      assert later[i].value.name == earlier[i].value.name;
    }
    forall i | 0 <= i < |spec.types| && WantedServices(spec, status)[i].Some?
      ensures Covers(WantedServices(spec, complete), |spec.types|, WantedServices(spec, status)[i].value.name)
    {
      assert WantedServices(spec, complete)[i].value.name == WantedServices(spec, status)[i].value.name;
    }
  }

  lemma FreshIsComplete(spec: MachineSpec, status: seq<Available>, pods: seq<Pod>, env: Env)
    ensures forall i :: 0 <= i < |spec.types| ==>
      FindUsage(FreshStatus(spec, EntryNames(spec, status), pods, env), spec.types[i].name).Some?
  {
    MergeTwice(StatusNames(status), TypeNames(spec.types));
    forall i | 0 <= i < |spec.types|
      ensures FindUsage(FreshStatus(spec, EntryNames(spec, status), pods, env), spec.types[i].name).Some?
    {
      assert TypeNames(spec.types)[i] == spec.types[i].name;
      FreshIsFound(spec, EntryNames(spec, status), pods, env, spec.types[i].name);
    }
  }

  /** Where two passes lead: a world given by the entry names, the pool and the objects of the first. */
  function Goal(spec: MachineSpec, pods: seq<Pod>, env: Env, w: World): World {
    var current := FreshStatus(spec, EntryNames(spec, w.status), pods, env);
    World(current,
          Some(NextPool(w.pool, spec)),
          Applied(w.sets, WantedSets(spec, current, pods, env), |spec.types|),
          Applied(w.services, WantedServices(spec, current), |spec.types|))
  }

  /** Each part of the world an attempt leaves is the old one or what its own step makes of that. */
  lemma AttemptParts(spec: MachineSpec, pods: seq<Pod>, env: Env, api: MachineApi, w: World)
    ensures var next := Attempt(spec, pods, env, api, w).0;
      && (next.status == w.status || next.status == FreshStatus(spec, EntryNames(spec, w.status), pods, env))
      && (next.pool == w.pool || next.pool == Some(NextPool(w.pool, spec)))
      && (next.sets == w.sets
          || next.sets == Rollout(w.sets, WantedSets(spec, w.status, pods, env), api.rollout, 0).0)
      && (next.services == w.services
          || next.services == Rollout(w.services, WantedServices(spec, w.status), api.service, 0).0)
  {
  }

  lemma AttemptKeepsNames(spec: MachineSpec, pods: seq<Pod>, env: Env, api: MachineApi, w: World)
    ensures EntryNames(spec, Attempt(spec, pods, env, api, w).0.status) == EntryNames(spec, w.status)
  {
    AttemptParts(spec, pods, env, api, w);
    MergeTwice(StatusNames(w.status), TypeNames(spec.types));
    assert StatusNames(FreshStatus(spec, EntryNames(spec, w.status), pods, env)) == EntryNames(spec, w.status);
  }

  /** Any attempt, with any pods, namespaces and answers, leads nowhere else than its start. */
  lemma AttemptKeepsGoal(
      spec: MachineSpec, pods: seq<Pod>, env: Env, api: MachineApi, w: World, pods': seq<Pod>, env': Env)
    ensures Goal(spec, pods', env', Attempt(spec, pods, env, api, w).0) == Goal(spec, pods', env', w)
  {
    AttemptParts(spec, pods, env, api, w);
    AttemptKeepsNames(spec, pods, env, api, w);
    PoolSettles(w.pool, spec);
    var current := FreshStatus(spec, EntryNames(spec, w.status), pods', env');
    FreshIsComplete(spec, w.status, pods', env');
    CompleteCovers(spec, w.status, pods, env, current, pods', env');
    RolloutHeals(w.sets, WantedSets(spec, w.status, pods, env), api.rollout, 0, WantedSets(spec, current, pods', env'));
    RolloutHeals(w.services, WantedServices(spec, w.status), api.service, 0, WantedServices(spec, current));
  }

  /** With an API that answers, the attempt is the pass. */
  lemma AnsweredAttempt(spec: MachineSpec, pods: seq<Pod>, env: Env, api: MachineApi, w: World)
    requires Answering(api)
    ensures Attempt(spec, pods, env, api, w)
         == (Pass(spec, pods, env, w), Readable(spec.group, EntryNames(spec, w.status), pods, env))
  {
    RolloutCompletes(w.sets, w.sets, WantedSets(spec, w.status, pods, env), api.rollout, 0);
    RolloutCompletes(w.services, w.services, WantedServices(spec, w.status), api.service, 0);
  }

  const ANSWERS: MachineApi :=
    MachineApi(Accepted, (i: nat) => Accepted, (i: nat) => Accepted, (i: nat) => false, false)

  /** Two passes get there. */
  lemma TwoPassesReachGoal(spec: MachineSpec, pods: seq<Pod>, env: Env, w: World)
    requires Readable(spec.group, EntryNames(spec, w.status), pods, env)
    ensures Pass(spec, pods, env, Pass(spec, pods, env, w)) == Goal(spec, pods, env, w)
    ensures EntryNames(spec, Pass(spec, pods, env, w).status) == EntryNames(spec, w.status)
  {
    var w1 := Pass(spec, pods, env, w);
    AnsweredAttempt(spec, pods, env, ANSWERS, w);
    AttemptKeepsNames(spec, pods, env, ANSWERS, w);
    AttemptKeepsGoal(spec, pods, env, ANSWERS, w, pods, env);
    StatusSettles(spec, w.status, pods, env);
  }

  /** With pods and spec held fixed, two passes settle everything: from then on no pass changes
      status, node pool, StatefulSets or Services, and each type a node pool refers to has a
      reservation sized by the current counts, although every pass sizes it by the status of the pass
      before. */
  lemma TwoPassesSettle(spec: MachineSpec, pods: seq<Pod>, env: Env, w: World)
    requires Distinct(TypeNames(spec.types))
    requires Readable(spec.group, EntryNames(spec, w.status), pods, env)
    ensures var settled := Pass(spec, pods, env, Pass(spec, pods, env, w));
      && Pass(spec, pods, env, settled) == settled
      && settled.status == FreshStatus(spec, EntryNames(spec, w.status), pods, env)
      && forall i {:trigger spec.types[i]} :: 0 <= i < |spec.types| && Referenced(spec.nodePool, spec.types[i].name) ==>
        Sized(settled.sets, spec, spec.types[i], pods, env)
  {
    var w1 := Pass(spec, pods, env, w);
    TwoPassesReachGoal(spec, pods, env, w);
    TwoPassesReachGoal(spec, pods, env, w1);
    AnsweredAttempt(spec, pods, env, ANSWERS, w);
    AttemptKeepsGoal(spec, pods, env, ANSWERS, w, pods, env);
    forall i {:trigger spec.types[i]} | 0 <= i < |spec.types| && Referenced(spec.nodePool, spec.types[i].name)
      ensures Sized(Goal(spec, pods, env, w).sets, spec, spec.types[i], pods, env)
    {
      GoalIsSized(spec, pods, env, w, i);
    }
  }

  lemma GoalIsSized(spec: MachineSpec, pods: seq<Pod>, env: Env, w: World, i: nat)
    requires Distinct(TypeNames(spec.types)) && i < |spec.types| && Referenced(spec.nodePool, spec.types[i].name)
    ensures Sized(Goal(spec, pods, env, w).sets, spec, spec.types[i], pods, env)
  {
    var names := EntryNames(spec, w.status);
    var current := FreshStatus(spec, names, pods, env);
    MergeTwice(StatusNames(w.status), TypeNames(spec.types));
    assert TypeNames(spec.types)[i] == spec.types[i].name;
    FreshIsFound(spec, names, pods, env, spec.types[i].name);
    WantedKey(w.sets, spec, current, pods, env, |spec.types|, i);
  }

  /** And every type of the spec, named by a node pool or not, has its Service, in front of the pods that
      carry the labels of its reservations. */
  lemma EveryTypeIsServed(spec: MachineSpec, pods: seq<Pod>, env: Env, w: World, i: nat)
    requires Readable(spec.group, EntryNames(spec, w.status), pods, env) && i < |spec.types|
    ensures var services := Pass(spec, pods, env, Pass(spec, pods, env, w)).services;
      var key := ReservationName(spec.group, spec.types[i].name);
      && key in services
      && services[key].selector == RoleLabels(spec.group, spec.types[i].name, ROLE_RESERVATION)
      && services[key].ports == [80] && services[key].kind == "ClusterIP"
  {
    var current := FreshStatus(spec, EntryNames(spec, w.status), pods, env);
    var wanted, key := WantedServices(spec, current), ReservationName(spec.group, spec.types[i].name);
    TwoPassesReachGoal(spec, pods, env, w);
    FreshIsComplete(spec, w.status, pods, env);
    assert wanted[i].Some? && wanted[i].value.name == key;
    var j := AppliedHas(w.services, wanted, |wanted|, key);
    ReservationNameInjective(spec.group, spec.types[i].name, spec.types[j].name);
  }

  /** One earlier call of the controller. */
  datatype Try = Try(pods: seq<Pod>, env: Env, api: MachineApi)

  function Tries(spec: MachineSpec, tries: seq<Try>, w: World): World
    decreases |tries|
  {
    if tries == [] then w
    else Tries(spec, tries[1..], Attempt(spec, tries[0].pods, tries[0].env, tries[0].api, w).0)
  }

  /** Recovery: after any number of reconciliations, cut off anywhere by API errors and with any pods
      in between, two answered passes lead to the very world they would have led to at once. */
  lemma {:induction false} FaultsHeal(spec: MachineSpec, tries: seq<Try>, pods: seq<Pod>, env: Env, w: World)
    requires Readable(spec.group, EntryNames(spec, w.status), pods, env)
    ensures var late := Tries(spec, tries, w);
      Pass(spec, pods, env, Pass(spec, pods, env, late)) == Pass(spec, pods, env, Pass(spec, pods, env, w))
    decreases |tries|
  {
    if tries != [] {
      var t := tries[0];
      AttemptKeepsNames(spec, t.pods, t.env, t.api, w);
      AttemptKeepsGoal(spec, t.pods, t.env, t.api, w, pods, env);
      var next := Attempt(spec, t.pods, t.env, t.api, w).0;
      FaultsHeal(spec, tries[1..], pods, env, next);
      TwoPassesReachGoal(spec, pods, env, w);
      TwoPassesReachGoal(spec, pods, env, next);
    }
  }

  /** The reservation of a type exists and has the size its current counts call for. */
  ghost predicate Sized(sets: StatefulSets, spec: MachineSpec, mt: MachineType, pods: seq<Pod>, env: Env) {
    var key := ReservationName(spec.group, mt.name);
    var unscheduled := Wrap32(Count(pods, Unscheduled, spec.group, mt.name, env));
    && key in sets
    && sets[key] == ReservationSet(mt, spec.group, Replicas(FreshUsage(spec, mt.name, pods, env), unscheduled))
  }

  /** What the last type of a name offers is the maximum of the refreshed entry. */
  lemma {:induction false} DesiredIs(types: seq<MachineType>, i: nat)
    requires i < |types| && forall j :: i < j < |types| ==> types[j].name != types[i].name
    ensures Desired(types, types[i].name) == types[i].available
    decreases |types|
  {
    var n := |types| - 1;
    if i < n {
      DesiredIs(types[..n], i);
    }
  }

  /** The size in pods, for the API's bounds on `available`. */
  lemma SizedIs(sets: StatefulSets, spec: MachineSpec, i: nat, pods: seq<Pod>, env: Env)
    requires Distinct(TypeNames(spec.types)) && i < |spec.types|
    requires Sized(sets, spec, spec.types[i], pods, env)
    requires |pods| < 0x8000_0000 && 0 <= spec.types[i].available < 0x8000_0000
    ensures sets[ReservationName(spec.group, spec.types[i].name)].replicas
         == Max(0, spec.types[i].available - Demand(pods, spec.group, spec.types[i].name, env))
  {
    forall j | i < j < |spec.types| ensures spec.types[j].name != spec.types[i].name {
      assert TypeNames(spec.types)[i] != TypeNames(spec.types)[j];
    }
    DesiredIs(spec.types, i);
    ReplicasConserve(spec, spec.types[i].name, pods, env);
  }

  // ----- what one attempt does -----

  /** The first entry of a name is the one that is read. */
  lemma {:induction false} FindUsageFirst(status: seq<Available>, k: nat)
    requires k < |status| && forall j :: 0 <= j < k ==> status[j].name != status[k].name
    ensures FindUsage(status, status[k].name) == Some(status[k].usage)
  {
    if k > 0 {
      FindUsageFirst(status[1..], k - 1);
    }
  }

  /** A type that has left the spec keeps its entry, with a maximum of zero. */
  lemma DesiredOfNone(types: seq<MachineType>, name: string)
    requires forall i :: 0 <= i < |types| ==> types[i].name != name
    ensures Desired(types, name) == 0
  {
  }

  /** A refresh keeps every entry in its place and adds one for each type of the spec without. */
  lemma EntryNamesAre(spec: MachineSpec, status: seq<Available>)
    ensures var names := EntryNames(spec, status);
      && |status| <= |names|
      && (forall i :: 0 <= i < |status| ==> names[i] == status[i].name)
      && (forall i :: 0 <= i < |spec.types| ==> spec.types[i].name in names)
      && (forall i :: |status| <= i < |names| ==> names[i] in TypeNames(spec.types) && names[i] !in StatusNames(status))
  {
    var known, types := StatusNames(status), TypeNames(spec.types);
    var added := Unstocked(known, types);
    var names := known + added;
    forall i | 0 <= i < |spec.types| ensures spec.types[i].name in names {
      UnstockedIn(known, types, types[i]);
      assert types[i] in types;
    }
    forall i | |status| <= i < |names| ensures names[i] in types && names[i] !in known {
      assert added[i - |status|] in added;
      UnstockedIn(known, types, names[i]);
    }
  }

  /** An attempt that succeeds has done everything, and one that does not has left the status alone. */
  lemma AttemptDone(spec: MachineSpec, pods: seq<Pod>, env: Env, api: MachineApi, w: World)
    ensures var (next, ok) := Attempt(spec, pods, env, api, w);
      && (ok ==> next == Pass(spec, pods, env, w))
      && (!ok ==> next.status == w.status)
  {
    var n := RolloutStops(w.sets, w.sets, WantedSets(spec, w.status, pods, env), api.rollout, 0);
    var m := RolloutStops(w.services, w.services, WantedServices(spec, w.status), api.service, 0);
  }

  /** A refused pool leaves everything alone, one whose change goes unreported all but itself, a refused
      StatefulSet the Services; a refused call in any step, a failing list, an unreadable namespace and a
      refused write of a changed status each make the attempt fail. */
  lemma AttemptRefused(spec: MachineSpec, pods: seq<Pod>, env: Env, api: MachineApi, w: World)
    ensures api.pool == Refused ==> Attempt(spec, pods, env, api, w) == (w, false)
    ensures api.pool == Unreported && w.pool != Some(NextPool(w.pool, spec)) ==>
      Attempt(spec, pods, env, api, w) == (w.(pool := Some(NextPool(w.pool, spec))), false)
    ensures RefusesOne(WantedSets(spec, w.status, pods, env), api.rollout) ==>
      !Attempt(spec, pods, env, api, w).1 && Attempt(spec, pods, env, api, w).0.services == w.services
    ensures RefusesOne(WantedServices(spec, w.status), api.service) ==> !Attempt(spec, pods, env, api, w).1
    ensures var names := EntryNames(spec, w.status);
      || !Readable(spec.group, names, pods, env)
      || (exists k :: 0 <= k < |names| && api.listFails(k))
      || (api.statusFails && FreshStatus(spec, names, pods, env) != w.status)
      ==> !Attempt(spec, pods, env, api, w).1
  {
    var n := RolloutStops(w.sets, w.sets, WantedSets(spec, w.status, pods, env), api.rollout, 0);
    var m := RolloutStops(w.services, w.services, WantedServices(spec, w.status), api.service, 0);
  }

  /** A type that no node pool entry names never gets a StatefulSet, nor loses one, whatever the API
      answers; nor does one without a status entry, which gets no Service either. */
  lemma UnwantedKeepsKey(
      spec: MachineSpec, pods: seq<Pod>, env: Env, api: MachineApi, w: World, name: string)
    ensures var key := ReservationName(spec.group, name);
      var next := Attempt(spec, pods, env, api, w).0;
      var unnamed := forall i, q :: 0 <= i < |spec.nodePool| && 0 <= q < |spec.nodePool[i].types| ==>
        spec.nodePool[i].types[q] != name;
      var unlisted := forall k :: 0 <= k < |w.status| ==> w.status[k].name != name;
      && (unnamed || unlisted ==> SameAt(w.sets, next.sets, key))
      && (unlisted ==> SameAt(w.services, next.services, key))
  {
    var key := ReservationName(spec.group, name);
    var sets, services := WantedSets(spec, w.status, pods, env), WantedServices(spec, w.status);
    AttemptParts(spec, pods, env, api, w);
    if Covers(sets, |sets|, key) {
      var k :| 0 <= k < |sets| && sets[k].Some? && sets[k].value.name == key;
      ReservationNameInjective(spec.group, name, spec.types[k].name);
      FoundIsListed(w.status, name);
    } else {
      RolloutKeeps(w.sets, sets, api.rollout, 0, key);
    }
    if Covers(services, |services|, key) {
      var k :| 0 <= k < |services| && services[k].Some? && services[k].value.name == key;
      ReservationNameInjective(spec.group, name, spec.types[k].name);
      FoundIsListed(w.status, name);
    } else {
      RolloutKeeps(w.services, services, api.service, 0, key);
    }
  }

  predicate SameAt<T(==)>(a: map<string, T>, b: map<string, T>, key: string) {
    (key in a <==> key in b) && (key in a ==> a[key] == b[key])
  }

  lemma FoundIsListed(status: seq<Available>, name: string)
    ensures FindUsage(status, name).Some? ==> exists k :: 0 <= k < |status| && status[k].name == name
  {
    if status != [] && status[0].name != name {
      FoundIsListed(status[1..], name);
      assert forall k :: 0 <= k < |status| - 1 ==> status[1..][k] == status[k + 1];
    }
  }

  /** A pass sizes the reservation of a named type by the entry found in the status, not by the one it
      writes: to its maximum, less what was used and waiting then and is unscheduled now. */
  lemma SizedByStatusBefore(spec: MachineSpec, pods: seq<Pod>, env: Env, w: World, i: nat, k: nat)
    requires Distinct(TypeNames(spec.types)) && i < |spec.types|
    requires exists e, q :: 0 <= e < |spec.nodePool| && 0 <= q < |spec.nodePool[e].types|
               && spec.nodePool[e].types[q] == spec.types[i].name
    requires k < |w.status| && w.status[k].name == spec.types[i].name
    requires forall j :: 0 <= j < k ==> w.status[j].name != spec.types[i].name
    requires 0 <= w.status[k].usage.maximum < 0x8000_0000
    requires w.status[k].usage.used >= 0 && w.status[k].usage.waiting >= 0
    requires w.status[k].usage.used + w.status[k].usage.waiting + |pods| < 0x8000_0000
    ensures var key := ReservationName(spec.group, spec.types[i].name);
      var usage := w.status[k].usage;
      var sets := Pass(spec, pods, env, w).sets;
      && key in sets
      && sets[key].replicas == Max(0, usage.maximum - (usage.used + usage.waiting
           + |Members(pods, Unscheduled, spec.group, spec.types[i].name, env)|))
  {
    var name, usage := spec.types[i].name, w.status[k].usage;
    assert Referenced(spec.nodePool, name);
    FindUsageFirst(w.status, k);
    CountIsCardinality(pods, Unscheduled, spec.group, name, env);
    CountWithinPods(pods, Unscheduled, spec.group, name, env);
    WrapStep(usage.used);
    WrapStep(usage.waiting);
    NoOverflow(usage.maximum, usage.reserved, usage.used, usage.waiting,
      Count(pods, Unscheduled, spec.group, name, env));
    WantedKey(w.sets, spec, w.status, pods, env, |spec.types|, i);
  }

  // ----- the stock is a history -----

  /** The stock after reconciling these lists of type names one after the other, from no pool. */
  function StockAfter(history: seq<seq<string>>): seq<string> {
    if history == [] then []
    else MergeStock(StockAfter(history[..|history| - 1]), history[|history| - 1])
  }

  function Flatten(history: seq<seq<string>>): seq<string> {
    if history == [] then [] else Flatten(history[..|history| - 1]) + history[|history| - 1]
  }

  /** Each element once, where it first appears. */
  function FirstSeen(s: seq<string>): seq<string> {
    if s == [] then []
    else
      var before := s[..|s| - 1];
      FirstSeen(before) + if s[|s| - 1] in before then [] else [s[|s| - 1]]
  }

  lemma {:induction false} FirstSeenElements(s: seq<string>)
    ensures Distinct(FirstSeen(s))
    ensures forall x :: x in FirstSeen(s) <==> x in s
    decreases |s|
  {
    if s != [] {
      FirstSeenElements(s[..|s| - 1]);
      assert s == s[..|s| - 1] + [s[|s| - 1]];
    }
  }

  lemma UnstockedConcat(stock: seq<string>, a: seq<string>, b: seq<string>)
    ensures Unstocked(stock, a + b) == Unstocked(stock, a) + Unstocked(stock, b)
  {
    if a == [] {
      assert a + b == b;
    } else {
      assert (a + b)[1..] == a[1..] + b;
      UnstockedConcat(stock, a[1..], b);
    }
  }

  /** Merging a list without repetitions continues the first-seen list. */
  lemma {:induction false} MergeContinues(seen: seq<string>, names: seq<string>)
    requires Distinct(names)
    ensures MergeStock(FirstSeen(seen), names) == FirstSeen(seen + names)
    decreases |names|
  {
    if names == [] {
      assert seen + names == seen;
    } else {
      var n := |names| - 1;
      var front, last := names[..n], names[n];
      MergeContinues(seen, front);
      UnstockedConcat(FirstSeen(seen), front, [last]);
      FirstSeenElements(seen);
      assert names == front + [last];
      assert (seen + names)[..|seen + names| - 1] == seen + front;
      assert last !in front;
      assert Unstocked(FirstSeen(seen), [last]) == if last in seen then [] else [last] by {
        assert [last][1..] == [];
      }
    }
  }

  lemma {:induction false} FlattenElements(history: seq<seq<string>>, x: string)
    ensures x in Flatten(history) <==> exists i :: 0 <= i < |history| && x in history[i]
    decreases |history|
  {
    if history != [] {
      var n := |history| - 1;
      FlattenElements(history[..n], x);
      assert forall i :: 0 <= i < n ==> history[..n][i] == history[i];
      assert x in history[n] ==> exists i :: 0 <= i < |history| && x in history[i];
    }
  }

  /** Over any sequence of spec edits the webhook lets through, the stock lists exactly the type
      names ever reconciled, each once, in first-seen order. */
  lemma {:induction false} StockIsHistory(history: seq<seq<string>>)
    requires forall i :: 0 <= i < |history| ==> Distinct(history[i])
    ensures StockAfter(history) == FirstSeen(Flatten(history))
    ensures Distinct(StockAfter(history))
    ensures forall x :: x in StockAfter(history) <==> exists i :: 0 <= i < |history| && x in history[i]
    decreases |history|
  {
    if history != [] {
      var n := |history| - 1;
      StockIsHistory(history[..n]);
      MergeContinues(Flatten(history[..n]), history[n]);
    }
    FirstSeenElements(Flatten(history));
    forall x {
      FlattenElements(history, x);
    }
  }

  /** The pool object after reconciling these specs one after the other, from none. */
  function PoolAfter(specs: seq<MachineSpec>): Option<PoolRecord> {
    if specs == [] then None
    else Some(NextPool(PoolAfter(specs[..|specs| - 1]), specs[|specs| - 1]))
  }

  function NamesEach(specs: seq<MachineSpec>): (history: seq<seq<string>>)
    ensures |history| == |specs|
  {
    seq(|specs|, i requires 0 <= i < |specs| => TypeNames(specs[i].types))
  }

  /** The pool object follows the last spec, keeps the first group label, and stocks the history. */
  lemma {:induction false} PoolFollows(specs: seq<MachineSpec>)
    requires specs != []
    ensures var last := specs[|specs| - 1];
      PoolAfter(specs) == Some(PoolRecord(
        map[MACHINE_GROUP_KEY := specs[0].group], last.group, last.nodePool, StockAfter(NamesEach(specs))))
    decreases |specs|
  {
    var n := |specs| - 1;
    assert NamesEach(specs)[..n] == NamesEach(specs[..n]);
    if n > 0 {
      PoolFollows(specs[..n]);
    } else {
      assert StockAfter(NamesEach(specs[..0])) == [];
    }
  }

  /** The stock only ever grows at its end. */
  lemma {:induction false} StockGrows(history: seq<seq<string>>, n: nat)
    requires n <= |history|
    ensures StockAfter(history[..n]) <= StockAfter(history)
    decreases |history|
  {
    if n < |history| {
      var m := |history| - 1;
      StockGrows(history[..m], n);
      assert history[..m][..n] == history[..n];
    } else {
      assert history[..n] == history;
    }
  }

  /** A name outside `stock` is listed twice. */
  ghost predicate ListsNewTwice(stock: seq<string>, names: seq<string>) {
    exists i, j :: 0 <= i < j < |names| && names[i] == names[j] && names[i] !in stock
  }

  /** Without the webhook's check a merge repeats a name exactly when the spec lists a new name
      twice. */
  lemma MergeStockDistinct(stock: seq<string>, names: seq<string>)
    requires Distinct(stock)
    ensures Distinct(MergeStock(stock, names)) <==> !ListsNewTwice(stock, names)
  {
    UnstockedDistinct(stock, names);
    forall x {
      UnstockedIn(stock, names, x);
    }
    var added := Unstocked(stock, names);
    var merged := MergeStock(stock, names);
    if Distinct(added) {
      forall i, j | 0 <= i < j < |merged| ensures merged[i] != merged[j] {
        if i < |stock| <= j {
          assert merged[j] in added;
        }
      }
    } else {
      var i, j :| 0 <= i < j < |added| && added[i] == added[j];
      assert merged[|stock| + i] == merged[|stock| + j];
    }
  }

  lemma ConsDistinct(x: string, s: seq<string>)
    ensures Distinct([x] + s) <==> x !in s && Distinct(s)
  {
    var all := [x] + s;
    assert forall i :: 0 <= i < |s| ==> all[i + 1] == s[i];
    if Distinct(all) {
      forall i, j | 0 <= i < j < |s| ensures s[i] != s[j] {
        assert all[i + 1] != all[j + 1];
      }
      forall i | 0 <= i < |s| ensures s[i] != x {
        assert all[0] != all[i + 1];
      }
    }
  }

  lemma ConsTwice(stock: seq<string>, x: string, rest: seq<string>)
    ensures ListsNewTwice(stock, [x] + rest) <==> ListsNewTwice(stock, rest) || (x !in stock && x in rest)
  {
    var all := [x] + rest;
    if ListsNewTwice(stock, rest) {
      var i, j :| 0 <= i < j < |rest| && rest[i] == rest[j] && rest[i] !in stock;
      assert all[i + 1] == all[j + 1] && all[i + 1] !in stock;
    }
    if x !in stock && x in rest {
      var j :| 0 <= j < |rest| && rest[j] == x;
      assert all[0] == all[j + 1] && all[0] !in stock;
    }
    if ListsNewTwice(stock, all) {
      ConsTwiceOnly(stock, x, rest);
    }
  }

  lemma ConsTwiceOnly(stock: seq<string>, x: string, rest: seq<string>)
    requires ListsNewTwice(stock, [x] + rest)
    ensures ListsNewTwice(stock, rest) || (x !in stock && x in rest)
  {
    var all := [x] + rest;
    var i, j :| 0 <= i < j < |all| && all[i] == all[j] && all[i] !in stock;
    assert all[j] == rest[j - 1];
    if i > 0 {
      assert rest[i - 1] == rest[j - 1] && rest[i - 1] !in stock;
    }
  }

  lemma {:induction false} UnstockedDistinct(stock: seq<string>, names: seq<string>)
    ensures Distinct(Unstocked(stock, names)) <==> !ListsNewTwice(stock, names)
  {
    if names != [] {
      var x, rest := names[0], names[1..];
      assert names == [x] + rest;
      UnstockedDistinct(stock, rest);
      UnstockedIn(stock, rest, x);
      ConsDistinct(x, Unstocked(stock, rest));
      ConsTwice(stock, x, rest);
      assert Unstocked(stock, names) == if x in stock then Unstocked(stock, rest) else [x] + Unstocked(stock, rest);
    }
  }
}
