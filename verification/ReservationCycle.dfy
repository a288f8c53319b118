/** The cycle through the cluster: reservations are generated, their pods are counted, the count opens
    the gate, and the guest that is let in is counted in turn. */
module ReservationCycle {
  import opened Objects
  import opened Generators
  import opened Pods
  import opened MachineController
  import opened MachineRuns
  import opened Machines
  import opened Injector

  // ----- from pods to counters -----

  /** A pod that is in no set of the group changes neither the refreshed status nor the StatefulSets. */
  lemma UncountedIsIgnored(
      spec: MachineSpec, status: seq<Available>, names: seq<string>, a: seq<Pod>, po: Pod, b: seq<Pod>, env: Env)
    requires forall c, t :: !CountsIn(po, c, spec.group, t, env)
    ensures FreshStatus(spec, names, a + [po] + b, env) == FreshStatus(spec, names, a + b, env)
    ensures WantedSets(spec, status, a + [po] + b, env) == WantedSets(spec, status, a + b, env)
  {
    forall c, t ensures Count(a + [po] + b, c, spec.group, t, env) == Count(a + b, c, spec.group, t, env) {
      CountInserted(a, po, b, c, spec.group, t, env);
    }
    forall i | 0 <= i < |spec.types|
      ensures WantedSet(spec, status, a + [po] + b, env, i) == WantedSet(spec, status, a + b, env, i)
    {
    }
  }

  /** A running pod whose containers are not ready takes up no machine and asks for none. */
  lemma UnreadyIsIgnored(
      spec: MachineSpec, status: seq<Available>, names: seq<string>, a: seq<Pod>, po: Pod, b: seq<Pod>, env: Env)
    requires po.phase == Running && !ShowsReady(po)
    ensures FreshStatus(spec, names, a + [po] + b, env) == FreshStatus(spec, names, a + b, env)
    ensures WantedSets(spec, status, a + [po] + b, env) == WantedSets(spec, status, a + b, env)
  {
    forall c, t ensures !CountsIn(po, c, spec.group, t, env) {
      CountsExactly(po, c, spec.group, t, env);
    }
    UncountedIsIgnored(spec, status, names, a, po, b, env);
  }

  /** A live pod of a type that is running and ready, or bound and starting, adds one to the reserved pods
      of that type if it is a reservation and one to the used ones if it is a guest. */
  lemma UpAddsOne(
      spec: MachineSpec, name: string, a: seq<Pod>, po: Pod, b: seq<Pod>, c: Counter, env: Env)
    requires |a| + |b| + 1 < 0x8000_0000 && !po.terminating
    requires (c == Reserved || c == Used) && Belongs(po, c, spec.group, name, env)
    requires (po.phase == Pending && po.nodeName != "") || (po.phase == Running && ShowsReady(po))
    ensures var before, after := FreshUsage(spec, name, a + b, env), FreshUsage(spec, name, a + [po] + b, env);
      && after.reserved == before.reserved + (if c == Reserved then 1 else 0)
      && after.used == before.used + (if c == Used then 1 else 0)
      && after.waiting == before.waiting && after.maximum == before.maximum
  {
    CountsExactly(po, c, spec.group, name, env);
    forall d
      ensures Wrap32(Count(a + [po] + b, d, spec.group, name, env))
           == Wrap32(Count(a + b, d, spec.group, name, env)) + if d == c then 1 else 0
    {
      CountInserted(a, po, b, d, spec.group, name, env);
      CountWithinPods(a + [po] + b, d, spec.group, name, env);
      if CountsIn(po, d, spec.group, name, env) {
        CountedOnce(po, c, d, spec.group, name, name, env);
      }
      WrapStep(Count(a + b, d, spec.group, name, env));
      WrapStep(Count(a + [po] + b, d, spec.group, name, env));
    }
  }

  // ----- from templates to counters -----

  /** The pods of a generated StatefulSet are its own by its selector, stand behind the type's Service,
      share the labels of both, and count for the type: reserved once bound or ready, unscheduled while they
      find no node in the core namespace, and never as guests, for whom the injector does not take them
      either. */
  lemma TemplatePodsCount(mt: MachineType, group: string, r: int, po: Pod, env: Env)
    requires po.labels == ReservationSet(mt, group, r).template.labels
    ensures Selected(po.labels, ReservationSet(mt, group, r).selector)
    ensures Selected(po.labels, ReservationService(mt.name, group).selector)
    ensures ReservationSet(mt, group, r).labels == po.labels && ReservationService(mt.name, group).labels == po.labels
    ensures ReservationSet(mt, group, r).serviceName == ReservationName(group, mt.name)
    ensures !po.terminating && po.phase == Pending && po.nodeName != "" ==> CountsIn(po, Reserved, group, mt.name, env)
    ensures !po.terminating && po.phase == Running && ShowsReady(po) ==> CountsIn(po, Reserved, group, mt.name, env)
    ensures !po.terminating && po.phase == Pending && po.nodeName == "" && ShowsUnschedulable(po) ==>
      (CountsIn(po, Unscheduled, group, mt.name, env) <==> po.namespace == env.core)
    ensures forall g, t :: !CountsIn(po, Used, g, t, env) && !CountsIn(po, Waiting, g, t, env)
    ensures !Required(po.labels)
  {
    LabelKeysDiffer();
    assert po.labels[POD_ROLE_KEY] == ROLE_RESERVATION;
    CountsExactly(po, Reserved, group, mt.name, env);
    CountsExactly(po, Unscheduled, group, mt.name, env);
    forall g, t ensures !CountsIn(po, Used, g, t, env) && !CountsIn(po, Waiting, g, t, env) {
      CountsExactly(po, Used, g, t, env);
      CountsExactly(po, Waiting, g, t, env);
    }
  }

  /** What the reservation pods of a type ask for. */
  lemma TemplateAsks(mt: MachineType, group: string, r: int)
    ensures var containers := ReservationSet(mt, group, r).template.containers;
      |containers| == 1 && AsksFor(containers[0].requests, mt) && AsksFor(containers[0].limits, mt)
  {
    ResourcesAre(mt);
  }

  // ----- the gate -----

  /** Machine `n` is the first of the group, type `i` its first of the name, entry `k` the first status
      entry of the name. */
  predicate Found(machines: seq<Machine>, group: string, name: string, n: nat, i: nat, k: nat) {
    && n < |machines|
    && InGroup(machines[n], group)
    && (forall x :: 0 <= x < n ==> !InGroup(machines[x], group))
    && i < |machines[n].types| && machines[n].types[i].name == name
    && (forall x :: 0 <= x < i ==> machines[n].types[x].name != name)
    && k < |machines[n].status| && machines[n].status[k].name == name
    && (forall x :: 0 <= x < k ==> machines[n].status[x].name != name)
  }

  /** When the gate opens: exactly if the stored number of reserved machines is not zero. */
  lemma GateReads(machines: seq<Machine>, group: string, name: string, n: nat, i: nat, k: nat)
    requires Found(machines, group, name, n, i, k)
    ensures Gate(machines, group, name)
         == if machines[n].status[k].usage.reserved == 0 then Denied else Admitted(machines[n].types[i])
  {
    ListGroupFirst(machines, n, group);
    FindTypeFirst(machines[n].types, i);
    FindUsageFirst(machines[n].status, k);
  }

  /** And when there is nothing to read: no machine of the group or no such type denies the pod, a type
      without a status entry crashes. */
  lemma GateRefuses(machines: seq<Machine>, group: string, name: string, n: nat)
    requires n <= |machines| && forall x :: 0 <= x < n ==> !InGroup(machines[x], group)
    requires n < |machines| ==> InGroup(machines[n], group)
    ensures n == |machines| ==> Gate(machines, group, name) == Denied
    ensures n < |machines| && (forall i :: 0 <= i < |machines[n].types| ==> machines[n].types[i].name != name) ==>
      Gate(machines, group, name) == Denied
    ensures n < |machines| && (exists i :: 0 <= i < |machines[n].types| && machines[n].types[i].name == name) ==>
      (forall k :: 0 <= k < |machines[n].status| ==> machines[n].status[k].name != name) ==>
      Gate(machines, group, name) == Crashed
  {
    if n == |machines| {
      NobodyInGroup(machines, group);
    } else {
      ListGroupFirst(machines, n, group);
      FindTypeFinds(machines[n].types, name);
      FoundIsListed(machines[n].status, name);
    }
  }

  /** With a refreshed status the gate is open exactly while some pod is reserved for the type. */
  lemma ReservationOpensGate(
      machines: seq<Machine>, group: string, name: string, n: nat, i: nat, k: nat, pods: seq<Pod>, env: Env)
    requires Found(machines, group, name, n, i, k) && |pods| < 0x8000_0000
    requires var m := machines[n];
      m.status[k].usage == FreshUsage(MachineSpec(group, m.types, m.nodePool), name, pods, env)
    ensures Gate(machines, group, name) == Admitted(machines[n].types[i]) <==>
      exists q :: 0 <= q < |pods| && CountsIn(pods[q], Reserved, group, name, env)
    ensures Gate(machines, group, name) == Denied <==>
      forall q :: 0 <= q < |pods| ==> !CountsIn(pods[q], Reserved, group, name, env)
  {
    var m := machines[n];
    GateReads(machines, group, name, n, i, k);
    UsageIsCardinality(MachineSpec(group, m.types, m.nodePool), name, pods, env);
    var members := Members(pods, Reserved, group, name, env);
    if q :| 0 <= q < |pods| && CountsIn(pods[q], Reserved, group, name, env) {
      assert q in members;
    }
    if members != {} {
      var q :| q in members;
      assert CountsIn(pods[q], Reserved, group, name, env);
    }
  }

  // ----- once around -----

  /** Guest pods are those that carry group, type and the guest role. */
  lemma RequiredIs(labels: Labels)
    ensures Required(labels) <==>
      && MACHINE_GROUP_KEY in labels && MACHINE_TYPE_KEY in labels
      && POD_ROLE_KEY in labels && labels[POD_ROLE_KEY] == ROLE_GUEST
  {
    assert ROLE_GUEST != "";
  }

  /** A pod of this StatefulSet, bound to a node or ready. */
  ghost predicate StartedFrom(po: Pod, sts: StatefulSet) {
    && po.labels == sts.template.labels
    && !po.terminating
    && ((po.phase == Pending && po.nodeName != "") || (po.phase == Running && ShowsReady(po)))
  }

  /** Once around the cycle. After an answered pass over pods among which one has started
      from the type's reservation template, a new guest of the type that can be injected is admitted
      under exactly that type; without any reserved pod it is denied. */
  lemma ReservationAdmitsGuest(
      m: Machine, group: string, i: nat, pods: seq<Pod>, env: Env, w: World, r: int, guest: PodSpec)
    requires InGroup(m, group) && i < |m.types| && |pods| < 0x8000_0000
    requires forall j :: 0 <= j < i ==> m.types[j].name != m.types[i].name
    requires Readable(group, EntryNames(MachineSpec(group, m.types, m.nodePool), w.status), pods, env)
    requires Required(guest.labels) && guest.labels[MACHINE_GROUP_KEY] == group
    requires guest.labels[MACHINE_TYPE_KEY] == m.types[i].name && Inject(guest, m.types[i], group).Some?
    ensures var next := m.(status := Pass(MachineSpec(group, m.types, m.nodePool), pods, env, w).status);
      && ((exists q :: 0 <= q < |pods| && StartedFrom(pods[q], ReservationSet(m.types[i], group, r))) ==>
          Judge(guest, [next]) == Admitted(m.types[i]))
      && ((forall q :: 0 <= q < |pods| ==> !CountsIn(pods[q], Reserved, group, m.types[i].name, env)) ==>
          Judge(guest, [next]) == Denied)
  {
    var spec, name := MachineSpec(group, m.types, m.nodePool), m.types[i].name;
    var names := EntryNames(spec, w.status);
    var next := m.(status := Pass(spec, pods, env, w).status);
    EntryNamesAre(spec, w.status);
    assert spec.types[i].name in names;
    var k := FirstOccurrence(names, name);
    assert Found([next], group, name, 0, i, k);
    ReservationOpensGate([next], group, name, 0, i, k, pods, env);
    if q :| 0 <= q < |pods| && StartedFrom(pods[q], ReservationSet(m.types[i], group, r)) {
      TemplatePodsCount(m.types[i], group, r, pods[q], env);
    }
  }

  lemma {:induction false} FirstOccurrence(names: seq<string>, name: string) returns (k: nat)
    requires name in names
    ensures k < |names| && names[k] == name && forall j :: 0 <= j < k ==> names[j] != name
  {
    if names[0] == name {
      k := 0;
    } else {
      k := FirstOccurrence(names[1..], name);
      k := k + 1;
    }
  }

  /** And the injected guest keeps its labels, so that it counts for its group and type in turn: used once
      it is bound, waiting while it finds no node, if its namespace has injection enabled; and never as a
      reservation. */
  lemma InjectedGuestCounts(guest: PodSpec, mt: MachineType, group: string, po: Pod, env: Env)
    requires Required(guest.labels) && Inject(guest, mt, group).Some?
    requires po.labels == Inject(guest, mt, group).value.labels && !po.terminating && po.phase == Pending
    requires po.namespace in env.namespaces && INJECTION_KEY in env.namespaces[po.namespace]
    requires env.namespaces[po.namespace][INJECTION_KEY] == INJECTION_ENABLED
    ensures var g, t := guest.labels[MACHINE_GROUP_KEY], guest.labels[MACHINE_TYPE_KEY];
      && (po.nodeName != "" ==> CountsIn(po, Used, g, t, env))
      && (po.nodeName == "" && ShowsUnschedulable(po) ==> CountsIn(po, Waiting, g, t, env))
      && !CountsIn(po, Reserved, g, t, env) && !CountsIn(po, Unscheduled, g, t, env)
  {
    var g, t := guest.labels[MACHINE_GROUP_KEY], guest.labels[MACHINE_TYPE_KEY];
    LabelKeysDiffer();
    RequiredIs(guest.labels);
    forall c {
      CountsExactly(po, c, g, t, env);
    }
  }
}
