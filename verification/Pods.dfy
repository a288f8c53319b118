/** Pods as the Machine controller classifies and counts them. */
module Pods {
  import opened Objects
  import opened Generators

  datatype Phase = Pending | Running | Succeeded | Broken | Unknown

  datatype PodCondition = PodCondition(kind: string, status: string, reason: string)

  datatype Pod =
    Pod(namespace: string, labels: Labels, terminating: bool, phase: Phase, nodeName: string,
        conditions: seq<PodCondition>)

  const CONTAINERS_READY: string := "ContainersReady"
  const POD_SCHEDULED: string := "PodScheduled"
  const CONDITION_TRUE: string := "True"
  const CONDITION_FALSE: string := "False"
  const UNSCHEDULABLE: string := "Unschedulable"

  /** Namespace labels, for the namespaces that can be read, and the namespace of reservations. */
  datatype Env = Env(namespaces: map<string, Labels>, core: string)

  /** The first condition of a kind. */
  function FirstOf(cs: seq<PodCondition>, kind: string): Option<PodCondition> {
    if cs == [] then None
    else if cs[0].kind == kind then Some(cs[0])
    else FirstOf(cs[1..], kind)
  }

  /** `GetPodConditionTypeMap`: the first condition of a kind stays. */
  method GetPodConditionTypeMap(cs: seq<PodCondition>) returns (m: map<string, PodCondition>)
    ensures forall kind :: FirstOf(cs, kind) == if kind in m then Some(m[kind]) else None
  {
    m := map[];
    for n := 0 to |cs|
      invariant forall kind :: FirstOf(cs, kind) == if kind in m then Some(m[kind]) else FirstOf(cs[n..], kind)
    {
      assert cs[n..][1..] == cs[n + 1..];
      if cs[n].kind in m {
        continue;
      }
      m := m[cs[n].kind := cs[n]];
    }
  }

  predicate Selected(labels: Labels, selector: Labels) {
    forall k :: k in selector ==> k in labels && labels[k] == selector[k]
  }

  predicate HasRole(pod: Pod, group: string, machineType: string, role: string) {
    Selected(pod.labels, RoleLabels(group, machineType, role))
  }

  predicate Enabled(env: Env, namespace: string) {
    namespace in env.namespaces
    && Lookup(env.namespaces[namespace], INJECTION_KEY) == INJECTION_ENABLED
  }

  /** Running with ready containers, or bound to a node and starting. */
  predicate Up(pod: Pod) {
    var ready := FirstOf(pod.conditions, CONTAINERS_READY);
    || (pod.phase == Running && ready.Some? && ready.value.status == CONDITION_TRUE)
    || (pod.phase == Pending && pod.nodeName != "")
  }

  /** Declared unschedulable, and bound to no node. */
  predicate Unplaced(pod: Pod) {
    var scheduled := FirstOf(pod.conditions, POD_SCHEDULED);
    && pod.phase == Pending
    && pod.nodeName == ""
    && scheduled.Some?
    && scheduled.value.reason == UNSCHEDULABLE
    && scheduled.value.status == CONDITION_FALSE
  }

  datatype Counter = Reserved | Used | Waiting | Unscheduled

  /** The pods each counter of a machine type stands for. */
  predicate CountsIn(pod: Pod, counter: Counter, group: string, machineType: string, env: Env) {
    && !pod.terminating
    && match counter
       case Reserved => HasRole(pod, group, machineType, ROLE_RESERVATION) && Up(pod)
       case Used => HasRole(pod, group, machineType, ROLE_GUEST) && Enabled(env, pod.namespace) && Up(pod)
       case Waiting => HasRole(pod, group, machineType, ROLE_GUEST) && Enabled(env, pod.namespace) && Unplaced(pod)
       case Unscheduled =>
         HasRole(pod, group, machineType, ROLE_RESERVATION) && pod.namespace == env.core && Unplaced(pod)
  }

  function Count(pods: seq<Pod>, counter: Counter, group: string, machineType: string, env: Env): nat {
    if pods == [] then 0
    else (if CountsIn(pods[0], counter, group, machineType, env) then 1 else 0)
         + Count(pods[1..], counter, group, machineType, env)
  }

  lemma CountConcat(a: seq<Pod>, b: seq<Pod>, c: Counter, group: string, machineType: string, env: Env)
    ensures Count(a + b, c, group, machineType, env)
         == Count(a, c, group, machineType, env) + Count(b, c, group, machineType, env)
  {
    if a == [] {
      assert a + b == b;
    } else {
      assert (a + b)[1..] == a[1..] + b;
      CountConcat(a[1..], b, c, group, machineType, env);
    }
  }

  /** The positions of the pods a counter stands for. */
  ghost function Members(pods: seq<Pod>, c: Counter, group: string, machineType: string, env: Env): set<int> {
    set i | 0 <= i < |pods| && CountsIn(pods[i], c, group, machineType, env)
  }

  lemma MembersLast(pods: seq<Pod>, pod: Pod, c: Counter, group: string, machineType: string, env: Env)
    ensures Members(pods + [pod], c, group, machineType, env)
         == Members(pods, c, group, machineType, env)
            + if CountsIn(pod, c, group, machineType, env) then {|pods|} else {}
  {
    var longer := pods + [pod];
    assert forall i :: 0 <= i < |pods| ==> longer[i] == pods[i];
  }

  /** A counter is the cardinality of its set of pods. */
  lemma {:induction false} CountIsCardinality(
      pods: seq<Pod>, c: Counter, group: string, machineType: string, env: Env)
    ensures Count(pods, c, group, machineType, env) == |Members(pods, c, group, machineType, env)|
  {
    if pods != [] {
      var n := |pods| - 1;
      var front, last := pods[..n], pods[n];
      assert pods == front + [last];
      CountIsCardinality(front, c, group, machineType, env);
      CountConcat(front, [last], c, group, machineType, env);
      CountOne(last, c, group, machineType, env);
      MembersLast(front, last, c, group, machineType, env);
      assert n !in Members(front, c, group, machineType, env);
    }
  }

  /** A pod has a role exactly if it carries the three labels. */
  lemma HasRoleIs(pod: Pod, group: string, machineType: string, role: string)
    ensures HasRole(pod, group, machineType, role) <==>
      && MACHINE_GROUP_KEY in pod.labels && pod.labels[MACHINE_GROUP_KEY] == group
      && MACHINE_TYPE_KEY in pod.labels && pod.labels[MACHINE_TYPE_KEY] == machineType
      && POD_ROLE_KEY in pod.labels && pod.labels[POD_ROLE_KEY] == role
  {
    LabelKeysDiffer();
    var l := RoleLabels(group, machineType, role);
    assert l.Keys == {MACHINE_GROUP_KEY, MACHINE_TYPE_KEY, POD_ROLE_KEY};
    assert l[MACHINE_GROUP_KEY] == group && l[MACHINE_TYPE_KEY] == machineType && l[POD_ROLE_KEY] == role;
  }

  lemma LabelKeysDiffer()
    ensures MACHINE_GROUP_KEY != MACHINE_TYPE_KEY && MACHINE_TYPE_KEY != POD_ROLE_KEY
    ensures POD_ROLE_KEY != MACHINE_GROUP_KEY
    ensures ROLE_GUEST != ROLE_RESERVATION
  {
    assert |MACHINE_GROUP_KEY| == 35 && |MACHINE_TYPE_KEY| == 34 && |POD_ROLE_KEY| == 30;
    assert |ROLE_GUEST| == 5 && |ROLE_RESERVATION| == 11;
  }

  /** No pod is counted twice, over all types and all counters of a group. */
  lemma CountedOnce(pod: Pod, c: Counter, d: Counter, group: string, t: string, u: string, env: Env)
    requires CountsIn(pod, c, group, t, env) && CountsIn(pod, d, group, u, env)
    ensures c == d && t == u
  {
    LabelKeysDiffer();
    HasRoleIs(pod, group, t, ROLE_GUEST);
    HasRoleIs(pod, group, t, ROLE_RESERVATION);
    HasRoleIs(pod, group, u, ROLE_GUEST);
    HasRoleIs(pod, group, u, ROLE_RESERVATION);
  }

  /** Condition `i` is the pod's first of that kind. */
  predicate IsFirst(cs: seq<PodCondition>, kind: string, i: int) {
    && 0 <= i < |cs|
    && cs[i].kind == kind
    && forall j :: 0 <= j < i ==> cs[j].kind != kind
  }

  lemma {:induction false} FirstOfIs(cs: seq<PodCondition>, kind: string)
    ensures forall i :: IsFirst(cs, kind, i) ==> FirstOf(cs, kind) == Some(cs[i])
    ensures FirstOf(cs, kind).Some? ==> exists i :: IsFirst(cs, kind, i)
  {
    if cs != [] {
      if cs[0].kind == kind {
        assert IsFirst(cs, kind, 0);
      } else {
        var rest := cs[1..];
        FirstOfIs(rest, kind);
        forall i | IsFirst(cs, kind, i) ensures FirstOf(cs, kind) == Some(cs[i]) {
          assert IsFirst(rest, kind, i - 1);
        }
        if i :| IsFirst(rest, kind, i) {
          assert IsFirst(cs, kind, i + 1);
        }
      }
    }
  }

  /** The pod belongs to the counter's role, and is where the counter looks. */
  predicate Belongs(pod: Pod, c: Counter, group: string, machineType: string, env: Env) {
    && MACHINE_GROUP_KEY in pod.labels && pod.labels[MACHINE_GROUP_KEY] == group
    && MACHINE_TYPE_KEY in pod.labels && pod.labels[MACHINE_TYPE_KEY] == machineType
    && POD_ROLE_KEY in pod.labels
    && match c
       case Reserved => pod.labels[POD_ROLE_KEY] == ROLE_RESERVATION
       case Unscheduled => pod.labels[POD_ROLE_KEY] == ROLE_RESERVATION && pod.namespace == env.core
       case _ =>
         && pod.labels[POD_ROLE_KEY] == ROLE_GUEST
         && pod.namespace in env.namespaces
         && INJECTION_KEY in env.namespaces[pod.namespace]
         && env.namespaces[pod.namespace][INJECTION_KEY] == INJECTION_ENABLED
  }

  /** The first `ContainersReady` condition is true. */
  ghost predicate ShowsReady(pod: Pod) {
    exists i :: IsFirst(pod.conditions, CONTAINERS_READY, i) && pod.conditions[i].status == CONDITION_TRUE
  }

  /** The first `PodScheduled` condition says that no node will do. */
  ghost predicate ShowsUnschedulable(pod: Pod) {
    exists i :: IsFirst(pod.conditions, POD_SCHEDULED, i) && UnschedulableAt(pod.conditions[i])
  }

  predicate UnschedulableAt(c: PodCondition) {
    c.reason == UNSCHEDULABLE && c.status == CONDITION_FALSE
  }

  /** Exactly which pods count, phase by phase and from their raw conditions: a running pod takes up a
      machine if its first `ContainersReady` condition is true, a pending one if it is bound to a node;
      a pending pod without a node asks for one if its first `PodScheduled` condition says that it is
      unschedulable. No other pod counts, nor one that is terminating. */
  lemma CountsExactly(pod: Pod, c: Counter, group: string, machineType: string, env: Env)
    ensures CountsIn(pod, c, group, machineType, env) <==>
      && !pod.terminating
      && Belongs(pod, c, group, machineType, env)
      && if c == Reserved || c == Used then
           || (pod.phase == Pending && pod.nodeName != "")
           || (pod.phase == Running && ShowsReady(pod))
         else
           pod.phase == Pending && pod.nodeName == "" && ShowsUnschedulable(pod)
  {
    FirstOfIs(pod.conditions, CONTAINERS_READY);
    FirstOfIs(pod.conditions, POD_SCHEDULED);
    HasRoleIs(pod, group, machineType, ROLE_GUEST);
    HasRoleIs(pod, group, machineType, ROLE_RESERVATION);
    assert INJECTION_ENABLED != "";
  }

  /** One pod more adds one to the counters it counts in, wherever it stands in the list. */
  lemma CountInserted(a: seq<Pod>, pod: Pod, b: seq<Pod>, c: Counter, group: string, machineType: string, env: Env)
    ensures Count(a + [pod] + b, c, group, machineType, env)
         == Count(a + b, c, group, machineType, env) + if CountsIn(pod, c, group, machineType, env) then 1 else 0
  {
    CountConcat(a + [pod], b, c, group, machineType, env);
    CountConcat(a, [pod], c, group, machineType, env);
    CountConcat(a, b, c, group, machineType, env);
    CountOne(pod, c, group, machineType, env);
  }

  /** All four counters of all listed types together. */
  function Total(pods: seq<Pod>, group: string, types: seq<string>, env: Env): nat {
    if types == [] then 0
    else
      Count(pods, Reserved, group, types[0], env) + Count(pods, Used, group, types[0], env)
      + Count(pods, Waiting, group, types[0], env) + Count(pods, Unscheduled, group, types[0], env)
      + Total(pods, group, types[1..], env)
  }

  lemma CountOne(pod: Pod, c: Counter, group: string, machineType: string, env: Env)
    ensures Count([pod], c, group, machineType, env) == if CountsIn(pod, c, group, machineType, env) then 1 else 0
  {
    assert [pod][1..] == [];
  }

  ghost predicate Counted(pod: Pod, group: string, types: seq<string>, env: Env) {
    exists c, i :: 0 <= i < |types| && CountsIn(pod, c, group, types[i], env)
  }

  lemma TotalOne(pod: Pod, group: string, types: seq<string>, env: Env)
    requires Distinct(types)
    ensures Total([pod], group, types, env) == if Counted(pod, group, types, env) then 1 else 0
  {
    if types != [] {
      var t := types[0];
      TotalOne(pod, group, types[1..], env);
      forall c {
        CountOne(pod, c, group, t, env);
      }
      assert Counted(pod, group, types, env) <==>
        (exists c :: CountsIn(pod, c, group, t, env)) || Counted(pod, group, types[1..], env) by {
        assert forall i :: 0 <= i < |types[1..]| ==> types[1..][i] == types[i + 1];
        assert forall i :: 1 <= i < |types| ==> types[i] == types[1..][i - 1];
      }
      if c :| CountsIn(pod, c, group, t, env) {
        forall d' | CountsIn(pod, d', group, t, env) ensures d' == c {
          CountedOnce(pod, c, d', group, t, t, env);
        }
        forall d', i | 0 <= i < |types[1..]| ensures !CountsIn(pod, d', group, types[1..][i], env) {
          if CountsIn(pod, d', group, types[1..][i], env) {
            CountedOnce(pod, c, d', group, t, types[i + 1], env);
          }
        }
      }
    }
  }

  lemma TotalConcat(a: seq<Pod>, b: seq<Pod>, group: string, types: seq<string>, env: Env)
    ensures Total(a + b, group, types, env) == Total(a, group, types, env) + Total(b, group, types, env)
  {
    if types != [] {
      TotalConcat(a, b, group, types[1..], env);
      forall c {
        CountConcat(a, b, c, group, types[0], env);
      }
    }
  }

  /** The counters of distinct types partition the pods: together they never exceed the pods. */
  lemma {:induction false} CountersPartition(pods: seq<Pod>, group: string, types: seq<string>, env: Env)
    requires Distinct(types)
    ensures Total(pods, group, types, env) <= |pods|
    decreases |pods|
  {
    if pods == [] {
      TotalConcat([], [], group, types, env);
      assert [] + [] == pods;
    } else {
      assert pods == [pods[0]] + pods[1..];
      TotalConcat([pods[0]], pods[1..], group, types, env);
      TotalOne(pods[0], group, types, env);
      CountersPartition(pods[1..], group, types, env);
    }
  }

  /** A pod of the role that may still run: not terminating, neither succeeded nor failed. */
  predicate IsLive(pod: Pod, group: string, machineType: string, role: string) {
    && !pod.terminating
    && pod.phase != Succeeded && pod.phase != Broken
    && HasRole(pod, group, machineType, role)
  }

  function Live(pods: seq<Pod>, group: string, machineType: string, role: string): nat {
    if pods == [] then 0
    else (if IsLive(pods[0], group, machineType, role) then 1 else 0)
         + Live(pods[1..], group, machineType, role)
  }

  /** Reserved and unscheduled together never exceed the live reservation pods, nor used and waiting
      the live guests. */
  lemma {:induction false} CountersWithinLive(pods: seq<Pod>, group: string, machineType: string, env: Env)
    ensures Count(pods, Reserved, group, machineType, env) + Count(pods, Unscheduled, group, machineType, env)
         <= Live(pods, group, machineType, ROLE_RESERVATION)
    ensures Count(pods, Used, group, machineType, env) + Count(pods, Waiting, group, machineType, env)
         <= Live(pods, group, machineType, ROLE_GUEST)
  {
    if pods != [] {
      CountersWithinLive(pods[1..], group, machineType, env);
    }
  }
}
