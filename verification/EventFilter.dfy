/** Which Machine a pod event makes the Machine controller look at, and why no counter can change
    unnoticed. */
module EventFilter {
  import opened Objects
  import opened Pods
  import opened Machines

  /** `podReconcileRequest`. */
  function EventTarget(pod: Pod, machines: seq<Machine>, env: Env): Option<string> {
    if pod.namespace !in env.namespaces then None
    else if Lookup(env.namespaces[pod.namespace], INJECTION_KEY) != INJECTION_ENABLED
         && Lookup(pod.labels, POD_ROLE_KEY) == ROLE_GUEST then None
    else if MACHINE_GROUP_KEY !in pod.labels then None
    else
      var items := ListGroup(machines, pod.labels[MACHINE_GROUP_KEY]);
      if |items| != 1 then None
      else if MACHINE_TYPE_KEY !in pod.labels then None
      else if FindType(items[0].types, pod.labels[MACHINE_TYPE_KEY]) == None then None
      else Some(items[0].name)
  }

  /** A pod that counts for a type is reported. */
  lemma CountedIsReported(pod: Pod, c: Counter, m: Machine, group: string, t: string, machines: seq<Machine>, env: Env)
    requires CountsIn(pod, c, group, t, env) && pod.namespace in env.namespaces
    requires ListGroup(machines, group) == [m]
    requires exists i :: 0 <= i < |m.types| && m.types[i].name == t
    ensures EventTarget(pod, machines, env) == Some(m.name)
  {
    LabelKeysDiffer();
    HasRoleIs(pod, group, t, ROLE_GUEST);
    HasRoleIs(pod, group, t, ROLE_RESERVATION);
    FindTypeFinds(m.types, t);
  }

  lemma PositiveCount(pods: seq<Pod>, c: Counter, group: string, t: string, env: Env)
    requires Count(pods, c, group, t, env) > 0
    ensures exists i :: 0 <= i < |pods| && CountsIn(pods[i], c, group, t, env)
  {
    if !CountsIn(pods[0], c, group, t, env) {
      PositiveCount(pods[1..], c, group, t, env);
      var i :| 0 <= i < |pods[1..]| && CountsIn(pods[1..][i], c, group, t, env);
      assert CountsIn(pods[i + 1], c, group, t, env);
    }
  }

  /** The filter misses nothing. Replace any stretch of the pod list by any other (an added pod, a
      removed one, a changed one): if a counter of a type in the spec of the only machine of the
      group changes, then one of the pods that went or came is reported for exactly that machine. */
  lemma FilterComplete(
      before: seq<Pod>, gone: seq<Pod>, come: seq<Pod>, behind: seq<Pod>,
      c: Counter, m: Machine, group: string, t: string, machines: seq<Machine>, env: Env)
    requires ListGroup(machines, group) == [m]
    requires exists i :: 0 <= i < |m.types| && m.types[i].name == t
    requires forall p :: p in gone + come ==> p.namespace in env.namespaces
    requires Count(before + gone + behind, c, group, t, env) != Count(before + come + behind, c, group, t, env)
    ensures exists p :: p in gone + come && EventTarget(p, machines, env) == Some(m.name)
  {
    CountConcat(before + gone, behind, c, group, t, env);
    CountConcat(before + come, behind, c, group, t, env);
    CountConcat(before, gone, c, group, t, env);
    CountConcat(before, come, c, group, t, env);
    var changed := if Count(gone, c, group, t, env) > 0 then gone else come;
    PositiveCount(changed, c, group, t, env);
    var i :| 0 <= i < |changed| && CountsIn(changed[i], c, group, t, env);
    assert changed[i] in gone + come;
    CountedIsReported(changed[i], c, m, group, t, machines, env);
  }

  /** The machine is in this group and has this type in its spec. */
  predicate Offers(m: Machine, group: string, machineType: string) {
    InGroup(m, group) && exists i :: 0 <= i < |m.types| && m.types[i].name == machineType
  }

  /** And it reports only pods of the machine's own group and types. */
  lemma FilterSound(pod: Pod, machines: seq<Machine>, env: Env, name: string)
    requires EventTarget(pod, machines, env) == Some(name)
    ensures MACHINE_GROUP_KEY in pod.labels && MACHINE_TYPE_KEY in pod.labels
    ensures exists m ::
      m in machines && m.name == name && Offers(m, pod.labels[MACHINE_GROUP_KEY], pod.labels[MACHINE_TYPE_KEY])
  {
    var group := pod.labels[MACHINE_GROUP_KEY];
    var m := ListGroup(machines, group)[0];
    ListGroupElements(machines, group);
    assert m in ListGroup(machines, group);
    FindTypeFinds(m.types, pod.labels[MACHINE_TYPE_KEY]);
  }

  /** Exactly which pods are reported, and for whom: those in a readable namespace, which must have
      injection enabled for a guest, that name the group of exactly one machine and one of its types. */
  lemma FilterExact(pod: Pod, machines: seq<Machine>, env: Env, name: string)
    ensures EventTarget(pod, machines, env) == Some(name) <==>
      && pod.namespace in env.namespaces
      && (POD_ROLE_KEY in pod.labels && pod.labels[POD_ROLE_KEY] == ROLE_GUEST ==>
          var ns := env.namespaces[pod.namespace];
          INJECTION_KEY in ns && ns[INJECTION_KEY] == INJECTION_ENABLED)
      && MACHINE_GROUP_KEY in pod.labels && MACHINE_TYPE_KEY in pod.labels
      && exists m :: ListGroup(machines, pod.labels[MACHINE_GROUP_KEY]) == [m] && m.name == name
           && exists i :: 0 <= i < |m.types| && m.types[i].name == pod.labels[MACHINE_TYPE_KEY]
  {
    assert ROLE_GUEST != "" && INJECTION_ENABLED != "";
    if MACHINE_GROUP_KEY in pod.labels && MACHINE_TYPE_KEY in pod.labels {
      var items := ListGroup(machines, pod.labels[MACHINE_GROUP_KEY]);
      if |items| == 1 {
        assert items == [items[0]];
        FindTypeFinds(items[0].types, pod.labels[MACHINE_TYPE_KEY]);
      }
    }
  }
}
