/** The validating webhook of Machine, and what the controllers may and may not take from it. */
module Webhook {
  import opened Objects
  import opened Generators
  import opened Pods
  import opened MachineController
  import opened MachineRuns
  import opened Machines
  import opened NodeWalks
  import opened NodePasses
  import opened RepeatedNames

  // ----- the validators -----

  /** `ValidateLabel`: a group label, and no other machine has the group. */
  method ValidateLabel(m: Machine, machines: seq<Machine>) returns (ok: bool)
    ensures ok <==> LabelOk(machines, m)
  {
    if MACHINE_GROUP_KEY !in m.labels {
      return false;
    }
    var items := ListGroup(machines, m.labels[MACHINE_GROUP_KEY]);
    ListGroupElements(machines, m.labels[MACHINE_GROUP_KEY]);
    if |items| == 0 {
      assert forall x :: x in machines && InGroup(x, m.labels[MACHINE_GROUP_KEY]) ==> x in items;
      return true;
    }
    for n := 0 to |items|
      invariant forall k :: 0 <= k < n ==> items[k].name == m.name
    {
      if items[n].name != m.name {
        assert items[n] in items;
        return false;
      }
    }
    return true;
  }

  predicate LabelOk(machines: seq<Machine>, m: Machine) {
    && MACHINE_GROUP_KEY in m.labels
    && forall x :: x in machines && InGroup(x, m.labels[MACHINE_GROUP_KEY]) ==> x.name == m.name
  }

  predicate NamesOk(m: Machine) {
    && Distinct(TypeNames(m.types))
    && (forall i :: 0 <= i < |m.nodePool| ==>
      |m.nodePool[i].types| == 1 && m.nodePool[i].types[0] in TypeNames(m.types))
  }

  predicate HasType(m: Machine, name: string) {
    exists k :: 0 <= k < |m.types| && m.types[k].name == name
  }

  lemma TypeNamesAre(m: Machine, name: string)
    ensures name in TypeNames(m.types) <==> HasType(m, name)
  {
    if k :| 0 <= k < |m.types| && m.types[k].name == name {
      assert TypeNames(m.types)[k] == name;
    }
  }

  /** In full: no two types of one name, and entries with one type each, which some type is called. */
  lemma NamesOkIs(m: Machine)
    ensures NamesOk(m) <==>
      && (forall i, j :: 0 <= i < j < |m.types| ==> m.types[i].name != m.types[j].name)
      && (forall i :: 0 <= i < |m.nodePool| ==> |m.nodePool[i].types| == 1 && HasType(m, m.nodePool[i].types[0]))
  {
    var names := TypeNames(m.types);
    forall i, j | 0 <= i < j < |m.types|
      ensures names[i] == names[j] <==> m.types[i].name == m.types[j].name
    {
    }
    assert Distinct(names) <==> forall i, j :: 0 <= i < j < |m.types| ==> m.types[i].name != m.types[j].name;
    forall name ensures name in names <==> HasType(m, name) {
      TypeNamesAre(m, name);
    }
  }

  /** `ValidateNodePoolMachineTypeName`: distinct type names, and exactly one known type per entry. */
  method ValidateNodePoolMachineTypeName(m: Machine) returns (ok: bool)
    ensures ok <==> NamesOk(m)
  {
    ghost var names := TypeNames(m.types);
    var known: set<string> := {};
    for n := 0 to |m.types|
      invariant known == set k | k in names[..n]
      invariant Distinct(names[..n])
    {
      assert names[..n + 1] == names[..n] + [names[n]];
      if m.types[n].name in known {
        var k :| 0 <= k < n && m.types[k].name == m.types[n].name;
        assert names[k] == names[n];
        return false;
      }
      known := known + {m.types[n].name};
    }
    assert names[..|m.types|] == names;
    for i := 0 to |m.nodePool|
      invariant forall k :: 0 <= k < i ==> |m.nodePool[k].types| == 1 && m.nodePool[k].types[0] in names
    {
      var types := m.nodePool[i].types;
      if |types| != 1 {
        return false;
      }
      if types[0] !in known {
        return false;
      }
    }
    return true;
  }

  /** The selector fields that are set, in the order the webhook looks at them. */
  function SelectorsSet(gpu: GPUSpec): seq<string> {
    (if gpu.family == "" then [] else [gpu.family])
    + (if gpu.product == "" then [] else [gpu.product])
    + (if gpu.machine == "" then [] else [gpu.machine])
  }

  predicate GPUOk(gpu: GPUSpec) {
    gpu.resource != "" && gpu.num >= 0 && |SelectorsSet(gpu)| == 1
  }

  /** `ValidateGPUSpec`. */
  method ValidateGPUSpec(m: Machine) returns (ok: bool)
    ensures ok <==> forall i :: 0 <= i < |m.types| && m.types[i].gpu.Some? ==>
      var gpu := m.types[i].gpu.value;
      && gpu.resource != "" && gpu.num >= 0
      && (gpu.family != "" || gpu.product != "" || gpu.machine != "")
      && (gpu.family == "" || (gpu.product == "" && gpu.machine == ""))
      && (gpu.product == "" || gpu.machine == "")
  {
    for n := 0 to |m.types|
      invariant forall i :: 0 <= i < n && m.types[i].gpu.Some? ==> GPUOk(m.types[i].gpu.value)
    {
      if m.types[n].gpu == None {
        continue;
      }
      var gpu := m.types[n].gpu.value;
      if gpu.resource == "" || gpu.num < 0 {
        return false;
      }
      var found := [];
      if gpu.family != "" {
        found := found + [gpu.family];
      }
      if gpu.product != "" {
        found := found + [gpu.product];
      }
      if gpu.machine != "" {
        found := found + [gpu.machine];
      }
      assert found == SelectorsSet(gpu);
      if |found| != 1 {
        return false;
      }
    }
    return true;
  }

  /** For a validated GPU the generated selector is the one field that is set, so a pod of the type
      always asks for exactly that GPU. */
  lemma ValidGPUSelects(mt: MachineType, group: string)
    requires mt.gpu.Some? && GPUOk(mt.gpu.value)
    ensures |MatchExpressions(mt, group)| == 3
    ensures MatchExpressions(mt, group)[2].values == SelectorsSet(mt.gpu.value)
    ensures MatchExpressions(mt, group)[2].key ==
      if mt.gpu.value.family != "" then NVIDIA_FAMILY_KEY
      else if mt.gpu.value.product != "" then NVIDIA_PRODUCT_KEY
      else NVIDIA_MACHINE_KEY
  {
    var gpu := mt.gpu.value;
    assert SelectorsSet(gpu) == if gpu.family != "" then [gpu.family]
      else if gpu.product != "" then [gpu.product] else [gpu.machine];
  }

  /** After validation every type a node pool entry names is a type of the spec, so once two passes
      have settled every entry's type has its reservation. */
  lemma EveryEntryIsReserved(m: Machine, group: string, pods: seq<Pod>, env: Env, w: World, i: nat)
    requires NamesOk(m) && i < |m.nodePool|
    requires Readable(group, EntryNames(MachineSpec(group, m.types, m.nodePool), w.status), pods, env)
    ensures var spec := MachineSpec(group, m.types, m.nodePool);
      var settled := Pass(spec, pods, env, Pass(spec, pods, env, w));
      exists k :: 0 <= k < |m.types| && m.types[k].name == m.nodePool[i].types[0]
        && Sized(settled.sets, spec, m.types[k], pods, env)
  {
    var spec := MachineSpec(group, m.types, m.nodePool);
    TwoPassesSettle(spec, pods, env, w);
    var k :| 0 <= k < |m.types| && TypeNames(m.types)[k] == m.nodePool[i].types[0];
    assert spec.types[k].name in spec.nodePool[i].types;
    assert Referenced(spec.nodePool, spec.types[k].name);
  }

  /** No later entry lists the node of entry `j`. */
  predicate LastListing(entries: seq<PoolEntry>, j: nat)
    requires j < |entries|
  {
    forall k :: j < k < |entries| ==> entries[k].name != entries[j].name
  }

  /** Entries of one node have the type of the last of them, or the type `node-pool`. */
  predicate TypesAgree(entries: seq<PoolEntry>) {
    forall i, j :: 0 <= i < j < |entries| && entries[i].name == entries[j].name && LastListing(entries, j) ==>
      entries[i].types == entries[j].types || entries[i].types == [NODE_POOL_NAME]
  }

  lemma SingleKey(types: seq<string>, other: seq<string>)
    requires |types| == |other| == 1
    ensures (forall k :: k in TypeKeys(types) && k != STATUS_KEY ==> k in TypeKeys(other)) <==>
      types == other || types == [NODE_POOL_NAME]
  {
    StatusKeyIsATypeKey(types[0]);
    TypeKeyInjective(types[0], other[0]);
    assert types == [types[0]] && other == [other[0]];
    assert TypeKeys(types) == [TypeKey(types[0])] && TypeKeys(other) == [TypeKey(other[0])];
    assert TypeKey(types[0]) in TypeKeys(types);
  }

  lemma TypesAgreeIs(pool: Pool)
    requires forall i :: 0 <= i < |pool.entries| ==> |pool.entries[i].types| == 1
    ensures KeysAgree(pool) <==> TypesAgree(pool.entries)
  {
    var entries := pool.entries;
    if KeysAgree(pool) {
      forall i, j | 0 <= i < j < |entries| && entries[i].name == entries[j].name && LastListing(entries, j)
        ensures entries[i].types == entries[j].types || entries[i].types == [NODE_POOL_NAME]
      {
        KeysForName(entries, j);
        assert LookupKeys(pool, i) == TypeKeys(entries[j].types);
        SingleKey(entries[i].types, entries[j].types);
      }
    }
    if TypesAgree(entries) {
      forall i | 0 <= i < |entries|
        ensures forall k :: k in EntryKeys(pool, i) && k != STATUS_KEY ==> k in LookupKeys(pool, i)
      {
        var l := LastEntry(entries, i);
        SingleKey(entries[i].types, entries[l].types);
      }
    }
  }

  /** What the webhook leaves open for the node pool of a machine it lets through. Marking its free
      nodes and cleaning up afterwards restores them exactly if no tainted entry has the type
      `node-pool`, entries of one node agree on their type, and repeated entries come last. */
  lemma WebhookGap(m: Machine, group: string, store: Store, api: Api, api': Api, envtest: bool)
    requires NamesOk(m) && AllFree(store, Pool(group, m.nodePool)) && Faultless(api')
    requires MarkPass(store, Pool(group, m.nodePool), api, envtest).1 == Done
    ensures var pool := Pool(group, m.nodePool);
      CleanPass(MarkPass(store, pool, api, envtest).0, pool, api') == (store, Done) <==>
        && (forall i :: 0 <= i < |m.nodePool| && m.nodePool[i].taint ==> m.nodePool[i].types != [NODE_POOL_NAME])
        && TypesAgree(m.nodePool)
        && RepeatsLast(pool)
  {
    var pool := Pool(group, m.nodePool);
    forall i | 0 <= i < |m.nodePool|
      ensures NODE_POOL_NAME in m.nodePool[i].types <==> m.nodePool[i].types == [NODE_POOL_NAME]
    {
      assert m.nodePool[i].types == [m.nodePool[i].types[0]];
    }
    TypesAgreeIs(pool);
    MarkCleanExact(store, pool, api, api', envtest);
  }

  // ----- group uniqueness -----

  datatype Operation = Create(m: Machine) | Update(m: Machine) | Remove(name: string)

  function IndexOf(store: seq<Machine>, name: string): (i: int)
    ensures -1 <= i < |store|
    ensures i >= 0 ==> store[i].name == name
    ensures i == -1 ==> forall q :: 0 <= q < |store| ==> store[q].name != name
  {
    if store == [] then -1
    else if store[0].name == name then 0
    else
      var i := IndexOf(store[1..], name);
      assert forall q :: 1 <= q < |store| ==> store[q] == store[1..][q - 1];
      if i < 0 then -1 else i + 1
  }

  /** One validated request against the current store; None when it is refused. */
  function Apply(store: seq<Machine>, op: Operation): Option<seq<Machine>> {
    match op
    case Create(m) =>
      if IndexOf(store, m.name) < 0 && LabelOk(store, m) then Some(store + [m]) else None
    case Update(m) =>
      var i := IndexOf(store, m.name);
      if i >= 0 && LabelOk(store, m) then Some(store[i := m]) else None
    case Remove(name) =>
      var i := IndexOf(store, name);
      if i >= 0 then Some(store[..i] + store[i + 1..]) else None
  }

  function ApplyAll(store: seq<Machine>, ops: seq<Operation>): Option<seq<Machine>>
    decreases |ops|
  {
    if ops == [] then Some(store)
    else
      match Apply(store, ops[0])
      case None => None
      case Some(next) => ApplyAll(next, ops[1..])
  }

  /** Which requests pass: creates under a new name with a group
      of which there is no machine, updates that keep the group for themselves, and deletes of what is there. */
  lemma ApplyExact(store: seq<Machine>, op: Operation)
    ensures Apply(store, op).Some? <==>
      match op
      case Create(m) =>
        && (forall x :: x in store ==> x.name != m.name)
        && MACHINE_GROUP_KEY in m.labels
        && (forall x :: x in store ==> !SharesGroup(m, x))
      case Update(m) =>
        && (exists x :: x in store && x.name == m.name)
        && MACHINE_GROUP_KEY in m.labels
        && (forall x :: x in store && SharesGroup(m, x) ==> x.name == m.name)
      case Remove(name) => exists x :: x in store && x.name == name
  {
    var name := if op.Remove? then op.name else op.m.name;
    var i := IndexOf(store, name);
    if i >= 0 {
      assert store[i] in store;
    } else {
      forall x | x in store ensures x.name != name {
        var q :| 0 <= q < |store| && store[q] == x;
      }
    }
  }

  predicate SharesGroup(a: Machine, b: Machine) {
    MACHINE_GROUP_KEY in a.labels && InGroup(b, a.labels[MACHINE_GROUP_KEY])
  }

  ghost predicate Unambiguous(store: seq<Machine>) {
    forall i, j :: 0 <= i < j < |store| ==> store[i].name != store[j].name && !SharesGroup(store[i], store[j])
  }

  lemma ApplyKeeps(store: seq<Machine>, op: Operation)
    requires Unambiguous(store) && Apply(store, op).Some?
    ensures Unambiguous(Apply(store, op).value)
  {
    var next := Apply(store, op).value;
    forall i, j | 0 <= i < j < |next| ensures next[i].name != next[j].name && !SharesGroup(next[i], next[j]) {
      match op
      case Create(m) =>
        assert store[i] in store;
      case Update(m) =>
        assert store[i] in store && store[j] in store;
      case Remove(name) =>
        var k := IndexOf(store, name);
        assert next[i] == store[if i < k then i else i + 1] && next[j] == store[if j < k then j else j + 1];
    }
  }

  lemma {:induction false} UnambiguousLists(store: seq<Machine>, group: string)
    requires Unambiguous(store)
    ensures |ListGroup(store, group)| <= 1
  {
    if store != [] {
      var rest := store[1..];
      assert forall i :: 0 <= i < |rest| ==> rest[i] == store[i + 1];
      UnambiguousLists(rest, group);
      if InGroup(store[0], group) {
        forall i | 0 <= i < |rest| ensures !InGroup(rest[i], group) {
          assert !SharesGroup(store[0], store[i + 1]);
        }
        NobodyInGroup(rest, group);
      }
    }
  }

  /** Over any sequence of creates, updates and deletes, each validated against the store it meets, no
      group ever has two machines: the first item of a group is the only one. */
  lemma {:induction false} GroupsStayUnique(store: seq<Machine>, ops: seq<Operation>, group: string)
    requires Unambiguous(store) && ApplyAll(store, ops).Some?
    ensures Unambiguous(ApplyAll(store, ops).value)
    ensures |ListGroup(ApplyAll(store, ops).value, group)| <= 1
    decreases |ops|
  {
    if ops == [] {
      UnambiguousLists(store, group);
    } else {
      ApplyKeeps(store, ops[0]);
      GroupsStayUnique(Apply(store, ops[0]).value, ops[1..], group);
    }
  }

  /** Validation against one and the same snapshot does not give this: two machines of one group can
      both pass. */
  lemma SnapshotsRace(a: Machine, b: Machine, group: string)
    requires a.name != b.name && InGroup(a, group) && InGroup(b, group)
    ensures LabelOk([], a) && LabelOk([], b)
    ensures |ListGroup([a, b], group)| == 2
  {
    assert [a, b][1..] == [b] && [b][1..] == [];
    assert ListGroup([b], group) == [b] + ListGroup([], group) == [b];
    assert ListGroup([a, b], group) == [a] + ListGroup([b], group);
  }
}
