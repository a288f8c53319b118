/** Machine objects as the webhooks and the event filter look them up. */
module Machines {
  import opened Objects
  import opened MachineController

  datatype Machine =
    Machine(name: string, labels: Labels, types: seq<MachineType>, nodePool: seq<PoolEntry>, status: seq<Available>)

  predicate InGroup(m: Machine, group: string) {
    MACHINE_GROUP_KEY in m.labels && m.labels[MACHINE_GROUP_KEY] == group
  }

  /** A list call with the group label as its selector. */
  function ListGroup(machines: seq<Machine>, group: string): seq<Machine> {
    if machines == [] then []
    else (if InGroup(machines[0], group) then [machines[0]] else []) + ListGroup(machines[1..], group)
  }

  lemma ListGroupElements(machines: seq<Machine>, group: string)
    ensures forall m :: m in ListGroup(machines, group) <==> m in machines && InGroup(m, group)
  {
    if machines != [] {
      ListGroupElements(machines[1..], group);
      assert forall m :: m in machines <==> m == machines[0] || m in machines[1..];
    }
  }

  lemma NobodyInGroup(machines: seq<Machine>, group: string)
    requires forall i :: 0 <= i < |machines| ==> !InGroup(machines[i], group)
    ensures ListGroup(machines, group) == []
  {
    if machines != [] {
      NobodyInGroup(machines[1..], group);
    }
  }

  function FindType(types: seq<MachineType>, name: string): Option<MachineType> {
    if types == [] then None
    else if types[0].name == name then Some(types[0])
    else FindType(types[1..], name)
  }

  /** The first type of a name is the one that is found. */
  lemma {:induction false} FindTypeFirst(types: seq<MachineType>, i: nat)
    requires i < |types| && forall j :: 0 <= j < i ==> types[j].name != types[i].name
    ensures FindType(types, types[i].name) == Some(types[i])
  {
    if i > 0 {
      FindTypeFirst(types[1..], i - 1);
    }
  }

  lemma FindTypeFinds(types: seq<MachineType>, name: string)
    ensures FindType(types, name).Some? <==> exists i :: 0 <= i < |types| && types[i].name == name
  {
    if types != [] {
      FindTypeFinds(types[1..], name);
      assert forall i :: 1 <= i < |types| ==> types[i] == types[1..][i - 1];
      assert forall i :: 0 <= i < |types| - 1 ==> types[1..][i] == types[i + 1];
    }
  }

  /** The first machine of the group comes first. */
  lemma {:induction false} ListGroupFirst(machines: seq<Machine>, n: nat, group: string)
    requires n < |machines| && InGroup(machines[n], group)
    requires forall k :: 0 <= k < n ==> !InGroup(machines[k], group)
    ensures ListGroup(machines, group) != [] && ListGroup(machines, group)[0] == machines[n]
  {
    if n > 0 {
      ListGroupFirst(machines[1..], n - 1, group);
      assert ListGroup(machines, group) == [] + ListGroup(machines[1..], group) == ListGroup(machines[1..], group);
    }
  }
}
