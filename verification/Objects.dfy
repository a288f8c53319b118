/** The Kubernetes and imperator objects every other module talks about, and the
    label, annotation and taint keys imperator writes. */
module Objects {

  datatype Option<+T> = None | Some(value: T)

  datatype Effect = NoSchedule | PreferNoSchedule | NoExecute

  datatype Taint = Taint(key: string, value: string, effect: Effect, timeAdded: Option<int>)

  /** A taint with its timestamp forgotten: every marking pass rewrites that field. */
  function Timeless(t: Taint): Taint {
    t.(timeAdded := None)
  }

  datatype TolerationOp = Equal | Exists

  datatype Toleration =
    Toleration(key: string, operator: TolerationOp, value: string, effect: Option<Effect>)

  datatype SelectorOp = In | NotIn | HasKey | LacksKey

  datatype Requirement = Requirement(key: string, operator: SelectorOp, values: seq<string>)

  /** A node selector term: its expressions are conjoined. */
  type Term = seq<Requirement>

  type Labels = map<string, string>

  datatype GPUSpec =
    GPUSpec(resource: string, num: int, family: string, product: string, machine: string)

  /** Quantities are opaque here; `num` keeps its sign because the webhook looks at it. */
  datatype MachineType =
    MachineType(name: string, cpu: int, memory: int, gpu: Option<GPUSpec>, available: int)

  datatype PoolEntry = PoolEntry(name: string, mode: string, taint: bool, types: seq<string>)

  const GROUP_PREFIX: string := "imperator.tenzen-y.io"
  const MACHINE_GROUP_KEY: string := "imperator.tenzen-y.io/machine-group"
  const STATUS_KEY: string := "imperator.tenzen-y.io/node-pool"
  const MACHINE_TYPE_KEY: string := "imperator.tenzen-y.io/machine-type"
  const POD_ROLE_KEY: string := "imperator.tenzen-y.io/pod-role"
  const ROLE_RESERVATION: string := "reservation"
  const ROLE_GUEST: string := "guest"
  const INJECTION_KEY: string := "imperator.tenzen.io/inject-resource"
  const INJECTION_ENABLED: string := "enabled"
  const INJECT_CONTAINER_KEY: string := "imperator.tenzen-y.io/injecting-container"

  const MODE_READY: string := "ready"
  const MODE_NOT_READY: string := "not-ready"
  const MODE_MAINTENANCE: string := "maintenance"

  const NOT_READY_TAINT: string := "node.kubernetes.io/not-ready"
  const CANNOT_USE_TAINTS: seq<string> :=
    [ "node.kubernetes.io/not-ready",
      "node.kubernetes.io/unschedulable",
      "node.kubernetes.io/network-unavailable",
      "node.kubernetes.io/unreachable" ]

  const NODE_POOL_NAME: string := "node-pool"

  /** The label and taint key of a machine type. */
  function TypeKey(machineType: string): string {
    GROUP_PREFIX + "/" + machineType
  }

  function TypeKeys(types: seq<string>): (keys: seq<string>)
    ensures |keys| == |types|
    ensures forall i :: 0 <= i < |types| ==> keys[i] == TypeKey(types[i])
  {
    if types == [] then [] else [TypeKey(types[0])] + TypeKeys(types[1..])
  }

  function Lookup(m: Labels, key: string): string {
    if key in m then m[key] else ""
  }

  predicate Distinct<T(==)>(s: seq<T>) {
    forall i, j :: 0 <= i < j < |s| ==> s[i] != s[j]
  }

  lemma TypeKeyInjective(a: string, b: string)
    ensures TypeKey(a) == TypeKey(b) <==> a == b
  {
    assert TypeKey(a)[|GROUP_PREFIX| + 1..] == a;
    assert TypeKey(b)[|GROUP_PREFIX| + 1..] == b;
  }

  /** The only type name whose key is the status key is `node-pool`. */
  lemma StatusKeyIsATypeKey(name: string)
    ensures TypeKey(name) == STATUS_KEY <==> name == NODE_POOL_NAME
  {
    assert TypeKey(NODE_POOL_NAME) == STATUS_KEY;
    TypeKeyInjective(name, NODE_POOL_NAME);
  }

  /** None of the taints that take a node out of service is an imperator key. */
  lemma CannotUseTaintsAreForeign(name: string)
    ensures TypeKey(name) !in CANNOT_USE_TAINTS
    ensures STATUS_KEY !in CANNOT_USE_TAINTS
  {
    assert TypeKey(name)[0] == 'i' && STATUS_KEY[0] == 'i';
    assert forall k :: 0 <= k < |CANNOT_USE_TAINTS| ==> CANNOT_USE_TAINTS[k][0] == 'n';
  }
}
