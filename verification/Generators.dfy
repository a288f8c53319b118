/** What imperator puts on pods: the selector, tolerations and resources of a machine type, for the
    injected guest pods and for the reservation pods of a StatefulSet alike. */
module Generators {
  import opened Objects

  const NVIDIA_FAMILY_KEY: string := "nvidia.com/gpu.family"
  const NVIDIA_PRODUCT_KEY: string := "nvidia.com/gpu.product"
  const NVIDIA_MACHINE_KEY: string := "nvidia.com/gpu.machine"

  /** `getGPUSelector`: key and value, or nothing; the first field set wins. */
  function GPUSelector(gpu: GPUSpec): seq<string> {
    if gpu.family != "" then [NVIDIA_FAMILY_KEY, gpu.family]
    else if gpu.product != "" then [NVIDIA_PRODUCT_KEY, gpu.product]
    else if gpu.machine != "" then [NVIDIA_MACHINE_KEY, gpu.machine]
    else []
  }

  function MatchExpressions(mt: MachineType, group: string): Term {
    [Requirement(TypeKey(mt.name), In, [group]), Requirement(STATUS_KEY, In, [MODE_READY])]
    + if mt.gpu == None then []
      else
        var selector := GPUSelector(mt.gpu.value);
        if |selector| == 2 then [Requirement(selector[0], In, [selector[1]])] else []
  }

  /** The third requirement, in full: the GPU's family, or else its product, or else its machine. */
  lemma GPUTermIs(mt: MachineType, group: string)
    ensures var term := MatchExpressions(mt, group);
      if mt.gpu == None || (mt.gpu.value.family == "" && mt.gpu.value.product == "" && mt.gpu.value.machine == "")
      then |term| == 2
      else
        && |term| == 3
        && term[2] ==
          if mt.gpu.value.family != "" then Requirement(NVIDIA_FAMILY_KEY, In, [mt.gpu.value.family])
          else if mt.gpu.value.product != "" then Requirement(NVIDIA_PRODUCT_KEY, In, [mt.gpu.value.product])
          else Requirement(NVIDIA_MACHINE_KEY, In, [mt.gpu.value.machine])
  {
  }

  function GenerateToleration(machineType: string, group: string): seq<Toleration> {
    [ Toleration(TypeKey(machineType), Equal, group, Some(NoSchedule)),
      Toleration(STATUS_KEY, Equal, MODE_READY, Some(NoSchedule)) ]
  }

  type Resources = map<string, int>

  function ResourceList(mt: MachineType): Resources {
    var base: Resources := map["cpu" := mt.cpu, "memory" := mt.memory];
    if mt.gpu == None then base else base[mt.gpu.value.resource := mt.gpu.value.num]
  }

  /** Exactly the CPU, the memory and the GPUs of the machine type. A GPU resource called like one of the
      first two takes its place. */
  predicate AsksFor(r: Resources, mt: MachineType) {
    && r.Keys == {"cpu", "memory"} + (if mt.gpu.Some? then {mt.gpu.value.resource} else {})
    && (mt.gpu.Some? ==> r[mt.gpu.value.resource] == mt.gpu.value.num)
    && ((mt.gpu.Some? && mt.gpu.value.resource == "cpu") || r["cpu"] == mt.cpu)
    && ((mt.gpu.Some? && mt.gpu.value.resource == "memory") || r["memory"] == mt.memory)
  }

  lemma ResourcesAre(mt: MachineType)
    ensures AsksFor(ResourceList(mt), mt)
  {
    assert "cpu" != "memory";
  }

  function RoleLabels(group: string, machineType: string, role: string): Labels {
    map[MACHINE_GROUP_KEY := group, MACHINE_TYPE_KEY := machineType, POD_ROLE_KEY := role]
  }

  function ReservationName(group: string, machineType: string): string {
    group + "-" + machineType
  }

  datatype Container =
    Container(name: string, image: string, command: seq<string>, args: seq<string>,
              requests: Resources, limits: Resources)

  /** `GenerateSleeperContainer`, which asks for nothing yet. */
  const SLEEPER: Container := Container("sleeper", "alpine:3.15.0", ["sleep"], ["infinity"], map[], map[])

  datatype PodTemplate =
    PodTemplate(labels: Labels, tolerations: seq<Toleration>, terms: seq<Term>, containers: seq<Container>)

  datatype StatefulSet =
    StatefulSet(labels: Labels, selector: Labels, serviceName: string, replicas: int, template: PodTemplate)

  /** `GenerateStatefulSet`. */
  function ReservationSet(mt: MachineType, group: string, replicas: int): StatefulSet {
    var labels := RoleLabels(group, mt.name, ROLE_RESERVATION);
    StatefulSet(labels, labels, ReservationName(group, mt.name), replicas,
      PodTemplate(labels, GenerateToleration(mt.name, group), [MatchExpressions(mt, group)],
                  [SLEEPER.(requests := ResourceList(mt), limits := ResourceList(mt))]))
  }

  /** A StatefulSet under construction: whatever it held, generation overwrites every field. */
  class StatefulSetObject {
    var labels: Labels
    var selector: Labels
    var serviceName: string
    var replicas: int
    var template: PodTemplate

    constructor (origin: StatefulSet)
      ensures Value() == origin
    {
      labels, selector, serviceName := origin.labels, origin.selector, origin.serviceName;
      replicas, template := origin.replicas, origin.template;
    }

    function Value(): StatefulSet
      reads this
    {
      StatefulSet(labels, selector, serviceName, replicas, template)
    }

    method Generate(mt: MachineType, group: string, replica: int)
      modifies this
      ensures Value() == ReservationSet(mt, group, replica)
    {
      var stsLabels := RoleLabels(group, mt.name, ROLE_RESERVATION);
      labels := stsLabels;
      selector := stsLabels;
      serviceName := ReservationName(group, mt.name);
      replicas := replica;
      template := template.(labels := stsLabels);
      template := template.(tolerations := GenerateToleration(mt.name, group));
      template := template.(terms := [MatchExpressions(mt, group)]);
      var resources: Resources := map["cpu" := mt.cpu, "memory" := mt.memory];
      if mt.gpu.Some? {
        resources := resources[mt.gpu.value.resource := mt.gpu.value.num];
      }
      template := template.(containers := [SLEEPER]);
      var sleeper := template.containers[0].(requests := resources, limits := resources);
      template := template.(containers := template.containers[0 := sleeper]);
    }
  }

  const BLANK_SET: StatefulSet := StatefulSet(map[], map[], "", 0, PodTemplate(map[], [], [], []))

  datatype Service = Service(labels: Labels, selector: Labels, ports: seq<int>, kind: string)

  /** `GenerateService`. */
  function ReservationService(machineType: string, group: string): Service {
    var labels := RoleLabels(group, machineType, ROLE_RESERVATION);
    Service(labels, labels, [80], "ClusterIP")
  }

  lemma ReservationNameInjective(group: string, a: string, b: string)
    ensures ReservationName(group, a) == ReservationName(group, b) <==> a == b
    ensures group + "-" <= ReservationName(group, a)
  {
    assert ReservationName(group, a)[|group| + 1..] == a;
    assert ReservationName(group, b)[|group| + 1..] == b;
  }
}
