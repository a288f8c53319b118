/** The pod resource injector: the admission gate and the edits it makes to a guest pod. */
module Injector {
  import opened Objects
  import opened Generators
  import opened GoSlices
  import opened TermSurgery
  import opened TolerationSurgery
  import opened MachineController
  import opened Machines

  /** Affinity may be absent, or present without its node part. */
  datatype Affinity = NoAffinity | NoNodeAffinity | NodeAffinity(required: Option<seq<Term>>)

  datatype PodSpec =
    PodSpec(labels: Labels, containers: seq<Container>, affinity: Affinity, tolerations: seq<Toleration>)

  /** `Ignored` pods pass through unchanged. */
  datatype Verdict = Admitted(machineType: MachineType) | Denied | Crashed | Ignored

  /** `findMachineType` and the check on what is left: the first machine of the group decides. A
      type that has no usage entry yet is a nil dereference. */
  function Gate(machines: seq<Machine>, group: string, name: string): Verdict {
    var items := ListGroup(machines, group);
    if items == [] then Denied
    else
      match FindType(items[0].types, name)
      case None => Denied
      case Some(mt) =>
        match FindUsage(items[0].status, name)
        case None => Crashed
        case Some(usage) => if usage.reserved == 0 then Denied else Admitted(mt)
  }

  /** `findInjectingTargetContainerIndex`: the first container of the requested name, or 0. */
  function TargetContainer(labels: Labels, containers: seq<Container>): nat {
    if INJECT_CONTAINER_KEY in labels then
      var i := FindContainer(containers, labels[INJECT_CONTAINER_KEY]);
      if i < 0 then 0 else i
    else 0
  }

  function FindContainer(containers: seq<Container>, name: string): (i: int)
    ensures -1 <= i < |containers|
    ensures i >= 0 ==> containers[i].name == name && forall q :: 0 <= q < i ==> containers[q].name != name
    ensures i == -1 ==> forall q :: 0 <= q < |containers| ==> containers[q].name != name
  {
    if containers == [] then -1
    else if containers[0].name == name then 0
    else
      var i := FindContainer(containers[1..], name);
      assert forall q :: 1 <= q < |containers| ==> containers[q] == containers[1..][q - 1];
      if i < 0 then -1 else i + 1
  }

  /** The terms the injector starts from; None is a nil dereference. */
  function PriorTerms(affinity: Affinity): Option<seq<Term>> {
    match affinity
    case NoAffinity => Some([])
    case NoNodeAffinity => None
    case NodeAffinity(None) => Some([])
    case NodeAffinity(Some(terms)) => Some(terms)
  }

  /** `injectPodAffinity`. */
  function InjectAffinity(affinity: Affinity, exprs: Term): Option<Affinity>
    requires Valued(exprs)
  {
    match PriorTerms(affinity)
    case None => None
    case Some(prior) =>
      match StripTerms(prior, InjectedKeys(exprs))
      case None => None
      case Some(terms) => Some(NodeAffinity(Some(terms + [exprs])))
  }

  /** What admission makes of a pod for a machine type; None is a panic. */
  function Inject(spec: PodSpec, mt: MachineType, group: string): Option<PodSpec> {
    var idx := TargetContainer(spec.labels, spec.containers);
    if idx >= |spec.containers| then None
    else
      match InjectAffinity(spec.affinity, MatchExpressions(mt, group))
      case None => None
      case Some(affinity) =>
        Some(PodSpec(
          spec.labels,
          spec.containers[idx := spec.containers[idx].(requests := ResourceList(mt), limits := ResourceList(mt))],
          affinity,
          InjectTolerations(spec.tolerations, GenerateToleration(mt.name, group))))
  }

  /** What becomes of a new guest pod. */
  function Judge(spec: PodSpec, machines: seq<Machine>): Verdict {
    var group := Lookup(spec.labels, MACHINE_GROUP_KEY);
    match Gate(machines, group, Lookup(spec.labels, MACHINE_TYPE_KEY))
    case Admitted(mt) => if Inject(spec, mt, group).Some? then Admitted(mt) else Crashed
    case verdict => verdict
  }

  /** Injection panics exactly for a pod without containers, for an affinity without node part, and for
      a selector term in which the surgery meets an expression without values. */
  lemma InjectPanics(spec: PodSpec, mt: MachineType, group: string)
    ensures Inject(spec, mt, group) == None <==>
      || spec.containers == []
      || spec.affinity == NoNodeAffinity
      || exists i :: 0 <= i < |OwnTerms(spec.affinity)|
           && Panics(OwnTerms(spec.affinity)[i], InjectedKeys(MatchExpressions(mt, group)))
  {
    StripTermsEach(OwnTerms(spec.affinity), InjectedKeys(MatchExpressions(mt, group)));
  }

  function OwnTerms(affinity: Affinity): seq<Term> {
    if affinity.NodeAffinity? && affinity.required.Some? then affinity.required.value else []
  }

  /** `requiredInjection`. */
  predicate Required(labels: Labels) {
    && MACHINE_GROUP_KEY in labels
    && MACHINE_TYPE_KEY in labels
    && Lookup(labels, POD_ROLE_KEY) == ROLE_GUEST
  }

  /** Injection picks the first container of the requested name, or container 0 when there is no such
      name, and leaves every other container, all names and all labels alone. */
  lemma InjectTouchesOneContainer(spec: PodSpec, mt: MachineType, group: string)
    requires Inject(spec, mt, group).Some?
    ensures var idx := TargetContainer(spec.labels, spec.containers);
      var after := Inject(spec, mt, group).value;
      && idx < |spec.containers| == |after.containers|
      && after.labels == spec.labels
      && after.containers[idx].(requests := map[], limits := map[])
         == spec.containers[idx].(requests := map[], limits := map[])
      && (forall j :: 0 <= j < |spec.containers| && j != idx ==> after.containers[j] == spec.containers[j])
      && (INJECT_CONTAINER_KEY in spec.labels ==>
          var wanted := spec.labels[INJECT_CONTAINER_KEY];
          (exists j :: 0 <= j < |spec.containers| && spec.containers[j].name == wanted) ==>
            spec.containers[idx].name == wanted && forall j :: 0 <= j < idx ==> spec.containers[j].name != wanted)
      && (idx != 0 ==> INJECT_CONTAINER_KEY in spec.labels)
      && (idx != 0 ==> spec.containers[idx].name == spec.labels[INJECT_CONTAINER_KEY])
  {
  }

  /** The target container asks for, and is limited to, exactly what the machine type has. */
  lemma InjectedResources(spec: PodSpec, mt: MachineType, group: string)
    requires Inject(spec, mt, group).Some?
    ensures var container := Inject(spec, mt, group).value.containers[TargetContainer(spec.labels, spec.containers)];
      AsksFor(container.requests, mt) && AsksFor(container.limits, mt)
  {
    ResourcesAre(mt);
  }

  /** Each of the guest's own terms keeps every requirement whose first value differs from the one injected
      for its key, in its place among the terms. */
  lemma OwnTermsKept(spec: PodSpec, mt: MachineType, group: string, i: nat, e: Requirement)
    requires Inject(spec, mt, group).Some?
    requires i < |OwnTerms(spec.affinity)| && e in OwnTerms(spec.affinity)[i]
    requires var injected := InjectedKeys(MatchExpressions(mt, group));
      e.values == [] || e.values[0] != if e.key in injected then injected[e.key] else ""
    ensures var after := OwnTerms(Inject(spec, mt, group).value.affinity);
      |after| == |OwnTerms(spec.affinity)| + 1 && e in after[i]
  {
    var injected := InjectedKeys(MatchExpressions(mt, group));
    StripTermsAt(OwnTerms(spec.affinity), injected, i);
    OwnRequirementKept(OwnTerms(spec.affinity)[i], injected, e);
  }

  lemma {:induction false} StripTermsAt(terms: seq<Term>, injected: Labels, i: nat)
    requires StripTerms(terms, injected).Some? && i < |terms|
    ensures |StripTerms(terms, injected).value| == |terms|
    ensures StripTerm(terms[i], injected) == Some(StripTerms(terms, injected).value[i])
  {
    if i > 0 {
      StripTermsAt(terms[1..], injected, i - 1);
    } else {
      StripTermsLength(terms[1..], injected);
    }
  }

  lemma StripTermsLength(terms: seq<Term>, injected: Labels)
    requires StripTerms(terms, injected).Some?
    ensures |StripTerms(terms, injected).value| == |terms|
  {
  }

  /** The removal loop on one selector term, in place on its array. */
  method StripInPlace(s: Slice<Requirement>, injected: Labels) returns (crashed: bool, r: Slice<Requirement>)
    requires s.Valid()
    modifies s.data
    ensures r.Valid() && r.data == s.data
    ensures crashed <==> StripTerm(old(s.Contents()), injected) == None
    ensures !crashed ==> StripTerm(old(s.Contents()), injected) == Some(r.Contents())
  {
    var n := s.len;
    r := s;
    crashed := false;
    ghost var hit := false;
    for i := 0 to n
      invariant hit ==> n > 0
      invariant r == Slice(s.data, if hit then n - 1 else n)
      invariant SurgeryRun(s.data[..n], i, hit, injected) == StripTerm(old(s.Contents()), injected)
    {
      assert s.data[..n][i] == s.data[i];
      if s.data[i].values == [] {
        crashed := true;
        return;
      }
      if !Duplicate(injected, s.data[i]) {
        continue;
      }
      if i == n - 1 {
        r := Slice(s.data, n - 1);
      } else {
        r := DeleteWithin(s, n, i);
      }
      hit := true;
    }
    assert hit ==> s.data[..n][..n - 1] == s.data[..n - 1];
  }

  function Combine(done: seq<Term>, rest: Option<seq<Term>>): Option<seq<Term>> {
    match rest
    case None => None
    case Some(terms) => Some(done + terms)
  }

  lemma CombineOne(done: seq<Term>, first: Term, rest: Option<seq<Term>>)
    ensures Combine(done, Combine([first], rest)) == Combine(done + [first], rest)
    ensures Combine([], rest) == rest
  {
    if rest.Some? {
      assert done + ([first] + rest.value) == done + [first] + rest.value;
      assert [] + rest.value == rest.value;
    }
  }

  /** The loop over the selector terms; each term has an array of its own. */
  method StripAllTerms(terms: seq<Term>, injected: Labels) returns (crashed: bool, r: seq<Term>)
    ensures crashed <==> StripTerms(terms, injected) == None
    ensures !crashed ==> StripTerms(terms, injected) == Some(r)
  {
    r := [];
    CombineOne([], [], StripTerms(terms, injected));
    for i := 0 to |terms|
      invariant StripTerms(terms, injected) == Combine(r, StripTerms(terms[i..], injected))
    {
      var slice := FromSeq(terms[i]);
      var broken, stripped := StripInPlace(slice, injected);
      assert terms[i..][0] == terms[i] && terms[i..][1..] == terms[i + 1..];
      if broken {
        return true, r;
      }
      CombineOne(r, stripped.Contents(), StripTerms(terms[i + 1..], injected));
      r := r + [stripped.Contents()];
    }
    assert terms[|terms|..] == [] && r + [] == r;
    crashed := false;
  }

  /** Only admitted pods are edited, and exactly as `Inject` says. */
  predicate Edited(before: PodSpec, verdict: Verdict, after: PodSpec) {
    match verdict
    case Admitted(mt) => Inject(before, mt, Lookup(before.labels, MACHINE_GROUP_KEY)) == Some(after)
    case Crashed => true
    case _ => after == before
  }

  /** A pod under admission. */
  class GuestPod {
    var labels: Labels
    var containers: seq<Container>
    var affinity: Affinity
    var tolerations: Slice<Toleration>

    predicate Valid()
      reads this
    {
      tolerations.Valid()
    }

    function Value(): PodSpec
      requires Valid()
      reads this, tolerations.data
    {
      PodSpec(labels, containers, affinity, tolerations.Contents())
    }

    constructor (spec: PodSpec)
      ensures Valid() && fresh(tolerations.data) && Value() == spec
    {
      var ts := FromSeq(spec.tolerations);
      labels, containers, affinity, tolerations := spec.labels, spec.containers, spec.affinity, ts;
    }

    method InjectResource(mt: MachineType, idx: nat)
      requires idx < |containers|
      modifies this`containers
      ensures containers
           == old(containers)[idx := old(containers)[idx].(requests := ResourceList(mt), limits := ResourceList(mt))]
    {
      containers := containers[idx := containers[idx].(requests := ResourceList(mt), limits := ResourceList(mt))];
    }

    method InjectPodAffinity(exprs: Term) returns (crashed: bool)
      requires Valued(exprs)
      modifies this`affinity
      ensures crashed <==> InjectAffinity(old(affinity), exprs) == None
      ensures !crashed ==> InjectAffinity(old(affinity), exprs) == Some(affinity)
    {
      var injected: Labels := map[];
      for k := 0 to |exprs|
        invariant injected == InjectedKeys(exprs[..k])
      {
        assert exprs[..k + 1][..k] == exprs[..k];
        injected := injected[exprs[k].key := exprs[k].values[0]];
      }
      assert exprs[..|exprs|] == exprs;
      if affinity == NoAffinity {
        affinity := NodeAffinity(Some([]));
      } else if affinity == NoNodeAffinity {
        return true;
      } else if affinity.required == None {
        affinity := NodeAffinity(Some([]));
      }
      var terms;
      crashed, terms := StripAllTerms(affinity.required.value, injected);
      if !crashed {
        affinity := NodeAffinity(Some(terms + [exprs]));
      }
    }

    method InjectPodToleration(generated: seq<Toleration>)
      requires Valid()
      modifies this`tolerations, tolerations.data
      ensures Valid() && (tolerations.data == old(tolerations.data) || fresh(tolerations.data))
      ensures tolerations.Contents() == InjectTolerations(old(tolerations.Contents()), generated)
    {
      for n := 0 to |generated|
        invariant Valid() && (tolerations.data == old(tolerations.data) || fresh(tolerations.data))
        invariant InjectTolerations(tolerations.Contents(), generated[n..])
               == InjectTolerations(old(tolerations.Contents()), generated)
      {
        var t := generated[n];
        assert generated[n..][1..] == generated[n + 1..];
        RemoveToleration(t);
        tolerations := Append(tolerations, t);
      }
    }

    method RemoveToleration(t: Toleration)
      requires Valid()
      modifies this`tolerations, tolerations.data
      ensures Valid() && tolerations.data == old(tolerations.data)
      ensures tolerations.Contents() == DropToleration(old(tolerations.Contents()), t)
    {
      ghost var before := tolerations.Contents();
      var dup := SearchToleration(t);
      if dup >= 0 {
        var len := tolerations.len;
        if dup == len - 1 {
          tolerations := Slice(tolerations.data, len - 1);
        } else {
          tolerations := DeleteWithin(tolerations, len, dup);
          assert tolerations.Contents() == Shifted(before, dup, len)[..len - 1];
        }
        assert tolerations.Contents() == before[..dup] + before[dup + 1..];
      }
    }

    method SearchToleration(t: Toleration) returns (i: int)
      requires Valid()
      ensures i == FindToleration(tolerations.Contents(), t)
    {
      ghost var ts := tolerations.Contents();
      i := 0;
      while i < tolerations.len
        invariant 0 <= i <= tolerations.len
        invariant forall q :: 0 <= q < i ==> !Matches(ts[q], t)
      {
        assert ts[i] == tolerations.data[i];
        if Matches(tolerations.data[i], t) {
          return;
        }
        i := i + 1;
      }
      i := -1;
    }

    /** `Handle`, without decoding and patching: only new guest pods are injected; `found` says that
        the pod exists already or could not be looked up. */
    method Handle(found: bool, machines: seq<Machine>) returns (verdict: Verdict)
      requires Valid()
      modifies this, tolerations.data
      ensures Valid()
      ensures verdict ==
        if !Required(old(labels)) then Ignored
        else if found then Denied
        else Judge(old(Value()), machines)
      ensures Edited(old(Value()), verdict, Value())
    {
      if !Required(labels) {
        return Ignored;
      }
      if found {
        return Denied;
      }
      verdict := InjectToPod(machines);
    }

    /** `injectToPod`: a pod is changed only when the gate admits it. */
    method InjectToPod(machines: seq<Machine>) returns (verdict: Verdict)
      requires Valid()
      modifies this, tolerations.data
      ensures Valid()
      ensures verdict == Judge(old(Value()), machines)
      ensures Edited(old(Value()), verdict, Value())
    {
      var idx := TargetContainer(labels, containers);
      var group, name := Lookup(labels, MACHINE_GROUP_KEY), Lookup(labels, MACHINE_TYPE_KEY);
      verdict := Gate(machines, group, name);
      if !verdict.Admitted? {
        return;
      }
      var mt := verdict.machineType;
      TypeHasItsName(machines, group, name);
      if idx >= |containers| {
        return Crashed;
      }
      InjectResource(mt, idx);
      var crashed := InjectPodAffinity(MatchExpressions(mt, group));
      if crashed {
        return Crashed;
      }
      InjectPodToleration(GenerateToleration(name, group));
    }
  }

  lemma FoundTypeName(types: seq<MachineType>, name: string)
    ensures FindType(types, name).Some? ==> FindType(types, name).value.name == name
  {
  }

  lemma TypeHasItsName(machines: seq<Machine>, group: string, name: string)
    requires Gate(machines, group, name).Admitted?
    ensures Gate(machines, group, name).machineType.name == name
  {
    FoundTypeName(ListGroup(machines, group)[0].types, name);
  }
}
