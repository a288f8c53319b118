/** Across components: what the injector and the StatefulSet template put on pods against what the
    MachineNodePool controller puts on nodes. */
module Placement {
  import opened Objects
  import opened Taints
  import opened NodeMarking
  import opened Generators
  import opened Scheduling
  import opened TermSurgery
  import opened TolerationSurgery
  import opened Injector

  /** The machine type's GPU selector, if it has one, is met by the node's own labels. */
  predicate GPUFits(labels: Labels, mt: MachineType) {
    mt.gpu.Some? ==>
      var gpu := mt.gpu.value;
      if gpu.family != "" then NVIDIA_FAMILY_KEY in labels && labels[NVIDIA_FAMILY_KEY] == gpu.family
      else if gpu.product != "" then NVIDIA_PRODUCT_KEY in labels && labels[NVIDIA_PRODUCT_KEY] == gpu.product
      else gpu.machine != "" ==> NVIDIA_MACHINE_KEY in labels && labels[NVIDIA_MACHINE_KEY] == gpu.machine
  }

  lemma GPUFitsForeign(labels: Labels, others: Labels, mt: MachineType, types: seq<string>)
    requires labels - ManagedKeys(TypeKeys(types)) == others - ManagedKeys(TypeKeys(types))
    ensures GPUFits(labels, mt) <==> GPUFits(others, mt)
  {
    var managed := ManagedKeys(TypeKeys(types));
    forall key | key in {NVIDIA_FAMILY_KEY, NVIDIA_PRODUCT_KEY, NVIDIA_MACHINE_KEY}
      ensures key in labels <==> key in others
      ensures key in labels ==> labels[key] == others[key]
    {
      assert key[0] == 'n' && STATUS_KEY[0] == 'i';
      forall i | 0 <= i < |types| ensures TypeKeys(types)[i] != key {
        assert TypeKeys(types)[i][0] == 'i';
      }
      assert key in labels <==> key in labels - managed;
      assert key in others <==> key in others - managed;
    }
  }

  lemma TypeKeyListed(types: seq<string>, name: string)
    ensures TypeKey(name) in TypeKeys(types) <==> name in types
  {
    forall i | 0 <= i < |types| ensures TypeKeys(types)[i] == TypeKey(name) <==> types[i] == name {
      TypeKeyInjective(types[i], name);
    }
    if name in types {
      var i :| 0 <= i < |types| && types[i] == name;
      assert TypeKeys(types)[i] == TypeKey(name);
    }
  }

  lemma MatchesExpressions(labels: Labels, mt: MachineType, group: string)
    ensures MatchesTerm(labels, MatchExpressions(mt, group)) <==>
      && (TypeKey(mt.name) in labels && labels[TypeKey(mt.name)] == group)
      && (STATUS_KEY in labels && labels[STATUS_KEY] == MODE_READY)
      && GPUFits(labels, mt)
  {
    var term := MatchExpressions(mt, group);
    assert term[0] == Requirement(TypeKey(mt.name), In, [group]);
    assert term[1] == Requirement(STATUS_KEY, In, [MODE_READY]);
    if mt.gpu.Some? && |GPUSelector(mt.gpu.value)| == 2 {
      var selector := GPUSelector(mt.gpu.value);
      assert |term| == 3 && term[2] == Requirement(selector[0], In, [selector[1]]);
    } else {
      assert |term| == 2;
    }
  }

  /** The labels of a marked node that a guest's selector looks at. */
  lemma MarkedLabelsSeen(node: Node, group: string, entry: PoolEntry, envtest: bool, now: int, mt: MachineType)
    requires NODE_POOL_NAME !in entry.types && mt.name != NODE_POOL_NAME
    requires TypeKey(mt.name) !in node.labels
    ensures var labels := Remark(node, group, entry, envtest, now).labels;
      && (TypeKey(mt.name) in labels <==> mt.name in entry.types)
      && (TypeKey(mt.name) in labels ==> labels[TypeKey(mt.name)] == group)
      && STATUS_KEY in labels
      && labels[STATUS_KEY] == StatusValue(entry.mode, KeySet(node.taints), envtest)
      && (GPUFits(labels, mt) <==> GPUFits(node.labels, mt))
  {
    var keys := TypeKeys(entry.types);
    var value := StatusValue(entry.mode, KeySet(node.taints), envtest);
    StatusKeyNotListed(entry.types);
    StatusKeyIsATypeKey(mt.name);
    TypeKeyListed(entry.types, mt.name);
    MarkedLabelsRest(node.labels, keys, group, value);
    GPUFitsForeign(MarkedLabels(node.labels, keys, group, value), node.labels, mt, entry.types);
  }

  /** The scheduler lets a pod with these tolerations past every managed taint of the node. */
  predicate PassesManaged(ts: seq<Taint>, managed: set<string>, tolerations: seq<Toleration>) {
    forall i :: 0 <= i < |ts| && ts[i].key in managed ==> Tolerated(ts[i], tolerations)
  }

  lemma {:induction false} FreshElements(keys: seq<string>, group: string, now: int)
    ensures |FreshTaints(keys, group, now)| == |keys|
    ensures forall i :: 0 <= i < |keys| ==> FreshTaints(keys, group, now)[i] == ManagedTaint(keys[i], group, now)
  {
    if keys != [] {
      FreshElements(keys[1..], group, now);
    }
  }

  lemma TolerationsCover(t: Taint, name: string, group: string)
    requires t.effect == NoSchedule
    ensures Tolerated(t, GenerateToleration(name, group)) <==>
      (t.key == TypeKey(name) && t.value == group) || (t.key == STATUS_KEY && t.value == MODE_READY)
  {
    var tolerations := GenerateToleration(name, group);
    assert TypeKey(name)[0] == 'i' && STATUS_KEY[0] == 'i';
    assert tolerations[0] == Toleration(TypeKey(name), Equal, group, Some(NoSchedule));
    assert tolerations[1] == Toleration(STATUS_KEY, Equal, MODE_READY, Some(NoSchedule));
  }

  lemma PassesConcat(a: seq<Taint>, b: seq<Taint>, managed: set<string>, tolerations: seq<Toleration>)
    ensures PassesManaged(a + b, managed, tolerations) <==>
      PassesManaged(a, managed, tolerations) && PassesManaged(b, managed, tolerations)
  {
    var all := a + b;
    assert forall i :: 0 <= i < |b| ==> all[|a| + i] == b[i];
    assert forall i :: |a| <= i < |all| ==> all[i] == b[i - |a|];
    assert forall i :: 0 <= i < |a| ==> all[i] == a[i];
  }

  lemma ForeignPass(ts: seq<Taint>, managed: set<string>, tolerations: seq<Toleration>)
    requires KeySet(ts) !! managed
    ensures PassesManaged(ts, managed, tolerations)
  {
    forall i | 0 <= i < |ts| ensures ts[i].key !in managed {
      assert ts[i] in ts;
    }
  }

  lemma StatusPasses(value: string, now: int, managed: set<string>, name: string, g: string)
    requires STATUS_KEY in managed && name != NODE_POOL_NAME
    ensures PassesManaged([ManagedTaint(STATUS_KEY, value, now)], managed, GenerateToleration(name, g)) <==>
      value == MODE_READY
  {
    var status := ManagedTaint(STATUS_KEY, value, now);
    StatusKeyIsATypeKey(name);
    TolerationsCover(status, name, g);
    assert [status][0] == status;
  }

  lemma FreshPass(types: seq<string>, group: string, now: int, name: string, g: string)
    requires NODE_POOL_NAME !in types
    ensures PassesManaged(FreshTaints(TypeKeys(types), group, now), ManagedKeys(TypeKeys(types)),
                          GenerateToleration(name, g)) <==>
      forall i :: 0 <= i < |types| ==> types[i] == name && group == g
  {
    var keys := TypeKeys(types);
    var added := FreshTaints(keys, group, now);
    FreshElements(keys, group, now);
    forall i | 0 <= i < |types|
      ensures added[i].key in ManagedKeys(keys)
      ensures Tolerated(added[i], GenerateToleration(name, g)) <==> types[i] == name && group == g
    {
      assert keys[i] in keys;
      TolerationsCover(added[i], name, g);
      TypeKeyInjective(types[i], name);
      StatusKeyIsATypeKey(types[i]);
    }
  }

  /** Which managed taints of a freshly marked node a pod's generated tolerations cover. */
  lemma PassesMarked(
      ts: seq<Taint>, types: seq<string>, group: string, value: string, now: int, name: string, g: string)
    requires NODE_POOL_NAME !in types && name != NODE_POOL_NAME
    ensures PassesManaged(MarkedTaints(ts, TypeKeys(types), group, value, now), ManagedKeys(TypeKeys(types)),
                          GenerateToleration(name, g)) <==>
      value == MODE_READY && forall i :: 0 <= i < |types| ==> types[i] == name && group == g
  {
    var keys := TypeKeys(types);
    var managed := ManagedKeys(keys);
    var tolerations := GenerateToleration(name, g);
    var foreign := Without(ts, managed);
    var status := ManagedTaint(STATUS_KEY, value, now);
    var added := FreshTaints(keys, group, now);
    WithoutKeys(ts, managed);
    ForeignPass(foreign, managed, tolerations);
    StatusPasses(value, now, managed, name, g);
    FreshPass(types, group, now, name, g);
    PassesConcat(foreign, [status] + added, managed, tolerations);
    PassesConcat([status], added, managed, tolerations);
  }

  /** Placement agreement. Take a node without prior imperator keys and mark it under an entry. A pod
      with the selector term and tolerations generated for type `mt` of group `g` matches the node and
      passes its managed taints exactly if the entry is in ready mode, no taint takes the node out of
      service, the type is one of the entry's (the only one, if the entry is tainted), the group is
      the pool's, and the node's own labels meet the GPU selector. */
  lemma PlacementAgrees(
      node: Node, group: string, entry: PoolEntry, envtest: bool, now: int, mt: MachineType, g: string)
    requires NODE_POOL_NAME !in entry.types && mt.name != NODE_POOL_NAME
    requires Free(node, TypeKeys(entry.types)) && TypeKey(mt.name) !in node.labels
    ensures var keys := TypeKeys(entry.types);
      var marked := Mark(node, group, keys, entry, envtest, now);
      marked.Some? &&
      ((MatchesTerm(marked.value.labels, MatchExpressions(mt, g))
        && PassesManaged(marked.value.taints, ManagedKeys(keys), GenerateToleration(mt.name, g)))
       <==>
        && entry.mode != MODE_MAINTENANCE
        && !Down(KeySet(node.taints), envtest)
        && mt.name in entry.types
        && g == group
        && GPUFits(node.labels, mt)
        && (entry.taint ==> forall i :: 0 <= i < |entry.types| ==> entry.types[i] == mt.name))
  {
    var keys := TypeKeys(entry.types);
    FreeIsTame(node, group, keys);
    TameIsRemovable(node, group, keys);
    MarkIs(node, group, entry, envtest, now);
    var marked := Remark(node, group, entry, envtest, now);
    var value := StatusValue(entry.mode, KeySet(node.taints), envtest);
    ReadyMeans(entry.mode, KeySet(node.taints), envtest);
    MarkedLabelsSeen(node, group, entry, envtest, now, mt);
    MatchesExpressions(marked.labels, mt, g);
    if entry.taint {
      PassesMarked(node.taints, entry.types, group, value, now, mt.name, g);
    } else {
      forall i | 0 <= i < |node.taints| ensures node.taints[i].key !in ManagedKeys(keys) {
        assert node.taints[i] in node.taints;
      }
    }
  }

  lemma ReadyMeans(mode: string, present: set<string>, envtest: bool)
    ensures StatusValue(mode, present, envtest) == MODE_READY <==>
      mode != MODE_MAINTENANCE && !Down(present, envtest)
  {
    assert MODE_READY[0] == 'r' && MODE_NOT_READY[0] == 'n' && MODE_MAINTENANCE[0] == 'm';
  }

  // ----- guests against reservations -----

  lemma GeneratedDiffer(name: string, group: string)
    ensures Unmatching(GenerateToleration(name, group)) <==> !(name == NODE_POOL_NAME && group == MODE_READY)
  {
    StatusKeyIsATypeKey(name);
    var ts := GenerateToleration(name, group);
    assert Matches(ts[0], ts[1]) <==> name == NODE_POOL_NAME && group == MODE_READY;
  }

  lemma GeneratedKept(ts: seq<Toleration>, generated: seq<Toleration>)
    requires Unmatching(generated)
    ensures forall t :: t in generated ==> t in InjectTolerations(ts, generated)
    ensures ts == [] ==> InjectTolerations(ts, generated) == generated
  {
    InjectFromNone(ts, generated);
    if ts == [] {
      NothingToDrop(generated);
      assert [] + generated == generated;
    }
  }

  lemma NothingToDrop(generated: seq<Toleration>)
    ensures DropTolerations([], generated) == []
  {
    if generated != [] {
      NothingToDrop(generated[1..]);
    }
  }

  /** Guests and reservations are interchangeable. A guest without node selector terms of its own
      gets the template's selector, the template's resources in its target container, and at least
      the template's tolerations: wherever selector and taints let the reservation pod run, they let
      the guest; and nowhere else, if it came without tolerations. */
  lemma GuestReplacesReservation(guest: PodSpec, mt: MachineType, group: string, replicas: int, node: Node)
    requires PriorTerms(guest.affinity) == Some([])
    requires guest.containers != []
    requires !(mt.name == NODE_POOL_NAME && group == MODE_READY)
    ensures var template := ReservationSet(mt, group, replicas).template;
      var injected := Inject(guest, mt, group);
      && injected.Some?
      && injected.value.affinity == NodeAffinity(Some(template.terms))
      && var idx := TargetContainer(guest.labels, guest.containers);
         var container := injected.value.containers[idx];
      && |template.containers| == 1
      && container.requests == template.containers[0].requests && container.limits == template.containers[0].limits
      && (Feasible(node, template.terms, template.tolerations) ==>
          Feasible(node, template.terms, injected.value.tolerations))
      && (guest.tolerations == [] && Feasible(node, template.terms, injected.value.tolerations) ==>
          Feasible(node, template.terms, template.tolerations))
  {
    var exprs := MatchExpressions(mt, group);
    var generated := GenerateToleration(mt.name, group);
    assert [] + [exprs] == [exprs];
    GeneratedDiffer(mt.name, group);
    GeneratedKept(guest.tolerations, generated);
    var injected := InjectTolerations(guest.tolerations, generated);
    if Feasible(node, [exprs], generated) {
      MoreTolerations(node, [exprs], generated, injected);
    }
  }

  /** A guest with selector terms of its own is not confined to the machine's nodes: the injected
      term is one more alternative beside what the surgery left of the old ones. */
  lemma GuestSelects(guest: PodSpec, mt: MachineType, group: string, prior: seq<Term>, labels: Labels)
    requires PriorTerms(guest.affinity) == Some(prior)
    requires Inject(guest, mt, group).Some?
    ensures var after := Inject(guest, mt, group).value.affinity;
      var left := StripTerms(prior, InjectedKeys(MatchExpressions(mt, group)));
      && left.Some?
      && after.NodeAffinity? && after.required.Some?
      && (MatchesTerms(labels, after.required.value) <==>
          MatchesTerms(labels, left.value) || MatchesTerm(labels, MatchExpressions(mt, group)))
  {
    var exprs := MatchExpressions(mt, group);
    var left := StripTerms(prior, InjectedKeys(exprs)).value;
    AppendedTerm(labels, left, exprs);
  }

  /** The generated requirements have different keys, so each is found again by key and value. */
  lemma AllDuplicates(mt: MachineType, group: string)
    requires mt.name != NODE_POOL_NAME
    ensures var exprs := MatchExpressions(mt, group);
      forall i :: 0 <= i < |exprs| ==> Duplicate(InjectedKeys(exprs), exprs[i])
  {
    var exprs := MatchExpressions(mt, group);
    StatusKeyIsATypeKey(mt.name);
    var a, b := exprs[0], exprs[1];
    if |exprs| == 2 {
      assert exprs == [a, b];
      InjectedPair(a, b);
    } else {
      var c := exprs[2];
      assert c.key[0] == 'n' && a.key[0] == 'i' && b.key[0] == 'i';
      assert exprs[..2] == [a, b];
      InjectedPair(a, b);
    }
  }

  lemma InjectedPair(a: Requirement, b: Requirement)
    requires a.values != [] && b.values != []
    ensures InjectedKeys([a, b]) == map[][a.key := a.values[0]][b.key := b.values[0]]
  {
    assert [a, b][..1] == [a] && [a][..0] == [];
    assert InjectedKeys([a]) == InjectedKeys([])[a.key := a.values[0]];
    assert InjectedKeys([a, b]) == InjectedKeys([a])[b.key := b.values[0]];
  }

  /** Injecting the injected: the surgery takes off only the first of the two or three requirements, the
      one on the type. The leftover term asks for the status and the GPU alone, so the pod is let onto
      every ready node with its GPU, of any type and any group. */
  lemma ReinjectionWidens(mt: MachineType, group: string, labels: Labels)
    requires mt.name != NODE_POOL_NAME
    ensures var exprs := MatchExpressions(mt, group);
      var once := InjectAffinity(NoAffinity, exprs);
      once.Some? &&
      var twice := InjectAffinity(once.value, exprs);
      && twice == Some(NodeAffinity(Some([exprs[1..], exprs])))
      && (MatchesTerms(labels, twice.value.required.value) <==>
          STATUS_KEY in labels && labels[STATUS_KEY] == MODE_READY && GPUFits(labels, mt))
  {
    var exprs := MatchExpressions(mt, group);
    var injected := InjectedKeys(exprs);
    AllDuplicates(mt, group);
    assert [] + [exprs] == [exprs];
    if |exprs| == 2 {
      TwoDuplicates(exprs, injected);
    } else {
      ThreeDuplicates(exprs, injected);
    }
    assert StripTerms([exprs][1..], injected) == Some([]);
    assert StripTerms([exprs], injected) == Some([exprs[1..]] + []);
    assert [exprs[1..]] + [] + [exprs] == [exprs[1..], exprs];
    MatchesExpressions(labels, mt, group);
    LeftoverMatches(labels, mt, group);
    EitherTerm(labels, exprs[1..], exprs);
  }

  lemma EitherTerm(labels: Labels, a: Term, b: Term)
    ensures MatchesTerms(labels, [a, b]) <==> MatchesTerm(labels, a) || MatchesTerm(labels, b)
  {
    assert [a, b][0] == a && [a, b][1] == b;
  }

  /** Without its first requirement. */
  lemma LeftoverMatches(labels: Labels, mt: MachineType, group: string)
    ensures MatchesTerm(labels, MatchExpressions(mt, group)[1..]) <==>
      STATUS_KEY in labels && labels[STATUS_KEY] == MODE_READY && GPUFits(labels, mt)
  {
    var term := MatchExpressions(mt, group);
    var left := term[1..];
    assert left[0] == Requirement(STATUS_KEY, In, [MODE_READY]);
    if mt.gpu.Some? && |GPUSelector(mt.gpu.value)| == 2 {
      var selector := GPUSelector(mt.gpu.value);
      assert |left| == 2 && left[1] == Requirement(selector[0], In, [selector[1]]);
    } else {
      assert |left| == 1;
    }
  }

  lemma TwoDuplicates(term: Term, injected: Labels)
    requires |term| == 2 && forall i :: 0 <= i < |term| ==> Duplicate(injected, term[i])
    ensures StripTerm(term, injected) == Some(term[1..])
  {
    var b := term[1];
    assert term[..0] + term[1..2] + term[1..] == [b, b];
    assert SurgeryRun([b, b], 1, true, injected) == SurgeryRun([b, b], 2, true, injected) == Some([b, b][..1]);
    assert [b, b][..1] == term[1..];
  }

  lemma ThreeDuplicates(term: Term, injected: Labels)
    requires |term| == 3 && forall i :: 0 <= i < |term| ==> Duplicate(injected, term[i])
    ensures StripTerm(term, injected) == Some(term[1..])
  {
    var b, c := term[1], term[2];
    var s := [b, c, c];
    assert term[..0] + term[1..3] + term[2..] == s && s[..1] + s[2..3] + s[2..] == s;
    assert SurgeryRun(s, 2, true, injected) == SurgeryRun(s, 3, true, injected) == Some(s[..2]);
    assert SurgeryRun(s, 1, true, injected) == SurgeryRun(s, 2, true, injected);
    assert s[..2] == term[1..];
  }
}
