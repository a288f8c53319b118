/** What the MachineNodePool controller does to one node, as functions on node values. */
module NodeMarking {
  import opened Objects
  import opened Taints

  datatype Node = Node(labels: Labels, annotations: Labels, taints: seq<Taint>)

  const EMPTY_NODE: Node := Node(map[], map[], [])

  /** The name-to-keys map built from the pool: the last entry of a name wins. */
  function KeysFor(entries: seq<PoolEntry>, name: string): seq<string> {
    if entries == [] then []
    else
      var last := entries[|entries| - 1];
      if last.name == name then TypeKeys(last.types) else KeysFor(entries[..|entries| - 1], name)
  }

  function StripLabels(labels: Labels, group: string, keys: seq<string>): Labels {
    map k | k in labels && k != STATUS_KEY && !(k in keys && labels[k] == group) :: labels[k]
  }

  /** The three removals of `cleanupNode`; None is a run-time panic. */
  function Strip(node: Node, group: string, keys: seq<string>): Option<Node> {
    match RemoveManaged(node.taints, STATUS_KEY, keys)
    case None => None
    case Some(ts) =>
      Some(Node(StripLabels(node.labels, group, keys), node.annotations - {MACHINE_GROUP_KEY}, ts))
  }

  /** A taint takes the node out of service. The ENVTEST switch ignores one of them. */
  predicate Down(present: set<string>, envtest: bool) {
    exists c :: c in CANNOT_USE_TAINTS && c in present && !(envtest && c == NOT_READY_TAINT)
  }

  function StatusValue(mode: string, present: set<string>, envtest: bool): string {
    if mode == MODE_MAINTENANCE then MODE_MAINTENANCE
    else if Down(present, envtest) then MODE_NOT_READY
    else MODE_READY
  }

  function SetLabels(labels: Labels, keys: seq<string>, value: string): Labels {
    map k | k in labels.Keys + AsSet(keys) :: if k in keys then value else labels[k]
  }

  function ManagedTaint(key: string, value: string, now: int): Taint {
    Taint(key, value, NoSchedule, Some(now))
  }

  /** Append, or overwrite the first taint of that key when the key had been `seen`. */
  function PlaceTaint(ts: seq<Taint>, seen: set<string>, t: Taint): seq<Taint> {
    if t.key !in seen then ts + [t]
    else
      var i := FirstIndex(ts, t.key);
      if i < 0 then ts else ts[i := t]
  }

  function PlaceEach(ts: seq<Taint>, seen: set<string>, keys: seq<string>, group: string, now: int): seq<Taint>
    decreases keys
  {
    if keys == [] then ts
    else PlaceEach(PlaceTaint(ts, seen, ManagedTaint(keys[0], group, now)), seen, keys[1..], group, now)
  }

  /** The body of the `reconcileNode` loop up to the comparison with the original. `removed` are
      the keys the removals look up, `entry.types` gives the keys that are set. */
  function Mark(node: Node, group: string, removed: seq<string>, entry: PoolEntry, envtest: bool, now: int)
    : Option<Node>
  {
    var stripped := if entry.taint then RemoveManaged(node.taints, STATUS_KEY, removed) else Some(node.taints);
    if stripped == None then None
    else
      var ts := stripped.value;
      var seen := KeySet(ts);
      var keys := TypeKeys(entry.types);
      var value := StatusValue(entry.mode, seen, envtest);
      Some(Node(
        SetLabels(StripLabels(node.labels, group, removed)[STATUS_KEY := value], keys, group),
        node.annotations[MACHINE_GROUP_KEY := group],
        if entry.taint
        then PlaceEach(PlaceTaint(ts, seen, ManagedTaint(STATUS_KEY, value, now)), seen, keys, group, now)
        else ts))
  }

  // ----- views of a node -----

  function ManagedKeys(keys: seq<string>): set<string> {
    {STATUS_KEY} + AsSet(keys)
  }

  /** Everything on the node that imperator does not manage. */
  function Rest(node: Node, keys: seq<string>): Node {
    Node(node.labels - ManagedKeys(keys), node.annotations - {MACHINE_GROUP_KEY},
         Without(node.taints, ManagedKeys(keys)))
  }

  /** No managed label, annotation or taint. */
  predicate Free(node: Node, keys: seq<string>) {
    && node.labels.Keys !! ManagedKeys(keys)
    && MACHINE_GROUP_KEY !in node.annotations
    && KeySet(node.taints) !! ManagedKeys(keys)
  }

  /** Machine-type labels carry this group, so the removal takes them. */
  predicate CarriesGroup(labels: Labels, group: string, keys: seq<string>) {
    forall k :: k in keys && k != STATUS_KEY && k in labels ==> labels[k] == group
  }

  /** Machine-type labels carry this group, and no managed taint occurs more often than the
      removals look for it. */
  predicate Tame(node: Node, group: string, keys: seq<string>) {
    && CarriesGroup(node.labels, group, keys)
    && Count(node.taints, STATUS_KEY) <= 1
    && (forall k :: k in keys ==> Count(node.taints, k) <= Occurrences(keys, k))
  }

  /** Marked by a pass of this controller. */
  predicate Marked(node: Node, group: string, keys: seq<string>) {
    && STATUS_KEY in node.labels
    && Tame(node, group, keys)
  }

  lemma FreeIsRest(node: Node, keys: seq<string>)
    ensures Free(node, keys) <==> Rest(node, keys) == node
  {
    WithoutNothing(node.taints, ManagedKeys(keys));
    if Free(node, keys) {
      assert node.labels - ManagedKeys(keys) == node.labels;
      assert node.annotations - {MACHINE_GROUP_KEY} == node.annotations;
    }
    if Rest(node, keys) == node {
      assert node.labels == node.labels - ManagedKeys(keys);
      assert node.annotations == node.annotations - {MACHINE_GROUP_KEY};
    }
  }

  lemma FreeIsTame(node: Node, group: string, keys: seq<string>)
    requires Free(node, keys)
    ensures Tame(node, group, keys)
  {
    CountZero(node.taints, STATUS_KEY);
    forall k | k in keys ensures k !in node.labels && Count(node.taints, k) == 0 {
      assert k in ManagedKeys(keys);
      CountZero(node.taints, k);
    }
  }

  lemma TameIsRemovable(node: Node, group: string, keys: seq<string>)
    requires Tame(node, group, keys)
    ensures Removable(node.taints, STATUS_KEY, keys)
  {
    AtMostOnceIsRemovable(node.taints, STATUS_KEY, []);
  }

  // ----- unmarking -----

  /** Unmarking takes off everything managed and nothing else exactly if the taints are removable and
      the machine-type labels carry the group. */
  lemma StripIsRest(node: Node, group: string, keys: seq<string>)
    ensures Strip(node, group, keys) == Some(Rest(node, keys)) <==>
      Removable(node.taints, STATUS_KEY, keys) && CarriesGroup(node.labels, group, keys)
  {
    RemoveManagedExact(node.taints, STATUS_KEY, keys);
    StripLabelsExact(node.labels, group, keys);
  }

  lemma StripLabelsExact(labels: Labels, group: string, keys: seq<string>)
    ensures StripLabels(labels, group, keys) == labels - ManagedKeys(keys) <==> CarriesGroup(labels, group, keys)
  {
    var stripped := StripLabels(labels, group, keys);
    if stripped == labels - ManagedKeys(keys) {
      forall k | k in keys && k != STATUS_KEY && k in labels ensures labels[k] == group {
        assert k !in stripped;
      }
    }
  }

  /** What is left is free of managed keys. */
  lemma RestIsFree(node: Node, keys: seq<string>)
    ensures Free(Rest(node, keys), keys)
  {
    var r := Rest(node, keys);
    WithoutTwice(node.taints, ManagedKeys(keys), ManagedKeys(keys));
    assert ManagedKeys(keys) + ManagedKeys(keys) == ManagedKeys(keys);
    assert r.labels - ManagedKeys(keys) == r.labels;
    assert r.annotations - {MACHINE_GROUP_KEY} == r.annotations;
    FreeIsRest(r, keys);
  }

  lemma TameStrips(node: Node, group: string, keys: seq<string>)
    requires Tame(node, group, keys)
    ensures Strip(node, group, keys) == Some(Rest(node, keys))
  {
    TameIsRemovable(node, group, keys);
    StripIsRest(node, group, keys);
  }

  // ----- marking -----

  function FreshTaints(keys: seq<string>, group: string, now: int): seq<Taint> {
    if keys == [] then [] else [ManagedTaint(keys[0], group, now)] + FreshTaints(keys[1..], group, now)
  }

  lemma {:induction false} PlaceEachAppends(
      ts: seq<Taint>, seen: set<string>, keys: seq<string>, group: string, now: int)
    requires forall k :: k in keys ==> k !in seen
    ensures PlaceEach(ts, seen, keys, group, now) == ts + FreshTaints(keys, group, now)
    decreases keys
  {
    if keys == [] {
      assert ts + [] == ts;
    } else {
      var t := ManagedTaint(keys[0], group, now);
      PlaceEachAppends(ts + [t], seen, keys[1..], group, now);
      assert (ts + [t]) + FreshTaints(keys[1..], group, now) == ts + ([t] + FreshTaints(keys[1..], group, now));
    }
  }

  lemma {:induction false} FreshCounts(keys: seq<string>, group: string, now: int, key: string)
    ensures Count(FreshTaints(keys, group, now), key) == Occurrences(keys, key)
    ensures |FreshTaints(keys, group, now)| == |keys|
  {
    if keys != [] {
      FreshCounts(keys[1..], group, now, key);
      assert FreshTaints(keys, group, now)[1..] == FreshTaints(keys[1..], group, now);
    }
  }

  lemma FreshVanishes(keys: seq<string>, group: string, now: int, all: set<string>)
    requires AsSet(keys) <= all
    ensures Without(FreshTaints(keys, group, now), all) == []
  {
    if keys != [] {
      assert keys[0] in AsSet(keys) && AsSet(keys[1..]) <= AsSet(keys);
      FreshVanishes(keys[1..], group, now, all);
      assert FreshTaints(keys, group, now)[1..] == FreshTaints(keys[1..], group, now);
    }
  }

  /** The taints a marked node ends with: the foreign ones in their order, the status, the types. */
  function MarkedTaints(ts: seq<Taint>, keys: seq<string>, group: string, value: string, now: int): seq<Taint> {
    Without(ts, ManagedKeys(keys)) + ([ManagedTaint(STATUS_KEY, value, now)] + FreshTaints(keys, group, now))
  }

  function MarkedLabels(labels: Labels, keys: seq<string>, group: string, value: string): Labels {
    SetLabels(labels[STATUS_KEY := value], keys, group)
  }

  /** The status a node deserves depends on its foreign taints only. */
  lemma StatusIgnoresManaged(mode: string, ts: seq<Taint>, types: seq<string>, envtest: bool)
    ensures StatusValue(mode, KeySet(Without(ts, ManagedKeys(TypeKeys(types)))), envtest)
         == StatusValue(mode, KeySet(ts), envtest)
  {
    var keys := TypeKeys(types);
    WithoutKeys(ts, ManagedKeys(keys));
    forall c | c in CANNOT_USE_TAINTS ensures c !in ManagedKeys(keys) {
      if c in keys {
        var i :| 0 <= i < |keys| && keys[i] == c;
        CannotUseTaintsAreForeign(types[i]);
      }
      CannotUseTaintsAreForeign("");
    }
  }

  /** A marked node in closed form. */
  function Remark(node: Node, group: string, entry: PoolEntry, envtest: bool, now: int): Node {
    var keys := TypeKeys(entry.types);
    var value := StatusValue(entry.mode, KeySet(node.taints), envtest);
    Node(MarkedLabels(node.labels, keys, group, value),
         node.annotations[MACHINE_GROUP_KEY := group],
         if entry.taint then MarkedTaints(node.taints, keys, group, value, now) else node.taints)
  }

  lemma StripThenSet(labels: Labels, keys: seq<string>, group: string, value: string)
    ensures SetLabels(StripLabels(labels, group, keys)[STATUS_KEY := value], keys, group)
         == MarkedLabels(labels, keys, group, value)
  {
  }

  /** Marking in closed form, whenever the managed taints can be taken off: the label removals are
      undone by the label writes, and no taint is ever overwritten, only appended. */
  lemma MarkIs(node: Node, group: string, entry: PoolEntry, envtest: bool, now: int)
    requires entry.taint ==> NODE_POOL_NAME !in entry.types
    requires entry.taint ==> Removable(node.taints, STATUS_KEY, TypeKeys(entry.types))
    ensures Mark(node, group, TypeKeys(entry.types), entry, envtest, now)
         == Some(Remark(node, group, entry, envtest, now))
  {
    var keys := TypeKeys(entry.types);
    var value := StatusValue(entry.mode, KeySet(node.taints), envtest);
    StripThenSet(node.labels, keys, group, value);
    if entry.taint {
      var ts := Without(node.taints, ManagedKeys(keys));
      StatusKeyNotListed(entry.types);
      RemoveManagedExact(node.taints, STATUS_KEY, keys);
      StatusIgnoresManaged(entry.mode, node.taints, entry.types, envtest);
      WithoutKeys(node.taints, ManagedKeys(keys));
      PlacedIs(ts, keys, group, value, now);
    }
  }

  /** Onto a list without managed taints everything is appended. */
  lemma PlacedIs(ts: seq<Taint>, keys: seq<string>, group: string, value: string, now: int)
    requires KeySet(ts) !! ManagedKeys(keys) && STATUS_KEY !in keys
    ensures PlaceEach(PlaceTaint(ts, KeySet(ts), ManagedTaint(STATUS_KEY, value, now)), KeySet(ts), keys, group, now)
         == ts + ([ManagedTaint(STATUS_KEY, value, now)] + FreshTaints(keys, group, now))
  {
    var placed := ts + [ManagedTaint(STATUS_KEY, value, now)];
    forall k | k in ManagedKeys(keys) ensures k !in KeySet(ts) {
    }
    PlaceEachAppends(placed, KeySet(ts), keys, group, now);
    assert placed + FreshTaints(keys, group, now)
        == ts + ([ManagedTaint(STATUS_KEY, value, now)] + FreshTaints(keys, group, now));
  }

  /** The removals of a marking take off no taint that would take the node out of service. */
  lemma RemovalKeepsForeign(ts: seq<Taint>, types: seq<string>, key: string)
    requires RemoveManaged(ts, STATUS_KEY, TypeKeys(types)).Some? && key in CANNOT_USE_TAINTS
    ensures key in KeySet(RemoveManaged(ts, STATUS_KEY, TypeKeys(types)).value) <==> key in KeySet(ts)
  {
    var keys := TypeKeys(types);
    var mid := Skipping(ts, STATUS_KEY);
    CannotUseTaintsAreForeign("");
    forall i | 0 <= i < |types| ensures keys[i] != key {
      CannotUseTaintsAreForeign(types[i]);
    }
    SkippingCounts(ts, STATUS_KEY, key);
    DropEachCounts(mid, keys, key);
    NotListed(keys, key);
    CountZero(ts, key);
    CountZero(DropEach(mid, keys), key);
  }

  lemma PresentKey(ts: seq<Taint>, key: string)
    ensures key in KeySet(ts) <==> exists i :: 0 <= i < |ts| && ts[i].key == key
  {
    if i :| 0 <= i < |ts| && ts[i].key == key {
      assert ts[i] in ts;
    }
  }

  /** The status label after any marking that does not panic, read off the raw taint list. In maintenance
      mode it says maintenance; otherwise ready exactly if no taint takes the node out of service, where
      the test environment forgives the not-ready taint, and not-ready if one does. */
  lemma MarkedStatus(
      node: Node, group: string, others: seq<string>, entry: PoolEntry, envtest: bool, now: int)
    requires NODE_POOL_NAME !in entry.types
    requires Mark(node, group, TypeKeys(others), entry, envtest, now).Some?
    ensures var labels := Mark(node, group, TypeKeys(others), entry, envtest, now).value.labels;
      && STATUS_KEY in labels
      && labels[STATUS_KEY] in {MODE_READY, MODE_NOT_READY, MODE_MAINTENANCE}
      && (labels[STATUS_KEY] == MODE_MAINTENANCE <==> entry.mode == MODE_MAINTENANCE)
      && (labels[STATUS_KEY] == MODE_READY <==>
          && entry.mode != MODE_MAINTENANCE
          && forall i :: 0 <= i < |node.taints| ==>
            node.taints[i].key !in CANNOT_USE_TAINTS || (envtest && node.taints[i].key == NOT_READY_TAINT))
  {
    var ts := if entry.taint then RemoveManaged(node.taints, STATUS_KEY, TypeKeys(others)).value else node.taints;
    StatusKeyNotListed(entry.types);
    assert MODE_READY[0] == 'r' && MODE_NOT_READY[0] == 'n' && MODE_MAINTENANCE[0] == 'm';
    forall key | key in CANNOT_USE_TAINTS
      ensures key in KeySet(ts) <==> exists i :: 0 <= i < |node.taints| && node.taints[i].key == key
    {
      PresentKey(node.taints, key);
      if entry.taint {
        RemovalKeepsForeign(node.taints, others, key);
      }
    }
    DownIs(node.taints, ts, envtest);
  }

  lemma DownIs(raw: seq<Taint>, ts: seq<Taint>, envtest: bool)
    requires forall key :: key in CANNOT_USE_TAINTS ==>
      (key in KeySet(ts) <==> exists i :: 0 <= i < |raw| && raw[i].key == key)
    ensures Down(KeySet(ts), envtest) <==>
      exists i :: 0 <= i < |raw| && raw[i].key in CANNOT_USE_TAINTS && !(envtest && raw[i].key == NOT_READY_TAINT)
  {
    if i :| 0 <= i < |raw| && raw[i].key in CANNOT_USE_TAINTS && !(envtest && raw[i].key == NOT_READY_TAINT) {
      assert raw[i].key in KeySet(ts);
    }
  }

  /** The taints after marking an entry in full: untouched without the taint flag; with it the foreign
      ones, one status taint that says what the label says, and the taints of the types, all of them
      keeping pods out and bearing the time. */
  lemma MarkedTaintsAre(node: Node, group: string, entry: PoolEntry, envtest: bool, now: int)
    requires NODE_POOL_NAME !in entry.types
    requires entry.taint ==> Removable(node.taints, STATUS_KEY, TypeKeys(entry.types))
    ensures var marked := Mark(node, group, TypeKeys(entry.types), entry, envtest, now);
      && marked.Some? && STATUS_KEY in marked.value.labels
      && var status := Taint(STATUS_KEY, marked.value.labels[STATUS_KEY], NoSchedule, Some(now));
      && (!entry.taint ==> marked.value.taints == node.taints)
      && (entry.taint ==> Count(marked.value.taints, STATUS_KEY) == 1)
      && (entry.taint ==> forall t :: t in marked.value.taints <==>
        || t == status
        || (t.key in TypeKeys(entry.types) && t == Taint(t.key, group, NoSchedule, Some(now)))
        || (t in node.taints && t.key != STATUS_KEY && t.key !in TypeKeys(entry.types)))
  {
    var keys := TypeKeys(entry.types);
    var value := StatusValue(entry.mode, KeySet(node.taints), envtest);
    MarkIs(node, group, entry, envtest, now);
    MarkedLabelsRest(node.labels, keys, group, value);
    StatusKeyNotListed(entry.types);
    if entry.taint {
      MarkedCounts(node.taints, keys, group, value, now, STATUS_KEY);
      NotListed(keys, STATUS_KEY);
      MarkedTaintElements(node.taints, keys, group, value, now);
    }
  }

  lemma MarkedTaintElements(ts: seq<Taint>, keys: seq<string>, group: string, value: string, now: int)
    ensures forall t :: t in MarkedTaints(ts, keys, group, value, now) <==>
      || t == Taint(STATUS_KEY, value, NoSchedule, Some(now))
      || (t.key in keys && t == Taint(t.key, group, NoSchedule, Some(now)))
      || (t in ts && t.key != STATUS_KEY && t.key !in keys)
  {
    WithoutKeys(ts, ManagedKeys(keys));
    FreshMembers(keys, group, now);
  }

  lemma {:induction false} FreshMembers(keys: seq<string>, group: string, now: int)
    ensures forall t :: t in FreshTaints(keys, group, now) <==>
      t.key in keys && t == Taint(t.key, group, NoSchedule, Some(now))
  {
    if keys != [] {
      FreshMembers(keys[1..], group, now);
      assert forall k :: k in keys <==> k == keys[0] || k in keys[1..];
    }
  }

  lemma StatusKeyNotListed(types: seq<string>)
    ensures STATUS_KEY in TypeKeys(types) <==> NODE_POOL_NAME in types
  {
    var keys := TypeKeys(types);
    forall i | 0 <= i < |types| ensures keys[i] == STATUS_KEY <==> types[i] == NODE_POOL_NAME {
      StatusKeyIsATypeKey(types[i]);
    }
    if NODE_POOL_NAME in types {
      var i :| 0 <= i < |types| && types[i] == NODE_POOL_NAME;
      assert keys[i] == STATUS_KEY;
    }
  }

  lemma MarkedCounts(ts: seq<Taint>, keys: seq<string>, group: string, value: string, now: int, key: string)
    requires key in ManagedKeys(keys)
    ensures Count(MarkedTaints(ts, keys, group, value, now), key)
         == (if key == STATUS_KEY then 1 else 0) + Occurrences(keys, key)
  {
    var s := ManagedTaint(STATUS_KEY, value, now);
    var added := FreshTaints(keys, group, now);
    CountConcat(Without(ts, ManagedKeys(keys)), [s] + added, key);
    CountConcat([s], added, key);
    WithoutCounts(ts, ManagedKeys(keys), key);
    FreshCounts(keys, group, now, key);
  }

  lemma MarkedWithout(ts: seq<Taint>, keys: seq<string>, group: string, value: string, now: int)
    ensures Without(MarkedTaints(ts, keys, group, value, now), ManagedKeys(keys))
         == Without(ts, ManagedKeys(keys))
  {
    var all := ManagedKeys(keys);
    var s := ManagedTaint(STATUS_KEY, value, now);
    var added := FreshTaints(keys, group, now);
    WithoutConcat(Without(ts, all), [s] + added, all);
    WithoutConcat([s], added, all);
    FreshVanishes(keys, group, now, all);
    WithoutTwice(ts, all, all);
    assert all + all == all;
    assert Without(ts, all) + ([] + []) == Without(ts, all);
  }

  /** A freshly marked taint list is removable again, even when a type is listed twice. */
  lemma MarkedIsRemovable(ts: seq<Taint>, keys: seq<string>, group: string, value: string, now: int)
    requires STATUS_KEY !in keys
    ensures Removable(MarkedTaints(ts, keys, group, value, now), STATUS_KEY, keys)
  {
    var mts := MarkedTaints(ts, keys, group, value, now);
    MarkedCounts(ts, keys, group, value, now, STATUS_KEY);
    NotListed(keys, STATUS_KEY);
    AtMostOnceIsRemovable(mts, STATUS_KEY, []);
    forall k | k in keys ensures Count(mts, k) <= Occurrences(keys, k) {
      MarkedCounts(ts, keys, group, value, now, k);
    }
  }

  /** Marking touches nothing it does not manage. */
  lemma RemarkKeepsRest(node: Node, group: string, entry: PoolEntry, envtest: bool, now: int)
    ensures Rest(Remark(node, group, entry, envtest, now), TypeKeys(entry.types))
         == Rest(node, TypeKeys(entry.types))
  {
    var keys := TypeKeys(entry.types);
    var value := StatusValue(entry.mode, KeySet(node.taints), envtest);
    MarkedWithout(node.taints, keys, group, value, now);
    MarkedLabelsRest(node.labels, keys, group, value);
    assert node.annotations[MACHINE_GROUP_KEY := group] - {MACHINE_GROUP_KEY} == node.annotations - {MACHINE_GROUP_KEY};
  }

  lemma MarkedLabelsRest(labels: Labels, keys: seq<string>, group: string, value: string)
    ensures MarkedLabels(labels, keys, group, value) - ManagedKeys(keys) == labels - ManagedKeys(keys)
    ensures forall k :: k in ManagedKeys(keys) ==> k in MarkedLabels(labels, keys, group, value)
    ensures forall k :: k in keys ==> MarkedLabels(labels, keys, group, value)[k] == group
    ensures STATUS_KEY !in keys ==> MarkedLabels(labels, keys, group, value)[STATUS_KEY] == value
    ensures MarkedLabels(MarkedLabels(labels, keys, group, value), keys, group, value)
         == MarkedLabels(labels, keys, group, value)
  {
  }

  /** A tame node stays tame and becomes marked. */
  lemma RemarkMarks(node: Node, group: string, entry: PoolEntry, envtest: bool, now: int)
    requires entry.taint ==> NODE_POOL_NAME !in entry.types
    requires Tame(node, group, TypeKeys(entry.types))
    ensures Marked(Remark(node, group, entry, envtest, now), group, TypeKeys(entry.types))
  {
    var keys := TypeKeys(entry.types);
    var value := StatusValue(entry.mode, KeySet(node.taints), envtest);
    StatusKeyNotListed(entry.types);
    MarkedLabelsRest(node.labels, keys, group, value);
    forall k | k in ManagedKeys(keys)
      ensures Count(MarkedTaints(node.taints, keys, group, value, now), k)
           == (if k == STATUS_KEY then 1 else 0) + Occurrences(keys, k)
    {
      MarkedCounts(node.taints, keys, group, value, now, k);
    }
    NotListed(keys, STATUS_KEY);
  }

  /** Mark, then unmark: the node is exactly what it was. */
  lemma MarkThenStrip(node: Node, group: string, entry: PoolEntry, envtest: bool, now: int)
    requires entry.taint ==> NODE_POOL_NAME !in entry.types
    requires Free(node, TypeKeys(entry.types))
    ensures var keys := TypeKeys(entry.types);
      var m := Mark(node, group, keys, entry, envtest, now);
      m.Some? && Strip(m.value, group, keys) == Some(node)
  {
    var keys := TypeKeys(entry.types);
    FreeIsTame(node, group, keys);
    TameIsRemovable(node, group, keys);
    MarkIs(node, group, entry, envtest, now);
    RemarkMarks(node, group, entry, envtest, now);
    RemarkKeepsRest(node, group, entry, envtest, now);
    TameStrips(Remark(node, group, entry, envtest, now), group, keys);
    FreeIsRest(node, keys);
  }

  /** The webhook admits pool entries with exactly one type. For those, marking a free node can be
      undone unless the entry is tainted and the type is called `node-pool`: then the status taint
      is written twice and the removal loop panics. */
  lemma RoundTripExact(node: Node, group: string, entry: PoolEntry, envtest: bool, now: int)
    requires |entry.types| == 1 && Free(node, TypeKeys(entry.types))
    ensures var keys := TypeKeys(entry.types);
      var m := Mark(node, group, keys, entry, envtest, now);
      && m.Some?
      && (Strip(m.value, group, keys) == Some(node) <==> !(entry.taint && entry.types[0] == NODE_POOL_NAME))
      && (Strip(m.value, group, keys) == None <==> entry.taint && entry.types[0] == NODE_POOL_NAME)
  {
    var keys := TypeKeys(entry.types);
    if !entry.taint || entry.types[0] != NODE_POOL_NAME {
      MarkThenStrip(node, group, entry, envtest, now);
    } else {
      StatusKeyIsATypeKey(NODE_POOL_NAME);
      assert keys == [STATUS_KEY];
      NodePoolTypeMark(node, group, entry, envtest, now);
    }
  }

  lemma NodePoolTypeMark(node: Node, group: string, entry: PoolEntry, envtest: bool, now: int)
    requires TypeKeys(entry.types) == [STATUS_KEY] && Free(node, [STATUS_KEY]) && entry.taint
    ensures var m := Mark(node, group, [STATUS_KEY], entry, envtest, now);
      m.Some? && Strip(m.value, group, [STATUS_KEY]) == None
  {
    NoStatusNoRemoval(node.taints);
    PlaceStatusTwice(node.taints, group, StatusValue(entry.mode, KeySet(node.taints), envtest), now);
  }

  lemma PlaceStatusTwice(ts: seq<Taint>, group: string, value: string, now: int)
    requires STATUS_KEY !in KeySet(ts)
    ensures Overruns(
      PlaceEach(PlaceTaint(ts, KeySet(ts), ManagedTaint(STATUS_KEY, value, now)), KeySet(ts), [STATUS_KEY], group, now),
      STATUS_KEY)
  {
    var s := ManagedTaint(STATUS_KEY, value, now);
    var t := ManagedTaint(STATUS_KEY, group, now);
    assert PlaceEach(ts + [s], KeySet(ts), [STATUS_KEY], group, now)
        == PlaceEach(ts + [s] + [t], KeySet(ts), [], group, now);
    assert (ts + [s] + [t])[|ts|] == s && (ts + [s] + [t])[|ts| + 1] == t;
  }

  lemma NoStatusNoRemoval(ts: seq<Taint>)
    requires STATUS_KEY !in KeySet(ts)
    ensures RemoveManaged(ts, STATUS_KEY, [STATUS_KEY]) == Some(ts)
  {
    CountZero(ts, STATUS_KEY);
    AtMostOnceIsRemovable(ts, STATUS_KEY, []);
    SkippingIsFilter(ts, STATUS_KEY);
    WithoutNothing(ts, {STATUS_KEY});
    assert DropEach(ts, [STATUS_KEY]) == DropEach(DropFirst(ts, STATUS_KEY), []);
    CountZero(DropEach(ts, [STATUS_KEY]), STATUS_KEY);
  }

  /** Equal up to the timestamps. */
  predicate SameButTime(a: seq<Taint>, b: seq<Taint>) {
    |a| == |b| && forall i :: 0 <= i < |a| ==> Timeless(a[i]) == Timeless(b[i])
  }

  lemma FreshButTime(keys: seq<string>, group: string, now: int, later: int)
    ensures SameButTime(FreshTaints(keys, group, now), FreshTaints(keys, group, later))
  {
    if keys != [] {
      FreshButTime(keys[1..], group, now, later);
    }
  }

  lemma MarkedTaintsTwice(
      ts: seq<Taint>, keys: seq<string>, group: string, value: string, now: int, later: int)
    ensures var once := MarkedTaints(ts, keys, group, value, now);
      var twice := MarkedTaints(once, keys, group, value, later);
      SameButTime(twice, once) && (now == later ==> twice == once)
  {
    var rest := Without(ts, ManagedKeys(keys));
    MarkedWithout(ts, keys, group, value, now);
    FreshButTime(keys, group, now, later);
    var a := FreshTaints(keys, group, now);
    var b := FreshTaints(keys, group, later);
    var n := |rest|;
    var once := MarkedTaints(ts, keys, group, value, now);
    var twice := MarkedTaints(once, keys, group, value, later);
    forall i | 0 <= i < |once| ensures Timeless(twice[i]) == Timeless(once[i]) {
      if i > n {
        assert twice[i] == b[i - n - 1] && once[i] == a[i - n - 1];
      }
    }
  }

  lemma RemarkStatus(node: Node, group: string, entry: PoolEntry, envtest: bool, now: int)
    ensures StatusValue(entry.mode, KeySet(Remark(node, group, entry, envtest, now).taints), envtest)
         == StatusValue(entry.mode, KeySet(node.taints), envtest)
  {
    var keys := TypeKeys(entry.types);
    var value := StatusValue(entry.mode, KeySet(node.taints), envtest);
    StatusIgnoresManaged(entry.mode, node.taints, entry.types, envtest);
    StatusIgnoresManaged(entry.mode, Remark(node, group, entry, envtest, now).taints, entry.types, envtest);
    MarkedWithout(node.taints, keys, group, value, now);
  }

  /** Marking again changes timestamps only. */
  lemma RemarkIdempotent(node: Node, group: string, entry: PoolEntry, envtest: bool, now: int, later: int)
    ensures var once := Remark(node, group, entry, envtest, now);
      var twice := Remark(once, group, entry, envtest, later);
      && twice.labels == once.labels
      && twice.annotations == once.annotations
      && SameButTime(twice.taints, once.taints)
      && (now == later || !entry.taint ==> twice == once)
  {
    var keys := TypeKeys(entry.types);
    var value := StatusValue(entry.mode, KeySet(node.taints), envtest);
    RemarkStatus(node, group, entry, envtest, now);
    MarkedTaintsTwice(node.taints, keys, group, value, now, later);
    MarkedLabelsRest(node.labels, keys, group, value);
  }

  /** Why machine types must not be edited away: the removals only look for the types of the current
      spec, so the label of a replaced type outlives clean-up. */
  lemma ReplacedTypeSurvives(
      node: Node, group: string, before: PoolEntry, after: PoolEntry, envtest: bool, now: int, later: int)
    requires |before.types| == |after.types| == 1 && before.types[0] != after.types[0]
    requires NODE_POOL_NAME !in before.types && NODE_POOL_NAME !in after.types
    requires Free(node, TypeKeys(before.types)) && Free(node, TypeKeys(after.types))
    ensures var stale := TypeKey(before.types[0]);
      var first := Mark(node, group, TypeKeys(before.types), before, envtest, now);
      first.Some? &&
      var second := Mark(first.value, group, TypeKeys(after.types), after, envtest, later);
      second.Some? &&
      var cleaned := Strip(second.value, group, TypeKeys(after.types));
      cleaned.Some? && stale in cleaned.value.labels && cleaned.value.labels[stale] == group
  {
    var olds, news := TypeKeys(before.types), TypeKeys(after.types);
    var stale := olds[0];
    TypeKeyInjective(before.types[0], after.types[0]);
    StatusKeyIsATypeKey(before.types[0]);
    FreeIsTame(node, group, olds);
    TameIsRemovable(node, group, olds);
    MarkIs(node, group, before, envtest, now);
    var first := Remark(node, group, before, envtest, now);
    MarkedLabelsRest(node.labels, olds, group, StatusValue(before.mode, KeySet(node.taints), envtest));
    MarkedForOneTameForOther(node, group, before, after, envtest, now);
    TameIsRemovable(first, group, news);
    MarkIs(first, group, after, envtest, later);
    var second := Remark(first, group, after, envtest, later);
    RemarkMarks(first, group, after, envtest, later);
    RemarkKeepsRest(first, group, after, envtest, later);
    TameStrips(second, group, news);
    assert stale !in ManagedKeys(news);
    assert stale in Rest(first, news).labels;
  }

  lemma MarkedForOneTameForOther(
      node: Node, group: string, before: PoolEntry, after: PoolEntry, envtest: bool, now: int)
    requires |before.types| == |after.types| == 1 && before.types[0] != after.types[0]
    requires NODE_POOL_NAME !in before.types && NODE_POOL_NAME !in after.types
    requires Free(node, TypeKeys(before.types)) && Free(node, TypeKeys(after.types))
    ensures Tame(Remark(node, group, before, envtest, now), group, TypeKeys(after.types))
  {
    var olds, news := TypeKeys(before.types), TypeKeys(after.types);
    TypeKeyInjective(before.types[0], after.types[0]);
    StatusKeyIsATypeKey(after.types[0]);
    var first := Remark(node, group, before, envtest, now);
    var value := StatusValue(before.mode, KeySet(node.taints), envtest);
    RemarkMarksFree(node, group, before, envtest, now);
    RemarkKeepsRest(node, group, before, envtest, now);
    var k := news[0];
    assert k in ManagedKeys(news) && k !in ManagedKeys(olds);
    assert k !in Rest(node, olds).labels && k !in Rest(first, olds).labels;
    WithoutCounts(first.taints, ManagedKeys(olds), k);
    WithoutCounts(node.taints, ManagedKeys(olds), k);
    CountZero(node.taints, k);
  }

  lemma RemarkMarksFree(node: Node, group: string, entry: PoolEntry, envtest: bool, now: int)
    requires NODE_POOL_NAME !in entry.types && Free(node, TypeKeys(entry.types))
    ensures Marked(Remark(node, group, entry, envtest, now), group, TypeKeys(entry.types))
  {
    FreeIsTame(node, group, TypeKeys(entry.types));
    RemarkMarks(node, group, entry, envtest, now);
  }
}
