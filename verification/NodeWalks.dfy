/** The two loops of the MachineNodePool controller over the listed nodes, for any per-node
    step: the marking loop runs to the first error, the clean-up loop also ends, successfully,
    at the first node its step leaves alone. */
module NodeWalks {
  import opened Objects
  import opened NodeMarking

  type Store = map<string, Node>

  /** What entry `i` makes of a node; None is a run-time panic. */
  type Step = (nat, Node) -> Option<Node>

  /** What the API server and the clock answer at each entry of one pass. */
  datatype Api = Api(getFails: nat -> bool, updateFails: nat -> bool, clock: nat -> int)

  datatype Outcome = Done | Failed(at: nat) | Crashed(at: nat)

  ghost predicate Faultless(api: Api) {
    forall i :: !api.getFails(i) && !api.updateFails(i)
  }

  /** How many of `n` entries a marking loop got through. */
  function Reached(o: Outcome, n: nat): nat {
    if o == Done then n else o.at
  }

  /** `reconcileNode` writes back only when labels or taints differ, not for the annotation alone. */
  predicate Unwritten(origin: Node, node: Node) {
    origin.labels == node.labels && origin.taints == node.taints
  }

  /** A node that does not exist is read as an empty one. */
  function Fetched(store: Store, name: string): Node {
    if name in store then store[name] else EMPTY_NODE
  }

  /** `name` is one of entries `from` to `to`. */
  predicate Among(names: seq<string>, name: string, from: nat, to: nat)
    requires from <= to <= |names|
  {
    name in names[from..to]
  }

  // ----- marking loop -----

  function MarkEntry(store: Store, names: seq<string>, i: nat, step: Step, api: Api): (Store, Outcome)
    requires i < |names|
  {
    if api.getFails(i) || names[i] !in store then (store, Failed(i))
    else
      match step(i, store[names[i]])
      case None => (store, Crashed(i))
      case Some(m) =>
        if Unwritten(store[names[i]], m) then (store, Done)
        else if api.updateFails(i) then (store, Failed(i))
        else (store[names[i] := m], Done)
  }

  function MarkFrom(store: Store, names: seq<string>, i: nat, step: Step, api: Api): (Store, Outcome)
    requires i <= |names|
    decreases |names| - i
  {
    if i == |names| then (store, Done)
    else
      var (s, o) := MarkEntry(store, names, i, step, api);
      if o == Done then MarkFrom(s, names, i + 1, step, api) else (s, o)
  }

  /** What a successful entry leaves of its node. */
  function Written(node: Node, i: nat, step: Step): Node {
    match step(i, node)
    case None => node
    case Some(m) => if Unwritten(node, m) then node else m
  }

  /** Entry `i` ends the loop. */
  predicate EntryFails(store: Store, names: seq<string>, i: nat, step: Step, api: Api)
    requires i < |names|
  {
    || api.getFails(i)
    || names[i] !in store
    || step(i, store[names[i]]) == None
    || (!Unwritten(store[names[i]], step(i, store[names[i]]).value) && api.updateFails(i))
  }

  /** `s` is `store` with exactly the entries from `i` up to `k` written. */
  ghost predicate WrittenTo(store: Store, s: Store, names: seq<string>, i: nat, k: nat, step: Step)
    requires i <= k <= |names|
  {
    && s.Keys == store.Keys
    && (forall j :: i <= j < k ==>
      names[j] in store && names[j] in s && s[names[j]] == Written(store[names[j]], j, step))
    && (forall name :: name in store && !Among(names, name, i, k) ==> s[name] == store[name])
  }

  /** Writing entry `i` first and the later ones after it. */
  lemma WrittenFirst(store: Store, s: Store, names: seq<string>, i: nat, k: nat, step: Step)
    requires Distinct(names) && i < k <= |names| && names[i] in store
    requires WrittenTo(store[names[i] := Written(store[names[i]], i, step)], s, names, i + 1, k, step)
    ensures WrittenTo(store, s, names, i, k, step)
  {
    assert names[i..k] == [names[i]] + names[i + 1..k];
    assert names[i] !in names[i + 1..k];
    forall name | name in store && !Among(names, name, i, k) ensures s[name] == store[name] {
      assert !Among(names, name, i + 1, k);
    }
  }

  lemma MarkEntryEffect(store: Store, names: seq<string>, i: nat, step: Step, api: Api)
    requires i < |names|
    ensures var (s, o) := MarkEntry(store, names, i, step, api);
      if EntryFails(store, names, i, step, api) then s == store && o != Done && o.at == i
      else names[i] in store && o == Done && s == store[names[i] := Written(store[names[i]], i, step)]
  {
  }

  lemma {:induction false} MarkFromEffect(store: Store, names: seq<string>, i: nat, step: Step, api: Api)
    requires Distinct(names) && i <= |names|
    ensures var (s, o) := MarkFrom(store, names, i, step, api);
      var k := Reached(o, |names|);
      && i <= k <= |names|
      && WrittenTo(store, s, names, i, k, step)
      && (forall j :: i <= j < k ==> !EntryFails(store, names, j, step, api))
      && (o != Done ==> k < |names| && EntryFails(store, names, k, step, api))
    decreases |names| - i
  {
    if i < |names| {
      MarkEntryEffect(store, names, i, step, api);
      if !EntryFails(store, names, i, step, api) {
        var s1 := store[names[i] := Written(store[names[i]], i, step)];
        MarkFromEffect(s1, names, i + 1, step, api);
        var (s, o) := MarkFrom(s1, names, i + 1, step, api);
        WrittenFirst(store, s, names, i, Reached(o, |names|), step);
        forall j | i + 1 <= j < |names|
          ensures EntryFails(s1, names, j, step, api) == EntryFails(store, names, j, step, api)
        {
          assert names[j] != names[i];
        }
      }
    }
  }

  /** A panic is reported only where the step panics. */
  lemma {:induction false} MarkFromCause(store: Store, names: seq<string>, i: nat, step: Step, api: Api)
    requires Distinct(names) && i <= |names|
    ensures var o := MarkFrom(store, names, i, step, api).1;
      o.Crashed? ==> o.at < |names| && names[o.at] in store && step(o.at, store[names[o.at]]) == None
    decreases |names| - i
  {
    if i < |names| {
      MarkEntryEffect(store, names, i, step, api);
      if !EntryFails(store, names, i, step, api) {
        MarkFromCause(store[names[i] := Written(store[names[i]], i, step)], names, i + 1, step, api);
        MarkFromEffect(store, names, i, step, api);
      }
    }
  }

  // ----- clean-up loop -----

  function CleanFrom(store: Store, names: seq<string>, i: nat, step: Step, api: Api): (Store, Outcome)
    requires i <= |names|
    decreases |names| - i
  {
    if i == |names| then (store, Done)
    else if api.getFails(i) then (store, Failed(i))
    else
      var node := Fetched(store, names[i]);
      match step(i, node)
      case None => (store, Crashed(i))
      case Some(c) =>
        if c == node then (store, Done)
        else if api.updateFails(i) then (store, Failed(i))
        else CleanFrom(store[names[i] := c], names, i + 1, step, api)
  }

  /** The clean-up step would change this entry's node. */
  predicate Dirty(store: Store, names: seq<string>, i: nat, step: Step)
    requires i < |names|
  {
    var node := Fetched(store, names[i]);
    step(i, node) != Some(node)
  }

  /** `s` is `store` with exactly the entries from `i` up to `k` cleaned. */
  ghost predicate CleanedTo(store: Store, s: Store, names: seq<string>, i: nat, k: nat, step: Step)
    requires i <= k <= |names|
  {
    && s.Keys == store.Keys
    && (forall j :: i <= j < k ==>
      names[j] in store && names[j] in s && Some(s[names[j]]) == step(j, store[names[j]]))
    && (forall name :: name in store && !Among(names, name, i, k) ==> s[name] == store[name])
  }

  lemma CleanedFirst(store: Store, s: Store, names: seq<string>, i: nat, k: nat, step: Step)
    requires Distinct(names) && i < k <= |names| && names[i] in store && step(i, store[names[i]]) != None
    requires CleanedTo(store[names[i] := step(i, store[names[i]]).value], s, names, i + 1, k, step)
    ensures CleanedTo(store, s, names, i, k, step)
  {
    assert names[i..k] == [names[i]] + names[i + 1..k];
    assert names[i] !in names[i + 1..k];
    forall name | name in store && !Among(names, name, i, k) ensures s[name] == store[name] {
      assert !Among(names, name, i + 1, k);
    }
  }

  /** Entry `j` cannot panic; a node that does not exist counts as clean. */
  ghost predicate Cleanable(store: Store, names: seq<string>, j: nat, step: Step)
    requires j < |names|
  {
    if names[j] in store then step(j, store[names[j]]) != None else step(j, EMPTY_NODE) == Some(EMPTY_NODE)
  }

  /** A clean-up that no panic interrupts: the entries up to the first clean one, or the first one
      that cannot be read or written, are cleaned; nothing else changes. A clean entry ends the
      loop with success. */
  lemma {:induction false} CleanFromEffect(store: Store, names: seq<string>, i: nat, step: Step, api: Api)
    returns (k: nat)
    requires Distinct(names) && i <= |names|
    requires forall j :: i <= j < |names| ==> Cleanable(store, names, j, step)
    ensures i <= k <= |names|
    ensures var (s, o) := CleanFrom(store, names, i, step, api);
      && CleanedTo(store, s, names, i, k, step)
      && (forall j :: i <= j < k ==> Dirty(store, names, j, step) && !api.getFails(j) && !api.updateFails(j))
      && (o == Done ==> k < |names| ==> !Dirty(store, names, k, step) && !api.getFails(k))
      && (o != Done ==> o == Failed(k) && k < |names|)
      && (o != Done ==> api.getFails(k) || (Dirty(store, names, k, step) && api.updateFails(k)))
    decreases |names| - i
  {
    k := i;
    if i < |names| && !api.getFails(i) {
      var node := Fetched(store, names[i]);
      assert Cleanable(store, names, i, step);
      var c := step(i, node).value;
      if c != node && !api.updateFails(i) {
        var s1 := store[names[i] := c];
        forall j | i + 1 <= j < |names|
          ensures Dirty(s1, names, j, step) == Dirty(store, names, j, step)
          ensures Cleanable(s1, names, j, step)
        {
          assert names[j] != names[i];
          assert Cleanable(store, names, j, step);
        }
        k := CleanFromEffect(s1, names, i + 1, step, api);
        CleanedFirst(store, CleanFrom(s1, names, i + 1, step, api).0, names, i, k, step);
      }
    }
  }

  // ----- lists with repeated names -----

  /** `store` is `marked`, with the first `i` listed nodes as in `base`. */
  ghost predicate RestoredTo(store: Store, marked: Store, base: Store, names: seq<string>, i: nat)
    requires i <= |names|
  {
    && store.Keys == marked.Keys == base.Keys
    && (forall name :: name in base ==>
      store[name] == if name in names[..i] then base[name] else marked[name])
  }

  lemma RestoredNext(store: Store, marked: Store, base: Store, names: seq<string>, i: nat)
    requires i < |names| && RestoredTo(store, marked, base, names, i) && names[i] in base
    ensures RestoredTo(store[names[i] := base[names[i]]], marked, base, names, i + 1)
  {
    assert names[..i + 1] == names[..i] + [names[i]];
  }

  /** Entry `j` finds a marked node and takes it back to `base`, where it leaves it alone. */
  ghost predicate TakesBack(marked: Store, base: Store, names: seq<string>, j: nat, step: Step)
    requires j < |names|
  {
    && names[j] in base && names[j] in marked
    && marked[names[j]] != base[names[j]]
    && step(j, marked[names[j]]) == Some(base[names[j]])
    && step(j, base[names[j]]) == Some(base[names[j]])
  }

  /** If the step takes every marked node back to `base` and leaves it alone there, a fault-free
      clean-up restores node after node up to the first repeated name, and reports success. */
  lemma {:induction false} CleanStopsAtRepeat(
      store: Store, marked: Store, base: Store, names: seq<string>, i: nat, step: Step, api: Api)
    returns (stop: nat)
    requires i <= |names| && RestoredTo(store, marked, base, names, i) && Faultless(api)
    requires forall j :: 0 <= j < |names| ==> TakesBack(marked, base, names, j, step)
    ensures i <= stop <= |names| && (stop < |names| ==> names[stop] in names[..stop])
    ensures forall q :: i <= q < stop ==> names[q] !in names[..q]
    ensures var (s, o) := CleanFrom(store, names, i, step, api);
      o == Done && RestoredTo(s, marked, base, names, stop)
    decreases |names| - i
  {
    stop := i;
    assert i < |names| ==> TakesBack(marked, base, names, i, step);
    if i < |names| && names[i] !in names[..i] {
      RestoredNext(store, marked, base, names, i);
      stop := CleanStopsAtRepeat(store[names[i] := base[names[i]]], marked, base, names, i + 1, step, api);
    }
  }

  // ----- frames, for any list of names -----

  /** A marking loop writes listed nodes only. */
  lemma {:induction false} MarkFromFrame(
      store: Store, names: seq<string>, i: nat, step: Step, api: Api, name: string)
    requires i <= |names| && name !in names
    ensures var s := MarkFrom(store, names, i, step, api).0;
      s.Keys == store.Keys && (name in store ==> s[name] == store[name])
    decreases |names| - i
  {
    if i < |names| {
      MarkEntryEffect(store, names, i, step, api);
      var (s1, o1) := MarkEntry(store, names, i, step, api);
      assert s1.Keys == store.Keys;
      if o1 == Done {
        MarkFromFrame(s1, names, i + 1, step, api, name);
      }
    }
  }

  /** So does a clean-up loop. */
  lemma {:induction false} CleanFromFrame(
      store: Store, names: seq<string>, i: nat, step: Step, api: Api, name: string)
    requires i <= |names| && name !in names && name in store
    ensures var s := CleanFrom(store, names, i, step, api).0;
      name in s && s[name] == store[name]
    decreases |names| - i
  {
    if i < |names| && !api.getFails(i) {
      var c := step(i, Fetched(store, names[i]));
      if c.Some? && c.value != Fetched(store, names[i]) && !api.updateFails(i) {
        CleanFromFrame(store[names[i] := c.value], names, i + 1, step, api, name);
      }
    }
  }
}
