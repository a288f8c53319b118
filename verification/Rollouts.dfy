/** Writing a list of wanted objects one after the other, as the Machine controller does with its
    StatefulSets and Services, with an API that may refuse any call. */
module Rollouts {
  import opened Objects

  /** What becomes of one object: written, refused, or written while the status update that reports a
      change is refused. */
  datatype Answer = Accepted | Refused | Unreported

  datatype Named<T> = Named(name: string, item: T)

  /** For each turn of the loop the object it wants, with its name, or nothing. */
  type Wanted<T> = seq<Option<Named<T>>>

  /** The objects after the first `n` turns, none refused. */
  function Applied<T>(objects: map<string, T>, wanted: Wanted<T>, n: nat): map<string, T>
    requires n <= |wanted|
  {
    if n == 0 then objects
    else
      var before := Applied(objects, wanted, n - 1);
      match wanted[n - 1]
      case None => before
      case Some(Named(name, item)) => before[name := item]
  }

  /** The loop from turn `i` on; an error ends it. */
  function Rollout<T(==)>(
      objects: map<string, T>, wanted: Wanted<T>, answer: nat -> Answer, i: nat): (map<string, T>, bool)
    requires i <= |wanted|
    decreases |wanted| - i
  {
    if i == |wanted| then (objects, true)
    else
      match wanted[i]
      case None => Rollout(objects, wanted, answer, i + 1)
      case Some(Named(name, item)) =>
        var next := objects[name := item];
        if answer(i) == Refused then (objects, false)
        else if answer(i) == Unreported && next != objects then (next, false)
        else Rollout(next, wanted, answer, i + 1)
  }

  /** Some turn before `n` writes the object `name`. */
  predicate Covers<T>(wanted: Wanted<T>, n: nat, name: string)
    requires n <= |wanted|
  {
    exists i :: 0 <= i < n && wanted[i].Some? && wanted[i].value.name == name
  }

  lemma {:induction false} RolloutCompletes<T>(
      objects: map<string, T>, base: map<string, T>, wanted: Wanted<T>, answer: nat -> Answer, i: nat)
    requires i <= |wanted| && objects == Applied(base, wanted, i)
    requires forall k :: i <= k < |wanted| ==> answer(k) == Accepted
    ensures Rollout(objects, wanted, answer, i) == (Applied(base, wanted, |wanted|), true)
    decreases |wanted| - i
  {
    if i < |wanted| {
      RolloutCompletes(Applied(base, wanted, i + 1), base, wanted, answer, i + 1);
    }
  }

  lemma {:induction false} AppliedAt<T>(a: map<string, T>, b: map<string, T>, wanted: Wanted<T>, n: nat, x: string)
    requires n <= |wanted|
    requires Covers(wanted, n, x) || ((x in a <==> x in b) && (x in a ==> a[x] == b[x]))
    ensures x in Applied(a, wanted, n) <==> x in Applied(b, wanted, n)
    ensures x in Applied(a, wanted, n) ==> Applied(a, wanted, n)[x] == Applied(b, wanted, n)[x]
  {
    if n > 0 && !(wanted[n - 1].Some? && wanted[n - 1].value.name == x) {
      AppliedAt(a, b, wanted, n - 1, x);
    }
  }

  /** What was in a covered place before does not matter. */
  lemma AppliedForgets<T>(objects: map<string, T>, wanted: Wanted<T>, name: string, item: T)
    requires Covers(wanted, |wanted|, name)
    ensures Applied(objects[name := item], wanted, |wanted|) == Applied(objects, wanted, |wanted|)
  {
    var a, b := Applied(objects[name := item], wanted, |wanted|), Applied(objects, wanted, |wanted|);
    forall x ensures x in a <==> x in b ensures x in a ==> a[x] == b[x] {
      AppliedAt(objects[name := item], objects, wanted, |wanted|, x);
    }
    assert a.Keys == b.Keys;
  }

  /** A rollout that covers everything an earlier one may have written makes up for it, wherever that
      one was cut off. */
  lemma {:induction false} RolloutHeals<T>(
      objects: map<string, T>, earlier: Wanted<T>, answer: nat -> Answer, i: nat, wanted: Wanted<T>)
    requires i <= |earlier|
    requires forall k :: i <= k < |earlier| && earlier[k].Some? ==> Covers(wanted, |wanted|, earlier[k].value.name)
    ensures Applied(Rollout(objects, earlier, answer, i).0, wanted, |wanted|) == Applied(objects, wanted, |wanted|)
    decreases |earlier| - i
  {
    if i < |earlier| {
      if earlier[i] == None {
        RolloutHeals(objects, earlier, answer, i + 1, wanted);
      } else {
        var Named(name, item) := earlier[i].value;
        AppliedForgets(objects, wanted, name, item);
        RolloutHeals(objects[name := item], earlier, answer, i + 1, wanted);
      }
    }
  }

  /** Where a rollout ends. It writes the first `n` turns and nothing else: all of them if no call was
      refused and every change was reported, otherwise up to the first refused turn, or up to and with
      the first turn whose change went unreported. */
  lemma {:induction false} RolloutStops<T>(
      objects: map<string, T>, base: map<string, T>, wanted: Wanted<T>, answer: nat -> Answer, i: nat)
    returns (n: nat)
    requires i <= |wanted| && objects == Applied(base, wanted, i)
    ensures i <= n <= |wanted|
    ensures Rollout(objects, wanted, answer, i).0 == Applied(base, wanted, n)
    ensures forall k :: i <= k < n && wanted[k].Some? ==> answer(k) != Refused
    ensures forall k :: i <= k < n - 1 ==> !Unseen(base, wanted, answer, k)
    ensures Rollout(objects, wanted, answer, i).1 ==> n == |wanted| && (n > i ==> !Unseen(base, wanted, answer, n - 1))
    ensures !Rollout(objects, wanted, answer, i).1 ==>
      || (n < |wanted| && wanted[n].Some? && answer(n) == Refused)
      || (n > i && Unseen(base, wanted, answer, n - 1))
    decreases |wanted| - i
  {
    if i == |wanted| || (wanted[i].Some? && answer(i) == Refused) {
      n := i;
    } else if Unseen(base, wanted, answer, i) {
      n := i + 1;
    } else {
      n := RolloutStops(Applied(base, wanted, i + 1), base, wanted, answer, i + 1);
    }
  }

  /** Turn `k` changes something, and the report on that is refused. */
  ghost predicate Unseen<T>(base: map<string, T>, wanted: Wanted<T>, answer: nat -> Answer, k: nat)
    requires k < |wanted|
  {
    wanted[k].Some? && answer(k) == Unreported && Applied(base, wanted, k + 1) != Applied(base, wanted, k)
  }

  /** A covered name has what the last turn that writes it wants. */
  lemma {:induction false} AppliedHas<T>(objects: map<string, T>, wanted: Wanted<T>, n: nat, name: string)
    returns (j: nat)
    requires n <= |wanted| && Covers(wanted, n, name)
    ensures j < n && wanted[j].Some? && wanted[j].value.name == name
    ensures name in Applied(objects, wanted, n) && Applied(objects, wanted, n)[name] == wanted[j].value.item
    ensures forall k :: j < k < n && wanted[k].Some? ==> wanted[k].value.name != name
  {
    if wanted[n - 1].Some? && wanted[n - 1].value.name == name {
      j := n - 1;
    } else {
      j := AppliedHas(objects, wanted, n - 1, name);
    }
  }

  predicate RefusesOne<T>(wanted: Wanted<T>, answer: nat -> Answer) {
    exists k :: 0 <= k < |wanted| && wanted[k].Some? && answer(k) == Refused
  }

  /** A name that no turn wants keeps its object, or stays without one. */
  lemma {:induction false} RolloutKeeps<T>(
      objects: map<string, T>, wanted: Wanted<T>, answer: nat -> Answer, i: nat, name: string)
    requires i <= |wanted| && !Covers(wanted, |wanted|, name)
    ensures var after := Rollout(objects, wanted, answer, i).0;
      (name in after <==> name in objects) && (name in after ==> after[name] == objects[name])
    decreases |wanted| - i
  {
    if i < |wanted| {
      if wanted[i] == None {
        RolloutKeeps(objects, wanted, answer, i + 1, name);
      } else {
        var Named(other, item) := wanted[i].value;
        RolloutKeeps(objects[other := item], wanted, answer, i + 1, name);
      }
    }
  }
}
