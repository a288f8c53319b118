/** Taint lists as values: what the removal and extraction loops compute, and when that is a
    plain filter. The loops themselves, over aliased slices, are in GoSlices. */
module Taints {
  import opened Objects

  function KeySet(ts: seq<Taint>): set<string> {
    set t | t in ts :: t.key
  }

  /** The taints whose key is not in `keys`, in order. */
  function Without(ts: seq<Taint>, keys: set<string>): seq<Taint> {
    if ts == [] then []
    else (if ts[0].key in keys then [] else [ts[0]]) + Without(ts[1..], keys)
  }

  /** The taints whose key is in `keys`, in order. */
  function Only(ts: seq<Taint>, keys: set<string>): seq<Taint> {
    if ts == [] then []
    else (if ts[0].key in keys then [ts[0]] else []) + Only(ts[1..], keys)
  }

  function Count(ts: seq<Taint>, key: string): nat {
    if ts == [] then 0 else (if ts[0].key == key then 1 else 0) + Count(ts[1..], key)
  }

  function Occurrences(keys: seq<string>, key: string): nat {
    if keys == [] then 0 else (if keys[0] == key then 1 else 0) + Occurrences(keys[1..], key)
  }

  /** What deleting `key` while ranging over the same slice leaves: the element that slides into
      the place of a deleted one is never looked at. */
  function Skipping(ts: seq<Taint>, key: string): seq<Taint> {
    if ts == [] then []
    else if ts[0].key != key then [ts[0]] + Skipping(ts[1..], key)
    else if |ts| == 1 then []
    else [ts[1]] + Skipping(ts[2..], key)
  }

  /** The loop slices past the end of the shortened list: `key` is last, and was seen before. */
  predicate Overruns(ts: seq<Taint>, key: string) {
    |ts| > 0 && ts[|ts| - 1].key == key && exists q :: 0 <= q < |ts| - 1 && ts[q].key == key
  }

  predicate AdjacentPair(ts: seq<Taint>, key: string) {
    exists q :: 0 <= q < |ts| - 1 && ts[q].key == key && ts[q + 1].key == key
  }

  /** How many taints of `key` the range passes over: each directly follows a deleted one. */
  function Survivors(ts: seq<Taint>, key: string): nat {
    if |ts| < 2 then 0
    else if ts[0].key != key then Survivors(ts[1..], key)
    else (if ts[1].key == key then 1 else 0) + Survivors(ts[2..], key)
  }

  /** `GetTaintKeyIndex`, with -1 for nil. */
  function FirstIndex(ts: seq<Taint>, key: string): (i: int)
    ensures -1 <= i < |ts|
    ensures i >= 0 ==> ts[i].key == key && forall q :: 0 <= q < i ==> ts[q].key != key
    ensures i == -1 ==> key !in KeySet(ts)
  {
    if ts == [] then -1
    else if ts[0].key == key then 0
    else
      var i := FirstIndex(ts[1..], key);
      assert forall t :: t in ts ==> t == ts[0] || t in ts[1..];
      assert i >= 0 ==> forall q :: 1 <= q < i + 1 ==> ts[q] == ts[1..][q - 1];
      if i < 0 then -1 else i + 1
  }

  function DropFirst(ts: seq<Taint>, key: string): seq<Taint> {
    var i := FirstIndex(ts, key);
    if i < 0 then ts else ts[..i] + ts[i + 1..]
  }

  /** One first-occurrence removal per listed key. */
  function DropEach(ts: seq<Taint>, keys: seq<string>): seq<Taint>
    decreases keys
  {
    if keys == [] then ts else DropEach(DropFirst(ts, keys[0]), keys[1..])
  }

  /** `removeNodeTaint`: None is the run-time panic. */
  function RemoveManaged(ts: seq<Taint>, status: string, keys: seq<string>): Option<seq<Taint>> {
    if Overruns(ts, status) then None else Some(DropEach(Skipping(ts, status), keys))
  }

  function AsSet(keys: seq<string>): set<string> {
    set k | k in keys
  }

  // ----- lists -----

  lemma {:induction false} WithoutConcat(a: seq<Taint>, b: seq<Taint>, keys: set<string>)
    ensures Without(a + b, keys) == Without(a, keys) + Without(b, keys)
    ensures Only(a + b, keys) == Only(a, keys) + Only(b, keys)
  {
    if a == [] {
      assert a + b == b;
    } else {
      assert (a + b)[1..] == a[1..] + b;
      WithoutConcat(a[1..], b, keys);
      var head := if a[0].key in keys then [] else [a[0]];
      assert head + (Without(a[1..], keys) + Without(b, keys)) == (head + Without(a[1..], keys)) + Without(b, keys);
      var picked := if a[0].key in keys then [a[0]] else [];
      assert picked + (Only(a[1..], keys) + Only(b, keys)) == (picked + Only(a[1..], keys)) + Only(b, keys);
    }
  }

  lemma CountConcat(a: seq<Taint>, b: seq<Taint>, key: string)
    ensures Count(a + b, key) == Count(a, key) + Count(b, key)
  {
    if a == [] {
      assert a + b == b;
    } else {
      assert (a + b)[1..] == a[1..] + b;
      CountConcat(a[1..], b, key);
    }
  }

  lemma CountZero(ts: seq<Taint>, key: string)
    ensures Count(ts, key) == 0 <==> key !in KeySet(ts)
  {
    if ts != [] {
      CountZero(ts[1..], key);
      assert forall t :: t in ts <==> t == ts[0] || t in ts[1..];
    }
  }

  lemma CountAt(ts: seq<Taint>, i: nat, j: nat, key: string)
    requires i < j < |ts| && ts[i].key == key && ts[j].key == key
    ensures Count(ts, key) >= 2
  {
    if i > 0 {
      CountAt(ts[1..], i - 1, j - 1, key);
    } else {
      assert ts[1..][j - 1] == ts[j];
      assert ts[j] in ts[1..];
      CountZero(ts[1..], key);
    }
  }

  lemma WithoutNothing(ts: seq<Taint>, keys: set<string>)
    ensures Without(ts, keys) == ts <==> KeySet(ts) !! keys
    ensures |Without(ts, keys)| <= |ts|
  {
    if ts != [] {
      WithoutNothing(ts[1..], keys);
      assert ts == [ts[0]] + ts[1..];
      assert forall t :: t in ts <==> t == ts[0] || t in ts[1..];
      assert KeySet(ts) == {ts[0].key} + KeySet(ts[1..]);
    }
  }

  lemma WithoutKeys(ts: seq<Taint>, keys: set<string>)
    ensures KeySet(Without(ts, keys)) == KeySet(ts) - keys
    ensures forall t :: t in Without(ts, keys) <==> t in ts && t.key !in keys
  {
    if ts != [] {
      WithoutKeys(ts[1..], keys);
      assert forall t :: t in ts <==> t == ts[0] || t in ts[1..];
      assert forall t :: t in Without(ts, keys) <==> t in ts && t.key !in keys;
      assert forall t :: t in Without(ts, keys) ==> t in ts;
      assert forall k :: k in KeySet(ts) - keys ==> exists t :: t in ts && t.key == k;
    } else {
      assert Without(ts, keys) == [];
    }
  }

  lemma OnlyCounts(ts: seq<Taint>, keys: set<string>, key: string)
    requires key in keys
    ensures Count(Only(ts, keys), key) == Count(ts, key)
  {
    if ts != [] {
      OnlyCounts(ts[1..], keys, key);
      CountConcat(if ts[0].key in keys then [ts[0]] else [], Only(ts[1..], keys), key);
    }
  }

  // ----- the status loop -----

  /** Deleting while ranging is a filter exactly when no two deleted elements were adjacent. */
  lemma {:induction false} SkippingIsFilter(ts: seq<Taint>, key: string)
    ensures Skipping(ts, key) == Without(ts, {key}) <==> !AdjacentPair(ts, key)
  {
    if |ts| >= 2 {
      SkippingIsFilter(ts[1..], key);
      SkippingIsFilter(ts[2..], key);
      PairBelow(ts, key);
      if ts[0].key == key && ts[1].key == key {
        WithoutKeys(ts, {key});
        assert ts[1] in Skipping(ts, key);
        assert ts[1] !in Without(ts, {key});
      } else if ts[0].key == key {
        if |ts| >= 3 {
          PairBelow(ts[1..], key);
        }
        assert ts[1..][1..] == ts[2..];
        assert Without(ts, {key}) == [] + ([ts[1]] + Without(ts[2..], {key}));
        Tail([ts[1]], Skipping(ts[2..], key), Without(ts[2..], {key}));
      } else {
        Tail([ts[0]], Skipping(ts[1..], key), Without(ts[1..], {key}));
      }
    } else if |ts| == 1 {
      assert ts[1..] == [];
    }
  }

  lemma Tail(p: seq<Taint>, a: seq<Taint>, b: seq<Taint>)
    ensures p + a == p + b <==> a == b
  {
    assert (p + a)[|p|..] == a && (p + b)[|p|..] == b;
  }

  lemma PairBelow(ts: seq<Taint>, key: string)
    requires |ts| >= 2
    ensures AdjacentPair(ts, key) <==>
            (ts[0].key == key && ts[1].key == key) || AdjacentPair(ts[1..], key)
  {
    if AdjacentPair(ts, key) {
      var q :| 0 <= q < |ts| - 1 && ts[q].key == key && ts[q + 1].key == key;
      if q > 0 {
        assert ts[1..][q - 1].key == key && ts[1..][q].key == key;
      }
    }
    if AdjacentPair(ts[1..], key) {
      var q :| 0 <= q < |ts[1..]| - 1 && ts[1..][q].key == key && ts[1..][q + 1].key == key;
      assert ts[q + 1].key == key && ts[q + 2].key == key;
    }
  }

  lemma {:induction false} SurvivorsCounted(ts: seq<Taint>, key: string)
    ensures Count(Skipping(ts, key), key) == Survivors(ts, key)
  {
    if |ts| >= 2 {
      SurvivorsCounted(ts[1..], key);
      SurvivorsCounted(ts[2..], key);
    } else if |ts| == 1 {
      assert ts[1..] == [];
    }
  }

  /** Something survives exactly if two taints of the key were adjacent. */
  lemma {:induction false} SurvivorsOfPairs(ts: seq<Taint>, key: string)
    ensures Survivors(ts, key) > 0 <==> AdjacentPair(ts, key)
  {
    if |ts| >= 2 {
      PairBelow(ts, key);
      SurvivorsOfPairs(ts[1..], key);
      if ts[0].key == key && ts[1].key != key && |ts| >= 3 {
        PairBelow(ts[1..], key);
        assert ts[1..][1..] == ts[2..];
        SurvivorsOfPairs(ts[2..], key);
      }
    }
  }

  // ----- the machine-type removals -----

  lemma DropFirstCounts(ts: seq<Taint>, dropped: string, key: string)
    ensures Count(DropFirst(ts, dropped), key)
         == if key == dropped && Count(ts, key) > 0 then Count(ts, key) - 1 else Count(ts, key)
  {
    var i := FirstIndex(ts, dropped);
    CountZero(ts, dropped);
    if i >= 0 {
      assert ts[i] in ts;
      assert ts == ts[..i] + ([ts[i]] + ts[i + 1..]);
      CountConcat(ts[..i], [ts[i]] + ts[i + 1..], key);
      CountConcat([ts[i]], ts[i + 1..], key);
      CountConcat(ts[..i], ts[i + 1..], key);
    }
  }

  lemma DropFirstFilters(ts: seq<Taint>, dropped: string, keys: set<string>)
    requires dropped in keys
    ensures Without(DropFirst(ts, dropped), keys) == Without(ts, keys)
  {
    var i := FirstIndex(ts, dropped);
    if i >= 0 {
      assert ts == ts[..i] + ([ts[i]] + ts[i + 1..]);
      WithoutConcat(ts[..i], [ts[i]] + ts[i + 1..], keys);
      WithoutConcat([ts[i]], ts[i + 1..], keys);
      WithoutConcat(ts[..i], ts[i + 1..], keys);
    }
  }

  lemma {:induction false} DropEachCounts(ts: seq<Taint>, keys: seq<string>, key: string)
    ensures Count(DropEach(ts, keys), key)
         == if Count(ts, key) <= Occurrences(keys, key) then 0
            else Count(ts, key) - Occurrences(keys, key)
    decreases keys
  {
    if keys != [] {
      DropEachCounts(DropFirst(ts, keys[0]), keys[1..], key);
      DropFirstCounts(ts, keys[0], key);
    }
  }

  lemma {:induction false} DropEachFilters(ts: seq<Taint>, keys: seq<string>, all: set<string>)
    requires AsSet(keys) <= all
    ensures Without(DropEach(ts, keys), all) == Without(ts, all)
    decreases keys
  {
    if keys != [] {
      assert keys[0] in AsSet(keys);
      assert AsSet(keys[1..]) <= AsSet(keys);
      DropEachFilters(DropFirst(ts, keys[0]), keys[1..], all);
      DropFirstFilters(ts, keys[0], all);
    }
  }

  /** The machine-type removals are a filter exactly when no key occurs more often on the node
      than it is listed. */
  lemma DropEachIsFilter(ts: seq<Taint>, keys: seq<string>)
    ensures DropEach(ts, keys) == Without(ts, AsSet(keys)) <==>
            forall k :: k in keys ==> Count(ts, k) <= Occurrences(keys, k)
  {
    var all := AsSet(keys);
    var rest := DropEach(ts, keys);
    DropEachFilters(ts, keys, all);
    WithoutNothing(rest, all);
    forall k | k in keys
      ensures Count(ts, k) <= Occurrences(keys, k) <==> k !in KeySet(rest)
    {
      DropEachCounts(ts, keys, k);
      CountZero(rest, k);
    }
  }

  // ----- both together -----

  lemma WithoutTwice(ts: seq<Taint>, a: set<string>, b: set<string>)
    ensures Without(Without(ts, a), b) == Without(ts, a + b)
  {
    if ts != [] {
      WithoutTwice(ts[1..], a, b);
      WithoutConcat(if ts[0].key in a then [] else [ts[0]], Without(ts[1..], a), b);
    }
  }

  lemma WithoutCounts(ts: seq<Taint>, keys: set<string>, key: string)
    ensures Count(Without(ts, keys), key) == if key in keys then 0 else Count(ts, key)
  {
    if ts != [] {
      WithoutCounts(ts[1..], keys, key);
      CountConcat(if ts[0].key in keys then [] else [ts[0]], Without(ts[1..], keys), key);
    }
  }

  lemma {:induction false} SkippingCounts(ts: seq<Taint>, status: string, key: string)
    requires key != status
    ensures Count(Skipping(ts, status), key) == Count(ts, key)
  {
    if |ts| >= 2 {
      SkippingCounts(ts[1..], status, key);
      SkippingCounts(ts[2..], status, key);
      assert ts[1..][1..] == ts[2..];
    } else if |ts| == 1 {
      assert ts[1..] == [];
    }
  }

  lemma {:induction false} SkippingFilters(ts: seq<Taint>, status: string, all: set<string>)
    requires status in all
    ensures Without(Skipping(ts, status), all) == Without(ts, all)
  {
    if |ts| >= 2 {
      SkippingFilters(ts[1..], status, all);
      SkippingFilters(ts[2..], status, all);
      assert ts[1..][1..] == ts[2..];
      assert Without(ts[1..], all) == Without([ts[1]], all) + Without(ts[2..], all) by {
        assert ts[1..] == [ts[1]] + ts[2..];
        WithoutConcat([ts[1]], ts[2..], all);
      }
      if ts[0].key == status {
        WithoutConcat([ts[1]], Skipping(ts[2..], status), all);
      } else {
        WithoutConcat([ts[0]], Skipping(ts[1..], status), all);
      }
    } else if |ts| == 1 {
      assert ts[1..] == [];
    }
  }

  /** Everything managed can be taken off this taint list in one go. The key of the status may be
      among the machine-type keys, which then get a second chance at what the loop passed over. */
  predicate Removable(ts: seq<Taint>, status: string, keys: seq<string>) {
    && !Overruns(ts, status)
    && Survivors(ts, status) <= Occurrences(keys, status)
    && forall k :: k in keys && k != status ==> Count(ts, k) <= Occurrences(keys, k)
  }

  /** `removeNodeTaint` is the filter it is meant to be exactly on the removable lists. */
  lemma RemoveManagedExact(ts: seq<Taint>, status: string, keys: seq<string>)
    ensures RemoveManaged(ts, status, keys) == Some(Without(ts, {status} + AsSet(keys)))
       <==> Removable(ts, status, keys)
  {
    var all := {status} + AsSet(keys);
    var mid := Skipping(ts, status);
    var rest := DropEach(mid, keys);
    SkippingFilters(ts, status, all);
    DropEachFilters(mid, keys, all);
    WithoutNothing(rest, all);
    assert rest == Without(ts, all) <==> KeySet(rest) !! all;
    SurvivorsCounted(ts, status);
    DropEachCounts(mid, keys, status);
    CountZero(rest, status);
    forall k | k in keys && k != status
      ensures Count(ts, k) <= Occurrences(keys, k) <==> k !in KeySet(rest)
    {
      SkippingCounts(ts, status, k);
      DropEachCounts(mid, keys, k);
      CountZero(rest, k);
    }
    assert KeySet(rest) !! all <==> forall k :: k in all ==> k !in KeySet(rest);
  }

  lemma NotListed(keys: seq<string>, key: string)
    ensures key !in keys <==> Occurrences(keys, key) == 0
  {
    if keys != [] {
      NotListed(keys[1..], key);
      assert keys == [keys[0]] + keys[1..];
    }
  }

  /** The everyday sufficient condition: each managed key at most once. */
  lemma {:induction false} AtMostOnceIsRemovable(ts: seq<Taint>, status: string, keys: seq<string>)
    requires Count(ts, status) <= 1
    requires forall k :: k in keys ==> Count(ts, k) <= 1
    ensures Removable(ts, status, keys)
  {
    if Overruns(ts, status) {
      var q :| 0 <= q < |ts| - 1 && ts[q].key == status;
      CountAt(ts, q, |ts| - 1, status);
    }
    SurvivorsOfPairs(ts, status);
    if AdjacentPair(ts, status) {
      var q :| 0 <= q < |ts| - 1 && ts[q].key == status && ts[q + 1].key == status;
      CountAt(ts, q, q + 1, status);
    }
    forall k | k in keys ensures Count(ts, k) <= Occurrences(keys, k) {
      NotListed(keys, k);
    }
  }

  /** Two adjacent status taints: one survives the removal. */
  lemma AdjacentStatusSurvives(t: Taint, u: Taint, status: string)
    requires t.key == status != u.key
    ensures RemoveManaged([t, t, u], status, []) == Some([t, u])
    ensures RemoveManaged([t, t], status, []) == None
  {
    var ts := [t, t, u];
    assert ts[2..] == [u] && [u][1..] == [];
    assert ts[|ts| - 1] == u;
    assert Skipping([u], status) == [u] + Skipping([], status);
    assert Skipping(ts, status) == [t] + Skipping([u], status) == [t, u];
    assert [t, t][0].key == status;
  }
}
