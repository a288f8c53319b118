/** The edit the pod injector makes to selector terms, as a function. */
module TermSurgery {
  import opened Objects
  import GoSlices

  /** The key-value map of the injected requirements; the last one of a key wins. */
  function InjectedKeys(exprs: Term): Labels
    requires Valued(exprs)
  {
    if exprs == [] then map[]
    else
      var last := exprs[|exprs| - 1];
      InjectedKeys(exprs[..|exprs| - 1])[last.key := last.values[0]]
  }

  /** The last requirement of a key gives its value, and only keys of requirements have one. */
  lemma {:induction false} InjectedKeysAre(exprs: Term, i: nat)
    requires Valued(exprs) && i < |exprs| && forall j :: i < j < |exprs| ==> exprs[j].key != exprs[i].key
    ensures exprs[i].key in InjectedKeys(exprs) && InjectedKeys(exprs)[exprs[i].key] == exprs[i].values[0]
    decreases |exprs|
  {
    if i < |exprs| - 1 {
      InjectedKeysAre(exprs[..|exprs| - 1], i);
    }
  }

  lemma {:induction false} InjectedKeysOnly(exprs: Term, key: string)
    requires Valued(exprs) && forall i :: 0 <= i < |exprs| ==> exprs[i].key != key
    ensures key !in InjectedKeys(exprs)
    decreases |exprs|
  {
    if exprs != [] {
      InjectedKeysOnly(exprs[..|exprs| - 1], key);
    }
  }

  /** What the code takes for a duplicate: an absent key reads as the empty string. */
  predicate Duplicate(injected: Labels, e: Requirement) {
    e.values != [] && Lookup(injected, e.key) == e.values[0]
  }

  predicate Valued(term: Term) {
    forall i :: 0 <= i < |term| ==> term[i].values != []
  }

  /** The removal loop on one term, step by step. The range goes on over the array it started
      with, every removal recomputes the term from the full length, and None is the panic on an
      expression without values. */
  function SurgeryRun(b: Term, i: nat, hit: bool, injected: Labels): Option<Term>
    requires i <= |b| && (hit ==> |b| > 0)
    decreases |b| - i
  {
    if i == |b| then Some(if hit then b[..|b| - 1] else b)
    else if b[i].values == [] then None
    else if !Duplicate(injected, b[i]) then SurgeryRun(b, i + 1, hit, injected)
    else if i == |b| - 1 then SurgeryRun(b, i + 1, true, injected)
    else SurgeryRun(GoSlices.Shifted(b, i, |b|), i + 1, true, injected)
  }

  function StripTerm(term: Term, injected: Labels): Option<Term> {
    SurgeryRun(term, 0, false, injected)
  }

  /** The expressions that are no duplicates, in order. */
  function Kept(term: Term, injected: Labels): Term {
    if term == [] then []
    else (if Duplicate(injected, term[0]) then [] else [term[0]]) + Kept(term[1..], injected)
  }

  function Duplicates(term: Term, injected: Labels): nat {
    if term == [] then 0
    else (if Duplicate(injected, term[0]) then 1 else 0) + Duplicates(term[1..], injected)
  }

  // ----- when it panics -----

  /** A removal makes the range pass over the next expression, which then removes nothing. */
  predicate Skipped(term: Term, k: nat, injected: Labels)
    requires k <= |term|
    decreases k
  {
    k > 0 && Duplicate(injected, term[k - 1]) && !Skipped(term, k - 1, injected)
  }

  /** Expression `k` has no values, and the range meets it. It always meets the last one, of which
      removals leave copies behind the term. */
  predicate Trips(term: Term, k: nat, injected: Labels)
    requires k < |term|
  {
    term[k].values == [] && (k == |term| - 1 || !Skipped(term, k, injected))
  }

  predicate Panics(term: Term, injected: Labels) {
    exists k :: 0 <= k < |term| && Trips(term, k, injected)
  }

  /** The same, from the front. */
  predicate TripsAhead(term: Term, injected: Labels) {
    if term == [] then false
    else if term[0].values == [] then true
    else if !Duplicate(injected, term[0]) then TripsAhead(term[1..], injected)
    else if |term| <= 2 then |term| == 2 && term[1].values == []
    else TripsAhead(term[2..], injected)
  }

  lemma ShiftedAhead(b: Term, i: nat, m: nat)
    requires i < m - 1 < |b| && forall x :: m <= x < |b| ==> b[x] == b[m - 1]
    ensures var c := GoSlices.Shifted(b, i, |b|);
      && |c| == |b|
      && c[m - 2] == b[m - 1]
      && (forall x :: m - 1 <= x < |b| ==> c[x] == b[m - 1])
      && c[i + 1..m - 1] == b[i..m][2..]
  {
    var c := GoSlices.Shifted(b, i, |b|);
    assert forall x :: i <= x < |b| - 1 ==> c[x] == b[x + 1];
    assert c[|b| - 1] == b[|b| - 1];
    assert b[i..m][2..] == b[i + 2..m];
  }

  /** From `m - 1` on lie copies of the last expression. */
  lemma {:induction false} RunOverCopies(b: Term, i: nat, m: nat, hit: bool, injected: Labels)
    requires 0 < m <= i + 1 && m <= |b| && i <= |b|
    requires forall x :: m <= x < |b| ==> b[x] == b[m - 1]
    ensures SurgeryRun(b, i, hit, injected) == None <==> i < |b| && b[m - 1].values == []
    decreases |b| - i
  {
    if i < |b| && b[i].values != [] {
      RunOverCopies(b, i + 1, m, hit || Duplicate(injected, b[i]), injected);
      assert i < |b| - 1 ==> GoSlices.Shifted(b, i, |b|) == b;
    }
  }

  /** In front of `m` lies what is left of the term, behind it copies of the last expression. */
  lemma {:induction false} RunTrips(b: Term, i: nat, m: nat, hit: bool, injected: Labels)
    requires i < m <= |b|
    requires forall x :: m <= x < |b| ==> b[x] == b[m - 1]
    ensures SurgeryRun(b, i, hit, injected) == None <==> TripsAhead(b[i..m], injected)
    decreases |b| - i
  {
    assert b[i..m][0] == b[i] && b[i..m][1..] == b[i + 1..m];
    if b[i].values != [] {
      if i == m - 1 {
        RunOverCopies(b, i, m, hit, injected);
      } else if !Duplicate(injected, b[i]) {
        RunTrips(b, i + 1, m, hit, injected);
      } else {
        var c := GoSlices.Shifted(b, i, |b|);
        ShiftedAhead(b, i, m);
        if i == m - 2 {
          RunOverCopies(c, i + 1, m - 1, true, injected);
        } else {
          RunTrips(c, i + 1, m - 1, true, injected);
        }
      }
    }
  }

  lemma {:induction false} SkippedBehind(term: Term, n: nat, k: nat, injected: Labels)
    requires n <= k <= |term| && !Skipped(term, n, injected)
    ensures Skipped(term, k, injected) == Skipped(term[n..], k - n, injected)
    decreases k
  {
    if n < k {
      SkippedBehind(term, n, k - 1, injected);
      assert term[n..][k - n - 1] == term[k - 1];
    }
  }

  lemma {:induction false} TripsAheadIs(term: Term, injected: Labels)
    ensures TripsAhead(term, injected) <==> Panics(term, injected)
  {
    if term != [] {
      if term[0].values == [] {
        assert Trips(term, 0, injected);
      } else if Duplicate(injected, term[0]) && |term| == 2 {
        assert Trips(term, 1, injected) <==> term[1].values == [];
      } else {
        var n := if Duplicate(injected, term[0]) && |term| > 2 then 2 else 1;
        assert !Skipped(term, 0, injected);
        if Duplicate(injected, term[0]) && n == 1 {
          assert |term| == 1;
        } else {
          TripsAheadIs(term[n..], injected);
          PanicsBehind(term, n, injected);
        }
      }
    }
  }

  /** Nothing trips in front of `n`. */
  lemma PanicsBehind(term: Term, n: nat, injected: Labels)
    requires n <= |term| && !Skipped(term, n, injected)
    requires forall k :: 0 <= k < n ==> !Trips(term, k, injected)
    ensures Panics(term, injected) <==> Panics(term[n..], injected)
  {
    forall k | n <= k < |term| ensures Trips(term, k, injected) == Trips(term[n..], k - n, injected) {
      SkippedBehind(term, n, k, injected);
      assert term[n..][k - n] == term[k];
    }
    if k :| 0 <= k < |term[n..]| && Trips(term[n..], k, injected) {
      assert Trips(term, k + n, injected);
    }
  }

  /** The surgery panics exactly if the range meets an expression without values, such as `Exists`. */
  lemma StripPanics(term: Term, injected: Labels)
    ensures StripTerm(term, injected) == None <==> Panics(term, injected)
  {
    if term != [] {
      RunTrips(term, 0, |term|, false, injected);
      assert term[0..|term|] == term;
      TripsAheadIs(term, injected);
    }
  }

  /** Without a duplicate it panics at any expression without values; a single one, at `d`, hides the
      expression right behind it, unless that is the last. */
  lemma PanicsOfFew(term: Term, d: nat, injected: Labels)
    requires forall k :: 0 <= k < |term| && k != d ==> !Duplicate(injected, term[k])
    ensures d >= |term| || !Duplicate(injected, term[d]) ==>
      (StripTerm(term, injected) == None <==> !Valued(term))
    ensures d < |term| && Duplicate(injected, term[d]) ==>
      (StripTerm(term, injected) == None <==>
        exists k :: 0 <= k < |term| && term[k].values == [] && !(k == d + 1 && k < |term| - 1))
  {
    StripPanics(term, injected);
    forall k | 0 <= k < |term|
      ensures Skipped(term, k, injected) <==> k == d + 1 && Duplicate(injected, term[d])
    {
      if k >= 2 && k == d + 1 {
        assert !Duplicate(injected, term[d - 1]);
      }
    }
    if k :| 0 <= k < |term| && term[k].values == [] && !(k == d + 1 && k < |term| - 1) {
      assert Trips(term, k, injected);
    }
    if d >= |term| || !Duplicate(injected, term[d]) {
      forall k | 0 <= k < |term| ensures Trips(term, k, injected) <==> term[k].values == [] {
      }
    }
  }

  // ----- what it takes off -----

  lemma KeptLength(term: Term, injected: Labels)
    ensures |Kept(term, injected)| + Duplicates(term, injected) == |term|
    ensures Duplicates(term, injected) == 0 ==> Kept(term, injected) == term
  {
    if term != [] {
      KeptLength(term[1..], injected);
    }
  }

  lemma {:induction false} RunLength(b: Term, i: nat, hit: bool, injected: Labels)
    requires i <= |b| && (hit ==> |b| > 0) && SurgeryRun(b, i, hit, injected).Some?
    ensures |SurgeryRun(b, i, hit, injected).value|
         == if hit || Duplicates(b[i..], injected) > 0 then |b| - 1 else |b|
    decreases |b| - i
  {
    if i < |b| {
      assert b[i..][0] == b[i] && b[i..][1..] == b[i + 1..];
      if !Duplicate(injected, b[i]) {
        RunLength(b, i + 1, hit, injected);
      } else if i == |b| - 1 {
        RunLength(b, i + 1, true, injected);
      } else {
        RunLength(GoSlices.Shifted(b, i, |b|), i + 1, true, injected);
      }
    }
  }

  /** With no duplicate ahead the rest of the run changes nothing. */
  lemma {:induction false} RunIdles(b: Term, i: nat, hit: bool, injected: Labels)
    requires i <= |b| && (hit ==> |b| > 0) && SurgeryRun(b, i, hit, injected).Some?
    requires forall x :: i <= x < |b| ==> !Duplicate(injected, b[x])
    ensures SurgeryRun(b, i, hit, injected) == Some(if hit then b[..|b| - 1] else b)
    decreases |b| - i
  {
    if i < |b| {
      RunIdles(b, i + 1, hit, injected);
    }
  }

  lemma NoneAhead(term: Term, injected: Labels)
    ensures Duplicates(term, injected) == 0 <==> forall x :: 0 <= x < |term| ==> !Duplicate(injected, term[x])
  {
    if term != [] {
      NoneAhead(term[1..], injected);
      assert forall x :: 1 <= x < |term| ==> term[x] == term[1..][x - 1];
      assert forall x :: 0 <= x < |term| - 1 ==> term[1..][x] == term[x + 1];
    }
  }

  /** A single duplicate, at `i`. */
  lemma RunRemovesLast(b: Term, i: nat, injected: Labels)
    requires i < |b| && Duplicate(injected, b[i]) && SurgeryRun(b, i, false, injected).Some?
    requires forall x :: i < x < |b| ==> !Duplicate(injected, b[x])
    ensures SurgeryRun(b, i, false, injected) == Some(b[..i] + b[i + 1..])
  {
    if i == |b| - 1 {
      assert SurgeryRun(b, i + 1, true, injected) == Some(b[..|b| - 1]);
      assert b[..|b| - 1] == b[..i] + b[i + 1..];
    } else {
      var c := GoSlices.Shifted(b, i, |b|);
      assert forall x :: i < x < |b| - 1 ==> c[x] == b[x + 1];
      RunIdles(c, i + 1, true, injected);
      assert c[..|b| - 1] == b[..i] + b[i + 1..];
    }
  }

  lemma {:induction false} RunRemovesOne(b: Term, i: nat, injected: Labels)
    requires i <= |b| && Duplicates(b[i..], injected) <= 1 && SurgeryRun(b, i, false, injected).Some?
    ensures SurgeryRun(b, i, false, injected) == Some(b[..i] + Kept(b[i..], injected))
    decreases |b| - i
  {
    if i < |b| {
      var rest := b[i + 1..];
      assert b[i..][0] == b[i] && b[i..][1..] == rest;
      if !Duplicate(injected, b[i]) {
        RunRemovesOne(b, i + 1, injected);
        assert b[..i + 1] + Kept(rest, injected) == b[..i] + ([b[i]] + Kept(rest, injected));
      } else {
        KeptLength(rest, injected);
        NoneAhead(rest, injected);
        assert forall x :: i < x < |b| ==> b[x] == rest[x - i - 1];
        RunRemovesLast(b, i, injected);
        assert [] + rest == rest;
      }
    } else {
      assert b[..i] + [] == b;
    }
  }

  /** The surgery takes off exactly the duplicates, order kept, if and only if it does not panic and
      there is at most one of them in the term. */
  lemma StripTermExact(term: Term, injected: Labels)
    ensures StripTerm(term, injected) == Some(Kept(term, injected)) <==>
      !Panics(term, injected) && Duplicates(term, injected) <= 1
  {
    assert term[0..] == term;
    KeptLength(term, injected);
    StripPanics(term, injected);
    if !Panics(term, injected) {
      RunLength(term, 0, false, injected);
      if Duplicates(term, injected) <= 1 {
        RunRemovesOne(term, 0, injected);
        assert term[..0] + Kept(term, injected) == Kept(term, injected);
      }
    }
  }

  /** The loop drops duplicates only: behind a removal lies another copy of the last expression. */
  lemma {:induction false} RunKeeps(b: Term, i: nat, hit: bool, injected: Labels, e: Requirement)
    requires i <= |b| && (hit ==> |b| > 0) && SurgeryRun(b, i, hit, injected).Some?
    requires e in b && !Duplicate(injected, e)
    requires hit ==> Duplicate(injected, b[|b| - 1]) || b[|b| - 1] in b[..|b| - 1]
    ensures e in SurgeryRun(b, i, hit, injected).value
    decreases |b| - i
  {
    var n := |b|;
    if i == n {
      assert hit ==> b == b[..n - 1] + [b[n - 1]];
    } else if !Duplicate(injected, b[i]) {
      RunKeeps(b, i + 1, hit, injected, e);
    } else if i == n - 1 {
      RunKeeps(b, i + 1, true, injected, e);
    } else {
      var c := GoSlices.Shifted(b, i, n);
      assert b == b[..i] + [b[i]] + b[i + 1..n];
      assert c[..n - 1] == b[..i] + b[i + 1..n];
      assert c[n - 1] == b[n - 1] == c[..n - 1][n - 2];
      RunKeeps(c, i + 1, true, injected, e);
    }
  }

  lemma {:induction false} RunAddsNothing(b: Term, i: nat, hit: bool, injected: Labels)
    requires i <= |b| && (hit ==> |b| > 0) && SurgeryRun(b, i, hit, injected).Some?
    ensures forall e :: e in SurgeryRun(b, i, hit, injected).value ==> e in b
    decreases |b| - i
  {
    if i < |b| {
      if !Duplicate(injected, b[i]) || i == |b| - 1 {
        RunAddsNothing(b, i + 1, hit || Duplicate(injected, b[i]), injected);
      } else {
        RunAddsNothing(GoSlices.Shifted(b, i, |b|), i + 1, true, injected);
      }
    }
  }

  /** Whatever the duplicates: a requirement whose first value differs from the one injected for its key
      is still there, and nothing that was not there before. An absent key reads as the empty value. */
  lemma OwnRequirementKept(term: Term, injected: Labels, e: Requirement)
    requires StripTerm(term, injected).Some?
    ensures e in term && (e.values == [] || e.values[0] != if e.key in injected then injected[e.key] else "") ==>
      e in StripTerm(term, injected).value
    ensures e in StripTerm(term, injected).value ==> e in term
  {
    RunAddsNothing(term, 0, false, injected);
    if e in term && !Duplicate(injected, e) {
      RunKeeps(term, 0, false, injected, e);
    }
  }

  // ----- the list of terms -----

  /** Every term stripped; None if any of them panics. */
  function StripTerms(terms: seq<Term>, injected: Labels): Option<seq<Term>> {
    if terms == [] then Some([])
    else
      match StripTerm(terms[0], injected)
      case None => None
      case Some(first) =>
        match StripTerms(terms[1..], injected)
        case None => None
        case Some(rest) => Some([first] + rest)
  }

  /** Each term without its duplicates. */
  function KeptEach(terms: seq<Term>, injected: Labels): seq<Term> {
    if terms == [] then [] else [Kept(terms[0], injected)] + KeptEach(terms[1..], injected)
  }

  /** A list of terms panics exactly if one of them does, and every term is filtered and no term lost
      exactly if none does and none has more than one duplicate. */
  lemma {:induction false} StripTermsEach(terms: seq<Term>, injected: Labels)
    ensures StripTerms(terms, injected) == None <==>
      exists i :: 0 <= i < |terms| && Panics(terms[i], injected)
    ensures StripTerms(terms, injected) == Some(KeptEach(terms, injected)) <==>
      forall i :: 0 <= i < |terms| ==> !Panics(terms[i], injected) && Duplicates(terms[i], injected) <= 1
  {
    if terms != [] {
      var rest := terms[1..];
      StripTermsEach(rest, injected);
      StripPanics(terms[0], injected);
      StripTermExact(terms[0], injected);
      assert forall i :: 1 <= i < |terms| ==> terms[i] == rest[i - 1];
      assert forall i :: 0 <= i < |rest| ==> rest[i] == terms[i + 1];
      if StripTerms(terms, injected).Some? {
        var first, others := StripTerm(terms[0], injected).value, StripTerms(rest, injected).value;
        assert ([first] + others)[0] == first && ([first] + others)[1..] == others;
        var kept := KeptEach(rest, injected);
        assert ([Kept(terms[0], injected)] + kept)[0] == Kept(terms[0], injected);
        assert ([Kept(terms[0], injected)] + kept)[1..] == kept;
      }
    }
  }
}
