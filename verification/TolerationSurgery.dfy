/** The edit the pod injector makes to toleration lists, as a function. */
module TolerationSurgery {
  import opened Objects

  predicate Matches(a: Toleration, b: Toleration) {
    a.key == b.key && a.value == b.value
  }

  /** `findToleration`, with -1 for nil. */
  function FindToleration(ts: seq<Toleration>, g: Toleration): (i: int)
    ensures -1 <= i < |ts|
    ensures i >= 0 ==> Matches(ts[i], g) && forall q :: 0 <= q < i ==> !Matches(ts[q], g)
    ensures i == -1 ==> forall q :: 0 <= q < |ts| ==> !Matches(ts[q], g)
  {
    if ts == [] then -1
    else if Matches(ts[0], g) then 0
    else
      var i := FindToleration(ts[1..], g);
      assert forall q :: 1 <= q < |ts| ==> ts[q] == ts[1..][q - 1];
      if i < 0 then -1 else i + 1
  }

  function DropToleration(ts: seq<Toleration>, g: Toleration): seq<Toleration> {
    var i := FindToleration(ts, g);
    if i < 0 then ts else ts[..i] + ts[i + 1..]
  }

  /** `injectPodToleration`. */
  function InjectTolerations(ts: seq<Toleration>, generated: seq<Toleration>): seq<Toleration>
    decreases generated
  {
    if generated == [] then ts
    else InjectTolerations(DropToleration(ts, generated[0]) + [generated[0]], generated[1..])
  }

  function DropTolerations(ts: seq<Toleration>, generated: seq<Toleration>): seq<Toleration>
    decreases generated
  {
    if generated == [] then ts else DropTolerations(DropToleration(ts, generated[0]), generated[1..])
  }

  predicate MatchesAny(t: Toleration, generated: seq<Toleration>) {
    exists j :: 0 <= j < |generated| && Matches(t, generated[j])
  }

  function Others(ts: seq<Toleration>, generated: seq<Toleration>): seq<Toleration> {
    if ts == [] then []
    else (if MatchesAny(ts[0], generated) then [] else [ts[0]]) + Others(ts[1..], generated)
  }

  function MatchCount(ts: seq<Toleration>, g: Toleration): nat {
    if ts == [] then 0 else (if Matches(ts[0], g) then 1 else 0) + MatchCount(ts[1..], g)
  }

  ghost predicate Unmatching(generated: seq<Toleration>) {
    forall i, j :: 0 <= i < j < |generated| ==> !Matches(generated[i], generated[j])
  }

  lemma DropBehind(ts: seq<Toleration>, tail: seq<Toleration>, g: Toleration)
    requires forall q :: 0 <= q < |tail| ==> !Matches(tail[q], g)
    ensures DropToleration(ts + tail, g) == DropToleration(ts, g) + tail
  {
    var i := FindToleration(ts, g);
    var j := FindToleration(ts + tail, g);
    if i >= 0 {
      assert (ts + tail)[i] == ts[i];
      assert j == i;
      assert (ts + tail)[..i] == ts[..i] && (ts + tail)[i + 1..] == ts[i + 1..] + tail;
    }
  }

  lemma PlacedStaysClear(placed: seq<Toleration>, generated: seq<Toleration>)
    requires generated != [] && Unmatching(generated)
    requires forall q :: 0 <= q < |placed| ==> !MatchesAny(placed[q], generated)
    ensures var more := placed + [generated[0]];
      forall q :: 0 <= q < |more| ==> !MatchesAny(more[q], generated[1..])
    ensures forall q :: 0 <= q < |placed| ==> !Matches(placed[q], generated[0])
  {
    var more := placed + [generated[0]];
    forall q | 0 <= q < |more| ensures !MatchesAny(more[q], generated[1..]) {
      assert forall j :: 0 <= j < |generated[1..]| ==> generated[1..][j] == generated[j + 1];
    }
  }

  /** Injection in closed form: the first match of each generated toleration goes, and all of them
      are appended in order. */
  lemma {:induction false} InjectIs(ts: seq<Toleration>, placed: seq<Toleration>, generated: seq<Toleration>)
    requires Unmatching(generated)
    requires forall q :: 0 <= q < |placed| ==> !MatchesAny(placed[q], generated)
    ensures InjectTolerations(ts + placed, generated) == DropTolerations(ts, generated) + (placed + generated)
    decreases generated
  {
    if generated == [] {
      assert placed + [] == placed;
    } else {
      var g, rest := generated[0], generated[1..];
      var left, more := DropToleration(ts, g), placed + [g];
      PlacedStaysClear(placed, generated);
      DropBehind(ts, placed, g);
      Regrouped(left, placed, generated);
      calc {
        InjectTolerations(ts + placed, generated);
        { InjectOne(ts + placed, generated); }
        InjectTolerations(left + more, rest);
        { InjectIs(left, more, rest); }
        DropTolerations(left, rest) + (more + rest);
        DropTolerations(ts, generated) + (placed + generated);
      }
    }
  }

  lemma InjectOne(ts: seq<Toleration>, generated: seq<Toleration>)
    requires generated != []
    ensures InjectTolerations(ts, generated)
         == InjectTolerations(DropToleration(ts, generated[0]) + [generated[0]], generated[1..])
  {
  }

  lemma Regrouped(ts: seq<Toleration>, placed: seq<Toleration>, generated: seq<Toleration>)
    requires generated != []
    ensures (ts + placed) + [generated[0]] == ts + (placed + [generated[0]])
    ensures (placed + [generated[0]]) + generated[1..] == placed + generated
  {
  }

  lemma InjectFromNone(ts: seq<Toleration>, generated: seq<Toleration>)
    requires Unmatching(generated)
    ensures InjectTolerations(ts, generated) == DropTolerations(ts, generated) + generated
  {
    InjectIs(ts, [], generated);
    assert ts + [] == ts && [] + generated == generated;
  }

  lemma OthersConcat(a: seq<Toleration>, b: seq<Toleration>, generated: seq<Toleration>)
    ensures Others(a + b, generated) == Others(a, generated) + Others(b, generated)
  {
    if a == [] {
      assert a + b == b;
    } else {
      assert (a + b)[1..] == a[1..] + b;
      OthersConcat(a[1..], b, generated);
    }
  }

  lemma MatchCountConcat(a: seq<Toleration>, b: seq<Toleration>, g: Toleration)
    ensures MatchCount(a + b, g) == MatchCount(a, g) + MatchCount(b, g)
  {
    if a == [] {
      assert a + b == b;
    } else {
      assert (a + b)[1..] == a[1..] + b;
      MatchCountConcat(a[1..], b, g);
    }
  }

  lemma DropEffect(ts: seq<Toleration>, g: Toleration, other: Toleration, all: seq<Toleration>)
    requires MatchesAny(g, all)
    ensures MatchCount(DropToleration(ts, g), other)
         == if Matches(g, other) && MatchCount(ts, other) > 0 then MatchCount(ts, other) - 1 else MatchCount(ts, other)
    ensures Others(DropToleration(ts, g), all) == Others(ts, all)
  {
    var i := FindToleration(ts, g);
    if i >= 0 {
      assert ts == ts[..i] + ([ts[i]] + ts[i + 1..]);
      MatchCountConcat(ts[..i], [ts[i]] + ts[i + 1..], other);
      MatchCountConcat([ts[i]], ts[i + 1..], other);
      MatchCountConcat(ts[..i], ts[i + 1..], other);
      OthersConcat(ts[..i], [ts[i]] + ts[i + 1..], all);
      OthersConcat([ts[i]], ts[i + 1..], all);
      OthersConcat(ts[..i], ts[i + 1..], all);
      var j :| 0 <= j < |all| && Matches(g, all[j]);
      assert Matches(ts[i], all[j]);
    } else {
      NoMatches(ts, g);
    }
  }

  lemma NoMatches(ts: seq<Toleration>, g: Toleration)
    ensures MatchCount(ts, g) == 0 <==> forall q :: 0 <= q < |ts| ==> !Matches(ts[q], g)
    ensures forall h :: Matches(g, h) ==> MatchCount(ts, h) == MatchCount(ts, g)
  {
    if ts != [] {
      NoMatches(ts[1..], g);
      assert forall q :: 1 <= q < |ts| ==> ts[q] == ts[1..][q - 1];
      assert forall q :: 0 <= q < |ts| - 1 ==> ts[1..][q] == ts[q + 1];
    }
  }

  lemma {:induction false} DropsFilter(ts: seq<Toleration>, generated: seq<Toleration>, all: seq<Toleration>)
    requires forall j :: 0 <= j < |generated| ==> MatchesAny(generated[j], all)
    ensures Others(DropTolerations(ts, generated), all) == Others(ts, all)
    decreases generated
  {
    if generated != [] {
      DropEffect(ts, generated[0], generated[0], all);
      DropsFilter(DropToleration(ts, generated[0]), generated[1..], all);
    }
  }

  lemma {:induction false} DropsCount(ts: seq<Toleration>, generated: seq<Toleration>, g: Toleration)
    requires Unmatching(generated)
    ensures MatchCount(DropTolerations(ts, generated), g)
         == if MatchesAny(g, generated) && MatchCount(ts, g) > 0 then MatchCount(ts, g) - 1 else MatchCount(ts, g)
    decreases generated
  {
    if generated != [] {
      var h, rest := generated[0], generated[1..];
      assert MatchesAny(h, [h]) by {
        assert Matches(h, [h][0]);
      }
      DropEffect(ts, h, g, [h]);
      DropsCount(DropToleration(ts, h), rest, g);
      if Matches(g, h) {
        forall j | 0 <= j < |rest| ensures !Matches(g, rest[j]) {
          assert rest[j] == generated[j + 1];
        }
        assert Matches(g, generated[0]);
      } else if MatchesAny(g, generated) {
        var j :| 0 <= j < |generated| && Matches(g, generated[j]);
        assert rest[j - 1] == generated[j];
      } else {
        assert forall j :: 0 <= j < |rest| ==> rest[j] == generated[j + 1];
      }
    }
  }

  lemma OthersAll(ts: seq<Toleration>, all: seq<Toleration>)
    ensures Others(ts, all) == ts <==> forall j :: 0 <= j < |all| ==> MatchCount(ts, all[j]) == 0
    ensures |Others(ts, all)| <= |ts|
  {
    if ts != [] {
      OthersAll(ts[1..], all);
      assert ts == [ts[0]] + ts[1..];
    }
  }

  /** Injection leaves the foreign tolerations in order followed by the generated ones if and only if
      none of the generated ones was there more than once. */
  lemma InjectExact(ts: seq<Toleration>, generated: seq<Toleration>)
    requires Unmatching(generated)
    ensures InjectTolerations(ts, generated) == Others(ts, generated) + generated <==>
      forall j :: 0 <= j < |generated| ==> MatchCount(ts, generated[j]) <= 1
  {
    var rest, others := DropTolerations(ts, generated), Others(ts, generated);
    InjectFromNone(ts, generated);
    forall j | 0 <= j < |generated| ensures MatchesAny(generated[j], generated) {
      assert Matches(generated[j], generated[j]);
    }
    DropsFilter(ts, generated, generated);
    forall j | 0 <= j < |generated|
      ensures MatchCount(rest, generated[j]) == 0 <==> MatchCount(ts, generated[j]) <= 1
    {
      DropsCount(ts, generated, generated[j]);
    }
    OthersAll(rest, generated);
    SameTail(rest, others, generated);
  }

  lemma SameTail(a: seq<Toleration>, b: seq<Toleration>, tail: seq<Toleration>)
    ensures a + tail == b + tail <==> a == b
  {
    if a + tail == b + tail {
      assert |a| == |b|;
      assert (a + tail)[..|a|] == a && (b + tail)[..|a|] == b;
    }
  }

  lemma {:induction false} DropsOwn(others: seq<Toleration>, generated: seq<Toleration>)
    requires Unmatching(generated)
    requires forall q :: 0 <= q < |others| ==> !MatchesAny(others[q], generated)
    ensures DropTolerations(others + generated, generated) == others
    decreases generated
  {
    var ts := others + generated;
    if generated == [] {
      assert ts == others;
    } else {
      var g, rest := generated[0], generated[1..];
      forall q | 0 <= q < |others| ensures !Matches(ts[q], g) && !MatchesAny(others[q], rest) {
        assert forall j :: 0 <= j < |rest| ==> rest[j] == generated[j + 1];
      }
      assert ts[|others|] == g;
      assert FindToleration(ts, g) == |others|;
      assert ts[..|others|] == others && ts[|others| + 1..] == rest;
      DropsOwn(others, rest);
    }
  }

  lemma OthersAreForeign(ts: seq<Toleration>, generated: seq<Toleration>)
    ensures forall q :: 0 <= q < |Others(ts, generated)| ==> !MatchesAny(Others(ts, generated)[q], generated)
  {
  }

  /** Where it is exact, a second injection changes nothing. */
  lemma InjectIdempotent(ts: seq<Toleration>, generated: seq<Toleration>)
    requires Unmatching(generated)
    requires forall j :: 0 <= j < |generated| ==> MatchCount(ts, generated[j]) <= 1
    ensures var once := InjectTolerations(ts, generated);
      InjectTolerations(once, generated) == once
  {
    var others := Others(ts, generated);
    InjectExact(ts, generated);
    OthersAreForeign(ts, generated);
    DropsOwn(others, generated);
    InjectFromNone(others + generated, generated);
  }

  /** How many generated tolerations were there already. */
  function Present(ts: seq<Toleration>, generated: seq<Toleration>): nat {
    if generated == [] then 0
    else (if MatchCount(ts, generated[0]) > 0 then 1 else 0) + Present(ts, generated[1..])
  }

  lemma PresentAfterDrop(ts: seq<Toleration>, g: Toleration, rest: seq<Toleration>)
    requires forall j :: 0 <= j < |rest| ==> !Matches(g, rest[j])
    ensures Present(DropToleration(ts, g), rest) == Present(ts, rest)
  {
    if rest != [] {
      assert forall j :: 0 <= j < |rest[1..]| ==> rest[1..][j] == rest[j + 1];
      PresentAfterDrop(ts, g, rest[1..]);
      assert MatchesAny(g, [g]) by {
        assert Matches(g, [g][0]);
      }
      DropEffect(ts, g, rest[0], [g]);
    }
  }

  lemma {:induction false} DropsLength(ts: seq<Toleration>, generated: seq<Toleration>)
    requires Unmatching(generated)
    ensures |DropTolerations(ts, generated)| + Present(ts, generated) == |ts|
    decreases generated
  {
    if generated != [] {
      var g, rest := generated[0], generated[1..];
      assert forall j :: 0 <= j < |rest| ==> rest[j] == generated[j + 1];
      DropsLength(DropToleration(ts, g), rest);
      PresentAfterDrop(ts, g, rest);
      NoMatches(ts, g);
    }
  }

  /** The list grows by the generated tolerations that were not there yet, always. */
  lemma InjectLength(ts: seq<Toleration>, generated: seq<Toleration>)
    requires Unmatching(generated)
    ensures |InjectTolerations(ts, generated)| == |ts| + |generated| - Present(ts, generated)
  {
    InjectFromNone(ts, generated);
    DropsLength(ts, generated);
  }

  lemma {:induction false} FewMatches(ts: seq<Toleration>, g: Toleration)
    requires forall q, r :: 0 <= q < r < |ts| && Matches(ts[q], g) ==> !Matches(ts[r], g)
    ensures MatchCount(ts, g) <= 1
  {
    if ts != [] {
      var rest := ts[1..];
      forall q, r | 0 <= q < r < |rest| && Matches(rest[q], g) ensures !Matches(rest[r], g) {
        assert Matches(ts[q + 1], g) && rest[r] == ts[r + 1];
      }
      FewMatches(rest, g);
      NoMatches(rest, g);
      assert forall q :: 0 <= q < |rest| ==> rest[q] == ts[q + 1];
    }
  }

  lemma OthersAre(ts: seq<Toleration>, generated: seq<Toleration>)
    ensures forall t :: t in Others(ts, generated) <==> t in ts && !MatchesAny(t, generated)
  {
    if ts != [] {
      OthersAre(ts[1..], generated);
      assert forall t :: t in ts <==> t == ts[0] || t in ts[1..];
    }
  }

  /** The generated tolerations differ in key or value. */
  predicate AllDiffer(generated: seq<Toleration>) {
    forall i, j :: 0 <= i < j < |generated| ==>
      generated[i].key != generated[j].key || generated[i].value != generated[j].value
  }

  /** Own tolerations: one that differs from every generated one in key or value survives any injection,
      and nothing comes in but the generated ones. */
  lemma OwnTolerationKept(ts: seq<Toleration>, generated: seq<Toleration>, t: Toleration)
    requires AllDiffer(generated)
    ensures t in ts && (forall g :: g in generated ==> t.key != g.key || t.value != g.value) ==>
      t in InjectTolerations(ts, generated)
    ensures t in InjectTolerations(ts, generated) ==> t in ts || t in generated
    ensures forall g :: g in generated ==> g in InjectTolerations(ts, generated)
  {
    var left := DropTolerations(ts, generated);
    InjectFromNone(ts, generated);
    forall j | 0 <= j < |generated| ensures MatchesAny(generated[j], generated) {
      assert Matches(generated[j], generated[j]);
    }
    DropsFilter(ts, generated, generated);
    OthersAre(ts, generated);
    OthersAre(left, generated);
    DropsOnly(ts, generated);
  }

  /** Where the pod has at most one toleration with the key and value of a generated one, that one is
      replaced, whatever operator and effect it asks for. */
  lemma OwnTolerationReplaced(ts: seq<Toleration>, generated: seq<Toleration>, t: Toleration)
    requires AllDiffer(generated)
    requires forall q, r, g :: 0 <= q < r < |ts| && g in generated && ts[q].key == g.key && ts[q].value == g.value ==>
      ts[r].key != g.key || ts[r].value != g.value
    ensures t in InjectTolerations(ts, generated) <==>
      t in generated || (t in ts && forall g :: g in generated ==> t.key != g.key || t.value != g.value)
  {
    forall j | 0 <= j < |generated| ensures MatchCount(ts, generated[j]) <= 1 {
      FewMatches(ts, generated[j]);
    }
    InjectExact(ts, generated);
    OthersAre(ts, generated);
    forall g | g in generated && t.key == g.key && t.value == g.value ensures MatchesAny(t, generated) {
      var j :| 0 <= j < |generated| && generated[j] == g;
      assert Matches(t, generated[j]);
    }
  }

  lemma {:induction false} DropsOnly(ts: seq<Toleration>, generated: seq<Toleration>)
    ensures forall t :: t in DropTolerations(ts, generated) ==> t in ts
    decreases generated
  {
    if generated != [] {
      DropsOnly(DropToleration(ts, generated[0]), generated[1..]);
    }
  }
}
