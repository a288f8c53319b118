/** The Kubernetes scheduler's reading of node selectors, taints and tolerations. */
module Scheduling {
  import opened Objects
  import opened NodeMarking

  predicate MatchesRequirement(labels: Labels, r: Requirement) {
    match r.operator
    case In => r.key in labels && labels[r.key] in r.values
    case NotIn => r.key !in labels || labels[r.key] !in r.values
    case HasKey => r.key in labels
    case LacksKey => r.key !in labels
  }

  /** Expressions are conjoined; a term without any matches nothing. */
  predicate MatchesTerm(labels: Labels, term: Term) {
    term != [] && forall i :: 0 <= i < |term| ==> MatchesRequirement(labels, term[i])
  }

  /** Terms are alternatives. */
  predicate MatchesTerms(labels: Labels, terms: seq<Term>) {
    exists i :: 0 <= i < |terms| && MatchesTerm(labels, terms[i])
  }

  predicate Tolerates(toleration: Toleration, taint: Taint) {
    && (toleration.effect.Some? ==> toleration.effect.value == taint.effect)
    && (toleration.key != "" ==> toleration.key == taint.key)
    && (toleration.operator == Equal ==> toleration.value == taint.value)
  }

  predicate Tolerated(taint: Taint, tolerations: seq<Toleration>) {
    exists i :: 0 <= i < |tolerations| && Tolerates(tolerations[i], taint)
  }

  /** The scheduler may place a pod here, going by selector and taints. */
  predicate Feasible(node: Node, terms: seq<Term>, tolerations: seq<Toleration>) {
    && MatchesTerms(node.labels, terms)
    && forall i :: 0 <= i < |node.taints| && node.taints[i].effect != PreferNoSchedule ==>
      Tolerated(node.taints[i], tolerations)
  }

  lemma AppendedTerm(labels: Labels, terms: seq<Term>, term: Term)
    ensures MatchesTerms(labels, terms + [term]) <==> MatchesTerms(labels, terms) || MatchesTerm(labels, term)
  {
    var all := terms + [term];
    if MatchesTerms(labels, terms) {
      var i :| 0 <= i < |terms| && MatchesTerm(labels, terms[i]);
      assert all[i] == terms[i];
    }
    assert all[|terms|] == term;
  }

  lemma MoreTolerations(node: Node, terms: seq<Term>, few: seq<Toleration>, many: seq<Toleration>)
    requires forall t :: t in few ==> t in many
    requires Feasible(node, terms, few)
    ensures Feasible(node, terms, many)
  {
    forall i | 0 <= i < |node.taints| && node.taints[i].effect != PreferNoSchedule
      ensures Tolerated(node.taints[i], many)
    {
      var k :| 0 <= k < |few| && Tolerates(few[k], node.taints[i]);
      assert few[k] in many;
    }
  }
}
