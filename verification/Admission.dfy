/** Runs of guest admissions against the reservation arithmetic. */
module Admission {
  import opened Objects
  import opened Pods
  import opened MachineController
  import opened MachineRuns
  import opened Machines
  import opened Injector

  /** A machine type under observation: its machine object and all pods. */
  datatype State = State(machine: Machine, pods: seq<Pod>)

  function SpecOf(m: Machine, group: string): MachineSpec {
    MachineSpec(group, m.types, m.nodePool)
  }

  function LiveGuests(s: State, group: string, name: string): nat {
    Live(s.pods, group, name, ROLE_GUEST)
  }

  /** The status is fresh, every live guest is used or waiting, and no more reservations are up than
      the current counts call for. */
  ghost predicate Settled(s: State, group: string, name: string, env: Env) {
    var usage := FreshUsage(SpecOf(s.machine, group), name, s.pods, env);
    && |s.pods| < 0x8000_0000
    && FindUsage(s.machine.status, name) == Some(usage)
    && LiveGuests(s, group, name) == Count(s.pods, Used, group, name, env) + Count(s.pods, Waiting, group, name, env)
    && usage.reserved <= Replicas(usage, Wrap32(Count(s.pods, Unscheduled, group, name, env)))
  }

  datatype Action =
    | Admit(guest: Pod)
    | Churn(pods: seq<Pod>)
    | Refresh(status: seq<Available>)

  /** Admissions happen when the gate is open, one pod each. Otherwise pods come and go as they like
      without adding live guests, and the status may be anything. */
  function Step(s: State, a: Action, group: string, name: string): Option<State> {
    match a
    case Admit(guest) =>
      if Gate([s.machine], group, name).Admitted? then Some(s.(pods := s.pods + [guest])) else None
    case Churn(pods) =>
      if Live(pods, group, name, ROLE_GUEST) <= LiveGuests(s, group, name) then Some(s.(pods := pods)) else None
    case Refresh(status) => Some(s.(machine := s.machine.(status := status)))
  }

  function After(s: State, actions: seq<Action>, group: string, name: string): Option<State>
    decreases |actions|
  {
    if actions == [] then Some(s)
    else
      match Step(s, actions[0], group, name)
      case None => None
      case Some(t) => After(t, actions[1..], group, name)
  }

  lemma LiveConcat(a: seq<Pod>, b: seq<Pod>, group: string, name: string, role: string)
    ensures Live(a + b, group, name, role) == Live(a, group, name, role) + Live(b, group, name, role)
  {
    if a == [] {
      assert a + b == b;
    } else {
      assert (a + b)[1..] == a[1..] + b;
      LiveConcat(a[1..], b, group, name, role);
    }
  }

  lemma LiveOne(pod: Pod, group: string, name: string, role: string)
    ensures Live([pod], group, name, role) <= 1
  {
    assert [pod][1..] == [];
  }

  /** An open gate at a settled point leaves room for one more guest. */
  lemma OpenGateHasRoom(s: State, group: string, name: string, env: Env)
    requires Settled(s, group, name, env) && Gate([s.machine], group, name).Admitted?
    requires 0 <= Desired(s.machine.types, name) < 0x8000_0000
    ensures LiveGuests(s, group, name) < Desired(s.machine.types, name)
  {
    var spec := SpecOf(s.machine, group);
    ReplicasConserve(spec, name, s.pods, env);
    CountersPartition(s.pods, group, [name], env);
    assert [name][1..] == [];
    WrapStep(Count(s.pods, Reserved, group, name, env));
    assert [s.machine][1..] == [];
    assert ListGroup([s.machine], group) == [s.machine];
    assert Count(s.pods, Reserved, group, name, env) <= Total(s.pods, group, [name], env);
  }

  /** How many admissions of a run happen at points that are not settled. */
  ghost function Unsettled(s: State, actions: seq<Action>, group: string, name: string, env: Env): nat
    requires After(s, actions, group, name).Some?
    decreases |actions|
  {
    if actions == [] then 0
    else
      (if actions[0].Admit? && !Settled(s, group, name, env) then 1 else 0)
      + Unsettled(Step(s, actions[0], group, name).value, actions[1..], group, name, env)
  }

  /** Admission safety over runs: the live guests of a type outnumber what the machine offers by no
      more than the admissions that happened at unsettled points; if there was none, never. */
  lemma {:induction false} GuestsNeverExceed(
      s: State, actions: seq<Action>, group: string, name: string, env: Env, excess: nat)
    requires 0 <= Desired(s.machine.types, name) < 0x8000_0000
    requires LiveGuests(s, group, name) <= Desired(s.machine.types, name) + excess
    requires After(s, actions, group, name).Some?
    ensures LiveGuests(After(s, actions, group, name).value, group, name)
         <= Desired(s.machine.types, name) + excess + Unsettled(s, actions, group, name, env)
    decreases |actions|
  {
    if actions != [] {
      var a := actions[0];
      var t := Step(s, a, group, name).value;
      if a.Admit? {
        LiveConcat(s.pods, [a.guest], group, name, ROLE_GUEST);
        LiveOne(a.guest, group, name, ROLE_GUEST);
        if Settled(s, group, name, env) {
          OpenGateHasRoom(s, group, name, env);
        }
      }
      var more := if a.Admit? && !Settled(s, group, name, env) then 1 else 0;
      GuestsNeverExceed(t, actions[1..], group, name, env, excess + more);
    }
  }

  /** Admissions of `n` guests in a row, with no status refresh between them. */
  function AdmitAll(s: State, guest: Pod, group: string, name: string, n: nat): Option<State> {
    if n == 0 then Some(s)
    else
      match AdmitAll(s, guest, group, name, n - 1)
      case None => None
      case Some(t) =>
        if Gate([t.machine], group, name).Admitted? then Some(t.(pods := t.pods + [guest])) else None
  }

  /** That bound is reached: while the status is not refreshed one reservation lets any number of
      guests in. */
  lemma {:induction false} StaleStatusAdmitsAnyNumber(s: State, guest: Pod, group: string, name: string, n: nat)
    requires Gate([s.machine], group, name).Admitted?
    requires IsLive(guest, group, name, ROLE_GUEST)
    ensures var t := AdmitAll(s, guest, group, name, n);
      && t.Some? && t.value.machine == s.machine
      && LiveGuests(t.value, group, name) == LiveGuests(s, group, name) + n
  {
    if n > 0 {
      StaleStatusAdmitsAnyNumber(s, guest, group, name, n - 1);
      var t := AdmitAll(s, guest, group, name, n - 1).value;
      LiveConcat(t.pods, [guest], group, name, ROLE_GUEST);
      assert [guest][1..] == [];
    }
  }
}
