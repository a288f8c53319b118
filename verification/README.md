# Imperator: verified model of the controllers and webhooks

Imperator is a Kubernetes operator that reserves machines for groups of guest pods. This project
models its decision logic in Dafny and proves properties of it.

* **MachineNodePool controller.** Marks the nodes of a pool with labels, taints and an annotation and
  later takes them off, guarded by a finalizer. `GoSlices` models Go slices with their backing arrays,
  so that deleting from a slice while ranging over it behaves as it does in Go. `Taints` and
  `NodeMarking` say what marking and unmarking do to one node, `NodeWalks` and `NodePasses` what whole
  passes leave in the node store when any read or write may fail, `RepeatedNames` what they leave when
  a node is listed more than once, `NodeStatus` what is reported, `NodePoolController` has the
  imperative code, and `NodePoolRuns` the finalizer protocol as a state machine with its runs.
* **Machine controller.** `Pods` classifies and counts pods, `Rollouts` is the loop that writes wanted
  objects through an API that may refuse, `MachineController` has the node pool object, the reservation
  StatefulSets, the Services and the usage counters, `MachineRuns` what sequences of reconciliations
  achieve, `EventFilter` which pod events reach which machine, `ReservationCycle` how reservations, their
  pods, the counters and the gate fit together.
* **Webhooks and generators.** `Generators` builds selectors, tolerations and templates, `TermSurgery`
  and `TolerationSurgery` say what the injector's list edits compute, `Injector` has the gate and the
  in-place edits, `Admission` runs of admissions, `Webhook` the validators and group uniqueness over
  runs, `Placement` what holds between pods and nodes, read by the scheduler's rules in `Scheduling`.

A run-time panic of the Go code (slice bounds, nil dereference, indexing an empty list) is a result of
the model (`None`, `Crashed`, `crashed`), never a precondition. API answers and the clock are
parameters. Go's int32 arithmetic is `Wrap32`.

## Where the code falls short of its intent

Each is proved. The conditions named are exact unless a line says otherwise.

* The status-taint loop of `removeNodeTaint` panics exactly if the last taint is a status taint and
  another one precedes it, and filters exactly if no two are adjacent (`GoSlices.RangeDelete`,
  `Taints.SkippingIsFilter`).
* A tainted pool entry whose machine type is called `node-pool` passes the webhook and makes unmarking
  panic; no other single type does (`NodeMarking.RoundTripExact`).
* `cleanupNode` returns at the first clean node, and a node that does not exist counts as clean. It
  cleans everything exactly if the nodes to clean come first (`NodePasses.CleanPassComplete`). Which API
  errors do no harm is `NodePoolRuns.Harmless`, a condition on the answers and the marked nodes: those at
  the first entry or behind the marked ones (`NodePoolRuns.HarmlessIs`). After any other the retry reports success
  and the finalizer goes while nodes are still marked (`NodePoolRuns.FailedCleanupLeaks`). So it does when
  a marked node disappears in front of another (`NodePoolRuns.VanishedNodeLeaks`).
* A pool may list a node twice. Whatever a completed marking does, a clean-up undoes it exactly if no
  tainted entry has the type `node-pool`, entries of one node agree with the last of them on the type,
  and nothing but repetitions follows a repetition (`RepeatedNames.MarkCleanExact`,
  `Webhook.WebhookGap`). With different types the earlier label stays behind
  (`RepeatedNames.RepeatedNameLeaks`); with one entry listed twice in front of another, `[e, e, f]`, the
  clean-up succeeds and the node of `f` stays marked (`RepeatedNames.TwiceListedHidesNext`).
* A replaced machine type leaves its label behind (`NodeMarking.ReplacedTypeSurvives`), and the node of a
  dropped entry stays marked whatever is reconciled later (`NodePoolRuns.DroppedNodeStays`).
* The node annotation is not restored on its own (`NodePasses.AnnotationExact`), although the design
  document says the controller adds it.
* After a failed pass a pool is not Ready until a reported condition changes, although later passes
  complete (`NodeStatus.ReadyExact`).
* The affinity surgery removes exactly the duplicates if and only if a term has at most one and nothing
  panics (`TermSurgery.StripTermExact`). Injecting an already injected selector takes off only the
  requirement on the type: the leftover term admits exactly the ready nodes with the type's GPU, of any
  type and group (`Placement.ReinjectionWidens`).
* A requirement without values, such as an ordinary `Exists`, makes the injector panic exactly if the
  removal loop meets it: always when it is the last of its term, and otherwise unless a removal right
  before it makes the loop pass over it (`TermSurgery.StripPanics`, `TermSurgery.PanicsOfFew`,
  `Injector.InjectPanics`).
* A stale status admits any number of guests (`Admission.StaleStatusAdmitsAnyNumber`). Here a bound stands
  in for an exact condition: the excess is at most the number of admissions at unsettled points
  (`Admission.GuestsNeverExceed`).
* Two machines validated against one snapshot can share a group (`Webhook.SnapshotsRace`).

The design document (docs/design_v1alpha1.md) differs from the code in the status key (`nodePool`
there, `node-pool` in the code), in the order of names in a reservation name, in asking for
`ContainersReady` on unscheduled pods, and in removing node labels where the code writes
`maintenance` or `not-ready`. The model follows the code.

## Model

| member | source | states |
|---|---|---|
| GoSlices.RangeDelete | pkg/controllers/machinenodepool_controller.go:192-201 | the aliased status loop panics exactly on lists that end in a status taint and hold another before it, and otherwise keeps everything except status taints not shielded by a directly preceding deletion |
| GoSlices.RunIs | pkg/controllers/machinenodepool_controller.go:195-200 | the step-by-step loop, stale tail of the array included, equals that closed form from every position |
| GoSlices.ExtractKeyValues | pkg/controllers/util/taint.go:24-30 | the extracted map has exactly the keys of the taints, and the last taint of a key gives its value |
| GoSlices.GetTaintKeyIndex | pkg/controllers/util/taint.go:32-40 | finds the first taint of a key, or none |
| GoSlices.DeleteFirst | pkg/controllers/machinenodepool_controller.go:210-214 | removes exactly the first taint of a key, in place |
| GoSlices.Append | pkg/controllers/machinenodepool_controller.go:280-285 | Go's append: contents grow by one at the end, in the same array or a new one |
| Taints.SkippingIsFilter | pkg/controllers/machinenodepool_controller.go:192-201 | deleting while ranging is a filter if and only if no two status taints are adjacent |
| Taints.DropEachIsFilter | pkg/controllers/machinenodepool_controller.go:203-216 | the machine-type removals are a filter if and only if no key occurs more often on the node than in the entry |
| Taints.RemoveManagedExact | pkg/controllers/machinenodepool_controller.go:189-217 | the whole removal yields the unmanaged taints in order if and only if the list is removable, for any keys, the status key among them or not; a caller can check that beforehand |
| Taints.AtMostOnceIsRemovable | pkg/controllers/machinenodepool_controller.go:189-217 | lists with each managed key at most once are removable |
| Taints.AdjacentStatusSurvives | pkg/controllers/machinenodepool_controller.go:195-200 | concrete lists on which a status taint survives, and on which the loop panics |
| NodePoolController.GetScheduleMachineTypeKeys | pkg/controllers/util/label.go:38-47 | one key per machine type, in order |
| NodePoolController.ScheduleKeys | pkg/controllers/machinenodepool_controller.go:175-178 | the last entry of a node name decides which keys are looked up |
| NodePoolController.PoolStatusValue | pkg/controllers/machinenodepool_controller.go:242-259 | maintenance by mode; else ready exactly if every present out-of-service taint is the not-ready one forgiven in the test environment, and not-ready otherwise |
| NodePoolController.NodeObject.RemoveLabel | pkg/controllers/machinenodepool_controller.go:170-187 | drops the status label and the type labels that carry this group, nothing else |
| NodePoolController.NodeObject.RemoveTaint | pkg/controllers/machinenodepool_controller.go:189-217 | the in-place removal computes the removal function, and panics exactly where that has no result |
| NodePoolController.NodeObject.SetTaints | pkg/controllers/machinenodepool_controller.go:272-317 | status and type taints are appended, or overwritten in place if their key was there before |
| NodePoolController.NodeObject.Mark | pkg/controllers/machinenodepool_controller.go:230-317 | the loop body on the fetched node computes the marking function or panics where it does |
| NodePoolController.NodeObject.Clean | pkg/controllers/machinenodepool_controller.go:133-145 | the three removals on the fetched node compute the unmarking function or panic where it does |
| NodePoolController.MachineNodePoolReconciler.ReconcileNode | pkg/controllers/machinenodepool_controller.go:219-341 | node store and outcome after a marking pass, for every sequence of API answers |
| NodePoolController.MachineNodePoolReconciler.CleanupNode | pkg/controllers/machinenodepool_controller.go:123-164 | node store and outcome after a clean-up pass, for every sequence of API answers |
| NodePoolController.MachineNodePoolReconciler.UpdateStatus | pkg/controllers/machinenodepool_controller.go:343-392 | persists one condition per entry in order, together with Ready, if every node could be read, something changed and the write is accepted, and nothing otherwise |
| NodePoolController.MachineNodePoolReconciler.Reconcile | pkg/controllers/machinenodepool_controller.go:79-121 | one call makes exactly the step of the finalizer protocol; the status is reported after a completed marking pass, Ready becomes false after a failed one, and nothing else writes it |
| NodeMarking.MarkIs | pkg/controllers/machinenodepool_controller.go:219-317 | marking in closed form on removable lists: label removals are undone by the writes, foreign taints keep their order, managed ones are appended, none is overwritten |
| NodeMarking.MarkedStatus | pkg/controllers/machinenodepool_controller.go:241-265 | after any marking that does not panic the status label says maintenance by mode, ready exactly if no raw taint takes the node out of service, the not-ready one forgiven in the test environment, and not-ready otherwise |
| NodeMarking.MarkedTaintsAre | pkg/controllers/machinenodepool_controller.go:272-317 | the taints after marking are the foreign ones, one status taint that says what the label says and the types' taints with the group, all with effect and time; without the taint flag nothing changes |
| NodeMarking.MarkedIsRemovable | pkg/controllers/machinenodepool_controller.go:272-317 | a marked taint list is removable again |
| NodeMarking.RemarkKeepsRest | pkg/controllers/machinenodepool_controller.go:219-317 | labels, annotations and taints imperator does not manage keep values and order |
| NodeMarking.RemarkMarks | pkg/controllers/machinenodepool_controller.go:261-317 | a tame node ends up with the status label and stays tame |
| NodeMarking.RemarkIdempotent | pkg/controllers/machinenodepool_controller.go:219-317 | marking again changes timestamps at most |
| NodeMarking.StripIsRest | pkg/controllers/machinenodepool_controller.go:133-145 | unmarking takes off everything managed and nothing else if and only if the taints are removable and the type labels carry the group |
| NodeMarking.RoundTripExact | pkg/controllers/machinenodepool_controller.go:189-217 | for entries with one type, mark then unmark restores a free node unless the entry is tainted and the type is node-pool; in that case, and only then, it panics |
| NodeMarking.ReplacedTypeSurvives | pkg/controllers/machinenodepool_controller.go:174-186 | after a type was replaced in the spec, its label survives clean-up |
| NodeWalks.MarkFromEffect | pkg/controllers/machinenodepool_controller.go:222-338 | for any per-node step: entries before the first failing one are written, no other node changes |
| NodeWalks.CleanFromEffect | pkg/controllers/machinenodepool_controller.go:125-162 | for any per-node step and nodes existing or not: entries up to the first clean or failing one are cleaned; a clean one ends the loop with success |
| NodePasses.MarkPassExact | pkg/controllers/machinenodepool_controller.go:219-341 | a marking pass never panics on clearable nodes; entries before the failing one are fully marked, all else is untouched, and it fails exactly at an unreadable or missing node or a refused needed write |
| NodePasses.MarkPassIdempotent | pkg/controllers/machinenodepool_controller.go:219-341 | after a completed pass any later pass, even an aborted one, leaves labels and taints equal up to timestamps |
| NodePasses.AnnotationExact | pkg/controllers/machinenodepool_controller.go:235-239 | after a completed pass the annotation is right if and only if it was right or labels or taints had to change |
| NodePasses.EventsReachPool | pkg/controllers/machinenodepool_controller.go:435-448 | node events are mapped to the pool after a pass under exactly that condition |
| NodePasses.CleanPassExact | pkg/controllers/machinenodepool_controller.go:123-164 | a clean-up pass over tame nodes, existing or not, unmarks a run of dirty entries from the front and touches nothing else; success means end of list or a clean entry, failure an unreadable entry or a refused needed write |
| NodePasses.CleanPassComplete | pkg/controllers/machinenodepool_controller.go:127-153 | a fault-free clean-up succeeds and frees every listed node if and only if the dirty nodes form a prefix of the list, missing nodes counting as clean |
| NodePasses.CleanRetryGivesUp | pkg/controllers/machinenodepool_controller.go:151-158 | after an API error behind the first entry, a retry succeeds without changing anything |
| NodePasses.CleanStopsAtMissingNode | pkg/controllers/machinenodepool_controller.go:127-153 | a missing node anywhere ends clean-up with success, and nothing from there on is cleaned |
| NodePasses.PassRoundTrip | pkg/controllers/machinenodepool_controller.go:123-341 | completed marking followed by clean-up gives back the identical node store |
| RepeatedNames.MarkCleanExact | pkg/controllers/machinenodepool_controller.go:123-341 | for pools that may list nodes repeatedly: completed marking and clean-up give back the store if and only if no tainted entry has the type node-pool, entries of a node agree with its last one, and repetitions come last |
| RepeatedNames.RepeatedNameLeaks | pkg/controllers/machinenodepool_controller.go:175-186 | in any pool, a type the last entry of its node does not have keeps its label through clean-up, whatever the API answers |
| RepeatedNames.RepeatHidesLater | pkg/controllers/machinenodepool_controller.go:151-153 | behind a repeated entry nodes not listed before stay marked although clean-up succeeds |
| RepeatedNames.TwiceListedHidesNext | pkg/controllers/machinenodepool_controller.go:151-153 | one entry listed twice in front of another leaves the other's node marked |
| NodeStatus.ConditionsTruthful | pkg/controllers/machinenodepool_controller.go:241-295 | after a completed pass every entry reports Maintenance, Unhealthy or Healthy as its node deserves, never blank, from label or taint; only the type node-pool reports what the group's name reads as |
| NodeStatus.ConditionsFromTaints | pkg/controllers/machinenodepool_controller.go:241-295 | the same from the raw taints of the nodes before the pass |
| NodeStatus.ConditionReads | pkg/controllers/machinenodepool_controller.go:352-370 | for any node: the last status taint speaks for a tainted entry, otherwise the label, with ready, not-ready and anything else told apart |
| NodeStatus.ReadyExact | pkg/controllers/machinenodepool_controller.go:105-121 | a completed pass persists the true conditions, and leaves the pool Ready if and only if it was or a condition differs from the persisted one |
| NodeStatus.StoppedPassReported | pkg/controllers/machinenodepool_controller.go:105-119 | a pass that an unreadable or missing node or a refused needed write stops is reported as not ready and keeps the conditions |
| NodeStatus.RefusedReport | pkg/controllers/machinenodepool_controller.go:345-388 | a listed node that is gone or unreadable, or a refused write, leaves the status as it was |
| NodePoolRuns.RunsAreSafe | pkg/controllers/machinenodepool_controller.go:79-164 | in every run, with edits that keep the entries of marked nodes, marking aborted anywhere and harmless clean-up answers, the marked nodes are a prefix of the list, other listed nodes are free, and without the finalizer all are |
| NodePoolRuns.RunsRestore | pkg/controllers/machinenodepool_controller.go:79-341 | if nobody else touches the nodes, every state without the finalizer has exactly the initial node store |
| NodePoolRuns.StepKeepsGood | pkg/controllers/machinenodepool_controller.go:79-121 | every step of controller, user or outsiders keeps the protocol invariant |
| NodePoolRuns.FaultlessReconcile | pkg/controllers/machinenodepool_controller.go:79-121 | with an answering API one reconciliation marks all nodes, or frees all and drops the finalizer of a deleted pool |
| NodePoolRuns.FreshPoolGetsMarked | pkg/controllers/machinenodepool_controller.go:82-105 | of two answered calls on a new pool the first writes the finalizer and touches no node, the second marks every listed node |
| NodePoolRuns.WholeLife | pkg/controllers/machinenodepool_controller.go:79-121 | created, marked, deleted and cleaned up by answered calls, a pool loses its finalizer and leaves the identical node store |
| NodePoolRuns.RefusedUpdateKeepsPool | pkg/controllers/machinenodepool_controller.go:83-102 | in every state a refused update of the pool object leaves it as it was |
| NodePoolRuns.FailedCleanupLeaks | pkg/controllers/machinenodepool_controller.go:92-102 | any other answers lead, on the next reconciliation, to a dropped finalizer with a node still marked |
| NodePoolRuns.HarmlessIs | pkg/controllers/machinenodepool_controller.go:125-162 | the harmless answers are exactly those with which clean-up ends at the first entry, behind the marked ones, or not with an error |
| NodePoolRuns.VanishedNodeLeaks | pkg/controllers/machinenodepool_controller.go:127-153 | a marked node that disappears in front of another leads to a dropped finalizer with that one still marked |
| NodePoolRuns.DroppedNodeStays | pkg/controllers/machinenodepool_controller.go:123-341 | a node that specs no longer list keeps all it carries through every later call |
| Pods.GetPodConditionTypeMap | pkg/controllers/util/status.go:35-47 | the first condition of each kind is kept |
| Pods.CountsExactly | pkg/controllers/machine_controller.go:359-418 | which pods count, phase by phase from raw labels, namespace and conditions: running with a first ContainersReady that is true, pending and bound, or pending, unbound and declared unschedulable |
| Pods.CountInserted | pkg/controllers/machine_controller.go:359-418 | one pod more adds one to exactly the counters it counts in |
| Pods.CountIsCardinality | pkg/controllers/machine_controller.go:359-418 | each counter is the number of pods in its declarative set |
| Pods.CountedOnce | pkg/controllers/machine_controller.go:330-422 | no pod counts for two counters or two types |
| Pods.CountersPartition | pkg/controllers/machine_controller.go:330-422 | all counters of distinct types together never exceed the pods |
| Pods.CountersWithinLive | pkg/controllers/controller_utils.go:33-56 | reserved plus unscheduled never exceed the reservation pods that may still run, used plus waiting never such guests |
| MachineController.MachineReconciler.ReconcileMachineNodePool | pkg/controllers/machine_controller.go:108-174 | the pool object gets group, node pool and, where it has none, the group label; unknown type names are appended to its stock in order; a refused write or report ends the pass |
| MachineController.MachineReconciler.UnscheduledPodNum | pkg/controllers/controller_utils.go:18-59 | the guarded loop counts the unscheduled reservation pods of the core namespace, in int32 |
| MachineController.MachineReconciler.GetMachineTypeUsage | pkg/controllers/util/status.go:25-33 | the first status entry of the name |
| MachineController.MachineReconciler.ReconcileStatefulSet | pkg/controllers/machine_controller.go:176-249 | exactly the referenced types with a usage entry get their StatefulSet, sized from the stored status, up to the first refused call |
| MachineController.MachineReconciler.ReconcileService | pkg/controllers/machine_controller.go:251-297 | exactly the types with a usage entry get their Service, up to the first refused call |
| MachineController.MachineReconciler.CountReserved | pkg/controllers/machine_controller.go:351-373 | the reservation loop counts the reserved set, in int32 |
| MachineController.MachineReconciler.CountGuests | pkg/controllers/machine_controller.go:375-418 | the guest loop counts the used and waiting sets, and fails exactly if a guest's namespace is unreadable |
| MachineController.MachineReconciler.UpdateStatus | pkg/controllers/machine_controller.go:299-433 | every entry, old or added, is refreshed, or nothing is persisted: after a failing list, an unreadable namespace or a refused write |
| MachineController.MachineReconciler.Reconcile | pkg/controllers/machine_controller.go:88-106 | one call is exactly one attempt, for all API answers: pool, StatefulSets sized by the status before the pass, Services, status from the pods, up to the first error |
| Rollouts.RolloutHeals | pkg/controllers/machine_controller.go:196-246 | a rollout that covers what an earlier one may have written makes up for it, wherever that was cut off |
| Rollouts.RolloutStops | pkg/controllers/machine_controller.go:196-246 | a rollout writes the turns up to the first refused or unreported one, and nothing else |
| Generators.StatefulSetObject.Generate | pkg/controllers/util/resource.go:42-82 | whatever the object held, it becomes the reservation set of type, group and replicas |
| MachineRuns.UsageIsCardinality | pkg/controllers/machine_controller.go:359-421 | reserved, used and waiting of a refreshed entry are the sizes of their own pod sets |
| MachineRuns.ReplicasConserve | pkg/controllers/machine_controller.go:214-222 | without int32 overflow 0 <= replicas <= maximum, and replicas plus demand equal the larger of maximum and demand |
| MachineRuns.TwoPassesSettle | pkg/controllers/machine_controller.go:88-106 | two passes reach a fixed point in which every referenced type has a reservation sized by the current counts |
| MachineRuns.FaultsHeal | pkg/controllers/machine_controller.go:88-106 | after any reconciliations, cut off anywhere by API errors and with any pods, two answered passes lead to the very world they would have led to at once |
| MachineRuns.AnsweredAttempt | pkg/controllers/machine_controller.go:88-106 | with an answering API an attempt is the whole pass, and succeeds if and only if the namespaces can be read |
| MachineRuns.SizedIs | pkg/controllers/machine_controller.go:219-222 | that size is the larger of zero and available minus demand |
| MachineRuns.SizedByStatusBefore | pkg/controllers/machine_controller.go:205-222 | a pass sizes a named type's reservation by the status entry it finds: maximum less used, waiting and unscheduled, not below zero |
| MachineRuns.EveryTypeIsServed | pkg/controllers/machine_controller.go:251-297 | after two passes every type of the spec has a Service that selects its reservations |
| MachineRuns.UnwantedKeepsKey | pkg/controllers/machine_controller.go:190-209 | a type no node pool entry names, or without a status entry, never gets or loses a StatefulSet, nor one without an entry a Service, whatever the API answers |
| MachineRuns.AttemptDone | pkg/controllers/machine_controller.go:88-106 | an attempt that succeeds is the whole pass, one that fails leaves the status alone |
| MachineRuns.AttemptRefused | pkg/controllers/machine_controller.go:88-106 | refused calls, failing lists, unreadable namespaces and a refused write of a changed status make an attempt fail, and what comes after a refusal is left alone |
| MachineRuns.EntryNamesAre | pkg/controllers/machine_controller.go:309-327 | a refresh keeps every status entry in its place and adds one for each type without |
| MachineRuns.DesiredIs | pkg/controllers/machine_controller.go:303-306 | the maximum is what the last type of the name offers |
| MachineRuns.DesiredOfNone | pkg/controllers/machine_controller.go:303-306 | a type that has left the spec keeps its entry with a maximum of zero |
| MachineRuns.ReadableIs | pkg/controllers/machine_controller.go:386-391 | the namespaces that must be readable are those of the listed types' guests, live or not |
| MachineRuns.FindUsageFirst | pkg/controllers/util/status.go:25-33 | of several entries of a name the first is read |
| MachineRuns.StockIsHistory | pkg/controllers/machine_controller.go:126-151 | over any validated edits the stock is the first-seen list of all type names ever reconciled |
| MachineRuns.PoolFollows | pkg/controllers/machine_controller.go:126-151 | over any edits the pool object has the last spec's entries and group, the first group's label, and the stock of the history |
| MachineRuns.StockGrows | pkg/controllers/machine_controller.go:144-151 | earlier stocks are prefixes of later ones |
| MachineRuns.MergeStockDistinct | pkg/controllers/machine_controller.go:144-151 | a merge repeats a name if and only if the spec lists a new name twice |
| EventFilter.FilterComplete | pkg/controllers/machine_controller.go:449-495 | any change of the pod list that alters a counter has a pod that is reported for exactly the group's machine |
| EventFilter.FilterSound | pkg/controllers/machine_controller.go:449-495 | only pods of the machine's group and types are reported |
| EventFilter.FilterExact | pkg/controllers/machine_controller.go:449-495 | exactly which pods are reported for which machine: readable namespace, enabled for guests, the only machine of the group, one of its types |
| TermSurgery.StripTermExact | pkg/api/v1alpha1/pod_resource_injector.go:256-272 | a term loses exactly its duplicates, order kept, if and only if it has at most one and does not panic |
| TermSurgery.StripPanics | pkg/api/v1alpha1/pod_resource_injector.go:258-261 | a term panics if and only if an expression without values is its last or is not passed over after a removal |
| TermSurgery.PanicsOfFew | pkg/api/v1alpha1/pod_resource_injector.go:256-272 | without a duplicate any expression without values panics; a single duplicate saves exactly the one behind it, unless that is the last |
| TermSurgery.StripTermsEach | pkg/api/v1alpha1/pod_resource_injector.go:254-274 | the list of terms panics if and only if a term does; every term is filtered and none lost if and only if none panics and none has two duplicates |
| TermSurgery.OwnRequirementKept | pkg/api/v1alpha1/pod_resource_injector.go:256-272 | whatever the duplicates, a requirement whose first value differs from the injected one is kept, and nothing is added |
| TermSurgery.InjectedKeysAre | pkg/api/v1alpha1/pod_resource_injector.go:228-232 | the last requirement of a key gives the injected value |
| TolerationSurgery.InjectExact | pkg/api/v1alpha1/pod_resource_injector.go:288-308 | the result is the foreign tolerations followed by the generated ones if and only if each generated one was there at most once |
| TolerationSurgery.InjectIdempotent | pkg/api/v1alpha1/pod_resource_injector.go:288-308 | in that case a second injection changes nothing |
| TolerationSurgery.InjectLength | pkg/api/v1alpha1/pod_resource_injector.go:288-308 | the list grows by the generated tolerations that were not there |
| TolerationSurgery.OwnTolerationKept | pkg/api/v1alpha1/pod_resource_injector.go:288-323 | a toleration that differs from the generated ones in key or value survives, the generated ones are there, and nothing else comes in |
| TolerationSurgery.OwnTolerationReplaced | pkg/api/v1alpha1/pod_resource_injector.go:316-323 | one of the same key and value is replaced, whatever operator and effect it has |
| Injector.StripInPlace | pkg/api/v1alpha1/pod_resource_injector.go:258-271 | the in-place loop over the shared array computes the surgery, and panics where that does |
| Injector.GuestPod.InjectPodAffinity | pkg/api/v1alpha1/pod_resource_injector.go:226-286 | strips the old terms, appends the required one, panics on an affinity without node part |
| Injector.GuestPod.InjectPodToleration | pkg/api/v1alpha1/pod_resource_injector.go:288-323 | the in-place moves compute the injection function |
| Injector.GuestPod.InjectToPod | pkg/api/v1alpha1/pod_resource_injector.go:124-152 | the verdict is the gate's, or a crash where injection panics; a pod is edited only when admitted, and then exactly as the injection function says |
| Injector.GuestPod.Handle | pkg/api/v1alpha1/pod_resource_injector.go:57-122 | pods that are no guests pass unchanged, known ones are denied, every other guest is judged and injected |
| Injector.InjectPanics | pkg/api/v1alpha1/pod_resource_injector.go:187-274 | injection panics if and only if the pod has no container, an affinity without node part, or a term that panics |
| Injector.InjectTouchesOneContainer | pkg/api/v1alpha1/pod_resource_injector.go:187-207 | the target is the first container of the requested name or the first at all; only its resources change, all others stay |
| Injector.InjectedResources | pkg/api/v1alpha1/pod_resource_injector.go:199-224 | the target container requests and is limited to exactly the CPU, memory and GPUs of the type |
| Injector.OwnTermsKept | pkg/api/v1alpha1/pod_resource_injector.go:254-280 | each own term stays in its place with every requirement that differs from the injected ones |
| Injector.TypeHasItsName | pkg/api/v1alpha1/pod_resource_injector.go:154-185 | the admitted type is the one asked for |
| ReservationCycle.GateReads | pkg/api/v1alpha1/pod_resource_injector.go:136-138 | the gate admits exactly if the stored reserved number is not zero, reading the first machine of the group, its first type and its first status entry of the name |
| ReservationCycle.GateRefuses | pkg/api/v1alpha1/pod_resource_injector.go:128-138 | no machine or no such type denies, a type without a status entry crashes |
| ReservationCycle.ReservationOpensGate | pkg/api/v1alpha1/pod_resource_injector.go:124-152 | with a refreshed status the gate is open if and only if some pod is reserved for the type, and denies otherwise |
| ReservationCycle.ReservationAdmitsGuest | pkg/api/v1alpha1/pod_resource_injector.go:124-152 | after an answered pass over a started pod of the type's own StatefulSet a guest of the type is admitted under it, without a reserved pod it is denied |
| ReservationCycle.InjectedGuestCounts | pkg/controllers/machine_controller.go:375-418 | an injected guest counts for its group and type: used once bound, waiting while unschedulable, never as a reservation |
| ReservationCycle.RequiredIs | pkg/api/v1alpha1/pod_resource_injector.go:83-96 | guests are the pods that carry group, type and the guest role |
| ReservationCycle.TemplatePodsCount | pkg/controllers/util/resource.go:42-95 | pods of a generated StatefulSet match its selector and the type's Service and count as its reservations, never as guests, and pass the injector |
| ReservationCycle.TemplateAsks | pkg/controllers/util/resource.go:72-81 | the template's one container asks for exactly what the type has |
| ReservationCycle.UnreadyIsIgnored | pkg/controllers/machine_controller.go:359-418 | a running pod whose containers are not ready changes neither status nor StatefulSets |
| ReservationCycle.UpAddsOne | pkg/controllers/machine_controller.go:359-418 | a live pod that is ready or bound adds one to reserved as a reservation, to used as a guest, and to nothing else |
| Placement.PlacementAgrees | pkg/api/v1alpha1/affinity.go:43-89 | generated selector and tolerations admit a freshly marked node if and only if it is ready, in service, of the type (only that one if tainted), of the group, and has the GPU label |
| Placement.GuestReplacesReservation | pkg/controllers/util/resource.go:42-82 | an injected guest has the reservation template's selector and resources and runs wherever the reservation may, and only there if it had no tolerations |
| Placement.GuestSelects | pkg/api/v1alpha1/pod_resource_injector.go:276-280 | the injected term is one more alternative beside the guest's own |
| Placement.ReinjectionWidens | pkg/api/v1alpha1/pod_resource_injector.go:256-280 | for any type not called node-pool, injecting an injected selector leaves a term that matches exactly the ready nodes with the type's GPU, if it has one |
| Admission.OpenGateHasRoom | pkg/api/v1alpha1/pod_resource_injector.go:136-138 | at a settled point an open gate means fewer live guests than the maximum |
| Admission.GuestsNeverExceed | pkg/api/v1alpha1/pod_resource_injector.go:136-138 | in every run live guests exceed the maximum by no more than the admissions at unsettled points, so never if there are none |
| Admission.StaleStatusAdmitsAnyNumber | pkg/api/v1alpha1/pod_resource_injector.go:136-138 | without a status refresh one reservation admits any number of guests |
| Webhook.ValidateLabel | pkg/api/v1alpha1/machine_webhook.go:119-145 | accepts exactly machines with a group no other machine has |
| Webhook.ValidateNodePoolMachineTypeName | pkg/api/v1alpha1/machine_webhook.go:166-189 | accepts exactly distinct type names with one known type per pool entry |
| Webhook.ValidateGPUSpec | pkg/api/v1alpha1/machine_webhook.go:191-217 | accepts exactly GPUs with a resource name, a number not negative and one selector field |
| Webhook.ValidGPUSelects | pkg/api/v1alpha1/affinity.go:31-41 | for a validated GPU the generated selector is the one field that is set |
| Generators.GPUTermIs | pkg/api/v1alpha1/affinity.go:31-61 | for any GPU the third requirement is its family, or else its product, or else its machine, and there is none without |
| Webhook.EveryEntryIsReserved | pkg/controllers/machine_controller.go:180-194 | for a validated machine every pool entry's type has its reservation after two passes |
| Webhook.WebhookGap | pkg/api/v1alpha1/machine_webhook.go:166-189 | the node pool of a validated machine is restored by marking and clean-up if and only if no tainted entry has the type node-pool, entries of one node agree on their type, and repetitions come last |
| Webhook.GroupsStayUnique | pkg/api/v1alpha1/machine_webhook.go:119-145 | over any validated creates, updates and deletes no group ever has two machines |
| Webhook.ApplyExact | pkg/api/v1alpha1/machine_webhook.go:119-145 | exactly which creates, updates and deletes pass |
| Webhook.NamesOkIs | pkg/api/v1alpha1/machine_webhook.go:166-189 | the accepted specs in full: no two types of one name, one existing type per entry |
| Webhook.SnapshotsRace | pkg/api/v1alpha1/machine_webhook.go:119-145 | two machines of one group both pass against the same snapshot |
| Objects.TypeKeyInjective | pkg/api/v1alpha1/affinity.go:27-29 | different type names have different keys |
| Objects.StatusKeyIsATypeKey | pkg/consts/const.go:29 | the status key is the key of the type name node-pool and of no other |

## Left out

- RunsAreSafe: takes clean-up answers that are harmless, edits that keep the entries of marked nodes in place with their types, and disappearances with no marked node listed behind, because FailedCleanupLeaks, DroppedNodeStays, ReplacedTypeSurvives, CleanPassComplete and VanishedNodeLeaks show the property false otherwise.
- RunsRestore: takes the same runs without outside changes.
- MarkFromEffect: takes distinct names, as do the pass theorems built on it; MarkCleanExact is for lists with repetitions.
- MarkCleanExact: takes entries with distinct types and `node-pool` only alone, which the webhook's one type per entry gives.
- TwoPassesSettle: takes passes the API answers; FaultsHeal says what failed ones before them change, namely nothing.
- FilterComplete: takes readable namespaces and one machine in the group.
- GroupsStayUnique: takes each request validated against the store it changes; SnapshotsRace shows why.
- StripInPlace: every selector term gets an array of its own, as decoding gives it; sharing between terms is not modelled.
- InjectPodAffinity: pod affinity and preferred node affinity, which it does not touch.
- UpdateStatus: timestamps, reasons and messages of conditions, and the Ready condition of machines.
- Store contents: node objects are copied from and to the store as values; resource versions, conflicts and cached reads are not modelled.
- The API client, manager set-up, leader election, event recording, logging and manifests.
- JSON decoding and patching of admission requests.
- Resource quantities: compared as opaque integers, the sign of the GPU number aside.
- Owner references, and what the API server itself fills into Services.
- `Default` on Machine: it writes status on a request that cannot store it.
- `ValidateNodeName`: membership of pool nodes in the node list.
- Names across groups: a group and a type joined by a hyphen can collide with another pair, so StatefulSets are those of one group.
- The predicates of the node watch: they pass on every change of labels, annotations or taints.
