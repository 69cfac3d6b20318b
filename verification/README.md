# rayspec: verified models of the engine's hard cores

rayspec runs workflows of coding-agent steps. This project models, in Dafny 4.11, the parts of it
whose correctness is decided by small, intricate code, and proves what that code promises.

* **Stream redaction** (`TextReplace`, `Redaction`, `StreamRedaction`, `StreamSeams`, `RedactingSink`,
  `StableSort`, `RedactorTable`, `RedactorCollisions`, `RedactorContents`). Secret values are replaced
  by markers, longest value first. A stream is redacted as it arrives: the tail that could still grow
  into a value is held back, and the boundary is then moved before any complete match it would cut. The
  main result is that what is released is exactly the text up to the last position no match can ever
  straddle, so the chunks cannot matter: the concatenated output is the redaction of the concatenated
  input. It rests on one distribution law (`Redaction.RedactSplits`): sequential replacement distributes
  over a cut no value straddles. A sink runs one stream per key; streams do not interfere. The literal
  table is an algebra: building and extending commute.
* **The scheduler of one sibling list** (`Graphs`, `CycleCheck`, `Kahn`, `KahnOrder`, `KahnReadings`,
  `Ancestry`, `JoinTable`, `SchedulerModel`, `SchedulerRuns`, `SchedulerFlags`, `Scheduler`, `StepRun`).
  `SchedulerModel` is a transition system in which the environment chooses what finishes and how;
  `Scheduler` is the imperative `run_graph`, whose ghost history is proved to be one of its runs. Proved
  over every run: progress (nothing is left behind unless something paused), guaranteed cleanup, exactly
  when a list drains and what may start then, an account of every step that did not run, and that an
  undisturbed concurrent run ends with the outcomes of evaluating the steps one after the other, in any
  topological order. The validator's depth-first searches, ancestor sets and Kahn ordering are methods
  proved against paths, cycles and transitive closure.
* **The spend ledger** (`Ledger`, `LedgerHistory`, `LedgerSums`, `LedgerProtocol`). Absolute run totals
  are booked as differences into day and month buckets and old entries are pruned. The pruned ledger is
  compared with one that never forgets; the locked read-modify-write is a protocol of many processes
  with crashes.
* **Host run slots** (`SlotProtocol`, `Slots`). Counted locks taken in sorted order by many processes:
  safety, the limit, and the absence of deadlock; and the imperative `RunSlot` and `acquire_slots`.
* **Smaller cores**: the bracket scanner that finds JSON in free text (`Json`, `Structured`), the leaf
  retry loop and its accounting (`Retry`), step paths (`Paths`, `Decimal`, `Lexicographic`) and the
  failure policy of nested scopes (`FailurePolicy`).

Run `dafny verify dfyconfig.toml` to check everything.

## Where the code and its documentation differ

* `SpendLedger.commit` says a run of unknown cost "commits nothing". The code books a total of 0, so after
  a known total the day and the month it returns fall by that amount: they stay if and only if the run had
  committed nothing (`LedgerHistory.UnknownCostBooksBack`).
* `StreamRedactor` claims its chunk law for every table. It fails for some values holding a bracket: a value
  `]…` can match across a marker, and the stream may have released that marker before the rest arrives.
  `StreamSeams.TwoValuesExactly` and `StreamSeams.MayFollowExactly` say which values these are and
  `StreamSeams.BracketValueExample` names one.
* `Redactor.extend` followed by `uncovered` can still name a value. `RedactorTable.UncoveredExactly` says
  which: one whose marker the values after it turn back into it, and when none of them occurs in the
  marker, one that spells its own marker. `RedactorTable.MarkerIsUncovered` and
  `RedactorTable.NestedMarkerIsUncovered` are two such inputs.
* `Redactor.with_identities` promises the answer `build` gives. Of the literal table: a value that JSON
  escapes differently can leave its escaped form in it; `RedactorTable.IdentityLaterExactly` says when for
  one secret and `RedactorTable.IdentitiesLaterExactly` for many. Of the collisions: of several secrets with
  one value only the first is listed, where `build` lists all; `RedactorCollisions.CollisionsLaterExactly`
  says when the two name the same secrets, and `RedactorCollisions.SharedValueExample` is an input where they
  do not.
* `topological_order` says steps that depend on unknown ids come last. The code does not count unknown ids.
  A step all of whose needs are unknown is last, after every step that names no unknown id, if and only if
  each of those has no needs and stands before it in the document (`KahnReadings.UnknownLastExactly`, with
  `KahnReadings.UnknownNeedExample`). A step that names siblings as well stands where it would without
  its unknown ids (`KahnReadings.UnknownNeedsChangeNothing`).
* `topological_order` says it keeps document order among ready steps. It keeps it among the steps that become
  ready at once; a step that becomes ready later waits behind those already queued, even when it stands
  before them in the document (`KahnReadings.OvertakenExample`). `KahnReadings.ReadingsAgreeExactly` says
  when the order is the one of the plain reading.
* The step-path grammar is `id` or `id[n]`, joined by slashes. The pattern ends in `$`, which also matches
  before one newline at the end of a segment (`Paths.NewlineExample`), and reads an index with leading zeros
  (`Paths.LeadingZeroExample`); parsing and printing gives a text back exactly when it has neither
  (`Paths.PrintsBackExactly`).
* Usage is said to be summed over every attempt. An attempt that ends in a control signal is recorded alone
  (`Retry.ControlKeepsUsageExactly` and `Retry.ControlKeepsCostExactly`, with `Retry.ControlExample`).

## Documented limits, made exact

* A run that commits again after its entry was pruned counts as fresh spend. As long as no commit lands in a
  bucket already pruned (moments may be out of order, as when two processes read the clock before they take
  the lock), `LedgerHistory.PrunedAgreesExactly` says exactly when the totals are those of the whole history.
  With moments in any order `LedgerHistory.RepeatedCommit` says exactly when a repeated commit books nothing.
  `LedgerHistory.ForgottenCountsTwice` gives the logs where a commit counts twice.
* A block may state `continue` when nobody outside stated a policy. `FailurePolicy.LoosensExactly` shows that
  this is the only way in which a scope is less strict than the one around it.

## Model

| member | source | states |
|---|---|---|
| Redaction.RedactValues | src/rayspec/redact.py:315-327 | the loop over the table, with its `in` test and early exit, is replacement by each literal in turn |
| Redaction.RedactSplits | src/rayspec/redact.py:324-327 | at a cut that no value straddles, sequential replacement distributes over the two halves, if no later value can match across an earlier marker |
| TextReplace.ReplaceKeepsCut | src/rayspec/redact.py:324-327 | replacing one value keeps a cut safe for every other value whose match cannot touch the marker |
| Redaction.NothingLeaks | src/rayspec/redact.py:311-327 | the redacted text contains no value of the table, when no value overlaps its own or a later marker |
| Redaction.RedactTwice | src/rayspec/redact.py:311-327 | redaction is idempotent |
| Redaction.BracketFreeIsSeamFree | src/rayspec/redact.py:51-54 | values without brackets can never match across a marker |
| Redaction.BracketFreeIsLeakFree | src/rayspec/redact.py:51-54 | values without brackets that no marker spells can never be read in the output |
| Redaction.SingleValueLeaksExactly | src/rayspec/redact.py:315-327 | one bracket-free value never leaks, on any text, if and only if its marker does not spell it |
| StreamRedaction.SuffixPrefixLen | src/rayspec/redact.py:130-147 | the search by `find` and `startswith` returns the longest suffix that is a proper prefix of the value |
| StreamRedaction.Hold | src/rayspec/redact.py:715-728 | the longest open tail over all values |
| StreamRedaction.KeepMatchesWhole | src/rayspec/redact.py:683-713 | the fixpoint ends at the greatest cut, not after the given one, that no complete match straddles |
| StreamRedaction.HoldThenKeepIsBoundary | src/rayspec/redact.py:675-676 | holding back and then keeping matches whole finds exactly the last position that no match can straddle whatever arrives next: nothing more is held and nothing less |
| StreamRedaction.StreamRedactor.Feed | src/rayspec/redact.py:657-681 | one `feed` returns the redaction of the text up to that position and keeps the rest |
| StreamRedaction.StreamRedactor.Flush | src/rayspec/redact.py:730-736 | the held tail comes out redacted and the stream is empty |
| StreamRedaction.FeedIsExact | src/rayspec/redact.py:657-681 | for every possible future text, redacting everything is what `feed` returned followed by redacting what it kept and the future |
| StreamRedaction.ChunkIndependence | src/rayspec/redact.py:639-640 | for every chunking of every text the outputs of all `feed` calls and the final `flush` concatenate to the redaction of the whole text |
| StreamRedaction.ChunkIndependenceBracketFree | src/rayspec/redact.py:633-643 | the chunk law for every table of bracket-free values |
| StreamRedaction.StreamLeaksNothing | src/rayspec/redact.py:633-643 | no value can be read in a stream's output, not even across two `feed` results |
| StreamSeams.MayFollowExactly | src/rayspec/redact.py:639-640 | the chunk law holds for a value stored after any other value of a given name, whatever that other value is and for every text and chunking, if and only if the value cannot match across that name's marker |
| StreamSeams.TwoValuesExactly | src/rayspec/redact.py:639-640 | one table of two values obeys the chunk law for every text and chunking if and only if the second cannot match across the marker of the first, when the first opens with a character found nowhere else in the two and does not end in a beginning of the second |
| StreamSeams.TouchingBreaks | src/rayspec/redact.py:639-640 | for every value that can match across such a marker, three chunks for which the law fails |
| StreamSeams.BracketValueExample | src/rayspec/redact.py:639-640 | two values and three chunks for which the law fails |
| RedactingSinks.RedactingSink.EmitStream | src/rayspec/redact.py:775-798 | one record advances the stream of its own key and no other, and is forwarded in order under that key with its name redacted |
| RedactingSinks.RedactingSink.Flush | src/rayspec/redact.py:800-808 | at the end of the run every stream is flushed and dropped; at the end of a step exactly the streams of its path are, and the others are untouched; what a flushed key has forwarded is what it had and the redaction of what was held |
| RedactingSinks.TrackIsExact | src/rayspec/redact.py:739-808 | at every moment one key's output, completed by redacting what is held, is the redaction of that key's own text |
| RedactingSinks.ReceivedNext | src/rayspec/redact.py:747-749 | a key's open segment is what it received since its own step or the run finished last |
| RedactingSinks.FlushedKeyIsRedacted | src/rayspec/redact.py:747-749 | right after its step or the run finished, a key has forwarded exactly the redaction of each segment it received, the last one included, and holds nothing; another step's end changes nothing for it |
| RedactingSinks.OthersDoNotInterfere | src/rayspec/redact.py:747-749 | what a key forwards depends only on the records and flushes that concern it |
| StableSort.LongestFirstIsStable | src/rayspec/redact.py:279 | the sort puts longer values first, keeps the multiset, and keeps the order of values of one length |
| StableSort.OrderedIsUnique | src/rayspec/redact.py:279 | those properties determine the sorted table |
| RedactorTable.Build | src/rayspec/redact.py:217-287 | the builder's table, skipped names and collisions: first entry of every redactable form, stably sorted |
| RedactorContents.TableExactly | src/rayspec/redact.py:259-279 | a built table has exactly the value and the JSON form of each secret of at least four characters that is no address, each once, under the name of the first secret of the list that has it |
| RedactorContents.SkippedExactly | src/rayspec/redact.py:259-272 | the names skipped are those of the secrets shorter than four characters |
| RedactorContents.CollidesExactly | src/rayspec/redact.py:259-287 | the collisions are the names of the redactable secrets whose value is an address of the run |
| RedactorContents.ExtendNames | src/rayspec/redact.py:544-569 | extending skips and reports the names that building from both lists does, and keeps the addresses |
| RedactorTable.Uncovered | src/rayspec/redact.py:489-517 | lists exactly the names of the values that redaction would let through, each once and in order of first appearance |
| RedactorTable.UniqueKeepsOrder | src/rayspec/redact.py:517 | dropping repeated names leaves each where it first appears |
| RedactorTable.ExtendIsBuild | src/rayspec/redact.py:544-569 | for all lists A and B, extending the table of A by B gives the ordered table built from A and B together |
| RedactorTable.ExtendedCovers | src/rayspec/redact.py:503-517 | after extending by B, every value of B without `[` is covered |
| RedactorTable.UncoveredExactly | src/rayspec/redact.py:489-569 | after building and extending, a value is uncovered if and only if the values after it in the table turn its marker back into it; when none of them occurs in the marker, if and only if the value is its marker |
| RedactorTable.NothingUncoveredExactly | src/rayspec/redact.py:503-569 | so after extending by B, `uncovered(B)` is empty if and only if no value of B survives in that way |
| RedactorTable.MarkerIsUncovered | src/rayspec/redact.py:489-569 | a secret that spells its own marker, given to `extend`, is named by `uncovered` |
| RedactorTable.NestedMarkerIsUncovered | src/rayspec/redact.py:489-569 | so is one that spells a marker inside a marker, which a later value restores |
| RedactorTable.IdentitiesLater | src/rayspec/redact.py:519-542 | teaching identities afterwards gives the literal table of building with them, when each value that becomes one does so together with its escaped form |
| RedactorTable.IdentitiesLaterExactly | src/rayspec/redact.py:519-542 | for secrets told apart by their names, the two tables are equal if and only if no value kept has an identity as its escaped form and every escaped form of an identity that is left over is shadowed by an earlier kept value |
| RedactorTable.IdentityLaterExactly | src/rayspec/redact.py:519-542 | for one value that condition is necessary and sufficient |
| RedactorCollisions.IdentitiesTaught | src/rayspec/redact.py:519-542 | the addresses taught are known from then on, whether or not a value is one of them; exactly the literals that are one are dropped; no skipped name and no collision is forgotten |
| RedactorCollisions.CollisionsLater | src/rayspec/redact.py:519-542 | the collisions after teaching identities name the secrets the build named and, of each form that became an identity, the first secret to have it |
| RedactorCollisions.CollisionsLaterExactly | src/rayspec/redact.py:519-542 | for secrets told apart by their names, these are the names `build` lists if and only if the secrets whose value becomes an identity are those that are the first of the list to have one as a form |
| RedactorCollisions.SharedValueExample | src/rayspec/redact.py:519-542 | two secrets of one value that becomes an identity: `build` lists both, `with_identities` only the first |
| CycleCheck.CheckAcyclic | src/rayspec/engine/graph.py:146-164 | the marking search reports a cycle if and only if there is one, and the reported path is a real cycle |
| CycleCheck.FromSteps | src/rayspec/engine/graph.py:113-143 | a list is accepted if and only if its ids are unique, its needs name other siblings and it has no cycle; each of the four refusals names its cause, duplicates first and cycles last; the graph built has the inverse edges and the roots, in document order and without repetition |
| CycleCheck.FindCycles | src/rayspec/loader/validate.py:174-196 | every list reported is a real cycle, none is reported if and only if there is none, and every cycle has an edge that closes a reported one |
| CycleCheck.AcyclicCheck.Visit | src/rayspec/engine/graph.py:149-161 | one visit finds a real cycle, or finishes its step after everything it needs and restores the stack |
| CycleCheck.CycleFinder.Visit | src/rayspec/loader/validate.py:180-191 | one visit keeps the colours, the stack and the finished order, and collects only real cycles |
| CycleCheck.Roots | src/rayspec/engine/graph.py:136 | exactly the steps without needs, in document order |
| Kahn.TopologicalOrder | src/rayspec/loader/validate.py:145-171 | always a permutation of the steps, topological if and only if there is no cycle; the emitted part has every step in its turn, the rest waits for a step that is not emitted and follows in document order |
| Kahn.OrderIsDetermined | src/rayspec/loader/validate.py:145-149 | on an acyclic list "in turn" (as each step becomes ready, document order among those ready at once) leaves exactly one order |
| KahnReadings.PrecedesExactly | src/rayspec/loader/validate.py:145-171 | on an acyclic list one step is emitted before another if and only if it has its turn before it |
| KahnReadings.UnknownLastExactly | src/rayspec/loader/validate.py:148-157 | a step with needs, all of them unknown, comes after every step that names no unknown id if and only if each of those has no needs and stands before it in the document |
| KahnReadings.UnknownNeedsChangeNothing | src/rayspec/loader/validate.py:152-157 | with steps that name siblings and unknown ids alike, the order is the one of the list without the unknown ids |
| KahnReadings.UnknownNeedsComeFirst | src/rayspec/loader/validate.py:148-157 | a step that names only unknown ids comes before every step that waits for a sibling |
| KahnReadings.UnknownNeedExample | src/rayspec/loader/validate.py:148-157 | three steps of which the one with the unknown need is not last |
| KahnReadings.ReadingsAgreeExactly | src/rayspec/loader/validate.py:145-149 | the order always takes the first ready step of the document if and only if no step becomes ready while a later one of the document already waits |
| KahnReadings.OvertakenExample | src/rayspec/loader/validate.py:145-149 | three steps of which the last of the document is emitted before the first, although both are ready |
| KahnOrder.ReleasedInTurn | src/rayspec/loader/validate.py:160-169 | steps released together in document order may be queued behind all others, and every step still has its turn |
| KahnOrder.InTurnIsUnique | src/rayspec/loader/validate.py:145-149 | two topological orders in which every step has its turn are equal |
| Kahn.Emit | src/rayspec/loader/validate.py:157-169 | what is emitted comes after its needs and in its turn, and what is left waits for something not emitted |
| Kahn.Link | src/rayspec/loader/validate.py:152-156 | the children lists hold each step once for every time it names the need, in document order |
| Kahn.Release | src/rayspec/loader/validate.py:166-169 | counting down the children of an emitted step keeps every counter equal to its unmet needs and the queue equal to the steps with none |
| Graphs.TopologicalIsAcyclic | src/rayspec/loader/validate.py:145-171 | a topological order excludes cycles |
| Ancestry.Ancestors | src/rayspec/loader/validate.py:123-142 | on an acyclic list exactly the transitive closure of `needs`; never more than it on any list |
| Ancestry.Walker.Walk | src/rayspec/loader/validate.py:128-140 | the memo holds only ancestors, and all of them when there is no cycle, whatever stack the walk came by |
| JoinTable.JoinRunsExactly | src/rayspec/engine/graph.py:66-93 | the documented truth table: exactly when a step of each join policy runs, and exactly when the decision is refused |
| JoinTable.JoinSkipsExactly | src/rayspec/engine/graph.py:81-93 | exactly when a step is skipped as `upstream_failed`, as `upstream_skipped` and as `run_failed` |
| Scheduling.Scheduler.Settle | src/rayspec/engine/scheduler.py:93-118 | the in-place updates of one settling are the transition that `SchedulerFlags.RecordedExactly` spells out |
| SchedulerFlags.RecordedExactly | src/rayspec/engine/scheduler.py:93-118 | one outcome sets the list draining if and only if it paused, or failed untolerated where failures stop the list or a gate was rejected; a pause beats a stop and the first signal stays |
| Scheduling.Scheduler.LaunchStep | src/rayspec/engine/scheduler.py:185-187 | a launch moves the step from pending to running and is a transition of the system |
| Scheduling.Scheduler.Receive | src/rayspec/engine/scheduler.py:265-268 | a delivery is settled and is a transition of the system |
| Scheduling.Scheduler.Choose | src/rayspec/engine/scheduler.py:131-187 | a decidable step is settled or launched only as the transition system allows: cap first, then the join table with the draining flag, then `when:` |
| Scheduling.Scheduler.DecideAndLaunch | src/rayspec/engine/scheduler.py:131-187 | the passes end, and then no pending step is decidable |
| Scheduling.Scheduler.Pass | src/rayspec/engine/scheduler.py:134-187 | one pass decides something, or ends with no pending step decidable |
| Scheduling.Scheduler.Collect | src/rayspec/engine/scheduler.py:189-197 | every running step is settled; nothing pending is touched |
| Scheduling.Scheduler.WindDownOne | src/rayspec/engine/scheduler.py:227-240 | kept for launching if and only if it joins `always`; otherwise skipped with the teardown's reason, or after a failure with the one its own needs give |
| Scheduling.Scheduler.CleanUp | src/rayspec/engine/scheduler.py:244-259 | a cleanup step is launched unless its `when:` says no or breaks |
| Scheduling.Scheduler.Round | src/rayspec/engine/scheduler.py:220-260 | one round of the wind-down takes something off the pending steps and leaves nothing running |
| Scheduling.Scheduler.WindDown | src/rayspec/engine/scheduler.py:199-260 | ends with nothing pending unless something paused, and every step it did not run has the reason that the teardown or its own needs give |
| Scheduling.Scheduler.MainLoop | src/rayspec/engine/scheduler.py:262-278 | ends signalled, failing fast, or with nothing running and nothing decidable |
| Scheduling.Scheduler.TearDown | src/rayspec/engine/scheduler.py:279-291 | after the last outcomes and the wind-down nothing runs, nothing is pending unless the run paused, and every leftover has the reason of what tore the list down |
| Scheduling.Scheduler.RunGraph | src/rayspec/engine/scheduler.py:77-292 | on every exit that is not a pause, each step has a terminal outcome and each `join: always` step without `when:` was launched; the list drained if and only if some outcome paused or failed so, and from then on, or from a cap or a signal on, only `join: always` steps were launched; the signal raised is a pause if any outcome paused the run, else a stop if any stopped it; after a stop the leftovers are `stopped`, after fail-fast they have the reason their needs give or `run_failed`; once torn down nothing is decided while something runs; the run is an execution of the transition system |
| Scheduling.NothingDecided | src/rayspec/engine/scheduler.py:265-277 | once a delivery signals, or leaves a fail-fast list draining, while others run, no step leaves the pending ones until all that run have delivered |
| SchedulerFlags.FlagsExactly | src/rayspec/engine/scheduler.py:93-118 | in every reachable state the draining, paused and signal flags are exactly what the outcomes on record say |
| SchedulerFlags.LaterOnlyCleanup | src/rayspec/engine/scheduler.py:141-187 | in every interleaving, from the moment the run is capped, or an outcome stops the others or signals, every step launched is a `join: always` step |
| SchedulerFlags.OnlyCleanupAfter | src/rayspec/engine/scheduler.py:93-187 | the same read off the order in which outcomes settled and steps were launched |
| SchedulerFlags.NotRunExactly | src/rayspec/engine/scheduler.py:141-240 | in every reachable state a step settled without running has one of eight reasons, each with what must have been the case: a need that failed, a need that was skipped, a draining list, a `when:` that does not hold, one that is broken (tolerated as the step allows), a cap or cancellation, a replay under a cap, a stop |
| SchedulerFlags.RunFailedIsTrue | src/rayspec/engine/graph.py:91-92 | `run_failed` is recorded only where some outcome stops the others or signals |
| SchedulerFlags.WhenExactly | src/rayspec/engine/scheduler.py:165-187 | in every reachable state, whatever else went on, a step with a `when:` was launched if and only if it held; one that does not hold skips the step, a broken one fails it, tolerated as the step allows |
| SchedulerFlags.CalmRunIsSequential | src/rayspec/engine/scheduler.py:77-292 | hence a run that was not capped and none of whose outcomes stops the others or signals, as under `continue`, ends with the sequential outcomes |
| Scheduling.Scheduler.NothingStuckIn | src/rayspec/engine/scheduler.py:223-225 | the branch for "nothing is ready" cannot be taken while nothing paused |
| Scheduling.Scheduler.UndisturbedIsSequential | src/rayspec/engine/scheduler.py:77-292 | what the imperative run leaves, if nothing disturbed it, is the sequential result |
| SchedulerModel.StepKeeps | src/rayspec/engine/scheduler.py:93-292 | every settling, launch, delivery or cap keeps the invariant: placement, needs first, flags, cleanup, self-decision, stickiness |
| SchedulerModel.SettledFacts | src/rayspec/engine/scheduler.py:141-183 | no unconditional cleanup step is ever settled without running |
| SchedulerRuns.ReachableInv | src/rayspec/engine/scheduler.py:77-292 | the invariant holds in every state of every interleaving |
| SchedulerRuns.NothingStuck | src/rayspec/engine/scheduler.py:199-292 | on an acyclic list with nothing running and nothing paused, either everything is settled or some pending step is decidable |
| SchedulerRuns.AncestorsSettled | src/rayspec/engine/scheduler.py:120-129 | in every reachable state all ancestors of a launched or settled step have ended |
| SchedulerRuns.AllowedIsAvailable | src/rayspec/loader/validate.py:211-223 | whatever the validator lets a step name, at any nesting depth, is settled when the step runs |
| SchedulerRuns.DirtyIsSticky | src/rayspec/engine/scheduler.py:141-187 | once draining, capped or signalled the list stays so, and every later launch is a `join: always` step |
| SchedulerRuns.ReachableExplained | src/rayspec/engine/scheduler.py:141-183 | in every reachable state a step that did not run carries an outcome that its needs, its `when:`, a cap or a signal account for |
| SchedulerRuns.UpstreamFailedIsTrue | src/rayspec/engine/graph.py:85-86 | `upstream_failed` is recorded only of a step one of whose needs failed untolerated |
| SchedulerRuns.ConcurrentIsSequential | src/rayspec/engine/scheduler.py:131-292 | if results and conditions depend only on ancestors' outcomes, every undisturbed interleaving ends with the outcomes of evaluating step by step in any topological order |
| StepRun.RunOne | src/rayspec/engine/scheduler.py:324-362 | however the execution, a cancellation and the persisting end, exactly one outcome is sent, one the scheduler may receive, and for each of these ends its status, signal, reason and whether it is tolerated: a returned outcome as it is, a cancelled step interrupted (or paused when it had paused), a signal with its own status, an exception and a failed write as a failure |
| Ledger.SpendLedger.Commit | src/rayspec/limits/ledger.py:121-154 | the in-place update books the difference and prunes; it returns the day's bucket as the day, the month's as the month, and leaves no day and no run on file that is older than the retention |
| Ledger.SpendLedger.Read | src/rayspec/limits/ledger.py:115-119 | returns the buckets of the day and of the month and the failure streak of the document |
| LedgerSums.CommitsReturnSums | src/rayspec/limits/ledger.py:121-154 | for every log in which no commit lands in a day or month already pruned: after each commit the day bucket is the sum, over the commits of that day, of each total minus the total its run committed before, and the month bucket the same over the month, if and only if no run commits again after it was forgotten with money booked |
| LedgerSums.FullSums | src/rayspec/limits/ledger.py:129-151 | in the never-pruned history every day and month bucket is that sum, always |
| LedgerSums.NothingOld | src/rayspec/limits/ledger.py:377-394 | right after a commit no day and no run on file is older than 62 days, and at most 24 months are left |
| Ledger.SpendLedger.RecordOutcome | src/rayspec/limits/ledger.py:156-162 | the failure streak advances or is reset, nothing else changes |
| Ledger.SpendLedger.ResetFailures | src/rayspec/limits/ledger.py:164-168 | only the failure streak is reset |
| Ledger.MonthsKeptAreLast | src/rayspec/limits/ledger.py:384-387 | pruning keeps the last 24 of the sorted months, or all when there are fewer |
| LedgerHistory.KeptRuns | src/rayspec/limits/ledger.py:377-394 | with moments in any order, the runs kept are exactly those whose entry no later commit pruned, each with its true entry |
| LedgerHistory.AliveExactly | src/rayspec/limits/ledger.py:377-394 | a run is kept if and only if no commit since its last one was more than the retention ahead of it |
| LedgerHistory.OneCommit | src/rayspec/limits/ledger.py:121-154 | one commit into buckets not pruned yet returns the totals of the whole history if and only if its run was not forgotten with money booked |
| LedgerHistory.PrunedAgreesExactly | src/rayspec/limits/ledger.py:377-394 | for every log, its moments possibly out of order, in which no commit lands in a day or month already pruned: every commit returns the totals of the never-pruned history if and only if no run commits again after it was forgotten with money booked |
| LedgerHistory.PrunedAgreesWhenRunsStayActive | src/rayspec/limits/ledger.py:377-394 | hence always, under a clock that does not run back, when no run goes longer than the retention between two commits |
| LedgerHistory.Conservation | src/rayspec/limits/ledger.py:121-151 | while nothing is pruned the day buckets, the month buckets and the runs' last totals add up to the same amount |
| LedgerHistory.RepeatChangesNoTotal | src/rayspec/limits/ledger.py:20-23 | in the whole history, committing again what a run committed last changes no bucket and no run's total, at any moment and with any commits of other runs between |
| LedgerHistory.RepeatedCommit | src/rayspec/limits/ledger.py:20-26 | in the pruned ledger, with moments in any order, such a repeat books nothing in any bucket if and only if no commit since was more than the retention ahead or the total is 0 |
| LedgerHistory.RepeatedCommitOfActiveRun | src/rayspec/limits/ledger.py:20-26 | so it never counts twice when commits land at most so many days behind others and the gap since the run's last commit leaves that much of the retention |
| LedgerHistory.RepeatedAtOnce | src/rayspec/limits/ledger.py:121-154 | repeated at the same moment with nothing between, it leaves the whole document as it is |
| LedgerHistory.ForgottenCountsTwice | src/rayspec/limits/ledger.py:24-26 | a run that commits money, is pruned and commits again is counted twice |
| LedgerHistory.ForgottenExample | src/rayspec/limits/ledger.py:24-26 | three commits of which the last returns more than was spent |
| LedgerHistory.UnknownCostBooksBack | src/rayspec/limits/ledger.py:129-154 | the day and month totals that a commit of unknown cost returns fall by what the run had committed; they stay if and only if that was nothing |
| LedgerProtocol.NoLostUpdate | src/rayspec/limits/ledger.py:181-194 | in every reachable state of any number of crashing processes the file is the fold of the completed writes in replace order, and every write whose caller was told is among them |
| LedgerProtocol.ReachableInv | src/rayspec/limits/ledger.py:181-194 | in every interleaving with crashes: the lock holder is the one process inside, what it read is the current document, and what it will write is that document with its operation applied |
| LedgerProtocol.LogGrows | src/rayspec/limits/ledger.py:260-279 | a completed write is never undone |
| LedgerProtocol.LockExcludes | src/rayspec/limits/ledger.py:181-194 | at most one process is between locking and unlocking |
| LedgerProtocol.CrashLosesOnlyItself | src/rayspec/limits/ledger.py:260-279 | a crash leaves the document and the log as they were and frees the lock for everyone waiting |
| LedgerProtocol.FailureLosesOnlyItself | src/rayspec/limits/ledger.py:190-279 | a read or write that raises leaves the document, the log and what was returned as they were and frees the lock |
| LedgerProtocol.RepeatInFile | src/rayspec/limits/ledger.py:20-26 | in every reachable state, crashes and failures included, with moments in any order, committing again what a run committed last books nothing in the file if and only if no commit since was more than the retention ahead or the total is 0 |
| LedgerProtocol.NextCommitInFile | src/rayspec/limits/ledger.py:121-194 | in every reachable state whose commits booked nothing twice, when neither they nor the next one land in a pruned bucket, the next commit returns the sum of the increases of its day and that of its month, over all commits on file, if and only if it books nothing twice |
| LedgerProtocol.FileCountsFailures | src/rayspec/limits/ledger.py:156-168 | in every reachable state the file counts the failed outcomes since the last success or reset, commits not counting |
| LedgerProtocol.FoldIsKept | src/rayspec/limits/ledger.py:121-168 | failure updates and commits do not interfere, so the fold is the pruned ledger of the commits |
| LedgerProtocol.FileConserves | src/rayspec/limits/ledger.py:121-194 | conservation holds of the file in every reachable state, while nothing was pruned |
| SlotProtocol.ReachableInv | src/rayspec/limits/slots.py:145-209 | what processes believe they hold is what the kernel says, in every reachable state, crashes included |
| SlotProtocol.NoSlotHeldTwice | src/rayspec/limits/slots.py:192-209 | no slot is held by two processes, nor twice by one |
| SlotProtocol.LimitRespected | src/rayspec/limits/slots.py:113-123 | a limit of L admits at most L holders |
| SlotProtocol.RunsWithAll | src/rayspec/limits/slots.py:273-298 | a running process holds a slot of every provider it asked for |
| SlotProtocol.PatientIsServed | src/rayspec/limits/slots.py:145-163 | in every run, a process that waits for providers none of which is switched off, and whose deadline never passes, gives slots back only after it ran |
| SlotProtocol.RefusedExactly | src/rayspec/limits/slots.py:145-163 | at the end of a scan it gives up if and only if it does not wait, its deadline has passed or the provider is switched off |
| SlotProtocol.SomebodyCanAct | src/rayspec/limits/slots.py:284-295 | because providers are taken in sorted order, whoever waits, some process runs, releases or finds a free slot |
| SlotProtocol.EverybodyCanFinish | src/rayspec/limits/slots.py:273-298 | there is no deadlock: with limits of at least 1, from any state of the invariant a run leads to one where every process is done |
| SlotProtocol.ScanTakesLowest | src/rayspec/limits/slots.py:189-190 | a whole scan is a run of single tries that ends holding the lowest free slot |
| Slots.RunSlot.TryAll | src/rayspec/limits/slots.py:189-209 | takes the lowest free slot; fails only when every slot is taken, and then changes nothing |
| Slots.RunSlot.TryOne | src/rayspec/limits/slots.py:192-209 | the slot is taken if and only if it was free, and nothing else changes |
| Slots.RunSlot.Acquire | src/rayspec/limits/slots.py:145-163 | without waiting it succeeds if and only if a slot is free; with waiting it gives up only after as many tries as the waiting allows, each of which found every slot taken, and otherwise takes the lowest free one; a limit of 0 refuses at once; other slots held by the process are kept |
| Slots.RunSlot.Release | src/rayspec/limits/slots.py:165-178 | the slot is free again; nothing happens when none is held |
| Slots.AcquireSlots | src/rayspec/limits/slots.py:273-298 | without waiting the run is admitted if and only if each capped provider has a free slot; with waiting it is refused only by a provider of limit 0 or one whose slots were all taken at every try and still are; all or nothing: one slot within its limit per capped provider in sorted order, or the process holds exactly what it held before |
| Slots.ReleaseAll | src/rayspec/limits/slots.py:296-298 | released last first, exactly these slots become free |
| Slots.Capped | src/rayspec/limits/slots.py:291 | the providers with a limit, each once, in sorted order |
| Structured.SpanEnd | src/rayspec/engine/structured.py:78-99 | finds the first position where the scan from an opener returns to depth 0, or that there is none |
| Structured.BalancedSpans | src/rayspec/engine/structured.py:72-99 | the nested loops yield exactly the spans of `SpansAreAll` |
| Structured.SpansAreAll | src/rayspec/engine/structured.py:72-99 | the spans listed are those of all openers whose bracket closes, in the order of their starts, and no other text |
| Structured.PrintedIsNeutral | src/rayspec/engine/structured.py:81-99 | a printed JSON value, at any depth, leaves the scanner as it found it and never takes it below that depth |
| Structured.EmbeddedIsSpan | src/rayspec/engine/structured.py:72-99 | between any two texts a printed object or array is exactly the span at its start |
| Structured.FirstSpan | src/rayspec/engine/structured.py:72-99 | and the first one, when nothing opens before it |
| Structured.ExtractJson | src/rayspec/engine/structured.py:48-69 | returns the value of the first candidate that parses: whole text, fenced blocks, spans |
| Structured.ParsedExactly | src/rayspec/engine/structured.py:48-69 | fails if and only if no candidate parses |
| Structured.AnswerExactly | src/rayspec/engine/structured.py:48-69 | the whole text when it parses, else the first fenced block that parses, however many spans do, else the first span that parses |
| Structured.EmbeddedIsFound | src/rayspec/engine/structured.py:48-69 | never fails on a text that contains a printed object or array the parser accepts |
| Structured.EmbeddedIsReturned | src/rayspec/engine/structured.py:48-69 | and returns that very value when nothing opens before it and neither the whole text nor a fence parses |
| Retry.RunLeaf | src/rayspec/engine/scheduler.py:406-504 | each attempt is followed by another if and only if it failed with an error, nothing tripped, attempts remain and the policy retries everything or the error is transient and no timeout; none starts after a cancellation, nor past a cap unless it joins `always`, and the exit is the one this calls for; at most max(1, `attempts`) attempts; the record holds what was carried over and what every attempt spent; the waiting is the sum of the policy's delays |
| Retry.After | src/rayspec/engine/scheduler.py:472-504 | another attempt follows if and only if this one failed with an error, nothing tripped meanwhile, attempts remain and the policy retries everything or the error is transient and no timeout |
| Retry.GoesOnExactly | src/rayspec/engine/retry.py:29-37 | the same of the policy's own test, told from how the attempt ended |
| Retry.RetriedByPolicy | src/rayspec/engine/retry.py:29-37 | a lasting error or a timeout is retried only by a policy that retries everything; a transient one always while attempts remain |
| Retry.OneAttempt | src/rayspec/engine/scheduler.py:456-484 | the record holds the attempt's own spending while it runs and the totals after it, except after a control signal |
| Retry.NothingIsLost | src/rayspec/engine/scheduler.py:422-431 | the tokens of each kind and the cost of the total are those carried over plus those of every attempt; the cost is known as soon as one part is |
| Retry.SourceExactly | src/rayspec/engine/context.py:1174-1181 | the total is an estimate if and only if some priced part is one, and has no source if and only if no priced part names one |
| Retry.ResumeKeepsTotals | src/rayspec/engine/context.py:696-720 | over any number of interrupted runs the totals are those of one long run |
| Retry.WaitedInAll | src/rayspec/engine/retry.py:40-42 | after k retries the waiting adds up to delay times 2 to the k, minus one |
| Retry.ControlKeepsUsageExactly | src/rayspec/engine/scheduler.py:480-481 | after a control signal the usage on the record is the sum if and only if nothing was used before that attempt |
| Retry.ControlKeepsCostExactly | src/rayspec/engine/scheduler.py:480-481 | and the cost is the sum if and only if nothing was paid before, or, when its own is unknown, none before was known |
| Retry.ControlExample | src/rayspec/engine/scheduler.py:480-481 | a run of two attempts that loses the first one's tokens |
| Paths.BuiltIsGood | src/rayspec/engine/paths.py:62-75 | every path built by `child` and `indexed` from the root names only valid identifiers |
| Paths.GoodIsBuilt | src/rayspec/engine/paths.py:62-75 | and every such path can be built |
| Paths.Parse | src/rayspec/engine/paths.py:48-60 | succeeds with the segments of the text, or fails only when no path fits it |
| Paths.RoundTrip | src/rayspec/engine/paths.py:103-106 | parsing a printed path gives the path back |
| Paths.PrintIsInjective | src/rayspec/engine/paths.py:103-106 | two paths that print alike are equal |
| Paths.SplitJoin | src/rayspec/engine/paths.py:53-104 | splitting at the slashes undoes joining |
| Decimal.NumeralOfValue | src/rayspec/engine/paths.py:59 | reading and printing an index gives its text back if and only if it has no leading zero |
| Paths.PrintsBackExactly | src/rayspec/engine/paths.py:24-60 | printing a parsed text gives the text back if and only if no segment ends in a newline or has an index with a leading zero |
| Paths.LeadingZeroExample | src/rayspec/engine/paths.py:24-60 | `a[01]` parses and prints differently |
| Paths.NewlineExample | src/rayspec/engine/paths.py:24-60 | `a` with a newline after it parses and prints without it |
| Paths.PathsAreTotallyOrdered | src/rayspec/engine/paths.py:34-40 | the sort key gives a strict total order consistent with equality |
| Paths.LessExactly | src/rayspec/engine/paths.py:34-40 | one path sorts before another if and only if it is an ancestor, or at the first difference its segment has the lesser name, or the same name and no index or a lesser one |
| Lexicographic.IsOrderOfSequences | src/rayspec/engine/paths.py:34-40 | comparing at the first difference lifts a strict total order from elements to sequences |
| FailurePolicy.ExecScope.constructor | src/rayspec/engine/context.py:321-389 | the two fields computed from the parent's fields are the strictest policy stated along the whole chain, and that or the default |
| FailurePolicy.ExecScope.Child | src/rayspec/engine/context.py:401-434 | a body that reuses its parent's defaults gets exactly the parent's policy and floor |
| FailurePolicy.StrictestExactly | src/rayspec/engine/context.py:305-326 | the floor is one of the policies stated and at least as strict as each |
| FailurePolicy.OnlyTightens | src/rayspec/engine/context.py:329-352 | what is in force is at least as strict as every policy stated by the scope or an enclosing one |
| FailurePolicy.InForceExactly | src/rayspec/engine/context.py:329-352 | and it is one of the policies stated, or `drain` when there is none |
| FailurePolicy.LoosensExactly | src/rayspec/engine/context.py:329-352 | a nested scope is less strict than its parent if and only if nobody outside stated a policy and it states `continue` |

## Left out

- StreamRedaction.ChunkIndependence: proved whenever no value touches the marker of an earlier one (so for every bracket-free table); `StreamSeams.TwoValuesExactly` shows the condition necessary for a table of two detached values, and `StreamSeams.MayFollowExactly` when the earlier value is arbitrary. For other tables it is not: a value that touches a marker does no harm when the earlier value is itself held back until the rest has arrived.
- StreamSeams.MayFollowExactly: stated for values that leave two characters unused and names without brackets.
- RedactorTable.IdentitiesLater: the one-way form under a simple condition on escaped forms; `IdentitiesLaterExactly` is exact, and `RedactorCollisions.CollisionsLaterExactly` compares the collisions.
- RedactorTable.IdentitiesLaterExactly: stated for secrets told apart by their names; two secrets of one name can trade places in the table.
- RedactorCollisions.CollisionsLaterExactly: compares which secrets are named, not in which order; for secrets told apart by their names.
- LedgerHistory.PrunedAgreesExactly: says nothing of a commit that lands in a day or month already pruned, whose bucket starts again at 0.
- RedactingSinks.RedactingSink.EmitStream: the structured `data` of a record, redacted field by field, is not modelled.
- RedactingSinks.RedactingSink.Flush: does not state in which order the tails of several keys are forwarded.
- Kahn.TopologicalOrder: requires unique ids, which the validator reports separately.
- Structured.ExtractJson: the JSON parser, `strip` and the fence pattern are parameters.
- Slots.RunSlot.Acquire: waiting is a number of retries, so waiting forever is not modelled as one call; in `SlotProtocol` it is.
- Slots.AcquireSlots: the block itself, between taking and releasing, is the caller's.
- Retry.RunLeaf: what the executor, the clock and the gates answer is a parameter; a kill of the whole process during an attempt is not modelled.
- Paths.Parse: only ASCII digits; Python's `\d` also takes other decimal digits, and its integers refuse more than 4300 digits.
- The credential detectors and `redact_shapes`, `redact_dump` and the undo rounds, `hold` and `max_len` (they bound or report, and change no output).
- JSON's own escaping (`json.dumps`) is an arbitrary function in `RedactorTable`.
- What a signal carries besides being a stop or a pause, so which of two stops is raised (the first one is).
- Cancellation from outside, task groups and delivery order are choices of the environment; so are what a running step delivers and what `when:` says. That a launched step delivers one outcome, and a pause as a signal, is what `StepRun.RunOne` proves of an executor that never returns a pause without its signal.
- Template evaluation, providers, executors, the resume fingerprint and persistence errors.
- Malformed ledger documents and their repair, dollars as floating point and the rounding to ten digits (amounts are integers), calendar dates (days and months are counted).
- Files, `flock`, `fsync` and `os.replace` as system calls: each is one step of a protocol. The temporary file that a crash leaves behind, and the holder notes inside slot files.
- The re-ask loop of structured output, schema validation, and prompts.
- CLI, rendering, YAML loading, schema generation, plugins and message texts.
