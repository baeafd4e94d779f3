# Cuttlefish: a verified model of its job runtime

Cuttlefish runs a graph of sandboxed blocks. A spec is lexed and parsed, the graph is
type-checked, and a host runs it node by node, checkpointing into a ledger from which a crashed
job resumes. This project models that machinery in Dafny and proves what its static checks, its
resume protocol and its codecs are for.

How the model is laid out, one module to a file:

- **The graph check** (`Types`, `Graphs`, `TopoSort`, `Exclusivity`, `Composition`, `Paths`, `GraphCheck`):
  Kahn ordering, composition of input expressions over types, the branch-exclusivity fixpoint, and
  what is at each path of a composed value or type.
- **The run** (`Ladder`, `Ledger`, `RunSpec`, `Runner`): recovery ladder, ledger class, fan-out and
  node loop. `RunSpec` says what a run writes and returns from a given ledger; the methods of
  `Runner` work on a `JobLedger` object and are proved to do exactly that. `Attempts`, `Manifests`
  and `Execution` say the same without those functions: which answers of the blocks, lines of the
  manifests and rows of the ledger lead to which value, row and result, each if and only if.
- **What every run keeps** (`Interruption`, `CrashResume`, `FanoutResults`, `Soundness`,
  `BranchSkips`, `Witnesses`): a history of a job is any sequence of runs, each with its own block
  answers and manifest files and each cut after any number of ledger writes; the theorems speak of
  every such history. Only crash-resume equivalence asks that the runs before met the same world,
  apart from cancellations.
- **The script interpreter** (`Replay`): re-running a whole script against a log, and running it once.
- **The catalog** (`Catalog`, `CatalogRuns`, `EditDistance`, `Suggestions`): index transactions,
  their interleavings with crashes, the suggestion search.
- **Codecs** (`TypeCodec`, `Lexer`, `SpecText`, `Spans`, `ExprParser`, `Bundle`, `Chains`,
  `Fingerprint`, `Words`, `Utf8`, `Windows`, `Tar`, `TarRoundTrip`, `Exif`), with grammars of their
  own that the readers are proved to accept exactly (`TypeGrammar`, `LexGrammar`, `ExprGrammar`,
  `TarListing`).

Blocks, schemas and judges are one deterministic oracle, `Ladder.World`: what a piece of work answers
depends on where it is asked, the attempt and iteration, the backend and the value. A crash drops
the three in-memory maps and keeps the ledger. SHA-256 is a function into 64 hex digits, assumed to
tell apart only the contents that the run in question adds; JSON is a codec assumed to round-trip
only the manifest that is written; a rename is one atomic step.

Where a promise holds only under a condition, the condition is proved exact, or a concrete input is
given on which it fails:

- Two nodes under one name make the sort panic instead of reporting an error
  (`TopoSort.TopologicalOrder`, `TopoSort.DuplicateNamesPanic`).
- The check of a list input looks at its first item only (`Composition.MixedListAccepted`);
  `Composition.FitsExactly` is the exact condition for an input to be right on every run.
- `Text` is refused where `bytes` is wanted although every value that passes for the one passes
  for the other (`Types.RefusedYetIncluded`); `Types.InclusionExactly` is the exact relation.
- The documentation of `Signature` says that ` -> ` never occurs inside a printed type. A field
  name can contain it, and the signature then does not parse back
  (`TypeCodec.SignatureRoundTripExactly`, `TypeCodec.ArrowInNameBreaksSignature`).
- The comment at `runner.rs:750-753` says a decision always runs before the nodes exclusive to its
  labels. Nothing orders them unless a target needs the decision's output, and a target that comes
  first runs although its label is lost (`Witnesses.TargetRunsBeforeItsDecision`).
  `BranchSkips.SkipsExactly` is the rule for every job, `BranchSkips.LostIsSkippedIfDecidedFirst`
  the exact order condition where no node needs two labels, and
  `BranchSkips.WaitingTargetsSkipExactly` the rule when targets do need their decision's output.
- A branch target that needs another label's target loses its own mark and no conflict is
  reported (`Exclusivity.InheritedMarkWins`); nor is one between two labels of one decision when the
  node needs a label of another decision first (`Exclusivity.OtherDecisionHidesAConflict`). What is
  reported is always real (`Exclusivity.ErrorsAreReal`). The marks are exact if and only if no node needs two
  labels and every target is declared (`Exclusivity.MarksExactly`).
- The comment at `runner.rs:902-910` says a decision's answer is held to its declared labels. It is
  held to those that some mark names: with two labels on one target a declared answer fails the job
  (`Exclusivity.SharedTargetLosesALabel`, `Witnesses.DeclaredAnswerRefused`). When every target has
  its own label only, the two sets are one (`Exclusivity.LabelsAreDeclared`). A decision inside
  another decision's branch can lose all its labels, and then decides nothing
  (`Witnesses.InnerDecisionIsIgnored`).
- Replay equals direct execution exactly when a script, after the suspend error, comes to an end and
  not with asking for something else (`Replay.ReplayExactly`, `Replay.CatchingDiverges`,
  `Replay.RetryingIsSilent`). No script is excluded, whatever its number of calls depends on.
- The comment in `is_simple_chain` calls its fan-out tally unreachable. It can fail when two entries
  share a name (`Chains.TallyExactly`, `Chains.TallyCanFail`).
- A window of no bytes is not reported as too small and never advances (`Windows.WindowMovesExactly`),
  and an empty file still costs one request (`Windows.ReadWorkbook`).
- `tar_entries` cuts a padded size to a `usize`. In a 32-bit guest contents can then overlap the next
  header, and one addition is unchecked (`Tar.ContentsApartExactly`, `Tar.OverflowsExactly`,
  `TarRoundTrip.ThirtyTwoBitsTrap`); with 64-bit addresses neither happens (`Tar.WideEnoughNeverTraps`).
- A comment or word written directly after a bare word becomes part of it (`SpecText.ReadsBackExactly`,
  `SpecText.CommentRunsIntoWord`).
- The fingerprint that guards resuming does not cover what feeds a node
  (`Fingerprint.FingerprintExactly`, `Fingerprint.InputsAreNotFingerprinted`).

## Model

| member | source | states |
|---|---|---|
| Types.AssignableTransitive | crates/cuttlefish-abi/src/lib.rs:113-131 | seams compose: what fits a fitting type fits; with reflexivity and antisymmetry the relation is a partial order |
| Types.AssignableAntisymmetric | crates/cuttlefish-abi/src/lib.rs:113-131 | two types that fit each other are one type |
| Types.JsonIsTheOnlyTop | crates/cuttlefish-abi/src/lib.rs:113-131 | a type accepts every other exactly when it is `json` |
| Types.AssignablePreservesMatch | crates/cuttlefish-abi/src/lib.rs:113-154 | an accepted seam never lets through a value the consumer's live check refuses |
| Types.AssignableIsInclusion | crates/cuttlefish-abi/src/lib.rs:113-154 | on types the host can check, acceptance is inclusion of values, both ways |
| Types.InclusionExactly | crates/cuttlefish-abi/src/lib.rs:113-154 | for all types, inclusion of values is acceptance with bytes, image and document read as `json` |
| TypeCodec.SplitFields | crates/cuttlefish-abi/src/lib.rs:243-263 | splitting at the commas outside brackets, by one scan that tracks depth |
| TypeCodec.ParseTy | crates/cuttlefish-abi/src/lib.rs:207-240 | the parser computes the specification the round trips are proved about, on every text |
| TypeGrammar.ParsesExactly | crates/cuttlefish-abi/src/lib.rs:207-240 | what any text reads as, if and only if: a word, brackets around the text of an element, or braces around fields cut at the commas outside brackets, the last of several fields with one name counting |
| TypeCodec.SplitMeans | crates/cuttlefish-abi/src/lib.rs:243-263 | the parts put together with commas are the text, cut exactly at the commas before which as many brackets closed as opened; a blank last part is dropped |
| TypeCodec.TypeWords | crates/cuttlefish-abi/src/lib.rs:157-170 | the seven words |
| TypeCodec.TypeRoundTripExactly | crates/cuttlefish-abi/src/lib.rs:157-263 | with bracket-free names, a printed type parses back to itself exactly when its field names are clean |
| TypeCodec.PrefixRefused | crates/cuttlefish-abi/src/lib.rs:157-263 | when its field names hold no bracket and no colon and no white space at their ends, no proper prefix of a printed type is accepted as a type |
| TypeCodec.BracketInNameCutsShort | crates/cuttlefish-abi/src/lib.rs:157-263 | with a bracket in a field name, a proper prefix of a printed type that reads as another type |
| TypeCodec.SignatureRoundTripExactly | crates/cuttlefish-abi/src/lib.rs:285-303 | a printed signature parses back exactly when both types do and the input's text holds no arrow |
| TypeCodec.ArrowInNameBreaksSignature | crates/cuttlefish-abi/src/lib.rs:285-303 | a field name with an arrow in it: the type parses back, the signature does not |
| Graphs.InputExpr.RefsAreMentions | crates/cuttlefish-host/src/dag.rs:422-436 | the references collected are exactly the nodes an expression mentions at any depth |
| TopoSort.TopologicalOrder | crates/cuttlefish-host/src/dag.rs:355-420 | succeeds exactly when every reference exists, the dependencies without marked self-loops are acyclic and the names are distinct; each error outcome is characterised, the stuck node reported leads to a cycle |
| TopoSort.DepsExactly | crates/cuttlefish-host/src/dag.rs:355-382 | what a node waits for is exactly what its expression mentions, but for a marked loop |
| TopoSort.KahnOrderIsTopological | crates/cuttlefish-host/src/dag.rs:384-420 | the order lists every node once, each after all it waits for |
| TopoSort.KahnOrderUnique | crates/cuttlefish-host/src/dag.rs:384-420 | there is only one possible result, however the maps are iterated |
| TopoSort.DeclarationOrderIrrelevant | crates/cuttlefish-host/src/dag.rs:355-420 | the same nodes declared in another order run in the same order |
| TopoSort.DuplicateNamesPanic | crates/cuttlefish-host/src/dag.rs:404-420 | two entries under one name end in the panic, not in an error |
| Exclusivity.ComputeBranchExclusivity | crates/cuttlefish-host/src/dag.rs:531-599 | the fixpoint ends within one pass more than there are nodes, with the specified marks |
| Exclusivity.MarksExactly | crates/cuttlefish-host/src/dag.rs:531-599 | on every graph that sorts: the check succeeds with marks that say exactly which label each node needs if and only if no node needs two labels and every target is declared |
| Exclusivity.ExclusivityExactly | crates/cuttlefish-host/src/dag.rs:531-599 | with targets alone and decisions apart: fails exactly on an undeclared target or a node needing two labels of a decision, and otherwise marks exactly the nodes that reach a label's target through inputs |
| Exclusivity.MarksAreTruthful | crates/cuttlefish-host/src/dag.rs:531-599 | on any graph at all, a mark that comes out is a label the node needs, and every target has one |
| Exclusivity.LabelsAreDeclared | crates/cuttlefish-host/src/runner.rs:902-971 | the labels a decision is held to are declared ones, and all of them when every target has its own label only |
| Exclusivity.SharedTargetLosesALabel | crates/cuttlefish-host/src/dag.rs:531-544 | two labels on one target: the first is declared and no mark names it |
| Exclusivity.ErrorsAreReal | crates/cuttlefish-host/src/dag.rs:531-599 | on any graph at all, an error names an undeclared target of the decision, or a node that does need the two labels reported |
| Exclusivity.InheritedMarkWins | crates/cuttlefish-host/src/dag.rs:545-599 | a target fed by another label's target: both end with one mark, and the conflict is not reported |
| Exclusivity.OtherDecisionHidesAConflict | crates/cuttlefish-host/src/dag.rs:562-590 | a node needing a label of one decision and then two of another: torn, and not reported |
| Composition.FitsSound | crates/cuttlefish-host/src/dag.rs:438-474 | a fitting input composes, on outputs of the declared types, to a value of the needed type |
| Composition.FitsExactly | crates/cuttlefish-host/src/runner.rs:336-354 | for every expression and every need, an input is right for every well-typed set of outputs exactly when it fits part by part, bytes, image and document read as `json` |
| Composition.FitsReadingNullExactly | crates/cuttlefish-host/src/runner.rs:336-354 | an input is right whatever the other nodes delivered, one node's output not being there, exactly when it fits with that output read as null |
| Composition.AcceptedFits | crates/cuttlefish-host/src/dag.rs:438-474 | with homogeneous lists the type-level composition accepts only what fits |
| Composition.FittingAccepted | crates/cuttlefish-host/src/dag.rs:438-474 | it never refuses what fits |
| Composition.MixedListAccepted | crates/cuttlefish-host/src/dag.rs:459-471 | a list of a text and a number passes for a list of texts and delivers the number |
| Composition.ReferencesAnyMeans | crates/cuttlefish-host/src/runner.rs:320-331 | the skip test asks exactly whether some skipped node is mentioned |
| Paths.ComposedExactly | crates/cuttlefish-host/src/runner.rs:336-354 | the composed value is the one value, and the only one, with the right thing at every path of fields and positions: the output of the node named there or null, the same fields, as many items in the same order |
| Paths.NothingElse | crates/cuttlefish-host/src/runner.rs:336-354 | and nothing is at any other path, unless inside some node's output |
| Paths.ComposedTyExactly | crates/cuttlefish-host/src/dag.rs:438-474 | the same of the composed type at every path the check looks at |
| Paths.NoTyMeans | crates/cuttlefish-host/src/dag.rs:438-474 | an expression without a type has, where the check looks, an unknown node or an empty list, and the error names it |
| GraphCheck.ReadSignatures | crates/cuttlefish-host/src/dag.rs:181-208 | signatures by name, a fan-out node presenting its collection and keeping its item type apart; an error names the first node whose block cannot be read, and why |
| GraphCheck.CheckNode | crates/cuttlefish-host/src/dag.rs:225-262 | a node is checked successfully exactly when its seam fits, and carries each of its entry's fields; a mismatch names the node it is fed from, the node, and the printed type that does not accept what its input composes to |
| GraphCheck.CheckGraph | crates/cuttlefish-host/src/dag.rs:171-265 | accepts exactly the graphs that are nonempty, readable, known, acyclic, distinctly named, consistent in their branches and fitting at every seam; panics exactly on duplicate names; a refusal is `Empty` exactly without nodes and otherwise names the first unreadable block, the unknown reference or stuck node of the sort, a real branch error, or the first seam, in run order, that does not fit |
| Ladder.RunAttempt | crates/cuttlefish-host/src/runner.rs:1616-1720 | one attempt: the bounded loop, then the declared type, then the checks |
| Ladder.RunLadder | crates/cuttlefish-host/src/runner.rs:1515-1605 | the two nested loops follow the flat plan: they attempt a prefix of it, all rejected but the last, and give up exactly after the whole of it |
| Ladder.AttemptsBounded | crates/cuttlefish-host/src/runner.rs:1515-1605 | at most one attempt, plus the retries, plus one per reroute |
| Ladder.EndsInEscalation | crates/cuttlefish-host/src/runner.rs:1561-1605 | a ladder that runs out escalates exactly when its first rung that leads nowhere is `escalate` |
| Ladder.ClimbMeans | crates/cuttlefish-host/src/runner.rs:1515-1605 | exhausted exactly when every planned attempt was rejected; escalated as above; an accepted value has the declared type |
| Attempts.AttemptExactly | crates/cuttlefish-host/src/runner.rs:1616-1722 | an attempt comes to an outcome if and only if there is a chain of answers, each what the block makes of the one before and the first of the input, none of them done before the last, within the bound, that ends so: accepted when the last is done, of the declared type and not objected to; rejected for the first of these that fails, or by the block; or cancelled |
| Attempts.ClimbExactly | crates/cuttlefish-host/src/runner.rs:1515-1605 | the ladder comes to a result if and only if some attempt of the plan settles it, all earlier ones rejected; when all are, it reports the last one's reason |
| Attempts.PlanMeans | crates/cuttlefish-host/src/runner.rs:1515-1605 | which attempts those are: the default backend, then for each rung up to the first that does not lead on a retry's number on the backend in force, or one on the model a reroute names |
| Ledger.JobLedger.GetCompleted | crates/cuttlefish-host/src/ledger.rs:218-236 | an output exactly for a node with a completed row |
| Ledger.JobLedger.PutRow | crates/cuttlefish-host/src/ledger.rs:253-278 | one row inserted or replaced, nothing else changed, the write recorded |
| Ledger.JobLedger.ConcludedItems | crates/cuttlefish-host/src/ledger.rs:376-408 | strictly increasing indices, an index exactly where the node has an item row, each element what that row says |
| Ledger.ListedOnce | crates/cuttlefish-host/src/ledger.rs:376-408 | there is only one list like that |
| Ledger.JobLedger.CheckOrRecordManifest | crates/cuttlefish-host/src/ledger.rs:616-644 | the first run pins its digest, later runs pass exactly with the same one, the previous one is reported |
| Runner.RunItems | crates/cuttlefish-host/src/runner.rs:1209-1392 | the item loop leaves concluded items alone, writes one row for each of the others, and its counters are those of the ledger |
| Runner.RunFanoutNode | crates/cuttlefish-host/src/runner.rs:1081-1437 | a fan-out node's writes, files and value are those of its specification from any ledger |
| Manifests.UsableItemsExactly | crates/cuttlefish-host/src/runner.rs:1148-1180 | a manifest supplies items if and only if no line is malformed and some line holds a value; the items are the values of all those lines, in order |
| Manifests.UnusableMeans | crates/cuttlefish-host/src/runner.rs:1148-1180 | and otherwise the error is that of the first malformed line, or that the manifest is empty |
| Execution.ItemRowExactly | crates/cuttlefish-host/src/runner.rs:1230-1392 | an item's row is completed, escalated or failed exactly as its block's answers make the ladder end, and records the value of its line |
| Execution.ItemsInOrder | crates/cuttlefish-host/src/runner.rs:1209-1392 | items get their rows in order |
| Execution.FanoutEndsExactly | crates/cuttlefish-host/src/runner.rs:1081-1437 | which end a fan-out node comes to: an unusable manifest, another manifest than the pinned one, a cancelled item, no item completed, or a collection |
| Runner.RunNode | crates/cuttlefish-host/src/runner.rs:687-993 | one node's turn: resumed, skipped or executed as specified, its checkpoints written in order |
| Execution.NodeExecutes | crates/cuttlefish-host/src/runner.rs:787-993 | executing a node runs its block on the job's input or on what its expression composes to; what it writes and remembers is, in each case, what the block's answers make the ladder end with |
| Execution.FanoutExecutes | crates/cuttlefish-host/src/runner.rs:787-993 | a fan-out node writes its items' rows, then its own, and its collection is its output |
| Execution.NodeIsRemembered | crates/cuttlefish-host/src/runner.rs:687-732 | a node with a completed or skipped row writes nothing, and its row is what is remembered |
| Runner.RunJob | crates/cuttlefish-host/src/runner.rs:615-1079 | a fresh process on any ledger writes and returns exactly what `RunSpec.Start` says, and marks the job completed, failed or cancelled exactly as the envelope says |
| Execution.ResultExactly | crates/cuttlefish-host/src/runner.rs:1014-1025 | a run returns a value if and only if the node loop came to its end and it is the output of the last node, in run order, that has one |
| Execution.NoResultExactly | crates/cuttlefish-host/src/runner.rs:1026-1034 | and then reports that every node was skipped if and only if no node has an output |
| Interruption.TraverseResumes | crates/cuttlefish-host/src/runner.rs:685-732 | any node loop whose steps keep to their own rows, cut after any write and started over, does what was left and ends in the same state |
| CrashResume.StepResumable | crates/cuttlefish-host/src/runner.rs:687-993 | a node cut after any of its writes, fan-out items included, does the rest when taken again |
| CrashResume.CancelledWritesPrefix | crates/cuttlefish-host/src/runner.rs:1209-1223 | a run cancelled at any blocks has written a prefix of what it would have written |
| CrashResume.LedgerIsAPoint | crates/cuttlefish-host/src/runner.rs:685-993 | after any history of broken runs the ledger is the uninterrupted run's after some number of writes |
| CrashResume.ResumedEqualsUninterrupted | crates/cuttlefish-host/src/runner.rs:685-993 | after any history, the run let through has the outputs, skips, routes, result and final ledger of the run never interrupted |
| CrashResume.ConcludedNeverRerun | crates/cuttlefish-host/src/runner.rs:685-732 | work the ledger knows the end of could answer anything and the run would not change |
| CrashResume.FinalRowsKept | crates/cuttlefish-host/src/ledger.rs:218-278 | no run changes an item row, a completed row or a skipped row |
| FanoutResults.FanoutConserves | crates/cuttlefish-host/src/runner.rs:1181-1437 | a fan-out that succeeds has every index of its manifest concluded and no other, succeeded plus failed is the number of the manifest's lines that hold a value, and the files are the rows |
| FanoutResults.LinesPartition | crates/cuttlefish-host/src/runner.rs:1404-1418 | every item below the count is on a line of exactly one of the two files, with its row's output or error |
| FanoutResults.LinesRise | crates/cuttlefish-host/src/runner.rs:1404-1418 | both files list their items in increasing order |
| FanoutResults.FanoutConservesAfterCrashes | crates/cuttlefish-host/src/runner.rs:1140-1437 | the same after any history in which the runs before were answered anything and found any manifests, equal digests meaning equal lines; the node is pinned to the present manifest, and every row records the item of it at its index |
| FanoutResults.FanoutConservesInRun | crates/cuttlefish-host/src/runner.rs:685-993 | the same for the ledger as it is when a whole run, resumed after such a history, comes to the node |
| Soundness.LedgerWellTyped | crates/cuttlefish-host/src/runner.rs:685-993 | every completed row any history can leave has its node's declared type, and a deciding node's names a label its marks know (a declared one, by Exclusivity.LabelsAreDeclared) |
| Soundness.AcceptedGraphsDoNotGoWrong | crates/cuttlefish-host/src/runner.rs:685-993 | on every run of an accepted graph after any history, a node about to execute has the output of every node it names except itself, and its composed input has the declared type when the input fits with its own output read as null |
| Soundness.AcceptedInputsFit | crates/cuttlefish-host/src/dag.rs:232-241 | in an accepted graph homogeneous inputs fit |
| Soundness.SelfReferenceReadsNull | crates/cuttlefish-host/src/runner.rs:342-342 | a node whose input is itself is a marked loop and reads null for itself, after any history |
| BranchSkips.SkipsExactly | crates/cuttlefish-host/src/runner.rs:747-785 | on every job and after any history whatever, a finished run skipped exactly the nodes that need, through any number of inputs, a node whose mark's decision came before it and took another label; all others have outputs |
| BranchSkips.SkippedHasLost | crates/cuttlefish-host/src/runner.rs:747-785 | on every accepted graph, a node that a finished run skipped needs a label that was decided before it and not taken |
| BranchSkips.LostIsSkippedIfDecidedFirst | crates/cuttlefish-host/src/runner.rs:747-785 | where no node needs two labels: skipped if and only if a needed label was lost and its decision came before the node |
| BranchSkips.WaitingTargetsSkipExactly | crates/cuttlefish-host/src/runner.rs:747-785 | when every target has its own label only and needs its decision's output, exactly the nodes needing a label not taken, however many decisions meet at a node |
| BranchSkips.RouteAcceptedExactly | crates/cuttlefish-host/src/runner.rs:902-971 | when every target has its own label only, an answer is accepted exactly when it names a declared label or none is declared |
| BranchSkips.DecisionTakesALabel | crates/cuttlefish-host/src/runner.rs:902-971 | then a decision that ran and is not a fan-out node took one of its declared labels |
| BranchSkips.RecordedRouteIsDeclared | crates/cuttlefish-host/src/runner.rs:902-971 | and so does every row that a history can leave for it |
| Witnesses.TargetRunsBeforeItsDecision | crates/cuttlefish-host/src/runner.rs:747-785 | an accepted graph and a finished run in which a target of the label not taken has an output |
| Witnesses.DeclaredAnswerRefused | crates/cuttlefish-host/src/runner.rs:902-971 | an accepted graph whose decision answers a declared label and whose job fails |
| Witnesses.InnerDecisionIsIgnored | crates/cuttlefish-host/src/dag.rs:545-599 | an accepted graph with a decision inside another's branch, whose labels all vanish: any answer is accepted, and in a finished run the target of the label not taken has an output |
| Replay.IssueOrReplay | blocks/rhai-interpreter/src/lib.rs:123-153 | a call is served from the log exactly when it is the logged one at its index; otherwise it suspends and leaves a request or a divergence pending |
| Replay.RhaiBlock.Run | blocks/rhai-interpreter/src/lib.rs:184-759 | a run that comes to an end does as `RunOf` says, with the number of answers it was served |
| Replay.RhaiBlock.Step | blocks/rhai-interpreter/src/lib.rs:807-858 | the answer is logged with the command in flight and the script re-run; an event no script call produces fails |
| Replay.AnswerExactly | blocks/rhai-interpreter/src/lib.rs:821-853 | which field of the answer a script sees carries which part of the event, and that no other field is there |
| Replay.VerdictExactly | blocks/rhai-interpreter/src/lib.rs:712-758 | however a re-run of any script behaves, it ends with a result exactly when it made the logged calls in order, used the whole log and then ended so |
| Replay.ReplayExactly | blocks/rhai-interpreter/src/lib.rs:20-55 | for every script: no host can tell replay from running it once, exactly when the script settles after a suspended call |
| Replay.UncaughtSettles | blocks/rhai-interpreter/src/lib.rs:42-55 | a script that lets the suspend error through settles, and each run of it ends |
| Replay.UncaughtExactly | blocks/rhai-interpreter/src/lib.rs:123-153 | on any log whatever, such a script does next what it does when run once, if the log retraces it, and is otherwise reported as nondeterministic |
| Replay.CatchingDiverges | blocks/rhai-interpreter/src/lib.rs:42-55 | a script that catches it asks for the wrong thing and is then reported as nondeterministic |
| Replay.RetryingIsSilent | blocks/rhai-interpreter/src/lib.rs:42-55 | a script that retries in a loop what it catches never gets as far as asking |
| Replay.PollingIsReplayed | blocks/rhai-interpreter/src/lib.rs:20-40 | a script that asks until it likes the answer can make any number of calls, and no host can tell its replay from running it once |
| Replay.Drive | blocks/rhai-interpreter/src/lib.rs:765-858 | with any host that the script run once comes to an end with, the whole conversation ends as the direct one, with the direct trace as its log, never as a divergence, having served 1 + 2 + ... + n answers |
| Replay.TriangleIs | blocks/rhai-interpreter/src/lib.rs:33-34 | that is n(n+1)/2 |
| EditDistance.Levenshtein | crates/cuttlefish-host/src/catalog.rs:332-348 | the two row buffers end with the recursive distance |
| EditDistance.DistanceExactly | crates/cuttlefish-host/src/catalog.rs:332-348 | the distance is the least number of single-character insertions, deletions and replacements |
| EditDistance.DistanceIsAMetric | crates/cuttlefish-host/src/catalog.rs:332-348 | zero exactly on equal strings, symmetric, triangle inequality |
| Suggestions.PickDidYouMean | crates/cuttlefish-host/src/catalog.rs:354-388 | at most five offers, each within distance two and the newest of its name, by distance then age then name, and every offer left out comes after five that are in |
| Suggestions.NoCloserLeftOut | crates/cuttlefish-host/src/catalog.rs:354-388 | a close name not offered in any version has five offered names at least as close |
| Catalog.Transact | crates/cuttlefish-host/src/catalog.rs:823-853 | adding and removing on the in-memory copy, each refusal included |
| Catalog.AddSucceedsExactly | crates/cuttlefish-host/src/catalog.rs:823-853 | after any transactions an add succeeds exactly when the name is not published and every add of it that ever succeeded was of the same content |
| Catalog.EntryExactly | crates/cuttlefish-host/src/catalog.rs:823-853 | after any transactions a name has an entry if and only if the latest that took effect on it was an add, and the entry carries that add's kind, signature, time and hash |
| Catalog.ClaimsNeverChange | crates/cuttlefish-host/src/catalog.rs:828-843 | once a name@version stands for a content, it does after any further adds and removes |
| CatalogRuns.Linearizable | crates/cuttlefish-host/src/catalog.rs:465-490 | under every interleaving of writers and crashes the visible index is never torn and is the fold of the calls that took effect, each report is the one that order gives, a returned call took effect once, entries and retired stay disjoint |
| CatalogRuns.ReturnedComesFirst | crates/cuttlefish-host/src/catalog.rs:465-490 | and that order is the order of real time: a call that had returned before another began comes before it |
| CatalogRuns.PublishedNeverChanges | crates/cuttlefish-host/src/catalog.rs:823-853 | what a name@version stood for at any time of any run it stands for at every later time |
| CatalogRuns.EveryEntryHasItsBlob | crates/cuttlefish-host/src/catalog.rs:675-703 | every entry a reader finds has a blob with the entry's hash |
| CatalogRuns.AddedIsReadBack | crates/cuttlefish-host/src/catalog.rs:888-897 | the bytes any successful call added under a name are the bytes read back under it at any later time, when no two contents added in the run share a digest |
| CatalogRuns.RunHasADigest | crates/cuttlefish-host/src/catalog.rs:465-490 | every run of fewer than 16^64 steps has a digest into 64 hex digits that tells its contents apart |
| Lexer.Lex | crates/cuttlefish-core/src/lex.rs:122-256 | the tokens, or the first mistake, each with the exact line and column it starts at |
| LexGrammar.LexesExactly | crates/cuttlefish-core/src/lex.rs:122-256 | a text lexes to tokens if and only if white space, comments and those tokens, each spelled as its kind is and each word as long as it can be, cover it from beginning to end |
| Spans.SpanExactly | crates/cuttlefish-core/src/lex.rs:124-143 | the line is one more than the line breaks before, the column one more than the characters since the last of them |
| Spans.MistakeStands | crates/cuttlefish-core/src/lex.rs:122-256 | what stands where a mistake is reported: a character no token begins with, the quote of a string without an end, or an unknown escape |
| Spans.SpelledReads | crates/cuttlefish-core/src/lex.rs:175-215 | a string written with any choice of escapes reads as what it spells |
| Spans.ReadWasSpelled | crates/cuttlefish-core/src/lex.rs:175-215 | and every string that is read was written so |
| SpecText.WrittenReadsBack | crates/cuttlefish-core/src/lex.rs:122-256 | tokens written with white space or comments between them, strings of any content included, lex back to the same tokens |
| SpecText.ReadsBackExactly | crates/cuttlefish-core/src/lex.rs:122-256 | tokens laid out with gaps lex back to themselves exactly when no word is directly followed by a word character |
| SpecText.CommentRunsIntoWord | crates/cuttlefish-core/src/lex.rs:222-234 | a comment written directly after a word becomes part of the word |
| ExprParser.GraphParser.InputExpr | crates/cuttlefish-core/src/graph.rs:462-507 | the cursor parser agrees with the specification on every token sequence and stops where it says |
| ExprGrammar.ParsesExactly | crates/cuttlefish-core/src/graph.rs:462-507 | the parser reads an expression, up to a position, if and only if the tokens up to there are a sentence of the grammar that stands for it; of members with one name the last one counts |
| ExprParser.ExpressionRoundTrip | crates/cuttlefish-core/src/graph.rs:462-507 | an expression written anywhere among tokens parses back, leaving exactly what follows |
| ExprParser.TextRoundTrip | crates/cuttlefish-core/src/graph.rs:462-507 | an expression written as text lexes and parses back to itself |
| Chains.IsSimpleChain | crates/cuttlefish-core/src/graph.rs:149-192 | the loops decide exactly: no decisions, every entry linked to the one before, no name read twice |
| Chains.DistinctStrandIsSimple | crates/cuttlefish-core/src/graph.rs:179-192 | with distinct names the tally is redundant, as the comment there claims |
| Chains.TallyExactly | crates/cuttlefish-core/src/graph.rs:179-192 | after the position check the tally fails exactly when two entries before the last share a name |
| Chains.TallyCanFail | crates/cuttlefish-core/src/graph.rs:179-192 | three entries on which it does |
| Chains.ChainOrder | crates/cuttlefish-host/src/dag.rs:355-420 | a chain with distinct names sorts, and only, into declaration order |
| Chains.CheckPipeline | crates/cuttlefish-host/src/pipeline.rs:166-197 | accepts exactly the nonempty pipelines whose stages can be read and take what the one before produces; an error is that of the first stage that does not |
| Chains.CheckersAgree | crates/cuttlefish-host/src/pipeline.rs:166-197 | on chains with distinct names the linear check and the graph check accept the same |
| Chains.CheckedAsStages | crates/cuttlefish-host/src/dag.rs:221-265 | and an accepted chain runs its stages in order with the same signatures |
| Bundle.Build | crates/cuttlefish-host/src/bundle.rs:46-82 | the container: header, manifest with running offsets, stage bytes |
| Bundle.ManifestNamesStages | crates/cuttlefish-host/src/bundle.rs:46-82 | the manifest that is read back names one node for each stage, in order, with its name, kind, signature and resolution |
| Bundle.BuiltIsAccepted | crates/cuttlefish-host/src/catalog.rs:520-588 | the reader accepts what the builder writes and finds the pipeline's signature |
| Bundle.NodesFound | crates/cuttlefish-host/src/bundle.rs:31-42 | each node's bytes are where header, manifest length and offset say, whatever they are, nested bundles included |
| Bundle.ReadSignature | crates/cuttlefish-host/src/catalog.rs:520-588 | accepts exactly containers that open, whose nodes all lie in the body and which record a signature |
| Bundle.AcceptedNodesInside | crates/cuttlefish-host/src/catalog.rs:549-578 | in any accepted container every node lies inside, no sum overflowing |
| Bundle.BuildAndRead | crates/cuttlefish-host/src/bundle.rs:46-82 | building and reading in one: the signature is the pipeline's and every stage's bytes are found |
| Fingerprint.StreamTellsParts | crates/cuttlefish-host/src/dag.rs:345-349 | length-prefixed parts can be told apart from the hashed stream alone |
| Fingerprint.GraphFingerprint | crates/cuttlefish-host/src/dag.rs:273-300 | the loop feeds the hasher four length-prefixed parts for each node in order |
| Fingerprint.FingerprintExactly | crates/cuttlefish-host/src/dag.rs:273-300 | one fingerprint exactly when the nodes look the same one by one (name, printed signature, manifest, printed policy), or the digest itself collides on the two streams |
| Fingerprint.InputsAreNotFingerprinted | crates/cuttlefish-host/src/dag.rs:268-300 | changing what feeds a node or its loop bound leaves the fingerprint as it was |
| Utf8.ValidExactly | crates/cuttlefish-host/src/handles.rs:221-224 | the well-formed byte sequences of RFC 3629 section 4 are exactly the encodings of section 3 |
| Windows.Handles.Open | crates/cuttlefish-host/src/handles.rs:83-106 | a new handle was never open before, and the others stay as they were |
| Windows.Handles.ReadAll | crates/cuttlefish-host/src/handles.rs:137-151 | the whole file of an open handle, or that it is none |
| Windows.Handles.Slice | crates/cuttlefish-host/src/handles.rs:196-236 | a window cut back to whole characters, or which error |
| Windows.WindowExactly | crates/cuttlefish-host/src/handles.rs:196-236 | a window past the end is refused; any other holds the longest valid text it covers and says where that ends, or is too small exactly when there is none |
| Windows.WalkFile | crates/cuttlefish-host/src/handles.rs:184-236 | a client's loop over an open file returns the walk's texts, or its first error |
| Windows.WalkExactly | crates/cuttlefish-host/src/handles.rs:184-236 | a walk resuming where windows end gets through exactly the valid files with no character longer than the window; its texts are whole characters and concatenate to the file |
| Windows.FourBytesSuffice | crates/cuttlefish-host/src/handles.rs:184-236 | with windows of four bytes or more, exactly the valid files |
| Windows.WindowsNeeded | crates/cuttlefish-host/src/handles.rs:184-236 | and at most n / (w - 3) of them, rounded up |
| Windows.WindowMovesExactly | crates/cuttlefish-host/src/handles.rs:196-236 | before the end, a window moves on exactly when the character at its start is whole, well formed and fits; is reported as too small exactly when it does not and bytes were asked for; and stalls without an error exactly when none were |
| Windows.ReadWorkbook | blocks/sheet-extract/src/lib.rs:105-166 | the client loop reassembles the file, in n / WINDOW requests rounded up, and one for an empty file |
| Tar.TarEntries | blocks/rhai-interpreter/src/archive.rs:33-82 | the listing loop on any bytes and any address width |
| TarListing.ListingExactly | blocks/rhai-interpreter/src/archive.rs:33-82 | what any bytes list as, if and only if: the entries their headers spell, each header where the entry before it ends padded, up to a zero block or the end; or the address of the first header that cannot be listed; or an overflow |
| TarListing.HeaderExactly | blocks/rhai-interpreter/src/archive.rs:41-68 | what a header says: magic, name up to the first NUL, octal size, time or zero, the kind flags |
| TarListing.LeadingDigitWeighs | blocks/rhai-interpreter/src/archive.rs:193-200 | an octal digit weighs eight times what it would one place further on |
| Tar.ContentsApartExactly | blocks/rhai-interpreter/src/archive.rs:70-79 | entries come in increasing order, and an entry's contents end before the next header exactly when its padded size is an address |
| Tar.WideEnoughNeverTraps | blocks/rhai-interpreter/src/archive.rs:33-82 | with wide addresses the listing never overflows and contents are always apart |
| Tar.OverflowsExactly | blocks/rhai-interpreter/src/archive.rs:38-79 | at an entry with no header after it the unchecked addition overflows exactly when the entry ends less than a block below the highest address; refused and listed likewise |
| TarRoundTrip.ArchiveListsExactly | blocks/rhai-interpreter/src/archive.rs:33-82 | an archive of any members lists them in order, with offsets that slice out their contents, unless less than a block of addresses is left after the last member, and then it overflows |
| TarRoundTrip.HeaderOfDescribes | blocks/rhai-interpreter/src/archive.rs:187-200 | every name of at most 100 bytes and size and time below 8^11 has a header that reads back |
| TarRoundTrip.ThirtyTwoBitsTrap | blocks/rhai-interpreter/src/archive.rs:38-79 | a well-formed header of size 2^32 - 1024 makes a 32-bit guest overflow, whatever follows it |
| Exif.Exif | blocks/rhai-interpreter/src/image_meta.rs:190-220 | the pointer queue loop, which ends on every pointer graph |
| Exif.ExifReadsExactly | blocks/rhai-interpreter/src/image_meta.rs:190-220 | at most nine directories are read, each once, only reachable ones, and all of those when the walk succeeds on fewer than nine |
| Exif.ExifFindsFirst | blocks/rhai-interpreter/src/image_meta.rs:190-225 | a key's value is the first one reported for it in reading order, and a key is there exactly when some directory read reports it; an error is that of the first directory that cannot be read |
| Exif.LastPointerNext | blocks/rhai-interpreter/src/image_meta.rs:190-220 | the reading order: after a directory the last directory it points at that was not read yet |

## Left out

- CrashResume.ResumedEqualsUninterrupted: the oracle answers the same when asked the same again, the manifest files stay as they are, and the resumed job has the same checked graph; without these the claim is false of any design that re-runs unfinished work.
- Manifests.UsableItemsExactly: a manifest's lines come as blank, holding a JSON value, or malformed with a message; reading UTF-8 and JSON is not modelled.
- CrashResume.CancelledWritesPrefix: cancellation is a block answering that it was cancelled or a run cut between two writes, not a token polled at particular lines.
- Ladder.RunAttempt: the schema and judge checks are one oracle asked after the type check, so a schema that does not compile is an objection like any other; messages are abbreviated.
- Soundness.AcceptedGraphsDoNotGoWrong: an entry node's input is the job's own, which nothing checks against the declared type, so nothing is claimed of it.
- TypeCodec.TypeRoundTripExactly: field names with brackets are outside the equivalence, because an unbalanced bracket changes what the rest of the text means.
- Exclusivity.ExclusivityExactly: says when the check fails only where targets are alone and no node depends on two decisions; `Exclusivity.MarksExactly` has no such condition.
- BranchSkips.LostIsSkippedIfDecidedFirst: nodes that need two labels are outside it; `BranchSkips.SkipsExactly` covers them by their marks.
- SpecText.ReadsBackExactly: a word `/` written directly before another slash begins a comment and is outside it.
- Replay.ReplayExactly: what a script does between two host calls ends, and converting an answer to a script value never fails. A call is its function's name and its arguments.
- Replay.RhaiBlock.Run: like the other methods that run a script, it asks that this run of it comes to an end; the lemmas cover runs that do not.
- TypeCodec.PrefixRefused: field names with a bracket are outside it because it is false of them; colons and white space at the ends of names are left out.
- CatalogRuns.Linearizable: file-system errors, an index edited by hand, `validate_name_version` and the timestamps' order are not part of it; a process that crashes leaves its files as they are.
- Suggestions.PickDidYouMean: the library's stable sort is a function, and timestamps are compared as the strings they are.
- Lexer.Lex: which characters are letters is a parameter; the line and column counters do not overflow.
- ExprParser.GraphParser.InputExpr: the other productions of the graph parser (node bodies, ladders, branches, accept checks) are not modelled, and error texts are reduced to what was expected and where.
- Bundle.BuiltIsAccepted: a pipeline whose container has 2^64 bytes or more is excluded.
- Tar.TarEntries: an entry's name is the bytes before its NUL; trimming and lossy decoding of names, and white space outside ASCII around a number, are not modelled.
- Exif.Exif: reading one directory is a function of its offset, so the byte order, the entry formats and locating the TIFF header are not modelled.
- Fingerprint.FingerprintExactly: the digest and the printed policy are parameters, and the policy text is not claimed to separate all policies; paths are texts in UTF-8, and lengths are below 2^64.
- GraphCheck.CheckGraph: block kinds, paths, module bytes and script texts are carried along by the source and do not matter to the check; the producer's description in a mismatch is reduced to a name.
- SQLite, `drained_at`, `mark_drained`, the escalation listing and the job's progress events: rows are a map, and these columns never decide what runs.
- The warehouse and Parquet output: builder calls after a run.
- Handle numbers and usage counters as 32-bit integers: unbounded here.
- `Catalog::resolve`, `list`, `show` and name validation: straight lookups and checks.
- The ZIP, gzip, PNG and JPEG readers: no harder than the tar listing, or library calls.
- The daemon's HTTP routes, the CLI, wasmtime, model backends and the network: not part of this model.
