# Verified model of the collaboration platform's workflow core

This project models five parts of the platform's server and client and proves properties of them
for all inputs and all runs. `dafny verify dfyconfig.toml` checks everything.

**Approval workflow engine.** A user draws a graph of nodes and edges. The server orders it by
depth-first search (`WorkflowOrder`; `TopologicalOrder` and `TopologicalListing` say when that
order is topological), parses it into runtime nodes and walks it: conditions branch on form data,
approvals stop the walk, an `end` finishes it (`WorkflowRuntime`, `ApprovalPlans`). Each action on
an instance is persisted with a row of the action log (`Approval`), after a table derived from the
definition may have overwritten the status (`BusinessMapping`). `WorkflowWalk` states the bounded
walk by the unbounded successor walk; `WorkflowBranches` says which way the walk goes and
`ApprovalActions` what one action does and when it is accepted, both from the definition and the
request alone; `ApprovalRuns` has the invariant of every reachable instance; `ApprovalStatus` says
what the mapping table can change, and exactly when an instance is left pending without a current
node or finished with a running one; `LegacyRefinement` proves that the older step counter and the
graph engine agree on every single path.

**Scheduler.** `Cron` has the five-field matcher and the minute-by-minute search for the next run,
`CronText` what a field means as it is written; `Scheduler` the tick, the handlers that touch the
same table, the times they write, and bounded waiting.

**Hierarchies.** `MenuTable` has the menu edits and the recursive query that guards them,
`MenuTree` the menu page's tree and parent picker, `CategoryTree` the recursive category tree,
`AuthMenuTree` the value-copying tree of the signed-in user; `ParentTree` is what they share.

**Spreadsheet grid.** `Spreadsheet` writes a grid as worksheet cells and reads it back; columns are
labelled as in the `c` element of ECMA-376 Part 1, section 18.3.1.4.

**Chat.** `ChatHub` has the two-way index between rooms and clients and the delivery through it,
`ReadCounters` the unread and read counts.

The methods and classes follow the code statement by statement and are proved against
specification functions; the lemmas say what those functions mean for the data. Several invariants that one would
expect are false of the code. The code is modelled as it is, and the failure and its exact
condition are lemmas:

- a depth-first order need not be topological (a diamond's never is, `DiamondIsNeverTopological`;
  a merge's depends on the drawing, `MergeOrderIff`; exactly when it is, as listed:
  `TopologicalIff`, and for every listing: `AlwaysTopologicalIff`);
- an instance that is no longer pending can keep a running node (`RejectedKeepsRunning`,
  `EditedKeepsRunning`; exactly when: `FinishedRunningIff`);
- a pending instance can be left without a current node, by an action (`DeadEndStrands`,
  `StrandedIff`) or on submission (`LoneStartStrands`, `SubmitStrandedIff`); from then on the step
  counter acts on it (`StrandedIsCounted`);
- the mapping table can change the status chosen at an end node (`OverwrittenAtEnd`; exactly when:
  `MappingChangesOnlyEnds`);
- a step part ends the search of a cron list (`StepHidesLiteral`; exactly when that matters:
  `ListIsUnionIff`);
- the tree of the signed-in user loses rows (`ThirdLevelIsLost`; exactly when:
  `EveryRowOnceIffChildrenFirst`).

A returned error is a transaction rolled back: the state does not change.

## Model

| member | source | states |
|---|---|---|
| `WorkflowOrder.OrderNodes` | backend/internal/modules/collaboration/workflow_engine.go:131-198 | the whole ordering computes `OrderedNodes`, whose properties are the rows below |
| `WorkflowOrder.Traversal.Visit` | backend/internal/modules/collaboration/workflow_engine.go:175-189 | the recursive closure terminates on any edges, cycles included, and extends the shared list and visited set by exactly the preorder from that id |
| `WorkflowOrder.Traversal.VisitAll` | backend/internal/modules/collaboration/workflow_engine.go:186-196 | visiting a list of ids one after the other is the preorder of the whole list |
| `WorkflowOrder.IndexEdges` | backend/internal/modules/collaboration/workflow_engine.go:147-156 | the outgoing map lists the targets of the known edges in edge order, the incoming map counts known edges into each node |
| `WorkflowOrder.CollectStarts` | backend/internal/modules/collaboration/workflow_engine.go:158-171 | the two loops and the fallback compute `StartIds`, whose order is the next row |
| `WorkflowOrder.StartsListed` | backend/internal/modules/collaboration/workflow_engine.go:158-171 | the start ids are the nodes of type start as they are listed, then as they are listed the nodes no known edge enters, each identity once; the first node only if there are neither |
| `WorkflowOrder.PreorderIsReachability` | backend/internal/modules/collaboration/workflow_engine.go:173-193 | the traversal lists an id if and only if a path of known edges leads to it from the start list |
| `WorkflowOrder.OrderedIdsComplete` | backend/internal/modules/collaboration/workflow_engine.go:191-198 | every identity is listed exactly once, whatever the edges |
| `WorkflowOrder.OrderIsPermutation` | backend/internal/modules/collaboration/workflow_engine.go:131-198 | with distinct identities the result is a permutation of the drawn nodes |
| `WorkflowOrder.ReachableFirst` | backend/internal/modules/collaboration/workflow_engine.go:191-196 | the ids reachable from the start ids are exactly a prefix of the order |
| `TopologicalOrder.AcyclicStarts` | backend/internal/modules/collaboration/workflow_engine.go:158-171 | on an acyclic graph the fallback to the first node is never taken |
| `TopologicalOrder.StartsReachAll` | backend/internal/modules/collaboration/workflow_engine.go:158-193 | on an acyclic graph the start ids reach every node |
| `TopologicalOrder.TreeLikeOrderIsTopological` | backend/internal/modules/collaboration/workflow_engine.go:131-198 | acyclic, at most one source for each node and none for a start: every edge's source precedes its target |
| `TopologicalOrder.LaterSourceIsBelow` | backend/internal/modules/collaboration/workflow_engine.go:173-193 | in a topological order, of two sources of one node the later one is reached by a target of the earlier one that is drawn before the node |
| `TopologicalOrder.TwoIndependentSources` | backend/internal/modules/collaboration/workflow_engine.go:131-198 | a node with two sources, neither reachable from the other, makes the order go backwards however nodes and edges are listed |
| `TopologicalOrder.TopologicalIsAcyclic` | backend/internal/modules/collaboration/workflow_engine.go:131-198 | on a graph with a cycle the order is never topological |
| `TopologicalOrder.AlwaysTopologicalIff` | backend/internal/modules/collaboration/workflow_engine.go:131-198 | the exact condition: the order is topological for every listing of the same nodes and edges if and only if the graph is acyclic, no node has two sources, and no edge leads to a start node |
| `TopologicalListing.ListedBy` | backend/internal/modules/collaboration/workflow_engine.go:173-196 | whatever is listed was taken from the start ids, right after what those before it list, or from the targets of a listed node, right after what the targets before it list |
| `TopologicalListing.TopologicalIff` | backend/internal/modules/collaboration/workflow_engine.go:131-198 | the exact condition for one listing: the order is topological if and only if the graph is acyclic, of any two sources of a node one has a target drawn before the node that reaches the other, and the source of an edge into a start id is reached by a start id before it |
| `TopologicalOrder.DiamondIsNeverTopological` | backend/internal/modules/collaboration/workflow_engine.go:131-198 | a diamond is ordered against one of its edges in every listing |
| `TopologicalOrder.MergeOrderIff` | backend/internal/modules/collaboration/workflow_engine.go:131-198 | a merge of three nodes is ordered topologically if and only if the edge to the middle node is drawn before the direct one |
| `WorkflowRuntime.ParseGraph` | backend/internal/modules/collaboration/workflow_runtime.go:200-252 | parsing a definition, the default one included, yields `ParsedGraph` |
| `WorkflowRuntime.NumberNodes` | backend/internal/modules/collaboration/workflow_runtime.go:209-227 | approvals are numbered in order from zero, all other nodes get step -1 |
| `WorkflowRuntime.ConnectEdges` | backend/internal/modules/collaboration/workflow_runtime.go:233-241 | edges between identities become edges between keys, unknown ends are dropped |
| `WorkflowRuntime.ConnectChain` | backend/internal/modules/collaboration/workflow_runtime.go:242-246 | without edges each node leads to the next |
| `WorkflowRuntime.NodeIndex` | backend/internal/modules/collaboration/workflow_runtime.go:415-422 | the search finds the first node with the key, and fails exactly when there is none |
| `WorkflowRuntime.ConditionTarget` | backend/internal/modules/collaboration/workflow_runtime.go:283-294 | the loop over the conditions computes `ResolveCondition`, which the next two rows say without naming it |
| `WorkflowBranches.ChosenIsResolved` | backend/internal/modules/collaboration/workflow_runtime.go:283-294 | the target is that of the first condition that reads `default`, trimmed and ignoring case, or is not blank and holds in the form; the default target if and only if no condition does |
| `WorkflowBranches.WalkTakesBranch` | backend/internal/modules/collaboration/workflow_runtime.go:163-193 | at a condition node the walk goes to that target, or along the first edge when it is blank; at any node but conditions, approvals and ends along the first edge |
| `WorkflowBranches.FirstDrawnEdge` | backend/internal/modules/collaboration/workflow_runtime.go:229-241 | of the edges drawn from nodes that run under a key, by identity and between known nodes, the engine takes the first |
| `WorkflowBranches.NoDrawnEdge` | backend/internal/modules/collaboration/workflow_runtime.go:387-393 | where edges are drawn but none from a node, there is no first edge |
| `WorkflowRuntime.AdvancePlan` | backend/internal/modules/collaboration/workflow_runtime.go:134-198 | the loop computes `Advance` and enters its body at most (number of distinct keys + 1) times |
| `WalkTheory.ChaseIsWalk` | backend/internal/modules/collaboration/workflow_runtime.go:139-145 | a walk that remembers visited keys loops if and only if the unbounded walk never halts; otherwise it ends at the first halt having passed each key once |
| `WorkflowWalk.CycleIffNeverHalts` | backend/internal/modules/collaboration/workflow_runtime.go:134-198 | a cycle is reported if and only if the unbounded successor walk never meets an approval, an end, an unknown key or a dead end |
| `WorkflowWalk.PlanIsOutcomeAtFirstHalt` | backend/internal/modules/collaboration/workflow_runtime.go:134-198 | otherwise the plan is decided by the key where the unbounded walk first halts, within as many steps as there are keys, the nodes passed being approved |
| `WorkflowBranches.WalkMarks` | backend/internal/modules/collaboration/workflow_runtime.go:152-193 | the statuses a walk leaves: APPROVED on the nodes it passed; where it halted RUNNING at an approval, and at an end REJECTED if that is the status decided there, else APPROVED; every other node keeps its own |
| `ApprovalPlans.BuildStartPlan` | backend/internal/modules/collaboration/workflow_runtime.go:75-94 | the search for the start node and the walk compute `StartPlan`; what it means is the next two rows |
| `ApprovalActions.SubmissionFollows` | backend/internal/modules/collaboration/workflow_runtime.go:75-94 | a submitted request walks from the first node of type start, else from the first node; the approval where the walk halts, if any, is the current node; status and step are those of the node where it halts; there is no business status and no log yet |
| `ApprovalActions.SubmissionAcceptedIff` | backend/internal/modules/collaboration/handler.go:535-557 | a request can be submitted if and only if the node keys are distinct and that walk halts at a dead end, an end or an approval |
| `ApprovalActions.EmptyWorkflowApproves` | backend/internal/modules/collaboration/workflow_runtime.go:200-208 | a workflow without nodes is a start and an end: a request under it is approved on submission |
| `ApprovalPlans.FindAction` | backend/internal/modules/collaboration/workflow_runtime.go:265-281 | the first configured action with the code, ignoring case; the built-in ones only when a node configures none |
| `ApprovalActions.SelectsIff` | backend/internal/modules/collaboration/workflow_runtime.go:265-281 | the action resolved for APPROVE or REJECT is the first configured one with that code, ignoring case, or, at a node that configures none, one without target or comment whose status is PENDING, REJECTED for REJECT |
| `ApprovalPlans.MergeStatuses` | backend/internal/modules/collaboration/workflow_runtime.go:401-413 | the two loops compute `Merged` |
| `ApprovalPlans.MergedTakesLast` | backend/internal/modules/collaboration/workflow_runtime.go:401-413 | a node gets the status of the last row stored under its key, unless that one is empty; one without a row keeps its own; nothing else of it changes |
| `ApprovalPlans.MergeRestores` | backend/internal/modules/collaboration/workflow_runtime.go:401-413 | with distinct keys, parsing the definition again and merging the stored statuses gives the stored nodes back |
| `ApprovalPlans.BuildActionPlan` | backend/internal/modules/collaboration/workflow_runtime.go:96-132 | the checks and the walk compute `ActionPlan`; which action, target and refusal that means is the next four rows |
| `ApprovalActions.ActionFollows` | backend/internal/modules/collaboration/workflow_runtime.go:96-132 | every accepted action selects an action of the current node, walks on from its target, or from the first edge when it has none, and makes the approval where the walk halts, if any, the current node; the node left is REJECTED by REJECT or an action that rejects, else APPROVED, unless the walk comes back to it |
| `ApprovalActions.TargetBeatsEdge` | backend/internal/modules/collaboration/workflow_runtime.go:123-126 | an approval whose rejection is configured to lead to an end while its first edge leads to another approval: rejecting it ends the instance REJECTED without a current node |
| `ApprovalActions.ActionAcceptedIff` | backend/internal/modules/collaboration/approval_runtime_handler.go:76-136 | an action on the current node is accepted if and only if the actor matches, it selects an action whose required comment is given, the walk from its target halts at a dead end, an end or an approval, and the adapter does not refuse a business status it is given |
| `ApprovalActions.RefusalReasons` | backend/internal/modules/collaboration/approval_runtime_handler.go:76-95 | an actor that does not match, an action the node does not have and a missing comment are refused in that order, each with its own error |
| `ApprovalPlans.AdvanceStatuses` | backend/internal/modules/collaboration/workflow_runtime.go:134-198 | a walk changes no approval except the one it stops at, which becomes running; no other node ever runs |
| `Approval.InsertNodeRows` | backend/internal/modules/collaboration/approval_runtime_store.go:10-26 | all rows are inserted, in order, if and only if their keys are distinct |
| `Approval.UpdateNodeRows` | backend/internal/modules/collaboration/approval_runtime_store.go:57-70 | the updates by key, one after the other |
| `ApprovalRuns.UpdateRowsRoundTrip` | backend/internal/modules/collaboration/approval_runtime_store.go:28-70 | with distinct keys, writing the statuses of a plan and reading the rows back gives the plan's nodes |
| `Approval.Submit` | backend/internal/modules/collaboration/handler.go:513-557 | a missing title, a missing workflow and one that is not available are refused in that order; then submitting fails exactly as `Submitted` does, else creates an instance in its state |
| `Approval.LoadSteps` | backend/internal/modules/collaboration/workflow_engine.go:48-92 | the older engine's steps are the approvals of the ordered definition |
| `Approval.ApprovalInstance.Persist` | backend/internal/modules/collaboration/approval_runtime_handler.go:118-136 | log row, node rows, business transition and instance row are written together as `AfterPlan` says, or nothing is; the values are the next three rows |
| `ApprovalActions.ActionWrites` | backend/internal/modules/collaboration/workflow_business_store.go:126-187 | after an accepted action the business status is the trimmed one of the loaded row, or without a row that of the end where the walk halted, else of the action; if that is blank it is what it was before. The status is the row's, else the end's final status or REJECTED or APPROVED, else the action's or PENDING; the step is that of the node where the walk halted, if it has one |
| `ApprovalActions.CounterDecides` | backend/internal/modules/collaboration/handler.go:646-687 | without a current node the step counter accepts an action unless the actor does not match the assignee of its step, and rejects, goes to the next step or after the last approves; it leaves business status and node rows alone |
| `ApprovalActions.RunBusiness` | backend/internal/modules/collaboration/workflow_business_store.go:160-167 | over every run the business status is the last one written that is not blank, the one before the run if there was none |
| `Approval.ApprovalInstance.ActOnNode` | backend/internal/modules/collaboration/approval_runtime_handler.go:76-147 | one action of the graph engine commits `RuntimeStep` or leaves the instance alone |
| `Approval.ApprovalInstance.ActOnCounter` | backend/internal/modules/collaboration/handler.go:646-687 | one action of the step counter commits `LegacyStep` or leaves the instance alone |
| `Approval.ApprovalInstance.Act` | backend/internal/modules/collaboration/handler.go:595-687 | the handler commits `Step`: only two actions, only on a pending instance, by the graph engine when the current key names a row |
| `ApprovalRuns.RuntimeStepWalks` | backend/internal/modules/collaboration/approval_runtime_handler.go:92-136 | a successful action leaves the current node with the outcome of the action, walks on from it, and appends one log row from the old to the new current key |
| `ApprovalRuns.StepKeepsInv` | backend/internal/modules/collaboration/handler.go:622-687 | every accepted action keeps the invariant of the next row |
| `ApprovalRuns.ReachableInstance` | backend/internal/modules/collaboration/approval_runtime_handler.go:92-136 | after every run on a graph as parsed: exactly the node named by the current key is running, and it is an approval; every approval's status is running, or the outcome of the last log row leaving it, or waiting; each row's target is the next row's source |
| `BusinessMapping.MappingsFromDefinition` | backend/internal/modules/collaboration/workflow_business_store.go:25-52 | one mapping for each action with a business status and for each end with one, in node order |
| `BusinessMapping.MappingTable.Sync` | backend/internal/modules/collaboration/workflow_business_store.go:54-72 | the rows of the workflow are replaced by upserting its mappings |
| `BusinessMapping.UpsertedRows` | backend/internal/modules/collaboration/workflow_business_store.go:54-72 | after a sync a row comes from a mapping or was there before; rows of other workflows are untouched |
| `BusinessMapping.CompleteRow` | backend/internal/modules/collaboration/workflow_business_store.go:41-49 | after a sync an end node with a business status has the row COMPLETE: its final status, APPROVED by default, and its trimmed business status |
| `BusinessMapping.ActionRow` | backend/internal/modules/collaboration/workflow_business_store.go:29-40 | of a node's actions with one code and a business status the last one has the row: its status, PENDING by default, and its trimmed business status |
| `BusinessMapping.OnlyConfiguredRows` | backend/internal/modules/collaboration/workflow_business_store.go:25-72 | the workflow has no row that no action and no end calls for |
| `BusinessMapping.LoadIsConfigured` | backend/internal/modules/collaboration/workflow_business_store.go:109-124 | with an unchanged definition, whichever row the case-insensitive query returns is the one the approval's action configures |
| `BusinessMapping.PlanStatus` | backend/internal/modules/collaboration/workflow_runtime.go:134-198 | a walk that ends at an end node gets that node's status and business status, any other keeps the preferred status and business status |
| `ApprovalStatus.MappingChangesOnlyEnds` | backend/internal/modules/collaboration/workflow_business_store.go:126-162 | with an unchanged definition, action codes distinct ignoring case and trimmed statuses, the derived table never changes the status or business status of a plan that stops at an approval or a dead end; at an end it changes the status exactly when the action carries a business status and prefers another status, and the business status exactly when action and end carry different ones |
| `ApprovalStatus.OverwrittenAtEnd` | backend/internal/modules/collaboration/workflow_business_store.go:142-147 | an approval whose action prefers PENDING, carries a business status and leads to an end, submitted and approved: the plan is APPROVED, the row derived from that very definition makes the instance PENDING without a current node |
| `ApprovalStatus.PendingHasRunningApproval` | backend/internal/modules/collaboration/handler.go:622-645 | if the workflow stays as submitted over the whole run, every node but an end has a successor, be it a configured target or an edge, no end decides PENDING and no action carries a business status, a pending instance always has a running approval |
| `ApprovalStatus.StepDecides` | backend/internal/modules/collaboration/workflow_business_store.go:138-150 | whatever mapping row is loaded, the plan gives the current node, and the row's status, if it has one, overrules the plan's |
| `ApprovalStatus.StrandedIff` | backend/internal/modules/collaboration/workflow_runtime.go:160-197 | whatever mapping row is loaded, an action leaves a pending instance without current node if and only if its walk halts at no approval and the decided status, the row's or else the plan's there, is PENDING |
| `ApprovalStatus.StrandedAsConfigured` | backend/internal/modules/collaboration/workflow_runtime.go:160-197 | while the workflow stays as submitted, its action codes distinct ignoring case and its statuses trimmed: if and only if the walk halts at a dead end or an end and PENDING is the status of the action, or of the end node when the action carries no business status |
| `ApprovalStatus.SubmitStrandedIff` | backend/internal/modules/collaboration/workflow_runtime.go:75-94 | submitting does so if and only if the start walk halts at a dead end, or at an end whose final status is PENDING; it never leaves a node running in an instance that is not pending |
| `ApprovalStatus.StrandedStep` | backend/internal/modules/collaboration/handler.go:646-687 | on such an instance the step counter decides: a request is refused only when the assignee does not match, a rejection is final, an approval is final at the last step and moves to the next one before it |
| `ApprovalStatus.StrandedIsCounted` | backend/internal/modules/collaboration/handler.go:646-687 | over runs of approvals by actors that match every step of one unchanged definition, it is approved by exactly as many approvals as its step is short of the number of steps, by a single one when there are none, and its node rows never change |
| `ApprovalStatus.DeadEndStrands` | backend/internal/modules/collaboration/workflow_runtime.go:195-197 | approving a lone approval leaves the instance pending without a current node |
| `ApprovalStatus.LoneStartStrands` | backend/internal/modules/collaboration/workflow_runtime.go:195-197 | so does submitting a lone start node |
| `ApprovalStatus.FinishedRunningIff` | backend/internal/modules/collaboration/workflow_runtime.go:118-160 | whatever mapping row is loaded, an action leaves a node running in an instance that is no longer pending if and only if its walk halts at an approval and the decided status, the row's or else the action's, is not PENDING; the instance then has that status and that approval runs |
| `ApprovalStatus.FinishedRunningAsConfigured` | backend/internal/modules/collaboration/workflow_runtime.go:118-160 | while the workflow stays as submitted, its action codes distinct ignoring case and its statuses trimmed: if and only if the walk halts at an approval and the action's own status, REJECTED by default for REJECT, is not PENDING |
| `ApprovalStatus.RejectedKeepsRunning` | backend/internal/modules/collaboration/workflow_runtime.go:123-131 | rejecting the first of two approvals in a row sets the second running in a rejected instance |
| `ApprovalStatus.EditedKeepsRunning` | backend/internal/modules/collaboration/handler.go:941-971 | two approvals in a row are submitted, then the workflow is edited so that its first action decides APPROVED: approving the first makes the instance APPROVED with the second running |
| `LegacyRefinement.EnginesAgreeOnPaths` | backend/internal/modules/collaboration/handler.go:660-670 | on every definition that is one path with an approval and no node configuration, however listed and drawn, submitting succeeds; and while the workflow stays as submitted, for every sequence of requests, both engines have the same status, and the same step except that after a rejection the graph engine has moved to the next approval, if any |
| `LegacyRefinement.StepAgrees` | backend/internal/modules/collaboration/handler.go:595-687 | while the workflow stays as submitted, each single request is refused by both engines with the same error, or accepted by both |
| `LegacyRefinement.PathSpecMakesGraph` | backend/internal/modules/collaboration/workflow_runtime.go:200-252 | such a definition is parsed into one path, and the older engine's steps are its approvals in order |
| `LegacyRefinement.PathOrder` | backend/internal/modules/collaboration/workflow_engine.go:131-198 | the depth-first order of a path is the path, in whatever order nodes and edges are listed |
| `LegacyRefinement.PathNeverStrands` | backend/internal/modules/collaboration/workflow_runtime.go:200-252 | a path meets the conditions of `PendingHasRunningApproval` |
| `LegacyRefinement.BackwardsPath` | backend/internal/modules/collaboration/workflow_runtime.go:200-252 | three nodes and their two edges are such a definition even when listed backwards |
| `LegacyRefinement.WalkAlongPath` | backend/internal/modules/collaboration/workflow_runtime.go:134-198 | a walk along a path succeeds and halts at the next approval or the end |
| `Cron.MatchField` | backend/internal/modules/scheduler/engine.go:319-375 | the loops over parts and steps match a field if and only if `FieldMatches` holds; what that says of a written field is the next six rows |
| `CronText.NumberMatches` | backend/internal/modules/scheduler/engine.go:353-360 | the field a, for every number a written in digits, matches exactly the value a |
| `CronText.RangeMatches` | backend/internal/modules/scheduler/engine.go:344-368 | a-b matches exactly the values from a to b |
| `CronText.StarStepMatches` | backend/internal/modules/scheduler/engine.go:330-369 | a step s over all values matches exactly the multiples of s; a step of zero, or one that no 64-bit integer holds, is ignored |
| `CronText.FromStepMatches` | backend/internal/modules/scheduler/engine.go:330-369 | a/s matches exactly the values a, a + s, a + 2s and so on, up to 59 |
| `CronText.RangeStepMatches` | backend/internal/modules/scheduler/engine.go:330-369 | a-b/s matches exactly every s-th value from a to b |
| `CronText.ListMatches` | backend/internal/modules/scheduler/engine.go:325-374 | a comma list of numbers and ranges matches exactly the union of what they say |
| `Cron.StepReaches` | backend/internal/modules/scheduler/engine.go:361-368 | counting from start by step meets the value if and only if start <= value <= end and step divides value - start, without overflow |
| `Cron.MatchStep` | backend/internal/modules/scheduler/engine.go:338-369 | a step part, its guessed upper bound included, matches exactly as `PartMatches` says: the end is the one given, 59 when none is |
| `Cron.LastStepIsUnion` | backend/internal/modules/scheduler/engine.go:319-375 | a list whose only step part is last matches exactly the union of its parts |
| `Cron.ListReadsFirstParts` | backend/internal/modules/scheduler/engine.go:325-374 | a list matches exactly the union of its parts through the first step part |
| `Cron.ListIsUnionIff` | backend/internal/modules/scheduler/engine.go:325-374 | it matches the union of all its parts, for every value 0..59, if and only if what the parts after the first step part match is matched by the parts through it |
| `Cron.StepHidesLiteral` | backend/internal/modules/scheduler/engine.go:356-369 | every list of a step over all values and then a number its step does not divide misses that number |
| `Cron.NextCronTime` | backend/internal/modules/scheduler/engine.go:280-317 | the search computes `NextRun` |
| `CronText.FieldsOfWords` | backend/internal/modules/scheduler/engine.go:286-290 | words separated by spaces are the fields of an expression, in order |
| `Cron.NextRunIsLater` | backend/internal/modules/scheduler/engine.go:280-317 | the next run is strictly after its argument |
| `Cron.NextRunIsLeast` | backend/internal/modules/scheduler/engine.go:286-316 | with five fields it is the start of the least later minute matching all five, day of month and day of week both required, within 525600 minutes; and a day later exactly when there is none or a field is missing |
| `Scheduler.Engine.SelectDue` | backend/internal/modules/scheduler/engine.go:80-85 | the query of a tick returns a `Selection`; what that means is the next row |
| `Scheduler.SelectionMeans` | backend/internal/modules/scheduler/engine.go:80-85 | rows that are enabled and due, at most ten, in the order of their next run, all of them if they are fewer than ten, and none later than one that is left |
| `Scheduler.Engine.RunOne` | backend/internal/modules/scheduler/engine.go:115-155 | one row gets an execution, its last run becomes now and its next run the start of the first minute after now that all five fields of its expression match, within 525600 minutes, else a day from now; expression and enabled stay, no other row changes |
| `Scheduler.NextTimeIs` | backend/internal/modules/scheduler/engine.go:280-317 | `NextRun` is that time, and the only one: spelled out by the five fields in their order, the first minute, and the day |
| `Scheduler.Engine.Tick` | backend/internal/modules/scheduler/engine.go:74-112 | exactly the selected rows run, each once, in the selected order, and each gets the times of its own expression |
| `Scheduler.Engine.RunTask` | backend/internal/modules/scheduler/handler.go:170-230 | running by hand does to the row what a tick does, whether it is due or not |
| `Scheduler.Engine.CreateTask` | backend/internal/modules/scheduler/handler.go:102-121 | a new row is enabled and has no next run; a nameless one is refused |
| `Scheduler.Engine.UpdateTask` | backend/internal/modules/scheduler/handler.go:123-142 | editing leaves the next run as it was |
| `Scheduler.Engine.DeleteTask` | backend/internal/modules/scheduler/handler.go:144-156 | only that row goes |
| `Scheduler.LastRunDecides` | backend/internal/modules/scheduler/handler.go:102-230 | over every sequence of events, a row that was not run or deleted since its last run still has the times that run gave it, by the expression it had then, edits included |
| `Scheduler.TimesStayInOrder` | backend/internal/modules/scheduler/handler.go:102-230 | from an empty table on, a row has a next run if and only if it has run, and then a later one |
| `Scheduler.WaitingStep` | backend/internal/modules/scheduler/engine.go:74-155 | an event that neither runs nor deletes a due row leaves it due, lets no other row overtake it, and, if a tick, takes ten rows from ahead of it |
| `Scheduler.BoundedWaiting` | backend/internal/modules/scheduler/engine.go:74-155 | a due row with m rows no later than it, itself included, has run after ceil(m / 10) ticks, whatever else is created, edited, deleted or run |
| `MenuTable.IsDescendant` | backend/internal/modules/menu/handler.go:176-211 | the recursive query, round by round, terminates and finds the candidate if and only if its parent chain passes through the edited menu |
| `MenuTable.LevelsRunOut` | backend/internal/modules/menu/handler.go:191-206 | on a forest the query's working table is empty after fewer rounds than there are rows |
| `MenuTable.EnsureParentExists` | backend/internal/modules/menu/handler.go:176-211 | the guard refuses exactly missing, button, own and descendant parents |
| `MenuTable.Menus.Create` | backend/internal/modules/menu/handler.go:73-97 | the table after an accepted form; a refused one changes nothing |
| `MenuTable.CreateAcceptedIff` | backend/internal/modules/menu/handler.go:73-97 | a menu is created if and only if its type is known or blank, its code and name are not blank, its parent is none or an active menu that is no button, and no menu, deactivated ones included, has its code; then exactly the trimmed row is added, a page by default |
| `MenuTable.Menus.Update` | backend/internal/modules/menu/handler.go:99-130 | the same for an edited menu |
| `MenuTable.UpdateAcceptedIff` | backend/internal/modules/menu/handler.go:99-130 | an edit is accepted if and only if besides the menu is active and neither it nor a menu below it becomes its parent |
| `MenuTable.Menus.Delete` | backend/internal/modules/menu/handler.go:132-152 | only an active menu without active children is deactivated |
| `MenuTable.DeleteAcceptedIff` | backend/internal/modules/menu/handler.go:132-152 | a menu is deactivated if and only if it is active and no active menu names it as parent; its row changes in nothing else |
| `MenuTable.WriteKeepsForest` | backend/internal/modules/menu/handler.go:73-130 | a write under an accepted parent keeps every active menu on a chain of active parents that ends |
| `MenuTable.EditsKeepForest` | backend/internal/modules/menu/handler.go:73-152 | after any sequence of edits, accepted or refused, the active menus are a forest |
| `MenuTable.EditsKeepCodes` | backend/internal/modules/menu/handler.go:73-152 | after any sequence of edits no two menus, deactivated ones included, share a code, and every code and name is trimmed and not blank |
| `MenuTree.BuildMenuTree` | frontend/src/features/menu/menuView.ts:7-31 | the builder and its sort compute `MenuTrees` |
| `MenuTree.SortPermutes` | frontend/src/features/menu/menuView.ts:52-59 | sorting keeps every node |
| `MenuTree.SortSorted` | frontend/src/features/menu/menuView.ts:52-59 | of two siblings the earlier one has the smaller sort order, or the same and no greater id |
| `MenuTree.MenuTreeHoldsRows` | frontend/src/features/menu/menuView.ts:7-59 | the tree holds every row whose parent chain ends exactly once and no row of a cycle; every node is over exactly its own children; siblings are in order |
| `MenuTree.RowsSitUnderParents` | frontend/src/features/menu/menuView.ts:16-29 | at the top sit exactly the rows whose parent is missing, zero or not in the list; below every node, at every depth, exactly the rows that name it |
| `MenuTree.ActiveMenusShownOnce` | frontend/src/features/menu/menuView.ts:7-31 | every active menu of a table kept by the server's edits is shown exactly once |
| `MenuTree.MenuParentOptions` | frontend/src/features/menu/menuView.ts:33-50 | the walk of the picker lists `Options` |
| `MenuTree.OptionDepth` | frontend/src/features/menu/menuView.ts:33-50 | every option stands for a row, indented by the length of its parent chain |
| `MenuTree.PickerOffersAcceptedParents` | frontend/src/features/menu/menuView.ts:33-50 | for every forest the picker offers a menu if and only if the server accepts it as parent, for an edited menu and for a new one |
| `CategoryTree.BuildTree` | backend/internal/modules/knowledgebase/handler.go:108-120 | the recursion terminates along any chain of parents that ends at nil, and computes `TreesUpTo` |
| `CategoryTree.TreeCategories` | backend/internal/modules/knowledgebase/handler.go:84-106 | from nil it needs nothing but distinct ids: cycles elsewhere do no harm |
| `CategoryTree.CategoriesInTree` | backend/internal/modules/knowledgebase/handler.go:108-120 | exactly the categories whose parent chain ends at nil are served, each once, each over exactly its own children in input order |
| `AuthMenuTree.BuildTree` | backend/internal/modules/auth/handler.go:371-400 | the three loops compute `Built` |
| `AuthMenuTree.LinkedIsSnapshot` | backend/internal/modules/auth/handler.go:376-389 | a node holds its children as each stood when it was copied |
| `AuthMenuTree.EveryRowOnceIffChildrenFirst` | backend/internal/modules/auth/handler.go:371-400 | every row is in the tree exactly once if and only if every row below the second level comes before its parent in the list |
| `AuthMenuTree.LateRowIsLost` | backend/internal/modules/auth/handler.go:376-389 | a row below the second level that comes after its parent is nowhere in the tree |
| `AuthMenuTree.ThirdLevelIsLost` | backend/internal/modules/auth/handler.go:371-400 | of three levels listed parents first, the third is lost |
| `AuthMenuTree.BuiltWellParented` | backend/internal/modules/auth/handler.go:371-400 | whatever survives sits under its own parent |
| `AuthMenuTree.BuiltAsListed` | backend/internal/modules/auth/handler.go:371-400 | at every level what survives stands in list order |
| `Spreadsheet.CellRef` | backend/internal/exportxlsx/xlsx.go:65-72 | the loop writes the column label and the row number |
| `Spreadsheet.CellColumn` | backend/internal/importxlsx/read.go:179-189 | the loop reads the letters before the first other character, -1 without any |
| `Spreadsheet.ColumnOfRef` | backend/internal/importxlsx/read.go:179-189 | reading the column of a written reference gives the column back, for every column and row |
| `Spreadsheet.CaseIsIgnored` | backend/internal/importxlsx/read.go:179-189 | references that differ only in the case of their letters name the same column |
| `Spreadsheet.LabelOfColumn` | backend/internal/exportxlsx/xlsx.go:65-72 | every string of capital letters is the label of the column it is read as |
| `Spreadsheet.LabelGrows` | backend/internal/exportxlsx/xlsx.go:65-72 | the first 26 columns are A to Z, and each label is followed by the 26 that add a letter to it |
| `Spreadsheet.WorksheetCells` | backend/internal/exportxlsx/xlsx.go:39-59 | the nested loops write every cell under its reference, as inline text |
| `Spreadsheet.WrittenAt` | backend/internal/exportxlsx/xlsx.go:39-59 | the text in row i and column j is written inline under the label of j and the number i + 1 |
| `Spreadsheet.ReadWorksheet` | backend/internal/importxlsx/read.go:107-145 | the rows laid out by column, cells without a usable reference right of the rightmost one, trailing blank rows dropped |
| `Spreadsheet.RowLaidOut` | backend/internal/importxlsx/read.go:121-143 | a read row is as long as its rightmost cell needs, and holds in each column the last cell put there, the column it names or else one right of all before it, and nothing where there is none |
| `Spreadsheet.CellReads` | backend/internal/importxlsx/read.go:164-176 | a cell of type s with the number of a shared string reads as that string, with any other number as the number, an inlineStr cell as its text, any other as its value, all trimmed |
| `Spreadsheet.TrimEmptyTrailingRows` | backend/internal/importxlsx/read.go:191-200 | the index moves up to the last row that is not blank |
| `Spreadsheet.GridRoundTrip` | backend/internal/importxlsx/read.go:107-145 | reading back any written grid gives it with every cell trimmed and trailing blank rows dropped |
| `Spreadsheet.SecondTripChangesNothing` | backend/internal/importxlsx/read.go:107-145 | what was read once survives another round trip unchanged |
| `Spreadsheet.SurvivesUnchangedIff` | backend/internal/importxlsx/read.go:107-145 | a grid comes back exactly as written if and only if every cell is trimmed and the last row is not blank |
| `ChatHub.ChatHub.AddClient` | backend/internal/modules/chat/handler.go:727-731 | the client is registered; rooms and all other clients are as before |
| `ChatHub.ChatHub.RemoveClient` | backend/internal/modules/chat/handler.go:733-745 | the client leaves every room of its sessions, rooms left empty go, its own sessions stay |
| `ChatHub.ChatHub.JoinRoom` | backend/internal/modules/chat/handler.go:747-755 | both directions of the index get the pair |
| `ChatHub.ChatHub.LeaveRoom` | backend/internal/modules/chat/handler.go:757-767 | both directions lose the pair, a room left empty goes |
| `ChatHub.ChatHub.Broadcast` | backend/internal/modules/chat/handler.go:769-783 | the payload is written once to each member of the room and to nobody else |
| `ChatHub.ChatHub.BroadcastToUsers` | backend/internal/modules/chat/handler.go:785-803 | the payload is written once to each registered client of the users, however often a user is named |
| `ChatHub.AddKeepsIndexIff` | backend/internal/modules/chat/handler.go:727-745 | registering keeps the index if and only if the client is registered already or has no sessions: a removed client must not be added again |
| `ChatHub.JoinKeepsIndexIff` | backend/internal/modules/chat/handler.go:747-755 | joining keeps the index if and only if the client is registered |
| `ChatHub.RemoveKeepsIndex` | backend/internal/modules/chat/handler.go:733-745 | a removed client is in no room |
| `ChatHub.RunKeepsIndex` | backend/internal/modules/chat/handler.go:727-803 | under any interleaving a registered client is in a room if and only if the room is in its sessions, members are registered, and no stored room is empty |
| `ChatHub.RoomsTellHistory` | backend/internal/modules/chat/handler.go:727-767 | after every run a client is registered if and only if it connected and did not disconnect since, and in a room if and only if it joined it and neither left it nor disconnected since |
| `ChatHub.InboxIsMail` | backend/internal/modules/chat/handler.go:769-803 | in every run a client has received exactly what was sent, while it was registered, to a session it had joined or to its user, each once and in order |
| `ReadCounters.BuildParticipantIds` | backend/internal/modules/chat/chat_helpers.go:10-21 | the loop computes `Participants` |
| `ReadCounters.ParticipantsOnce` | backend/internal/modules/chat/chat_helpers.go:10-21 | the creator comes first, and every positive id is there exactly once |
| `ReadCounters.UnreadCountAfterMessage` | backend/internal/modules/chat/chat_helpers.go:46-58 | the count is the number of positions with a later message of somebody else that is neither SYSTEM nor REVOKED |
| `ReadCounters.ReadCountForMessage` | backend/internal/modules/chat/chat_helpers.go:60-71 | the count is the number of users other than the sender who have read that far |
| `ReadCounters.ReadUpToMessage` | backend/internal/modules/chat/chat_helpers.go:46-71 | a user who has read up to a message has unread exactly what others sent after it, and counts as reader of exactly what others sent up to it |
| `ReadCounters.ReadStateConserved` | backend/internal/modules/chat/chat_helpers.go:46-71 | over any messages, all unread counts plus the read counts of those that are neither SYSTEM nor REVOKED make the number of pairs of such a message and a participant other than its sender |

## Left out

- Databases and transports: tables are maps and sequences, a committed transaction is one step, a returned error changes nothing; WebSocket write errors are logged by the code and not modelled, a client's inbox holds what was written to its connection.
- JSON, XML and zip text: definitions are parsed, a stored node configuration reads back as it was written, escaped cell text reads back as it was written; text that does not parse is `None`.
- Condition expressions and form data: a form is the truth of each trimmed expression; a blank expression is false, as in the code.
- Who may act: whether an assignee text matches the actor's roles is a parameter of each request, as are the row the mapping query returns and whether the business adapter refuses.
- Case folding: `EqualFold` and SQL `upper` fold ASCII letters only, which is exact for APPROVE and REJECT.
- Distinct node keys of an instance: enforced on insert, as by the unique constraint of backend/migrations/000020_approval_runtime_nodes.up.sql.
- Approval.Submit: looking the workflow up is a parameter, the definition found or none; the default business type is not modelled.
- Timestamps of node rows, comment texts of log rows, the status dictionary code, notifications and to-do lists.
- TopologicalOrder.AlwaysTopologicalIff: requires every node to have an id or a key; a node without any is named by its position, so listing it elsewhere makes another graph.
- Cron.StepReaches: requires a positive step and sums that do not overflow, as `Cron.MatchField` below.
- Cron.MatchStep: requires a positive step and bounds that do not overflow, as `Cron.MatchField` below.
- Cron.MatchField: requires every step part to have a positive step and bounds that do not overflow when the step is added; the code counts through about 2^63 values on a negative step.
- Cron.NextCronTime: the calendar is any function from minute numbers to the five fields, so time zones and daylight saving are not modelled; fields hold supported step parts.
- Scheduler.Engine.RunOne: requires the expression of the row to be one `Cron.NextCronTime` covers, because it computes the next run; the handlers store any text, and so do their models.
- Scheduler.Engine.RunTask: requires the same of the row, if there is one.
- Scheduler.Engine.Tick: requires the same of the whole table.
- Scheduler.BoundedWaiting: writes succeed; switching a row off or on, restarts that recompute every next run, and starting or stopping the engine are not events.
- Scheduler.LastRunDecides: the same.
- MenuTree.BuildMenuTree: the page pushes to and sorts the child arrays of node objects in place; the model keeps the child lists by id and builds the sorted tree as a value, so aliasing of the node objects is not captured.
- MenuTable.Menus.Create: ids come from a sequence and are fresh and positive; role bindings and paths of menus are not modelled.
- MenuTree.PickerOffersAcceptedParents: is about active menus, the list the page works on.
- Spreadsheet.CellColumn: column numbers are unbounded, the code's wrap around after thirteen letters.
- Seed scripts, which write menus without the checks.
- Plain CRUD handlers, permission tables, pagination, files, code generation, message-queue demos and pages: each claim there is settled by reading one branch.
