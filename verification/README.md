# A verified model of go-authorization

This project models the decision core of the go-authorization library and proves what it
promises: role-based (`rbac/`), attribute-based (`abac/`) and list-based (`acl/`) evaluators,
the engine that combines their decisions, the life of a policy revision from the repository
through synchronizers to running engines, and the subject authority epochs kept in PostgreSQL.

`dafny verify dfyconfig.toml` checks every file.

| file | models |
|---|---|
| `Ordering.dfy`, `Indexing.dfy` | the library sort as "some sorted permutation", uniqueness of sorted lists, stable filtering, indexes by key |
| `Slices.dfy` | Go slices that may share an array, `append`, and maps of slices on the heap |
| `Attributes.dfy` | attribute values, their equality and order, string sets (`attribute.go`) |
| `Decisions.dfy` | requests, decisions, the allow/deny summary shared by the evaluators |
| `RoleGraph.dfy`, `Rbac.dfy`, `RbacManager.dfy` | role inheritance, the RBAC evaluator, the mutable manager |
| `Conditions.dfy`, `ConditionValidation.dfy`, `Abac.dfy` | ABAC conditions, their limits and rules |
| `ConditionDocuments.dfy`, `DocumentDecisions.dfy` | the document compiler, and what a built evaluator decides in terms of the document |
| `Acl.dfy` | the ACL evaluator and the listing of resources |
| `Engine.dfy` | combining algorithms, snapshots, the engine loop |
| `Lifecycle.dfy` | repository updates, reloads, hints and decisions as interleaved steps |
| `Authority.dfy` | authority epochs as interleaved transactions |
| `ConditionMeaning.dfy`, `AbacMeaning.dfy`, `DocumentMeaning.dfy`, `RbacMeaning.dfy`, `AclMeaning.dfy`, `EngineMeaning.dfy` | what each model accepts and answers, in the fields of its inputs alone |
| `LifecycleProgress.dfy` | what undisturbed updates, reloads and decisions achieve |

How the model is built:

- Each evaluator is a method with the loops and early returns of its source, and its contract
  equates the result with a reference that has neither: a flat filter of the definitions, the
  one sorted order, and a decision table. The laws (tenant isolation, order independence,
  monotonicity, round trips) are then lemmas about the reference.
- A reference still shares small predicates with its method: which permission matches, what
  is in scope, how policies rank. The files named `*Meaning.dfy` therefore say the same answers
  once more in the fields of definitions, requests and facts, with none of the model's own
  predicates in their conclusions, so that a wrong field, order or branch in a shared predicate
  contradicts them.
- Ranging over a Go map takes an arbitrary next key, so every result that is proved holds for
  every iteration order. The library sort promises only a sorted permutation; where the result
  is determined, that is proved from the uniqueness of identifiers.
- Concurrent parts are transition systems. Each lock, read, write and clock sample is a step,
  steps of any number of calls interleave, and the theorems speak about every finite run.
- Integers are unbounded where the source's bounds cannot be reached. The manager's 64-bit
  revision wraps as in the source, authority epochs stop at 2^64 - 1, and repository revisions
  must fit a signed 64-bit column.

Two properties one might expect do not hold of the code; each is stated with the condition under which it does:

- "A committed authority epoch starts at one and steps by one." Nothing stops a transaction
  from staging several changes to one scope, for example an initialization and an advance, and
  these commit together; `Authority.FirstEpochCanBeTwo` is such a run. A commit adds exactly the
  number of changes its transaction staged (`Authority.CommitAddsStagedSteps`), so it steps by
  one if and only if that number is one (`Authority.StepsByOneIffStagedOnce`). The documentation
  of `AdvanceAuthority` speaks of one successor and is true of each statement, not of a commit.
- "Deleting facts never flips a condition." `exists` and `is_null` are about presence, and such a
  leaf flips when its fact is deleted (`Conditions.PresenceTestsFlip`). For the leaf operators a
  caller admits this is exact: the trees built from them never flip if and only if no presence
  test is among them (`Conditions.NeverFlipsIff`). For one tree and one pair of requests it is
  enough that the presence tests of the tree answer alike (`Conditions.MissingFactsNeverFlip`).
  That condition is sufficient only: a tree whose presence tests differ may still not flip
  (`Conditions.GuardedPresenceNeverFlips`).

## Model

| member | source | states |
|---|---|---|
| Attributes.CompareIsTotalOrder | attribute.go:170-226 | values compare exactly when both are strings, integers, floats or instants; the order is antisymmetric and transitive, and comparing equal is being `Equal` |
| Attributes.SetValuesEqual | attribute.go:170-195 | two set values are equal if and only if they hold the same strings |
| Attributes.StringSetValue | attribute.go:103-114 | copy, sort and compact yield the one strictly increasing list with the elements of the input |
| Attributes.Compact | attribute.go:105-111 | in the shared backing array, the kept prefix is strictly increasing and holds exactly the old elements |
| Attributes.SearchStrings | abac/conditions.go:228-242 | the binary search returns the boundary between smaller and not smaller elements |
| Attributes.Contains | abac/conditions.go:228-242 | the search followed by an equality test decides membership |
| ConditionMeaning.StringLessMeans | attribute.go:205-206 | the string order is the dictionary order: equal up to a position where the smaller one ends or has the smaller character |
| ConditionMeaning.CompareMeans | attribute.go:199-226 | the sign of a comparison is that of the texts, integers, floats or instants compared, in both directions |
| Decisions.Principals | rbac/rbac.go:356-362 | the principals of a request are the subject and its groups, and nothing else |
| Decisions.AddMatchSummarizes | rbac/rbac.go:315-334 | updating a decision match by match, as RBAC, ACL and ABAC all do, gives the decision table of all matches: deny wins over allow, and the matched identifiers are in order |
| Decisions.SummarizeMeans | rbac/rbac.go:315-334 | the decision table row by row: deny if and only if some match denies, allow if and only if some allows and none denies, with its reason and every matched identifier in order |
| RoleGraph.ChainKeepsTenant | rbac/rbac.go:468-479 | along every chain of validated parents the tenant stays the same |
| RoleGraph.ClosedHoldsChain | rbac/rbac.go:458-466 | a set closed under parents holds everything its roles reach |
| RoleGraph.ChainDescends | rbac/rbac.go:481-498 | finishing order strictly falls along chains, so it bounds their length |
| RoleGraph.TopologicalMeansAcyclic | rbac/rbac.go:481-498 | if every role finishes, no role reaches itself |
| RoleGraph.GreyMeansCycle | rbac/rbac.go:481-498 | meeting a role under visit closes a genuine cycle |
| RoleGraph.CycleSearch.Visit | rbac/rbac.go:481-498 | the three-colour search reports failure only with a cycle, and otherwise finishes the role after all its parents, for every parent order, and terminates |
| RoleGraph.CycleSearch.VisitParents | rbac/rbac.go:487-494 | the same for the loop over the parents of an entered role |
| RoleGraph.DepthSearch.Depth | rbac/rbac.go:505-517 | the memoized depth is the number of edges of a longest chain, which exists |
| RoleGraph.CheckParents | rbac/rbac.go:469-479 | accepts exactly when every parent exists in its child's tenant; each error has a witness |
| RoleGraph.CheckDepths | rbac/rbac.go:518-522 | fails exactly when some chain is longer than the limit |
| RoleGraph.ValidateInheritance | rbac/rbac.go:468-525 | no error if and only if parents resolve within the tenant, there is no cycle and no chain exceeds the limit; the cycle and depth errors hold exactly in their cases, for every map order |
| RoleGraph.RoleClosure.AddRoleClosure | rbac/rbac.go:458-466 | although inner calls start from a set that is not closed, the set stays closed except below the callers, and gains only roles reachable from the argument |
| Rbac.IndexRoles | rbac/rbac.go:239-248 | accepts exactly valid roles with distinct identifiers, otherwise reports the first fault |
| Slices.AppendTo | rbac/rbac.go:290-291 | `append` adds one element, in place when there is capacity and in a new array otherwise, and the old window keeps its contents |
| Slices.Push | rbac/rbac.go:290-291 | filing an element under a key extends that bucket and leaves the others as they were, although arrays are written in place |
| Rbac.IndexPermissions | rbac/rbac.go:252-272 | accepts exactly valid permissions of known roles in the role's tenant, filed by role in arrays of its own; otherwise reports the first fault |
| Rbac.IndexAssignments | rbac/rbac.go:273-292 | the same for assignments, filed by subject: the buckets hold the index of the caller's slice and share no array with it |
| Rbac.New | rbac/rbac.go:206-295 | accepts exactly the well-formed definitions, publishes indexes that represent them in arrays nobody else has, and reports the error of the first phase and fault otherwise |
| Rbac.CollectFrom | rbac/rbac.go:364-372 | one principal's assignments in scope add their closures and nothing the subject does not hold |
| Rbac.CollectRoles | rbac/rbac.go:356-372 | the shared visited set ends as exactly the roles reachable from assignments in scope of the subject and its groups, whatever the order |
| Rbac.ClosedSetIsComplete | rbac/rbac.go:458-466 | a closed set holding the assigned roles misses no held role |
| Rbac.GatherPermissions | rbac/rbac.go:374-377 | ranging over the role set in any order gathers each of its permissions once |
| Rbac.EffectivePermissions | rbac/rbac.go:344-386 | refines the reference: the permissions of held roles, each once, in the one sorted order, or the group-limit error |
| Rbac.EffectiveElements | rbac/rbac.go:344-386 | the reference list is strictly sorted and holds exactly the permissions of held roles |
| Rbac.HeldRoleTenant | rbac/rbac.go:447-466 | a held role lies in the request tenant, or is global where inheritance is on |
| Rbac.EffectiveTenant | rbac/rbac.go:447-466 | tenant isolation: an effective permission carries the request tenant, or none and only with global inheritance in a tenant request |
| Rbac.MatchEffective | rbac/rbac.go:315-334 | filtering the sorted permissions equals sorting the filtered ones |
| Rbac.Settle | rbac/rbac.go:315-334 | the growing decision equals the table over all matches, or the limit denial exactly when they exceed the limit |
| Rbac.Evaluate | rbac/rbac.go:301-337 | refines the decision table over granting permissions, with both limit denials |
| RbacMeaning.HeldMeans | rbac/rbac.go:344-372 | a role is held if and only if an assignment to the subject or one of its groups, in the request's tenant or inherited, leads to it along defined roles that name each other as parents |
| RbacMeaning.DecideMeans | rbac/rbac.go:301-337 | the whole decision in fields: over the permissions of held roles with the request's action, type and instance, by descending priority and then identifier, or a limit denial |
| RbacMeaning.AllowsIff | rbac/rbac.go:301-337 | a request is allowed if and only if, within the limits, some such permission allows and none denies |
| RbacMeaning.GlobalAssignment | rbac/rbac.go:447-456 | a global assignment is in force in every tenant when inheritance is on |
| RbacMeaning.AcceptsIff | rbac/rbac.go:206-295 | New accepts if and only if identifiers are present and distinct, every named role exists in the same tenant, no path of roles returns to its start or exceeds the depth, and all counts are within limits |
| RbacMeaning.PermissionErrors | rbac/rbac.go:253-266 | which error a permission gets, each exactly in its case |
| RbacMeaning.AssignmentErrors | rbac/rbac.go:274-286 | which error an assignment gets, each exactly in its case |
| RbacMeaning.PhaseErrors | rbac/rbac.go:239-292 | roles are checked before their graph, then permissions, then assignments |
| RbacManager.RevokeKeepsWellFormed | rbac/manager.go:60-78 | removing an assignment leaves definitions that New accepts |
| RbacManager.RunKeepsWellFormed | rbac/manager.go:45-108 | after every sequence of assignments and revocations the stored definitions pass New |
| RbacManager.RevokeKeepsOthers | rbac/manager.go:60-78 | a revocation removes the assignment with that identifier and keeps all others, in order |
| RbacManager.AssignThenRevoke | rbac/manager.go:45-78 | an accepted assignment followed by its revocation restores the definitions and every decision |
| RbacManager.MoreAssignmentsGrantMore | rbac/rbac.go:344-386 | adding assignments never removes a deciding permission |
| RbacManager.DecideOutcome | rbac/rbac.go:301-337 | when the outcome is a denial and when it is not applicable, both exactly |
| RbacManager.AssignNeverLiftsDeny | rbac/manager.go:45-57 | assigning never turns a denial, explicit or by limit, into anything else |
| RbacManager.RevokeNeverGrants | rbac/manager.go:60-78 | revoking never makes an inapplicable request applicable |
| RbacManager.NewManager | rbac/manager.go:25-42 | reports the error of New exactly when the definitions are not well formed, and otherwise starts at revision one with a private copy of the assignments |
| RbacManager.Manager.AssignRole | rbac/manager.go:45-57 | succeeds exactly when New accepts the extended definitions, then in a fresh array; a refusal changes nothing; the revision stays one plus the accepted operations modulo 2^64 |
| RbacManager.Manager.RevokeAssignment | rbac/manager.go:60-78 | removes the first assignment with the identifier by shifting inside the array and counts one more operation in the revision, or changes nothing |
| RbacManager.Manager.Publish | rbac/manager.go:103-108 | building an evaluator never fails; it represents the stored definitions, and every array it reads is new |
| RbacManager.ShiftDown | rbac/manager.go:69-72 | the overlapping copy closes the gap and keeps the order |
| RbacManager.RemoveInPlace | rbac/manager.go:64-75 | search and shift together remove exactly the first occurrence |
| RbacManager.PerformAll | rbac/manager.go:45-78 | no sequence of operations touches the buckets of an evaluator that does not read the manager's array, and the definitions end as those of the run |
| RbacManager.DecideAcrossRevoke | rbac/manager.go:60-108 | the in-place shift is invisible to an evaluator published before it, which reads its buckets after the shift and decides by the old definitions; one published after decides by the new |
| RbacManager.DecideAcrossRun | rbac/manager.go:45-108 | the same across any sequence of assignments and revocations |
| Conditions.AllMatches | abac/abac.go:573-584 | a conjunction matches if and only if every child does |
| Conditions.AnyMatches | abac/conditions.go:62-79 | a disjunction matches if and only if some child does with no failure before it |
| ConditionMeaning.LeafMeans | abac/conditions.go:16-356 | every leaf in the facts of the request: missing, null, oversize and kind mismatch each in their case, and otherwise match if and only if the value equals, orders, belongs, contains or extends as the leaf asserts |
| ConditionMeaning.StringHoldsMeans | abac/conditions.go:277-299 | prefix, suffix and substring by witness: the value is the text with something before or after it |
| ConditionMeaning.NotMeans | abac/conditions.go:91-109 | negation matches if and only if its child does not match, fails to match if and only if its child matches, and passes every other result on |
| ConditionMeaning.AllMeans | abac/abac.go:573-584 | a conjunction says what its first child that does not match says, and visits the children up to it |
| ConditionMeaning.AnyEnds | abac/conditions.go:62-79 | a disjunction says what its first matching or failing child says, and visits the children up to it |
| ConditionMeaning.AnyUndecided | abac/conditions.go:62-79 | with no such child it visits all of them and says the first diagnostic status, or no match if there is none |
| Conditions.ValidNeverStuck | abac/abac.go:519-584 | a valid tree never dereferences a missing condition, on any request |
| Conditions.MissingFactsNeverFlip | abac/conditions.go:62-109 | on a tree whose presence tests answer alike, deleting attributes leaves the status or turns it into a diagnostic one, never match into no match or back |
| Conditions.PresenceTestsFlip | abac/conditions.go:16-48 | an `exists` or `is_null` leaf about a known source turns from match to no match when its null fact is deleted |
| Conditions.NeverFlipsIff | abac/conditions.go:16-109 | for every vocabulary of leaves: all trees over it never flip under deletion if and only if it holds no presence test |
| Conditions.LeafNeverFlipsIff | abac/conditions.go:16-48 | a leaf never flips if and only if it is no presence test |
| Conditions.GuardedPresenceNeverFlips | abac/abac.go:573-584 | a conjunction that tests a value before its presence never flips, so holding a presence test is not enough to flip |
| Conditions.EvaluationState.Consume | abac/abac.go:480-489 | pays one unit if the budget allows, and never passes the budget |
| Conditions.EvaluationState.Evaluate | abac/abac.go:519-584 | refines the budget-free meaning: that answer when the visited nodes fit the remaining budget and the cost error exactly otherwise; the counter grows by the visits, and matched holds exactly with the match status |
| Conditions.EvaluationState.EvaluateAll | abac/abac.go:573-584 | the same for the conjunction loop |
| Conditions.EvaluationState.EvaluateAny | abac/conditions.go:62-79 | the same for the disjunction loop with its remembered status |
| Conditions.EvaluationState.EvaluateLeaf | abac/conditions.go:143-356 | each leaf agrees with its meaning, set limit included |
| Conditions.EvaluationState.EvaluateIn | abac/conditions.go:185-199 | the membership loop decides whether some listed value is equal |
| Conditions.LargerSetsKeepMeaning | abac/abac.go:546-551 | a larger admitted set size changes neither the meaning nor the visits of a tree that was not oversize |
| Conditions.RaisingLimitsKeepsSuccess | abac/abac.go:450-489 | raising cost and set limits never changes a successful answer |
| ConditionValidation.FirstFaultIsFirst | abac/abac.go:373-403 | the reported fault belongs to a node all of whose pre-order predecessors are fine |
| ConditionValidation.ProcessTop | abac/abac.go:378-400 | one round removes exactly the next pre-order node or reports its fault |
| ConditionValidation.ValidateConditionLimits | abac/abac.go:373-403 | the explicit stack meets the faults of the tree in pre-order, and terminates |
| ConditionValidation.NodesSummary | abac/abac.go:405-430 | the pre-order list carries depth, validity and total cardinality of the tree |
| ConditionValidation.AcceptsExactly | abac/abac.go:373-430 | accepted if and only if depth, validity of every node and total literal cardinality all hold |
| ConditionValidation.EvaluateCondition | abac/abac.go:450-470 | an admitted tree never panics; its result is the meaning at the cost of its visits, or the cost error exactly when they exceed the limit |
| Abac.BindNamed | abac/abac.go:243-256 | accepts exactly valid, distinct named conditions, otherwise reports the first fault |
| Abac.BindRules | abac/abac.go:258-286 | accepts exactly valid rules whose condition resolves, with the condition bound; otherwise reports the first fault |
| Abac.New | abac/abac.go:221-295 | accepts exactly well-formed models and publishes the bound rules in their one possible order |
| Abac.ApplyRule | abac/abac.go:318-344 | one rule in scope spends its visits from the shared budget and extends the decision |
| Abac.Evaluate | abac/abac.go:302-347 | refines judging the rules in scope one after another |
| Abac.DecideWithinLimits | abac/abac.go:302-347 | within all limits the decision is the table over matching rules, and otherwise an error with the limit denial |
| AbacMeaning.DecideMeans | abac/abac.go:302-347 | the whole decision in fields: the rules with the request's tenant, action, type and instance, by descending priority and then identifier, those whose own or named condition matches, and the three limits |
| AbacMeaning.JudgeErrors | abac/abac.go:318-334 | a refusal names a limit that is really exceeded |
| AbacMeaning.AcceptsIff | abac/abac.go:221-295 | New accepts if and only if rules and named conditions are complete and distinct, and each rule has either an admitted condition of its own or a reference to a defined one |
| AbacMeaning.NamedErrors | abac/abac.go:244-257 | an incomplete named condition is reported as invalid, a second of the same name and version as a duplicate, and only then its tree is judged |
| AbacMeaning.RuleErrors | abac/abac.go:259-287 | exactly when a rule is refused for an unknown reference, as invalid, or for its condition tree |
| Abac.AcceptedNeverPanics | abac/abac.go:221-347 | no request makes an accepted model dereference a missing condition |
| Abac.InForceElements | abac/abac.go:258-295 | the rules in force are the bound definitions, each once, strictly sorted |
| Abac.RuleOrderIrrelevant | abac/abac.go:258-347 | permuting rule definitions changes neither acceptance nor any decision |
| Abac.NamedConditionsInline | abac/abac.go:243-286 | replacing every named condition by its text is accepted and decides every request alike, cost included |
| ConditionDocuments.LeafMeaningPreserved | abac/document.go:190-247 | each compiled leaf means what its document says |
| ConditionDocuments.LiteralMeans | abac/document.go:116-145 | the value that each kind of literal denotes, and the kinds that are refused |
| ConditionDocuments.NegatedDocument | abac/document.go:185-193 | a compiled negation matches if and only if the document inside it interprets to no match, and the other way round |
| ConditionDocuments.BuildPreservesMeaning | abac/document.go:170-247 | evaluating the compiled tree equals interpreting the document directly |
| ConditionDocuments.BuildPreservesDepth | abac/document.go:170-247 | the compiled tree has the depth of the selected document tree |
| ConditionDocuments.ValidateDocumentLimits | abac/document.go:374-404 | the preflight rejects exactly the documents whose selected tree is too deep, and terminates |
| ConditionDocuments.PreflightCoversDepth | abac/document.go:374-404 | a document that passes the preflight never fails the depth check of New |
| ConditionDocuments.PreflightAll | abac/document.go:326-337 | rejects exactly when some named or inline condition is too deep |
| ConditionDocuments.CompileAll | abac/document.go:338-370 | compiles every definition, or reports the error of the first one that does not compile, named conditions first |
| ConditionDocuments.NoDepthErrorFromNew | abac/document.go:321-372 | after the preflight New reports no depth error for any named condition or rule |
| ConditionDocuments.BuildDocument | abac/document.go:321-372 | accepts exactly version-one documents that pass the preflight, compile and satisfy New, with the evaluator of the compiled model; each refusal names the phase that caused it |
| DocumentMeaning.BuildMeans | abac/document.go:170-268 | a condition compiles if and only if every node it visits has what its operator needs; otherwise the error is that of the first such node in document order |
| DocumentMeaning.RuleMeans | abac/document.go:350-370 | a rule compiles exactly when its effect is allow or deny and its condition compiles, into a rule with the document's own fields |
| DocumentMeaning.CompilesIff | abac/document.go:338-370 | a document compiles if and only if every definition in it is complete |
| DocumentDecisions.BuildPreservesVisits | abac/document.go:170-247 | the compiled tree visits as many nodes as a direct interpretation of the document, so costs agree |
| DocumentDecisions.ScopeAgrees | abac/document.go:321-372 | the rules in scope of the built evaluator are, in order, what the ranked rule documents in scope become, with equal meaning and cost |
| DocumentDecisions.BuiltDecides | abac/document.go:321-372 | every decision of a built evaluator is the table over the rule documents whose condition interprets to a match, within limits counted on the document, and a denial with an error otherwise |
| Acl.New | acl/acl.go:136-178 | accepts exactly valid entries with distinct identifiers within the limit, indexed by principal, action and type; otherwise reports the first fault |
| Acl.BucketIsScan | acl/acl.go:152-173 | an index bucket narrowed to the request is the scan of all entries for that principal, in order |
| Acl.ScanBucket | acl/acl.go:227-244 | the inner loop extends the decision by the entries in scope, or stops exactly beyond the limit |
| Acl.ScanPrincipals | acl/acl.go:199-246 | the loop considers each distinct principal once, at its first occurrence |
| Acl.Evaluate | acl/acl.go:185-249 | indexed evaluation equals the flat scan, with both limit denials |
| AclMeaning.ScanMeans | acl/acl.go:199-230 | the scan holds exactly the entries whose subject is the request's or one of its groups, with equal action and type, the tenant equal or inherited, and the resource unnamed or equal |
| AclMeaning.FlatOrdered | acl/acl.go:199-244 | the scan is in order of the first occurrence of the principal and then of definition |
| AclMeaning.DecideMeans | acl/acl.go:185-249 | the whole decision in fields: over those entries, in that order, or a limit denial |
| AclMeaning.AllowNeedsEntry | acl/acl.go:185-249 | allow implies an allowing entry of the request's tenant, or an inherited global one, and no denying one |
| Acl.ScanIsPool | acl/acl.go:185-249 | the scan lists the applying entries without repetition |
| Acl.DecideByPool | acl/acl.go:185-249 | outcome, reason and error depend only on the set of applying entries |
| Acl.OrderIrrelevant | acl/acl.go:185-249 | permuting entries, and permuting or repeating groups within the limit, changes neither outcome, reason nor error |
| Acl.PrincipalKeys | acl/acl.go:337-367 | one key per distinct principal, in first-occurrence order |
| Acl.TallyBucket | acl/acl.go:302-319 | the listing loop keeps the effect of each resource, and stops at a type-wide deny or beyond the limit, whichever comes first |
| Acl.TallyAll | acl/acl.go:295-321 | the same over all principals, against the flat scan |
| Acl.AllowedIDs | acl/acl.go:326-332 | the allowed resources, sorted and without repetition, for every map order |
| Acl.InstancePool | acl/acl.go:185-249 | the entries for one resource are those of the listing that name it or the whole type |
| Acl.TypeDenyAgrees | acl/acl.go:308-311 | after a type-wide deny Evaluate allows no resource, so the early empty list is right |
| Acl.TallyAgrees | acl/acl.go:280-335 | with no type-wide entry a resource is allowed by Evaluate exactly when its tally allows it |
| Acl.ListResourceIDs | acl/acl.go:280-335 | on success the sorted list holds exactly the resources Evaluate allows; unbounded, match-limit and group-limit errors each hold exactly in their case |
| AclMeaning.ListingMeans | acl/acl.go:280-335 | in fields: a listed resource is covered by an allowing entry in a tenant the request may use and by no denying one, and within the limit every such resource is listed |
| AclMeaning.AcceptsIff | acl/acl.go:152-165 | New accepts if and only if the entries are complete, explicit, distinct and within the limit |
| Engine.Combine | decision.go:126-159 | rejects unknown algorithms and outcomes, else selects the first decisive decision or the last applicable one |
| Engine.CombineTable | decision.go:126-159 | the precedence table: deny-overrides denies exactly if some decision denies, allow-overrides allows exactly if some allows, and nothing applies exactly if none does |
| Engine.OrderedTakesFirst | decision.go:126-159 | the ordered algorithms take the first applicable decision |
| Engine.DecisivePrefix | engine.go:360-365 | decisions after a decisive one do not matter |
| EngineMeaning.FirstOverrides | decision.go:126-159 | the first denial under deny-overrides, and the first allowance under allow-overrides, is the whole answer |
| EngineMeaning.NoDenialTakesLast | decision.go:126-159 | without a denial deny-overrides answers with the last decision that applies |
| EngineMeaning.NoAllowanceTakesLast | decision.go:126-159 | without an allowance allow-overrides answers with the last decision that applies |
| Engine.CollectEntries | snapshot.go:114-142 | accepts exactly complete, distinct definitions with sound windows, otherwise reports the first fault |
| Engine.NewSnapshot | snapshot.go:102-159 | accepts exactly well-formed snapshots; under priority order the policies are in their one sorted order |
| Engine.AnySortIsTheSort | snapshot.go:144-152 | unique identifiers leave one sorted order |
| Engine.PriorityOrderIgnoresDefinitionOrder | snapshot.go:114-152 | permuted definitions are accepted too and give the same snapshot |
| EngineMeaning.PriorityOrderMeans | snapshot.go:114-152 | a snapshot under priority order holds exactly the definitions, higher priority first and then by identifier, with the snapshot's revision where they state none |
| EngineMeaning.OtherOrdersMean | snapshot.go:114-142 | under the other algorithms policies stay in the order of definition |
| EngineMeaning.AcceptsIff | snapshot.go:114-142 | NewSnapshot accepts definitions if and only if they have an identifier and an evaluator, are distinct, and no window ends before it starts |
| Engine.Record | engine.go:288-312 | matched identifiers and trace are the capped prefixes of everything seen, and the flags say exactly whether something was dropped here or upstream |
| Engine.RunPolicies | engine.go:263-317 | the loop stops at the first broken or decisive policy and has recorded exactly the policies evaluated |
| Engine.Finish | engine.go:319-335 | combination and default deny over the recorded policies |
| Engine.DecideRequest | engine.go:232-336 | refines the ruling over what all policies would answer |
| Engine.EarlyExitAgrees | engine.go:252-336 | when no policy breaks, outcome and reason are those of Combine over every policy plus default deny |
| Engine.AllowIsExplicit | engine.go:319-335 | every ruling allows or denies, and allows only if some policy did |
| Engine.DenyOverridesOutcome | engine.go:263-327 | with failures included: allow if and only if some policy allows and none denies or breaks |
| Engine.DenyOverridesIgnoresOrder | engine.go:263-327 | under deny-overrides the outcome is the same for every order of policies, failing ones included |
| EngineMeaning.PriorityOrderRules | engine.go:232-336 | with no broken policy the ruling is that of the applicable policy which no applicable one exceeds in priority, or in identifier at equal priority |
| EngineMeaning.NothingAppliesDenies | engine.go:319-330 | with no applicable policy and none broken every algorithm denies by default |
| EngineMeaning.FirstStopRules | engine.go:263-317 | the first broken or decisive policy rules: a broken one denies with its error |
| EngineMeaning.UnknownAlgorithmDenies | engine.go:319-325 | an unknown algorithm denies with an error whatever the policies say |
| EngineMeaning.OutsideContributesNothing | snapshot.go:62-65 | a policy outside its window changes no outcome, reason or error, wherever it stands and whatever else fails |
| EngineMeaning.RuleAdmits | request.go:119-141 | an incomplete request is denied as invalid, no complete one is, and every ruling carries the snapshot's revision |
| EngineMeaning.RuleTime | engine.go:258-261 | windows are judged at the request's time, or at the clock's when it states none |
| EngineMeaning.TraceMeans | engine.go:288-297 | the trace names the policies evaluated, with outcome and reason, in order up to its limit, and the flag says whether it was cut |
| EngineMeaning.MatchedMeans | engine.go:299-312 | an identifier is matched if and only if an applicable policy reports it, or is it and reports none |
| EngineMeaning.MatchedCut | engine.go:299-312 | matched identifiers are cut at the limit, and the flag says whether that or an evaluator dropped any |
| Engine.NewEngine | engine.go:131-157 | refuses a missing snapshot or one beyond the policy limit, and otherwise starts with it |
| Engine.EngineState.ReplaceSnapshot | engine.go:177-202 | installs a newer snapshot only over the expected revision, with the error of the first failing check; a refusal changes nothing and revisions never fall |
| Engine.EngineState.DecideBatch | engine.go:209-230 | whatever replacements land between its requests, every request of a batch is ruled on over the snapshot captured at its start, each at its own clock sample; or the batch is refused by size |
| Lifecycle.StepKeeps | policy/synchronizer.go:126-219 | every step of every interleaving keeps the invariant, and histories, engine revisions and marks only grow |
| Lifecycle.RunKeeps | policy/synchronizer.go:126-219 | the invariant holds in every state of every run |
| Lifecycle.RunGrows | policy/synchronizer.go:126-219 | growth holds between any two states of a run |
| Lifecycle.HistoryExtends | postgres/store.go:35-46 | an accepted update extends the chain of strictly increasing revisions, and the row is its end |
| Lifecycle.RevisionsIncrease | postgres/store.go:93-121 | committed revisions strictly increase |
| Lifecycle.EnginesNeverGoBack | engine.go:177-202 | over every run an engine's revision never decreases |
| Lifecycle.EnginesBehindRepository | policy/synchronizer.go:126-164 | over every run no engine is ahead of the committed revision |
| Lifecycle.SameRevisionSameManifest | policy/synchronizer.go:126-164 | engines at the same revision, even at different times and in different processes, run the same manifest |
| Lifecycle.OneUpdatePerRevision | postgres/store.go:93-121 | at most one update per expected revision ever succeeds |
| Lifecycle.DecisionsAreFresh | policy/synchronizer.go:171-193 | a delegated decision rests on a verification marked no later than now and within the window, and on a snapshot at least as new as that verification |
| Lifecycle.MarksAreEarned | policy/synchronizer.go:151-163 | a verification is marked only by a reload that saw a committed manifest no newer than what its engine runs |
| Lifecycle.FailedReloadChangesNothing | policy/synchronizer.go:126-164 | no step of a reload that ends in failure changes an engine or a verification time |
| Lifecycle.ObserveMeansCaughtUp | policy/synchronizer.go:205-219 | once Observe returns without error the engine is, and stays, at or past the hint |
| Lifecycle.ReloadsExclude | policy/synchronizer.go:126-130 | two reloads of one synchronizer never overlap |
| Lifecycle.ReplaceAgrees | engine.go:177-202 | the replacement step of a reload refuses and installs exactly as the engine object does on the compiled snapshots |
| LifecycleProgress.UpdateMeans | postgres/store.go:93-121 | an update is stored if and only if it is valid, expects the committed revision and exceeds it within the column's range; otherwise nothing changes |
| LifecycleProgress.ReloadCatchesUp | policy/synchronizer.go:126-164 | an undisturbed reload of a usable manifest ends with the engine at its revision and the time marked |
| LifecycleProgress.ReloadRefuses | policy/synchronizer.go:142-161 | an invalid, stale, uncompilable, oversized or overtaken manifest ends the reload in failure |
| LifecycleProgress.ObserveMeans | policy/synchronizer.go:215-218 | after its reload Observe accepts exactly the hints that the engine has reached |
| LifecycleProgress.DecideMeans | policy/synchronizer.go:171-193 | a decision is taken on the running snapshot if and only if the last verification is within the window, and is refused otherwise |
| Authority.StepKeeps | postgres/authority.go:175-213 | every statement, commit and abort of every interleaving keeps the invariant |
| Authority.RunKeeps | postgres/authority.go:175-213 | the invariant holds in every state of every run |
| Authority.EpochsInRange | postgres/authority.go:185-193 | committed epochs are positive and never pass 2^64 - 1, and the committed steps of a scope start from each earlier epoch exactly once, in order |
| Authority.EpochsNeverGoBack | postgres/authority.go:171-193 | over every run epochs neither decrease nor disappear |
| Authority.CommitAddsStagedSteps | postgres/authority.go:141-143 | a commit adds exactly the number of changes its transaction staged, and no other step changes a committed epoch |
| Authority.StepsByOneIffStagedOnce | postgres/authority.go:179-193 | a commit steps by one if and only if its transaction staged exactly one change to the scope |
| Authority.FirstEpochCanBeTwo | postgres/authority.go:171-193 | a run in which the first committed epoch is two |
| Authority.CommitsPast | postgres/authority.go:185-193 | a commit takes the scope past every epoch it stepped from |
| Authority.OneCommitPerEpoch | postgres/authority.go:185-193 | at most one advance from an expected epoch, and at most one initialization, ever commits |
| Authority.RequirementProtects | postgres/authority.go:195-213 | while a transaction that passed a requirement is open, no other transaction changes that committed epoch |
| Authority.RequiredEpochHolds | postgres/authority.go:195-213 | the required epoch is the committed one for as long as its transaction is open and does not change it itself |
| Authority.InitializeCommits | postgres/authority.go:175-177 | undisturbed, initializing a missing scope commits epoch one, and an existing one conflicts and stays |
| Authority.AdvanceCommits | postgres/authority.go:185-193 | undisturbed, advancing the committed epoch commits its successor, and any other expectation gets its error and changes nothing |
| Authority.RequireAnswers | postgres/authority.go:201-213 | undisturbed, a requirement passes if and only if it names the committed epoch, which it then locks |

## Left out

- JSON encoding and decoding, byte caps and unknown fields: the model starts from decoded documents.
- `policy/compiler.go` and `policy/manifest.go`: compilation and validation are arbitrary deterministic predicates of a manifest, and a compiled snapshot carries its manifest's revision.
- `policy/policy.go` difference and dry run: map comparisons and a composition of engine calls, which would add only easy members.
- `valkey/`: hints are arbitrary revisions passed to Observe.
- `adapters/`, `authn/`, `authorizationtest/`, instrumentation and the decision service: wrappers around what is modelled.
- Synchronizer polling in `Run`: any sequence of reloads is a run of the model.
- The drivers, migrations and timeouts of `postgres/`: each statement is one atomic step, with the row-lock rules of PostgreSQL at READ COMMITTED taken as given; unknown outcomes of a failed commit are not modelled.
- `AuthorityScope.Key`, scope validation and row decoding in `postgres/authority.go`: a scope is its three identifiers.
- Parsing of instants, addresses and prefixes, and prefix containment: parameters of the document compiler and of the leaf conditions.
- Context cancellation, reflection checks, option functions and default limits: limits are the values in force.
- `EvaluateBatch` of the three evaluators and `Manager.Assignments`: loops over what is modelled.
- Aliasing is modelled where the source writes in place beside readers: the array of `Attributes.Compact`, the assignment slice of `RbacManager` and the buckets of `Rbac.Evaluator`. Elsewhere, in the ACL index, the ABAC rules, metadata and diagnostics, slices are values.
- Strings are compared character by character; the source compares bytes.
- Floating point attribute values are reals: the source admits only finite values.
- `policy/synchronizer.go`, `postgres/store.go` and `postgres/authority.go` are modelled on values as transition systems and not as objects, because their properties are about interleavings. Setting the verification time and releasing the reload mutex are one step, and so are validating the manifest and reading the engine's revision.
- Engines start from a committed manifest and change only through reloads: an application that calls ReplaceSnapshot directly with other content is outside `Lifecycle.dfy`.
- Error texts and wrapped positions: errors are tags.
