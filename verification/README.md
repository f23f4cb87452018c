# Verified model of cs-mail's receiving, correspondence and evaluation logic

A mail alias has an address with a life of its own (active, restricted, replaced, retired) and a receiving
permission with its own revision. Signed commands change them; admission decides, message by message, whether a
sender may write to the address; the correspondence service then commits one coherent delivery or records one
durable refusal, after walking the whole quotation ancestry of what is being sent. Behind it an in-memory engine
commits settlement commands exactly once, and the command-line member keeps a write-ahead journal of its requests.
The repository's tools add retrieval measures and rank fusion, Voronoi cells cut by half-planes, a scanner that
protects long JSON integers, passage windows with UTF-8 byte ranges, and a search index that has to agree with its
source table. This project models that logic and proves what it is for.

The model takes the shape of the code. Decisions, transitions and validators are functions over immutable values.
Loops that push onto a vector, walk a worklist, scan text, cut windows or clip polygons are methods with
invariants, each proved equal to a function or against the property it is for. The engine, its store, the member's
journal and the search store are classes whose methods state their whole new state. Whole-run laws are lemmas over
sequences of steps.

| files | what they model |
|---|---|
| `Wrappers`, `Primitives` | results, 64-bit counters, identities and times |
| `DomainNames` | DNS names and the subdomain order |
| `Lanes` | sender-scoped lanes and their allowance |
| `AliasErrors`, `Permission`, `Aliases` | the receiving permission and the alias lifecycle, with their stored-record validators |
| `AliasCommands`, `AliasStore`, `Admission` | signed alias commands, the alias store over whole runs, admission |
| `Conversations`, `SourceGraph`, `Deliveries`, `Correspondence`, `CorrespondenceStore` | reuse policy, the source walk, deliveries, decisions, whole runs |
| `DeliveryEvidence`, `Deployment`, `PairedLanes` | the alias store and the correspondence store together: deliveries read and spend the rows commands manage, and restrictions freeze what was delivered |
| `Engine`, `MemberFile`, `MemberJournal` | exactly-once execution, in the service and in its client, and the file under the client's journal |
| `RankMetrics`, `RankFusion` | discounted gain against the ideal; reciprocal-rank fusion |
| `PlaneArithmetic`, `MineralCells` | clipping and Voronoi cells over exact reals |
| `JsonScanner` | the big-integer rewriting scanner |
| `Utf8`, `PassageWindows` | UTF-8 and the passages cut from a body |
| `SearchStore` | the transactional index over a source table |

Digests and signatures are abstract: a collision-free digest is represented by what it covers, and "this signature
verifies under that key" is a fact of the context. Times, counters and revisions are unsigned 64-bit with their
overflow checks written out. Geometry and ranking are over exact reals.

## Findings

Where the code and its documentation, or a natural expectation, part ways, the model follows the code.

- `parse_ascii` documents one optional root dot but strips every trailing dot: it differs from what is documented if
  and only if the name ends in two dots and is otherwise well formed (`ParsesAsDocumentedExactly`); `a..` is the
  shortest (`TwoDotsAreAccepted`).
- The stored-record validator of an alias does not by itself give one acceptable sender per conversation
  (`ValidatorAdmitsTwoSenders`); a record it accepts does if and only if evidence and approval name the same sender
  wherever both name one (`OneSenderExactly`), and aliases reached by the transitions always do
  (`OneSenderPerConversation`).
- The JSON scanner breaks a negative integer of sixteen digits or more; `OutputIsJsonExactly` shows that it
  produces JSON tokens if and only if there is none.
- The search store's `INSERT OR REPLACE` on a unique name drops another id's source row. The tables stay in step if
  and only if no publication takes a name from a row still referred to (`RunStaysInSyncExactly`,
  `SharedNameBreaksSync`); and generations, removals and cleanups are permanent if and only if none takes a name from
  any other row, even one that was cleaned up (`RunMovesForwardExactly`). In between, with every table in step, a
  removed source comes back live at a lower generation (`RemovedComesBack`).
- The member's journal needs its rule that a failed command ends the process: carrying on after a failed save, the
  next request of that step leaves a transmission no file remembers unless nothing is sent, or the service is reached,
  accepts and answers and that answer is saved (`CarryingOnIsBackedExactly`).
- A save syncs the file but not its directory. A stopped process leaves the old state or the new one
  (`SaveIsAtomic`); after a power loss even a completed save may be gone, though never in part
  (`PowerLossLeavesAWholeState`). Over whole runs what was sent stays recorded if and only if no loss of power undoes
  the journaling of a step that was sent (`RunStaysSoundExactly`). As long as the service would commit any request, a
  step can take effect twice exactly when a loss undoes the journaling of one that took effect
  (`AtMostOnceSurvivesExactly`); three events of a new member are enough (`ForgettingRun`).
- A lane's rate limit is counted in windows, the first from the grant and every later one from a payment: a window
  never takes more than the maximum, and a stretch of one interval never more than twice the maximum, or one less once
  the lane has been used (`LimitsHoldOverRuns`). Bursts at the end of one window and the start of the next reach both
  bounds (`BurstsFillASpan`, `TwiceIsReached`).
- nDCG can exceed 1: for some grading if and only if a document is listed twice up to the cut-off
  (`BoundedExactlyWhenDuplicateFree`, `DuplicatesExceedOne`).
- The direct route records a lane's version before it is spent and the answer route after; both are kept.

## Model

| member | source | states |
|---|---|---|
| DomainNames.ParsingIsCanonicalization | crates/cs-mail-adapters/src/lib.rs:40-57 | what parsing returns is canonical and parses to itself; the canonical names, described without parsing, are exactly the fixed points |
| DomainNames.ParsingIgnoresCaseAndRootDots | crates/cs-mail-adapters/src/lib.rs:34-57 | names that differ in ASCII case parse alike, and any number of root dots changes nothing |
| DomainNames.ParsesAsDocumentedExactly | crates/cs-mail-adapters/src/lib.rs:34-57 | parsing differs from stripping at most one dot on exactly the names that end in two dots and are otherwise well formed, which it accepts |
| DomainNames.TwoDotsAreAccepted | crates/cs-mail-adapters/src/lib.rs:34-41 | a name with two trailing dots that is accepted |
| DomainNames.SubdomainIsLabelSuffix | crates/cs-mail-adapters/src/lib.rs:63-69 | the string-suffix test holds exactly when the parent's labels are a suffix of the child's labels |
| DomainNames.SubdomainOrder | crates/cs-mail-adapters/src/lib.rs:63-69 | a partial order, in which any two ancestors of one name are comparable |
| Lanes.ConsumeIsOneStep | crates/cs-mail-capabilities/src/lib.rs:564-620 | spending moves the lane exactly one version on, keeps it valid, its grant and what it had admitted, and records the message |
| Lanes.AuthorizesExactly | crates/cs-mail-capabilities/src/lib.rs:521-563 | a lane authorizes exactly when it is in force, the people, purpose, origin and authority are those granted, the message names it, and the evidence is of the very subject granted |
| Lanes.KindsNeverMix | crates/cs-mail-capabilities/src/lib.rs:44-66 | a stored lane for a native handle is used by native senders alone, one for a domain or a guest never |
| Lanes.ConsumeSucceedsExactly | crates/cs-mail-capabilities/src/lib.rs:564-620 | a new message is paid exactly when it is authorized, named, not before the last activity, and its window has room; the record left, field by field |
| Lanes.FromGrantExactly | crates/cs-mail-capabilities/src/lib.rs:450-473 | a lane begins active and unused, its window and horizon counted from the issue |
| Lanes.ConsumeIsIdempotent | crates/cs-mail-capabilities/src/lib.rs:564-620 | a message already paid for is authorized again without spending more |
| Lanes.LimitsHoldOverRuns | crates/cs-mail-capabilities/src/lib.rs:564-620 | over any run of attempts no message is paid for twice, no window takes more than the maximum, and no stretch of one interval more than twice the maximum, or one less for a lane used before |
| Lanes.BurstsFillASpan | crates/cs-mail-capabilities/src/lib.rs:564-620 | attempts that spend the rest of a window in its last moment and the whole next window are all paid: twice the maximum, less what the window had taken, within one interval |
| Lanes.TwiceIsReached | crates/cs-mail-capabilities/src/lib.rs:564-620 | for every maximum there is a valid lane, as its grant makes it, and a run of attempts that pays twice the maximum within one interval |
| AliasErrors.CollectSize | crates/cs-mail-accounts/src/aliases.rs:431-453 | comparing sizes after collecting into a map detects a repeated conversation exactly |
| Permission.OpenSucceedsExactly | crates/cs-mail-accounts/src/alias_permission.rs:136-182 | opening and removing succeed exactly when revision, time and overflow allow, and leave an open state for everyone under a new grant, or a closed one |
| Permission.NarrowSucceedsExactly | crates/cs-mail-accounts/src/alias_permission.rs:183-210 | narrowing succeeds exactly on an open permission with the owner's own evidence, and its new state is exactly those pairs under the old grant |
| Permission.SetSendersSucceedsExactly | crates/cs-mail-accounts/src/alias_permission.rs:211-218 | a set of lanes is accepted exactly when it is well formed and the change is timely, and becomes the state |
| Permission.ConsumeSucceedsExactly | crates/cs-mail-accounts/src/alias_permission.rs:239-259 | a spent lane is written back exactly when it is the next version of one held; only that entry changes |
| Permission.AuthorizesAliasExactly | crates/cs-mail-accounts/src/alias_permission.rs:219-238 | an open permission lets everyone write from its last change, a narrowed one its pairs, any other nobody |
| Aliases.CreateSucceedsExactly | crates/cs-mail-accounts/src/aliases.rs:336-358 | creation succeeds exactly for a named owner; its record, field by field, passes the validator, is active, and accepts every sender from then on |
| Aliases.AcceptsMailExactly | crates/cs-mail-accounts/src/aliases.rs:569-606 | whom an alias accepts, over its fields and for every phase: everyone while active; the pairs of its evidence or of approvals already given while restricted, and after a replacement until its deadline; nobody once retired; never before its last change |
| Aliases.ExistingSucceedsExactly | crates/cs-mail-accounts/src/aliases.rs:431-454 | evidence is accepted exactly when it is this alias's own, timely and without duplicates |
| Aliases.RestrictSucceedsExactly | crates/cs-mail-accounts/src/aliases.rs:455-475 | restricting succeeds exactly under its guards: the record validator never refuses what they let through |
| Aliases.RestrictedAcceptsEvidence | crates/cs-mail-accounts/src/aliases.rs:431-475 | a freshly restricted alias accepts exactly the pairs its evidence names |
| Aliases.ReplaceSucceedsExactly | crates/cs-mail-accounts/src/aliases.rs:476-516 | the same for replacement, including its deadline and its distinct, fresh successor |
| Aliases.RetireSucceedsExactly | crates/cs-mail-accounts/src/aliases.rs:517-532 | the same for retirement |
| Aliases.ApproveSucceedsExactly | crates/cs-mail-accounts/src/aliases.rs:533-568 | the same for approving one more conversation |
| Aliases.StepShape | crates/cs-mail-accounts/src/aliases.rs:399-568 | every successful step keeps identity, moves time and revision forward, keeps the invariant, and goes forward in the lifecycle |
| Aliases.StepWritesExactly | crates/cs-mail-accounts/src/aliases.rs:399-568 | everything a step writes: the permission alone, or the next revision, the moment and the exact phase with its evidence and approvals |
| Aliases.StepAcceptance | crates/cs-mail-accounts/src/aliases.rs:569-606 | what one step does to who may write, from every phase: leaving Active keeps exactly the pairs the evidence names, and every later step only takes away, except the pair it approves |
| Aliases.RunStaysSound | crates/cs-mail-accounts/src/aliases.rs:229-330 | over any run the alias round-trips through its stored record, and Active is never re-entered |
| Aliases.NothingWidens | crates/cs-mail-accounts/src/aliases.rs:407-606 | after a restriction, whoever may write at the end of any run could write before it or was approved during it; once replaced no approval succeeds |
| Aliases.RestrictionOnlyGrows | crates/cs-mail-accounts/src/aliases.rs:533-606 | from the restriction until the route ends, at its deadline once replaced, the accepted pairs are exactly the earlier ones and those approved |
| Aliases.FrozenAfterReplacement | crates/cs-mail-accounts/src/aliases.rs:476-606 | between a replacement and its deadline the accepted pairs do not change at all, whatever is tried |
| Aliases.DeadAfterDeadline | crates/cs-mail-accounts/src/aliases.rs:476-532 | from the deadline of a replacement, or from retirement, nobody may write, whatever is tried |
| Aliases.OneSenderPerConversation | crates/cs-mail-accounts/src/aliases.rs:569-606 | at most one sender is acceptable in each conversation of a reachable restricted alias |
| Aliases.OneSenderExactly | crates/cs-mail-accounts/src/aliases.rs:229-330 | a record the validator accepts gives one acceptable sender per conversation if and only if evidence and approval agree wherever both name a sender |
| Aliases.ValidatorAdmitsTwoSenders | crates/cs-mail-accounts/src/aliases.rs:229-330 | a record the validator accepts that lets two senders into one conversation |
| Aliases.RevisionCountsSuccesses | crates/cs-mail-accounts/src/aliases.rs:407-430 | the revision counts the successful lifecycle commands and fits the lifecycle; permission changes never move it |
| Aliases.OneSuccessPerRevision | crates/cs-mail-accounts/src/aliases.rs:407-430 | no two lifecycle commands of one alias succeed against the same expected revision |
| AliasCommands.ActivateGrants | crates/cs-mail-application/src/aliases.rs:475-556 | the loop over signed grants yields the specified lanes or the first refusal |
| AliasCommands.ActivateOneExactly | crates/cs-mail-application/src/aliases.rs:497-548 | a grant is activated exactly when this recipient's key signed it here, it is in force and for somebody else, and a granted domain is the sender's; it becomes an unused lane |
| AliasCommands.SendersSucceedsExactly | crates/cs-mail-application/src/aliases.rs:475-556 | a signed grant set becomes the permission exactly when 1 to 32 distinct grants can each be activated and the change is timely; its lanes are those grants', valid, in order |
| AliasCommands.PermissionChangeMatches | crates/cs-mail-application/src/aliases.rs:475-557 | a permission change yields the permission its command describes, one revision on |
| AliasCommands.PermissionChangeExactly | crates/cs-mail-application/src/aliases.rs:475-557 | a permission is changed exactly at the alias's present revision, while it is in use, by the permission's own rule, and never opened or narrowed when bonded |
| AliasCommands.GeneratedExactly | crates/cs-mail-application/src/aliases/generation.rs:121-128 | a generated address has two to eight lower-case letters and six digits before its at sign |
| AliasCommands.DomainExactly | crates/cs-mail-accounts/src/directory.rs:8-58 | the domain of an address is what follows its first at sign |
| AliasCommands.CreationMatches | crates/cs-mail-application/src/aliases.rs:601-623 | a creation writes one fresh alias as configured, at an unreserved id and address |
| AliasCommands.CreateAliasExactly | crates/cs-mail-application/src/aliases.rs:601-623 | an alias is created exactly under an unused id and an unused address of the host's domain; a bonded one begins closed, a scoped one open |
| AliasCommands.ReplacementMatches | crates/cs-mail-application/src/aliases.rs:627-654 | a replacement writes the former alias, linked, and its fresh successor |
| AliasCommands.ReplaceAliasExactly | crates/cs-mail-application/src/aliases.rs:627-654 | an alias is replaced exactly by an unused one of its owner and configuration, under the lifecycle's own rule; both rows are those it makes |
| AliasCommands.EstablishScopeExactly | crates/cs-mail-application/src/aliases.rs:1122-1178 | a sender's scope is established exactly at its present revision, over entrances the owner has, on an accepted relationship or its lane in force; it holds that relationship's version and lane |
| AliasCommands.MutatesExactly | crates/cs-mail-application/src/aliases.rs:558-774 | which commands mutate, one by one: each asks exactly its own rule of an alias of the portfolio |
| AliasCommands.MutationExactly | crates/cs-mail-application/src/aliases.rs:558-774 | what each command writes: the one alias its rule leaves, the two of a replacement, the scope, or the alias chosen for correspondence |
| AliasCommands.AnyLiveAliasRetires | crates/cs-mail-application/src/aliases.rs:558-774 | an alias in use, restricted or not, can always be retired at its present revision |
| AliasCommands.MutationMatches | crates/cs-mail-application/src/aliases.rs:558-774 | every mutation's outcome satisfies the receipt check of its own command |
| AliasCommands.FreshReceiptMatches | crates/cs-mail-application/src/aliases.rs:367-457 | every fresh receipt, refusals included, carries its command's digest and matches it; effects are what it reports |
| AliasCommands.AuthenticateExactly | crates/cs-mail-application/src/aliases.rs:367-400 | a request is taken exactly from the participant it names, for this deployment, signed with the persona's key while that is an active recipient key |
| AliasCommands.DecidesExactly | crates/cs-mail-application/src/aliases.rs:367-457 | a look lists the portfolio, a mutation reports and writes what it made, a refusal writes only its receipt |
| AliasCommands.ListsEveryAlias | crates/cs-mail-application/src/aliases.rs:422-432 | a look lists every alias of the portfolio |
| AliasCommands.ListsInOrder | crates/cs-mail-application/src/aliases.rs:422-432 | in the order of their identifiers |
| AliasCommands.MatchingSays | crates/cs-mail-application/src/aliases.rs:982-1120 | a receipt that matches its command says what that command asked: the right kind of outcome, for the owner, of the aliases or the scope named |
| AliasCommands.MatchingSaysOfOne | crates/cs-mail-application/src/aliases.rs:982-1120 | and of a single alias, the revision, the time and the state that command leaves |
| AliasCommands.ResubmissionReturnsReceipt | crates/cs-mail-application/src/aliases.rs:367-457 | the same request with that receipt on file gets it back verbatim, without effects, for as long as it authenticates |
| AliasCommands.ReceiptAnswersNoOtherRequest | crates/cs-mail-application/src/aliases.rs:982-1120 | no other request is answered from that receipt |
| AliasStore.AfterKeepsInv | crates/cs-mail-storage-postgres/src/aliases.rs:39-146 | every transaction keeps the store invariant, and the upsert's owner and address guard never fires |
| AliasStore.SnapshotExactly | crates/cs-mail-storage-postgres/src/aliases.rs:39-146 | a command is decided on its owner's rows alone, every identifier and address ever used, the directory's addresses, and its own receipt |
| AliasStore.CommitsExactly | crates/cs-mail-storage-postgres/src/aliases.rs:39-146 | a committed command leaves every row it made as made, every other row and receipt as it was, and its receipt |
| AliasStore.SpendingIsAStep | crates/cs-mail-storage-postgres/src/aliases.rs:271-299 | writing a spent lane back is one permission step of its row, which keeps everything else and only valid lanes |
| AliasStore.PersistsExactly | crates/cs-mail-storage-postgres/src/aliases.rs:271-299 | a spent lane is written back exactly into its recipient's row, at the permission revision and the lane version it was admitted on |
| AliasStore.SpendsExactly | crates/cs-mail-storage-postgres/src/aliases.rs:271-299 | and leaves the lane as paid in its old place, with every other lane, row and receipt as it was |
| AliasStore.ReachableStoresAreSound | crates/cs-mail-application/src/aliases.rs:601-654 | in every store reached by commands and deliveries no alias replaces two others, no address is shared, links lead to later aliases and every lane on file is valid |
| AliasStore.ChainEnds | crates/cs-mail-accounts/src/aliases.rs:476-513 | following replacement links ends, visits no alias twice, and ends at one in force or retired |
| AliasStore.ChainGoesForward | crates/cs-mail-accounts/src/aliases.rs:476-513 | every alias along the chain was issued later than the ones before it |
| AliasStore.RowTakesAliasSteps | crates/cs-mail-application/src/aliases.rs:558-774 | whatever a transaction does to an existing row is at most one step of that alias's own life |
| AliasStore.ManagedPermission | crates/cs-mail-application/src/aliases.rs:475-557 | a management command leaves a permission alone or moves its revision on by one |
| AliasStore.IssuedForever | crates/cs-mail-storage-postgres/src/aliases.rs:39-146 | over any run of commands and deliveries an alias once issued keeps its row, owner, address, configuration and birth; its later history is a run of its own transitions |
| AliasStore.DeadRoutesStayDead | crates/cs-mail-application/src/aliases.rs:558-774 | past its deadline or retirement an alias accepts no mail after any run of commands and deliveries |
| AliasStore.ReceiptsAreForever | crates/cs-mail-storage-postgres/src/aliases.rs:39-146 | a receipt on file is never overwritten, by commands or by deliveries |
| AliasStore.CommittedOnce | crates/cs-mail-application/src/aliases.rs:367-457 | over any run a committed request is answered with its own receipt ever after and changes nothing again |
| Admission.ScanPaired | crates/cs-mail-application/src/aliases.rs:907-955 | the scan with its skips returns what the specification of the first usable lane says |
| Admission.FirstPairedIsFirstLive | crates/cs-mail-application/src/aliases.rs:907-955 | a lane is found exactly when the sender may use one now, and it comes with the evidence it was checked against |
| Admission.FirstPairedIsFirst | crates/cs-mail-application/src/aliases.rs:907-955 | the lane found is the first of the list the sender may use now |
| Admission.MayUseExactly | crates/cs-mail-application/src/aliases.rs:907-955 | when a paired lane admits, over its fields: a native or guest lane exactly the sender it was granted to, on evidence of its own handle or mailbox; a domain lane exactly an author within the domain on evidence at most 300000 ms old and not from the future; in force, the owner's, declared as granted |
| Admission.PairedExactly | crates/cs-mail-application/src/aliases.rs:907-955 | the scan finds a lane exactly when one of the permission's lanes may be used |
| Admission.AuthorizationIsSound | crates/cs-mail-application/src/aliases.rs:775-899 | an authorization means coverage, an authenticated other sender, no block, no review, an accepting lifecycle and a live basis |
| Admission.AuthorizationIsComplete | crates/cs-mail-application/src/aliases.rs:775-899 | an unobstructed sender with any live permission is authorized |
| Admission.AdmitsExactly | crates/cs-mail-application/src/aliases.rs:775-899 | an authorization is given exactly to a clear sender whom the permission, a paired lane or the relationship lets write, and on the first of those |
| Admission.RelationshipExactly | crates/cs-mail-application/src/aliases.rs:854-899 | a relationship serves exactly a sender whose scope names this alias at its present version, accepted without a lane or by its lane in force; a lane that may not be used is an error |
| Admission.OpenAliasAdmits | crates/cs-mail-application/src/aliases.rs:775-853 | an active alias open to all admits every covered, unblocked, unreviewed sender but its owner |
| Admission.OthersExactly | crates/cs-mail-application/src/aliases.rs:781-906 | exactly who is asked to pay and whose mail is held |
| Admission.RefusalsExactly | crates/cs-mail-application/src/aliases.rs:781-906 | the reasons for a refusal, in their order |
| Admission.PolicyLimits | crates/cs-mail-application/src/aliases.rs:781-906 | an alias-scoped alias never asks for a paid request; a bonded one never holds mail and carries no broad permission |
| Admission.DomainLanesAreBounded | crates/cs-mail-application/src/aliases.rs:907-955 | a paired domain lane reaches no further than its domain and its evidence's five minutes |
| Admission.RemovalCloses | crates/cs-mail-application/src/aliases.rs:475-557 | a committed Remove leaves the permission closed |
| Admission.ClosedUntilReopened | crates/cs-mail-application/src/aliases.rs:475-557 | over any run of commands and deliveries without a later Open or Senders command it stays closed |
| Admission.RemovalHolds | crates/cs-mail-application/src/aliases.rs:775-955 | meanwhile no admission rests on the alias's own permission, and no lane can be written back into it |
| Conversations.OperationsKeepIdentity | crates/cs-mail-correspondence/src/policy.rs:139-230 | changing policy, binding a subject and receiving keep a conversation's id and pair and leave a record that can be stored |
| Conversations.ChangeSucceedsExactly | crates/cs-mail-correspondence/src/policy.rs:193-230 | when a policy change succeeds and all it leaves: a restriction closes and drops any proposal, a proposal names its actor, only the other side's approval opens again |
| Conversations.PermitsExactly | crates/cs-mail-correspondence/src/policy.rs:188-192 | an open conversation's messages may go anywhere, any other's only to its own pair |
| Conversations.PairsExactly | crates/cs-mail-correspondence/src/policy.rs:13-40 | two distinct personas make one pair in either order, and each sees the other |
| Conversations.RecordsExactly | crates/cs-mail-correspondence/src/policy.rs:139-187 | a subject is bound once; receiving records the message and its epoch for its receiver alone, who may answer it in that epoch |
| Conversations.NoUnilateralRelaxation | crates/cs-mail-correspondence/src/policy.rs:193-230 | one participant alone can never relax a restricted conversation, over any run |
| SourceGraph.PushEdges | crates/cs-mail-application/src/correspondence.rs:692-741 | the inner loop pushes all edges of a message, or reports the first bad one |
| SourceGraph.PushDirectEdges | crates/cs-mail-application/src/correspondence.rs:692-741 | the first loop pushes all direct sources, or reports the first bad one |
| SourceGraph.CheckPolicies | crates/cs-mail-application/src/correspondence.rs:692-741 | the worklist loop ends, by unvisited budget and pending length, with the result of the specified walk |
| SourceGraph.WalkExact | crates/cs-mail-application/src/correspondence.rs:705-740 | the walk succeeds exactly when everything reachable is present, permitting and fitting, within 1024 messages |
| SourceGraph.PoliciesExact | crates/cs-mail-application/src/correspondence.rs:692-741 | success exactly when the graph rule allows the reuse, with exactly the revisions of all reached conversations and the destination |
| SourceGraph.PoliciesRule | crates/cs-mail-application/src/correspondence.rs:692-741 | the same over the records' fields: the writer takes part everywhere they quote from directly, quotations fit, everything reached may leave for the pair, at most 1024 messages |
| SourceGraph.FitsExactly | crates/cs-mail-correspondence/src/selection.rs:95-113 | a selection fits the version of the message it names when its text ranges end within a text block and its images are image blocks |
| SourceGraph.MoreSourcesNeverHelp | crates/cs-mail-application/src/correspondence.rs:692-741 | adding sources never turns a refusal into success |
| SourceGraph.RestrictionNeverHelps | crates/cs-mail-correspondence/src/policy.rs:188-230 | restricting a conversation never turns a refusal into success |
| SourceGraph.RestrictionConfines | crates/cs-mail-application/src/correspondence.rs:692-741 | after a successful restriction every manifest that reaches a message of that conversation from a conversation of another pair is refused |
| Correspondence.BuildingCannotFail | crates/cs-mail-application/src/correspondence.rs:345-540 | after the package checks no checked constructor can fail |
| Correspondence.PreparedIsCoherent | crates/cs-mail-application/src/correspondence.rs:768-834 | message, people, time and provenance agree across route, record, copies and conversation |
| Deliveries.PreparedExactly | crates/cs-mail-application/src/correspondence.rs:768-837 | a package is ready exactly when its two copies say the same for their two readers, last no more than ninety days, and are sealed by one sender's key for the custody key |
| Deliveries.RoutesExactly | crates/cs-mail-application/src/aliases.rs:1278-1322 | a delivered route says field by field what its authorization or its alias says |
| Correspondence.DirectAuthorityIsFaithful | crates/cs-mail-application/src/correspondence.rs:1406-1450 | a direct authority is an unobstructed admission of this very message on a live basis; a sender's own lane is spent only as the signed package names it, a paired lane is one of the alias's own |
| Correspondence.DirectAuthorityExactly | crates/cs-mail-application/src/correspondence.rs:1406-1450 | a direct authority is given exactly when admission authorizes on these facts, and a sender's own lane is named by the package |
| Correspondence.DirectLane | crates/cs-mail-application/src/correspondence.rs:1075-1212 | a lane is written exactly for an express lane admission, spent by this message; the recorded version is the one before |
| Correspondence.DirectAdmissionExactly | crates/cs-mail-application/src/correspondence.rs:1122-1172 | the admission a direct delivery records and the lane it writes, for each basis; a lane that has paid for the message pays for nothing |
| Correspondence.DirectPreparationExactly | crates/cs-mail-application/src/correspondence.rs:1075-1121 | which packages the direct route lets through, over the records: a free message, two distinct people, a conversation of theirs that agrees on the subject and passes the graph, or a new one without sources |
| Correspondence.DirectSendExactly | crates/cs-mail-application/src/correspondence.rs:1075-1212 | the direct route fails only in its explicit checks, and delivers coherently, with a new message id, leaving the receiver what they may answer by |
| Correspondence.DirectSendParts | crates/cs-mail-application/src/correspondence.rs:1075-1212 | its draft is on the authorization's own route, records that admission and lane, and observes the graph's revisions |
| Correspondence.AnswerLane | crates/cs-mail-application/src/correspondence.rs:898-968 | the answer's lane is written exactly for an express lane admission; the recorded version is the one after |
| Correspondence.AdmitMessageExactly | crates/cs-mail-application/src/correspondence.rs:898-968 | an answer rests on the accepted relationship, else on the message answered unless the package names a lane |
| Correspondence.AnswerByLaneExactly | crates/cs-mail-application/src/correspondence.rs:898-968 | else on its native lane, once, recorded by the version after spending |
| Correspondence.AnswerBasisExactly | crates/cs-mail-application/src/correspondence.rs:643-660 | there is something to answer exactly when the conversation remembers a message for this reader in the contact's epoch |
| Correspondence.ContactExactly | crates/cs-mail-application/src/correspondence.rs:613-642 | a contact serves its own two people unless blocked or revoked, while accepted, with something to answer, or by a native lane in force |
| Correspondence.AnswerPreparationExactly | crates/cs-mail-application/src/correspondence.rs:1214-1254 | which packages the answer route lets through, over the records |
| Correspondence.AnswerSendExactly | crates/cs-mail-application/src/correspondence.rs:1214-1294 | the answer route fails only in its checks, in admission or in the source graph, and delivers coherently, leaving the receiver what they may answer by |
| Correspondence.AnswerSendParts | crates/cs-mail-application/src/correspondence.rs:1254-1290 | its draft is on the alias's route at its present revision, records that admission and lane, and observes the graph's revisions |
| Correspondence.SendTakesItsRoute | crates/cs-mail-application/src/correspondence.rs:1014-1214 | a send takes the direct route whenever there is an authority for it, and otherwise answers, unless it was meant for the address alone |
| Correspondence.SendIsOneDelivery | crates/cs-mail-application/src/correspondence.rs:1303-1328 | a successful send commits exactly one coherent delivery of its own message; the conversation it writes remembers this message for its receiver, at the epoch of the receiver's contact or 0, and forgets nobody else's, unless the contact is blocked or revoked, and then remembers what it did |
| Correspondence.ReceivingRemembers | crates/cs-mail-application/src/correspondence.rs:1178-1196 | what a delivery leaves to answer by, over the records alone |
| Correspondence.CreateExactly | crates/cs-mail-application/src/correspondence.rs:1053-1062 | a conversation is created exactly with a contact under a free id, between the two, with its subject, open and unused |
| Correspondence.PolicyChangeExactly | crates/cs-mail-application/src/correspondence.rs:1063-1072 | a policy command writes, answers and records exactly the change its participant may make |
| Correspondence.DeleteExactly | crates/cs-mail-application/src/correspondence.rs:1296-1300 | any participant, and nobody else, may have the copies of a conversation deleted |
| Correspondence.DeliveryPaysAsRecorded | crates/cs-mail-application/src/correspondence.rs:1014-1311 | a delivery recorded as paid by a paired sender spends one lane of the very permission it was admitted on, at its revision and version, by this message |
| Correspondence.DeliveryWasAccepted | crates/cs-mail-application/src/correspondence.rs:1014-1311 | on either route the alias itself accepts the sender in that conversation at that moment |
| Correspondence.DeliveriesRespectPolicies | crates/cs-mail-application/src/correspondence.rs:1014-1311 | no delivery reuses what the source graph forbids, and a new conversation begins without sources |
| Correspondence.MutationChangesOnce | crates/cs-mail-application/src/correspondence.rs:1014-1328 | an executed mutation makes one change of its own kind, and its response fits its replay check; reads change nothing |
| Correspondence.RefusalsAreRecorded | crates/cs-mail-application/src/correspondence.rs:970-1011 | a failed mutation is recorded as a refusal, except an unresolved policy or an unavailable key, which record nothing |
| Correspondence.MutationsAreRecordedOnce | crates/cs-mail-application/src/correspondence.rs:970-1011 | every decided mutation leaves one receipt of its own for one change or one refusal |
| Correspondence.AuditsExactly | crates/cs-mail-application/src/correspondence.rs:249-280 | which commands leave a receipt, and of what action |
| Correspondence.GraphExactly | crates/cs-mail-application/src/correspondence.rs:692-741 | the graph a manifest is checked against is the context's own conversations and the manifests of its messages |
| Correspondence.AuthenticateExactly | crates/cs-mail-application/src/correspondence.rs:839-849 | a request is taken exactly when it is filled in and signed with the persona's current key |
| Correspondence.StateExactly | crates/cs-mail-application/src/correspondence.rs:742-767 | a copy is available exactly to a participant until its retention ends; everything else a stranger asks about is denied alike |
| Correspondence.FetchExactly | crates/cs-mail-application/src/correspondence.rs:1330-1357 | a message is handed out exactly while its copy is held |
| Correspondence.ResolveExactly | crates/cs-mail-application/src/correspondence.rs:1384-1405 | a quoted source is handed out like a message, if the selection fits it |
| Correspondence.AssessExactly | crates/cs-mail-application/src/correspondence.rs:1358-1383 | assessing tells a participant whether the graph allows it and what of each source the other side still has |
| Correspondence.UnexpiredExactly | crates/cs-mail-application/src/correspondence.rs:1037-1052 | the mailbox lists exactly the entries whose retention has not ended, in their order |
| Correspondence.ReadingsExactly | crates/cs-mail-application/src/correspondence.rs:1014-1075 | reads answer from the context and record nothing; a mailbox resumes after the last entry looked at, and at most a hundred routes are asked about |
| Correspondence.ReplayReturnsResponse | crates/cs-mail-application/src/correspondence.rs:850-896 | with a receipt on file the same request gets that response and no effects, whatever else changed, while it authenticates |
| Correspondence.ReplaysExactly | crates/cs-mail-application/src/correspondence.rs:850-896 | a receipt answers exactly the request it was made for, with an outcome of its own kind |
| CorrespondenceStore.AfterKeepsInv | crates/cs-mail-application/src/correspondence.rs:575-600 | every transaction keeps the store coherent and every message exactly as delivered |
| CorrespondenceStore.CommitsExactly | crates/cs-mail-application/src/correspondence.rs:575-600 | a committed decision is stored whole under its own keys, and no other row moves |
| CorrespondenceStore.ReceiverMayAnswer | crates/cs-mail-application/src/correspondence.rs:1178-1196 | in the store a delivery leaves, its receiver has the message to answer by at their contact's epoch, or exactly what they had before when the contact is blocked or revoked |
| CorrespondenceStore.AnswerHasItsBasis | crates/cs-mail-application/src/correspondence.rs:643-660 | so whoever the message went to has an answer basis toward its author by a contact of that epoch |
| CorrespondenceStore.RunKeepsMessages | crates/cs-mail-application/src/correspondence.rs:575-600 | over any run conversations keep id and scope, messages and receipts are never rewritten |
| CorrespondenceStore.ReachableStoresAreCoherent | crates/cs-mail-application/src/correspondence.rs:575-600 | in every reachable store every message sits in a retained conversation that agrees with it |
| CorrespondenceStore.DeliveredAtMostOnce | crates/cs-mail-application/src/correspondence.rs:1075-1311 | no two requests of a run ever deliver the same message |
| CorrespondenceStore.CommittedOnce | crates/cs-mail-application/src/correspondence.rs:850-896 | over any run a request with a receipt is answered from it and changes nothing again |
| Deployment.SpendingNeverConflicts | crates/cs-mail-storage-postgres/src/aliases.rs:271-299 | a delivery on a paired sender always writes its lane back: the version conflict that would undo it cannot occur within its transaction |
| Deployment.RunProjects | crates/cs-mail-storage-postgres/src/correspondence.rs:128-173 | any joint run of management commands and correspondence is a run of each store, so the laws of either hold of both together |
| Deployment.ReachableWorldsAreSound | crates/cs-mail-storage-postgres/src/correspondence.rs:128-173 | in every reachable world both stores are sound and every message keeps its place and text |
| Deployment.NothingEntersADeadRoute | crates/cs-mail-storage-postgres/src/correspondence.rs:128-173 | over any joint run a retired alias, or one past its deadline, receives nothing more on either route |
| DeliveryEvidence.OneSenderDelivers | crates/cs-mail-storage-postgres/src/aliases.rs:148-166 | on one alias all deliveries in one conversation have one sender, requested ones included |
| DeliveryEvidence.AdmittedExactly | crates/cs-mail-storage-postgres/src/aliases.rs:148-166 | the query returns exactly the earliest record of each alias, conversation and named sender on the owner's own aliases |
| DeliveryEvidence.EvidenceIsDistinct | crates/cs-mail-storage-postgres/src/aliases.rs:148-166 | the evidence read for an alias never lists a conversation twice, so the check for duplicates never fires |
| DeliveryEvidence.RestrictionSucceedsExactly | crates/cs-mail-accounts/src/aliases.rs:431-475 | on the evidence recorded a restriction is refused only for phase, revision, a clock before what was delivered, or what another service recorded being the owner's own or older than the alias |
| Deployment.RestrictionFreezesDeliveries | crates/cs-mail-storage-postgres/src/aliases.rs:148-166 | a committed restriction accepts exactly the senders and conversations in the view of everything delivered on that alias |
| Deployment.FrozenWhileOpen | crates/cs-mail-storage-postgres/src/aliases.rs:148-166 | over any joint run while the route is open, a pair is accepted exactly if it had delivered before the restriction or was approved since |
| PairedLanes.RunPays | crates/cs-mail-storage-postgres/src/aliases.rs:271-299 | over any joint run that leaves the permission's revision alone, a lane is paid exactly by what was delivered on it, in order |
| PairedLanes.LimitsHold | crates/cs-mail-capabilities/src/lib.rs:564-620 | so in a deployment a lane never pays for a message twice, in the run or from before it, a window never takes more than the maximum, nor an interval more than twice it, or one less for a lane used before |
| Engine.ApplyScheduleChanges | crates/cs-mail-application/src/lib.rs:553-568 | the loop of insertions and removals is the fold of the changes |
| Engine.LastChangeDecides | crates/cs-mail-application/src/lib.rs:553-568 | the last change of a task decides whether and when it runs |
| Engine.UnnamedStays | crates/cs-mail-application/src/lib.rs:553-568 | a task no change names keeps what it had |
| Engine.SettleProgram | crates/cs-mail-application/src/lib.rs:353-365 | the two settlement loops compute the specified program or stop at the first failure |
| Engine.ForfeitExactly | crates/cs-mail-application/src/lib.rs:353-360 | every forfeited source is recorded once, in turn, or none |
| Engine.HoldExactly | crates/cs-mail-application/src/lib.rs:361-365 | every reversal is noted once, in turn, or none |
| Engine.InMemoryStore.Register | crates/cs-mail-application/src/lib.rs:197-248 | registration writes exactly the specified store, or nothing when refused |
| Engine.RegistrationExactly | crates/cs-mail-application/src/lib.rs:197-248 | a relationship is registered exactly when it is new, its pair has none and its history is its recipient's; it begins with nothing done, and shared data is left as it is |
| Engine.InMemoryEngine.Execute | crates/cs-mail-application/src/lib.rs:273-403 | one call leaves exactly the specified store and returns the recorded transition, a fresh one or a refusal; what that store and that answer are, field by field, is `CommitWritesItsManifest`, `CommitsExactly` and `KnownKeysAreAnswered` |
| Engine.CommitWritesItsManifest | crates/cs-mail-application/src/lib.rs:340-400 | every commit writes the transition it records, all of it: the projection, payments and messages its manifest names, the ledger its batch was posted to, its history, and the unit's program settled; nothing shared but these moves |
| Engine.CommitsExactly | crates/cs-mail-application/src/lib.rs:273-365 | a call commits exactly when its facts are for this store, its key is new, the kernel transitions the store as it stands, the ledger takes the batch and the program settles |
| Engine.KnownKeysAreAnswered | crates/cs-mail-application/src/lib.rs:290-306 | a known key returns the recorded transition to its own command and refuses any other |
| Engine.RegistrationKeepsInv | crates/cs-mail-application/src/lib.rs:197-248 | registering disturbs no other relationship and keeps one relationship per pair |
| Engine.CallFootprint | crates/cs-mail-application/src/lib.rs:273-403 | errors and replays change nothing; a commit touches one relationship, extends its journal and outbox, and moves revision, position and key count together |
| Engine.EventFootprint | crates/cs-mail-application/src/lib.rs:197-403 | a call or registration that is no first success changes nothing, and one that is touches only its own relationship |
| Engine.RetriesAreInvisible | crates/cs-mail-application/src/lib.rs:273-403 | any run of calls and registrations with retries and failures ends in the store its first successes alone produce |
| Engine.RecordsAreForever | crates/cs-mail-application/src/lib.rs:273-403 | over any run of calls and registrations a recorded key keeps its transition |
| Engine.CommittedOnce | crates/cs-mail-application/src/lib.rs:273-403 | repeating a committed call returns its transition and changes nothing; another command under that key is refused |
| Engine.RunIsFoldOfCommits | crates/cs-mail-application/src/lib.rs:273-403 | journal and outbox only extend, schedules are the fold of all committed changes, and revision, keys and positions count the commits |
| Engine.RunStandsAtItsLastCommit | crates/cs-mail-application/src/lib.rs:273-403 | over any run a relationship's projection, payments and messages are those of its last commit, or the starting ones, and its ledger has taken every committed batch in order |
| Engine.RunKeepsLastHistory | crates/cs-mail-application/src/lib.rs:374-378 | a history shared by several relationships is what the last commit naming it made of it |
| Engine.RunSettlesEveryCommit | crates/cs-mail-application/src/lib.rs:353-373 | a unit's program has been taken through the settlement of every commit in that unit, in order, none lost and none twice |
| Engine.JoinedStartsEmpty | crates/cs-mail-application/src/lib.rs:197-248 | a relationship registered in the middle of a run holds afterwards exactly what it commits |
| MemberFile.SaveIsAtomic | apps/cs-mail-cli/src/state.rs:60-87 | stopped after any of its steps, over any stale temporary file, a save leaves the new state if it was complete and otherwise what was read before |
| MemberFile.PowerLossLeavesAWholeState | apps/cs-mail-cli/src/state.rs:65-87 | a power loss during or after a save can leave exactly the states one before it could leave, and the new one once the save is complete |
| MemberFile.SyncIsNeeded | apps/cs-mail-cli/src/state.rs:79-84 | renamed without the sync, the main file could hold anything after a power loss |
| MemberJournal.Member.Save | apps/cs-mail-cli/src/state.rs:67-87 | the steps of a save, stopped anywhere, leave the journal in memory or the former one on file and always a readable file |
| MemberJournal.Member.LosePower | apps/cs-mail-cli/src/state.rs:65-87 | whatever files a power loss leaves, the next process opens one of the journals it may |
| MemberJournal.Member.Request | apps/cs-mail-cli/src/member.rs:194-239 | one journaled request leaves exactly the specified files, wire and service |
| MemberJournal.RequestsSendExactly | apps/cs-mail-cli/src/member.rs:194-239 | an unanswered step sends exactly the entry recorded for it, once, if the process lives to, and the service acts on exactly that |
| MemberJournal.RequestsEndExactly | apps/cs-mail-cli/src/member.rs:194-239 | its entry is on disk whatever happens, with the service's answer exactly when everything goes well |
| MemberJournal.AnsweredStepsAreFinal | apps/cs-mail-cli/src/member.rs:194-204 | an answered step is answered from the journal and nothing is sent |
| MemberJournal.UnsavedStepsLeaveNothing | apps/cs-mail-cli/src/member.rs:205-217 | a step that cannot be built or saved leaves nothing and sends nothing |
| MemberJournal.FailuresAreTold | apps/cs-mail-cli/src/member.rs:218-239 | which failure is reported when |
| MemberJournal.Member.Retry | apps/cs-mail-cli/src/member.rs:1354-1374 | retrying sends only requests pending when it began, each at most once, and stops at the first failure; ending well it has sent them all and none is pending |
| MemberJournal.JournaledKeepsInv | apps/cs-mail-cli/src/member.rs:194-239 | in any weather a request leaves a sound state that only adds to what was durable |
| MemberJournal.RunStaysSoundExactly | apps/cs-mail-cli/src/member.rs:194-239 | over every run with lost answers, crashes, losses of power and other clients everything sent is durably journaled at every moment, if and only if no loss of power undoes the journaling of a step already sent |
| MemberJournal.RunKeepsInv | apps/cs-mail-cli/src/member.rs:194-239 | without losses of power durable history only grows, and nothing is sent before its entry is durable |
| MemberJournal.TransmissionsAreIdentical | apps/cs-mail-cli/src/member.rs:194-239 | as long as nothing sent is forgotten, all transmissions of one step carry one route and one body, whatever arguments it is run with again |
| MemberJournal.EachStepTakesEffectAtMostOnce | apps/cs-mail-cli/src/member.rs:194-239 | composed with the engine, each step is committed at most once, as long as no loss of power forgets one that took effect |
| MemberJournal.AtMostOnceSurvivesExactly | apps/cs-mail-cli/src/member.rs:194-239 | a loss of power leaves at-most-once intact if and only if the journal it keeps has every step that took effect, as soon as the service would commit anything |
| MemberJournal.ForgettingRun | apps/cs-mail-cli/src/member.rs:194-239 | a new member's command, a loss of power and the same step built anew take effect twice, if the service commits both requests |
| MemberJournal.DurableAnswerIsFinal | apps/cs-mail-cli/src/member.rs:194-239 | without a loss of power a durable answer is returned unchanged and nothing more is sent |
| MemberJournal.CarryingOnIsBackedExactly | apps/cs-mail-cli/src/member.rs:194-239 | from any sound state, a process carrying on after a failed save leaves its next transmission recorded exactly when it sends nothing, or the service is reached, accepts and answers and the answer is kept and saved |
| RankMetrics.NoRankingBeatsIdeal | tools/embedding-evaluation/common.py:112-119 | the rearrangement inequality: no distinct documents in any order gain more than the best grades in descending order |
| RankMetrics.OnlyIdealReachesIdeal | tools/embedding-evaluation/common.py:112-119 | where every misplacement costs, reaching the ideal sum means showing the ideal grades |
| RankMetrics.DiscountsAreFair | tools/embedding-evaluation/common.py:116-118 | every positive non-increasing discount meets what the inequality asks, every decreasing one what uniqueness asks |
| RankMetrics.WeighExactly | tools/embedding-evaluation/common.py:116-118 | a grade weighs one less than a power of two, times the rank's discount |
| RankMetrics.DcgGrows | tools/embedding-evaluation/common.py:115-116 | each document adds the weight of its grade at its place up to the cut-off, and nothing after |
| RankMetrics.IdealExactly | tools/embedding-evaluation/common.py:117-118 | the ideal is the same sum over all grades in descending order |
| RankMetrics.GradeExactly | tools/embedding-evaluation/common.py:115 | a judged document has its grade, any other none |
| RankMetrics.NdcgIsBounded | tools/embedding-evaluation/common.py:112-122 | the ideal is positive and nDCG lies in [0, 1] for every grading and every ranking without a repeat up to the cut-off |
| RankMetrics.BoundedExactlyWhenDuplicateFree | tools/embedding-evaluation/common.py:112-122 | a ranking never gains more than the ideal, whatever the grades, if and only if it repeats nothing up to the cut-off |
| RankMetrics.PerfectExactlyWhenIdeal | tools/embedding-evaluation/common.py:112-122 | nDCG is 1 if and only if the ranking shows the ideal grades rank by rank |
| RankMetrics.DescendingOrderIsPerfect | tools/embedding-evaluation/common.py:112-122 | listing the graded items in descending order scores 1, whatever follows |
| RankMetrics.DuplicatesExceedOne | tools/embedding-evaluation/common.py:112-122 | one relevant document listed twice scores more than the ideal |
| RankFusion.FusedRank | tools/embedding-evaluation/common.py:104-109 | the result holds each identifier of the two cut rankings once, by falling score and then identifier |
| RankFusion.FusedOrderExactly | tools/embedding-evaluation/common.py:104-109 | of two documents the one whose ranks r sum to more as 1 / (60 + r) comes first, absent ones counting nothing, and in a tie the smaller identifier |
| RankFusion.RanksCompareExactly | tools/embedding-evaluation/common.py:104-109 | for documents in both rankings that is an inequality of whole numbers over their ranks and 60 |
| RankFusion.FusionIsDetermined | tools/embedding-evaluation/common.py:104-109 | there is only one such result, the same whichever ranking comes first |
| RankFusion.FusionIsUnanimous | tools/embedding-evaluation/common.py:104-109 | whatever stands ahead in both rankings stands ahead in the result |
| RankFusion.FusionOfOne | tools/embedding-evaluation/common.py:104-109 | fusing a ranking with itself or with nothing gives it back |
| RankFusion.DistinctOf | tools/private-mail-evaluation/evaluate.py:207-212 | the loop with its set of seen messages computes the specified list |
| RankFusion.DistinctKeepsFirsts | tools/private-mail-evaluation/evaluate.py:207-212 | an identifier is kept exactly when no earlier one is of the same message |
| RankFusion.DistinctKeepsOrder | tools/private-mail-evaluation/evaluate.py:207-212 | what is kept stays in its order |
| RankFusion.DistinctIsFresh | tools/private-mail-evaluation/evaluate.py:207-212 | no two kept identifiers are of one message |
| RankFusion.MethodRankings | tools/private-mail-evaluation/evaluate.py:214-223 | the hybrid list shows one passage per message in fused order, the semantic ranking's where it has the message |
| MineralCells.Clip | tools/terrazzo-assets/main.swift:158-173 | the loop with its previous point and distance computes the specified polygon, and never divides by zero |
| MineralCells.ClipStaysInside | tools/terrazzo-assets/main.swift:158-173 | every vertex satisfies the half-plane and every half-plane all inputs satisfied; vertices already inside stay |
| MineralCells.ClipKeepsCover | tools/terrazzo-assets/main.swift:158-173 | a polygon turning left around a point still does, and still covers what it covered inside the half-plane |
| MineralCells.ClipKeepsOutline | tools/terrazzo-assets/main.swift:158-173 | clipping the outline of an intersection of half-planes gives the outline of the smaller intersection |
| MineralCells.OutlineIsExact | tools/terrazzo-assets/main.swift:139-156 | an outline covers exactly the intersection of its half-planes |
| MineralCells.BisectorMeansCloser | tools/terrazzo-assets/main.swift:149-152 | the bisector's half-plane is exactly the points at least as close to the own site |
| MineralCells.SitesDiffer | tools/terrazzo-assets/main.swift:126-130 | sites of different slots never coincide |
| MineralCells.PlaceExactly | tools/terrazzo-assets/main.swift:126-130 | a site stands in its slot, at least 0.04 of it from every edge, evenly by its jitter |
| MineralCells.PrefersExactly | tools/terrazzo-assets/main.swift:146-153 | a neighbour takes away exactly the points strictly closer to its site, if it is another slot with a site |
| MineralCells.Cell | tools/terrazzo-assets/main.swift:139-156 | the cell's polygon covers exactly the points of its square at least as close to its site as to every neighbouring site, and winds around the site |
| JsonScanner.Scan | apps/cs-mail-web/app.js:55-76 | the index loop with its in-string flag computes the specified text |
| JsonScanner.ScanIsIdempotent | apps/cs-mail-web/app.js:55-76 | scanning the output again changes nothing, for every text |
| JsonScanner.StringIsCopied | apps/cs-mail-web/app.js:61-67 | every string literal with its escapes is copied unchanged |
| JsonScanner.ScanIsTokenwise | apps/cs-mail-web/app.js:55-76 | the scan of a JSON text (RFC 8259, sections 2, 6 and 7) is the concatenation of what it writes for each token |
| JsonScanner.ScanKeepsTokensExactly | apps/cs-mail-web/app.js:55-76 | the output is the same tokens with long unsigned integers as strings if and only if no negative integer is long |
| JsonScanner.OutputIsJsonExactly | apps/cs-mail-web/app.js:55-76 | the output is JSON tokens at all if and only if no negative integer is long |
| JsonScanner.LongNegativeAlone | apps/cs-mail-web/app.js:68-72 | any long negative integer becomes a bare minus sign before a string |
| JsonScanner.KeptIsWellFormed | apps/cs-mail-web/app.js:55-76 | the kept tokens are a well-formed text without long unsigned integers |
| JsonScanner.UnquotedIsExact | apps/cs-mail-web/app.js:68-72 | an unsigned literal without leading zeros stays a number exactly below 10 to the 15, so never beyond 2 to the 53, and is quoted otherwise, wherever it stands |
| JsonScanner.KeptIntegersAreExact | apps/cs-mail-web/app.js:53-76 | no unsigned integer a parser then reads as a number exceeds 2 to the 53 |
| Utf8.DecodesExactly | tools/private-mail-evaluation/evaluate.py:186-193 | the strict decoder inverts the encoder of section 3 of RFC 3629, and accepts no other bytes |
| PassageWindows.WindowsCount | tools/private-mail-evaluation/evaluate.py:140-154 | there are max(1, ceil((n - 64) / 320)) windows, the last one ending with the last token |
| PassageWindows.WindowsOverlap | tools/private-mail-evaluation/evaluate.py:140-154 | windows hold at most 384 tokens and consecutive ones share exactly 64 |
| PassageWindows.WindowCharacters | tools/private-mail-evaluation/evaluate.py:140-154 | a window's characters run from its first token to its last, the first window from the start of the text and the last to its end |
| PassageWindows.EveryTokenIsCovered | tools/private-mail-evaluation/evaluate.py:140-154 | every token is in some window |
| PassageWindows.EveryCharacterIsCovered | tools/private-mail-evaluation/evaluate.py:140-154 | every character of the text is in some passage |
| PassageWindows.ChunkDocument | tools/private-mail-evaluation/evaluate.py:133-155 | the loop with its assertions and its break computes the specified result |
| PassageWindows.DocumentIsCut | tools/private-mail-evaluation/evaluate.py:133-155 | offsets in order are cut into exactly the promised windows with no assertion failing; no spanning token is refused |
| PassageWindows.PassagesVerify | tools/private-mail-evaluation/evaluate.py:186-193 | every recorded byte range of the body decodes to exactly its passage |
| PassageWindows.VerifiesExactly | tools/private-mail-evaluation/evaluate.py:186-193 | the check passes if and only if the body reads as the passage in that range |
| PassageWindows.Chunk | tools/private-mail-evaluation/evaluate.py:133-155 | documents are cut in turn up to the first failure; with offsets in order only a count outside 1 to 20000 fails, and every passage is numbered and verifiable |
| SearchStore.Store.PublishSource | tools/vector-store-evaluation/store.py:36-59 | the statements of the transaction end in the specified tables, or in the ones BEGIN saw |
| SearchStore.Store.RemoveSource | tools/vector-store-evaluation/store.py:116-124 | removal marks the source and records its cleanup |
| SearchStore.Store.CleanSource | tools/vector-store-evaluation/store.py:126-138 | cleanup deletes the derived rows and its own record, or nothing |
| SearchStore.PublishesExactly | tools/vector-store-evaluation/store.py:36-59 | a publication commits exactly at the expected generation of a source not removed, or at 0 for a new one, and all four tables then hold the document, column by column |
| SearchStore.PublishLeavesTheRest | tools/vector-store-evaluation/store.py:45 | of other rows only a source of the same name goes |
| SearchStore.RemovesExactly | tools/vector-store-evaluation/store.py:116-124 | a removal marks the source once, moves its generation on once, and owes its cleanup |
| SearchStore.CleansExactly | tools/vector-store-evaluation/store.py:126-138 | a cleanup takes exactly what is owed out of the derived tables, and leaves every source |
| SearchStore.PublishKeepsSyncExactly | tools/vector-store-evaluation/store.py:36-59 | a publication keeps the tables in step if and only if its name displaces no row still referred to |
| SearchStore.RunStaysInSyncExactly | tools/vector-store-evaluation/store.py:36-138 | over any run, failures included, passages, words and vectors hold the same ids with matching sources and checksums at every moment if and only if no publication takes a name from a row still referred to |
| SearchStore.SharedNameBreaksSync | tools/vector-store-evaluation/store.py:45 | two publications under one name leave a passage, words and a vector without a source |
| SearchStore.RunMovesForwardExactly | tools/vector-store-evaluation/store.py:36-138 | between any two moments of a run generations have not fallen, no removed source is live and no cleaned one indexed, if and only if no publication took a name another row held |
| SearchStore.RemovedComesBack | tools/vector-store-evaluation/store.py:36-59 | a run with the tables in step throughout in which a removed and cleaned source is live again at a lower generation |
| SearchStore.OwnNamesAreUndisturbed | tools/vector-store-evaluation/store.py:36-59 | when each id publishes under names of its own both conditions hold over any run |
| SearchStore.OnePublicationPerGeneration | tools/vector-store-evaluation/store.py:39-43 | no two publications of one id succeed against the same generation unless its row's name was taken in between |
| SearchStore.FactsFilterNothing | tools/vector-store-evaluation/store.py:80-96 | filtering by the engine's own columns as well gives the same candidates |
| SearchStore.CandidatesExactly | tools/vector-store-evaluation/store.py:65-96 | a search returns exactly the rows of the profile and the reference account, retained, not removed, not expired, equal in every named column and strictly within every time bound; an unknown filter fails |
| SearchStore.SearchesAgree | tools/vector-store-evaluation/store.py:80-96 | in a store with metadata columns the two forms of the search have the same candidates after any run, whatever the names |
| SearchStore.SearchSurvivesExactly | tools/vector-store-evaluation/store.py:30-34 | over any locks and unlocks, a search passes its check exactly when it began in an open store that was never locked since, and asks for the store's own profile |
| SearchStore.RemovedIsNeverFound | tools/vector-store-evaluation/store.py:65-78 | a removed source passes no query predicate after any run that takes no other row's name |
| SearchStore.LookupIsWhole | tools/vector-store-evaluation/store.py:103-114 | with the tables in step a lookup fails only for want of eligibility, and returns the whole body |
| SearchStore.LookupExactly | tools/vector-store-evaluation/store.py:103-114 | a passage is handed out exactly as recorded: its range of the body must be the bytes it is checked by, and decode |

## Left out

- Address suggestion (`Suggest`) and its entropy: random generation with no rule beyond retrying; every other alias command is modelled.
- HTTP handlers, the SMTP receiver, workers, configuration and rendering: adapters without decisions of their own.
- Signatures, digests and encryption themselves: abstract predicates and collision-free content, as said above.
- PostgreSQL and SQLite: a transaction is one protected snapshot, one decision, and all of its writes or none; nearest-neighbour and full-text search are not modelled, only which rows they may return.
- The protocol kernel, ledger, billing and financial program: parameters of the engine with the contracts written in `Engine`; nothing is claimed about amounts.
- Lock poisoning, `configure_*` and `execute_financial_command` of the in-memory engine: pass-through setters and one delegated call.
- Requested and development-assigned delivery routes: constructors used outside the two correspondence routes.
- CorrespondenceStore.AfterKeepsInv: the row of a sender's own lane, which is upserted in the same transaction, is not part of the model, so each transaction's lane is an input; paired lanes are read from and written back to the alias's row in `Deployment`.
- Creating the member's file at `init`: a member begins with an empty journal on file.
- DeliveryEvidence.EvidenceIsDistinct: requested deliveries and outside guests' are recorded by other services and are an input; they are taken to keep to the pair of a retained conversation, as a request does, and to one sender in any other conversation of an alias.
- Lanes.ConsumeIsOneStep: revocation, horizon and reconfirmation of lanes are not modelled, because no alias or correspondence command performs them.
- RankMetrics.NdcgIsBounded: the base-two logarithm enters only as a positive decreasing discount, and floating-point rounding is not modelled.
- MineralCells.Cell: exact reals instead of floating point; the pseudo-random site positions are any positions inside their slots, and drawing is not modelled.
- JsonScanner.Scan: text is a sequence of characters; `JSON.parse` of the output is represented by its token sequence.
- PassageWindows.Chunk: tokenization and the length limit of the prepared model input belong to a tokenizer that is not part of this model.
- The measures `hit1`, `recall5` and `mrr10`, keyword ranking and the corpus reader: direct counts and text handling.
- Member commands other than the journaled request and its retry: each is a sequence of those.
- Consent and key custody, account control, federation, guest planning: separate services whose hard parts are not in these files.
