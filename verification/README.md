# TooGraph: a verified model

This project models six parts of the TooGraph backend in Dafny and proves what they promise, for all inputs and over
whole runs. `dafny verify dfyconfig.toml` checks everything.

| files | what they model |
|---|---|
| `ControlFlowGraph.dfy`, `ControlFlowSearch.dfy`, `ControlFlowReport.dfy` | the static analysis that finds ambiguous state reads in a node graph with cycles and conditional edges |
| `Credentials.dfy`, `CredentialRuns.dfy` | the credential pool of a model provider, and runs of selecting, calling and recording |
| `Text.dfy`, `Soul.dfy`, `SoulReading.dfy`, `SoulRoundTrip.dfy` | SOUL.md: section reader, printer, and the trip through both |
| `MessageOrder.dfy`, `Lineage.dfy`, `MessageWindows.dfy`, `LikeSearch.dfy`, `Candidates.dfy` | the buddy store: order migration, session lineage, recall windows, LIKE search, improvement candidates |
| `CleanText.dfy`, `CleanTargets.dfy` | the event-driven HTML text extractor, on whole pages and restricted to the article |
| `CapabilityChoice.dfy` | the capability selector's filter, replacement passes and ranking |
| `Basics.dfy` | an option type and the order of texts |

## How to read it

*Control flow.* Executions are `Walk`s: a start node followed by transitions, nodes and edges repeated at will. The two
worklist loops are proved against walks. Every collected signature belongs to a simple walk from an entry
(`AllRealised`), and every walk from an entry, loops included, takes at least the choices of some signature at its end
(`Dominates`). From these two facts alone `ExclusionIsExact` concludes that the exclusion verdict says exactly what it
means, and `FindAmbiguousStateReads` reports exactly the reads for which `Ambiguous` holds, a definition in which no
order and no signature occurs (`AmbiguityMeans`): one entry for every place in the graph that holds such a read, in the
order of places (`Lists`). `RepeatedWriteIsAmbiguous` records a consequence a graph author may not expect: a node
that lists one state twice in its writes competes with itself.

*Credentials.* Times are integers in microseconds; stored times are cut to whole seconds as the code does. The settings
object is a class whose methods are proved against relations on the pool (`IsOldest`, `IsUpdate`), and `UpdateIsStep`
ties these to the `Step` of which runs are made. `HasWaitedLongest` says which credential is picked from the stored times
alone: one that was never used comes before all that were, as long as no stored time lies at or before the first instant
of year 1. Exhaustion takes 600 whole seconds, which is more than 599 seconds of
real time; `ExhaustedBefore600Seconds` shows that 600 real seconds are not guaranteed. Calls that succeed, one whole
second or more apart, go through the selectable credentials in turn (`FairRotation`), from a pool never used before in
pool order (`FreshRotation`); others may be out of use or cooling
down, as long as none comes out of its cooldown meanwhile. One that does joins the queue at the place its last use gives
it (`JoinsQueue`), from where rotation goes on. `WaitIsBounded` asks for no steadiness: whatever calls succeed or fail and
whoever cools down, a selectable credential waits for no more rounds than there are credentials used before it, as long
as rounds finish in later seconds than its own last use. Within one second rotation need not be fair; `RepeatedPick` says
exactly when.

*SOUL.md.* `IsReading` says line by line what a text describes, and with which default each gap is filled
(`GapsAreFilled`); `ReadingIsUnique` shows that this settles the identity. `RoundTripExactly` characterizes the identities that survive being rendered and read: those whose fields have
the form their place in the document asks for. Everything that is read has that form, so the file settles after one trip
(`SoulSettles`); preferences other than the display name and the language are lost by the first rendering.

*Lineage.* The root of a session is defined through its ancestors, for tables whose links dangle or run in circles as
well. The root is idempotent everywhere; `RootAlongLink` says exactly for which links a session and its parent agree.

*Candidates.* The log of status writes is derived from the events of a run. An application is proper when the write
before it is an approval and the one before that a recommendation which the linked, completed validation run gave for the
candidate; `SyncedStatusStems` traces every status taken over to the run that gave it.
`ProperExactly` shows that this holds in all runs exactly when the candidate was not inserted as validated, waiting for
approval or approved: the insert takes over whatever status a proposal names (`backend/app/buddy/store.py:647`).
Proposing a known candidate again replaces its proposal only. `ReproposalKeepsState` shows what that means for whole
runs: dropping all repeated proposals changes no log of status writes, exactly as long as no attempt to apply takes its
command from proposals that disagree on having a supported one; `ReproposalCanApply` is a run in which they disagree.

*Message windows.* A scroll is a sequence of answers, each anchored at the last message of the one before. It shows the
messages in order, each once apart from the anchors, and reports the end when all are shown and not before. Of n > 1
messages and with a window of w that is call number ceil((n - 1) / w), and with the empty window, which the store allows,
never.

*Capability choice.* `ChoiceIsHighestRanked` is the whole choice on the items' own fields: the highest-ranked permitted
upgrade of the requested item, otherwise its highest-ranked permitted fallback, otherwise the item. `Outranks` spells out
the order of the preference score, `UpgradeMeans` and `FallbackMeans` what qualifies.

*Text extractor.* Documents are trees; the handlers are run over their tokens. Without targets the machine collects
exactly the content outside skipped elements. With targets the machine refines a recursion on the tree (`RunIsCollect`),
on every well-nested document. `CapturesTargetsExactly` compares, token by token, whether the machine captures with
whether the document is inside a target: they agree exactly on the `Balanced` documents, and from those exactly the
content of the targets is collected (`TargetsOnly`). Balance is a count on the tree: a void element written without a
slash counts one too many, and a nested target makes the count one, whatever was open. So, as long as no void element is
itself a target, documents without nested targets are balanced iff their targets hold no such void elements
(`UnnestedBalance`), documents without such void elements iff no target is nested (`SelfClosedBalance`), and a document
with both can be balanced because one makes up for the other (`NestedBalances`). A capture that its target's end tag did
not end takes in what follows; it ends with the end tag of the k-th enclosing element, k being the first number of end
tags that uses up what was counted too much (`UnendedTargetRunsOn`), or earlier with a further target, whose start tag
sets the count to one whatever was captured before (`TargetEnds`).

## Model

| member | source | states |
|---|---|---|
| `ControlFlowGraph.BuildControlSuccessorMap` | backend/app/core/control_flow_state_analysis.py:119-129 | the map lists exactly the ways out of every node, each conditional one with its condition and branch |
| `ControlFlowGraph.BuildSuccessorMap` | backend/app/core/control_flow_state_analysis.py:42-52 | the map lists exactly the direct successors of every node |
| `ControlFlowGraph.SimpleWalkIsConsistent` | backend/app/core/control_flow_state_analysis.py:106-114 | a path that repeats no node never takes two branches of one condition, nor leaves the node it stands on |
| `ControlFlowSearch.CollectReachableNodes` | backend/app/core/control_flow_state_analysis.py:55-66 | returns exactly the nodes some non-empty walk from the start leads to, on cyclic graphs too, and terminates |
| `ControlFlowSearch.CountIncoming` | backend/app/core/control_flow_state_analysis.py:88-93 | every node gets the number of transitions into it, which is zero exactly when nothing enters it |
| `ControlFlowSearch.EntryNodes` | backend/app/core/control_flow_state_analysis.py:95 | the entries are the nodes nothing enters, or all nodes if there is none |
| `ControlFlowGraph.SomeEntry` | backend/app/core/control_flow_state_analysis.py:95 | every graph with nodes has an entry, even if all nodes lie on cycles |
| `ControlFlowSearch.CollectBranchPathSignatures` | backend/app/core/control_flow_state_analysis.py:87-116 | terminates; every signature is the choice set of a simple path from an entry; every walk from an entry takes at least the choices of a signature at its end |
| `ControlFlowSearch.FollowIsSound` | backend/app/core/control_flow_state_analysis.py:106-114 | a pushed item stands for a simple path whose earlier nodes all hold a signature below the item's own |
| `ControlFlowSearch.StepBackIsCovered` | backend/app/core/control_flow_state_analysis.py:107-108 | not following a step back onto the own path loses nothing |
| `ControlFlowSearch.PopKeepsInvariants` | backend/app/core/control_flow_state_analysis.py:101-104 | dropping an item whose signature was seen loses nothing |
| `ControlFlowSearch.ExpandedDominatesWalk` | backend/app/core/control_flow_state_analysis.py:100-116 | once the stack is empty, every walk is dominated, however often it loops |
| `ControlFlowReport.BranchPathSignaturesAreCompatible` | backend/app/core/control_flow_state_analysis.py:148-155 | true exactly when the two signatures together name at most one branch per condition, in whatever order they are iterated |
| `ControlFlowReport.AreMutuallyExclusiveBranchWriters` | backend/app/core/control_flow_state_analysis.py:132-145 | the loops over both signature sets return true exactly when neither is empty and no two signatures are compatible |
| `ControlFlowReport.ExclusionIsExact` | backend/app/core/control_flow_state_analysis.py:132-145 | that verdict holds iff both writers are reachable from an entry and every two walks to them, loops allowed, leave some condition through different branches |
| `ControlFlowReport.LeastChoicesAreCollected` | backend/app/core/control_flow_state_analysis.py:87-116 | a choice set no walk to the node undercuts is itself among the collected signatures |
| `ControlFlowReport.NeverExclusiveWithItself` | backend/app/core/control_flow_state_analysis.py:132-145 | no node is exclusive with itself |
| `ControlFlowReport.RepeatedWriteIsAmbiguous` | backend/app/core/control_flow_state_analysis.py:24-38 | a node off all cycles that writes a state twice makes every later read of it ambiguous |
| `ControlFlowReport.WritersByState` | backend/app/core/control_flow_state_analysis.py:22-26 | the writer list of every state, in node order, repeats kept |
| `ControlFlowReport.HasUnorderedWriterPair` | backend/app/core/control_flow_state_analysis.py:69-84 | true iff two positions hold nodes that do not reach one another and are not exclusive |
| `ControlFlowReport.PairSearchDecides` | backend/app/core/control_flow_state_analysis.py:31-37 | the pair search over the reader's feeding writers decides ambiguity |
| `ControlFlowReport.FindAmbiguousStateReads` | backend/app/core/control_flow_state_analysis.py:18-39 | the report has one entry for every binding that reads a state ambiguously and no other, at strictly increasing places of nodes and bindings; each read occurs as often as its node lists it |
| `ControlFlowReport.AmbiguityMeans` | backend/app/core/control_flow_state_analysis.py:31-37 | a read is ambiguous iff two writes of the state, not by the reader itself, come before it in no order and may happen in one execution |
| `ControlFlowReport.FlaggedMembers` | backend/app/core/control_flow_state_analysis.py:28-39 | a read is in the report iff its node reads the state and the read is ambiguous |
| `ControlFlowReport.ReportIgnoresOrder` | backend/app/core/control_flow_state_analysis.py:18-39 | listing nodes, edges, branches or bindings in another order changes neither what is reported nor how often |
| `Credentials.Normalize` | backend/app/core/model_provider_credentials.py:36-66 | computes the normalized pool |
| `Credentials.NormalizedIsClean` | backend/app/core/model_provider_credentials.py:36-66 | names are non-empty and pairwise different up to case, failure counts are not negative |
| `Credentials.NormalizedKeepsFirst` | backend/app/core/model_provider_credentials.py:44-65 | exactly the first record of every name is kept |
| `Credentials.NormalizedInOrder` | backend/app/core/model_provider_credentials.py:44-65 | the first records stand in their order, each once, unchanged but for a negative failure count, which becomes zero |
| `Credentials.IdentityMeans` | backend/app/core/model_provider_credentials.py:44-65 | two ids name one credential iff they agree up to the case of ASCII letters |
| `Credentials.CleanIsNormalized` | backend/app/core/model_provider_credentials.py:36-66 | a normalized pool is left as it is |
| `Credentials.SelectIndex` | backend/app/core/model_provider_credentials.py:94-112 | picks a selectable credential that was never used, the first in the pool, if there is one; otherwise the one whose last use is earliest, the earlier one on a tie, all recorded uses lying in our era; or none if none is selectable |
| `Credentials.ProviderConfig.SelectCredential` | backend/app/core/model_provider_credentials.py:89-115 | returns that credential's key with its id, last use and any status other than active, or the provider's own key |
| `Credentials.ProviderConfig.UpdateAfterCall` | backend/app/core/model_provider_credentials.py:123-214 | replaces the named record by its state after the call and touches nothing else; an event exactly when a record changed |
| `Credentials.CallChanges` | backend/app/core/model_provider_credentials.py:147-188 | field by field what a success, a failure and the failure that makes five do to a record, whatever its count was |
| `CredentialRuns.UpdateIsStep` | backend/app/core/model_provider_credentials.py:89-214 | selecting and then recording under the selected id, or under none, is one step of a run, whatever form the stored pool has |
| `CredentialRuns.ReachableStates` | backend/app/core/model_provider_credentials.py:147-213 | every credential of every run from a fresh pool is disabled and untouched, active with count 0, cooling 60 seconds per failure with count 1 to 4, or exhausted with count 5; the hour's cap never applies |
| `CredentialRuns.RetiredStays` | backend/app/core/model_provider_credentials.py:96-108 | a keyless, disabled or exhausted credential is never selected and never changes again |
| `CredentialRuns.FailuresAreSpaced` | backend/app/core/model_provider_credentials.py:178-204 | the count is the length of the current failure streak, and the k-th gap is at least k minutes of whole seconds |
| `CredentialRuns.ExhaustionTakesTime` | backend/app/core/model_provider_credentials.py:178-204 | an exhausted credential failed five times in a row over at least 600 whole and more than 599 real seconds |
| `CredentialRuns.ExhaustedBefore600Seconds` | backend/app/core/model_provider_credentials.py:287-288 | a run in which these take 599.000001 real seconds |
| `CredentialRuns.SuccessRotatesQueue` | backend/app/core/model_provider_credentials.py:109-112 | while no credential comes out of its cooldown, a successful round moves the front of the waiting queue to its end |
| `CredentialRuns.FairRotation` | backend/app/core/model_provider_credentials.py:94-115 | with n selectable credentials, the others retired or cooling down all the time, and advancing whole seconds: any n consecutive successful rounds use each exactly once, and round k+n repeats round k |
| `CredentialRuns.FreshRotation` | backend/app/core/model_provider_credentials.py:94-115 | a pool never used before is gone through in pool order again and again, the usable credentials one by one, as long as calls succeed and whole seconds advance |
| `CredentialRuns.JoinsQueue` | backend/app/core/model_provider_credentials.py:94-115 | a credential coming out of its cooldown joins the queue behind those that have waited longer and before all others |
| `CredentialRuns.WaitIsBounded` | backend/app/core/model_provider_credentials.py:94-115 | in any run, calls failing or not, a selectable credential is picked before more rounds have passed than credentials were used before it, which are fewer than the pool has |
| `CredentialRuns.RepeatedPick` | backend/app/core/model_provider_credentials.py:109-112 | exactly when a credential that just succeeded is picked again |
| `Soul.ExtractSection` | backend/app/buddy/home.py:439-455 | the stripped text between the first matching heading line and the next section |
| `Soul.ParseDisplayPreferences` | backend/app/buddy/home.py:458-471 | the key-value lines of the section, later ones winning |
| `Soul.ReadBuddyIdentity` | backend/app/buddy/home.py:290-308 | each field is the text under the first line that is its heading, in either language and any case, up to the next section, or its own default if that is blank; the name is the first line of its text; of several lines that set a preference the last counts |
| `SoulReading.GapsAreFilled` | backend/app/buddy/home.py:302-308 | a field without heading or with nothing under it, and a preference no line sets, gets the default of that same field or key |
| `SoulReading.EmptySoul` | backend/app/buddy/home.py:300-308 | the empty text describes the default identity |
| `SoulReading.ReadingIsUnique` | backend/app/buddy/home.py:300-308 | a text describes one identity only |
| `SoulRoundTrip.SectionIsPlain` | backend/app/buddy/home.py:439-455 | whatever the text, an extracted section is stripped and none of its lines opens a section |
| `SoulRoundTrip.ReadIsWellFormed` | backend/app/buddy/home.py:300-308 | reading any text gives fields of the form the document asks for |
| `SoulRoundTrip.PartIsFound` | backend/app/buddy/home.py:441-455 | in a document of sections the reader finds each section under its own heading |
| `SoulRoundTrip.SectionOfDocument` | backend/app/buddy/home.py:321-345 | each of the five sections of a rendered document is read back as what was rendered there |
| `SoulRoundTrip.RenderedIsReadBack` | backend/app/buddy/home.py:311-358 | a well-formed identity survives rendering and reading, but for preferences the document does not show |
| `SoulRoundTrip.RoundTripExactly` | backend/app/buddy/home.py:290-358 | reading a rendered identity gives it back iff it is well-formed and has no further preferences |
| `SoulRoundTrip.RenderFillsGaps` | backend/app/buddy/home.py:311-358 | an identity with gaps is rendered, and read back, with each gap filled by the default of its own field |
| `SoulRoundTrip.DefaultsAreWellFormed` | backend/app/buddy/home.py:24-33 | the built-in identity has the required form |
| `SoulRoundTrip.SoulSettles` | backend/app/buddy/home.py:290-358 | for every text, reading, rendering and reading again gives the same six fields, and after that nothing changes |
| `MessageOrder.SelectPending` | backend/app/buddy/home.py:243-250 | exactly the messages without a client order, by session, creation time and row id |
| `MessageOrder.FirstNumber` | backend/app/buddy/home.py:255-260 | one more than the session's largest client order, or zero |
| `MessageOrder.MessageTable.AssignOrders` | backend/app/buddy/home.py:251-263 | the k-th pending message of a session gets the session's first free number plus the count of pending ones before it; all other rows stay |
| `MessageOrder.MessageTable.BackfillClientOrder` | backend/app/buddy/home.py:242-263 | no client order is missing afterwards and those in use are unchanged; a message gets its session's first free number plus one for each unnumbered message of the session created before it; every session lists the same messages in the same sequence |
| `MessageOrder.BackfillKeepsListing` | backend/app/buddy/store.py:1102-1107 | a sequence is a session's listing after the migration iff it was before |
| `Lineage.ResolveSessionLineageRoot` | backend/app/buddy/store.py:2423-2441 | terminates on every table with the ancestor without parent, the first ancestor on a cycle, or the session itself if its links dangle |
| `Lineage.FirstRepeatIsFirstOnCycle` | backend/app/buddy/store.py:2429-2441 | the first session met twice is the first ancestor on a cycle |
| `Lineage.RootIsIdempotent` | backend/app/buddy/store.py:2423-2441 | a root is its own root, on every table |
| `Lineage.RootAlongLink` | backend/app/buddy/store.py:2423-2441 | a session and its parent have the same root iff the links end, or run into a cycle the session is not on, or the session is its own parent |
| `Lineage.SelectNext` | backend/app/buddy/store.py:1658-1678 | the newest visible child that did not start before its parent ended, or none |
| `Lineage.NextIsNewest` | backend/app/buddy/store.py:1658-1678 | field by field: of all sessions that may succeed the compressed one none was created later, none of those created at that time was updated later, and none of those was added later |
| `Lineage.NextExists` | backend/app/buddy/store.py:1652-1678 | there is a next session iff the session ended by compression and some session may succeed it |
| `Lineage.ResolveCompressedLineageTip` | backend/app/buddy/store.py:1633-1680 | terminates at the end of a chain of newest continuations, or where the chain comes back to itself |
| `Lineage.TipOfGrounded` | backend/app/buddy/store.py:1633-1680 | where the links end, the tip has its start's root and nothing continues it |
| `Lineage.Discover` | backend/app/buddy/store.py:1712-1764 | entries come from hits in order, one per lineage, each from the lineage's first hit that shows messages, and none eligible is missing below the limit |
| `Lineage.DiscoveredMeans` | backend/app/buddy/store.py:1716-1733 | every entry is for a hit that shows messages of another lineage than the current one, and every lineage with such a hit has an entry no later than it |
| `Lineage.DiscoveredApart` | backend/app/buddy/store.py:1712-1764 | discovered entries have pairwise different roots, none the current session's, on every table |
| `MessageWindows.GetAnchoredMessageView` | backend/app/buddy/store.py:2182-2226 | the window of the asked direction around the anchor with its counts, flags and bookends; empty without messages or anchor |
| `MessageWindows.WindowSplitsMessages` | backend/app/buddy/store.py:2215-2226 | the part before, the window and the part after concatenate to the list, and the window holds the anchor |
| `MessageWindows.WindowExtent` | backend/app/buddy/store.py:2206-2221 | the window reaches the asked number of messages to each side its direction names, and fewer only where the messages end |
| `MessageWindows.AnchorIsFirst` | backend/app/buddy/store.py:2198-2205 | the anchor is the first message with the id, or the first message when no id is given |
| `MessageWindows.RecallableInOrder` | backend/app/buddy/store.py:2190-2195 | exactly the messages meant for the context, of one of the roles and not blank are shown, each once and in listing order |
| `MessageWindows.BookendsAreLeftOut` | backend/app/buddy/store.py:2216-2226 | bookends are the ends of what the window leaves out, of the asked length as far as there is that much, and the flags are exact |
| `MessageWindows.ScrollStep` | backend/app/buddy/store.py:2199-2211 | the id of the last message shown is the anchor of the next forward view |
| `MessageWindows.AnswerContinuesScroll` | backend/app/buddy/store.py:2182-2226 | any answer to a forward call at the last message shown continues a scroll |
| `MessageWindows.CallsAreCeiling` | backend/app/buddy/store.py:2209-2211 | `CallsNeeded` is ceil((n-1)/w) |
| `MessageWindows.ScrollingEndsInTime` | backend/app/buddy/store.py:2209-2226 | for any scroll, its last view has more after it iff fewer than ceil((n-1)/w) calls were made |
| `MessageWindows.EmptyWindowStays` | backend/app/buddy/store.py:2209-2226 | with window 0 every view of a scroll is the first message, and always reports more if there is more |
| `MessageWindows.ScrollingShowsAll` | backend/app/buddy/store.py:2209-2226 | what a scroll has shown is a beginning of the messages, in order and each once but for the anchors; it is all of them iff the last view reports the end |
| `MessageWindows.BackAndForth` | backend/app/buddy/store.py:2206-2211 | scrolling back shows the forward view again, and exactly it iff that was full or began at the first message |
| `LikeSearch.EscapeIsOnePass` | backend/app/buddy/store.py:2322-2323 | the three successive replacements equal one escape per special character |
| `LikeSearch.SearchIsSubstring` | backend/app/buddy/store.py:2003-2006 | the clause matches a content iff the token occurs in it, up to the case of ASCII letters |
| `Candidates.CandidateStore.UpsertCandidate` | backend/app/buddy/store.py:647-707 | inserts with the proposed status, or replaces only the proposal |
| `Candidates.CandidateStore.UpsertCandidatesForReview` | backend/app/buddy/store.py:626-711 | the loop stores a review's proposals in turn under their own or a generated id, and none for a review without id |
| `Candidates.UnnamedApart` | backend/app/buddy/store.py:637-639 | generated ids of different proposals of a review differ |
| `Candidates.GeneratedId` | backend/app/buddy/store.py:637-639 | an unnamed proposal is called after the review's run, or the review, and its number in decimal digits, counted from one |
| `Candidates.ReviewContinuesRun` | backend/app/buddy/store.py:626-711 | storing a review's proposals continues a run, so all results on runs cover it |
| `Candidates.CandidateStore.LinkValidationRun` | backend/app/buddy/improvement_candidates.py:24-26 | links the run, then takes over its recommendation; fails without change for missing ids |
| `Candidates.CandidateStore.SyncValidationStatus` | backend/app/buddy/improvement_candidates.py:29-50 | writes what the linked run says of the candidate, with its reason and result, and changes nothing if it says nothing |
| `Candidates.SyncWrites` | backend/app/buddy/improvement_candidates.py:140-151 | a status is written iff the linked run is completed and recommends that very status for this candidate or for none in particular, or failed or was cancelled and the status is failed |
| `Candidates.SyncedStatusStems` | backend/app/buddy/improvement_candidates.py:140-151 | in every run, each status taken over is what the noted validation run said of the candidate |
| `Candidates.CandidateStore.DecideCandidate` | backend/app/buddy/store.py:859-904 | approves only validated or waiting candidates, never changes applied or superseded ones |
| `Candidates.CandidateStore.ApplyCandidate` | backend/app/buddy/improvement_candidates.py:65-104 | applies only approved candidates with a supported command that produced a revision |
| `Candidates.RunsAreLegal` | backend/app/buddy/improvement_candidates.py:24-104 | in every run the log of status writes is legal and accounts for status and linked run |
| `Candidates.AppliedOnlyProperly` | backend/app/buddy/improvement_candidates.py:65-68 | unless inserted with a bypassing status, a candidate is applied only directly after an approval that directly follows the recommendation which its linked and completed run gave for it |
| `Candidates.BypassIsPossible` | backend/app/buddy/store.py:647 | each bypassing status does let a run apply the candidate improperly |
| `Candidates.ProperExactly` | backend/app/buddy/store.py:626-711 | all applications in all runs are proper iff the inserted status does not bypass |
| `Candidates.ReproposalKeepsState` | backend/app/buddy/store.py:694-706 | in every run, dropping the repeated proposals changes no candidate's log of status writes at any time iff, whenever an attempt to apply takes its command from the proposal, the first and the latest proposal agree on having a supported one; then states differ in proposals only |
| `Candidates.AlteredReproposals` | backend/app/buddy/store.py:694-706 | two runs that differ only in repeated proposals, and meet that condition, have the same logs and the same states but for the proposals |
| `Candidates.ReproposalCanApply` | backend/app/buddy/improvement_candidates.py:65-115 | a run in which only the repeated proposal lets the candidate be applied |
| `Candidates.ReproposalKeepsCommand` | backend/app/buddy/improvement_candidates.py:107-115 | the command to apply stays the same iff the validation result names one or the proposals agree on it |
| `CleanText.CleanTextParser.constructor` | scripts/prepare_policy_dataset.py:166-174 | the initial state |
| `CleanText.CleanTextParser.HandleStartTag` | scripts/prepare_policy_dataset.py:176-200 | the state after a start tag, and that depths stay natural numbers |
| `CleanText.CleanTextParser.HandleEndTag` | scripts/prepare_policy_dataset.py:202-213 | the state after an end tag |
| `CleanText.CleanTextParser.HandleStartEndTag` | scripts/prepare_policy_dataset.py:215-222 | the state after a self-closed tag |
| `CleanText.CleanTextParser.HandleData` | scripts/prepare_policy_dataset.py:224-229 | the state after text |
| `CleanText.CleanTextParser.Feed` | scripts/prepare_policy_dataset.py:165-229 | feeding tokens one by one is a run of the state machine |
| `CleanText.SkippedForest` | scripts/prepare_policy_dataset.py:178-185 | the content of a skipped element leaves the whole state as it was |
| `CleanText.CapturedForest` | scripts/prepare_policy_dataset.py:176-229 | while capturing, the machine collects exactly the content; its depth grows by the number of void start tags |
| `CleanText.WholeDocument` | scripts/prepare_policy_dataset.py:165-229 | without targets, a well-nested document gives exactly its content outside skipped elements, and nothing is left skipped |
| `CleanText.PageTexts` | scripts/prepare_policy_dataset.py:189-233 | a page is set in lines: its words outside skipped elements in order, one line break for the edges of block elements between two of them and none at the start; every image there is counted once |
| `CleanText.CleanedMeans` | scripts/prepare_policy_dataset.py:224-229 | non-breaking spaces become spaces, and nothing but whitespace at both ends is taken away |
| `CleanText.ValueOfLast` | scripts/prepare_policy_dataset.py:235-242 | of several attributes of one name the last counts, a missing one is empty |
| `CleanTargets.RunIsCollect` | scripts/prepare_policy_dataset.py:176-229 | with targets, on every well-nested document, the event machine computes the recursion `Collect` on the tree |
| `CleanTargets.CapturesTargetsExactly` | scripts/prepare_policy_dataset.py:189-213 | after every token, the machine captures iff the document is inside a target, exactly when the document is balanced |
| `CleanTargets.UnnestedBalance` | scripts/prepare_policy_dataset.py:189-213 | without nested targets, balanced means that targets hold no void start tag |
| `CleanTargets.SelfClosedBalance` | scripts/prepare_policy_dataset.py:189-222 | without void start tags in targets, balanced means that no target is nested |
| `CleanTargets.TargetsOnly` | scripts/prepare_policy_dataset.py:189-229 | from every balanced document exactly the content of its targets is collected, and nothing is left open |
| `CleanTargets.TargetEnds` | scripts/prepare_policy_dataset.py:189-213 | met in any state outside skipped elements, a target, with whatever it holds, is captured up to its end tag iff its count holds, and then the capture ends there iff the count comes out |
| `CleanTargets.PlainTargetEnds` | scripts/prepare_policy_dataset.py:189-213 | for a target without nested ones, it ends there iff the target holds no void start tag |
| `CleanTargets.CaptureMeetsLevels` | scripts/prepare_policy_dataset.py:202-213 | a capture outlasts the end tags of enclosing elements, or ends for good with the first that uses up its count |
| `CleanTargets.UnendedTargetRunsOn` | scripts/prepare_policy_dataset.py:197-213 | exactly what is captured after a target whose end tag did not end its capture, up to the end tag of the k-th enclosing element or to the end |
| `CleanTargets.BreakRunsOn` | scripts/prepare_policy_dataset.py:176-213 | from `<div target>a<br></div>b` the extractor also takes `b` |
| `CleanTargets.ParentStops` | scripts/prepare_policy_dataset.py:176-213 | from `<div><div target>a<br></div></div>b` it does not |
| `CleanTargets.NestedBalances` | scripts/prepare_policy_dataset.py:176-213 | `<div target><div target>a<br></div>b</div>c` is balanced and extracted correctly |
| `CapabilityChoice.MaxByScore` | action/official/toograph_capability_selector/capability_catalog.py:517 | an item that outranks all before it and is outranked by none after it |
| `CapabilityChoice.PreferHigherLevelCapability` | action/official/toograph_capability_selector/capability_catalog.py:489-517 | the upgrade that ranks above every other, or none if there is no upgrade |
| `CapabilityChoice.PreferHealthierFallbackCapability` | action/official/toograph_capability_selector/capability_catalog.py:530-556 | the healthier fallback, by rates rounded to four digits, that ranks above every other, or none |
| `CapabilityChoice.NormalizeSelectedCapability` | action/official/toograph_capability_selector/capability_catalog.py:108-183 | refuses with the right reason, or chooses the preferred permitted item for the request |
| `CapabilityChoice.BelowIsTotal` | action/official/toograph_capability_selector/capability_catalog.py:574-587 | the preference score never ties two items of different kind or key |
| `CapabilityChoice.BelowMeansOutranked` | action/official/toograph_capability_selector/capability_catalog.py:574-587 | what the score prefers: a higher kind, then a higher granularity, a final result, a higher rate, fewer recent failures, a safer tier, more outputs, the later key |
| `CapabilityChoice.UpgradeMeans` | action/official/toograph_capability_selector/capability_catalog.py:489-515 | when an item is an upgrade, term by term and output by output |
| `CapabilityChoice.FallbackMeans` | action/official/toograph_capability_selector/capability_catalog.py:530-553 | when an item is a fallback: after two recent failures, for a shared term, with fewer failures and no lower rate |
| `CapabilityChoice.ChoiceIgnoresOrder` | action/official/toograph_capability_selector/capability_catalog.py:108-183 | if no two items share kind and key, listing them in another order changes no choice |
| `CapabilityChoice.ChoiceIsSound` | action/official/toograph_capability_selector/capability_catalog.py:400-587 | the choice is in the catalog and allowed; a replacement does strictly more, or is strictly healthier by the rounded rates and no upgrade exists |
| `CapabilityChoice.ChoiceIsHighestRanked` | action/official/toograph_capability_selector/capability_catalog.py:519-527 | the choice is the highest-ranked permitted upgrade if there is any, otherwise the highest-ranked permitted fallback, otherwise the requested item |
| `CapabilityChoice.RefusalMeans` | action/official/toograph_capability_selector/capability_catalog.py:149-162 | something is chosen iff an item of the kind and key is free of the policy; a refusal blames the policy iff there is an item it bars |
| `CapabilityChoice.RoundedIsNear` | action/official/toograph_capability_selector/capability_catalog.py:470 | rates are rounded to the nearest number of four decimal places, ties to the even digit |
| `CapabilityChoice.HealthierUpToRounding` | action/official/toograph_capability_selector/capability_catalog.py:470 | a healthier item's unrounded rate is at most 0.0001 smaller |
| `CapabilityChoice.RoundingHidesDifference` | action/official/toograph_capability_selector/capability_catalog.py:470 | it can be smaller: 3333 of 10000 counts as much as 1 of 3 |

## Left out

- FastAPI routes, LangGraph execution, model calls, message platforms and the rest of the backend.
- SQLite, full-text search, embeddings: tables are maps and sequences of rows, each store call is one step, and the hits of a search are inputs.
- JSON decoding, Pydantic models and the coercion of arbitrary values: the model starts from typed records with stripped texts. Graph edges connect existing nodes, as `backend/app/core/schemas/node_system.py:756-769` validates.
- Names, identities and terms are lower-cased and case-folded for ASCII letters only.
- Text: the newline is the only line break; other characters that `splitlines` breaks at are not covered.
- MessageOrder.MessageTable.AssignOrders: client orders are exact reals; rounding of very large floats is not modelled.
- CapabilityChoice.SuccessRate: rates are exact quotients rounded to four digits, ties to the even digit; the binary rounding of the quotient before, and of its product with 1000 in the score, is not modelled.
- Candidates.CandidateStore.UpsertCandidatesForReview: proposals are typed records with normalized ids; list entries that are no records are skipped beforehand.
- Credentials.ProviderConfig.UpdateAfterCall: timestamps are compared as times; two spellings of one time count as the same, so an event that only respells a stored timestamp is not reported. The copy of the whole settings around the pool is not modelled.
- Credentials: previews of keys and the merging of secrets into edited pools, which are short formulas and one lookup.
- Lineage.ResolveCompressedLineageTip: session ids are not empty, and row ids are distinct, as in the table.
- Lineage.Discover: the window around a hit is represented by whether it shows any message; snippets and source references are left out.
- Lineage: the browsing list of sessions, which uses the same two searches.
- Candidates.CandidateStore.ApplyCandidate: the executed command is represented by the command id and revision it returns; what the command does is not modelled.
- CleanText: how the HTML parser turns text into tokens, and the post-processing of the collected fragments.
- CapabilityChoice: the discovery of capabilities on disk, descriptions and confidence values, which are passed through.
