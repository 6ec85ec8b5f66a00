# Blueprint Hub: verification model

Blueprint Hub resolves project blueprints from versioned templates, amends and publishes the
constitution those templates inherit, and runs, inspects and records bounded workflow steps.
This project models the parts of it that decide something and proves what they promise, for
every input, every order of supply, or every run of every number of actors.

| part | modules |
|---|---|
| texts, orders, lists, graphs | `Wrappers`, `Numbers`, `Sets`, `Bags`, `Text`, `Paths`, `Base64`, `Ordering`, `Graphs` |
| publication patches | `HunkHeader`, `PatchReplay`, `PatchMeaning`, `PatchInverse`, `PatchLoss`, `PatchDocuments` |
| blueprint resolution | `Templates`, `Merge`, `Closure`, `Cycles`, `Resolver`, `Fingerprint`, `Blueprint`, `Authority`, `Explanation`, `Determinism`, `Listing` |
| constitution amendments | `Amendment`, `ConstitutionStore`, `ConstitutionProtocol`, `ConstitutionSafety`, `ConstitutionProgress`, `ConstitutionTrust` |
| bounded execution | `Execution`, `Journal`, `ExecutionProtocol`, `ExecutionRefinement`, `Gateway` |
| dependency search | `DepthFirst`, `DependencyWalk` |
| workflow manifests and readiness | `Policy`, `Workflow`, `Readiness`, `Patterns` |
| scoped inspection and its verification | `Inspection`, `InspectionRun` |
| work packages and quality gates | `WorkQuality`, `WorkQualityService` |
| proof archives | `Zip`, `ZipLayout` |
| workflow drawing | `Layout`, `Drawing`, `DrawingRun` |
| backups | `StableJson`, `Portability` |

Where the program changes things in place, the model is a class or a method with loops, and
its contract equates the new state with a function; what the program promises is then proved
of that function. Where the program only computes, the model is the function itself.
`dafny verify dfyconfig.toml` checks everything.

What the model does not compute is a parameter, and every result holds for every value of it
that meets the stated conditions: digests and signatures, the locale's collation (a total
order where order-independence is claimed), inflation, checksums and JSON parsing, the clock,
the answers of a pinned repository, runners, and the trusted verifiers.

Six promises turned out to need a condition. Each is proved together with it, and with an
input on which it fails:

- The reverse of a publication patch does not restore a file that lost all its lines
  (`PatchInverse.InverseRestores`, `PatchLoss.SomePatchIsNotUndone`).
- A work-package update checked against an older store can close a cycle with another one
  (`WorkQuality.SplitUpdateIsSoundExactly`, `WorkQuality.InterleavedUpdatesCloseACycle`).
- The counters of a readiness plan miss the first receipt of each node that has several
  (`Readiness.CountersAreExact`, `Readiness.SomeCountersMiss`).
- A grant drives one loop only as long as it comes with one signature text: each signature has
  sixteen (`Gateway.RequestsAreTexts`, `ExecutionProtocol.OneGrantDrivesOneLoop`).
- The gateway refuses a successful inspection whose evidence references are too long
  (`Inspection.GatewayAcceptsExactly`, `Inspection.SomeInspectionIsRefused`).
- The archive reader takes an end mark inside a comment for the end record
  (`ZipLayout.DirectoryFound`, `ZipLayout.CommentHidesProof`).

## Model

| member | source | states |
|---|---|---|
| `HunkHeader.ParseOfRender` | packages/application/src/constitution-publication-sources.ts:49-51 | A written hunk header is read back as itself: ranges with their digits, omitted counts and the free text after it. |
| `HunkHeader.RenderOfParse` | packages/application/src/constitution-publication-sources.ts:49-51 | A header that is read is exactly the text its parts write, so reading loses nothing. |
| `HunkHeader.ParseOfSwap` | packages/application/src/constitution-publication-sources.ts:49-51 | Exchanging the two ranges in the text exchanges them in what is read, and makes a header of exactly the lines that were headers. |
| `HunkHeader.NumbersAreRead` | packages/application/src/constitution-publication-sources.ts:49-51 | The numbers of a header are read in decimal, leading zeros or not, as written by repeated division by ten; a range without a count takes one line. |
| `PatchReplay.ReplayHunks` | packages/application/src/constitution-publication-sources.ts:46-68 | The loop over the hunks of one file, with its two cursors and its counts, computes the recursive interpreter. |
| `PatchReplay.ReplaySections` | packages/application/src/constitution-publication-sources.ts:33-70 | The loop over files: headers, allow-list, duplicate paths, hunks, and the text written. |
| `PatchReplay.ApplyPublicationPatch` | packages/application/src/constitution-publication-sources.ts:29-78 | The whole replay, with the trailing line break, completeness and the check that adoption documents change only in their version. |
| `PatchDocuments.AcceptedExactly` | packages/application/src/constitution-publication-sources.ts:29-78 | A patch is accepted if and only if it ends with a line break, its sections replay over exactly the eight paths, and in each of the last three, JSON documents, every field but the version field is the same, whatever the order of fields. |
| `PatchMeaning.HunksMeaning` | packages/application/src/constitution-publication-sources.ts:45-68 | The cursors accept a list of hunks and write a text if and only if, said without cursors, the hunks are well formed, stand where their headers say in both texts, count their lines correctly, and leave the text between them alone. |
| `PatchInverse.LinesConserved` | packages/application/src/constitution-publication-sources.ts:45-68 | Lines written are lines read, plus the added ones, minus the removed ones. |
| `PatchInverse.InverseRestores` | packages/application/src/constitution-publication-sources.ts:29-78 | The reverse patch (ranges exchanged, + and - exchanged) restores every original file exactly if and only if no file had lost all its lines; the condition counts lines of the patch before any replay. |
| `PatchInverse.ReplayBothWays` | packages/application/src/constitution-publication-sources.ts:29-78 | Replay and reverse replay are inverse to each other in both directions, under that condition on either side. |
| `PatchInverse.EmptiedFileComesBackLonger` | packages/application/src/constitution-publication-sources.ts:45-68 | How one section of a patch fails to come back: a one-line file that loses its lines is restored with one line break too many, because an empty text splits into one empty line. |
| `PatchLoss.SomePatchIsNotUndone` | packages/application/src/constitution-publication-sources.ts:29-78 | There is a whole patch over all eight paths that the replay accepts and whose reverse, replayed on the result, does not give the original files. |
| `Templates.CanonicalForgetsOrder` | packages/blueprint-engine/src/resolver.ts:185-191 | The canonical order of templates is the same for every order of supply, when ids do not repeat. |
| `Resolver.Requirements.MergeRequirement` | packages/blueprint-engine/src/resolver.ts:361-432 | Merging one requirement in place: new row, kind or constraint clash, or joined row. |
| `Resolver.Requirements.MergeTemplates` | packages/blueprint-engine/src/resolver.ts:563-605 | The nested loops over templates and their sorted requirements compute the merge of all inputs. |
| `Merge.MergeMeans` | packages/blueprint-engine/src/resolver.ts:361-432 | A clash is reported if and only if some id has two kinds or two different constraints; otherwise each row has the greatest depth, is required if any input is, has exactly the tags, dependencies and sources of its inputs and the one constraint. |
| `Merge.ClashesAreReported` | packages/blueprint-engine/src/resolver.ts:361-432 | The ids that value conflicts name are exactly the ids with two inputs that clash, and merging reports no other kind of conflict. |
| `Merge.ConflictsAreReal` | packages/blueprint-engine/src/resolver.ts:361-432 | Every conflict says what is so: its field, the two values two inputs for its id have there, and only templates of such inputs as sources. |
| `Merge.MergeForgetsOrder` | packages/blueprint-engine/src/resolver.ts:361-432 | Merging in any order, with any repetition, gives the same verdict and rows of the same content, sources included. |
| `Merge.SourcesForgetOrder` | packages/blueprint-engine/src/resolver.ts:368-376 | Merging the same inputs in another order gives every row the same sources, each as often. |
| `Resolver.Requirements.CloseDependencies` | packages/blueprint-engine/src/resolver.ts:434-480 | The work-list loop over the rows in place computes the closure function and terminates. |
| `Closure.ClosureMeans` | packages/blueprint-engine/src/resolver.ts:434-480 | After closure a module is required if and only if a required module leads to it along dependencies; gates are untouched; and each dependency of a required module that is no module is reported exactly once, and nothing else is. |
| `Resolver.CycleSearch.VisitAll` | packages/blueprint-engine/src/resolver.ts:482-532 | The recursive three-mark search over its marks, stack and reports in place computes the search function. |
| `Cycles.CyclesAreFound` | packages/blueprint-engine/src/resolver.ts:482-532 | A cycle is reported if and only if the required modules have one, and every report names exactly the vertices of a real cycle that starts and ends at its target. |
| `Blueprint.ResolveBlueprint` | packages/blueprint-engine/src/resolver.ts:556-690 | The whole resolution as it runs: faults, fingerprint, activated templates, requirements, edges, rationale, or the sorted conflicts. |
| `Blueprint.SucceedsExactly` | packages/blueprint-engine/src/resolver.ts:607-625 | Resolution succeeds if and only if no two inputs clash, no needed module has an unknown dependency, and no needed module depends on itself through others. |
| `Listing.BlueprintLists` | packages/blueprint-engine/src/resolver.ts:627-690 | What a successful resolution lists: each requirement once in the order of ids, its tags, dependencies and sources in order; the ids of exactly the required modules and gates; an edge, once, from each required module to each of its dependencies, sorted by both ends; the rationale in order; the templates that took part. |
| `Listing.ParticipantsExactly` | packages/blueprint-engine/src/resolver.ts:185-244 | A template takes part if and only if it is unconditional or the profile meets every one of its conditions, and the templates come in the order of their authority, then of their ids, and of one id the older version first, a preview before its release. |
| `Listing.AdditionsAre` | packages/blueprint-engine/src/resolver.ts:577-586 | The requirements of the project itself form one unconditional template of the last layer, with exactly them, under an id with the project's id in it, every character but letters, digits and ._:- replaced by a hyphen. |
| `Listing.RefusalIsTrue` | packages/blueprint-engine/src/resolver.ts:608-625 | Every conflict of a refused resolution is so: two inputs with the values it lists, a needed module with a dependency that is no module, or a cycle of required modules; and they come in the order of their targets. |
| `Blueprint.ResolveForgetsOrder` | packages/blueprint-engine/src/resolver.ts:556-690 | The whole result, fingerprint, rationale and conflicts in their order included, is the same for every order of the supplied templates. |
| `Fingerprint.SameRequirementExactly` | packages/blueprint-engine/src/resolver.ts:275-288 | Two requirements have one normal form if and only if they state the same: defaults written or not, tags and dependencies in any order. |
| `Fingerprint.NormalForgetsOrder` | packages/blueprint-engine/src/resolver.ts:290-317 | Templates that differ only in the order of conditions and of requirements, none of which share id and kind, have one normal form. |
| `Determinism.NormalResolvesAlike` | packages/blueprint-engine/src/resolver.ts:275-317 | Resolving templates in the normal form that is fingerprinted gives the same outcome as resolving them as supplied, conflicts and rationale included. |
| `Determinism.FingerprintDetermines` | packages/blueprint-engine/src/resolver.ts:586-591 | With an injective digest, two inputs have one fingerprint if and only if their normal forms agree; they then supply the same versions of the same templates and resolve to the same result. |
| `Explanation.EveryRequirementExplained` | packages/blueprint-engine/src/resolver.ts:651-665 | A requirement that took part is in the rationale, with its template and its reason, if and only if its item ends up required. |
| `Explanation.EveryReasonIsReal` | packages/blueprint-engine/src/resolver.ts:466-475 | Every entry of the rationale is of a required item and either states a requirement that took part or names a required module that depends on the item. |
| `Explanation.NothingWithoutReason` | packages/blueprint-engine/src/resolver.ts:651-665 | Every required item has an entry that states a requirement demanding it, or one that names a required module depending on it. |
| `Authority.EveryRequirementHonoured` | packages/blueprint-engine/src/resolver.ts:361-480 | A successful resolution keeps every requirement of every template that took part, at no lower depth and with all its tags and dependencies. |
| `Authority.MoreTemplatesOnlyAdd` | packages/blueprint-engine/src/resolver.ts:246-251 | With more templates taking part, and both resolutions succeeding, no requirement is dropped, made optional, made shallower, or loses a tag, a dependency or its constraint. |
| `Authority.ConstitutionIsFloor` | packages/application/src/index.ts:89-128 | Through the locked catalog, whatever the delegate supplies and the project adds, every requirement of the Constitution is in the resolved blueprint at no lower depth. |
| `Authority.FurtherTemplateOnlyAdds` | packages/application/src/index.ts:234-251 | One more template in the supply, active or not, only adds to a resolution that succeeds before and after. |
| `Amendment.TransitionsExactly` | packages/application/src/constitution-authority.ts:178-303 | The action that leads to a stage is accepted if and only if the stage follows the current one and what it demands is supplied (evidence that is not blank, evidence if a migration is required, a decision, or nothing); then the record is at the stage and holds what was supplied, otherwise the refusal says which it was. |
| `Amendment.CleanIdsMean` | packages/application/src/constitution-authority.ts:178-182 | The ids kept are exactly the given ones trimmed, without blank ones, each once and sorted. |
| `ConstitutionStore.Repository.Create` | packages/persistence/src/constitution-authority-repository.ts:409-441 | Creating an amendment with its first revision, or the refusal that leaves all tables as they were. |
| `ConstitutionStore.Repository.CompareAndSwap` | packages/persistence/src/constitution-authority-repository.ts:303-312 | The guarded row update with its revision, used by every append. |
| `ConstitutionStore.Repository.Update` | packages/persistence/src/constitution-authority-repository.ts:459-494 | The plain update of an amendment, as one transaction. |
| `ConstitutionStore.Repository.AppendEvidence` | packages/persistence/src/constitution-authority-repository.ts:496-553 | Evidence and update, both or neither. |
| `ConstitutionStore.Repository.AppendDecision` | packages/persistence/src/constitution-authority-repository.ts:565-638 | Ratification decision and update, both or neither. |
| `ConstitutionStore.Repository.AppendPublication` | packages/persistence/src/constitution-authority-repository.ts:665-782 | Publication, its evidence and update, all or none, after the recheck of the standing approval. |
| `ConstitutionStore.PublicationStoredExactly` | packages/persistence/src/constitution-authority-repository.ts:665-782 | Whatever a caller hands over, a publication is stored if and only if the amendment is current and ratified, the owner publishes on the owner's own approval of exactly the version before, with its own evidence, and neither the amendment nor the policy version has a publication. |
| `ConstitutionStore.DecisionStoredExactly` | packages/persistence/src/constitution-authority-repository.ts:565-638 | A decision is stored if and only if it is on the current version, the record is its next version, and no other decision was made on that version. |
| `ConstitutionSafety.RevisionsFormOneChain` | packages/persistence/src/constitution-authority-repository.ts:303-312 | In every state of every interleaving of sessions the revisions of an amendment are exactly versions 1 to n; each has the version its stage has, follows from the one before by one legal transition, and there are at most eight. |
| `ConstitutionSafety.LawIsSealed` | packages/application/src/constitution-authority.ts:1157-1243 | In every such state an amendment that is published, propagating or verified has exactly one publication, at the revision and digest of its migration evidence and the revision of its impact evidence, for its target version, after an approval of exactly the record before, by the principal who gave that approval. |
| `ConstitutionSafety.ProofsStand` | packages/application/src/constitution-authority.ts:193-303 | In every such state each revision holds the proof its stage demands, and no later revision rewrites the proof of an earlier stage. |
| `ConstitutionSafety.OneLawPerVersion` | packages/persistence/src/constitution-authority-repository.ts:665-782 | No two amendments ever become law for one policy version. |
| `ConstitutionSafety.FilesOnlyGrow` | packages/persistence/src/constitution-authority-repository.ts:496-782 | Revisions, evidence, decisions and publications once on file are never changed or removed. |
| `ConstitutionSafety.StepKeeps` | packages/application/src/constitution-authority.ts:936-1448 | Every step of every session (create, read, check, attest, commit) keeps the invariant behind the three results above. |
| `ConstitutionProgress.DraftCanBecomeLaw` | packages/application/src/constitution-authority.ts:1001-1410 | From every state of every run in which an amendment is a draft and its target version is unpublished, migration required or not, the run can be continued until the amendment is law and verified, given new ids and a source the verifiers accept. |
| `ConstitutionProgress.ProposalCanBecomeLaw` | packages/application/src/constitution-authority.ts:936-1410 | From an empty store, some run makes any proposal law and has it verified. |
| `ConstitutionTrust.RunIsLogged` | packages/application/src/constitution-authority.ts:897-1410 | In every state of every run, each revision was made by a principal who owned the authority at some time before, and is logged under the name of the stage it led to. |
| `ConstitutionTrust.RunIsVouched` | packages/application/src/constitution-authority.ts:1001-1410 | In every such state, each publication was verified for its version, source and digest, and each piece of evidence passed the check its kind needs: a digest, a verified source, or a verified report on a publication of the same amendment that is on file, full compliance included. |
| `Paths.PathChecksAgree` | packages/application/src/prompt-workflow-execution.ts:165-170 | The path check of grants and the separately written one of the journal accept the same texts. |
| `Paths.BelowExactly` | packages/application/src/prompt-workflow-execution.ts:288-289 | A path is a scope or below it if and only if its segments start with those of the scope. |
| `Patterns.PayloadsMatch` | packages/application/src/prompt-workflow-execution.ts:165-198 | The payload of a grant has its shape if and only if its texts match their expressions, its numbers are in their bounds, and its paths are proper and different. |
| `Patterns.ResultsMatch` | packages/application/src/prompt-workflow-execution.ts:279-292 | The report of a runner is valid if and only if its texts match their expressions, there are 1 to 30 references, and its files are proper, as many as granted at most, and start with the segments of an allowed path. |
| `Patterns.ActionsMatch` | packages/runtime/src/workflow-observation-qa.ts:47-75 | What the executor and the verifier demand of an action: its texts match their expressions, and its scopes and files are within the bounds. |
| `Patterns.VersionsMatch` | packages/application/src/prompt-workflow-orchestration.ts:179 | The check of versions accepts exactly the texts that match its expression. |
| `Patterns.TimestampsMatch` | packages/application/src/prompt-workflow-execution.ts:26 | So does the check of timestamps. |
| `Patterns.ReferencesMatch` | packages/application/src/prompt-workflow-execution.ts:286 | So does the check of evidence references. |
| `Patterns.SignaturesMatch` | packages/application/src/prompt-workflow-execution.ts:187 | So does the check of signatures. |
| `Patterns.PathsMatch` | packages/runtime/src/workflow-observation-qa.ts:9-16 | And the check of paths, which also refuses empty and dot segments. |
| `Patterns.IndexLinesMatch` | packages/application/src/constitution-publication-sources.ts:40 | And the check of index lines in a patch. |
| `Execution.RecordsAreAcceptable` | packages/runtime/src/workflow-execution-journal.ts:24-49 | Every record the loop can make passes the check of the journal. |
| `Execution.AcceptableExactly` | packages/runtime/src/workflow-execution-journal.ts:27-60 | The journal accepts exactly the records that some bounded run can make: each acceptable record is made under some grant from some answer of the runner. |
| `Execution.RunIsLawful` | packages/application/src/prompt-workflow-execution.ts:342-405 | However a run ends: attempts numbered from 1, all but the last failed, within the tokens; each call offered exactly the positive remainder; success reported if and only if the last attempt succeeded, new evidence asked for if and only if a failure repeats. |
| `Execution.RunIsCautious` | packages/application/src/prompt-workflow-execution.ts:342-405 | The runner is called only in turns with an unexpired grant and a current source, and no run stops without one of the listed reasons. |
| `Execution.RunIsTruthful` | packages/application/src/prompt-workflow-execution.ts:342-404 | Every attempt of a run tells what the runner answered in its turn: success or failure if and only if the report was valid and within the offer and said so, with its digest, references, files and tokens; an error if it threw; invalid otherwise. Files are within the grant, and a run is submitted if and only if the last answer was a valid success. |
| `Journal.ExecutionJournal.Claim` | packages/runtime/src/workflow-execution-journal.ts:81-97 | The unique insert: true once for a request, false ever after, and faults that change nothing. |
| `Journal.ExecutionJournal.Append` | packages/runtime/src/workflow-execution-journal.ts:99-115 | An observation is stored exactly when it passes the check, its request is claimed and its attempt is new. |
| `Journal.ExecutionJournal.Read` | packages/runtime/src/workflow-execution-journal.ts:118-157 | An audit reads all rows of its request, none of another, in the order of attempts. |
| `Journal.RecordedUpTo` | packages/runtime/src/workflow-execution-journal.ts:118-157 | Rows that are the attempts 1 to k without a gap are read back as exactly those attempts. |
| `Journal.ClaimAndDrive` | packages/application/src/prompt-workflow-execution.ts:324-406 | Freshness, claim and loop over the journal in place: the journal then holds exactly the attempts of the run, other requests are untouched, and a refusal changes nothing. |
| `Policy.CheckForPlan` | packages/application/src/prompt-workflow-orchestration.ts:182-189 | The loop over the numbers of a version decides the order in which the first number that differs counts. |
| `Policy.CheckForGrant` | packages/application/src/prompt-workflow-execution.ts:216-226 | The second such loop decides the same order, on numbers that JavaScript holds exactly. |
| `Policy.PolicyChecksAgree` | packages/application/src/prompt-workflow-core.mjs:102-105 | The check of prompt rendering refuses exactly what the two loops refuse. |
| `Gateway.VerifiedIsSanctioned` | packages/application/src/prompt-workflow-execution.ts:228-277 | A verified grant names a node of the manifest that no person or reviewer is needed for, in the mode of its stage, within the budget of the node and its bounds, and expires within an hour and a minute. |
| `Gateway.VerifiedExactly` | packages/application/src/prompt-workflow-execution.ts:228-277 | A grant is verified for a node if and only if the workflow is proper and approved, the payload and signature have their shape, every part of the payload's binding is that of the workflow or the source, the policy reaches the minimum, the node is in the manifest and the payload fits it, the times are right, and the issuer is pinned, signed, adopted and permitted. |
| `Gateway.GrantFixesSource` | packages/application/src/prompt-workflow-execution.ts:200-277 | Where different manifests have different digests, one grant is verified for one whole manifest, one context and one node only, and at no two times an hour and a minute apart. |
| `Gateway.RequestsAreTexts` | packages/application/src/prompt-workflow-execution.ts:263-271 | Grants of one payload are one request if and only if their signature texts agree; and each verified grant has sixteen signature texts that are verified alike and are sixteen requests, since a request is the digest of the grant with its signature text. |
| `Gateway.AtMostSixteenRequests` | packages/application/src/prompt-workflow-execution.ts:325-328 | Where a payload has one valid signature, those sixteen are all the requests it can be. |
| `Base64.DecodesAlikeExactly` | packages/application/src/prompt-workflow-execution.ts:187 | Two signature texts decode to the same 64 bytes if and only if they agree but for the last four bits of the last letter. |
| `Base64.SixteenSpellings` | packages/application/src/prompt-workflow-execution.ts:266-267 | The texts that decode to the bytes of a signature text are sixteen different ones, listed. |
| `Gateway.ExecuteBoundedWorkflowNode` | packages/application/src/prompt-workflow-execution.ts:299-406 | The whole gateway call: it executes if and only if the grant is verified, the plan was made for the same source and has the node available, the source is current and the request is new; then the journal holds exactly the attempts of the run, and a refusal changes nothing. |
| `Gateway.OnlyReadyNodesAreExecuted` | packages/application/src/prompt-workflow-execution.ts:310-320 | Under a plan computed from receipts for the same source, what is executed is no person's node, is not accepted yet, and has all its dependencies accepted. |
| `Gateway.PlanAllowsExactly` | packages/application/src/prompt-workflow-execution.ts:310-320 | A computed plan lets a node of its own source be executed if and only if the node is ready: its two conditions on the node are one. |
| `Gateway.OtherPlansAllowNothing` | packages/application/src/prompt-workflow-execution.ts:313-323 | A plan computed for another workflow version, digest, head, canonical digest or policy allows no node. |
| `ExecutionProtocol.StepKeeps` | packages/application/src/prompt-workflow-execution.ts:325-405 | Every step of every process (start, claim, call, append, stop, crash anywhere) keeps local attempts equal to the journaled ones. |
| `ExecutionProtocol.OneGrantDrivesOneLoop` | packages/runtime/src/workflow-execution-journal.ts:81-115 | Over every interleaving of any processes with crashes at any step: at most one drives the loop of a request (a grant with its signature text), an audit reads attempts 1 to k without a gap and all but the last failed, and the runner was called k or k + 1 times and never more often than granted. |
| `ExecutionRefinement.EveryRequestIsOneRun` | packages/application/src/prompt-workflow-execution.ts:342-405 | In every state of every interleaving the journal holds of a claimed request exactly the attempts of one run of the loop under its grant, with the answers the runner gave and as many calls as were made, and each attempt tells what the runner answered in its call. |
| `DepthFirst.SearchFindsCycles` | packages/core/src/work-quality.ts:104-121 | A search from one vertex notes a trail if and only if a cycle can be reached from it, and every trail starts there and comes back to itself. |
| `DepthFirst.FullSearchFindsCycles` | packages/application/src/prompt-workflow-core.mjs:66-76 | The search from every vertex in turn notes nothing if and only if the graph has no cycle. |
| `DependencyWalk.Walk.Visit` | packages/core/src/work-quality.ts:104-119 | The recursive closure over two sets that change in place computes the search function. |
| `Workflow.ProperManifestMeans` | packages/application/src/prompt-workflow-core.mjs:33-76 | The check of the nodes accepts exactly 1 to 60 nodes with distinct proper ids, bounded budgets, a person for each release, distinct known dependencies of no later stage, no cycle, some root to discover and some test. |
| `Patterns.WorkflowsMatch` | packages/application/src/prompt-workflow-core.mjs:4-32 | The header of a workflow is accepted if and only if its texts match the regular expressions of the program, written out as parts with a semantics of their own. |
| `Workflow.CheckAcyclic` | packages/application/src/prompt-workflow-core.mjs:65-74 | The search of the check, in place, decides whether the dependencies have a cycle. |
| `Readiness.FoldReceipts` | packages/application/src/prompt-workflow-orchestration.ts:200-241 | The loop over receipts with its map, its set and its counter computes the fold. |
| `Readiness.FoldMeans` | packages/application/src/prompt-workflow-orchestration.ts:200-241 | A node is verified if and only if exactly one valid receipt was supplied for it, by that receipt, and compromised if and only if there were more. |
| `Readiness.CountsExactly` | packages/application/src/prompt-workflow-orchestration.ts:119-230 | A receipt counts if and only if every part of its binding is that of the workflow, its digest or the source, its node is in the manifest and no person's, it names one to thirty pieces of evidence under different proper references that all verify, and it is well formed and signed by a pinned issuer. |
| `Readiness.Acceptance.IsAccepted` | packages/application/src/prompt-workflow-orchestration.ts:249-258 | The memoised recursion terminates on an acyclic graph and answers membership in the greatest dependency-closed set of verified nodes. |
| `Readiness.AcceptedIsGreatest` | packages/application/src/prompt-workflow-orchestration.ts:243-259 | The accepted set is dependency-closed, verified, and holds every other such set. |
| `Readiness.BuildWorkflowReadiness` | packages/application/src/prompt-workflow-orchestration.ts:167-303 | The whole call as it runs: manifest, context, minimum policy and size of the source are checked in this order, and the plan computed equals the plan said with the greatest closed set. |
| `Readiness.PlanForgetsOrder` | packages/application/src/prompt-workflow-orchestration.ts:198-302 | The plan is the same for every order of the supplied receipts. |
| `Readiness.CountersAreExact` | packages/application/src/prompt-workflow-orchestration.ts:296-298 | The total is accepted plus rejected plus the number of nodes with more than one valid receipt. |
| `Readiness.DoubledReceiptIsMissed` | packages/application/src/prompt-workflow-orchestration.ts:200-303 | Any valid receipt, handed over twice under any proper manifest and matching context, gives a plan whose total is one more than accepted and rejected together. |
| `Readiness.SomeCountersMiss` | packages/application/src/prompt-workflow-orchestration.ts:231-239 | A manifest the check accepts, with a root "aa" and a test "bb" that depends on it, a matching context, and one valid receipt for "aa" supplied twice: of two receipts the plan counts one. |
| `Readiness.ReadyExactly` | packages/application/src/prompt-workflow-orchestration.ts:260-299 | A node is ready if and only if no person is needed, it is not accepted, and all its dependencies are. |
| `Readiness.RowsDescribe` | packages/application/src/prompt-workflow-orchestration.ts:260-288 | Each row of a plan is in the state of its node (a person needed; accepted; waiting for an unaccepted dependency; or available), lists exactly the unaccepted dependencies in their order, and counts the evidence of the one valid receipt of an accepted node. |
| `Readiness.PlanNamesSource` | packages/application/src/prompt-workflow-orchestration.ts:289-302 | A plan names the workflow, its version and digest, and the head, canonical digest and policy it was made for. |
| `Patterns.PlanMadeExactly` | packages/application/src/prompt-workflow-orchestration.ts:174-197 | A plan is made if and only if the workflow is proper, the context is of its project and repository and matches the expressions for head, digest and version, the policy reaches the minimum, and at most 240 receipts are supplied. |
| `Readiness.NeverStuck` | packages/application/src/prompt-workflow-orchestration.ts:243-299 | When nothing is ready, every unaccepted node needs a person or depends on a node that does. |
| `Readiness.NewReceiptIsAccepted` | packages/application/src/prompt-workflow-orchestration.ts:200-259 | A first valid receipt for a ready node gets it accepted and takes acceptance from no other. |
| `Readiness.DuplicatesFailClosed` | packages/application/src/prompt-workflow-orchestration.ts:231-239 | Once two valid receipts for a node are in, no further receipts get it accepted. |
| `Readiness.HumanNodesAreNotAccepted` | packages/application/src/prompt-workflow-orchestration.ts:208-212 | No receipt verifies a node that needs a person. |
| `InspectionRun.ExecuteAction` | packages/runtime/src/workflow-scoped-github-executor.ts:45-174 | The executor as it runs (scopes, listings, files seen, running total) computes the inspection function. |
| `InspectionRun.VerifyObservation` | packages/runtime/src/workflow-observation-qa.ts:47-136 | The verifier as it runs computes the verification function, with its own faults. |
| `Inspection.LoadScopesGathers` | packages/runtime/src/workflow-scoped-github-executor.ts:145-165 | A successful inspection gathers exactly the files its scopes contribute, each once, within the bounds, and every scope was proper. |
| `Inspection.ScopesForgetOrder` | packages/runtime/src/workflow-scoped-github-executor.ts:145-174 | The result depends on the set of scopes alone: their order, overlap and repetition change nothing. |
| `Inspection.DirectlyBelowExactly` | packages/runtime/src/workflow-scoped-github-executor.ts:148-152 | A listed file is taken to lie directly below a scope if and only if its path has exactly one segment more. |
| `Inspection.ExecutesExactly` | packages/runtime/src/workflow-scoped-github-executor.ts:45-174 | An inspection is carried out if and only if the action is executable, its scopes are proper, and they contribute some files within the bounds; and it reports exactly those: in the order of their paths, with the digest of their record and a reference to each. |
| `Inspection.VerifierAcceptsExecutor` | packages/runtime/src/workflow-observation-qa.ts:47-136 | Whatever the executor observes, the verifier accepts over the same repository content, with the same digest and the same number of files. |
| `Inspection.VerifiesExactly` | packages/runtime/src/workflow-observation-qa.ts:47-136 | An observation is verified if and only if the action is verifiable, the observation records a success that touched and spent nothing, and its references name different proper files in scope that can be read back within the bounds and have the digest it says. |
| `Inspection.AcceptanceMeansUnchanged` | packages/runtime/src/workflow-observation-qa.ts:117-126 | If the verifier accepts an observation over any repository content, every observed file is there with the same size and digest. |
| `Inspection.GatewayAcceptsExactly` | packages/application/src/prompt-workflow-execution.ts:279-292 | The gateway takes a successful inspection if and only if no evidence reference exceeds 300 characters after its prefix, which the executor does not check. |
| `Inspection.SomeInspectionIsRefused` | packages/application/src/prompt-workflow-execution.ts:279-292 | There is a well-formed action on one empty file whose inspection succeeds and is refused by the gateway under every grant. |
| `WorkQualityService.ValidateWorkPackageDependencies` | packages/core/src/work-quality.ts:72-125 | The check as it runs: direct reasons, then the search from the candidate alone, each reason reported once; and no reasons if and only if the candidate fits. |
| `WorkQuality.RefusedExactly` | packages/core/src/work-quality.ts:72-125 | A candidate is refused if and only if a dependency is itself, missing or foreign, or a cycle can be reached from it. |
| `WorkQuality.ReasonsExplain` | packages/core/src/work-quality.ts:72-125 | Each reason for a refusal is given if and only if it is one: the package itself, a missing or a foreign dependency; and each reported cycle is a path from the candidate that comes back to itself. |
| `WorkQuality.PassesExactly` | packages/core/src/work-quality.ts:160-188 | A gate may pass if and only if it names evidence and all of it exists, is its own and says where it comes from. |
| `WorkQuality.GateReasonsAre` | packages/core/src/work-quality.ts:160-188 | Each reason against passing a gate is given if and only if it is one: no evidence, or evidence that is unknown, another gate's, or of no stated origin. |
| `WorkQualityService.Service.CreateWorkPackage` | packages/application/src/work-quality-service.ts:40-56 | The service call over tables in place, with every refusal leaving them unchanged. |
| `WorkQualityService.Service.UpdateWorkPackage` | packages/persistence/src/work-quality-repository.ts:70-102 | The update guarded by project and record version, after the service check. |
| `WorkQualityService.Service.UpdateQualityGate` | packages/application/src/work-quality-service.ts:143-158 | The gate update, with the evidence check when the gate is to pass. |
| `WorkQualityService.Service.Readiness` | packages/core/src/work-quality.ts:127-158 | The blockers of a package, in the order of its dependencies. |
| `WorkQuality.BlockersAre` | packages/core/src/work-quality.ts:127-158 | The blockers are exactly the missing dependencies and those not completed, with their status. |
| `WorkQuality.CallsExactly` | packages/application/src/work-quality-service.ts:40-159 | A call is carried out if and only if its record is new and fits, or is the next version of what the project has, with the evidence a pass needs; then it writes that record and nothing else. |
| `WorkQuality.EveryRunIsSound` | packages/application/src/work-quality-service.ts:40-158 | After every sequence of calls each project has an acyclic graph of its own packages, although each call searches from one package, and every gate at pass rests on its own evidence. |
| `WorkQuality.GateWriteKeepsSound` | packages/application/src/work-quality-service.ts:143-158 | A gate may be written on evidence listed in any earlier store: gate calls need not be atomic. |
| `WorkQuality.SplitUpdateIsSoundExactly` | packages/application/src/work-quality-service.ts:58-78 | A package update checked in an older store keeps the stored graph sound if and only if the package still fits the store it is written to. |
| `WorkQuality.InterleavedUpdatesCloseACycle` | packages/persistence/src/work-quality-repository.ts:70-102 | Two updates checked against the same store and written one after the other can close a cycle, since the version guard is per record. |
| `WorkQuality.SplitCreationIsSound` | packages/application/src/work-quality-service.ts:40-56 | A package creation checked in an older store keeps the stored graphs sound, whatever was written in between. |
| `WorkQuality.CreationsMayInterleave` | packages/application/src/work-quality-service.ts:40-56 | So any calls may come between the check of a creation and its insertion, in every run. |
| `WorkQuality.WorkIsNeverStuck` | packages/core/src/work-quality.ts:127-158 | After every run a project with work left has a package that is left and that nothing blocks. |
| `WorkQuality.NothingIsMissing` | packages/core/src/work-quality.ts:127-158 | In a stored project no blocker is ever a missing package. |
| `Zip.ReadConstitutionArtifactZip` | packages/runtime/src/constitution-artifact.ts:6-39 | The reader as it runs; every read of a number is inside the bytes for every input, and both loops terminate. |
| `Zip.EntriesReadExactly` | packages/runtime/src/constitution-artifact.ts:17-37 | The entries are read if and only if they tile the directory region exactly and every accepted one decodes, under a new name. |
| `Zip.SuccessMeans` | packages/runtime/src/constitution-artifact.ts:9-38 | On success the directory is tiled, the result has exactly the accepted names, and each value is parsed from a payload that lies before the directory and agrees with both headers, size and checksum. |
| `ZipLayout.DirectoryFound` | packages/runtime/src/constitution-artifact.ts:9-16 | The directory of a well laid out archive is found if and only if no end mark stands after its end record begins. |
| `ZipLayout.ArchiveReadsBack` | packages/runtime/src/constitution-artifact.ts:6-39 | For an archive laid out by sections 4.3.7, 4.3.12 and 4.3.16 of the ZIP application note with stored entries: its directory is found if and only if no end mark stands after its end record begins; if none does, it reads back to its accepted entries, or to the refusal of the first bad one; and without a comment none does. |
| `ZipLayout.BogusEndIsRefused` | packages/runtime/src/constitution-artifact.ts:10-16 | Whatever bytes come before, an archive whose last 22 bytes are an end mark and zeros is refused. |
| `ZipLayout.CommentHidesProof` | packages/runtime/src/constitution-artifact.ts:10-16 | An archive with one good proof is refused when its comment reads as an end record, and returns the proof without that comment. |
| `ZipLayout.StoredReadBack` | packages/runtime/src/constitution-artifact.ts:26-35 | With good proofs under distinct accepted names, every one of them is returned and nothing else. |
| `Layout.DepthOfMeans` | packages/application/src/prompt-workflow-graph.ts:60-77 | Asking for a depth in the middle of a search either adds right depths and forgets none, or names a real cycle or dangling dependency. |
| `Layout.DepthFallsAlong` | packages/application/src/prompt-workflow-graph.ts:60-77 | No dependency chain from a node is longer than its depth. |
| `Layout.DepthHasWalk` | packages/application/src/prompt-workflow-graph.ts:60-77 | Some dependency chain from a node is as long as its depth. |
| `Drawing.DrawnExactly` | packages/application/src/prompt-workflow-graph.ts:44-77 | A graph is drawn if and only if it has 1 to 60 nodes under distinct nonempty ids, known dependencies and no cycle. |
| `Drawing.DrawingIsGood` | packages/application/src/prompt-workflow-graph.ts:79-143 | One card for each node in the column of its depth; cards apart and inside the canvas; no empty column; every curve belongs to a dependency and every dependency has one, as many as are listed, running right across at least the gap with its bends in between. |
| `Drawing.DrawnInOrder` | packages/application/src/prompt-workflow-graph.ts:84-117 | Within a column, cards come in the order of the average place of their dependencies and then of their own, evenly spaced and mirrored about the middle of the canvas. |
| `Drawing.GravityMeans` | packages/application/src/prompt-workflow-graph.ts:86-95 | What a node is ordered by is the average authored index of its dependencies, or its own index if it has none. |
| `Drawing.CurveJoins` | packages/application/src/prompt-workflow-graph.ts:119-136 | A curve runs from the middle of the right edge of the dependency to the middle of the left edge of the node. |
| `DrawingRun.DepthSearch.DepthOf` | packages/application/src/prompt-workflow-graph.ts:60-77 | The memoised search over a map and a set in place computes the depth function. |
| `DrawingRun.LayoutWorkflowGraph` | packages/application/src/prompt-workflow-graph.ts:41-144 | The whole layout as it runs: maps, columns sorted in place, cards and curves pushed. |
| `StableJson.StableSortsFirst` | packages/application/src/canonical-portability.ts:52-64 | Sorting fields before or after their values are made stable gives the same object. |
| `StableJson.StableTwice` | packages/application/src/canonical-portability.ts:52-64 | A stable value is its own stable form. |
| `StableJson.StableForgetsOrder` | packages/application/src/canonical-portability.ts:52-64 | Values that differ only in the order of fields, at any depth, have the same stable form. |
| `StableJson.StableExactly` | packages/application/src/canonical-portability.ts:52-64 | Values whose objects have distinct keys share their stable form if and only if they differ only in the order of fields, at any depth. |
| `Portability.FaultlessExactly` | packages/application/src/canonical-portability.ts:72-106 | The identity check passes if and only if everything belongs to the project and every evidence to a gate of the backup. |
| `Portability.NormalTwice` | packages/application/src/canonical-portability.ts:108-126 | A normal state is its own normal form. |
| `Portability.BackupRoundTrip` | packages/application/src/canonical-portability.ts:128-197 | A backup is made if and only if its two texts are not blank and the state is consistent; it then verifies, and its preview is the normal form of the state with its counts. |
| `Portability.PreviewIsArranged` | packages/application/src/canonical-portability.ts:170-197 | A preview shows exactly the records of the backup, list by list, each list in the order of its ids, and counts them. |
| `Portability.HashForgetsOrder` | packages/application/src/canonical-portability.ts:66-126 | Reordering records with distinct ids changes neither the normal form nor the hash. |
| `Portability.SameStateExactly` | packages/application/src/canonical-portability.ts:52-70 | The digested values of two states agree up to the order of fields if and only if the states hold, list by list, records of the same ids, owners and content. |
| `Portability.TamperingExactly` | packages/application/src/canonical-portability.ts:150-168 | With an injective digest and objects of distinct keys, another payload in the envelope verifies if and only if it is consistent, of the same project, and holds, in the order of ids, record by record the same ids, owners and content as the state backed up. |

## Left out

- Dependencies of gates: closure and the cycle search follow modules only, as the code does, so nothing is claimed of gates beyond the merge.
- Blueprint.ResolveBlueprint: of an error only its kind is modelled; a resolution id is the start of the fingerprint, and the record version of the profile and the constant lists of suggestions and warnings are copied, so they are left out; ids and versions are checked against their patterns by a parameter.
- Shape checks of ids, versions and timestamps by regular expression, except for paths, digests, references, repositories, hunk headers and the ids, versions and times of workflows and grants, which are modelled in full; the others are one parameter, or bounds on the fields that matter.
- ConstitutionSafety.LawIsSealed: the trusted attestations (components, propagation targets, compliance counts) are parameters; what is proved is what the stored record keeps of them.
- Semantic-version comparison of a proposal with the active policy, compatibility risk and timestamps of amendments.
- Authority roles and sign-in: every call of the work-quality service is taken as authorised, and the owner of the constitution is one principal at a time.
- Gateway.ExecuteBoundedWorkflowNode: the check of 64 signature bytes, pinned keys, adoption, permission, and the reading of dates and of the numbers of a version are parameters; its clock is read once for the grant and the claim.
- Readiness.BuildWorkflowReadiness: of the manifest check, what reads the prose (schema version, area, depth target, roles, goals and lists of nodes, the person a human reviewer needs, blocking on failure, raw credentials) is one parameter, as are the patterns of issuer, signature and date of a receipt and the reading of the numbers of a version; a provider that answers with something other than a list is not modelled.
- Foreign keys other than that of observations on claims, and every database failure other than a refused transaction.
- Listings of packages, gates and evidence are maps by id; the order in which rows are listed affects no result.
- Integer-like keys of JSON objects, which JavaScript enumerates first whatever their insertion order.
- Positions in a drawing are real numbers, so the rounding of average positions is not modelled; the text of the curve paths is their coordinates.
- Characters are Dafny characters, not UTF-16 code units; accepted archive names are compared as bytes.
- Archives with deflated entries in the round trip; the reader handles them, with inflation as a parameter.
- Interface, routing, diagnostics, redaction, the portfolio and the static content of the repository: case splits or text, with no invariant of their own.
