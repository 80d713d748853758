# NQ: governed inquiries, claims and dependency boundaries

A Dafny model of the parts of NQ that decide things: who may inquire further under a grant, which
plan an utterance means, whether a receipt's accounting is honest, which claims evidence supports, whether a
stored receipt still stands, and whether the package graph keeps its boundaries.

Five families of files follow the program's own structure.

- **Governed inquiry** (`crates/nq-core/src/inquiry.rs`): `InquiryTypes`, `Ratchet`, `Profiles`, `ProfileCatalog`,
  `ProfileLaws`, `Admission`, `AdmissionLaws`, `InquiryReceipt`, `ReceiptLaws`, `SealLaws`, `CounterWidth`. A grant fixes a target set, a depth cap and a seven-counter
  envelope; the ratchet is the step relation of a state machine over positions. Profiles and catalogs are validated by
  loops, normalised and resolved; a plan is admitted, resolved to a witness plan and rendered as a preflight; and `seal`
  canonicalises a receipt in place and re-checks its spend per target and in aggregate, with 32- and 64-bit counters
  modelled by explicit truncation.
- **Intent compiler** (`crates/nq-core/src/intent.rs`): `Intent`, `IntentLaws`. A typed utterance becomes a plan, a clarification or a
  refusal.
- **Claim evaluator** (`crates/nq-core/src/claim_registry.rs`): `Evidence`, `ClaimRegistry`, `ClaimLaws`,
  `ClaimTermination`, `Evaluator`, `EvidenceLaws`. Resolution is mutually recursive with no cycle guard, so it takes a ghost rank that falls along
  every mention; the starter registry is shown to have one, and a resolver bounded in call depth shows for which claims of
  any registry the recursion ends.
- **Receipt checker** (`crates/nq-core/src/receipt_check.rs`): `ReceiptCheck`, `CheckLaws`.
- **Boundary gate** (`scripts/check-constellation-boundaries.py`): `DependencyGraph`, `StrongComponents`, `ShortestPath`,
  `ForbiddenGate`, `GateLaws`, `CouplingAudit`. Role, forbidden-pair and allowance tables are parameters (`ForbiddenGate.Policy`).

`Order` and `Text` hold orders, sorting, deduplication and text forms. Code that mutates state is a class or a method with
loops, proved equal to a specification function or predicate; the laws are then proved about that specification. The modules named
`...Laws` restate what each check is for in the terms of its documents (profiles, plans, receipts, packets, policy tables) and prove
the two equivalent. Hashing,
canonical JSON (RFC 8785, section 3.2) and timestamp parsing (RFC 3339, section 5.6) are function-valued parameters
(`Admission.Env`, `Evidence.Library`); where a law needs digests to have the `sha256:` text form or two values not to collide, it
says so and for exactly those values.

## Findings

Places where the code and the obvious law part company, with the exact condition under which the law holds.

- **Truncated target count.** `verify_envelope` compares `targets.len() as u32` with the 32-target cap, so a plan
  whose count is at least 2^32 passes when its low 32 bits are small (`CounterWidth.HugePlanPassesEnvelope`, with ids of nine
  letters). The 32-bit accumulators of `verify_tls_envelope` can overflow for a verified plan if and only if its count slips
  through in that way with a non-zero remainder (`CounterWidth.OverflowExactlyWhenCountSlips`; a receipt that does it is built in
  `CounterWidth.HugeReceiptOverflows`), and the aggregate caps are implied by the per-target caps if and only if the count is below
  2^32 (`CounterWidth.CapsFollowExactlyWhenCountFits`). Plans produced by resolution have at most 32 targets, so for them both
  laws hold.
- **Repeated packets.** The checker marks only the first supplied packet of a digest as used, so an evaluated receipt passes
  a strict check against its own packets only if no two of them share a digest (`CheckLaws.RoundTrip`); a packet given twice
  always makes the strict exit code 1 (`CheckLaws.RepeatedPacketFailsStrictly`).
- **Duplicate allowances.** A repeated dependency allowance is reported only when its path resolves in the current graph.
  Every repetition is reported if and only if every repeated path resolves (`ForbiddenGate.DuplicatesReportedWhenResolvable`);
  `ForbiddenGate.SilentDuplicate` is a repetition under which the whole report is empty.
- **Observation bounds are textual.** `observed_at_min` and `observed_at_max` are the least and greatest strings. Over a set
  of readable times they are the earliest and latest instants of every list drawn from it if and only if the texts are ordered as
  the instants are (`Evaluator.BoundsAreInstantsExactlyWhenTextAgrees`); two valid packets, one with an offset, for which the
  minimum is the later time and the maximum the earlier one are in `Evaluator.OffsetMisleadsBounds`.

## Model

| member | source | states |
|---|---|---|
| StrongComponents.StrongComponents | scripts/check-constellation-boundaries.py:621-657 | on every finite graph the search ends, its components partition the local packages into exactly the maximal mutually reachable sets, and each is emitted after every component it reaches |
| StrongComponents.CycleViolations | scripts/check-constellation-boundaries.py:660-686 | no violation iff the local graph has no cycle, self-loops included; every violation is a cyclic maximal component, every package on a cycle is in exactly one, and none is reported before one it reaches |
| StrongComponents.Tarjan.Visit | scripts/check-constellation-boundaries.py:629-652 | visiting a fresh node keeps the whole search invariant, only extends earlier work, and leaves the node's lowlink attained by a stack node it reaches and below every index its subtree can reach |
| StrongComponents.Tarjan.Enter | scripts/check-constellation-boundaries.py:630-635 | the new node takes the next index and the top of the stack, and the invariant survives |
| StrongComponents.Tarjan.Scan | scripts/check-constellation-boundaries.py:637-642 | afterwards every successor is indexed and no stacked successor lies below the lowlink |
| StrongComponents.Tarjan.ScanOne | scripts/check-constellation-boundaries.py:637-642 | tree edges and back edges both keep the lowlink law and only ever lower the lowlink |
| StrongComponents.Tarjan.Finish | scripts/check-constellation-boundaries.py:644-652 | a node is emitted or kept on the stack such that the lowlink law holds of it as a finished node |
| StrongComponents.Tarjan.Emit | scripts/check-constellation-boundaries.py:644-652 | emitting at a root removes exactly the stack nodes indexed from the root upward |
| StrongComponents.Tarjan.PopComponent | scripts/check-constellation-boundaries.py:645-652 | the popped component is the top of the stack down to the root, in popping order |
| StrongComponents.SegmentIsMaximal | scripts/check-constellation-boundaries.py:644-652 | at a root nothing mutually reachable with it lies outside its stack segment |
| StrongComponents.SegmentIsComponent | scripts/check-constellation-boundaries.py:644-652 | the segment above a root is a maximal mutually reachable set |
| ShortestPath.PathBetween | scripts/check-constellation-boundaries.py:689-707 | returns the lexicographically least among the shortest edge paths, and nothing exactly when the target is unreachable |
| ShortestPath.Expand | scripts/check-constellation-boundaries.py:703-706 | expanding the head of the queue keeps the search invariant and the predecessor map in step with the tree of least paths |
| ShortestPath.WalkBack | scripts/check-constellation-boundaries.py:697-702 | the predecessor walk ends at the source and yields the tree path of the node it starts from |
| ShortestPath.WalkIsMatched | scripts/check-constellation-boundaries.py:689-707 | any walk from the source is matched by a discovered path no later than it, or the queue head is already no later |
| ShortestPath.HeadIsLeast | scripts/check-constellation-boundaries.py:689-707 | a node reaching the head of the queue carries its least path |
| ShortestPath.LeastPathUnique | scripts/check-constellation-boundaries.py:689-707 | the least path is unique, so the search result is determined by the graph alone |
| ShortestPath.LeastPathExists | scripts/check-constellation-boundaries.py:689-707 | every reachable node has a least path |
| ForbiddenGate.IndexPackages | scripts/check-constellation-boundaries.py:513-577 | a later record of an id wins its name and locality, local ids are exactly those last recorded as local, and the name index lists the id of every record of a name, in order and with repeats |
| ForbiddenGate.SingleLocalIdUnique | scripts/check-constellation-boundaries.py:856-863 | a name that resolves to a single local id resolves to the local package that carries it |
| ForbiddenGate.CollectAllowances | scripts/check-constellation-boundaries.py:724-753 | allowances are sorted exactly into malformed, duplicate and applicable |
| ForbiddenGate.CheckPair | scripts/check-constellation-boundaries.py:756-779 | a pair yields its least route iff it is forbidden and reachable |
| ForbiddenGate.CheckRoutes | scripts/check-constellation-boundaries.py:755-797 | violations are exactly the unallowed routes and matched allowances exactly the applicable ones some route follows |
| ForbiddenGate.ForbiddenDependencyViolations | scripts/check-constellation-boundaries.py:720-810 | the report is exact in each of its four kinds of violation, with multiplicity: once per malformed allowance, once per later copy of an accepted path, once per unallowed pair and once per stale path |
| ForbiddenGate.GateIsExact | scripts/check-constellation-boundaries.py:720-810 | the report is empty iff allowances are well formed and unrepeated, every forbidden reachable pair's route is an applicable allowance, and every applicable allowance is such a route |
| ForbiddenGate.DuplicatesReportedWhenResolvable | scripts/check-constellation-boundaries.py:744-753 | a path is reported as duplicate iff it is repeated in well-formed allowances and resolves; every repetition is reported iff every repeated path resolves |
| ForbiddenGate.SilentDuplicate | scripts/check-constellation-boundaries.py:744-753 | a policy that repeats a well-formed allowance, and a graph under which the report is empty |
| GateLaws.ReportIsPolicy | scripts/check-constellation-boundaries.py:720-810 | the report, said of names, roles, prefixes, forbidden pairs, routes and written-out allowances: in each of its kinds it contains exactly what the policy tables demand |
| GateLaws.RolesAreExact | scripts/check-constellation-boundaries.py:499-507 | an exact role entry decides, and without one the first prefix that fits |
| GateLaws.ForbiddenRoleIsBlamed | scripts/check-constellation-boundaries.py:757-797 | when a package's role may not reach another's and no allowance names the least path, the report blames that pair for exactly that path |
| GateLaws.PermittedPairIsNotBlamed | scripts/check-constellation-boundaries.py:769-775 | a pair neither table forbids is never blamed |
| GateLaws.RolelessSourceIsNotBlamed | scripts/check-constellation-boundaries.py:758-761 | a package without exact role or fitting prefix is never blamed |
| GateLaws.SingleIsOneLocal | scripts/check-constellation-boundaries.py:856-863 | a name resolves iff exactly one of its records, repeats counted, is of a local package |
| ForbiddenGate.AllowanceCoversOnePair | scripts/check-constellation-boundaries.py:755-810 | under a silent gate each applicable allowance covers exactly one forbidden reachable pair |
| ForbiddenGate.PairHasOneAllowance | scripts/check-constellation-boundaries.py:755-810 | under a silent gate each forbidden reachable pair is covered by exactly one allowance path |
| ForbiddenGate.AllowancesMatchPairs | scripts/check-constellation-boundaries.py:755-810 | under a silent gate there are as many applicable allowance paths as forbidden reachable pairs |
| ForbiddenGate.ShorterRouteExpires | scripts/check-constellation-boundaries.py:798-809 | any strictly shorter connection makes an allowance for the longer route stale |
| ForbiddenGate.RouteEnds | scripts/check-constellation-boundaries.py:780-783 | the names of a matched allowance denote the very end points of the route it matches |
| CouplingAudit.AuditCouplings | scripts/check-constellation-boundaries.py:1186-1252 | silent iff allowances are complete, distinct and on exactly the keys found; each kind of violation is exact; unallowlisted reports plus occurrences over distinct keys equal the number of findings |
| CouplingAudit.FindingsConserved | scripts/check-constellation-boundaries.py:1186-1252 | findings under a repetition-free list of keys and findings outside it add up to all findings |
| CouplingAudit.IndexAllowances | scripts/check-constellation-boundaries.py:1190-1218 | incomplete and repeated keys are each reported exactly |
| CouplingAudit.CheckFindings | scripts/check-constellation-boundaries.py:1220-1234 | one violation per finding without an allowance, no more and no fewer |
| CouplingAudit.CheckAllowances | scripts/check-constellation-boundaries.py:1236-1250 | stale keys exactly, every coupled well-formed allowance recorded with its number of occurrences, and totals conserved |
| CouplingAudit.IncompleteIsExact | scripts/check-constellation-boundaries.py:1196-1209 | a key is reported malformed iff some allowance for it leaves any of its seven fields blank |
| InquiryTypes.CheckTargets | crates/nq-core/src/inquiry.rs:1067-1085 | accepts exactly the lists of well-formed targets with pairwise distinct ids |
| InquiryTypes.FirstOverLimitExact | crates/nq-core/src/inquiry.rs:2105-2133 | no dimension is over the limit iff all seven counters are pointwise within it |
| Ratchet.ValidateScope | crates/nq-core/src/inquiry.rs:2088-2103 | accepts exactly the scopes whose targets are valid and share no id |
| Ratchet.AuthorizeExact | crates/nq-core/src/inquiry.rs:1995-2086 | authorized iff both positions are inside the grant and the step narrows or keeps scope, never regains spend or depth, deepens only while strictly narrowing, and moves |
| Ratchet.RefusalIsExact | crates/nq-core/src/inquiry.rs:2025-2076 | a refusal names the first violated rule in order of precedence, and any violated rule prevents authorization; no progress means the very same position |
| Ratchet.BeyondGrantIsBeyondCurrent | crates/nq-core/src/inquiry.rs:2036-2070 | leaving the grant's scope or envelope is always also a widening or a replenishment of the current position |
| Ratchet.AuthorizeIrreflexive | crates/nq-core/src/inquiry.rs:1995-2086 | no position is authorized to itself |
| Ratchet.AuthorizeTransitive | crates/nq-core/src/inquiry.rs:1995-2086 | two authorized steps under one grant compose to one, the deepening rule included |
| Ratchet.AuthorizeAsymmetric | crates/nq-core/src/inquiry.rs:1995-2086 | an authorized step can never be undone |
| Ratchet.RunCollapses | crates/nq-core/src/inquiry.rs:1965-2133 | in any run every later position is admitted by the grant and is one authorized step from every earlier one |
| Ratchet.RunIsBounded | crates/nq-core/src/inquiry.rs:1965-2133 | a run is no longer than the initial scope size plus the seven counters, and deepens at most once per target given up and once per level left under the depth cap |
| Ratchet.ReachedPositionsStayInside | crates/nq-core/src/inquiry.rs:1965-1990 | every position of a run has an admitted scope of well-formed targets told apart by id, a depth within the cap, and each of its seven counters within the envelope |
| Ratchet.AdmissionIsExact | crates/nq-core/src/inquiry.rs:1965-1990 | a position is admitted iff it and the grant are well formed and it asks for no target, depth or unit the grant does not give |
| Ratchet.LongestRun | crates/nq-core/src/inquiry.rs:1965-2133 | the bound is attained: every admitted position starts a run of exactly that length |
| Ratchet.DeepestRun | crates/nq-core/src/inquiry.rs:2029-2086 | from every admitted position some run deepens as often as the smaller of its scope size and the levels left, the most any run can |
| Ratchet.DeepeningsAreBounded | crates/nq-core/src/inquiry.rs:2029-2086 | no run deepens more often than that |
| Profiles.CheckNames | crates/nq-core/src/inquiry.rs:397-525 | accepts exactly lists of non-blank, pairwise distinct names that avoid the reserved one |
| Profiles.CheckRefusals | crates/nq-core/src/inquiry.rs:397-525 | accepts exactly lists of distinct refusals with non-blank statements |
| Profiles.ValidateProfile | crates/nq-core/src/inquiry.rs:397-525 | the branching validation accepts exactly the valid report and survey profiles |
| ProfileLaws.ProfilesAreExact | crates/nq-core/src/inquiry.rs:263-525 | a profile is valid iff it is a whole report or survey profile: every range, the serial deadlines within the total, distinct non-blank texts |
| ProfileLaws.CatalogsAreExact | crates/nq-core/src/inquiry.rs:556-605 | a catalog is valid iff its profiles are and no two of them share an id, an alias, or an id with an alias |
| ProfileLaws.NormalizeKeepsContents | crates/nq-core/src/inquiry.rs:527-537 | normalising permutes the four arrays and changes no other field |
| ProfileLaws.ResolutionIsByName | crates/nq-core/src/inquiry.rs:607-662 | in a valid catalog a selector that is a profile's id or alias finds that profile, normalised, under its digest |
| ProfileLaws.UnknownNamesResolveToNothing | crates/nq-core/src/inquiry.rs:607-662 | a selector no profile carries finds nothing |
| Profiles.NormalizeIsCanonical | crates/nq-core/src/inquiry.rs:527-537 | normalising is idempotent and changes neither validity nor the names a profile answers to |
| Profiles.ArrayOrderIsInvisible | crates/nq-core/src/inquiry.rs:527-546 | profiles that differ only in the order of their arrays normalise to the same profile, hence the same digest |
| ProfileCatalog.ValidateCatalog | crates/nq-core/src/inquiry.rs:556-605 | the owner table loops accept exactly the catalogs with valid profiles, unique ids and no shared name or alias |
| ProfileCatalog.TableUnambiguous | crates/nq-core/src/inquiry.rs:592-604 | no table entry has two owners iff no name is answered by two profiles |
| ProfileCatalog.AtMostOneMatch | crates/nq-core/src/inquiry.rs:607-662 | in a valid catalog at most one profile matches a selector |
| ProfileCatalog.ResolveIsExact | crates/nq-core/src/inquiry.rs:607-662 | the more-than-one branch is unreachable; a selector finds exactly the profile that answers to it, and nothing iff none does |
| ProfileCatalog.ResolveProfile | crates/nq-core/src/inquiry.rs:607-662 | on a valid catalog and a non-blank selector the filter, sort and dedup find exactly the one profile that answers, or nothing iff none does, and never more than one |
| ProfileCatalog.ResolveIgnoresOrder | crates/nq-core/src/inquiry.rs:607-662 | permuting the profiles, or the arrays inside them, changes no resolution |
| Admission.AdmitIsExact | crates/nq-core/src/inquiry.rs:726-828 | against a resolved profile admission succeeds iff plan and profile are valid and the plan fits: right name, only declared targets for a survey, none for a report |
| Admission.AdmitSucceeds | crates/nq-core/src/inquiry.rs:726-828 | the admitted request holds the sorted cited targets, or every declared target when none was cited, under a verifying digest |
| Admission.PlanResolves | crates/nq-core/src/inquiry.rs:916-1087 | every admitted survey resolves to a witness plan over exactly its targets, at least one and at most 32, whose envelope verifies |
| AdmissionLaws.AdmissionIsByName | crates/nq-core/src/inquiry.rs:726-828 | a plan is admitted iff it and the profile are well written, it names the profile by id or alias, and it cites only declared targets |
| AdmissionLaws.AdmittedRequestIsFaithful | crates/nq-core/src/inquiry.rs:726-828 | the request repeats the profile's question and selector and the plan's time, binds the normalised profile, and grants exactly the targets the plan is about, in order, under a digest of all the rest |
| AdmissionLaws.ResolvedPlanKeepsProfile | crates/nq-core/src/inquiry.rs:916-1006 | the resolved plan keeps the profile's deadlines, concurrency, target cap, vantage, horizon and collector, allows one attempt of each kind and four work units per target, and nothing recursive |
| AdmissionLaws.VerifiedPlansAreExact | crates/nq-core/src/inquiry.rs:1036-1087 | below 2^32 targets a plan verifies iff its digest, ranges, true product of deadlines, per-target caps and targets are as promised |
| AdmissionLaws.RenderedPreflightIsFaithful | crates/nq-core/src/inquiry.rs:1250-1334 | a preflight shows the request's bindings and the profile's own limits, report limits for a report and plan limits for a survey |
| AdmissionLaws.ValidPreflightsAreExact | crates/nq-core/src/inquiry.rs:1336-1465 | below 2^32 targets a preflight is valid iff its bindings, needs, limits and envelope are as promised for its kind |
| AdmissionLaws.RequestDigestBinds | crates/nq-core/src/inquiry.rs:830-865 | two verifying requests under one digest are the same request, unless they collide |
| AdmissionLaws.PlanDigestBinds | crates/nq-core/src/inquiry.rs:1009-1034 | two verifying witness plans under one digest are the same plan, unless they collide |
| AdmissionLaws.PreflightDigestBinds | crates/nq-core/src/inquiry.rs:1467-1490 | two valid preflights under one digest are the same preflight, unless they collide |
| Admission.VerifyEnvelope | crates/nq-core/src/inquiry.rs:1036-1087 | accepts exactly the plans that match their digest, header bounds for the truncated count, and distinct valid targets |
| Admission.RenderSucceeds | crates/nq-core/src/inquiry.rs:1250-1334 | every fitting plan renders a valid preflight declaring exactly the targets it means |
| Admission.RenderIsExact | crates/nq-core/src/inquiry.rs:1250-1465 | a preflight is rendered for exactly the plans that are admitted |
| Admission.RequirementsAreLeastGrant | crates/nq-core/src/inquiry.rs:1278-1324 | a rendered preflight requires exactly the meant targets, depth one, one attempt of each kind and four work units per target and the total deadline (nothing for a report); the grant made of that is valid and admits it, and a valid grant admits it iff it concedes as much |
| Admission.AliasIsCanonical | crates/nq-core/src/inquiry.rs:607-828 | an alias and its canonical id resolve alike and admit identical requests |
| InquiryReceipt.InquiryReceipt.Canonicalize | crates/nq-core/src/inquiry.rs:2428-2436 | the in-place sorts and dedups produce the canonical receipt and touch nothing else |
| InquiryReceipt.InquiryReceipt.Seal | crates/nq-core/src/inquiry.rs:2421-2445 | succeeds exactly on receipts that pass every check, and states the receipt left behind on success and on each failure |
| InquiryReceipt.VerifyTlsEnvelope | crates/nq-core/src/inquiry.rs:2477-2634 | accepts exactly completed receipts with balanced books, or pre-acquisition grant refusals |
| InquiryReceipt.SumObservations | crates/nq-core/src/inquiry.rs:2553-2601 | the loop accepts exactly lists of lawful observations of distinct planned targets and returns their wrapped sum |
| SealLaws.SealAcceptsExactlyTheLawful | crates/nq-core/src/inquiry.rs:2421-2719 | below 2^32 observations a receipt seals iff its canonical form is a lawful report, grant refusal, or completed survey: each planned target testified to once, outcomes agreeing with their evidence, true totals, status, grant |
| SealLaws.OutcomeIsExact | crates/nq-core/src/inquiry.rs:2179-2279 | an observation's shape is accepted iff certificate, verdict, address, progress and owed refusal agree with its outcome |
| SealLaws.SealedOutcomesAgree | crates/nq-core/src/inquiry.rs:2179-2279 | every observation of a sealed survey, as it was given, has that agreement |
| SealLaws.SealedGrantCoversSpend | crates/nq-core/src/inquiry.rs:2694-2735 | in a sealed receipt grant digest, authorized envelope and observed spend are all present or all absent; present, the digest is well formed, the observed spend is the acquisition and lies within the envelope |
| SealLaws.OverspentNeverSeals | crates/nq-core/src/inquiry.rs:2718-2724 | a receipt that spent past its authorized envelope in any counter never seals |
| SealLaws.SealKeepsContents | crates/nq-core/src/inquiry.rs:2421-2445 | sealing keeps the head, permutes coverage and observations, drops only repeated refusals, sorts everything, and hashes all the rest |
| ReceiptLaws.CanonicalIdempotent | crates/nq-core/src/inquiry.rs:2428-2436 | canonicalising twice is canonicalising once |
| ReceiptLaws.SealIsIdempotent | crates/nq-core/src/inquiry.rs:2421-2445 | a second seal after a successful one succeeds and changes nothing |
| ReceiptLaws.SealIgnoresOrder | crates/nq-core/src/inquiry.rs:2415-2445 | receipts that differ only in the order of coverage, observations and refusals at either level, or in repeated refusals, seal alike, to the same receipt and digest |
| ReceiptLaws.SummedWraps | crates/nq-core/src/inquiry.rs:2584-2590 | the accumulator equals the true totals modulo each counter's width |
| ReceiptLaws.BalancedBooksAreExact | crates/nq-core/src/inquiry.rs:2523-2615 | when the books balance no 32-bit counter nor the work-unit sum wrapped, so declared attempts and work are the true totals; the wall clock, which has no cross-check, is exact below 2^48 observations |
| ReceiptLaws.EveryTargetObserved | crates/nq-core/src/inquiry.rs:2551-2570 | distinct planned observations, as many as targets, observe every target |
| ReceiptLaws.AnsweredReceiptIsExact | crates/nq-core/src/inquiry.rs:2477-2659 | a sealed answered survey over n targets observes each exactly once, its four attempt totals are each n, and its work units are 3n plus bound checks, between 3n and 4n |
| ReceiptLaws.CapsFollow | crates/nq-core/src/inquiry.rs:2523-2615 | on plans of fewer than 2^32 targets the aggregate caps follow from per-target caps and balanced books |
| CounterWidth.CapsFollowExactlyWhenCountFits | crates/nq-core/src/inquiry.rs:1036-1087 | on verified plans the aggregate caps follow for all balanced books iff the target count is below 2^32 |
| ReceiptLaws.CompletedWithinEnvelope | crates/nq-core/src/inquiry.rs:2523-2545 | a completed sealed receipt spends pointwise at most the envelope its plan's bounds render to |
| ReceiptLaws.AdmittingGrantCoversSpend | crates/nq-core/src/inquiry.rs:1250-1334 | a grant that admits the preflighted position covers whatever a completed receipt for that plan spent |
| CounterWidth.OverflowExactlyWhenCountSlips | crates/nq-core/src/inquiry.rs:1036-1087 | for a request and the verified plan bound to it, some receipt overflows an accumulator while being sealed, on an observation rejected afterwards or not, iff the plan has at least 2^32 targets with a non-zero truncated count |
| CounterWidth.OverflowNeedsSlippedCount | crates/nq-core/src/inquiry.rs:2477-2601 | no addition of the loop overflows on any receipt whose plan count survives the conversion to 32 bits, even one whose observation is then rejected for its refusals |
| CounterWidth.HugePlanPassesEnvelope | crates/nq-core/src/inquiry.rs:1036-1087 | a concrete plan of 2^32 + 1 targets with nine-letter ids passes envelope verification |
| CounterWidth.HugeReceiptOverflows | crates/nq-core/src/inquiry.rs:2421-2590 | a concrete request, plan and receipt of one lookup per target overflow a counter while being sealed |
| Intent.CompileInquiryIntent | crates/nq-core/src/intent.rs:298-371 | the branch, sort, dedup and removal code computes the specified compilation |
| IntentLaws.CompilesExactlyWhenDeclared | crates/nq-core/src/intent.rs:373-422 | an intent that means one profile compiles iff every cited id is of a target that profile declares, then into a plan for exactly those targets; otherwise it is refused for an undeclared target |
| IntentLaws.UnknownNameIsRefused | crates/nq-core/src/intent.rs:307-326 | a name no profile carries is refused as an unresolved selector |
| IntentLaws.UnaskedQuestionIsRefused | crates/nq-core/src/intent.rs:327-350 | a question no profile asks is refused as unanswerable |
| IntentLaws.SharedQuestionAsksBack | crates/nq-core/src/intent.rs:327-357 | a question several profiles ask is answered with the ascending list of exactly their bindings |
| IntentLaws.ResolutionsAreExact | crates/nq-core/src/intent.rs:212-265 | a resolution is valid iff its plan is bound to its profile, its options are two or more in strictly ascending order, and its refusal has its own family |
| IntentLaws.ResolutionRecordsIntent | crates/nq-core/src/intent.rs:359-370 | a resolution repeats composer and source text under the utterance's digest |
| Intent.CollectMatches | crates/nq-core/src/intent.rs:327-337 | the first failing resolution stops collection, otherwise every asking profile is collected in catalog order |
| Intent.CompileIsTotal | crates/nq-core/src/intent.rs:298-422 | on a valid intent and catalog compilation always yields a self-valid resolution with the specified meaning: refusal, clarification or plan |
| Intent.CompiledPlanFits | crates/nq-core/src/intent.rs:373-422 | a compiled plan cites exactly the declared targets whose ids were cited, and fits the profile it names |
| Intent.CompiledPlanRuns | crates/nq-core/src/intent.rs:298-422 | every compiled plan whose time parses is admitted with exactly the declared targets cited (all when none was), renders a preflight, and as a survey resolves to a verifying witness plan |
| Intent.ProvenanceIsInert | crates/nq-core/src/intent.rs:298-422 | composer, source text, and order and repetition of cited ids leave no trace on the disposition |
| Intent.CompileIgnoresCatalogOrder | crates/nq-core/src/intent.rs:307-371 | permuting the catalog or the arrays in its profiles changes no compilation |
| Intent.OptionsAscend | crates/nq-core/src/intent.rs:327-339 | the options are exactly the asking profiles, each once, in strictly ascending binding order |
| Intent.OptionsIgnoreOrder | crates/nq-core/src/intent.rs:327-339 | the options do not depend on catalog order |
| Intent.OptionsCanonical | crates/nq-core/src/intent.rs:237-253 | the options offered pass the canonical-order check that resolutions are validated with |
| Intent.ClarificationIsResolvable | crates/nq-core/src/intent.rs:298-371 | a clarification offers at least two ascending catalog bindings, and re-asking with any option's id compiles to that binding or refuses an undeclared target |
| ClaimRegistry.Registry.Register | crates/nq-core/src/claim_registry.rs:89-96 | files the entry under its own name, replaces an earlier one, and keeps the registry keyed by name |
| ClaimRegistry.TrackBStarter | crates/nq-core/src/claim_registry.rs:110-180 | the starter registry holds exactly its seven entries and is well founded under the rank leaf, composite, non-mintable |
| ClaimRegistry.MatchingMembers | crates/nq-core/src/claim_registry.rs:299-320 | the observations weighed for a leaf are exactly those of its type in packets of its witness type |
| ClaimRegistry.ResolveClaim | crates/nq-core/src/claim_registry.rs:281-297 | dispatch over the three kinds terminates on well-founded registries and computes the specified receipt |
| ClaimRegistry.ResolveComposite | crates/nq-core/src/claim_registry.rs:358-424 | the requirement loop computes the specified composite receipt |
| ClaimRegistry.ResolveNonMintable | crates/nq-core/src/claim_registry.rs:426-465 | the loop that overwrites and extends the receipt computes the specified non-mintable receipt |
| ClaimLaws.VerifiedIsExact | crates/nq-core/src/claim_registry.rs:281-465 | a claim is Verified iff everything in its requirement closure is registered and mintable and every leaf there has a matching observation with all matches passing |
| ClaimLaws.VerifiedListIsHonest | crates/nq-core/src/claim_registry.rs:299-465 | every name in any receipt's verified list, at any nesting, itself evaluates to Verified on the same evidence |
| ClaimLaws.NonMintableNeverSurfaces | crates/nq-core/src/claim_registry.rs:299-465 | no non-mintable claim, nor anything transitively requiring one, is ever Verified or listed as verified |
| ClaimTermination.WellFoundedIffNotCircular | crates/nq-core/src/claim_registry.rs:358-465 | a registry has a rank that falls along every mention, and so evaluates everywhere, iff no claim comes back to itself through mentions |
| ClaimTermination.ReturnsIffAvoidsCycles | crates/nq-core/src/claim_registry.rs:281-465 | in any registry, resolving a claim returns at some call depth iff it never comes to a claim that comes back to itself |
| ClaimTermination.CircularNeverReturns | crates/nq-core/src/claim_registry.rs:281-465 | resolving a claim that comes back to itself exhausts every call depth |
| ClaimTermination.ReturnsTheResolution | crates/nq-core/src/claim_registry.rs:281-465 | where resolution returns, it returns the receipt the other laws speak of, taken over the part of the registry the claim can look up, which is well founded |
| ClaimLaws.LeafIsExact | crates/nq-core/src/claim_registry.rs:299-356 | a leaf needs more evidence iff nothing witnesses it, stands NotVerified iff some matching observation fails, and otherwise is Verified and lists itself |
| ClaimLaws.CompositeIsExact | crates/nq-core/src/claim_registry.rs:358-424 | a composite lists exactly its Verified requirements and exactly one kind of reason for each other one; it needs more evidence iff none is Verified and some needs more, and is otherwise partial unless all are Verified |
| ClaimLaws.NonMintableIsExact | crates/nq-core/src/claim_registry.rs:426-465 | a non-mintable claim stays NotVerified, suggests exactly its Verified or partially Verified weaker claims, and shows the verified list of the last weaker claim that has one |
| ClaimLaws.ResolveIgnoresOrder | crates/nq-core/src/claim_registry.rs:281-465 | a resolved receipt ignores the order and repetition of packets |
| Evaluator.Evaluate | crates/nq-core/src/claim_registry.rs:185-279 | the receipt is Verified iff every packet is valid and the claim is registered and supported by the subject's packets; an invalid packet gives unsealed invalid evidence that lists nothing and names the first invalid index; an unknown claim gives invalid evidence |
| Evaluator.EvaluationIsExact | crates/nq-core/src/claim_registry.rs:185-279 | a sealed evaluation is Verified iff the claim is registered and supported by the subject's packets |
| Evaluator.EvaluationIgnoresOthers | crates/nq-core/src/claim_registry.rs:199-279 | everything recorded except the list of packet references and the seal ignores packet order, repetition, and valid packets about other subjects |
| Evaluator.ExtremeIsExtreme | crates/nq-core/src/claim_registry.rs:223-224 | the recorded bounds are attained by a packet and bound every other one |
| Evaluator.BoundsAreInstantsExactlyWhenTextAgrees | crates/nq-core/src/claim_registry.rs:223-224 | over readable times the recorded bounds are the earliest and latest instants of every list iff the texts are ordered as the instants are |
| Evaluator.OffsetMisleadsBounds | crates/nq-core/src/claim_registry.rs:223-224 | two valid packets whose receipt records the later instant as its minimum and the earlier one as its maximum |
| Evaluator.VerdictEnvelope | crates/nq-core/src/claim_registry.rs:226-266 | resolution sets only status, reasons and the claim lists; the rest of a new receipt is untouched |
| EvidenceLaws.PacketsAreExact | crates/nq-witness/src/witness.rs:255-333 | a packet is valid iff it is a whole, timed envelope whose observations name no claim and whose custody is native, or projected with source and disclaimer |
| EvidenceLaws.SegmentsAreExact | crates/nq-core/src/claim_registry.rs:534-543 | a path is cut at every dot and nowhere else |
| EvidenceLaws.PathsAreExact | crates/nq-core/src/claim_registry.rs:534-543 | a path resolves to a value iff a trail of object members leads there |
| EvidenceLaws.ConditionsAreExact | crates/nq-core/src/claim_registry.rs:496-516 | a condition holds iff its path leads to the demanded value |
| EvidenceLaws.StarterMeans | crates/nq-core/src/claim_registry.rs:110-180 | each starter leaf wants one member of one kind of observation to have one value; the composite asks for the three change checks; the non-mintable claim suggests it |
| EvidenceLaws.TypesAreExact | crates/nq-core/src/claim_registry.rs:306-316 | an observation is of a type iff its type member is that text |
| EvidenceLaws.SuggestionsKeepOrder | crates/nq-core/src/claim_registry.rs:442-457 | suggested weaker claims come in the order of the entry's list |
| EvidenceLaws.ResolvedReceiptIsPlain | crates/nq-core/src/claim_registry.rs:281-465 | a resolved receipt is about its claim, subject and time and carries nothing resolution does not decide |
| EvidenceLaws.ReasonsFollowStatus | crates/nq-core/src/claim_registry.rs:299-465 | each status comes with its reasons, and a leaf's shortfall with its cause |
| EvidenceLaws.RequirementsAreCounted | crates/nq-core/src/claim_registry.rs:358-424 | every requirement is accounted for once, and both lists keep the order of the requirements |
| EvidenceLaws.EvaluatedReceiptIsWhole | crates/nq-core/src/claim_registry.rs:199-279 | an evaluated receipt names claim, subject and evaluator, cites each packet's type, digest, time and custody, and is hashed over all the rest |
| EvidenceLaws.SealStampsAndHashes | crates/nq-core/src/receipt.rs:222-256 | sealing stamps the evaluator before hashing, is idempotent, and leaves a stored hash alone when hashing fails |
| EvidenceLaws.SubjectKeepsOrder | crates/nq-core/src/claim_registry.rs:199-201 | the subject's packets are kept in order, each as often as given |
| ReceiptCheck.CheckReport.Push | crates/nq-core/src/receipt_check.rs:164-170 | appends the outcome and keeps the broken flag equal to the presence of a broken outcome |
| ReceiptCheck.CheckReceipt | crates/nq-core/src/receipt_check.rs:176-433 | the report holds exactly the specified outcomes in order, with the flag exact |
| ReceiptCheck.CheckWitnesses | crates/nq-core/src/receipt_check.rs:262-347 | marks exactly the packets that are first of their digest and cited by some reference |
| ReceiptCheck.CheckExtras | crates/nq-core/src/receipt_check.rs:349-361 | reports exactly the unclaimed packets, in order |
| ReceiptCheck.ParseIsExact | crates/nq-core/src/receipt_check.rs:484-502 | accepts exactly `sha256:` and 64 lowercase hexadecimal digits; malformed means no colon, or that prefix with a wrong tail |
| ReceiptCheck.ExitCodeFor | crates/nq-core/src/receipt_check.rs:446-475 | two if broken, zero if every outcome passes at the given strictness, one otherwise |
| CheckLaws.BrokenIsExact | crates/nq-core/src/receipt_check.rs:213-261 | exit code 2 iff the schema is supported and a stored hash differs from the recomputed one or cannot be recomputed |
| CheckLaws.StrictPassIsExact | crates/nq-core/src/receipt_check.rs:176-475 | a strict check passes iff the receipt is intact, its references and the supplied packets match by digest in both directions without repeats, and it is shown fresh if asked |
| CheckLaws.LenientPassIsExact | crates/nq-core/src/receipt_check.rs:176-475 | a lenient check passes iff the schema is supported, any stored hash is right, every digest carried is well formed, and no readable deadline asked about has passed; the supplied packets play no part |
| CheckLaws.DigestsKeepOrder | crates/nq-core/src/receipt_check.rs:273-277 | the supplied digests are those of the packets that have one, in order and with repeats |
| CheckLaws.RefStatusIsExact | crates/nq-core/src/receipt_check.rs:273-347 | each reference is unanchored, malformed, unsupported, missing or matched exactly as its digest text and the supplied digests say |
| CheckLaws.HashStatusIsExact | crates/nq-core/src/receipt_check.rs:213-261 | the stored hash is absent, right, or broken, a failed recomputation included |
| CheckLaws.FreshnessIsExact | crates/nq-core/src/receipt_check.rs:363-418 | freshness is shown iff both times are readable and the check comes strictly first, refuted iff it does not, and otherwise not applicable |
| CheckLaws.ReportIsInOrder | crates/nq-core/src/receipt_check.rs:176-433 | the report is schema, hash, every reference with its type and digest, unclaimed packets, freshness if asked, evaluator if recorded, and nothing else |
| CheckLaws.ExtrasAreUnclaimed | crates/nq-core/src/receipt_check.rs:349-361 | the extra outcomes are exactly the packets that are not the first cited one of their digest |
| CheckLaws.ExtrasConserved | crates/nq-core/src/receipt_check.rs:262-361 | supplied digests are the extra ones plus one per distinct cited digest |
| CheckLaws.RoundTrip | crates/nq-core/src/receipt_check.rs:176-475 | an evaluated receipt checked against its own packets is never broken and misses nothing; it passes strictly iff all digests could be computed, none repeats and freshness was not asked |
| CheckLaws.RepeatedPacketFailsStrictly | crates/nq-core/src/receipt_check.rs:288-361 | a receipt evaluated from a packet given twice always exits with 1 when checked strictly against those packets |
| CheckLaws.StrictCheckPinsThePackets | crates/nq-core/src/receipt_check.rs:262-361 | barring collisions among the packets in play, a strict check of an evaluated receipt passes iff it is given exactly the packets the receipt was evaluated from, each once, and freshness is not asked |
| CheckLaws.AlterationIsCaught | crates/nq-core/src/receipt_check.rs:191-261 | unless the two bodies collide, a sealed receipt altered under the same schema and stored hash gives exit code 2, iff its body changed; altering the schema gives exit code 1 |
| CheckLaws.EvaluatedEnvelope | crates/nq-core/src/receipt.rs:222-256 | evaluation yields a supported schema, references for exactly the subject's packets, no freshness deadline, and a stored hash equal to the recomputed one |

## Left out

- Digests and timestamps: SHA-256, RFC 8785 encoding and RFC 3339 parsing are parameters; only the digest text form, and non-collision of the values at hand, are ever assumed. Inquiry digests are total; packet and receipt digests may fail as in the source.
- Prose: statements, messages, details, error texts and `supported_status` are dropped; validation results keep success or failure, or a typed kind where the source has one. The altered-receipt law therefore speaks of the modelled fields of a receipt.
- Version fields have a single value, and the validation policy a single variant, so neither is carried.
- The artifacts around a transition (grant, position and transition digests, receipts of refusals) and escalation candidates: they record a decision and feed none.
- The fixed `cannot_testify` list of a preflight: a constant.
- Missing and unknown fields in serialised documents: decided by the serialisation library.
- Dependency edge kinds, rendering, role and external-dependency reports, metadata field checks, source scanning and file walking in the boundary script: independent checks and text matching. The model starts from package records, an edge set and a list of findings.
- A violation in the boundary reports is identified by its kind and path or key, not by its text.
- The stack depth of the recursive component search, and of recursive claim resolution: recursion is unbounded in the model.
- The evaluation methods require a rank over the whole registry; that a claim which avoids a cycle elsewhere still evaluates, to the same receipt as in the part it can look up, is stated of the depth-bounded resolver in `ClaimTermination`.
- Admission, witness-plan resolution and preflight rendering are modelled as functions on values, as their source is one chain of checks that builds a value; the loops inside them are sorting, membership and target validation, which are modelled separately.
- ReceiptLaws.BalancedBooksAreExact: assumes fewer than 2^62 observations, more than a vector of them can hold, because beyond that the 64-bit work-unit sum could wrap as well.
- ReceiptLaws.AnsweredReceiptIsExact: assumes fewer than 2^62 observations, for the same reason.
- SealLaws.SealAcceptsExactlyTheLawful: covers receipts of fewer than 2^32 observations, where target counts are true; above that the truncated count finding applies.
- AdmissionLaws.VerifiedPlansAreExact: covers plans of fewer than 2^32 targets, for the same reason.
- AdmissionLaws.ValidPreflightsAreExact: covers preflights of fewer than 2^32 targets, for the same reason.
- ReceiptLaws.CapsFollow: covers plans below 2^32 targets; CounterWidth.CapsFollowExactlyWhenCountFits shows that the bound is exact.
- Configuration, host, ZFS, SMART and GPU collectors, preflight evaluators for operational claims, dashboards and installers: I/O, thin parsing and independent field checks.
