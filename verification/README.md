# Evidentrail, verified

A Dafny model of the parts of Evidentrail whose correctness rests on state, loops and arithmetic, with proofs about all
inputs, all runs and all interleavings. `dafny verify dfyconfig.toml` checks the whole project.

| module | models |
|---|---|
| `BindingRegistry` | versioned, revocable bindings behind a lock, as a class and as a function of the write history |
| `UnixPaths`, `PathPolicy`, `InternalPathRegistry` | reserved paths: parser, component-prefix test, canonical policy, counted identities |
| `Authorization` | the authorizer that leases both registries, and a step machine of every interleaving |
| `RangeScanner` | the marker scanner over rendered briefs |
| `SignTest`, `RepairStudy` | the exact sign test and the eligibility gates of the repair study |
| `EvidenceEscape`, `CompactView`, `ViewFrame`, `ViewReader`, `ViewAudit`, `CorpusReceipt` | evidence encoding, the bounded renderer, a reader for its text, its auditor, the corpus receipt |
| `HostedMessage`, `DigestHex`, `Invocation` | self-delimiting messages and hash inputs |
| `Shuffle`, `Statistics`, `Qualification`, `QualificationMeaning`, `QualifiedPhase` | xorshift, shuffle, bootstrap and the qualification report |
| `FramedBlocks`, `ThreeLaneAudit`, `ThreeLaneMeaning`, `ThreeLaneWitness`, `DrainGroups` | audits whose local checks add up to partitions of the ledger |
| `LineSplitters` | three line splitters that agree |
| `Prelude`, `Octets`, `Ordering`, `Counting` | shared values: results, octet encodings, sorting, counting arguments |

Octets are `char` values below 256, so that ASCII text can be written as it is. Hash functions are arbitrary functions of
their input octets: statements are about what is hashed, never about the hash. Where the code takes a verdict from
elsewhere (UTF-8 validity, a line parser, a product run) that verdict is a parameter.

Some properties hold only because of checks made elsewhere, and are stated with their exact condition. The hosted message
is decoded back exactly when the method's name and version hold no line feed (`MessageReadsBack`), which a validation in
`reader.rs` ensures; without it there are collisions of two kinds (`ConfusableDescriptors`, `ConfusableArtifacts`). The
invocation hash input is injective up to an empty adapter revision (`HashInputExact`, `EmptyRevisionCollides`), which the
constructor refuses. The 99 % floor and the one-percent regressions of the qualification report mean unanimity and no loss
at all, because a phase has 18 or 72 attempts.

## Model

| member | source | states |
|---|---|---|
| `BindingRegistry.LiveApprovedBindingRegistry.Install` | `crates/evidentrail-authority/src/binding_registry.rs:28-50` | Done exactly on an unpoisoned lock with a new ID, and then the only change is the new unrevoked record; otherwise nothing changes |
| `BindingRegistry.LiveApprovedBindingRegistry.Replace` | `crates/evidentrail-authority/src/binding_registry.rs:57-77` | Done exactly on an unpoisoned lock for a present ID of the same repository at a strictly higher version, and then the only change is its new unrevoked record; otherwise nothing changes |
| `BindingRegistry.LiveApprovedBindingRegistry.Revoke` | `crates/evidentrail-authority/src/binding_registry.rs:81-106` | Done exactly on an unpoisoned lock for the exact current, unrevoked reference, and then the only change is that its record is revoked; otherwise nothing changes |
| `BindingRegistry.LiveApprovedBindingRegistry.ReadLease` | `crates/evidentrail-authority/src/binding_registry.rs:112-147` | A lease is returned exactly when the record is that repository's, that reference, unrevoked and in its window; a read guard stays held exactly on success |
| `BindingRegistry.LeaseExactly` | `crates/evidentrail-authority/src/binding_registry.rs:112-147` | A lease succeeds if and only if the record in force is this repository's unrevoked binding with this reference, inside its window, and then it is that binding |
| `BindingRegistry.InstallTakesEffect` | `crates/evidentrail-authority/src/binding_registry.rs:28-50` | On an unpoisoned lock a binding with a new ID can be leased in its window right after its install |
| `BindingRegistry.ReplaceTakesEffect` | `crates/evidentrail-authority/src/binding_registry.rs:57-77` | Replacing a present ID of the same repository at any strictly higher version makes the new binding leasable and the old reference not |
| `BindingRegistry.RevokeTakesEffect` | `crates/evidentrail-authority/src/binding_registry.rs:81-106` | Revoking a reference that can be leased makes every later lease of it fail as revoked |
| `BindingRegistry.RunEvolves` | `crates/evidentrail-authority/src/binding_registry.rs:28-106` | Between any two points of any run an ID never disappears, never changes repository, never lowers its version, and at an unchanged version never loses its revocation |
| `BindingRegistry.RetiredForever` | `crates/evidentrail-authority/src/binding_registry.rs:57-147` | Once a reference was revoked or superseded no later lease of it succeeds; its ID is leasable again only at a strictly higher version |
| `BindingRegistry.LastWriteDecides` | `crates/evidentrail-authority/src/binding_registry.rs:28-106` | After any run the record of an ID is exactly what its last successful write left: the installed or replacing binding in its repository, or the record before the revoke, now revoked |
| `BindingRegistry.LeaseReadsTheLog` | `crates/evidentrail-authority/src/binding_registry.rs:112-147` | A lease succeeds if and only if the last successful write to its ID put that very reference in force, in that repository, and the time lies in its window |
| `BindingRegistry.RunKeepsWellFormed` | `crates/evidentrail-authority/src/binding_registry.rs:28-106` | Every record stays filed under its own ID and repository, and no operation poisons the lock |
| `UnixPaths.NewPath` | `crates/evidentrail-authority/src/internal_paths.rs:38-79` | A path is accepted exactly when it is canonical, with its slash-separated components; otherwise the error is the first failing check |
| `UnixPaths.CanonicalExactly` | `crates/evidentrail-authority/src/internal_paths.rs:38-79` | Accepted paths are exactly the texts of at most 65,536 octets that spell up to 256 proper names, each of 1 to 255 octets |
| `UnixPaths.PathErrorsAreTrue` | `crates/evidentrail-authority/src/internal_paths.rs:38-79` | Every error names a fault that the path has |
| `UnixPaths.ParsedPathJoinsBack` | `crates/evidentrail-authority/src/internal_paths.rs:38-79` | The components of an accepted path are proper names, within the count limit, and joining them with `/` gives the path back |
| `UnixPaths.JoinedNamesParseBack` | `crates/evidentrail-authority/src/internal_paths.rs:38-79` | Joining proper names gives an accepted path that parses into the same names |
| `UnixPaths.NewLocator` | `crates/evidentrail-schema/src/query_plan.rs:32-163` | A locator is built exactly from a canonical root of at most 4,096 octets and 1 to 256 names whose full path has at most 65,536 octets; it keeps the length of that path, and otherwise the error is that of the first failing check |
| `UnixPaths.LocatorExactly` | `crates/evidentrail-schema/src/query_plan.rs:32-163` | Locators are exactly a root that spells names, within 4,096 octets, with 1 to 256 proper names below it, within 65,536 octets in all |
| `UnixPaths.RootJoinsBack` | `crates/evidentrail-schema/src/query_plan.rs:102-134` | The components of a canonical root, however many, are proper names, and joining them gives the root back |
| `UnixPaths.NamesMakeRoot` | `crates/evidentrail-schema/src/query_plan.rs:102-134` | Joining any number of proper names gives a canonical root that splits into the same names |
| `UnixPaths.PrefixTestIsBytePrefix` | `crates/evidentrail-authority/src/internal_paths.rs:81-97` | For every locator, whatever the size of its root, the component-prefix test holds if and only if the path is `/`, or the locator's full byte path equals it or continues it with `/` |
| `PathPolicy.CollectBounded` | `crates/evidentrail-authority/src/internal_paths.rs:240-254` | Keeps all paths in order up to the limit and refuses one more |
| `PathPolicy.NewPolicy` | `crates/evidentrail-authority/src/internal_paths.rs:169-211` | Construction yields the policy or error of the specification, limits and emptiness included |
| `PathPolicy.BuildExactly` | `crates/evidentrail-authority/src/internal_paths.rs:169-211` | A policy is built exactly from 1 to 1,024 different paths of at most 4 MiB in all; it holds both lists in byte order and the digest of its octets, and each size error is reported exactly when that size is wrong |
| `PathPolicy.BuildIgnoresOrder` | `crates/evidentrail-authority/src/internal_paths.rs:169-211` | The policy, its digest or its error do not depend on the order of the paths |
| `PathPolicy.BuildAcceptsDistinctPaths` | `crates/evidentrail-authority/src/internal_paths.rs:169-211` | Within the size bounds a non-empty configuration is refused exactly when some path repeats within or across roots and aliases |
| `PathPolicy.ClashesExactly` | `crates/evidentrail-authority/src/internal_paths.rs:194-203` | Neighbour comparison of the sorted lists and binary search of the roots among the aliases find exactly the repetitions |
| `PathPolicy.DigestInputInjective` | `crates/evidentrail-authority/src/internal_paths.rs:260-284` | Equal digest inputs come only from equal root and alias lists |
| `PathPolicy.DigestReadsBack` | `crates/evidentrail-authority/src/internal_paths.rs:260-284` | A reader recovers the roots and the aliases, each as such, from the digest's input octets |
| `PathPolicy.RejectsByBytePath` | `crates/evidentrail-authority/src/internal_paths.rs:218-223` | A locator is rejected exactly when its byte path is a reserved path or lies below one |
| `InternalPathRegistry.InternalPathRegistry.ReplacePolicy` | `crates/evidentrail-authority/src/internal_paths.rs:343-353` | Done exactly on an unpoisoned lock: the policy is exchanged, identity counts are kept |
| `InternalPathRegistry.InternalPathRegistry.Register` | `crates/evidentrail-authority/src/internal_paths.rs:356-369` | Done exactly on an unpoisoned lock with room in the count, which then grows by one |
| `InternalPathRegistry.InternalPathRegistry.Unregister` | `crates/evidentrail-authority/src/internal_paths.rs:372-390` | Done exactly on an unpoisoned lock for a registered identity, whose count then shrinks by one and disappears at zero |
| `InternalPathRegistry.InternalPathRegistry.ReadLeaseForLocator` | `crates/evidentrail-authority/src/internal_paths.rs:398-414` | A lease is returned exactly on an unpoisoned lock with the expected digest and no reserved path a prefix of the locator; a guard stays held exactly on success |
| `InternalPathRegistry.WriteExactly` | `crates/evidentrail-authority/src/internal_paths.rs:343-390` | Each write succeeds exactly when the lock is sound, the count has room and the identity is known, and a refused write changes nothing |
| `InternalPathRegistry.WriteTakesEffect` | `crates/evidentrail-authority/src/internal_paths.rs:343-390` | A registration adds one to its own count only, an unregistration takes one away, a replacement changes the policy only |
| `InternalPathRegistry.LeaseForExactly` | `crates/evidentrail-authority/src/internal_paths.rs:398-414` | When a lease is given, over the fields of the state, and that each refusal names a fault that is there |
| `Authorization.Authorize` | `crates/evidentrail-authority/src/authorization.rs:25-73` | A call is authorized if and only if, over the fields of both registries: both locks are sound, the plan is in its time, its reference is the unrevoked record of its repository in its window, the caller's artifact is that record's own, the plan is within it, the digests agree and no reserved path is a prefix; both guards are held exactly on success, none after any failure |
| `Authorization.AuthorizedExactly` | `crates/evidentrail-authority/src/authorization.rs:25-73` | The two halves, each under its own lock, succeed together exactly under that condition |
| `Authorization.RefusalsAreTrue` | `crates/evidentrail-authority/src/authorization.rs:25-73` | Every refusal names a fault that is there |
| `Authorization.StepKeepsInv` | `crates/evidentrail-authority/src/authorization.rs:25-73` | Every enabled step of any interleaving keeps reader counts equal to the guards held, and every holder's facts true of the shared state |
| `Authorization.RunKeepsInv` | `crates/evidentrail-authority/src/authorization.rs:25-73` | The same over whole runs of installs, replaces, revokes, policy swaps, registrations, poisonings, authorizations and drops |
| `Authorization.TokenStaysTrue` | `crates/evidentrail-authority/src/authorization.rs:25-117` | Whoever holds a token could be authorized at that very moment: the record is the current unrevoked one, its canonical artifact is the one that was supplied, the plan is within it, digest and locator are right; and an opened identity is rejected exactly when its registrations exceed its unregistrations |
| `Authorization.TokenIsGranted` | `crates/evidentrail-authority/src/authorization.rs:60-73` | A token is handed out only in a state in which the call may be authorized |
| `Authorization.TokenAvoidsReservedBytes` | `crates/evidentrail-authority/src/authorization.rs:60-73` | While a token is held its locator's byte path is neither a reserved path nor below one, in every run whose policies hold parsed paths |
| `Authorization.CountsAreBalances` | `crates/evidentrail-authority/src/internal_paths.rs:356-390` | The count of an identity is, after every run, its successful registrations less its successful unregistrations |
| `Authorization.TokenFreezesRegistries` | `crates/evidentrail-authority/src/authorization.rs:60-73` | From the moment a token exists until it is dropped neither registry changes |
| `Authorization.FailedCallHoldsNothing` | `crates/evidentrail-authority/src/authorization.rs:35-69` | A failed half gives back exactly its own guard and changes nothing else it could hold, readers equal holders, and without calls in flight no reader is left |
| `Authorization.RetiredReferenceNeverAuthorized` | `crates/evidentrail-authority/src/authorization.rs:46-60` | Over every interleaving a revoked or superseded reference never passes authorization again |
| `RangeScanner.MarkersHaveNoBorder` | `crates/evidentrail-bench-harness/src/first_party_log_brief.rs:26-27` | Neither marker overlaps a shifted copy of itself |
| `RangeScanner.LocateRanges` | `crates/evidentrail-bench-harness/src/first_party_log_brief.rs:509-551` | The cursor loop returns exactly the specified scan, and its overflow errors are unreachable |
| `RangeScanner.ScanSound` | `crates/evidentrail-bench-harness/src/first_party_log_brief.rs:509-551` | On any success ranges are ordered and disjoint, each a marker, line-feed-free data and the terminating line feed |
| `RangeScanner.ScanMissesNothing` | `crates/evidentrail-bench-harness/src/first_party_log_brief.rs:509-551` | Every marker occurrence starts a returned range or begins at the line feed that ends one |
| `RangeScanner.ScanFindsSlots` | `crates/evidentrail-bench-harness/src/first_party_log_brief.rs:509-551` | On a document of marker-free gaps, markers, data lines and a marker-free tail the scan returns exactly the data slots |
| `RangeScanner.ScanExactlyDocuments` | `crates/evidentrail-bench-harness/src/first_party_log_brief.rs:509-551` | A text scans with these ranges if and only if it is such a document with these slots |
| `SignTest.CombIsBinomial` | `scripts/score-connected-repair-study.py:80-84` | The binomial coefficient used satisfies its factorial definition |
| `SignTest.OutcomesExactly` | `scripts/score-connected-repair-study.py:80-84` | The reference list of coin flips holds every sequence of n flips exactly once |
| `SignTest.ExactPIsFairCoinChance` | `scripts/score-connected-repair-study.py:80-84` | The value is the share of all fair-coin outcomes, each counted once, with at least that many wins |
| `SignTest.ExactPNoWins` | `scripts/score-connected-repair-study.py:80-84` | p(0, b) = 1 |
| `SignTest.ExactPNoLosses` | `scripts/score-connected-repair-study.py:80-84` | p(c, 0) = 1 / 2^c |
| `SignTest.ExactPMonotone` | `scripts/score-connected-repair-study.py:80-84` | p(c+1, b) <= p(c, b) <= p(c, b+1) for all counts |
| `SignTest.GateIsSevenWins` | `scripts/score-connected-repair-study.py:135-137` | With no losses, p <= 0.01 exactly when there are at least seven wins |
| `RepairStudy.RepairsDiffer` | `scripts/score-connected-repair-study.py:110-123` | The difference of two repair counts is target-only minus baseline-only |
| `RepairStudy.GateIsDominance` | `scripts/score-connected-repair-study.py:112-137` | One comparison passes exactly when no repaired case is lost and there are at least seven more repairs |
| `RepairStudy.HeldOutExactly` | `scripts/score-connected-repair-study.py:106` | A case is scored if and only if it is a held-out case of the study, as often as it is there |
| `RepairStudy.HeldOutInOrder` | `scripts/score-connected-repair-study.py:106` | Held-out cases are listed in the order of the study |
| `RepairStudy.IndependentExactly` | `scripts/score-connected-repair-study.py:106-109` | The independence test is ten held-out cases among which three differ in project and three in family |
| `RepairStudy.AffordableExactly` | `scripts/score-connected-repair-study.py:87-139` | The ceilings as counts: some time is reached by the current route's percentile and exceeded by at most a quarter by the challenger's, and four times its calls are at most five times the current route's |
| `RepairStudy.EligibleExactlyWhenDominant` | `scripts/score-connected-repair-study.py:87-139` | Over the cases of the study itself: the challenger is eligible exactly when there are ten held-out cases of three projects and three families, it repairs every held-out case that any of the four baselines repairs and at least seven more, its 95th percentile time is within a quarter above the current route's, and its calls too; the strict-improvement test adds nothing |
| `RepairStudy.CurrentEligibleExactlyWhenDominant` | `scripts/score-connected-repair-study.py:140-144` | The same for the current route against its three baselines, without ceilings |
| `RepairStudy.AblationQualifiedExactlyWhenDominant` | `scripts/score-learning-route.py:23-42` | Memory qualifies exactly when it repairs every held-out case of the study that is repaired without it, and at least seven more |
| `RepairStudy.MarginsAddUp` | `scripts/score-connected-repair-study.py:132-144` | If both routes are eligible the challenger leads every plain baseline by at least fourteen repairs |
| `EvidenceEscape.UnescapeBytes` | `crates/evidentrail-evidence/src/lib.rs:1022-1075` | The decoding loop computes the specified decoding, errors included |
| `EvidenceEscape.UnescapeEscape` | `crates/evidentrail-evidence/src/lib.rs:1013-1075` | Decoding undoes encoding for all octets |
| `EvidenceEscape.EscapeUnescape` | `crates/evidentrail-evidence/src/lib.rs:1013-1075` | Every decodable line is the encoding of what it decodes to |
| `EvidenceEscape.CodeTable` | `crates/evidentrail-evidence/src/lib.rs:1008-1019` | The code of every octet: backslash, line feed, return and tab by letter, printable as it is, the rest as two lower-case digits |
| `EvidenceEscape.EscapeApart` | `crates/evidentrail-evidence/src/lib.rs:1013-1019` | Octets are encoded one by one |
| `EvidenceEscape.RefusalIsTrue` | `crates/evidentrail-evidence/src/lib.rs:1022-1075` | A refused text has a decodable front, and right after it the fault that the error names |
| `EvidenceEscape.EscapeIsPrintable` | `crates/evidentrail-evidence/src/lib.rs:1013-1019` | Encoded lines are printable ASCII, so they hold no line feed |
| `CompactView.BoundedCompactText.Push` | `crates/evidentrail-bench-harness/src/compact_agent_view.rs:1243-1254` | Appends all of a string or, past the bound, nothing |
| `CompactView.Render` | `crates/evidentrail-bench-harness/src/compact_agent_view.rs:465-612` | A view is returned exactly for renderable briefs, and it is the laid-out text with every recorded offset |
| `CompactView.RenderableExactly` | `crates/evidentrail-bench-harness/src/compact_agent_view.rs:465-612` | Renderable briefs, field by field: canonical size and certification, packets numbered from zero with 1 to 16,384 different events that are exactly their canonical ones and in no other packet, and an ASCII text shorter than the canonical one |
| `ViewReader.ViewReadsBack` | `crates/evidentrail-bench-harness/src/compact_agent_view.rs:487-607` | A line parser with literal names of its own recovers the result token, the acquisition with its codes, acknowledged and persisted counts, the six coverage counts, and every packet from the text of every legible brief |
| `ViewFrame.FrameReadsBack` | `crates/evidentrail-bench-harness/src/compact_agent_view.rs:1277-1323` | Header and footer lines read back, each value under its own name |
| `ViewReader.ViewSaysTheBrief` | `crates/evidentrail-bench-harness/src/compact_agent_view.rs:487-607` | What is read is the brief: alias i+1 with the i-th packet's roles and every event's basis, stream and exact octets |
| `ViewReader.CitationLinesAreCitations` | `crates/evidentrail-bench-harness/src/compact_agent_view.rs:487-607` | The lines that start with `[E` are exactly the citation lines, one per packet in order |
| `ViewAudit.Audit` | `crates/evidentrail-bench-harness/src/compact_agent_view_admission.rs:116-232` | The auditor accepts exactly the passing views, and its event and byte counts are those of the brief |
| `ViewAudit.PassesExactly` | `crates/evidentrail-bench-harness/src/compact_agent_view_admission.rs:116-232` | A view passes if and only if it is of the brief, right about every packet and event, and every field ends before any later one starts |
| `ViewAudit.PassingViewIsRight` | `crates/evidentrail-bench-harness/src/compact_agent_view_admission.rs:116-232` | In any passing view every event has the right identity and its data range decodes to the event's octets |
| `ViewAudit.PassingFieldsDisjoint` | `crates/evidentrail-bench-harness/src/compact_agent_view_admission.rs:116-232` | Field ranges of a passing view increase and never overlap, within and across packets |
| `ViewAudit.RenderedViewPasses` | `crates/evidentrail-bench-harness/src/compact_agent_view_admission.rs:116-232` | The auditor never refuses a brief together with the view rendered from it |
| `ViewAudit.MarkersSliceRight` | `crates/evidentrail-bench-harness/src/compact_agent_view.rs:508-597` | Every citation names its packet's events in sorted order and its marker range slices to `[En]` |
| `ViewAudit.FieldsSliceRight` | `crates/evidentrail-bench-harness/src/compact_agent_view.rs:542-577` | Every recorded field range slices to its event line: number, basis, stream, encoded octets and line feed |
| `CorpusReceipt.NewReceipt` | `crates/evidentrail-bench-harness/src/compact_agent_view.rs:744-824` | A receipt is issued if and only if every case is accounted for, none twice, all sound under one configuration with countable bytes, and its fields are then right one by one; an error names a fault that is there, and is that of the first failing check in some order by digest, the only one when no digest repeats |
| `CorpusReceipt.TiesDecideTheError` | `crates/evidentrail-bench-harness/src/compact_agent_view.rs:763-786` | When a digest repeats, the order in which an unstable sort leaves the tie can decide between the two errors |
| `CorpusReceipt.OneArrangement` | `crates/evidentrail-bench-harness/src/compact_agent_view.rs:763` | Without a repeated digest sorting has one result only |
| `CorpusReceipt.ReceiptIgnoresOrder` | `crates/evidentrail-bench-harness/src/compact_agent_view.rs:744-824` | Neither verdict nor receipt depends on the order of the cases |
| `CorpusReceipt.ReceiptIsBalanced` | `crates/evidentrail-bench-harness/src/compact_agent_view.rs:763-802` | Compact plus saved is canonical; the reduction is the exact floor, at most 1,000,000, and between the smallest and largest floored reduction of the cases |
| `CorpusReceipt.SmallestExactly` | `crates/evidentrail-bench-harness/src/compact_agent_view.rs:768-788` | The minimum saving is attained by a case and is below none |
| `HostedMessage.BuildUser` | `crates/evidentrail-bench-harness/src/hosted_reader_jsonl.rs:418-480` | The message is built exactly when all three inputs are UTF-8 and no citation lacks targets, and then it is the specified encoding; otherwise the matching error |
| `HostedMessage.SectionReadsBack` | `crates/evidentrail-bench-harness/src/hosted_reader_jsonl.rs:1158-1170` | A length-prefixed section is recovered whatever its octets imitate |
| `HostedMessage.MessageReadsBack` | `crates/evidentrail-bench-harness/src/hosted_reader_jsonl.rs:418-480` | Question, context, method name and version, artifact octets and citation catalog are all decoded back from the message if and only if name and version hold no line feed |
| `HostedMessage.MessagesInjective` | `crates/evidentrail-bench-harness/src/hosted_reader_jsonl.rs:418-480` | Different messages without line feed in name and version have different octets, whatever their sections imitate |
| `HostedMessage.BuiltMessageReadsBack` | `crates/evidentrail-bench-harness/src/hosted_reader_jsonl.rs:418-480` | Every message built from handles and a descriptor that passed validation is decoded back, and each catalog row has its handle's number, target count and kind: events only, blocks only or both |
| `HostedMessage.ConfusableDescriptors` | `crates/evidentrail-bench-harness/src/hosted_reader_jsonl.rs:431-441` | A family of unvalidated descriptors whose messages coincide: the text between name and version nested in either |
| `HostedMessage.ConfusableArtifacts` | `crates/evidentrail-bench-harness/src/hosted_reader_jsonl.rs:437-448` | A second family: every method, with an artifact that hides an artifact header, shares its octets with a message whose version has swallowed the true header |
| `HostedMessage.DescriptorDoubleExactly` | `crates/evidentrail-bench-harness/src/hosted_reader_jsonl.rs:431-441` | Among messages that differ in name and version alone, a message has a double exactly when the text between them occurs in either |
| `DigestHex.EncodeHex` | `crates/evidentrail-bench-harness/src/hosted_reader_jsonl.rs:1209-1221` | Two lower-case digits per octet, in order |
| `DigestHex.HexTextExactly` | `crates/evidentrail-bench-harness/src/hosted_reader_jsonl.rs:1209-1221` | Digit by digit: the i-th octet is spelled by its high and then its low digit |
| `DigestHex.ParseDigestHex` | `crates/evidentrail-bench-harness/src/hosted_reader_jsonl.rs:1223-1245` | Accepts exactly 64 lower-case hexadecimal digits and yields the 32 octets whose text they are |
| `DigestHex.HexTextInjective` | `crates/evidentrail-bench-harness/src/hosted_reader_jsonl.rs:1209-1221` | Different octets have different texts, so with the parser's promise both directions are inverse (Base16, section 8 of RFC 4648, lower-case alphabet) |
| `DigestHex.RoundTrip` | `crates/evidentrail-bench-harness/src/hosted_reader_jsonl.rs:1209-1245` | Encoding a digest and parsing the text gives the digest back |
| `Invocation.NewEnvironment` | `crates/evidentrail-bench-harness/src/domain.rs:173-209` | The environment or the first error of the specification, names and bindings sorted |
| `Invocation.EnvironmentAcceptsExactly` | `crates/evidentrail-bench-harness/src/domain.rs:173-209` | Accepted exactly when all names are valid, none repeats, every binding is allow-listed, bound once and free of NUL |
| `Invocation.EnvironmentSays` | `crates/evidentrail-bench-harness/src/domain.rs:173-209` | An environment is its names and its bindings in ascending order, and every error names a fault that is there |
| `Invocation.EnvironmentIgnoresOrder` | `crates/evidentrail-bench-harness/src/domain.rs:173-209` | Permuting allow-list or bindings changes neither the verdict nor the environment that is hashed |
| `Invocation.NewProgram` | `crates/evidentrail-bench-harness/src/domain.rs:298-332` | Accepted exactly with absolute UTF-8 paths, NUL-free arguments and no empty or NUL revision, and then unchanged; otherwise the error of the first failing check |
| `Invocation.DeriveDigest` | `crates/evidentrail-bench-harness/src/domain.rs:1153-1295` | Feeds the specified octets to the hash, or reports an overflow exactly when a bound length does not fit in 64 bits |
| `Invocation.HashInputExact` | `crates/evidentrail-bench-harness/src/domain.rs:1153-1295` | Two invocations have equal hash inputs if and only if they agree in every bound field, list boundaries included, up to an empty against an absent adapter revision |
| `Invocation.HashInputReadsBack` | `crates/evidentrail-bench-harness/src/domain.rs:1153-1295` | The octets hashed are fields that can be read one by one, and everything the invocation binds is found in its own place among them |
| `Invocation.HashInputInjective` | `crates/evidentrail-bench-harness/src/domain.rs:1153-1295` | On invocations whose program passed construction equal inputs force equal invocations |
| `Invocation.EmptyRevisionCollides` | `crates/evidentrail-bench-harness/src/domain.rs:316-321` | An empty and an absent revision hash alike; only the constructor keeps them apart |
| `Shuffle.DrawsNonZero` | `crates/evidentrail-bench-harness/src/hosted_ranking_qualification.rs:1797-1809` | The xorshift state is non-zero after any number of draws from any non-zero state |
| `Shuffle.Random.Next` | `crates/evidentrail-bench-harness/src/hosted_ranking_qualification.rs:1804-1809` | One xorshift step, and the state stays non-zero |
| `Shuffle.KnownDraws` | `crates/evidentrail-bench-harness/src/hosted_ranking_qualification.rs:1797-1809` | The first two outputs from seed 1, and that seed 0 stands for 1 |
| `Shuffle.Random.Index` | `crates/evidentrail-bench-harness/src/hosted_ranking_qualification.rs:1811-1813` | One step, reduced modulo the bound |
| `Shuffle.Randomize` | `crates/evidentrail-bench-harness/src/hosted_ranking_qualification.rs:1696-1707` | The in-place shuffle computes the specified order |
| `Shuffle.OrderByPicks` | `crates/evidentrail-bench-harness/src/hosted_ranking_qualification.rs:1696-1707` | The order is the identity after exactly these exchanges: the t-th trades the last unsettled position with the (t+1)-th draw modulo the number of unsettled positions, then one rotation if nothing moved |
| `Shuffle.PicksDetermineOrder` | `crates/evidentrail-bench-harness/src/hosted_ranking_qualification.rs:1696-1707` | Different picks give different orders, so no order is favoured |
| `Shuffle.OrderIsNontrivialPermutation` | `crates/evidentrail-bench-harness/src/hosted_ranking_qualification.rs:1696-1707` | For every count and seed the order is a permutation of 0..count, and never the identity when count exceeds 1 |
| `Statistics.P95Meaning` | `crates/evidentrail-bench-harness/src/hosted_ranking_qualification.rs:1743-1755` | The 95th percentile is under a ceiling exactly when at least 95 of every 100 values are |
| `Statistics.PairedBootstrapLowerBound` | `crates/evidentrail-bench-harness/src/hosted_ranking_qualification.rs:1771-1785` | The loops compute the specified resampling and rank |
| `Statistics.MeansAreResamples` | `crates/evidentrail-bench-harness/src/hosted_ranking_qualification.rs:1771-1785` | The k-th resample mean is the mean of the values at draws k*n+1 to k*n+n, in closed form |
| `Statistics.LowerBoundBetween` | `crates/evidentrail-bench-harness/src/hosted_ranking_qualification.rs:1771-1785` | The bound lies between the smallest and largest value, whatever the seed |
| `Statistics.LowerBoundMeaning` | `crates/evidentrail-bench-harness/src/hosted_ranking_qualification.rs:1771-1785` | The bound exceeds t exactly when at most 500 of the 10,000 sample means do not, each the mean of as many values as there are, every one picked by the generator's next output modulo their number |
| `Statistics.LowerBoundMonotone` | `crates/evidentrail-bench-harness/src/hosted_ranking_qualification.rs:1771-1785` | Raising values never lowers the bound, seed for seed |
| `Qualification.RunAttempts` | `crates/evidentrail-bench-harness/src/hosted_ranking_qualification.rs:682-723` | Attempts come in case and repetition order with exact call counts; only an attempt's own failure stops the loops, never the cost guard or an overflow |
| `Qualification.RunPhase` | `crates/evidentrail-bench-harness/src/hosted_ranking_qualification.rs:661-736` | A report is issued exactly when preflight and every attempt succeed, and it is the evaluation of those attempts |
| `Qualification.CaseAggregatedDeltas` | `crates/evidentrail-bench-harness/src/hosted_ranking_qualification.rs:1379-1394` | One truncated mean per case, cases in identifier order |
| `QualifiedPhase.CaseDeltasExactly` | `crates/evidentrail-bench-harness/src/hosted_ranking_qualification.rs:1379-1394` | One value per case that has an attempt, in identifier order: its total gain over its attempts divided by their number, toward zero |
| `QualificationMeaning.DiagnosisExact` | `crates/evidentrail-bench-harness/src/hosted_ranking_qualification.rs:1086-1119` | The diagnosis checks hold exactly when every attempt has four valid answers of known, bounded cost |
| `QualificationMeaning.ValidResponseIsUnanimity` | `crates/evidentrail-bench-harness/src/hosted_ranking_qualification.rs:1054-1080` | With the attempts a phase has, the 99 % floor holds exactly when every attempt was accepted |
| `QualificationMeaning.SufficiencyIsNoLoss` | `crates/evidentrail-bench-harness/src/hosted_ranking_qualification.rs:1151-1161` | The sufficiency threshold holds exactly when no fewer attempts are sufficient than without assistance |
| `QualificationMeaning.DiagnosisIsNoLoss` | `crates/evidentrail-bench-harness/src/hosted_ranking_qualification.rs:1162-1183` | The same for successful diagnoses |
| `QualificationMeaning.ProtectedExact` | `crates/evidentrail-bench-harness/src/hosted_ranking_qualification.rs:1142-1150` | The protected-slice gate holds exactly when no protected attempt loses more than 10,000 micros |
| `QualificationMeaning.NoGainNoBound` | `crates/evidentrail-bench-harness/src/hosted_ranking_qualification.rs:1138-1141` | Where no attempt beats deterministic recall the bootstrap bound is not positive |
| `QualificationMeaning.GainGivesBound` | `crates/evidentrail-bench-harness/src/hosted_ranking_qualification.rs:1138-1141` | Where every attempt gains at least g and there are two cases, so does the bootstrap bound |
| `QualificationMeaning.SelectedIsBest` | `crates/evidentrail-bench-harness/src/hosted_ranking_qualification.rs:1290-1307` | A consumer is selected exactly when one is eligible; it is eligible and has strictly the greatest key |
| `QualifiedPhase.WorstFamilyExactly` | `crates/evidentrail-bench-harness/src/hosted_ranking_qualification.rs:1184-1196` | The worst-family recall is the mean recall of some family and below that of none |
| `QualifiedPhase.SelectedIsPreferred` | `crates/evidentrail-bench-harness/src/hosted_ranking_qualification.rs:1290-1307` | The selected consumer is ahead of every other eligible one: in worst-family recall, then in successful diagnoses, then in mean recall, then affinity before fusion before model order |
| `QualificationMeaning.PassedExactly` | `crates/evidentrail-bench-harness/src/hosted_ranking_qualification.rs:1041-1324` | A report passes if and only if policy, preflight, integrity, latency and cost allow it, every attempt was fully diagnosed and one single consumer meets all its conditions; the other gates add nothing |
| `QualificationMeaning.PassedMeans` | `crates/evidentrail-bench-harness/src/hosted_ranking_qualification.rs:1041-1324` | After a pass the selected consumer meets every per-consumer gate, some attempt with it strictly beat deterministic recall, and every attempt was accepted with four valid, cost-bounded diagnoses |
| `QualifiedPhase.PhasePassesExactly` | `crates/evidentrail-bench-harness/src/hosted_ranking_qualification.rs:661-1324` | Over the runs of the phase: its report passes if and only if policy and preflight allow it, there is a reader, every run was accepted and priced with its own identity, all five arms and the shadow intact and four valid answers of at most 10,000, 95 in 100 runs were fast and 95 in 100 cheap, and one consumer surely gains, protects, and loses neither sufficiency nor diagnoses |
| `QualifiedPhase.PassedPhaseMeans` | `crates/evidentrail-bench-harness/src/hosted_ranking_qualification.rs:661-1324` | After a pass nothing was wrong with any run, the selected consumer is such a winner, and some run strictly gained with it |
| `ThreeLaneAudit.Validate` | `crates/evidentrail-bench-harness/src/constrained_matched_case.rs:1312-1664` | The audit validates exactly when its demands hold, and its receipt carries the actual counts and byte totals |
| `ThreeLaneMeaning.AuditExactly` | `crates/evidentrail-bench-harness/src/constrained_matched_case.rs:1312-1664` | Over the fields of its inputs: an audit validates if and only if entries hold each ledger event once, proposals list their entry's events in order at certified costs, bounds name them, entries are the framed blocks, facets differ, every declared number is the actual one, mandatory entries are the UUID reasons with validated facets and bearing proposals, the shown packets are proposals shown whole, and the one block with the identifier is among them |
| `ThreeLaneMeaning.SelectedEventsExactly` | `crates/evidentrail-bench-harness/src/constrained_matched_case.rs:1547-1664` | The receipt's number of selected events is the number of different events shown |
| `ThreeLaneAudit.LanesAddUp` | `crates/evidentrail-bench-harness/src/constrained_matched_case.rs:1359-1512` | The local checks alone make the lanes disjoint, exhaustive and balanced in blocks, events and bytes, so those comparisons can never fail by themselves |
| `ThreeLaneAudit.ValidatedPartitionsLedger` | `crates/evidentrail-bench-harness/src/constrained_matched_case.rs:1312-1664` | Proposal and retained events are disjoint, are together exactly the ledger's events, and their bytes sum to the ledger total |
| `ThreeLaneAudit.RenderedExactly` | `crates/evidentrail-bench-harness/src/constrained_matched_case.rs:1547-1594` | A rendered packet is a proposal and carries exactly its metadata members, each once, with ledger-exact bytes |
| `ThreeLaneAudit.EntriesAreFramedBlocks` | `crates/evidentrail-bench-harness/src/constrained_matched_case.rs:1403-1431` | Every metadata entry is a block of the freshly framed ledger, member for member |
| `FramedBlocks.FailureBlockIsIntact` | `crates/evidentrail-bench-harness/src/constrained_matched_case.rs:1272-1310` | The failure block is the only matching block: reconstructed, four consecutive lane positions, the identifier in some payload |
| `ThreeLaneAudit.FailureBlockIsShown` | `crates/evidentrail-bench-harness/src/constrained_matched_case.rs:1596-1625` | A validated audit shows the whole failure block in one rendered packet: its four events with ledger-exact bytes |
| `ThreeLaneAudit.IdentifierIsShown` | `crates/evidentrail-bench-harness/src/constrained_matched_case.rs:1272-1310` | With blocks that expand to the ledger's own events, a validated audit renders an event whose bytes contain the identifier |
| `ThreeLaneAudit.MandatoryExactly` | `crates/evidentrail-bench-harness/src/constrained_matched_case.rs:1514-1545` | Mandatory entries are exactly the UUID reasons of the metadata, each of a proposal |
| `ThreeLaneWitness.OneBlockAuditHolds` | `crates/evidentrail-bench-harness/src/constrained_matched_case.rs:1312-1664` | All demands can be met at once, over any four events in order and blocks framed from them |
| `DrainGroups.ValidateOccurrences` | `crates/evidentrail-bench-harness/src/constrained_producer_universe.rs:545-612` | Validation succeeds exactly when counts agree, indices are distinct, every position is described, and events and bytes are the ledger's; otherwise the error is that of the first failing check |
| `DrainGroups.OccurrencesExactly` | `crates/evidentrail-bench-harness/src/constrained_producer_universe.rs:545-612` | Field by field: validation succeeds if and only if counts agree, record, sample and some membership tell the same of every position, no event is recorded twice, exactly the ledger's events are recorded and its bytes are those charged; that indices differ follows |
| `DrainGroups.OccurrenceErrorsAreTrue` | `crates/evidentrail-bench-harness/src/constrained_producer_universe.rs:545-612` | Every error names a fault that is there |
| `DrainGroups.IndicesAreThePositions` | `crates/evidentrail-bench-harness/src/constrained_producer_universe.rs:557-590` | Retained indices are exactly 0..n-1, by counting |
| `DrainGroups.MembershipsMatchLedger` | `crates/evidentrail-bench-harness/src/constrained_producer_universe.rs:545-612` | Memberships are in bijection with the ledger's events |
| `DrainGroups.GroupMemberships` | `crates/evidentrail-bench-harness/src/constrained_producer_universe.rs:640-673` | Grouping fails exactly on no input, a repeated event or conflicting patterns, each with its error; otherwise groups hold their members in input order under one pattern |
| `DrainGroups.GroupsPartition` | `crates/evidentrail-bench-harness/src/constrained_producer_universe.rs:640-673` | Groups are non-empty and every event is in exactly one |
| `DrainGroups.GroupsPartitionLedger` | `crates/evidentrail-bench-harness/src/constrained_producer_universe.rs:545-673` | After validation the groups partition exactly the ledger's events |
| `LineSplitters.ExactRecords` | `crates/evidentrail-bench-harness/src/hosted_ranking_qualification.rs:1663-1676` | The loop computes the specified records |
| `LineSplitters.RecordsConcatenateBack` | `crates/evidentrail-bench-harness/src/hosted_ranking_qualification.rs:1663-1676` | The records concatenate back to the input |
| `LineSplitters.RecordsCount` | `crates/evidentrail-bench-harness/src/hosted_ranking_qualification.rs:1663-1676` | There are as many records as line feeds, plus one for an unterminated tail |
| `LineSplitters.RecordsExactly` | `crates/evidentrail-bench-harness/src/hosted_ranking_qualification.rs:1663-1676` | They are the only list that concatenates to the input with line feeds at ends only, no empty record and at most the last unterminated |
| `LineSplitters.SplitInclusiveIsRecords` | `crates/evidentrail-bench-harness/src/hermetic_drain_fixture.rs:98-107` | Cutting after each line feed, as the fixture does, gives the same records |
| `LineSplitters.AssessmentAgrees` | `crates/evidentrail-bench-harness/src/legacy_drain.rs:344-378` | Logical lines are as many as exact records, CRLF at most LF, retained and dropped lines add up, and the checked subtraction never fails |
| `LineSplitters.AssessmentExactly` | `crates/evidentrail-bench-harness/src/legacy_drain.rs:344-378` | Every number of the assessment is a number of places in the input: line feeds, return and line feed pairs, records with and without ink |
| `LineSplitters.PayloadExactly` | `crates/evidentrail-bench-harness/src/hermetic_drain_fixture.rs:98-107` | A payload is its record without an ending line feed and then without one carriage return |
| `LineSplitters.Fixture` | `crates/evidentrail-bench-harness/src/hermetic_drain_fixture.rs:48-107` | Succeeds exactly within the limits on parsable ASCII input, and then its count is the adapter's retained line count; otherwise the error of the failing check |
| `LineSplitters.SplittersAgree` | `crates/evidentrail-bench-harness/src/hermetic_drain_fixture.rs:98-107` | Non-blank payloads are as many as non-blank lines despite different carriage-return stripping |

## Left out

- Subprocess execution, file hashing, environment and file-system access: outside effects.
- SHA-256 itself, JSON parsing of hosted responses and the hosted calls: given as arbitrary functions or results.
- Read guards that are leaked or moved between threads, fairness of the locks, and a thread that waits for its own guard.
- SignTest.ExactPMonotone: values are exact rationals; Python divides to a float, which is exact where the gate compares (no losses, so a power of two).
- RepairStudy: `read_study` and receipt verification are not modelled, a missing row counts as not repaired with zero cost (reading a study refuses it), the rank of the percentile is computed in integers (the float product rounds to the same ceiling), and the metered-cost guard is omitted.
- CompactView.Render: which of several errors comes first is not specified, and aliases are not narrowed to 32 bits (a view has fewer than 2^32 packets because its text is bounded).
- CompactView.Render: the digests and receipts stored beside the view are left out; the canonical text stands for its digest.
- ViewAudit.Audit: the challenge-class flags, the occurrence hashes and counter overflow after the loops are left out.
- HostedMessage.BuildUser: the system message and the artifact digests around the user message are left out.
- Invocation.DeriveDigest: fields are fed group by group through one loop instead of one call each; order and octets are the same.
- Invocation: the checks that tie a run manifest, case and stdin to each other before the digest is derived are left out.
- Qualification.RunPhase: product runs, rankers and readers are arbitrary outcomes; the corpus is only its number of cases.
- Qualification: report fields that no gate reads (ranges of repeats, stability rates, latency percentiles 50 and 99, cost sums, fallback counts, digests) are left out; sums of recall are unbounded integers, which 72 values of at most 1,000,000 cannot overflow.
- ThreeLaneAudit.Validate: the comparisons of digests and identities before the loops are one boolean input, and which error is reported is not specified.
- FramedBlocks: how a ledger is framed into blocks is an input; where it matters, `FromLedger` says that a block expands to the ledger's own events.
- ThreeLaneAudit: counts of in-memory collections are taken to fit in 64 bits; byte and affinity sums are checked as in the code.
- CorpusReceipt.NewReceipt: the receipt's own digest is left out, and with a repeated digest it is open which of the possible errors is reported, as the code's sort is unstable.
- LineSplitters: blankness is that of ASCII white space; non-ASCII white space matters only to the adapter, and the fixture refuses such input.
- LineSplitters.Fixture: the emitted JSON is left out, only its count is modelled.
- Debug and display text, error code tables and constant accessors: each is settled by reading one line, so a contract would only repeat it.
- The fixed synthetic corpora: single finite values, not families of inputs.
