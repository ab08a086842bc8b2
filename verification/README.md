# Verification of the OSKAL assurance kernel

This Dafny project models the assurance kernel of OSKAL and the stateful adapters around it, and
proves what they promise over whole runs. `dafny verify dfyconfig.toml` checks everything.

| file | models |
|---|---|
| `Leases.dfy` | a capability lease: bounded turns, each admission extending a hash chain of receipts |
| `Broker.dfy` | the effect broker: many leases behind one mutex, calls interleaved |
| `Lifecycle.dfy` | the assurance state machine and its runs |
| `Records.dfy` | the records passed around and the texts their digests are taken over |
| `Epochs.dfy` | epochs, drift, and the sort-then-join digests of maps and lists |
| `Receipts.dfy` | evidence roots, evaluation digests and the signed bytes of receipts |
| `Evidence.dfy` | evidence contracts: type matching, producers, freshness, the search loops, the verdict |
| `Store.dfy` | the content-addressed evidence store with its subject index, in memory |
| `Airgap.dfy` | bundle manifests, export, import |
| `Reconcile.dfy` | reconciling a control binding: contract, evaluations, fold, receipt gating |
| `Oscal.dfy` | projection into OSCAL Assessment Results |
| `EndToEnd.dfy` | results that span these parts |
| `Text.dfy`, `Seqs.dfy`, `Digests.dfy` | strings, sequences, and SHA-256 seen from outside |

Objects the program updates in place (leases, the broker, the store, the contract evaluator) are
classes. Each of their methods is tied to a specification on values, and the protocol results are stated
about runs of those specifications. Loops of the program are loops here, with
the specification they compute in their contracts; iteration over a Go map is a choice of any
remaining key.

SHA-256 and the JSON text of an envelope are unknown functions. Nothing is assumed of them globally.
A result that needs SHA-256 not to collide asks for it on the finite set of texts its run hashes
(`CollisionFree`), and where the output format matters it asks for 64 hex characters (`HexOutput`).
Times and durations are integers in nanoseconds, and each clock reading is a parameter. Strings are
sequences of bytes, with case folding on ASCII.

Main results, in words:

- **Leases.** In every run of a lease the admitted receipts carry turns 1..n and chain from genesis
  to the head; nothing is admitted after a revocation, through the broker or not; no head is consumed
  twice, so of two requests racing with one head at most one wins; two runs of any two leases with
  the same head admitted the same receipts; a diligent client gets exactly the turns it was granted;
  under any interleaving in the broker each lease behaves as if it were alone.
- **Evidence.** The nested search loops compute counts of declarative standings, and type, producer,
  epoch and time tests are each characterised exactly, for what they refuse too. The verdict does
  not depend on order, never gets worse with more evidence, and never better by epoch drift, nor by
  time unless evidence stamped in the future matures.
- **Store.** After any sequence of puts and prunes the store holds exactly what was put and not
  pruned since, a listing reports exactly the IDs a scan of that history would, and every unpruned
  reference verifies.
- **Air gap.** A transfer succeeds exactly when payloads survive JSON and receipts verify; it then
  preserves listings, bytes and verdicts, and otherwise leaves the target alone. Against a genuine
  bundle without separators in its text, and with nothing asked of the bundle received, import under
  the genuine manifest is decided: metadata and entry text must be the genuine ones. A received
  bundle with as many entries then has the genuine metadata and blobs and, up to order, the genuine
  hashed fields of evaluations and envelopes and the genuine tag of each receipt. With a signer its
  receipts are the genuine ones in every signed field, however many entries it has.
- **Reconcile.** An ASSURED binding is proven by stored evidence, requirement by requirement of the
  fetched contract and control by control; receipts are attempted only then and only once the status
  is written, exactly one per control.

Where a plain reading of the code or its documentation would be too strong:

- The contract core gives VERIFIED without evidence when a contract names VERIFIED as its state for
  missing evidence (`VerifiedWithoutEvidence`). `VerifiedExactly` gives the exact condition, and
  `ContractIsStrict` shows that reconciliation never builds such a contract.
- The fold in reconciliation passes over OBSERVED and UNSPECIFIED verdicts of other evaluators;
  `OutcomeAssured` says exactly when the outcome is ASSURED.
- The documentation of the state machine lists fewer transitions than the code makes;
  `MachineAgainstDocumentation` lists the five others. The model follows the code.
- A lease receipt is hashed ambiguously as soon as any one of four fields (receipt ID, lease ID,
  payload hash, previous hash) contains `|`: each such receipt has a different twin with the same
  hashed text (`PreimageAmbiguity`). If the capability is free of `|`, there is no other case
  (`AmbiguousExactly`); if all four fields are, the hashed text determines the receipt even when the
  capability is not (`PreimageInjective`). Runs of leases whose ID is free of `|` meet that condition
  by themselves (`RunsAreUnambiguous`).
- `README.md:254` of the repository says that any modification to evaluations, receipts, metadata or
  blobs triggers manifest verification failure. That is so for bundles with the genuine number of
  entries, if the genuine bundle holds no separators in its text, and only for what the manifest
  covers (`AcceptedIsGenuine`, and `ManifestBlindSpot` for one record). It fails in these ways:
  - Fields no digest covers: of an evaluation the validity period, evidence list and counters; of an
    envelope the artifact's location and media type, the subject's attributes and the producer's
    trust domain; of a receipt everything but evidence root and signature, so that without a signer
    a FAILED receipt becomes an ASSURED one unnoticed (`FailedPassesForAssured`).
  - Root and signature are covered as one text. Text can move between them exactly if one of them
    holds a `:`, as every computed root does (`ReceiptAmbiguousExactly`, `TwinPasses`).
  - Text can move between metadata fields exactly if one of them holds a `|`
    (`MetadataAmbiguousExactly`, `UncleanMetadataPasses`), signer or not.
  - Neighbouring entries can run together in one that holds a line break (`EntriesRunTogether`): a
    receipt swallows the next one (`ReceiptsRunTogether`), a payload the next one, in which case the
    first is lost and no signer sees it (`BlobsRunTogether`). Such a bundle has fewer entries.

  With a signer, receipts are safe from all of this (`SignerBindsReceipts`).
- The empty list and the list of one empty digest share a list root
  (`ListRootIdentifiesMultiset`).
- The fuzzy subject match compares last path segments only, so it ignores the namespace
  (`PodMatchesWorkload`); `MatchExactly` says exactly what it lets through.
- OSCAL findings are linked by text search in titles, so a finding about a control also links to
  observations of controls whose ID continues its own (`LongerIdsMention`); `FindingLinksExactly`
  gives the exact links.
- Evidence stamped in the future is stale now and verifies later, so a verdict can improve by
  waiting: `MaturingRecovers` shows it for every such envelope, and `AgeingAndDrift` holds whenever
  no evidence matures in between.
- Reconciliation signs nothing when writing the binding's status fails, ASSURED or not
  (`ReceiptsOncePerControl`).

## Model

| member | source | states |
|---|---|---|
| Leases.CapabilityLease.constructor | core/assurance/lease.go:66-80 | a new lease holds the grant given, expires after its time to live, has used no turn, is not revoked and has the 64 zeros as head |
| Leases.CapabilityLease.Revoke | core/assurance/lease.go:97-100 | sets revocation and its reason and nothing else |
| Leases.CapabilityLease.EvaluateTurn | core/assurance/lease.go:103-159 | admits exactly a request with the current head, to a lease neither revoked, expired nor out of turns, for a granted capability or under "*"; states receipt, reason, turn and head in each case |
| Leases.RunInvariant | core/assurance/lease.go:103-159 | after every run of a fresh lease: admitted receipts have turns 1..CurrentTurn, chain from genesis to the head, turns stay within MaxTurns, every admission was granted and in time, the grant never changes |
| Leases.DenialChangesNothing | core/assurance/lease.go:119-156 | a denial changes no field; an admission, which happens exactly when every condition on the lease's fields is met, uses one turn and moves the head to the receipt's hash |
| Leases.RevocationIsFinal | core/assurance/lease.go:96-134 | in every run nothing is admitted after a revocation, whatever the clock says |
| Leases.SpentForever | core/assurance/lease.go:83-134 | a lease revoked or out of turns stays so and admits nothing more |
| Leases.InactiveForever | core/assurance/lease.go:83-94 | with a clock that does not run back, a lease that left ACTIVE never returns and nothing more is admitted |
| Text.DecNatValue | core/assurance/lease.go:35-48 | a printed number stands for that number, without leading zeros |
| Leases.TurnInPreimage | core/assurance/lease.go:35-48 | receipts of one lease with different turns hash different texts, whatever the other fields hold |
| Leases.NoReplay | core/assurance/lease.go:119-156 | without collisions all chain heads of a run differ and no head is consumed by two admissions |
| Leases.RaceHasOneWinner | core/assurance/lease.go:119-125 | of two requests presenting the same head at most one is admitted |
| Leases.PreimageInjective | core/assurance/lease.go:35-48 | the hashed text determines every hashed field even if the capability contains separators |
| Leases.PreimageAmbiguity | core/assurance/lease.go:35-48 | every receipt with a separator in one of four text fields shares its hashed text with a different receipt |
| Leases.AmbiguousExactly | core/assurance/lease.go:35-48 | with a separator-free capability, a receipt has such a twin exactly when one of the four fields holds a separator |
| Leases.CapabilityConfusion | core/assurance/lease.go:35-48 | a capability with separators can be confused with the other fields of a receipt outside the unambiguous ones |
| Leases.TamperEvident | core/assurance/lease.go:35-48 | two chains from genesis with the same head have the same length and agree in every hashed field at every turn |
| Leases.TamperEvidentAgainstAny | core/assurance/lease.go:35-48 | against a chain free of separators, any chain with the same head, whatever its text, is the same chain |
| Leases.RunsAreUnambiguous | core/assurance/lease.go:103-159 | a lease whose ID holds no separator admits only unambiguously hashed receipts, whatever clients ask for |
| Leases.RunsWithOneHead | core/assurance/lease.go:103-159 | two runs of any two leases that end in one head admitted the same receipts, field by field |
| Leases.ExactService | core/assurance/lease.go:83-159 | a diligent client is admitted exactly min(k, remaining turns) times in k requests, all k on an unbounded lease, and denials come last |
| Broker.EffectBroker.constructor | internal/adapters/workcell/broker.go:20-24 | a new broker holds no lease |
| Broker.EffectBroker.RegisterLease | internal/adapters/workcell/broker.go:27-31 | files a lease under its own ID and touches no other |
| Broker.EffectBroker.GetLease | internal/adapters/workcell/broker.go:34-39 | finds a lease exactly when one is filed under the ID |
| Broker.EffectBroker.RequestExecution | internal/adapters/workcell/broker.go:42-68 | steps the named lease and no other; an unknown ID yields no receipt and no change |
| Broker.EffectBroker.Revoke | internal/adapters/workcell/broker.go:71-83 | revokes the named lease and no other, and reports whether there is one |
| Broker.Isolation | internal/adapters/workcell/broker.go:26-83 | for any interleaving, a lease's final state and receipts are those of the calls naming it served alone |
| Broker.BrokeredLease | internal/adapters/workcell/broker.go:26-83 | under any interleaving a registered lease performs its own run, with the run invariant and replay protection; calls naming it too early change nothing |
| Broker.BrokerRevocationIsFinal | internal/adapters/workcell/broker.go:41-83 | after a revocation that found the lease no call is admitted under its ID, unless a lease is registered under it again |
| Lifecycle.MachineAgainstDocumentation | core/assurance/state.go:92-143 | the machine makes every documented transition and exactly five more |
| Lifecycle.AssuredOnlyByProof | core/assurance/state.go:104-143 | ASSURED is reached only by intake, verification and policy in a row; policy events never outnumber verifications, nor those the intakes |
| Epochs.MatchesPreorder | core/assurance/epoch.go:45-64 | matching is reflexive, and evidence that meets a finer target meets a coarser one |
| Epochs.MatchesExactly | core/assurance/epoch.go:45-85 | epochs match exactly if no drifted dimension is one the target states |
| Epochs.Diff | core/assurance/epoch.go:66-85 | reports exactly the drifted dimensions, each once |
| Epochs.CompositeIdentifiesEpoch | core/assurance/epoch.go:31-43 | the composite digest identifies the epoch although ':' also occurs inside its parts |
| Epochs.ComputeMapDigest | core/assurance/epoch.go:98-117 | hashes the sorted pairs whatever order the map is ranged over |
| Epochs.MapDigestIdentifiesMap | core/assurance/epoch.go:98-117 | map digests are equal exactly for equal maps, empty ones included |
| Text.LeqExactly | core/assurance/epoch.go:119-130 | the sorting order: a text comes first if it is cut short, or smaller at the first character that differs |
| Epochs.CanonicalDigestList | core/assurance/epoch.go:119-130 | hashes the sorted, joined list |
| Epochs.ListRootIdentifiesMultiset | core/assurance/epoch.go:119-130 | list roots are equal exactly for equal multisets, with one named exception |
| Receipts.ComputeEvidenceRoot | internal/receipts/receipt.go:53-67 | the root of non-empty evidence is the canonical list digest of its digests, that of none is a constant |
| Receipts.EvidenceRootCommits | internal/receipts/receipt.go:53-67 | an evidence root commits to exactly the multiset of digests |
| Receipts.EvaluationDigestCommits | core/assurance/claim.go:35-48 | two evaluations share a digest exactly when they share identity, subject, control, state, epoch, root and time |
| Receipts.EvaluationDigestBinds | core/assurance/claim.go:35-48 | an evaluation free of separators shares its digest exactly with evaluations that share its hashed fields, whatever their text |
| Receipts.EnvelopeDigestCommits | core/assurance/evidence.go:179-201 | two envelopes share a digest exactly when they share eleven hashed fields; equally many controls then agree as a multiset |
| Receipts.EnvelopeDigestBinds | core/assurance/evidence.go:179-201 | an envelope free of separators shares its digest exactly with envelopes that share its hashed fields, whatever their text |
| Receipts.SignedBytesCommit | core/assurance/claim.go:117-129 | two receipts have the same signed bytes exactly when they share every signed field |
| Receipts.SignedBytesBind | core/assurance/claim.go:117-129 | a receipt free of line breaks shares its signed bytes exactly with receipts that share its signed fields, whatever their text |
| Records.SubjectNames | core/assurance/evidence.go:20-25 | a URI identifies scheme and ID, and nothing else of a subject |
| Records.AuthorityNames | core/assurance/evidence.go:76-81 | a name identifies scheme and subject, and nothing else of an authority |
| Records.ControlNames | core/assurance/evidence.go:42-47 | a name identifies a control, version included |
| Evidence.MatchingIsCleanMatching | core/assurance/evidence.go:338-361 | type matching equals its last two tests alone, and is symmetric |
| Evidence.TypesExactly | core/assurance/evidence.go:338-361 | types match exactly if they are equal up to case and dashes for dots, or one is the other with something in front set off by a dot or dash |
| Evidence.IsProducerAccepted | core/assurance/evidence.go:141-162 | accepts exactly when the list is empty or some entry is "*", the producer, a prefix followed by a star, its scheme, or the producer in other letter case |
| Evidence.OtherSchemesRefused | core/assurance/evidence.go:141-162 | entries without a star refuse every producer of another scheme |
| Evidence.ProducerPatterns | core/assurance/evidence.go:146-159 | what prefix patterns, bare schemes and case folding admit |
| Evidence.VerificationWindow | core/assurance/evidence.go:129-139 | a contract is VERIFIED exactly if something is required and each required requirement is met by an envelope of agreeing type, listed producer, met epoch, from its capture for the maximum age |
| Evidence.FindMatch | core/assurance/evidence.go:264-298 | finds the first current candidate of an accepted producer and the outdated ones before it |
| Evidence.SearchFindsStanding | core/assurance/evidence.go:264-319 | the first-match search decides whether a requirement is met, outdated or absent in the declarative sense |
| Evidence.Evaluate | core/assurance/evidence.go:247-336 | the loops yield the counts of declarative standings, the winners, the outdated candidates, the unmet requirements and the verdict |
| Evidence.CountersBalance | core/assurance/evidence.go:300-319 | Verified + Stale + Missing = Required, and as many missing requirements as Stale + Missing |
| Evidence.PresentIsCount | core/assurance/evidence.go:300-302 | Present, the number of verified envelopes, counts the requirements that are met |
| Evidence.VerdictMeaning | core/assurance/evidence.go:224-227 | completeness means some requirement is required and each required one is witnessed; Missing means one has no bearing envelope at all |
| Evidence.VerifiedExactly | core/assurance/evidence.go:322-333 | when the verdict is VERIFIED, exactly, for every contract |
| Evidence.VerifiedWithoutEvidence | core/assurance/evidence.go:328-329 | a contract that is VERIFIED without evidence |
| Evidence.StaleAndMissingExactly | core/assurance/evidence.go:322-333 | when the verdict is STALE, and when it is the state for missing evidence, exactly, in terms of which evidence is there |
| Evidence.ListsExactly | core/assurance/evidence.go:263-320 | verified envelopes each meet a requirement, with one for each that can be met; stale ones fail one in epoch or time alone; missing are exactly the required requirements none meets |
| Evidence.OrderIrrelevant | core/assurance/evidence.go:263-333 | verdict and all five counters depend on the set of envelopes and the multiset of requirements only |
| Evidence.MoreEvidence | core/assurance/evidence.go:263-333 | adding envelopes never lowers Verified, never raises Missing, never worsens the verdict |
| Evidence.AgeingAndDrift | core/assurance/evidence.go:274-320 | a later time by which no evidence matures and a finer epoch never verify more nor improve the verdict |
| Evidence.DriftAlone | core/assurance/evidence.go:274-320 | a finer epoch never verifies more nor improves the verdict, whatever the capture times |
| Evidence.MaturingRecovers | core/assurance/evidence.go:129-139 | every envelope stamped in the future makes some contract STALE now and VERIFIED later |
| Evidence.MissingIsTimeless | core/assurance/evidence.go:263-333 | Missing depends on neither time nor epoch; with nothing missing the verdict is VERIFIED or STALE always |
| Store.EvidenceRepository.constructor | internal/adapters/storage/cas.go:34-42 | a new memory store is empty |
| Store.EvidenceRepository.Put | internal/adapters/storage/cas.go:120-174 | stores envelope text, envelope, index entry and payload, and returns the reference of the text |
| Store.EvidenceRepository.Get | internal/adapters/storage/cas.go:176-196 | returns the blob under the digest, if any |
| Store.EvidenceRepository.Verify | internal/adapters/storage/cas.go:198-218 | intact exactly when the blob under the digest hashes to it |
| Store.EvidenceRepository.ListBySubject | internal/adapters/storage/cas.go:220-261 | distinct IDs, exact subjects first, only stored evidence related to the subject, and the ID of all of it |
| Store.MatchExactly | internal/adapters/storage/cas.go:263-278 | evidence is about a subject exactly if URI or ID are equal or its last path segment is, or continues after a dash, the subject's last segment, with or without binding and contract suffixes |
| Store.LeafExactly | internal/adapters/storage/cas.go:243-268 | every ID has exactly one last path segment, slashes at the ends aside |
| Store.EvidenceRepository.Prune | internal/adapters/storage/cas.go:288-338 | keeps exactly the envelopes not captured before the cutoff and rebuilds the index; a dry run changes nothing and reports the same counts and bytes |
| Store.PodMatchesWorkload | internal/adapters/storage/cas.go:263-278 | evidence about a pod named after a workload matches the workload, its binding and its contract |
| Store.PutKeepsValid | internal/adapters/storage/cas.go:138-165 | Put keeps content addressing and both directions of the index |
| Store.PruneKeepsValid | internal/adapters/storage/cas.go:310-330 | Prune keeps them too |
| Store.PruneTwice | internal/adapters/storage/cas.go:288-338 | pruning at two cutoffs is pruning at the later one, and the reports add up |
| Store.PruneConservesBytes | internal/adapters/storage/cas.go:299-308 | the bytes stored before a prune are those it reports and those still stored |
| Store.StoreIsItsHistory | internal/adapters/storage/cas.go:120-338 | after any puts and prunes the store is valid and holds exactly what was put and not pruned since |
| Store.ListingIsHistoryScan | internal/adapters/storage/cas.go:220-278 | a listing reports exactly the IDs of matching envelopes put and not pruned since |
| Store.ReferencesVerify | internal/adapters/storage/cas.go:198-218 | every reference returned for an unpruned envelope verifies |
| Airgap.ComputeManifestDigest | internal/adapters/airgap/bundle.go:38-66 | the manifest is the digest of metadata and sorted entries, whatever order the blobs are ranged over |
| Airgap.ManifestOrderFree | internal/adapters/airgap/bundle.go:38-66 | reordering evaluations, envelopes or receipts leaves the manifest unchanged |
| Airgap.ManifestBinds | internal/adapters/airgap/bundle.go:38-66 | against a bundle free of separators, any bundle shares the manifest exactly with the same metadata and entry text; it then has no more entries, and with as many the same multiset of entries |
| Airgap.ManifestIdentifies | internal/adapters/airgap/bundle.go:38-66 | against a bundle free of separators, any bundle shares manifest and number of entries exactly when it shares metadata, blobs and, up to order, the bound fields of each record |
| Airgap.AcceptedIsGenuine | internal/adapters/airgap/bundle.go:133-146 | under the manifest digest of a genuine bundle free of separators, a bundle of any text is imported exactly when metadata and entry text are the genuine ones and its receipts verify; with as many entries, exactly when all bound fields are the genuine ones |
| Airgap.ManifestBlindSpot | internal/adapters/airgap/bundle.go:38-66 | exchanging one evaluation, envelope or receipt for any other leaves the manifest unchanged exactly when the bound fields agree |
| Airgap.FailedPassesForAssured | internal/adapters/airgap/bundle.go:47-49 | without a signer, turning a FAILED receipt into an ASSURED one keeps an importable bundle importable |
| Airgap.ReceiptAmbiguousExactly | internal/adapters/airgap/bundle.go:47-49 | another root and signature give the same tag exactly when root or signature holds a colon |
| Airgap.TwinPasses | internal/adapters/airgap/bundle.go:47-49 | without a signer, a receipt exchanged for one of the same tag keeps an importable bundle importable |
| Airgap.MetadataAmbiguousExactly | internal/adapters/airgap/bundle.go:56-63 | other metadata gives the same hashed text exactly when a text field holds a separator |
| Airgap.UncleanMetadataPasses | internal/adapters/airgap/bundle.go:56-63 | a bundle whose metadata holds a separator is imported, under any signer, exactly when it is with certain other metadata |
| Airgap.EntriesRunTogether | internal/adapters/airgap/bundle.go:39-62 | any two entries that are neighbours in sorted order can be spelled out by one with the same manifest, if the order is kept |
| Airgap.ReceiptsRunTogether | internal/adapters/airgap/bundle.go:47-62 | a receipt whose signature spells out the next one can replace both in any bundle |
| Airgap.BlobsRunTogether | internal/adapters/airgap/bundle.go:50-62 | a payload whose key spells out its neighbour can replace both in any bundle, and the first payload is lost |
| Airgap.SignerBindsReceipts | internal/adapters/airgap/bundle.go:139-146 | with a signer, the receipts of any bundle imported under the manifest of a genuine one free of separators are the genuine ones in every signed field |
| Airgap.ExportBundle | internal/adapters/airgap/bundle.go:68-119 | bundles the given evaluations, receipts and envelopes, metadata of subject, first epoch and time, and exactly the cited payloads the store holds, under its own manifest |
| Airgap.ImportBundle | internal/adapters/airgap/bundle.go:121-161 | accepts exactly bundles that parse, carry their manifest and verify; reports the first bad receipt; a refusal leaves the target alone |
| Airgap.TransferAccepted | internal/adapters/airgap/bundle.go:68-146 | the import of an export is accepted exactly when receipts verify and every payload survives JSON |
| Airgap.TransferPreserves | internal/adapters/airgap/bundle.go:98-161 | after import the target is valid, holds its own and the bundled envelopes, lists each bundled ID under its subject and has the source's bytes for each artifact |
| Airgap.Transfer | internal/adapters/airgap/bundle.go:68-161 | export from one repository and import into another: it succeeds exactly when receipts verify and payloads survive JSON, returning the exported records and metadata with the target as above, or leaves the target unchanged |
| Reconcile.BuildContract | internal/application/reconcile/controller.go:113-162 | takes over the fetched contract requirement by requirement, with id, type, required flag, producers, age and missing state, if it requires anything; else asks for admission evidence of a day per binding requirement |
| Reconcile.SubjectExactly | internal/application/reconcile/controller.go:80-113 | the subject is the resolved workload the binding is named after, else the binding; the digest is the resolver's, else that of the URI |
| Reconcile.ContractIsStrict | internal/application/reconcile/controller.go:122-160 | built contracts answer missing evidence with UNKNOWN or FAILED only and bound every age |
| Reconcile.ContractEvaluator.Evaluate | internal/application/reconcile/controller.go:378-430 | judges the fixed source or else a listing of the subject; answers for the claim's subject and control, epoch and time, for five minutes |
| Reconcile.EvaluationExactly | internal/application/reconcile/controller.go:378-430 | an evaluation cites artifacts of envelopes that each meet a requirement, and its root is that of what they cite |
| Reconcile.CitationsExactly | internal/application/reconcile/controller.go:394-410 | what is cited for an envelope is its artifact's digest, or that of its ID if it has none |
| Reconcile.EvaluationRootCommits | internal/application/reconcile/controller.go:394-410 | two lists of evidence give one root exactly if they cite the same digests equally often |
| Reconcile.EachControlEvaluated | internal/application/reconcile/controller.go:180-196 | the i-th evaluation is about the i-th control, the binding's subject and epoch, at the i-th time |
| Reconcile.FoldState | internal/application/reconcile/controller.go:204-215 | one step of the fold keeps it the worst verdict so far |
| Reconcile.OutcomeAssured | internal/application/reconcile/controller.go:180-217 | for any evaluator the outcome is FAILED, UNKNOWN, STALE or ASSURED exactly by the worst verdict in that order, an error counting as FAILED |
| Reconcile.OutcomeOrderFree | internal/application/reconcile/controller.go:180-326 | the order of the evaluations decides neither the target nor which receipts are attempted |
| Reconcile.EvaluateControls | internal/application/reconcile/controller.go:180-217 | one evaluation per control, an error fails the binding and stops, the outcome is the worst verdict |
| Reconcile.GateReceipts | internal/application/reconcile/controller.go:306-326 | receipts are attempted only for an ASSURED binding, for the verified or assured evaluations |
| Reconcile.Reconcile | internal/application/reconcile/controller.go:71-326 | without evaluator or controls UNKNOWN; otherwise the outcome concludes the evaluations of the controls; no receipt is attempted when the status update fails |
| Reconcile.AssuredIsProven | internal/application/reconcile/controller.go:113-217 | an ASSURED outcome is proven, per control and required requirement of the fetched contract, by an envelope related to the subject, of the type, from a producer on the requirement's list, within its freshness, under the subject's digest |
| Reconcile.AssuredOnSource | internal/application/reconcile/controller.go:378-386 | with a fixed evidence source the proof is in the source |
| Reconcile.ReconcileStored | internal/application/reconcile/controller.go:71-326 | reconciling against a repository: ASSURED means there are controls and for each every demand of the fetched contract is proven by what the repository holds, and receipts are attempted for each or for none |
| Reconcile.ReceiptsOncePerControl | internal/application/reconcile/controller.go:247-326 | signing is attempted only when the binding is ASSURED, there is a signer and the status update succeeds, and then once per control, attesting that control's evaluation |
| Reconcile.ReceiptsAttest | internal/application/reconcile/controller.go:306-326 | with any evaluator the receipts attempted attest exactly the assured or verified evaluations of an ASSURED whole |
| Oscal.ProjectAssessmentResults | internal/projection/oscal/projector.go:343-426 | observations, links, resources and findings correspond to evaluations, evidence, digests and findings, and no two of them share a UUID |
| Oscal.RelatedObservations | internal/projection/oscal/projector.go:393-401 | the observations naming the control, else the first one |
| Oscal.EvidenceLinksResolve | internal/projection/oscal/projector.go:364-386 | every evidence link resolves to exactly one resource, which carries that digest |
| Oscal.ResourcesMatchDigests | internal/projection/oscal/projector.go:364-380 | resources correspond one to one with the cited digests and describe cited evidence |
| Oscal.FindingLinksExist | internal/projection/oscal/projector.go:391-416 | findings link only to existing observations, and to at least one if there are any |
| Oscal.FindingLinksExactly | internal/projection/oscal/projector.go:350-416 | a finding targets its control and links to exactly the observations whose title mentions it, else to the first |
| Oscal.LongerIdsMention | internal/projection/oscal/projector.go:393-398 | an observation of a control whose ID continues another's is linked from findings about the other |
| Oscal.FindingLinksResolve | internal/projection/oscal/projector.go:350-416 | the UUID a finding links to is carried by exactly one observation and by nothing else |
| Oscal.OwnObservationsFound | internal/projection/oscal/projector.go:350-395 | an observation made for a control is found by findings about that control |
| EndToEnd.AssuredRestsOnHistory | internal/application/reconcile/controller.go:180-217 | an ASSURED binding is proven, control by control, by envelopes that were put into the store and not pruned before that control was judged |
| EndToEnd.TransferKeepsVerdict | internal/adapters/airgap/bundle.go:149-158 | a contract grades the importing store's listing no lower than the exported envelopes |

## Left out

- Integer width: Go's 64-bit turn counter, and the saturation of time differences beyond 292 years, are unbounded integers here.
- Text beyond ASCII: case folding and lower-casing are those of ASCII.
- Wording of reasons and errors: receipts carry a structured reason; the text is not hashed.
- NewCapabilityLease, Prune and the evaluators read the clock; here the time is a parameter.
- RegisterLease: does not model a caller that keeps the lease pointer and changes the lease behind the broker's back.
- The mutexes themselves: each method that holds one is a single step.
- File-system mode of the store (`loadFromDisk`, files written and removed), which keys envelopes differently from Put.
- TransferAccepted: JSON is modelled only where it can alter data, in payload bytes; the other fields are taken to be valid UTF-8 with times JSON can express.
- TransferKeepsVerdict: asks that no other matching envelope in the importing store carries the ID of an exported one, because a listing shows one envelope per ID.
- SignerBindsReceipts: takes as given that a signature does not pass for two messages and that only 64 bytes in hex verify; Ed25519 itself is not modelled.
- AcceptedIsGenuine: asks that the genuine bundle holds no separator in its text (and no `|` in IDs of its records); what goes wrong otherwise is shown for metadata and entries, not for digests of single records.
- AssuredRestsOnHistory: takes the store each control was judged on as given. `ContractEvaluator.Evaluate` judges the store of that moment, so any interleaving of evaluations with puts and prunes is covered; the method `Reconcile` itself runs uninterrupted, on one store.
- ClaimEvaluation: its free-text trace is not modelled; no digest covers it.
- AssuredIsProven: is about evaluators that read the store; for a fixed evidence source see `AssuredOnSource`.
- Order of verified evidence: it follows the order of the envelopes, and with it the evaluation's evidence list; no claim is made about it beyond its members.
- Ed25519 signing and verification, and defaults filled in before signing: verification is an unknown predicate on receipts.
- Status conditions, AssuranceState updates and telemetry in Reconcile: bookkeeping after the verdict, of which only the failure of the status update has an effect here.
- AssuranceVector, exceptions (`IsValidAt`, `AppliesTo`) and RenderText: finite case analyses or formatting.
- Descriptions and properties of projected OSCAL elements, and the other four OSCAL documents: straight-line construction.
- Command line, gRPC, MCP, webhook, Kubernetes clients and observers: transport and plain data.
