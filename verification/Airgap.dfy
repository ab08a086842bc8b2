/** Air-gap bundles: the manifest digest, export from one store and import into another. */
module Airgap {
  import opened Text
  import opened Seqs
  import opened Digests
  import opened Records
  import opened Lifecycle
  import opened Receipts
  import opened Store

  datatype BundleMetadata = BundleMetadata(
    bundleId: string,
    exportedAt: int,
    subjectUri: string,
    epochComposite: string,
    generator: string)

  datatype AirgapBundle = AirgapBundle(
    metadata: BundleMetadata,
    evaluations: seq<ClaimEvaluation>,
    receipts: seq<ControlReceipt>,
    envelopes: seq<EvidenceEnvelope>,
    blobs: map<string, string>,
    manifestDigest: string)

  // ----- The manifest -----

  function EvaluationTag(sha: Sha): ClaimEvaluation -> string {
    (e: ClaimEvaluation) => "eval:" + e.Digest(sha)
  }

  function EnvelopeTag(sha: Sha): EvidenceEnvelope -> string {
    (e: EvidenceEnvelope) => "env:" + e.Digest(sha)
  }

  function ReceiptTag(): ControlReceipt -> string {
    (r: ControlReceipt) => "receipt:" + r.evidenceRoot + ":" + r.signature
  }

  function BlobEntry(sha: Sha, d: string, content: string): string {
    "blob:" + d + ":" + sha(content)
  }

  function BlobTag(sha: Sha, blobs: map<string, string>): string -> string {
    (d: string) => BlobEntry(sha, d, if d in blobs then blobs[d] else "")
  }

  /** The tagged entries of a bundle, one per evaluation, envelope, receipt and blob. */
  ghost function Entries(sha: Sha, b: AirgapBundle): seq<string> {
    Map(EvaluationTag(sha), b.evaluations) + Map(EnvelopeTag(sha), b.envelopes) + Map(ReceiptTag(), b.receipts) +
    Map(BlobTag(sha, b.blobs), SortedKeys(b.blobs.Keys))
  }

  function ManifestFields(m: BundleMetadata, entries: string): seq<string> {
    [m.bundleId, m.subjectUri, m.epochComposite, m.generator, Dec(m.exportedAt), entries]
  }

  ghost function EntryText(sha: Sha, b: AirgapBundle): string {
    Join(Sort(Entries(sha, b)), '\n')
  }

  ghost function ManifestText(sha: Sha, b: AirgapBundle): string {
    Join(ManifestFields(b.metadata, EntryText(sha, b)), '|')
  }

  ghost function Manifest(sha: Sha, b: AirgapBundle): string {
    ComputeDigest(sha, ManifestText(sha, b))
  }

  /** Collects the entries in whatever order the blob map is ranged over, sorts and hashes them. */
  method ComputeManifestDigest(sha: Sha, b: AirgapBundle) returns (digest: string)
    ensures digest == Manifest(sha, b)
  {
    var digests: seq<string> := [];
    digests := AppendTagged(digests, EvaluationTag(sha), b.evaluations);
    digests := AppendTagged(digests, EnvelopeTag(sha), b.envelopes);
    digests := AppendTagged(digests, ReceiptTag(), b.receipts);
    var keys := Enumerate(b.blobs.Keys);
    digests := AppendTagged(digests, BlobTag(sha, b.blobs), keys);
    EntriesInAnyOrder(sha, b, keys);
    SortCanonical(digests, Entries(sha, b));
    digests := Sort(digests);
    digest := ComputeDigest(sha, Join(ManifestFields(b.metadata, Join(digests, '\n')), '|'));
  }

  /** One of the loops that append a tagged entry per item. */
  method AppendTagged<T>(digests: seq<string>, tag: T -> string, items: seq<T>) returns (longer: seq<string>)
    ensures longer == digests + Map(tag, items)
  {
    longer := digests;
    for i := 0 to |items|
      invariant longer == digests + Map(tag, items)[..i]
    {
      longer := longer + [tag(items[i])];
    }
    assert Map(tag, items)[..|items|] == Map(tag, items);
  }

  lemma EntriesInAnyOrder(sha: Sha, b: AirgapBundle, keys: seq<string>)
    requires multiset(keys) == multiset(b.blobs.Keys)
    ensures multiset([] + Map(EvaluationTag(sha), b.evaluations) + Map(EnvelopeTag(sha), b.envelopes) +
                     Map(ReceiptTag(), b.receipts) + Map(BlobTag(sha, b.blobs), keys)) == multiset(Entries(sha, b))
  {
    MapPermuted(BlobTag(sha, b.blobs), keys, SortedKeys(b.blobs.Keys));
    LastPermuted(Map(EvaluationTag(sha), b.evaluations), Map(EnvelopeTag(sha), b.envelopes), Map(ReceiptTag(), b.receipts),
                 Map(BlobTag(sha, b.blobs), keys), Map(BlobTag(sha, b.blobs), SortedKeys(b.blobs.Keys)));
  }

  lemma LastPermuted<T>(p: seq<T>, q: seq<T>, r: seq<T>, s: seq<T>, t: seq<T>)
    requires multiset(s) == multiset(t)
    ensures multiset([] + p + q + r + s) == multiset(p + q + r + t)
  {
    assert [] + p == p;
  }

  /** The manifest does not see the order of evaluations, envelopes or receipts. */
  lemma ManifestOrderFree(sha: Sha, a: AirgapBundle, b: AirgapBundle)
    requires a.metadata == b.metadata && a.blobs == b.blobs
    requires multiset(a.evaluations) == multiset(b.evaluations) && multiset(a.envelopes) == multiset(b.envelopes)
    requires multiset(a.receipts) == multiset(b.receipts)
    ensures ManifestText(sha, a) == ManifestText(sha, b)
  {
    MapPermuted(EvaluationTag(sha), a.evaluations, b.evaluations);
    MapPermuted(EnvelopeTag(sha), a.envelopes, b.envelopes);
    MapPermuted(ReceiptTag(), a.receipts, b.receipts);
    SortCanonical(Entries(sha, a), Entries(sha, b));
  }

  // ----- Separators in the text -----

  predicate CleanMetadata(m: BundleMetadata) {
    '|' !in m.bundleId && '|' !in m.subjectUri && '|' !in m.epochComposite && '|' !in m.generator
  }

  /** The free text inside entries holds no c; the digests in them hold no separator anyway. */
  ghost predicate EntriesFree(b: AirgapBundle, c: char) {
    && (forall r :: r in b.receipts ==> c !in r.evidenceRoot && c !in r.signature)
    && (forall d :: d in b.blobs ==> c !in d)
  }

  predicate Separator(c: char) {
    c == '\n' || c == '|'
  }

  lemma FreeMap<T>(tag: T -> string, items: seq<T>, c: char)
    requires forall x :: x in items ==> c !in tag(x)
    ensures forall y :: y in Map(tag, items) ==> c !in y
  {
  }

  lemma DigestTagsFree(sha: Sha, e: ClaimEvaluation, f: EvidenceEnvelope, c: char)
    requires HexOutput(sha) && Separator(c)
    ensures c !in EvaluationTag(sha)(e) && c !in EnvelopeTag(sha)(f)
  {
    DigestClean(sha, Join(e.Fields(sha), '|'));
    DigestClean(sha, Join(f.Fields(sha), '|'));
  }

  lemma BlobTagsFree(sha: Sha, blobs: map<string, string>, c: char)
    requires HexOutput(sha) && Separator(c) && forall d :: d in blobs ==> c !in d
    ensures forall d :: d in SortedKeys(blobs.Keys) ==> c !in BlobTag(sha, blobs)(d)
  {
    InAnyOrder(SortedKeys(blobs.Keys), blobs.Keys);
    forall d | d in SortedKeys(blobs.Keys) ensures c !in BlobTag(sha, blobs)(d) {
      BlobEntryFree(sha, d, blobs[d], c);
    }
  }

  lemma BlobEntryFree(sha: Sha, d: string, content: string, c: char)
    requires HexOutput(sha) && Separator(c) && c !in d
    ensures c !in BlobEntry(sha, d, content)
  {
    assert IsHex64(sha(content));
  }

  lemma TagsFree(sha: Sha, b: AirgapBundle, c: char)
    requires HexOutput(sha) && Separator(c) && EntriesFree(b, c)
    ensures forall x :: x in Entries(sha, b) ==> c !in x
  {
    forall e, f ensures c !in EvaluationTag(sha)(e) && c !in EnvelopeTag(sha)(f) {
      DigestTagsFree(sha, e, f, c);
    }
    FreeMap(EvaluationTag(sha), b.evaluations, c);
    FreeMap(EnvelopeTag(sha), b.envelopes, c);
    FreeMap(ReceiptTag(), b.receipts, c);
    BlobTagsFree(sha, b.blobs, c);
    FreeMap(BlobTag(sha, b.blobs), SortedKeys(b.blobs.Keys), c);
  }

  lemma EntryTextFree(sha: Sha, b: AirgapBundle)
    requires HexOutput(sha) && EntriesFree(b, '|')
    ensures '|' !in EntryText(sha, b)
  {
    TagsFree(sha, b, '|');
    SortKeeps(Entries(sha, b));
    JoinFree(Sort(Entries(sha, b)), '\n', '|');
  }

  lemma NoEmptyEntry(sha: Sha, b: AirgapBundle)
    ensures forall x :: x in Entries(sha, b) ==> x != ""
  {
    TagsLed(sha, b);
  }

  /** How many entries a bundle has: one per record and payload. */
  function EntryCount(b: AirgapBundle): nat {
    |b.evaluations| + |b.envelopes| + |b.receipts| + |b.blobs|
  }

  lemma EntriesCounted(sha: Sha, b: AirgapBundle)
    ensures |Entries(sha, b)| == EntryCount(b)
  {
  }

  /** A bundle without separators in its metadata and in the free text of its entries. */
  ghost predicate CleanText(b: AirgapBundle) {
    CleanMetadata(b.metadata) && EntriesFree(b, '\n') && EntriesFree(b, '|')
  }

  /** Manifest binding against a bundle g without separators, whatever the text of b: they share a
      manifest exactly if they share their metadata and the joined text of their entries. Then b has
      at most as many entries, and as many exactly if no line break hides in them and the entries
      are those of g. */
  lemma ManifestBinds(sha: Sha, b: AirgapBundle, g: AirgapBundle)
    requires HexOutput(sha) && CleanText(g) && CollisionFree(sha, {ManifestText(sha, b), ManifestText(sha, g)})
    ensures Manifest(sha, b) == Manifest(sha, g) <==> b.metadata == g.metadata && EntryText(sha, b) == EntryText(sha, g)
    ensures Manifest(sha, b) == Manifest(sha, g) ==>
              && EntryCount(b) <= EntryCount(g)
              && (EntryCount(b) == EntryCount(g) <==> forall x :: x in Entries(sha, b) ==> '\n' !in x)
    ensures Manifest(sha, b) == Manifest(sha, g) && EntryCount(b) == EntryCount(g) <==>
            b.metadata == g.metadata && multiset(Entries(sha, b)) == multiset(Entries(sha, g))
  {
    var p, q := Entries(sha, b), Entries(sha, g);
    EntriesCounted(sha, b);
    EntriesCounted(sha, g);
    SortCanonical(p, q);
    if multiset(p) == multiset(q) {
      SameLength(p, q);
    }
    if Manifest(sha, b) == Manifest(sha, g) {
      DigestInjective(sha, {ManifestText(sha, b), ManifestText(sha, g)}, ManifestText(sha, b), ManifestText(sha, g));
      EntryTextFree(sha, g);
      MetadataBinds(g.metadata, EntryText(sha, g), b.metadata, EntryText(sha, b));
      TagsFree(sha, g, '\n');
      NoEmptyEntry(sha, b);
      NoEmptyEntry(sha, g);
      LinesCounted(p, q, '\n');
    }
  }

  /** Clean metadata and entries are told apart from the metadata and entries of any other bundle. */
  lemma MetadataBinds(m: BundleMetadata, p: string, n: BundleMetadata, q: string)
    requires CleanMetadata(m) && '|' !in p
    requires Join(ManifestFields(m, p), '|') == Join(ManifestFields(n, q), '|')
    ensures m == n && p == q
  {
    var f, g := ManifestFields(m, p), ManifestFields(n, q);
    DecClean(m.exportedAt);
    FieldsBind(f, g, '|');
    assert f[0] == g[0] && f[1] == g[1] && f[2] == g[2] && f[3] == g[3] && f[4] == g[4] && f[5] == g[5];
    DecInjective(m.exportedAt, n.exportedAt);
  }

  predicate Led(s: seq<string>, c0: char, c1: char) {
    forall i :: 0 <= i < |s| ==> |s[i]| >= 2 && s[i][0] == c0 && s[i][1] == c1
  }

  lemma SplitByLead(p1: seq<string>, p2: seq<string>, p3: seq<string>, p4: seq<string>,
                    q1: seq<string>, q2: seq<string>, q3: seq<string>, q4: seq<string>)
    requires Led(p1, 'e', 'v') && Led(p2, 'e', 'n') && Led(p3, 'r', 'e') && Led(p4, 'b', 'l')
    requires Led(q1, 'e', 'v') && Led(q2, 'e', 'n') && Led(q3, 'r', 'e') && Led(q4, 'b', 'l')
    requires multiset(p1 + p2 + p3 + p4) == multiset(q1 + q2 + q3 + q4)
    ensures multiset(p1) == multiset(q1) && multiset(p2) == multiset(q2)
    ensures multiset(p3) == multiset(q3) && multiset(p4) == multiset(q4)
  {
    forall x: string
      ensures multiset(p1)[x] == multiset(q1)[x] && multiset(p2)[x] == multiset(q2)[x]
      ensures multiset(p3)[x] == multiset(q3)[x] && multiset(p4)[x] == multiset(q4)[x]
    {
      assert multiset(p1 + p2 + p3 + p4)[x] == multiset(p1)[x] + multiset(p2)[x] + multiset(p3)[x] + multiset(p4)[x];
      assert multiset(q1 + q2 + q3 + q4)[x] == multiset(q1)[x] + multiset(q2)[x] + multiset(q3)[x] + multiset(q4)[x];
      OnlyOneLead(x, p1, p2, p3, p4);
      OnlyOneLead(x, q1, q2, q3, q4);
    }
  }

  lemma OnlyOneLead(x: string, p1: seq<string>, p2: seq<string>, p3: seq<string>, p4: seq<string>)
    requires Led(p1, 'e', 'v') && Led(p2, 'e', 'n') && Led(p3, 'r', 'e') && Led(p4, 'b', 'l')
    ensures multiset(p1)[x] > 0 ==> |x| >= 2 && x[0] == 'e' && x[1] == 'v'
    ensures multiset(p2)[x] > 0 ==> |x| >= 2 && x[0] == 'e' && x[1] == 'n'
    ensures multiset(p3)[x] > 0 ==> |x| >= 2 && x[0] == 'r'
    ensures multiset(p4)[x] > 0 ==> |x| >= 2 && x[0] == 'b'
  {
    assert multiset(p1)[x] > 0 ==> x in p1;
    assert multiset(p2)[x] > 0 ==> x in p2;
    assert multiset(p3)[x] > 0 ==> x in p3;
    assert multiset(p4)[x] > 0 ==> x in p4;
  }

  lemma LedMap<T>(tag: T -> string, items: seq<T>, c0: char, c1: char)
    requires forall x :: x in items ==> |tag(x)| >= 2 && tag(x)[0] == c0 && tag(x)[1] == c1
    ensures Led(Map(tag, items), c0, c1)
  {
    forall i | 0 <= i < |items| ensures |Map(tag, items)[i]| >= 2 && Map(tag, items)[i][0] == c0 && Map(tag, items)[i][1] == c1 {
      assert items[i] in items;
    }
  }

  lemma TagsLed(sha: Sha, b: AirgapBundle)
    ensures Led(Map(EvaluationTag(sha), b.evaluations), 'e', 'v') && Led(Map(EnvelopeTag(sha), b.envelopes), 'e', 'n')
    ensures Led(Map(ReceiptTag(), b.receipts), 'r', 'e')
    ensures Led(Map(BlobTag(sha, b.blobs), SortedKeys(b.blobs.Keys)), 'b', 'l')
  {
    RecordTagsLed(sha, b);
    LedMap(BlobTag(sha, b.blobs), SortedKeys(b.blobs.Keys), 'b', 'l');
  }

  lemma RecordTagsLed(sha: Sha, b: AirgapBundle)
    ensures Led(Map(EvaluationTag(sha), b.evaluations), 'e', 'v') && Led(Map(EnvelopeTag(sha), b.envelopes), 'e', 'n')
    ensures Led(Map(ReceiptTag(), b.receipts), 'r', 'e')
  {
    LedMap(EvaluationTag(sha), b.evaluations, 'e', 'v');
    LedMap(EnvelopeTag(sha), b.envelopes, 'e', 'n');
    LedMap(ReceiptTag(), b.receipts, 'r', 'e');
  }

  /** The same evaluations, envelopes and receipts up to order and digest. */
  ghost predicate SameTags(sha: Sha, a: AirgapBundle, b: AirgapBundle) {
    && multiset(Map(EvaluationTag(sha), a.evaluations)) == multiset(Map(EvaluationTag(sha), b.evaluations))
    && multiset(Map(EnvelopeTag(sha), a.envelopes)) == multiset(Map(EnvelopeTag(sha), b.envelopes))
    && multiset(Map(ReceiptTag(), a.receipts)) == multiset(Map(ReceiptTag(), b.receipts))
  }

  ghost function BlobTags(sha: Sha, blobs: map<string, string>): multiset<string> {
    multiset(Map(BlobTag(sha, blobs), SortedKeys(blobs.Keys)))
  }

  /** Multisets of entries fall apart by tag. */
  lemma EntriesByTag(sha: Sha, a: AirgapBundle, b: AirgapBundle)
    requires multiset(Entries(sha, a)) == multiset(Entries(sha, b))
    ensures SameTags(sha, a, b) && BlobTags(sha, a.blobs) == BlobTags(sha, b.blobs)
  {
    TagsLed(sha, a);
    TagsLed(sha, b);
    SplitByLead(
      Map(EvaluationTag(sha), a.evaluations), Map(EnvelopeTag(sha), a.envelopes), Map(ReceiptTag(), a.receipts),
      Map(BlobTag(sha, a.blobs), SortedKeys(a.blobs.Keys)),
      Map(EvaluationTag(sha), b.evaluations), Map(EnvelopeTag(sha), b.envelopes), Map(ReceiptTag(), b.receipts),
      Map(BlobTag(sha, b.blobs), SortedKeys(b.blobs.Keys)));
  }

  ghost function Contents(blobs: map<string, string>): set<string> {
    set d | d in blobs :: blobs[d]
  }

  /** The blob entries determine the blobs: the hash at the end has fixed width. */
  lemma BlobTagsBind(sha: Sha, p: map<string, string>, q: map<string, string>, texts: set<string>)
    requires HexOutput(sha) && CollisionFree(sha, texts) && Contents(p) <= texts && Contents(q) <= texts
    requires BlobTags(sha, p) == BlobTags(sha, q)
    ensures p == q
  {
    BlobsWithin(sha, p, q, texts);
    BlobsWithin(sha, q, p, texts);
  }

  lemma BlobsWithin(sha: Sha, p: map<string, string>, q: map<string, string>, texts: set<string>)
    requires HexOutput(sha) && CollisionFree(sha, texts) && Contents(p) <= texts && Contents(q) <= texts
    requires BlobTags(sha, p) == BlobTags(sha, q)
    ensures forall d :: d in p ==> d in q && q[d] == p[d]
  {
    forall d | d in p ensures d in q && q[d] == p[d] {
      BlobTagIn(sha, p, q, d, texts);
    }
  }

  lemma BlobTagIn(sha: Sha, p: map<string, string>, q: map<string, string>, d: string, texts: set<string>)
    requires HexOutput(sha) && CollisionFree(sha, texts) && Contents(p) <= texts && Contents(q) <= texts
    requires d in p && BlobTags(sha, p) == BlobTags(sha, q)
    ensures d in q && q[d] == p[d]
  {
    TaggedBlob(sha, p, d);
    var k := BlobOfTag(sha, q, BlobTag(sha, p)(d));
    TagShape(sha, d, p[d], k, q[k]);
    assert p[d] in Contents(p) && q[k] in Contents(q);
  }

  lemma TaggedBlob(sha: Sha, p: map<string, string>, d: string)
    requires d in p
    ensures BlobTag(sha, p)(d) in BlobTags(sha, p)
  {
    InAnyOrder(SortedKeys(p.Keys), p.Keys);
    MapMembers(BlobTag(sha, p), SortedKeys(p.Keys), BlobTag(sha, p)(d));
  }

  lemma BlobOfTag(sha: Sha, q: map<string, string>, tag: string) returns (k: string)
    requires tag in BlobTags(sha, q)
    ensures k in q && BlobTag(sha, q)(k) == tag
  {
    InAnyOrder(SortedKeys(q.Keys), q.Keys);
    MapMembers(BlobTag(sha, q), SortedKeys(q.Keys), tag);
    k :| k in SortedKeys(q.Keys) && BlobTag(sha, q)(k) == tag;
  }

  lemma TagShape(sha: Sha, d: string, x: string, k: string, y: string)
    requires HexOutput(sha) && "blob:" + d + ":" + sha(x) == "blob:" + k + ":" + sha(y)
    ensures d == k && sha(x) == sha(y)
  {
    var s, t := "blob:" + d + ":" + sha(x), "blob:" + k + ":" + sha(y);
    assert IsHex64(sha(x)) && IsHex64(sha(y));
    assert |d| == |k|;
    assert d == s[5..5 + |d|] == t[5..5 + |d|] == k;
    assert sha(x) == s[6 + |d|..] == t[6 + |d|..] == sha(y);
  }

  // ----- Export -----

  function Generator(): string {
    "oskal-airgap-packager:v0.2.0"
  }

  /** The payloads an export finds: those of cited artifacts that the store holds. */
  ghost function BundledBlobs(envelopes: seq<EvidenceEnvelope>, source: map<string, string>): map<string, string> {
    map d | d in source && d != "" && (exists e :: e in envelopes && e.artifact.digest == d) :: source[d]
  }

  function ExportMetadata(sha: Sha, subject: SubjectRef, evaluations: seq<ClaimEvaluation>, now: int): BundleMetadata {
    BundleMetadata("bundle-" + Dec(now), now, subject.URI(),
                   if evaluations == [] then "" else evaluations[0].epoch.CompositeDigest(sha), Generator())
  }

  ghost function Exported(sha: Sha, subject: SubjectRef, evaluations: seq<ClaimEvaluation>,
                          receipts: seq<ControlReceipt>,
                          envelopes: seq<EvidenceEnvelope>, source: map<string, string>, now: int): AirgapBundle
  {
    var b := AirgapBundle(ExportMetadata(sha, subject, evaluations, now), evaluations, receipts, envelopes,
                          BundledBlobs(envelopes, source), "");
    b.(manifestDigest := Manifest(sha, b))
  }

  /** The bundle carries these records, with metadata about the subject, the epoch of the first
      evaluation and the time. */
  predicate Carries(sha: Sha, b: AirgapBundle, subject: SubjectRef, evaluations: seq<ClaimEvaluation>,
                    receipts: seq<ControlReceipt>, envelopes: seq<EvidenceEnvelope>, now: int)
  {
    && b.evaluations == evaluations && b.receipts == receipts && b.envelopes == envelopes
    && b.metadata.subjectUri == subject.URI() && b.metadata.exportedAt == now && b.metadata.bundleId == "bundle-" + Dec(now)
    && (evaluations == [] ==> b.metadata.epochComposite == "")
    && (evaluations != [] ==> b.metadata.epochComposite == "sha256:" + sha(EpochText(evaluations[0].epoch)))
  }

  /** It holds exactly the payloads of cited artifacts that the source holds. */
  ghost predicate HoldsCited(b: AirgapBundle, source: map<string, string>) {
    && (forall d :: d in b.blobs ==> d in source && b.blobs[d] == source[d])
    && (forall d :: d in b.blobs <==> d in source && d != "" && exists e :: e in b.envelopes && e.artifact.digest == d)
  }

  lemma ExportCarries(sha: Sha, subject: SubjectRef, evaluations: seq<ClaimEvaluation>, receipts: seq<ControlReceipt>,
                      envelopes: seq<EvidenceEnvelope>, source: map<string, string>, now: int)
    ensures var b := Exported(sha, subject, evaluations, receipts, envelopes, source, now);
            Carries(sha, b, subject, evaluations, receipts, envelopes, now) && HoldsCited(b, source)
  {
  }

  method ExportBundle(sha: Sha, subject: SubjectRef, evaluations: seq<ClaimEvaluation>, receipts: seq<ControlReceipt>,
                      envelopes: seq<EvidenceEnvelope>, repo: EvidenceRepository?, now: int)
    returns (bundle: AirgapBundle)
    ensures bundle == Exported(sha, subject, evaluations, receipts, envelopes, if repo == null then map[] else repo.blobs, now)
    ensures Carries(sha, bundle, subject, evaluations, receipts, envelopes, now)
    ensures HoldsCited(bundle, if repo == null then map[] else repo.blobs) && bundle.manifestDigest == Manifest(sha, bundle)
  {
    var composite := "";
    if |evaluations| > 0 {
      composite := evaluations[0].epoch.CompositeDigest(sha);
    }
    bundle := AirgapBundle(BundleMetadata("bundle-" + Dec(now), now, subject.URI(), composite, Generator()),
                           evaluations, receipts, envelopes, map[], "");
    ghost var source: map<string, string> := if repo == null then map[] else repo.blobs;
    for i := 0 to |envelopes|
      invariant bundle == bundle.(blobs := BundledBlobs(envelopes[..i], source))
      invariant bundle.metadata == BundleMetadata("bundle-" + Dec(now), now, subject.URI(), composite, Generator())
      invariant bundle.evaluations == evaluations && bundle.receipts == receipts && bundle.envelopes == envelopes
      invariant bundle.manifestDigest == ""
    {
      var env := envelopes[i];
      BundleOneMore(envelopes, i, source);
      if repo != null && env.artifact.digest != "" {
        var data := repo.Get(env.artifact);
        if data.Some? {
          bundle := bundle.(blobs := bundle.blobs[env.artifact.digest := data.value]);
        }
      }
    }
    assert envelopes[..|envelopes|] == envelopes;
    var manifest := ComputeManifestDigest(sha, bundle);
    ManifestIgnoresItself(sha, bundle, manifest);
    ExportCarries(sha, subject, evaluations, receipts, envelopes, source, now);
    bundle := bundle.(manifestDigest := manifest);
  }

  lemma BundleOneMore(envelopes: seq<EvidenceEnvelope>, i: nat, source: map<string, string>)
    requires i < |envelopes|
    ensures var d, before := envelopes[i].artifact.digest, BundledBlobs(envelopes[..i], source);
            BundledBlobs(envelopes[..i + 1], source) == if d in source && d != "" then before[d := source[d]] else before
  {
    assert forall e :: e in envelopes[..i + 1] <==> e in envelopes[..i] || e == envelopes[i];
  }

  // ----- Import -----

  function BlobFor(blobs: map<string, string>, e: EvidenceEnvelope): string {
    if e.artifact.digest in blobs then blobs[e.artifact.digest] else ""
  }

  function PutAll(c: Codec, s: StoreState, envelopes: seq<EvidenceEnvelope>, blobs: map<string, string>): StoreState {
    if envelopes == [] then s
    else
      var e := envelopes[|envelopes| - 1];
      Stored(c, PutAll(c, s, envelopes[..|envelopes| - 1], blobs), e, Some(BlobFor(blobs, e)))
  }

  datatype ImportOutcome =
    | Imported(bundle: AirgapBundle)
    | InvalidJson
    | ManifestMismatch(got: string, expected: string)
    | InvalidReceipt(at: nat)

  predicate ReceiptsVerify(receipts: seq<ControlReceipt>, verify: Option<ControlReceipt -> bool>) {
    verify.Some? ==> forall r :: r in receipts ==> verify.value(r)
  }

  /** Import accepts a bundle that parses, carries its own manifest and holds only receipts that verify. */
  ghost predicate ImportAccepts(sha: Sha, parsed: Option<AirgapBundle>, verify: Option<ControlReceipt -> bool>) {
    && parsed.Some?
    && parsed.value.manifestDigest == Manifest(sha, parsed.value)
    && ReceiptsVerify(parsed.value.receipts, verify)
  }

  /** None as parsed is JSON that does not parse, None as verify a missing signer. A refused bundle
      leaves the target store alone. */
  method ImportBundle(c: Codec, parsed: Option<AirgapBundle>, target: EvidenceRepository?,
                      verify: Option<ControlReceipt -> bool>)
    returns (outcome: ImportOutcome)
    requires target != null ==> target.codec == c
    modifies if target == null then {} else {target}
    ensures outcome.Imported? <==> ImportAccepts(c.sha, parsed, verify)
    ensures outcome.InvalidJson? <==> parsed.None?
    ensures outcome.ManifestMismatch? <==> parsed.Some? && parsed.value.manifestDigest != Manifest(c.sha, parsed.value)
    ensures outcome.InvalidReceipt? ==>
              && parsed.Some? && verify.Some? && outcome.at < |parsed.value.receipts|
              && !verify.value(parsed.value.receipts[outcome.at])
              && forall i :: 0 <= i < outcome.at ==> verify.value(parsed.value.receipts[i])
    ensures outcome.Imported? ==> outcome.bundle == parsed.value
    ensures target != null && !outcome.Imported? ==> target.State() == old(target.State())
    ensures target != null && outcome.Imported? ==>
              target.State() == PutAll(c, old(target.State()), parsed.value.envelopes, parsed.value.blobs)
  {
    if parsed.None? {
      return InvalidJson;
    }
    var bundle := parsed.value;
    var expectedManifest := ComputeManifestDigest(c.sha, bundle);
    if bundle.manifestDigest != expectedManifest {
      return ManifestMismatch(bundle.manifestDigest, expectedManifest);
    }
    if verify.Some? {
      var bad := FirstInvalid(bundle.receipts, verify.value);
      if bad.Some? {
        return InvalidReceipt(bad.value);
      }
    }
    if target != null {
      LoadEnvelopes(c, target, bundle.envelopes, bundle.blobs);
    }
    outcome := Imported(bundle);
  }

  method FirstInvalid(receipts: seq<ControlReceipt>, verify: ControlReceipt -> bool) returns (at: Option<nat>)
    ensures at.None? ==> forall r :: r in receipts ==> verify(r)
    ensures at.Some? ==> at.value < |receipts| && !verify(receipts[at.value]) && receipts[at.value] in receipts
    ensures at.Some? ==> forall i :: 0 <= i < at.value ==> verify(receipts[i])
  {
    for i := 0 to |receipts|
      invariant forall j :: 0 <= j < i ==> verify(receipts[j])
    {
      if !verify(receipts[i]) {
        return Some(i);
      }
    }
    at := None;
  }

  method LoadEnvelopes(c: Codec, target: EvidenceRepository, envelopes: seq<EvidenceEnvelope>,
                       blobs: map<string, string>)
    requires target.codec == c
    modifies target
    ensures target.State() == PutAll(c, old(target.State()), envelopes, blobs)
  {
    for i := 0 to |envelopes|
      invariant target.State() == PutAll(c, old(target.State()), envelopes[..i], blobs)
    {
      assert envelopes[..i + 1][..i] == envelopes[..i];
      var blobContent := BlobFor(blobs, envelopes[i]);
      var _ := target.Put(envelopes[i], Some(blobContent));
    }
    assert envelopes[..|envelopes|] == envelopes;
  }

  // ----- What a manifest binds -----

  /** The same bundle as far as a manifest can tell: metadata, blobs, and up to order the hashed
      fields of evaluations and envelopes and, of receipts, root and signature in one text. */
  ghost predicate SameBound(a: AirgapBundle, b: AirgapBundle) {
    && a.metadata == b.metadata && a.blobs == b.blobs
    && multiset(Map(HashedOf(), a.evaluations)) == multiset(Map(HashedOf(), b.evaluations))
    && multiset(Map(EnvelopeOf(), a.envelopes)) == multiset(Map(EnvelopeOf(), b.envelopes))
    && multiset(Map(ReceiptTag(), a.receipts)) == multiset(Map(ReceiptTag(), b.receipts))
  }

  /** Whatever two bundles hold otherwise, their manifest is the same if they agree on that. */
  lemma BoundDecidesManifest(sha: Sha, a: AirgapBundle, b: AirgapBundle)
    requires SameBound(a, b)
    ensures Manifest(sha, a) == Manifest(sha, b)
    ensures EntryCount(a) == EntryCount(b)
  {
    MapThrough(HashedOf(), EvaluationTag(sha), a.evaluations, b.evaluations);
    MapThrough(EnvelopeOf(), EnvelopeTag(sha), a.envelopes, b.envelopes);
    SortCanonical(Entries(sha, a), Entries(sha, b));
    EntriesCounted(sha, a);
    EntriesCounted(sha, b);
    SameLength(Entries(sha, a), Entries(sha, b));
  }

  /** The text fields joined inside the digests of the records hold no separator. */
  ghost predicate CleanRecords(b: AirgapBundle) {
    && (forall e :: e in b.evaluations ==> CleanEvaluation(e) && '|' !in e.id)
    && (forall e :: e in b.envelopes ==> CleanEnvelope(e) && '|' !in e.id)
  }

  /** The texts hashed for a bundle's manifest, and those hashed for the digests of its records. */
  ghost function BundleTexts(sha: Sha, b: AirgapBundle): set<string> {
    {ManifestText(sha, b)} + Contents(b.blobs)
  }

  ghost function RecordTexts(sha: Sha, b: AirgapBundle): set<string> {
    (set e, t | e in b.evaluations && t in EvaluationTexts(sha, e) :: t) +
    (set e, t | e in b.envelopes && t in EnvelopeTexts(sha, e) :: t)
  }

  /** SHA-256 does not collide on what is hashed for two bundles. */
  ghost predicate Collisionless(sha: Sha, a: AirgapBundle, b: AirgapBundle) {
    HexOutput(sha) && CollisionFree(sha, BundleTexts(sha, a) + BundleTexts(sha, b) + RecordTexts(sha, a) + RecordTexts(sha, b))
  }

  lemma EvaluationTagsCommit(sha: Sha, a: seq<ClaimEvaluation>, b: seq<ClaimEvaluation>, texts: set<string>)
    requires HexOutput(sha) && CollisionFree(sha, texts)
    requires forall e :: e in a || e in b ==> EvaluationTexts(sha, e) <= texts
    requires forall e :: e in b ==> CleanEvaluation(e) && '|' !in e.id
    requires multiset(Map(EvaluationTag(sha), a)) == multiset(Map(EvaluationTag(sha), b))
    ensures multiset(Map(HashedOf(), a)) == multiset(Map(HashedOf(), b))
  {
    forall e, f | e in a && f in b && EvaluationTag(sha)(e) == EvaluationTag(sha)(f) ensures HashedOf()(e) == HashedOf()(f) {
      DropLead("eval:", e.Digest(sha), f.Digest(sha));
      EvaluationDigestBinds(sha, f, e, texts);
    }
    MapThrough(EvaluationTag(sha), HashedOf(), a, b);
  }

  lemma EnvelopeTagsCommit(sha: Sha, a: seq<EvidenceEnvelope>, b: seq<EvidenceEnvelope>, texts: set<string>)
    requires HexOutput(sha) && CollisionFree(sha, texts)
    requires forall e :: e in a || e in b ==> EnvelopeTexts(sha, e) <= texts
    requires forall e :: e in b ==> CleanEnvelope(e) && '|' !in e.id
    requires multiset(Map(EnvelopeTag(sha), a)) == multiset(Map(EnvelopeTag(sha), b))
    ensures multiset(Map(EnvelopeOf(), a)) == multiset(Map(EnvelopeOf(), b))
  {
    forall e, f | e in a && f in b && EnvelopeTag(sha)(e) == EnvelopeTag(sha)(f) ensures EnvelopeOf()(e) == EnvelopeOf()(f) {
      DropLead("env:", e.Digest(sha), f.Digest(sha));
      EnvelopeDigestBinds(sha, f, e, texts);
    }
    MapThrough(EnvelopeTag(sha), EnvelopeOf(), a, b);
  }

  /** What the manifest of a bundle without separators identifies, among all bundles with as many
      entries: exactly what SameBound compares. */
  lemma ManifestIdentifies(sha: Sha, b: AirgapBundle, g: AirgapBundle)
    requires CleanText(g) && CleanRecords(g) && Collisionless(sha, b, g)
    ensures Manifest(sha, b) == Manifest(sha, g) && EntryCount(b) == EntryCount(g) <==> SameBound(b, g)
  {
    if SameBound(b, g) {
      BoundDecidesManifest(sha, b, g);
    }
    if Manifest(sha, b) == Manifest(sha, g) && EntryCount(b) == EntryCount(g) {
      var texts := BundleTexts(sha, b) + BundleTexts(sha, g) + RecordTexts(sha, b) + RecordTexts(sha, g);
      CollisionFreeSubset(sha, {ManifestText(sha, b), ManifestText(sha, g)}, texts);
      ManifestBinds(sha, b, g);
      EntriesByTag(sha, b, g);
      BlobTagsBind(sha, b.blobs, g.blobs, texts);
      EvaluationTagsCommit(sha, b.evaluations, g.evaluations, texts);
      EnvelopeTagsCommit(sha, b.envelopes, g.envelopes, texts);
    }
  }

  /** Tampering, with nothing asked of the bundle received: one that carries the manifest digest of
      a genuine bundle is imported exactly if its receipts verify and it has the genuine metadata
      and entry text. It then has no more entries, and if it has as many, it is the genuine bundle
      as far as a manifest can tell. */
  lemma AcceptedIsGenuine(sha: Sha, genuine: AirgapBundle, b: AirgapBundle, verify: Option<ControlReceipt -> bool>)
    requires CleanText(genuine) && CleanRecords(genuine) && Collisionless(sha, b, genuine)
    requires b.manifestDigest == Manifest(sha, genuine)
    ensures ImportAccepts(sha, Some(b), verify) <==>
            && b.metadata == genuine.metadata && EntryText(sha, b) == EntryText(sha, genuine)
            && ReceiptsVerify(b.receipts, verify)
    ensures ImportAccepts(sha, Some(b), verify) ==> EntryCount(b) <= EntryCount(genuine)
    ensures ImportAccepts(sha, Some(b), verify) && EntryCount(b) == EntryCount(genuine) <==>
            SameBound(b, genuine) && ReceiptsVerify(b.receipts, verify)
  {
    ManifestIdentifies(sha, b, genuine);
    var texts := BundleTexts(sha, b) + BundleTexts(sha, genuine) + RecordTexts(sha, b) + RecordTexts(sha, genuine);
    CollisionFreeSubset(sha, {ManifestText(sha, b), ManifestText(sha, genuine)}, texts);
    ManifestBinds(sha, b, genuine);
  }

  // ----- What it does not bind: single records -----

  /** One record of a bundle exchanged for another. */
  datatype Swap =
    | SwapEvaluation(evaluation: ClaimEvaluation)
    | SwapEnvelope(envelope: EvidenceEnvelope)
    | SwapReceipt(receipt: ControlReceipt)

  predicate Fits(b: AirgapBundle, i: nat, s: Swap) {
    match s
    case SwapEvaluation(_) => i < |b.evaluations|
    case SwapEnvelope(_) => i < |b.envelopes|
    case SwapReceipt(_) => i < |b.receipts|
  }

  function Swapped(b: AirgapBundle, i: nat, s: Swap): AirgapBundle
    requires Fits(b, i, s)
  {
    match s
    case SwapEvaluation(e) => b.(evaluations := b.evaluations[i := e])
    case SwapEnvelope(e) => b.(envelopes := b.envelopes[i := e])
    case SwapReceipt(r) => b.(receipts := b.receipts[i := r])
  }

  /** The exchanged record has the bound fields of the old one. Of a receipt that is a single text,
      so its subject, control, state, epoch, evaluator and time are free. */
  ghost predicate Unseen(b: AirgapBundle, i: nat, s: Swap)
    requires Fits(b, i, s)
  {
    match s
    case SwapEvaluation(e) => HashedOf()(e) == HashedOf()(b.evaluations[i])
    case SwapEnvelope(e) => EnvelopeOf()(e) == EnvelopeOf()(b.envelopes[i])
    case SwapReceipt(r) => ReceiptTag()(r) == ReceiptTag()(b.receipts[i])
  }

  lemma SwapOne<T, U>(f: T -> U, items: seq<T>, i: nat, x: T)
    requires i < |items|
    ensures multiset(Map(f, items[i := x])) == multiset(Map(f, items)) <==> f(x) == f(items[i])
  {
    MapWithout(f, items, i);
    MapWithout(f, items[i := x], i);
    assert Without(items[i := x], i) == Without(items, i);
    var rest := multiset(Map(f, Without(items, i)));
    if f(x) != f(items[i]) {
      assert (rest + multiset{f(x)})[f(x)] == rest[f(x)] + 1;
      assert (rest + multiset{f(items[i])})[f(x)] == rest[f(x)];
    }
  }

  lemma UnseenIsSameBound(b: AirgapBundle, i: nat, s: Swap)
    requires Fits(b, i, s)
    ensures SameBound(Swapped(b, i, s), b) <==> Unseen(b, i, s)
  {
    match s
    case SwapEvaluation(e) => SwapOne(HashedOf(), b.evaluations, i, e);
    case SwapEnvelope(e) => SwapOne(EnvelopeOf(), b.envelopes, i, e);
    case SwapReceipt(r) => SwapOne(ReceiptTag(), b.receipts, i, r);
  }

  /** The blind spot, exactly: exchanging one evaluation, envelope or receipt of a bundle leaves the
      manifest unchanged if, and in a bundle without separators only if, the new record has the bound
      fields of the old one. The new record may be any. */
  lemma ManifestBlindSpot(sha: Sha, b: AirgapBundle, i: nat, s: Swap)
    requires Fits(b, i, s)
    ensures Unseen(b, i, s) ==> Manifest(sha, Swapped(b, i, s)) == Manifest(sha, b)
    ensures CleanText(b) && CleanRecords(b) && Collisionless(sha, Swapped(b, i, s), b) ==>
              (Manifest(sha, Swapped(b, i, s)) == Manifest(sha, b) <==> Unseen(b, i, s))
  {
    UnseenIsSameBound(b, i, s);
    if Unseen(b, i, s) {
      BoundDecidesManifest(sha, Swapped(b, i, s), b);
    }
    if CleanText(b) && CleanRecords(b) && Collisionless(sha, Swapped(b, i, s), b) {
      ManifestIdentifies(sha, Swapped(b, i, s), b);
      SwappedCount(b, i, s);
    }
  }

  lemma SwappedCount(b: AirgapBundle, i: nat, s: Swap)
    requires Fits(b, i, s)
    ensures EntryCount(Swapped(b, i, s)) == EntryCount(b)
  {
  }

  /** Without a signer an unseen exchange is imported like the original. */
  lemma UnseenPasses(sha: Sha, b: AirgapBundle, i: nat, s: Swap)
    requires ImportAccepts(sha, Some(b), None) && Fits(b, i, s) && Unseen(b, i, s)
    ensures ImportAccepts(sha, Some(Swapped(b, i, s)), None)
  {
    ManifestBlindSpot(sha, b, i, s);
  }

  /** So not every modification of a receipt is caught: without a signer, any bundle that is imported
      is also imported with a FAILED receipt turned into an ASSURED one. */
  lemma FailedPassesForAssured(sha: Sha, b: AirgapBundle, i: nat)
    requires ImportAccepts(sha, Some(b), None) && i < |b.receipts| && b.receipts[i].state == Failed
    ensures var forged := Swapped(b, i, SwapReceipt(b.receipts[i].(state := Assured)));
            forged.receipts[i].state == Assured && ImportAccepts(sha, Some(forged), None)
  {
    UnseenPasses(sha, b, i, SwapReceipt(b.receipts[i].(state := Assured)));
  }

  /** s has another root or signature than r and yet the same tag. */
  predicate ReceiptTwins(r: ControlReceipt, s: ControlReceipt) {
    ReceiptTag()(s) == ReceiptTag()(r) && !(s.evidenceRoot == r.evidenceRoot && s.signature == r.signature)
  }

  lemma TagsAgree(r: ControlReceipt, s: ControlReceipt)
    ensures ReceiptTag()(s) == ReceiptTag()(r) <==> s.evidenceRoot + ":" + s.signature == r.evidenceRoot + ":" + r.signature
  {
    assert ReceiptTag()(r) == "receipt:" + (r.evidenceRoot + ":" + r.signature);
    assert ReceiptTag()(s) == "receipt:" + (s.evidenceRoot + ":" + s.signature);
    if ReceiptTag()(s) == ReceiptTag()(r) {
      DropLead("receipt:", s.evidenceRoot + ":" + s.signature, r.evidenceRoot + ":" + r.signature);
    }
  }

  lemma TagBinds(r: ControlReceipt, s: ControlReceipt)
    requires ReceiptTag()(s) == ReceiptTag()(r) && ':' !in r.evidenceRoot && ':' !in r.signature
    ensures s.evidenceRoot == r.evidenceRoot && s.signature == r.signature
  {
    TagsAgree(r, s);
    var f, g := [r.evidenceRoot, r.signature], [s.evidenceRoot, s.signature];
    JoinTwo(r.evidenceRoot, r.signature, ':');
    JoinTwo(s.evidenceRoot, s.signature, ':');
    FieldsBind(f, g, ':');
    assert f[0] == g[0] && f[1] == g[1];
  }

  /** Text of the root can pass for text of the signature and the other way round: a receipt has a
      twin exactly if one of them holds a ':', as every computed root does. */
  lemma ReceiptAmbiguousExactly(r: ControlReceipt)
    ensures (exists s :: ReceiptTwins(r, s)) <==> ':' in r.evidenceRoot || ':' in r.signature
  {
    if ':' in r.evidenceRoot {
      var p, q := CutAt(r.evidenceRoot, ':');
      var s := r.(evidenceRoot := p, signature := q + ":" + r.signature);
      TagsAgree(r, s);
      assert ReceiptTwins(r, s);
    } else if ':' in r.signature {
      var p, q := CutAt(r.signature, ':');
      var s := r.(evidenceRoot := r.evidenceRoot + ":" + p, signature := q);
      TagsAgree(r, s);
      assert |s.evidenceRoot| > |r.evidenceRoot|;
      assert ReceiptTwins(r, s);
    } else if s :| ReceiptTwins(r, s) {
      TagBinds(r, s);
    }
  }

  /** A receipt may be exchanged for a twin, so without a signer not even root and signature are
      bound one by one. */
  lemma TwinPasses(sha: Sha, b: AirgapBundle, i: nat, r: ControlReceipt)
    requires ImportAccepts(sha, Some(b), None) && i < |b.receipts| && ReceiptTwins(b.receipts[i], r)
    ensures ImportAccepts(sha, Some(Swapped(b, i, SwapReceipt(r))), None)
  {
    UnseenPasses(sha, b, i, SwapReceipt(r));
  }

  // ----- What it does not bind: metadata -----

  /** n is other metadata with the same text before any entries. */
  ghost predicate MetadataTwins(m: BundleMetadata, n: BundleMetadata) {
    n != m && forall entries: string :: Join(ManifestFields(n, entries), '|') == Join(ManifestFields(m, entries), '|')
  }

  lemma FieldsTrade(m: BundleMetadata, n: BundleMetadata, k: nat)
    requires k < 3 && m.exportedAt == n.exportedAt
    requires var f, g := ManifestFields(m, ""), ManifestFields(n, "");
             && (forall i :: 0 <= i < 4 && i != k && i != k + 1 ==> f[i] == g[i])
             && f[k] + "|" + f[k + 1] == g[k] + "|" + g[k + 1] && |f[k]| != |g[k]|
    ensures MetadataTwins(m, n)
  {
    forall entries: string ensures Join(ManifestFields(n, entries), '|') == Join(ManifestFields(m, entries), '|') {
      var f, g := ManifestFields(m, entries), ManifestFields(n, entries);
      assert forall i :: 0 <= i < 4 ==> f[i] == ManifestFields(m, "")[i] && g[i] == ManifestFields(n, "")[i];
      SameAround(g, f, k);
      MoveAcross(g, f, k, '|');
    }
  }

  /** Metadata has a twin exactly if a '|' occurs in one of its text fields. */
  lemma MetadataAmbiguousExactly(m: BundleMetadata)
    ensures (exists n :: MetadataTwins(m, n)) <==> !CleanMetadata(m)
  {
    if '|' in m.bundleId {
      var p, q := CutAt(m.bundleId, '|');
      FieldsTrade(m, m.(bundleId := p, subjectUri := q + "|" + m.subjectUri), 0);
    } else if '|' in m.subjectUri {
      var p, q := CutAt(m.subjectUri, '|');
      FieldsTrade(m, m.(subjectUri := p, epochComposite := q + "|" + m.epochComposite), 1);
    } else if '|' in m.epochComposite {
      var p, q := CutAt(m.epochComposite, '|');
      FieldsTrade(m, m.(epochComposite := p, generator := q + "|" + m.generator), 2);
    } else if '|' in m.generator {
      var p, q := CutAt(m.generator, '|');
      FieldsTrade(m, m.(epochComposite := m.epochComposite + "|" + p, generator := q), 2);
    } else if n :| MetadataTwins(m, n) {
      MetadataBinds(m, "", n, "");
    }
  }

  /** A bundle is imported with twin metadata as it is with its own, signer or not. */
  lemma TwinMetadataPasses(sha: Sha, b: AirgapBundle, n: BundleMetadata, verify: Option<ControlReceipt -> bool>)
    requires MetadataTwins(b.metadata, n)
    ensures ImportAccepts(sha, Some(b.(metadata := n)), verify) <==> ImportAccepts(sha, Some(b), verify)
  {
    assert Entries(sha, b.(metadata := n)) == Entries(sha, b);
  }

  /** So whenever a '|' occurs in a bundle's metadata, the same bundle with other metadata is imported
      exactly when it is, signer or not. */
  lemma UncleanMetadataPasses(sha: Sha, b: AirgapBundle, verify: Option<ControlReceipt -> bool>)
    requires !CleanMetadata(b.metadata)
    ensures exists n :: MetadataTwins(b.metadata, n) &&
                        (ImportAccepts(sha, Some(b.(metadata := n)), verify) <==> ImportAccepts(sha, Some(b), verify))
  {
    MetadataAmbiguousExactly(b.metadata);
    var n :| MetadataTwins(b.metadata, n);
    TwinMetadataPasses(sha, b, n, verify);
  }

  // ----- What it does not bind: where an entry ends -----

  lemma {:induction false} LeqExtended(t: string, x: string)
    ensures Leq(t, t + x)
  {
    if t != "" {
      assert (t + x)[1..] == t[1..] + x;
      LeqExtended(t[1..], x);
    }
  }

  /** Two neighbours in sorted order may be run together, if that keeps the order. */
  lemma NeighboursMerge(p: seq<string>, t: string, u: string, q: seq<string>)
    requires Sorted(p + [t, u] + q) && forall y :: y in q ==> Leq(t + "\n" + u, y)
    ensures Sorted(p + [t + "\n" + u] + q)
    ensures Join(p + [t + "\n" + u] + q, '\n') == Join(p + [t, u] + q, '\n')
  {
    var tu := t + "\n" + u;
    var s := p + [t, u] + q;
    forall i | 0 <= i < |p| ensures Leq(p[i], tu) {
      assert s[i] == p[i] && s[|p|] == t;
      assert tu == t + ("\n" + u);
      LeqExtended(t, "\n" + u);
      LeqTransitive(p[i], t, tu);
    }
    SortedAround(p, [t, u], tu, q);
    assert Join([t, u], '\n') == tu && Join([tu], '\n') == tu;
    JoinMiddle(p, [tu], [t, u], q, '\n');
  }

  lemma SortedAround(p: seq<string>, m: seq<string>, x: string, q: seq<string>)
    requires Sorted(p + m + q)
    requires (forall i :: 0 <= i < |p| ==> Leq(p[i], x)) && forall y :: y in q ==> Leq(x, y)
    ensures Sorted(p + [x] + q)
  {
    var s, s' := p + m + q, p + [x] + q;
    forall i, j | 0 <= i < j < |s'| ensures Leq(s'[i], s'[j]) {
      if i != |p| && j != |p| {
        var k, l := if i < |p| then i else i + |m| - 1, if j < |p| then j else j + |m| - 1;
        assert s[k] == s'[i] && s[l] == s'[j];
      }
    }
  }

  /** Entries can run together: a bundle in which one entry spells out two neighbours of another
      bundle's sorted entries has the same manifest. */
  lemma EntriesRunTogether(sha: Sha, b: AirgapBundle, f: AirgapBundle, p: seq<string>, t: string, u: string, q: seq<string>)
    requires f.metadata == b.metadata && Sort(Entries(sha, b)) == p + [t, u] + q
    requires multiset(Entries(sha, f)) == multiset(Entries(sha, b)) - multiset{t, u} + multiset{t + "\n" + u}
    requires forall y :: y in q ==> Leq(t + "\n" + u, y)
    ensures Manifest(sha, f) == Manifest(sha, b)
  {
    var merged := p + [t + "\n" + u] + q;
    SortSorts(Entries(sha, b));
    NeighboursMerge(p, t, u, q);
    MergedMultiset(p, t, u, q, t + "\n" + u);
    SortSorts(Entries(sha, f));
    SortedUnique(Sort(Entries(sha, f)), merged);
  }

  lemma MergedMultiset<T>(p: seq<T>, t: T, u: T, q: seq<T>, x: T)
    ensures multiset(p + [x] + q) == multiset(p + [t, u] + q) - multiset{t, u} + multiset{x}
  {
    assert multiset([t, u]) == multiset{t, u};
    assert multiset(p + [t, u] + q) == multiset(p) + multiset{t, u} + multiset(q);
  }

  /** A receipt whose signature spells out the next one takes its place, and the next one is gone. */
  lemma ReceiptsRunTogether(sha: Sha, b: AirgapBundle, i: nat, j: nat, p: seq<string>, q: seq<string>)
    requires i < |b.receipts| && j < |b.receipts| && i != j
    requires var t, u := ReceiptTag()(b.receipts[i]), ReceiptTag()(b.receipts[j]);
             Sort(Entries(sha, b)) == p + [t, u] + q && forall y :: y in q ==> Leq(t + "\n" + u, y)
    ensures var r := b.receipts[i];
            var longer := r.(signature := r.signature + "\n" + ReceiptTag()(b.receipts[j]));
            Manifest(sha, b.(receipts := Without(b.receipts[i := longer], j))) == Manifest(sha, b)
  {
    var r, t, u := b.receipts[i], ReceiptTag()(b.receipts[i]), ReceiptTag()(b.receipts[j]);
    var longer := r.(signature := r.signature + "\n" + u);
    var f := b.(receipts := Without(b.receipts[i := longer], j));
    LongerTag(r, u);
    TwoForOne(ReceiptTag(), b.receipts, i, j, longer);
    EntriesByKind(sha, b);
    EntriesByKind(sha, f);
    MergedPart(multiset(Map(EvaluationTag(sha), b.evaluations)) + multiset(Map(EnvelopeTag(sha), b.envelopes)),
               multiset(Map(ReceiptTag(), b.receipts)), multiset(Map(ReceiptTag(), f.receipts)), BlobTags(sha, b.blobs),
               t, u, t + "\n" + u);
    EntriesRunTogether(sha, b, f, p, t, u, q);
  }

  lemma LongerTag(r: ControlReceipt, u: string)
    ensures ReceiptTag()(r.(signature := r.signature + "\n" + u)) == ReceiptTag()(r) + "\n" + u
  {
  }

  lemma TwoDiffer<T, U>(f: T -> U, items: seq<T>, i: nat, j: nat)
    requires i < |items| && j < |items| && i != j
    ensures multiset{f(items[i]), f(items[j])} <= multiset(Map(f, items))
  {
    var k := if j < i then j else j - 1;
    assert Without(items, i)[k] == items[j];
    assert Map(f, Without(items, i))[k] in multiset(Map(f, Without(items, i)));
    MapWithout(f, items, i);
  }

  /** Of two items one is changed and the other dropped. */
  lemma TwoForOne<T, U>(f: T -> U, items: seq<T>, i: nat, j: nat, x: T)
    requires i < |items| && j < |items| && i != j
    ensures multiset{f(items[i]), f(items[j])} <= multiset(Map(f, items))
    ensures multiset(Map(f, Without(items[i := x], j))) ==
            multiset(Map(f, items)) - multiset{f(items[i]), f(items[j])} + multiset{f(x)}
  {
    TwoDiffer(f, items, i, j);
    OneChanged(f, items, i, x);
    MapWithout(f, items[i := x], j);
  }

  lemma OneChanged<T, U>(f: T -> U, items: seq<T>, i: nat, x: T)
    requires i < |items|
    ensures multiset(Map(f, items[i := x])) == multiset(Map(f, items)) - multiset{f(items[i])} + multiset{f(x)}
  {
    MapWithout(f, items, i);
    MapWithout(f, items[i := x], i);
    assert Without(items[i := x], i) == Without(items, i);
  }

  lemma EntriesByKind(sha: Sha, b: AirgapBundle)
    ensures multiset(Entries(sha, b)) ==
            multiset(Map(EvaluationTag(sha), b.evaluations)) + multiset(Map(EnvelopeTag(sha), b.envelopes)) +
            multiset(Map(ReceiptTag(), b.receipts)) + BlobTags(sha, b.blobs)
  {
  }

  lemma MergedPart<T>(before: multiset<T>, m: multiset<T>, m': multiset<T>, after: multiset<T>, t: T, u: T, x: T)
    requires multiset{t, u} <= m && m' == m - multiset{t, u} + multiset{x}
    ensures before + m' + after == before + m + after - multiset{t, u} + multiset{x}
  {
  }

  lemma BlobTagsAdd(sha: Sha, blobs: map<string, string>, d: string, content: string)
    requires d !in blobs
    ensures BlobTags(sha, blobs[d := content]) == BlobTags(sha, blobs) + multiset{BlobEntry(sha, d, content)}
  {
    var more, keys := blobs[d := content], SortedKeys(blobs.Keys);
    assert more.Keys == blobs.Keys + {d};
    KeysOneMore(blobs.Keys, d);
    SameBlobTags(sha, blobs, d, content);
    MapOneMore(BlobTag(sha, more), BlobTag(sha, blobs), SortedKeys(more.Keys), keys, d);
  }

  lemma SameBlobTags(sha: Sha, blobs: map<string, string>, d: string, content: string)
    requires d !in blobs
    ensures BlobTag(sha, blobs[d := content])(d) == BlobEntry(sha, d, content)
    ensures forall k :: k in SortedKeys(blobs.Keys) ==> BlobTag(sha, blobs[d := content])(k) == BlobTag(sha, blobs)(k)
  {
    InAnyOrder(SortedKeys(blobs.Keys), blobs.Keys);
  }

  lemma KeysOneMore(keys: set<string>, d: string)
    requires d !in keys
    ensures multiset(SortedKeys(keys + {d})) == multiset(SortedKeys(keys)) + multiset{d}
  {
  }

  lemma MapOneMore<T, U>(f: T -> U, g: T -> U, all: seq<T>, some: seq<T>, d: T)
    requires multiset(all) == multiset(some) + multiset{d} && forall k :: k in some ==> f(k) == g(k)
    ensures multiset(Map(f, all)) == multiset(Map(g, some)) + multiset{f(d)}
  {
    MapPermuted(f, all, some + [d]);
    MapSnoc(f, some, d);
    assert Map(f, some) == Map(g, some);
  }

  /** The key that spells out the payload under d1 and the digest of another. */
  function LongerKey(sha: Sha, d1: string, c1: string, d2: string): string {
    d1 + ":" + sha(c1) + "\nblob:" + d2
  }

  /** One payload under such a key takes the place of two, and the first one is gone, which no
      signer sees. */
  lemma BlobsRunTogether(sha: Sha, b: AirgapBundle, rest: map<string, string>, d1: string, c1: string, d2: string, c2: string,
                         p: seq<string>, q: seq<string>)
    requires b.blobs == rest[d1 := c1][d2 := c2] && d1 !in rest && d2 !in rest && d1 != d2
    requires LongerKey(sha, d1, c1, d2) !in rest
    requires var t, u := BlobEntry(sha, d1, c1), BlobEntry(sha, d2, c2);
             Sort(Entries(sha, b)) == p + [t, u] + q && forall y :: y in q ==> Leq(t + "\n" + u, y)
    ensures Manifest(sha, b.(blobs := rest[LongerKey(sha, d1, c1, d2) := c2])) == Manifest(sha, b)
  {
    var t, u := BlobEntry(sha, d1, c1), BlobEntry(sha, d2, c2);
    var fewer := rest[LongerKey(sha, d1, c1, d2) := c2];
    BlobsMerge(sha, rest, d1, c1, d2, c2);
    OtherBlobs(sha, b, fewer, t, u, t + "\n" + u);
    EntriesRunTogether(sha, b, b.(blobs := fewer), p, t, u, q);
  }

  lemma BlobsMerge(sha: Sha, rest: map<string, string>, d1: string, c1: string, d2: string, c2: string)
    requires d1 !in rest && d2 !in rest && d1 != d2 && LongerKey(sha, d1, c1, d2) !in rest
    ensures var t, u, tags := BlobEntry(sha, d1, c1), BlobEntry(sha, d2, c2), BlobTags(sha, rest[d1 := c1][d2 := c2]);
            && multiset{t, u} <= tags
            && BlobTags(sha, rest[LongerKey(sha, d1, c1, d2) := c2]) == tags - multiset{t, u} + multiset{t + "\n" + u}
  {
    var key := LongerKey(sha, d1, c1, d2);
    BlobTagsAdd(sha, rest, d1, c1);
    BlobTagsAdd(sha, rest[d1 := c1], d2, c2);
    BlobTagsAdd(sha, rest, key, c2);
    LongerBlob(sha, d1, c1, d2, c2);
    TwoAddedOneAdded(BlobTags(sha, rest), BlobTags(sha, rest[d1 := c1][d2 := c2]), BlobTags(sha, rest[key := c2]),
                     BlobEntry(sha, d1, c1), BlobEntry(sha, d2, c2), BlobEntry(sha, key, c2));
  }

  lemma TwoAddedOneAdded<T>(m: multiset<T>, two: multiset<T>, one: multiset<T>, t: T, u: T, x: T)
    requires two == m + multiset{t} + multiset{u} && one == m + multiset{x}
    ensures multiset{t, u} <= two && one == two - multiset{t, u} + multiset{x}
  {
  }

  lemma OtherBlobs(sha: Sha, b: AirgapBundle, blobs: map<string, string>, t: string, u: string, x: string)
    requires multiset{t, u} <= BlobTags(sha, b.blobs)
    requires BlobTags(sha, blobs) == BlobTags(sha, b.blobs) - multiset{t, u} + multiset{x}
    ensures multiset(Entries(sha, b.(blobs := blobs))) == multiset(Entries(sha, b)) - multiset{t, u} + multiset{x}
  {
    EntriesByKind(sha, b);
    EntriesByKind(sha, b.(blobs := blobs));
    MergedPart(multiset(Map(EvaluationTag(sha), b.evaluations)) + multiset(Map(EnvelopeTag(sha), b.envelopes)) +
               multiset(Map(ReceiptTag(), b.receipts)), BlobTags(sha, b.blobs), BlobTags(sha, blobs), multiset{}, t, u, x);
  }

  lemma LongerBlob(sha: Sha, d1: string, c1: string, d2: string, c2: string)
    ensures BlobEntry(sha, LongerKey(sha, d1, c1, d2), c2) == BlobEntry(sha, d1, c1) + "\n" + BlobEntry(sha, d2, c2)
  {
  }

  // ----- What a signer adds -----

  /** 64 bytes in hex, of either case: nothing else verifies as an Ed25519 signature. */
  predicate IsSignature(s: string) {
    |s| == 128 && forall c :: c in s ==> IsHexChar(c) || 'A' <= c <= 'F'
  }

  /** A check of the signature against the receipt's canonical bytes. */
  function Signer(sha: Sha, check: (string, string) -> bool): ControlReceipt -> bool {
    (r: ControlReceipt) => IsSignature(r.signature) && check(r.CanonicalBytes(sha), r.signature)
  }

  /** A signature does not pass for two messages, nor an epoch hash for two epochs. */
  ghost predicate SignsOnce(sha: Sha, check: (string, string) -> bool, r: ControlReceipt, s: ControlReceipt) {
    && (r.signature == s.signature && Signer(sha, check)(r) && Signer(sha, check)(s) ==>
          r.CanonicalBytes(sha) == s.CanonicalBytes(sha))
    && CollisionFree(sha, {EpochText(r.epoch), EpochText(s.epoch)})
  }

  predicate CleanSigned(r: ControlReceipt) {
    CleanReceipt(r) && '\n' !in r.subject.URI()
  }

  lemma SignedOnceIsSame(sha: Sha, check: (string, string) -> bool, r: ControlReceipt, s: ControlReceipt)
    requires HexOutput(sha) && SignsOnce(sha, check, r, s) && CleanSigned(s) && r.signature == s.signature
    requires Signer(sha, check)(r) && Signer(sha, check)(s)
    ensures SignedOf()(r) == SignedOf()(s) && ReceiptTag()(r) == ReceiptTag()(s)
  {
    SignedBytesBind(sha, s, r);
    assert SignedOf()(r).evidenceRoot == SignedOf()(s).evidenceRoot;
  }

  /** The last 128 characters of an entry. */
  function Ending(x: string): string
    requires |x| >= 128
  {
    x[|x| - 128..]
  }

  /** An entry that ends in a signature, and one that ends in a SHA-256 hash. */
  predicate SignedLine(x: string) {
    |x| >= 128 && IsSignature(Ending(x))
  }

  predicate HashLine(x: string) {
    |x| >= 65 && x[|x| - 65] == ':'
  }

  lemma InSignature(x: string)
    requires SignedLine(x)
    ensures x[|x| - 65] != ':'
  {
    assert x[|x| - 65] == Ending(x)[63] && Ending(x)[63] in Ending(x);
  }

  lemma SignedOrHash(x: string)
    ensures !(SignedLine(x) && HashLine(x))
  {
    if SignedLine(x) {
      InSignature(x);
    }
  }

  function IsSigned(): string -> bool {
    (x: string) => SignedLine(x)
  }

  ghost predicate SignedLast(s: seq<string>) {
    forall i, j :: 0 <= i < j < |s| && SignedLine(s[i]) ==> SignedLine(s[j])
  }

  ghost predicate Lines(s: seq<string>) {
    SignedLast(s) && forall x :: x in s ==> SignedLine(x) || HashLine(x)
  }

  lemma SameEnding(lead: string, x: string, lead': string, y: string)
    requires lead + x == lead' + y
    ensures SignedLine(x) && HashLine(y) ==> false
    ensures SignedLine(x) && SignedLine(y) ==> Ending(x) == Ending(y)
  {
    var s := lead + x;
    if |x| >= 65 && |y| >= 65 {
      assert x[|x| - 65] == s[|s| - 65] == y[|y| - 65];
    }
    if SignedLine(x) {
      InSignature(x);
    }
    if SignedLine(x) && SignedLine(y) {
      assert Ending(x) == s[|s| - 128..] == Ending(y);
    }
  }

  lemma LastPart(s: seq<string>, sep: char) returns (lead: string)
    requires s != []
    ensures Join(s, sep) == lead + s[|s| - 1]
    ensures |s| == 1 ==> lead == ""
    ensures |s| > 1 ==> lead == Join(s[..|s| - 1], sep) + [sep]
  {
    if |s| == 1 {
      lead := "";
    } else {
      JoinSnoc(s, sep);
      lead := Join(s[..|s| - 1], sep) + [sep];
    }
  }

  lemma {:induction false} NoneSigned(s: seq<string>)
    requires Lines(s) && (s != [] ==> !SignedLine(s[|s| - 1]))
    ensures Filter(s, IsSigned()) == []
  {
    if s != [] {
      NoneSigned(s[..|s| - 1]);
    }
  }

  /** Two sorted lists of entries with one text hold the same signed entries, even if other entries
      of the first run together: a signed entry cannot, because what it ends in says what it is. */
  lemma {:induction false} SignedLinesAgree(a: seq<string>, g: seq<string>)
    requires Lines(a) && Lines(g) && Join(a, '\n') == Join(g, '\n')
    requires forall x, y :: x in a && y in g && SignedLine(x) && SignedLine(y) && Ending(x) == Ending(y) ==> x == y
    ensures Filter(a, IsSigned()) == Filter(g, IsSigned())
    decreases |a|
  {
    if a == [] || g == [] {
      if a != [] { var lead := LastPart(a, '\n'); assert a[|a| - 1] in a; }
      if g != [] { var lead := LastPart(g, '\n'); assert g[|g| - 1] in g; }
    } else {
      var x, y := a[|a| - 1], g[|g| - 1];
      var lead := LastPart(a, '\n');
      var lead' := LastPart(g, '\n');
      assert x in a && y in g;
      SameEnding(lead, x, lead', y);
      SameEnding(lead', y, lead, x);
      if SignedLine(x) {
        assert |lead| == |lead'|;
        assert lead == (lead + x)[..|lead|] == lead';
        assert |a| > 1 <==> |g| > 1;
        if |a| > 1 {
          assert Join(a[..|a| - 1], '\n') == lead[..|lead| - 1] == Join(g[..|g| - 1], '\n');
          SignedLinesAgree(a[..|a| - 1], g[..|g| - 1]);
        }
      } else {
        NoneSigned(a);
        NoneSigned(g);
      }
    }
  }

  /** The entries of a bundle with well-formed signatures, sorted: hashes first, then receipts. */
  lemma EntryShapes(sha: Sha, b: AirgapBundle)
    requires HexOutput(sha) && forall r :: r in b.receipts ==> IsSignature(r.signature)
    ensures forall x :: x in Map(ReceiptTag(), b.receipts) ==> SignedLine(x) && x[0] == 'r'
    ensures forall x :: x in Entries(sha, b) && x !in Map(ReceiptTag(), b.receipts) ==> HashLine(x) && x[0] < 'r'
  {
    TagsLed(sha, b);
    forall x | x in Map(ReceiptTag(), b.receipts) ensures SignedLine(x) && x[0] == 'r' {
      var i :| 0 <= i < |b.receipts| && ReceiptTag()(b.receipts[i]) == x;
      assert b.receipts[i] in b.receipts && Ending(x) == b.receipts[i].signature;
    }
    DigestLines(sha, b);
    BlobLines(sha, b.blobs);
  }

  lemma DigestLines(sha: Sha, b: AirgapBundle)
    requires HexOutput(sha)
    ensures forall x :: x in Map(EvaluationTag(sha), b.evaluations) || x in Map(EnvelopeTag(sha), b.envelopes) ==> HashLine(x)
  {
    forall e ensures HashLine(EvaluationTag(sha)(e)) {
      EndsInHash("eval:sha256", sha, Join(e.Fields(sha), '|'));
      assert EvaluationTag(sha)(e) == "eval:sha256" + ":" + sha(Join(e.Fields(sha), '|'));
    }
    forall e ensures HashLine(EnvelopeTag(sha)(e)) {
      EndsInHash("env:sha256", sha, Join(e.Fields(sha), '|'));
      assert EnvelopeTag(sha)(e) == "env:sha256" + ":" + sha(Join(e.Fields(sha), '|'));
    }
  }

  lemma BlobLines(sha: Sha, blobs: map<string, string>)
    requires HexOutput(sha)
    ensures forall x :: x in Map(BlobTag(sha, blobs), SortedKeys(blobs.Keys)) ==> HashLine(x)
  {
    forall d ensures HashLine(BlobTag(sha, blobs)(d)) {
      EndsInHash("blob:" + d, sha, if d in blobs then blobs[d] else "");
    }
  }

  lemma EndsInHash(lead: string, sha: Sha, text: string)
    requires HexOutput(sha)
    ensures HashLine(lead + ":" + sha(text))
  {
    assert IsHex64(sha(text));
  }

  lemma EntryLines(sha: Sha, b: AirgapBundle)
    requires HexOutput(sha) && forall r :: r in b.receipts ==> IsSignature(r.signature)
    ensures Lines(Sort(Entries(sha, b)))
  {
    var s := Sort(Entries(sha, b));
    EntryKinds(sha, b);
    SortSorts(Entries(sha, b));
    SortKeeps(Entries(sha, b));
    forall i, j | 0 <= i < j < |s| && SignedLine(s[i]) ensures SignedLine(s[j]) {
      assert s[i] in s && s[j] in s && Leq(s[i], s[j]);
    }
  }

  lemma EntryKinds(sha: Sha, b: AirgapBundle)
    requires HexOutput(sha) && forall r :: r in b.receipts ==> IsSignature(r.signature)
    ensures forall x :: x in Entries(sha, b) ==>
              x != "" && if SignedLine(x) then x[0] == 'r' else HashLine(x) && x[0] < 'r'
  {
    EntryShapes(sha, b);
    forall x ensures !(SignedLine(x) && HashLine(x)) {
      SignedOrHash(x);
    }
  }

  lemma SignedEntries(sha: Sha, b: AirgapBundle)
    requires HexOutput(sha) && forall r :: r in b.receipts ==> IsSignature(r.signature)
    ensures multiset(Filter(Sort(Entries(sha, b)), IsSigned())) == multiset(Map(ReceiptTag(), b.receipts))
  {
    var s, tags := Sort(Entries(sha, b)), Map(ReceiptTag(), b.receipts);
    SortSorts(Entries(sha, b));
    forall x ensures multiset(Filter(s, IsSigned()))[x] == multiset(tags)[x] {
      FilterMultiset(s, IsSigned(), x);
      OthersUnsigned(sha, b, x);
    }
  }

  lemma OthersUnsigned(sha: Sha, b: AirgapBundle, x: string)
    requires HexOutput(sha) && forall r :: r in b.receipts ==> IsSignature(r.signature)
    ensures multiset(Map(ReceiptTag(), b.receipts))[x] == if SignedLine(x) then multiset(Entries(sha, b))[x] else 0
  {
    SignedOrHash(x);
    EntryShapes(sha, b);
    DigestLines(sha, b);
    BlobLines(sha, b.blobs);
    var p, q, r, s := Map(EvaluationTag(sha), b.evaluations), Map(EnvelopeTag(sha), b.envelopes), Map(ReceiptTag(), b.receipts),
                      Map(BlobTag(sha, b.blobs), SortedKeys(b.blobs.Keys));
    assert multiset(p + q + r + s)[x] == multiset(p)[x] + multiset(q)[x] + multiset(r)[x] + multiset(s)[x];
    assert (multiset(p)[x] > 0 ==> x in p) && (multiset(q)[x] > 0 ==> x in q);
    assert (multiset(r)[x] > 0 ==> x in r) && (multiset(s)[x] > 0 ==> x in s);
  }

  lemma EndingOfTag(r: ControlReceipt)
    requires IsSignature(r.signature)
    ensures SignedLine(ReceiptTag()(r)) && Ending(ReceiptTag()(r)) == r.signature
  {
    assert Ending(ReceiptTag()(r)) == r.signature;
  }

  lemma SameTaggedReceipts(sha: Sha, check: (string, string) -> bool, b: AirgapBundle, g: AirgapBundle)
    requires HexOutput(sha) && EntryText(sha, b) == EntryText(sha, g)
    requires ReceiptsVerify(b.receipts, Some(Signer(sha, check))) && ReceiptsVerify(g.receipts, Some(Signer(sha, check)))
    requires forall r, s :: r in b.receipts && s in g.receipts ==> SignsOnce(sha, check, r, s)
    requires forall s :: s in g.receipts ==> CleanSigned(s)
    ensures multiset(Map(ReceiptTag(), b.receipts)) == multiset(Map(ReceiptTag(), g.receipts))
  {
    var p, q := Sort(Entries(sha, b)), Sort(Entries(sha, g));
    EntryLines(sha, b);
    EntryLines(sha, g);
    SignedEntries(sha, b);
    SignedEntries(sha, g);
    forall x, y | x in p && y in q && SignedLine(x) && SignedLine(y) && Ending(x) == Ending(y) ensures x == y {
      var r := ReceiptOf(sha, b, x);
      var s := ReceiptOf(sha, g, y);
      EndingOfTag(r);
      EndingOfTag(s);
      SignedOnceIsSame(sha, check, r, s);
    }
    SignedLinesAgree(p, q);
  }

  lemma ReceiptOf(sha: Sha, b: AirgapBundle, x: string) returns (r: ControlReceipt)
    requires HexOutput(sha) && forall r :: r in b.receipts ==> IsSignature(r.signature)
    requires x in Sort(Entries(sha, b)) && SignedLine(x)
    ensures r in b.receipts && ReceiptTag()(r) == x
  {
    EntryShapes(sha, b);
    SortKeeps(Entries(sha, b));
    SignedOrHash(x);
    MapMembers(ReceiptTag(), b.receipts, x);
    r :| r in b.receipts && ReceiptTag()(r) == x;
  }

  /** With a signer the blind spot for receipts closes, whatever the text of the received bundle: one
      imported under the manifest of a genuine bundle whose own receipts verify has those receipts
      in every signed field. Its other entries may still run together (BlobsRunTogether). */
  lemma SignerBindsReceipts(sha: Sha, check: (string, string) -> bool, genuine: AirgapBundle, b: AirgapBundle)
    requires HexOutput(sha) && CleanText(genuine) && CollisionFree(sha, {ManifestText(sha, b), ManifestText(sha, genuine)})
    requires b.manifestDigest == Manifest(sha, genuine) && ImportAccepts(sha, Some(b), Some(Signer(sha, check)))
    requires ReceiptsVerify(genuine.receipts, Some(Signer(sha, check)))
    requires forall r, s :: r in b.receipts && s in genuine.receipts ==> SignsOnce(sha, check, r, s)
    requires forall s :: s in genuine.receipts ==> CleanSigned(s)
    ensures multiset(Map(SignedOf(), b.receipts)) == multiset(Map(SignedOf(), genuine.receipts))
    ensures |b.receipts| == |genuine.receipts|
  {
    ManifestBinds(sha, b, genuine);
    SameTaggedReceipts(sha, check, b, genuine);
    SameSignedReceipts(sha, check, b.receipts, genuine.receipts);
    SameLength(Map(SignedOf(), b.receipts), Map(SignedOf(), genuine.receipts));
  }

  lemma SameSignedReceipts(sha: Sha, check: (string, string) -> bool, a: seq<ControlReceipt>, g: seq<ControlReceipt>)
    requires HexOutput(sha) && multiset(Map(ReceiptTag(), a)) == multiset(Map(ReceiptTag(), g))
    requires forall r :: r in a || r in g ==> Signer(sha, check)(r)
    requires forall r, s :: r in a && s in g ==> SignsOnce(sha, check, r, s)
    requires forall s :: s in g ==> CleanSigned(s)
    ensures multiset(Map(SignedOf(), a)) == multiset(Map(SignedOf(), g))
  {
    forall r, s | r in a && s in g && ReceiptTag()(r) == ReceiptTag()(s) ensures SignedOf()(r) == SignedOf()(s) {
      EndingOfTag(r);
      EndingOfTag(s);
      SignedOnceIsSame(sha, check, r, s);
    }
    MapThrough(ReceiptTag(), SignedOf(), a, g);
  }

  // ----- The transfer -----

  /** Writing a bundle as JSON and reading it back: blob bytes travel as JSON text, and coerce is
      what that does to them; it leaves valid UTF-8 alone. */
  function Transported(coerce: string -> string, b: AirgapBundle): AirgapBundle {
    b.(blobs := map d | d in b.blobs :: coerce(b.blobs[d]))
  }

  ghost predicate Lossless(coerce: string -> string, blobs: map<string, string>) {
    forall d :: d in blobs ==> coerce(blobs[d]) == blobs[d]
  }

  lemma ManifestIgnoresItself(sha: Sha, b: AirgapBundle, digest: string)
    ensures Manifest(sha, b.(manifestDigest := digest)) == Manifest(sha, b)
  {
    assert Entries(sha, b.(manifestDigest := digest)) == Entries(sha, b);
  }

  lemma SameMetadataBinds(sha: Sha, a: AirgapBundle, b: AirgapBundle)
    requires HexOutput(sha) && EntriesFree(a, '\n') && EntriesFree(b, '\n') && a.metadata == b.metadata
    requires ManifestText(sha, a) == ManifestText(sha, b)
    ensures multiset(Entries(sha, a)) == multiset(Entries(sha, b))
  {
    var f, g := ManifestFields(a.metadata, EntryText(sha, a)), ManifestFields(b.metadata, EntryText(sha, b));
    JoinSnoc(f, '|');
    JoinSnoc(g, '|');
    assert f[..5] == g[..5];
    DropLead(Join(f[..5], '|') + "|", f[5], g[5]);
    TagsFree(sha, a, '\n');
    TagsFree(sha, b, '\n');
    NoEmptyEntry(sha, a);
    NoEmptyEntry(sha, b);
    LinesCounted(Entries(sha, a), Entries(sha, b), '\n');
    LinesCounted(Entries(sha, b), Entries(sha, a), '\n');
  }

  lemma AcceptedIsLossless(sha: Sha, coerce: string -> string, b: AirgapBundle, verify: Option<ControlReceipt -> bool>)
    requires HexOutput(sha) && EntriesFree(b, '\n') && b.manifestDigest == Manifest(sha, b)
    requires CollisionFree(sha, BundleTexts(sha, b) + BundleTexts(sha, Transported(coerce, b)))
    requires ImportAccepts(sha, Some(Transported(coerce, b)), verify)
    ensures Lossless(coerce, b.blobs)
  {
    var b' := Transported(coerce, b);
    var texts := BundleTexts(sha, b) + BundleTexts(sha, b');
    DigestInjective(sha, texts, ManifestText(sha, b), ManifestText(sha, b'));
    SameMetadataBinds(sha, b, b');
    EntriesByTag(sha, b, b');
    BlobTagsBind(sha, b.blobs, b'.blobs, texts);
    forall d | d in b.blobs ensures coerce(b.blobs[d]) == b.blobs[d] {
      assert b'.blobs[d] == coerce(b.blobs[d]);
    }
  }

  lemma LosslessIsUnchanged(coerce: string -> string, b: AirgapBundle)
    requires Lossless(coerce, b.blobs)
    ensures Transported(coerce, b) == b
  {
    assert Transported(coerce, b).blobs == b.blobs;
  }

  /** A bundle as an export leaves it. */
  ghost predicate Sealed(sha: Sha, b: AirgapBundle, source: map<string, string>) {
    b.blobs == BundledBlobs(b.envelopes, source) && b.manifestDigest == Manifest(sha, b)
  }

  lemma ExportSeals(sha: Sha, subject: SubjectRef, evaluations: seq<ClaimEvaluation>, receipts: seq<ControlReceipt>,
                    envelopes: seq<EvidenceEnvelope>, source: map<string, string>, now: int)
    ensures var b := Exported(sha, subject, evaluations, receipts, envelopes, source, now);
            b.receipts == receipts && b.envelopes == envelopes && Sealed(sha, b, source)
  {
    ManifestIgnoresItself(sha, Exported(sha, subject, evaluations, receipts, envelopes, source, now), "");
  }

  /** The import of an export is accepted if and only if its receipts verify and every bundled
      payload survives JSON, that is, is valid UTF-8. */
  lemma TransferAccepted(sha: Sha, coerce: string -> string, b: AirgapBundle, source: map<string, string>,
                         verify: Option<ControlReceipt -> bool>)
    requires HexOutput(sha) && EntriesFree(b, '\n') && Sealed(sha, b, source)
    requires CollisionFree(sha, BundleTexts(sha, b) + BundleTexts(sha, Transported(coerce, b)))
    ensures ImportAccepts(sha, Some(Transported(coerce, b)), verify) <==>
            ReceiptsVerify(b.receipts, verify) && Lossless(coerce, b.blobs)
    ensures ImportAccepts(sha, Some(Transported(coerce, b)), verify) ==> Transported(coerce, b) == b
  {
    if ImportAccepts(sha, Some(Transported(coerce, b)), verify) {
      AcceptedIsLossless(sha, coerce, b, verify);
    }
    if Lossless(coerce, b.blobs) {
      LosslessIsUnchanged(coerce, b);
    }
  }

  ghost function AsSet(envelopes: seq<EvidenceEnvelope>): set<EvidenceEnvelope> {
    set e | e in envelopes
  }

  /** Every text that ends up hashed or stored when the envelopes are put. */
  ghost function PutTexts(c: Codec, s: StoreState, envelopes: seq<EvidenceEnvelope>,
                          blobs: map<string, string>): set<string>
  {
    Contents(s.blobs) + (set e | e in envelopes :: c.encode(e)) + (set e | e in envelopes :: BlobFor(blobs, e))
  }

  /** What putting a list of envelopes into a valid store s leaves behind. */
  ghost predicate Landed(c: Codec, s: StoreState, envelopes: seq<EvidenceEnvelope>, blobs: map<string, string>,
                         t: StoreState)
  {
    && Valid(c, t)
    && t.envelopes.Values == s.envelopes.Values + AsSet(envelopes)
    && (forall e :: e in envelopes ==> ComputeDigest(c.sha, BlobFor(blobs, e)) in t.blobs)
    && Contents(t.blobs) <= PutTexts(c, s, envelopes, blobs)
  }

  lemma {:induction false} PutAllLands(c: Codec, s: StoreState, envelopes: seq<EvidenceEnvelope>,
                                       blobs: map<string, string>)
    requires Valid(c, s) && Distinguishes(c, s.envelopes.Values + AsSet(envelopes))
    ensures Landed(c, s, envelopes, blobs, PutAll(c, s, envelopes, blobs))
  {
    if envelopes == [] {
      assert AsSet(envelopes) == {};
    } else {
      var n := |envelopes| - 1;
      assert envelopes == envelopes[..n] + [envelopes[n]];
      DistinguishesSubset(c, s.envelopes.Values + AsSet(envelopes[..n]), s.envelopes.Values + AsSet(envelopes));
      PutAllLands(c, s, envelopes[..n], blobs);
      LandOne(c, s, envelopes[..n], blobs, PutAll(c, s, envelopes[..n], blobs), envelopes[n]);
    }
  }

  lemma LandOne(c: Codec, s: StoreState, before: seq<EvidenceEnvelope>, blobs: map<string, string>, t: StoreState,
                e: EvidenceEnvelope)
    requires Landed(c, s, before, blobs, t) && Distinguishes(c, s.envelopes.Values + AsSet(before + [e]))
    ensures Landed(c, s, before + [e], blobs, Stored(c, t, e, Some(BlobFor(blobs, e))))
  {
    var u := Stored(c, t, e, Some(BlobFor(blobs, e)));
    OneMore(c, s, before, blobs, e);
    LandOneValid(c, t, e, Some(BlobFor(blobs, e)), s.envelopes.Values + AsSet(before + [e]));
    LandOneBlobs(c, t, e, BlobFor(blobs, e));
    LandsFrom(c, s, before, blobs, t, e, u);
  }

  lemma LandsFrom(c: Codec, s: StoreState, before: seq<EvidenceEnvelope>, blobs: map<string, string>, t: StoreState,
                  e: EvidenceEnvelope,
                  u: StoreState)
    requires Landed(c, s, before, blobs, t) && Valid(c, u) && u.envelopes.Values == t.envelopes.Values + {e}
    requires ComputeDigest(c.sha, BlobFor(blobs, e)) in u.blobs && forall d :: d in t.blobs ==> d in u.blobs
    requires Contents(u.blobs) <= Contents(t.blobs) + {c.encode(e), BlobFor(blobs, e)}
    requires AsSet(before + [e]) == AsSet(before) + {e} && forall x :: x in before + [e] <==> x in before || x == e
    requires PutTexts(c, s, before, blobs) + {c.encode(e), BlobFor(blobs, e)} <= PutTexts(c, s, before + [e], blobs)
    ensures Landed(c, s, before + [e], blobs, u)
  {
  }

  lemma OneMore(c: Codec, s: StoreState, before: seq<EvidenceEnvelope>, blobs: map<string, string>, e: EvidenceEnvelope)
    ensures forall x :: x in before + [e] <==> x in before || x == e
    ensures AsSet(before + [e]) == AsSet(before) + {e}
    ensures PutTexts(c, s, before, blobs) + {c.encode(e), BlobFor(blobs, e)} <= PutTexts(c, s, before + [e], blobs)
  {
    var after := before + [e];
    assert forall x :: x in after <==> x in before || x == e;
    assert e in after;
  }

  lemma LandOneValid(c: Codec, t: StoreState, e: EvidenceEnvelope, payload: Option<string>, es: set<EvidenceEnvelope>)
    requires Valid(c, t) && Distinguishes(c, es) && t.envelopes.Values <= es && e in es
    ensures Valid(c, Stored(c, t, e, payload)) && Stored(c, t, e, payload).envelopes.Values == t.envelopes.Values + {e}
  {
    if c.Key(e) in t.envelopes {
      var f := t.envelopes[c.Key(e)];
      assert f in t.envelopes.Values;
      KeyInjective(c, es, e, f);
    }
    PutKeepsValid(c, t, e, payload);
    PutValues(t.envelopes, c.Key(e), e);
  }

  lemma LandOneBlobs(c: Codec, t: StoreState, e: EvidenceEnvelope, payload: string)
    ensures var u := Stored(c, t, e, Some(payload));
            && ComputeDigest(c.sha, payload) in u.blobs
            && (forall d :: d in t.blobs ==> d in u.blobs)
            && Contents(u.blobs) <= Contents(t.blobs) + {c.encode(e), payload}
  {
  }

  /** What an air-gap transfer leaves behind: a valid target that holds its own envelopes and the
      bundled ones and no others, lists the ID of each bundled envelope under its subject, and holds
      the source's bytes for each bundled artifact the source held. */
  ghost predicate Transferred(c: Codec, source: map<string, string>, before: StoreState, envelopes: seq<EvidenceEnvelope>,
                              after: StoreState)
  {
    && Valid(c, after)
    && after.envelopes.Values == before.envelopes.Values + AsSet(envelopes)
    && (forall e, r :: e in envelopes && IsListing(after, e.subject, r) ==> e.id in IDs(r))
    && (forall e :: e in envelopes && e.artifact.digest != "" && e.artifact.digest in source ==>
          e.artifact.digest in after.blobs && after.blobs[e.artifact.digest] == source[e.artifact.digest])
  }

  /** An air-gap transfer preserves evidence. */
  lemma TransferPreserves(c: Codec, source: StoreState, target: StoreState, envelopes: seq<EvidenceEnvelope>)
    requires Valid(c, source) && Valid(c, target)
    requires Distinguishes(c, target.envelopes.Values + AsSet(envelopes))
    requires CollisionFree(c.sha, Contents(source.blobs) + PutTexts(c, target, envelopes, BundledBlobs(envelopes, source.blobs)))
    ensures Transferred(c, source.blobs, target, envelopes, PutAll(c, target, envelopes, BundledBlobs(envelopes, source.blobs)))
  {
    var blobs := BundledBlobs(envelopes, source.blobs);
    var after := PutAll(c, target, envelopes, blobs);
    PutAllLands(c, target, envelopes, blobs);
    forall e, r | e in envelopes && IsListing(after, e.subject, r) ensures e.id in IDs(r) {
      StoredIsScanned(after, e);
    }
    forall e | e in envelopes && e.artifact.digest != "" && e.artifact.digest in source.blobs
      ensures e.artifact.digest in after.blobs && after.blobs[e.artifact.digest] == source.blobs[e.artifact.digest]
    {
      SameBytes(c, source.blobs, target, envelopes, after, e);
    }
  }

  lemma StoredIsScanned(s: StoreState, e: EvidenceEnvelope)
    requires e in s.envelopes.Values
    ensures e.id in ScanIDs(s, e.subject)
  {
    var d :| d in s.envelopes && s.envelopes[d] == e;
  }

  lemma SameBytes(c: Codec, source: map<string, string>, target: StoreState, envelopes: seq<EvidenceEnvelope>,
                  after: StoreState, e: EvidenceEnvelope)
    requires ContentAddressed(c.sha, source) && Landed(c, target, envelopes, BundledBlobs(envelopes, source), after)
    requires CollisionFree(c.sha, Contents(source) + PutTexts(c, target, envelopes, BundledBlobs(envelopes, source)))
    requires e in envelopes && e.artifact.digest != "" && e.artifact.digest in source
    ensures e.artifact.digest in after.blobs && after.blobs[e.artifact.digest] == source[e.artifact.digest]
  {
    var d, blobs := e.artifact.digest, BundledBlobs(envelopes, source);
    assert d in blobs && BlobFor(blobs, e) == source[d];
    assert ComputeDigest(c.sha, source[d]) == d == ComputeDigest(c.sha, after.blobs[d]);
    var texts := Contents(source) + PutTexts(c, target, envelopes, blobs);
    assert source[d] in Contents(source) && after.blobs[d] in Contents(after.blobs);
    DigestInjective(c.sha, texts, source[d], after.blobs[d]);
  }

  /** SHA-256 and the JSON text of envelopes confuse nothing that a transfer hashes. */
  ghost predicate Dependable(c: Codec, coerce: string -> string, b: AirgapBundle, source: StoreState, target: StoreState) {
    && HexOutput(c.sha) && EntriesFree(b, '\n')
    && CollisionFree(c.sha, BundleTexts(c.sha, b) + BundleTexts(c.sha, Transported(coerce, b)))
    && Distinguishes(c, target.envelopes.Values + AsSet(b.envelopes))
    && CollisionFree(c.sha, Contents(source.blobs) + PutTexts(c, target, b.envelopes, b.blobs))
  }

  /** What import makes of a store. */
  ghost function AfterImport(c: Codec, s: StoreState, b: AirgapBundle, accepted: bool): StoreState {
    if accepted then PutAll(c, s, b.envelopes, b.blobs) else s
  }

  method ImportOver(c: Codec, b: AirgapBundle, target: EvidenceRepository, verify: Option<ControlReceipt -> bool>)
    returns (outcome: ImportOutcome)
    requires target.codec == c
    modifies target
    ensures outcome.Imported? <==> ImportAccepts(c.sha, Some(b), verify)
    ensures outcome.Imported? ==> outcome.bundle == b
    ensures target.State() == AfterImport(c, old(target.State()), b, outcome.Imported?)
  {
    outcome := ImportBundle(c, Some(b), target, verify);
  }

  lemma TransferOutcome(c: Codec, coerce: string -> string, b: AirgapBundle, source: StoreState, target: StoreState,
                        verify: Option<ControlReceipt -> bool>)
    requires Valid(c, source) && Valid(c, target) && Dependable(c, coerce, b, source, target) && Sealed(c.sha, b, source.blobs)
    ensures ImportAccepts(c.sha, Some(Transported(coerce, b)), verify) <==>
            ReceiptsVerify(b.receipts, verify) && Lossless(coerce, b.blobs)
    ensures ImportAccepts(c.sha, Some(Transported(coerce, b)), verify) ==> Transported(coerce, b) == b
    ensures ImportAccepts(c.sha, Some(Transported(coerce, b)), verify) ==>
              Transferred(c, source.blobs, target, b.envelopes, AfterImport(c, target, Transported(coerce, b), true))
  {
    TransferAccepted(c.sha, coerce, b, source.blobs, verify);
    TransferPreserves(c, source, target, b.envelopes);
  }

  /** Carrying an exported bundle over and importing it. */
  method Deliver(c: Codec, coerce: string -> string, bundle: AirgapBundle, ghost source: StoreState,
                 target: EvidenceRepository, verify: Option<ControlReceipt -> bool>)
    returns (outcome: ImportOutcome)
    requires target.codec == c && Valid(c, source) && Valid(c, target.State())
    requires Dependable(c, coerce, bundle, source, target.State()) && Sealed(c.sha, bundle, source.blobs)
    modifies target
    ensures outcome.Imported? <==> ReceiptsVerify(bundle.receipts, verify) && Lossless(coerce, bundle.blobs)
    ensures outcome.Imported? ==> outcome.bundle == bundle
    ensures outcome.Imported? ==> Transferred(c, source.blobs, old(target.State()), bundle.envelopes, target.State())
    ensures !outcome.Imported? ==> target.State() == old(target.State())
  {
    TransferOutcome(c, coerce, bundle, source, target.State(), verify);
    outcome := ImportOver(c, Transported(coerce, bundle), target, verify);
  }

  /** Export from one repository, carry the JSON over, import into another: the target either
      receives everything, exactly when receipts verify and payloads survive JSON, or stays as it was. */
  method Transfer(c: Codec, coerce: string -> string, subject: SubjectRef, evaluations: seq<ClaimEvaluation>,
                  receipts: seq<ControlReceipt>, envelopes: seq<EvidenceEnvelope>,
                  source: EvidenceRepository, target: EvidenceRepository, now: int, verify: Option<ControlReceipt -> bool>)
    returns (outcome: ImportOutcome)
    requires target.codec == c && Valid(c, source.State()) && Valid(c, target.State())
    requires Dependable(c, coerce, Exported(c.sha, subject, evaluations, receipts, envelopes, source.blobs, now),
                        source.State(), target.State())
    modifies target
    ensures outcome.Imported? <==>
            ReceiptsVerify(receipts, verify) && Lossless(coerce, BundledBlobs(envelopes, old(source.blobs)))
    ensures outcome.Imported? ==>
              Transferred(c, old(source.blobs), old(target.State()), envelopes, target.State())
    ensures outcome.Imported? ==>
              && Carries(c.sha, outcome.bundle, subject, evaluations, receipts, envelopes, now)
              && HoldsCited(outcome.bundle, old(source.blobs))
    ensures !outcome.Imported? ==> target.State() == old(target.State())
  {
    var bundle := ExportBundle(c.sha, subject, evaluations, receipts, envelopes, source, now);
    ExportSeals(c.sha, subject, evaluations, receipts, envelopes, source.blobs, now);
    outcome := Deliver(c, coerce, bundle, source.State(), target, verify);
  }
}
