// A container the theorems speak of: a source with an embedded asset, created and
// opened under the concrete suite.
module ToyContainers {
  import opened Wrappers
  import opened Bytes
  import opened Wires
  import opened FrameFormat
  import opened FrameLanguage
  import opened HeaderJson
  import opened Containers
  import opened ContainerTheorems
  import opened ToySuites
  import Aead
  import Manifests
  import Entries

  // ---- The source and the options ----

  function Zeros(): string { seq(64, _ => '0') }

  function Image(): Manifests.AssetEntry {
    Manifests.AssetEntry(Manifests.REF_PREFIX + Zeros(), 0, "", Manifests.Embedded)
  }

  function Empty(ref: string): Entries.Stream { Some(([], 0)) }

  // One embedded asset of no bytes, and an empty snapshot.
  function OneAsset(): Entries.Source {
    Entries.Source(1, "00000000000000000000000000", 1, [], [Image()], [], None, Empty(""), Some(Empty))
  }

  function Wrap(key: bytes): Option<string> { Some("w") }

  // A usable key, and frames of one byte.
  ghost predicate Chosen(opt: Options) {
    && UsableSigner(opt.signer) && opt.signerKeyId == "k" && opt.passphrase == "p"
    && opt.kdf == Kdf(8, 1, 1) && opt.frameSize == 1
  }

  lemma EmbeddedIsOne()
    ensures Entries.EmbeddedOf(OneAsset().assets) == [Image()]
  {
    assert OneAsset().assets[..0] == [];
  }

  lemma ImageIsValid()
    ensures Manifests.ValidAssetRef(Image().assetRef) && Image().assetRef == Manifests.REF_PREFIX + Zeros()
  {
    assert Image().assetRef[7..] == Zeros();
  }

  lemma AssetsAreValid()
    ensures Manifests.ValidAssets([Image()], Manifests.Full)
  {
    ImageIsValid();
  }

  lemma ModeIsValid(m: Manifests.Manifest)
    requires m.mode == Manifests.Full && m.baseArchive.None?
    ensures Manifests.ValidMode(m, Manifests.MembersOf(m).Keys)
  {
    assert Manifests.BaseArchive !in Manifests.REQUIRED_FIELDS;
  }

  lemma BuildableWhen(src: Entries.Source, wrapped: string)
    requires src.createdAt > 0 && src.platformSchemaEpoch > 0 && Manifests.ValidUlid(src.workspaceId) && wrapped != ""
    requires src.packs == [] && src.secretStubs == [] && src.baseArchive.None? && src.asset.Some?
    requires Manifests.ValidAssets(src.assets, Manifests.Full)
    ensures Entries.Buildable(src, wrapped)
  {
    ModeIsValid(Entries.Assembled(src, wrapped));
  }

  lemma IsBuildable()
    ensures Entries.Buildable(OneAsset(), "w")
  {
    AssetsAreValid();
    IsAUlid();
    BuildableWhen(OneAsset(), "w");
  }

  lemma IsAUlid()
    ensures Manifests.ValidUlid("00000000000000000000000000")
  {
  }

  lemma IsOffered(s: Suite, opt: Options, salt: bytes)
    requires Chosen(opt)
    ensures Offered(s, OneAsset(), Some(Wrap), opt, salt)
  {
    EmbeddedIsOne();
    ImageIsValid();
    IsBuildable();
  }

  // ---- What the suite must be ----

  ghost predicate Short(h: Header) {
    && |h.digest| <= 200 && |h.signature| <= 200 && |h.kdf.algorithm| <= 200 && |h.kdf.salt| <= 200
    && |h.format| <= 200 && |h.version| <= 200 && |h.baseNonce| <= 200 && |h.signerKeyId| <= 200
    && h.kdf.cost == Kdf(8, 1, 1)
  }

  ghost predicate Small(s: Suite) {
    && (forall p, m, sig {:trigger s.verify(p, m, sig)} :: s.verify(p, m, sig))
    && (forall b {:trigger s.b64(b)} :: |s.b64(b)| == 2 * |b|)
    && (forall b {:trigger s.hash(b)} :: s.hash(b) == Zeros())
    && (forall h {:trigger s.render(h)} :: Short(h) ==> |s.render(h)| < 10000)
  }

  lemma IsSigned(s: Suite, opt: Options, salt: bytes, base: Base)
    requires Small(s) && Offered(s, OneAsset(), Some(Wrap), opt, salt)
    ensures OfferedSignature(s, OneAsset(), Some(Wrap), opt, salt, base).Some?
  {
    var body := OfferedBody(s, OneAsset(), Some(Wrap), opt, salt, base);
    EverythingIsSigned(s, opt.signer, HeaderOf(s, opt, salt, base, s.hash(body), s.b64(ZERO_SIGNATURE)));
  }

  lemma EverythingIsSigned(s: Suite, signer: bytes, h: Header)
    requires forall p, m, sig {:trigger s.verify(p, m, sig)} :: s.verify(p, m, sig)
    ensures SignatureOf(s, signer, h).Some?
  {
    SignatureSignsItselfOut(s, h, "");
  }

  lemma HeaderIsShort(s: Suite, opt: Options, salt: bytes, base: Base, digest: string, sig: bytes)
    requires Small(s) && Chosen(opt) && |salt| == SALT_SIZE && |digest| == 64 && |sig| == SIGNATURE_SIZE
    ensures Short(HeaderOf(s, opt, salt, base, digest, s.b64(sig)))
  {
  }

  lemma SignatureIsOfSize(s: Suite, signer: bytes, h: Header)
    requires s.Lawful()
    ensures SignatureOf(s, signer, h).Some? ==> |SignatureOf(s, signer, h).value| == SIGNATURE_SIZE
  {
  }

  lemma HeaderFits(s: Suite, opt: Options, salt: bytes, base: Base)
    requires Small(s) && s.Lawful() && Chosen(opt) && |salt| == SALT_SIZE
    requires Offered(s, OneAsset(), Some(Wrap), opt, salt)
    requires OfferedSignature(s, OneAsset(), Some(Wrap), opt, salt, base).Some?
    ensures |s.render(FinalHeader(s, OneAsset(), Some(Wrap), opt, salt, base))| < 10000
  {
    var body := OfferedBody(s, OneAsset(), Some(Wrap), opt, salt, base);
    var sig := OfferedSignature(s, OneAsset(), Some(Wrap), opt, salt, base).value;
    var digest := s.hash(body);
    SignatureIsOfSize(s, opt.signer, HeaderOf(s, opt, salt, base, digest, s.b64(ZERO_SIGNATURE)));
    HeaderIsShort(s, opt, salt, base, digest, sig);
    assert FinalHeader(s, OneAsset(), Some(Wrap), opt, salt, base) == HeaderOf(s, opt, salt, base, digest, s.b64(sig));
  }

  lemma FramesAreSmall(plain: bytes, opt: Options)
    requires opt.frameSize == 1
    ensures FirstFrame(plain, FrameSizeOf(opt)) <= 1
  {
  }

  lemma IsCreated(s: Suite, opt: Options, salt: bytes, base: Base)
    requires Small(s) && s.Lawful() && Chosen(opt) && |salt| == SALT_SIZE
    ensures Created(s, OneAsset(), Some(Wrap), opt, salt, base)
  {
    IsOffered(s, opt, salt);
    IsSigned(s, opt, salt, base);
    HeaderFits(s, opt, salt, base);
    FramesAreSmall(PlainOf(s, OneAsset(), Some(Wrap), opt, salt), opt);
  }

  // ---- And is ----

  lemma {:induction false} AllWidth<T>(w: Wire<T>, xs: seq<T>, most: nat)
    requires forall i :: 0 <= i < |xs| ==> |w.put(xs[i])| <= most
    ensures |PutAll(w, xs)| <= |xs| * most
  {
    if xs != [] { AllWidth(w, xs[1..], most); }
  }

  lemma TextsAreNarrow(texts: seq<string>)
    requires |texts| == 6 && forall i :: 0 <= i < 6 ==> |texts[i]| <= 200
    ensures |Strs().put(texts)| <= 6007
  {
    forall i | 0 <= i < 6 ensures |Str().put(texts[i])| <= 1000 { StrIsAsWide(texts[i]); }
    AllWidth(Str(), texts, 1000);
    NatWidth(6);
  }

  lemma NumbersAreNarrow()
    ensures |List(Nat()).put([8, 1, 1])| <= 34
  {
    var numbers: seq<nat> := [8, 1, 1];
    forall i | 0 <= i < 3 ensures |Nat().put(numbers[i])| <= 10 { NatWidth(numbers[i]); }
    AllWidth(Nat(), numbers, 10);
    NatWidth(3);
  }

  lemma HeaderIsNarrow(h: Header)
    requires Short(h)
    ensures |HeaderWire().put(h)| < 10000
  {
    var x := HeaderTo(h);
    TextsAreNarrow(x.1.0);
    NumbersAreNarrow();
    StrIsAsWide(h.digest);
    StrIsAsWide(h.signature);
    PairWidth(Str(), Str(), h.digest, h.signature);
    PairWidth(Strs(), List(Nat()), x.1.0, x.1.1);
    PairWidth(Pair(Str(), Str()), HeaderRest(), x.0, x.1);
    AsWidth(Pair(Pair(Str(), Str()), HeaderRest()), HeaderTo, HeaderFrom, h);
  }

  lemma ToyIsSmall()
    ensures Small(Toy())
  {
    forall h ensures Short(h) ==> |Toy().render(h)| < 10000 {
      if Short(h) { HeaderIsNarrow(h); }
    }
  }

  // What the container theorems suppose can be met, and the container it is met by
  // opens to its three entries.
  lemma OneAssetIsArchived(opt: Options, salt: bytes, base: Base)
    requires Chosen(opt) && |salt| == SALT_SIZE
    ensures var s := Toy();
      && s.Lawful() && Created(s, OneAsset(), Some(Wrap), opt, salt, base)
      && var o := Outcomes(s, ContainerOf(s, OneAsset(), Some(Wrap), opt, salt, base), "p", s.publicOf(opt.signer));
         o.Opened? && o.manifest == Entries.Assembled(OneAsset(), "w") && |o.entries| == 3
  {
    ToyIsLawful();
    ToyIsSmall();
    Opens(Toy(), opt, salt, base);
  }

  lemma OneIsAddressed(hash: bytes -> string, src: Entries.Source, a: Manifests.AssetEntry)
    requires Entries.EmbeddedOf(src.assets) == [a] && Entries.Carries(src, a) && Manifests.ValidAssetRef(a.assetRef)
    requires Manifests.REF_PREFIX + hash(Entries.ContentOf(src, a)) == a.assetRef
    ensures Entries.AllCarried(src, Entries.EmbeddedOf(src.assets))
    ensures Entries.RefsValid(Entries.EmbeddedOf(src.assets))
    ensures Entries.Addressed(hash, src)
  {
  }

  lemma IsAddressed(hash: bytes -> string)
    requires forall b {:trigger hash(b)} :: hash(b) == Zeros()
    ensures Entries.AllCarried(OneAsset(), Entries.EmbeddedOf(OneAsset().assets))
    ensures Entries.RefsValid(Entries.EmbeddedOf(OneAsset().assets))
    ensures Entries.Addressed(hash, OneAsset())
  {
    EmbeddedIsOne();
    ImageIsValid();
    OneIsAddressed(hash, OneAsset(), Image());
  }

  lemma ThreeEntries(s: Suite, src: Entries.Source, m: Manifests.Manifest)
    requires Entries.Yields(src.snapshot) && |Entries.EmbeddedOf(src.assets)| == 1
    requires Entries.AllCarried(src, Entries.EmbeddedOf(src.assets))
    requires Entries.RefsValid(Entries.EmbeddedOf(src.assets))
    ensures |BodyEntriesOf(s, src, m)| == 3
  {
  }

  lemma Opens(s: Suite, opt: Options, salt: bytes, base: Base)
    requires Small(s) && s.Lawful() && Chosen(opt) && |salt| == SALT_SIZE
    ensures Created(s, OneAsset(), Some(Wrap), opt, salt, base)
    ensures var o := Outcomes(s, ContainerOf(s, OneAsset(), Some(Wrap), opt, salt, base), "p", s.publicOf(opt.signer));
      o.Opened? && o.manifest == Entries.Assembled(OneAsset(), "w") && |o.entries| == 3
  {
    IsCreated(s, opt, salt, base);
    HeaderFits(s, opt, salt, base);
    FramesAreSmall(PlainOf(s, OneAsset(), Some(Wrap), opt, salt), opt);
    IsAddressed(s.hash);
    EmbeddedIsOne();
    ThreeEntries(s, OneAsset(), Entries.Assembled(OneAsset(), "w"));
    assert Wrapped(s, Some(Wrap), opt, salt) == Some("w");
    CreatedContainerOpens(s, OneAsset(), Some(Wrap), opt, salt, base);
  }
}
