// The archive container: a cleartext signed header, and an encrypted body whose
// digest the header records. Create writes one into a seekable file; Open reads
// one back and decides, in a fixed order, what is wrong with it.
module Containers {
  import opened Wrappers
  import opened Bytes
  import opened Aead
  import opened ArchiveCodes
  import opened Files
  import opened FrameLanguage
  import opened FrameFormat
  import opened FrameWriting
  import opened FrameReading
  import opened HeaderJson
  import opened Strings
  import opened TarReading
  import Manifests
  import Entries

  const FORMAT_MAGIC := "waiveo-archive"
  const FORMAT_VERSION := "1.0"
  const FORMAT_MAJOR := 1
  const KDF_ALGORITHM := "argon2id"
  const MAX_HEADER := 0x10_0000
  const DEFAULT_FRAME_SIZE := 0x10_0000
  const SIGNATURE_SIZE := 64
  const SIGNER_SIZE := 64

  datatype Kdf = Kdf(memoryKiB: nat, iterations: nat, parallelism: nat)
  datatype KdfHeader = KdfHeader(algorithm: string, salt: string, cost: Kdf)

  datatype Header = Header(
    format: string,
    version: string,
    kdf: KdfHeader,
    baseNonce: string,
    digest: string,
    signature: string,
    signerKeyId: string)

  // The only fields consulted before the signature has verified.
  datatype Preamble = Preamble(format: string, version: string, signature: string)

  // Text a JSON encoder writes as it stands: printable ASCII but for the quote, the
  // backslash and the three characters HTML gives a meaning.
  predicate Unescaped(t: string) {
    forall i :: 0 <= i < |t| ==> ' ' <= t[i] <= '~' && t[i] !in "\"\\<>&"
  }

  datatype Keys = Keys(body: bytes, wrap: bytes)

  // ---- Everything the container is built from and does not define ----

  datatype Suite = Suite(
    hash: bytes -> string,
    b64: bytes -> string,
    unb64: string -> Option<bytes>,
    cipher: bytes -> Cipher,
    derive: (string, Kdf, bytes) -> Keys,
    sign: (bytes, bytes) -> bytes,
    publicOf: bytes -> bytes,
    verify: (bytes, bytes, bytes) -> bool,
    render: Header -> bytes,
    preamble: bytes -> Option<Preamble>,
    decode: bytes -> Option<Header>,
    tree: bytes -> Option<Json>,
    numeral: nat -> string,
    marshal: Value -> bytes,
    manifest: Manifests.Codec,
    archiver: Archiver)
  {
    // Round trips, fixed widths and the lawful cipher. Nothing is assumed of
    // signatures: Create checks its own.
    ghost predicate Lawful() {
      && (forall b {:trigger hash(b)} :: Manifests.HexDigest(hash(b)))
      && (forall b {:trigger b64(b)} :: unb64(b64(b)) == Some(b) && Unescaped(b64(b)))
      && (forall b, b' {:trigger b64(b), b64(b')} :: |b| == |b'| ==> |b64(b)| == |b64(b')|)
      && (forall k {:trigger cipher(k)} :: cipher(k).Lawful())
      && (forall k, m {:trigger sign(k, m)} :: |sign(k, m)| == SIGNATURE_SIZE)
      && (forall h {:trigger render(h)} ::
            && |render(h)| > 0
            && preamble(render(h)) == Some(Preamble(h.format, h.version, h.signature))
            && decode(render(h)) == Some(h)
            && tree(render(h)) == Some(Tree(h)))
      && (forall h, h' {:trigger render(h), render(h')} :: SameShape(h, h') ==> |render(h)| == |render(h')|)
      && manifest.Lawful()
      && archiver.Lawful()
    }

    // Headers that differ only in the text of two members, each as long as the
    // other's and with nothing in it to escape.
    predicate SameShape(h: Header, h': Header) {
      && h.(digest := "", signature := "") == h'.(digest := "", signature := "")
      && |h.digest| == |h'.digest| && Unescaped(h.digest) && Unescaped(h'.digest)
      && |h.signature| == |h'.signature| && Unescaped(h.signature) && Unescaped(h'.signature)
    }

    // The header's document.
    function Tree(h: Header): Json {
      Obj([
        Member("format", Scalar(Text(h.format))),
        Member("archive_format_version", Scalar(Text(h.version))),
        Member("kdf", Obj([
          Member("algorithm", Scalar(Text(h.kdf.algorithm))),
          Member("salt", Scalar(Text(h.kdf.salt))),
          Member("memory_kib", Scalar(Number(numeral(h.kdf.cost.memoryKiB)))),
          Member("iterations", Scalar(Number(numeral(h.kdf.cost.iterations)))),
          Member("parallelism", Scalar(Number(numeral(h.kdf.cost.parallelism))))])),
        Member("base_nonce", Scalar(Text(h.baseNonce))),
        Member("digest", Scalar(Text(h.digest))),
        Member(SIGNATURE, Scalar(Text(h.signature))),
        Member("signer_key_id", Scalar(Text(h.signerKeyId)))])
    }
  }

  // What is signed does not depend on the signature: the canonical form is the
  // same with the placeholder and with the real one.
  lemma SignatureSignsItselfOut(s: Suite, h: Header, signature: string)
    ensures Canonical(s.marshal, s.Tree(h)).Some?
    ensures Canonical(s.marshal, s.Tree(h.(signature := signature))) == Canonical(s.marshal, s.Tree(h))
  {
    var j, k := s.Tree(h), s.Tree(h.(signature := signature));
    TreeIsClean(s, h);
    TreeIsClean(s, h.(signature := signature));
    assert k.members == j.members[5 := Member(SIGNATURE, Scalar(Text(signature)))];
    SignatureIsOutOfScope(j.members, 5, Scalar(Text(signature)));
  }

  lemma TreeIsClean(s: Suite, h: Header)
    ensures DupFree(s.Tree(h))
  {
    var kdf := s.Tree(h).members[2].value;
    assert DupFree(kdf);
  }

  // ---- Reading ----

  datatype Outcome =
    | Opened(manifest: Manifests.Manifest, entries: seq<Entries.Entry>)
    | Rejected(code: Code)
    | Broken  // a signed header or body its own exporter produced wrongly

  // The header and the bytes after it, or None for a file too short, or whose
  // declared header is empty or implausibly long.
  function HeaderRegion(file: bytes): Option<(bytes, bytes)> {
    if |file| < LENGTH_SIZE then None
    else
      var n := FromBigEndian(file[..LENGTH_SIZE]);
      if n == 0 || n > MAX_HEADER || |file| < LENGTH_SIZE + n then None
      else Some((file[LENGTH_SIZE..LENGTH_SIZE + n], file[LENGTH_SIZE + n..]))
  }

  function MajorOf(version: string): Option<int> {
    var parts := Split(version, '.');
    if |parts| != 2 then None
    else
      match (ParseInt(parts[0]), ParseInt(parts[1]))
      case (Some(major), Some(minor)) => if major >= 0 && minor >= 0 then Some(major) else None
      case _ => None
  }

  ghost predicate SignatureVerifies(s: Suite, headerJson: bytes, signature: string, pub: bytes) {
    && s.unb64(signature).Some?
    && s.tree(headerJson).Some?
    && Canonical(s.marshal, s.tree(headerJson).value).Some?
    && s.verify(pub, Canonical(s.marshal, s.tree(headerJson).value).value, s.unb64(signature).value)
  }

  predicate ValidKdf(k: Kdf) {
    k.iterations > 0 && k.parallelism > 0 && k.memoryKiB >= 8 * k.parallelism
  }

  predicate IsHex(d: string) {
    forall i :: 0 <= i < |d| ==> '0' <= d[i] <= '9' || 'a' <= d[i] <= 'f' || 'A' <= d[i] <= 'F'
  }

  // The salt and base nonce of an authenticated header, if all of its crypto
  // material is usable.
  function CryptoOf(s: Suite, h: Header): Option<(bytes, Base)> {
    match (s.unb64(h.kdf.salt), s.unb64(h.baseNonce))
    case (Some(salt), Some(base)) =>
      if && h.kdf.algorithm == KDF_ALGORITHM && salt != [] && |base| == NONCE_SIZE
         && |h.digest| == 64 && IsHex(h.digest) && h.signerKeyId != "" && ValidKdf(h.kdf.cost)
      then Some((salt, base)) else None
    case _ => None
  }

  // What must hold of a header before any byte of the body is read.
  datatype Gate = Pass(header: Header, salt: bytes, base: Base) | Stop(outcome: Outcome)

  // The checks on the header, in their fixed order: format, then version, then
  // signature, and only then anything else the header says.
  ghost function HeaderGate(s: Suite, headerJson: bytes, pub: bytes): Gate {
    match s.preamble(headerJson)
    case None => Stop(Rejected(FormatUnrecognized))
    case Some(pre) =>
      if pre.format != FORMAT_MAGIC then Stop(Rejected(FormatUnrecognized))
      else if MajorOf(pre.version) != Some(FORMAT_MAJOR) then Stop(Rejected(VersionUnsupported))
      else if !SignatureVerifies(s, headerJson, pre.signature, pub) then Stop(Rejected(SignatureInvalid))
      else
        match s.decode(headerJson)
        case None => Stop(Broken)
        case Some(h) =>
          match CryptoOf(s, h)
          case None => Stop(Broken)
          case Some((salt, base)) => Pass(h, salt, base)
  }

  ghost function BodyReading(s: Suite, h: Header, salt: bytes, base: Base, passphrase: string, body: bytes): Reading {
    Judge(s.cipher(s.derive(passphrase, h.kdf.cost, salt).body), base, s.hash, h.digest, body)
  }

  // What a decrypted stream of entries amounts to: refused at the first entry that
  // may not stand, else broken if it cannot be read to its end, else judged whole.
  ghost function EntriesOutcome(s: Suite, plain: bytes): Outcome {
    var listing := s.archiver.unpack(plain);
    if Entries.Doomed(s.manifest, s.hash, listing.entries) then Rejected(ManifestInvalid)
    else if !listing.complete then Broken
    else if Entries.WellFormed(s.manifest, s.hash, listing.entries)
    then Opened(Manifests.Parsed(s.manifest, listing.entries[0].body).value, listing.entries)
    else Rejected(ManifestInvalid)
  }

  // The one outcome of opening a file. A refusal of the body outranks whatever
  // the decompressor or the entry reader made of what it was handed.
  ghost function Outcomes(s: Suite, file: bytes, passphrase: string, pub: bytes): Outcome {
    match HeaderRegion(file)
    case None => Rejected(FormatUnrecognized)
    case Some((headerJson, body)) =>
      match HeaderGate(s, headerJson, pub)
      case Stop(outcome) => outcome
      case Pass(h, salt, base) => BodyOutcome(s, h, salt, base, passphrase, body)
  }

  ghost function BodyOutcome(s: Suite, h: Header, salt: bytes, base: Base, passphrase: string, body: bytes): Outcome {
    var r := BodyReading(s, h, salt, base, passphrase, body);
    match r.verdict
    case Refused(code) => Rejected(code)
    case Accepted => EntriesOutcome(s, r.plain)
  }

  // The outcome when the file cannot be read past these bytes. Within the header that
  // is a file not recognized; past it, the error itself or what is found wrong first.
  ghost function BrokenOutcomes(s: Suite, file: bytes, passphrase: string, pub: bytes): Outcome {
    match HeaderRegion(file)
    case None => Rejected(FormatUnrecognized)
    case Some((headerJson, body)) =>
      match HeaderGate(s, headerJson, pub)
      case Stop(outcome) => outcome
      case Pass(h, salt, base) => BrokenBodyOutcome(s, h, salt, base, passphrase, body)
  }

  ghost function BrokenBodyOutcome(
    s: Suite, h: Header, salt: bytes, base: Base, passphrase: string, body: bytes): (o: Outcome)
    ensures o in {Rejected(SourceFailed), Rejected(DecryptFailed), Rejected(Truncated)}
  {
    Rejected(ScanBroken(Framed(s.cipher(s.derive(passphrase, h.kdf.cost, salt).body), base), 0, body).verdict.code)
  }

  method ReadGate(s: Suite, headerJson: bytes, pub: bytes) returns (gate: Gate)
    ensures gate == HeaderGate(s, headerJson, pub)
  {
    var pre := s.preamble(headerJson);
    if pre.None? || pre.value.format != FORMAT_MAGIC { return Stop(Rejected(FormatUnrecognized)); }
    if MajorOf(pre.value.version) != Some(FORMAT_MAJOR) { return Stop(Rejected(VersionUnsupported)); }
    var ok := VerifyHeaderSignature(s, headerJson, pre.value.signature, pub);
    if !ok { return Stop(Rejected(SignatureInvalid)); }
    var header := s.decode(headerJson);
    if header.None? { return Stop(Broken); }
    var crypto := CryptoOf(s, header.value);
    if crypto.None? { return Stop(Broken); }
    return Pass(header.value, crypto.value.0, crypto.value.1);
  }

  method VerifyHeaderSignature(s: Suite, headerJson: bytes, signature: string, pub: bytes) returns (ok: bool)
    ensures ok == SignatureVerifies(s, headerJson, signature, pub)
  {
    var sig := s.unb64(signature);
    if sig.None? { return false; }
    var signed := CanonicalSignedHeader(s.marshal, s.tree(headerJson));
    if signed.None? { return false; }
    return s.verify(pub, signed.value, sig.value);
  }

  // Opens a file; `breaks` tells whether reading fails where its bytes end instead of
  // finding the end there. `ahead` is how far the decompressor happens to read ahead before
  // each entry; the entries' reader stops at the end marker or at the first entry
  // it refuses, wherever in the body that is, and the outcome depends on neither.
  method Open(s: Suite, file: bytes, breaks: bool, passphrase: string, pub: bytes, ahead: nat -> seq<nat>)
    returns (outcome: Outcome)
    requires s.archiver.Streams()
    ensures !breaks ==> outcome == Outcomes(s, file, passphrase, pub)
    ensures breaks ==> outcome == BrokenOutcomes(s, file, passphrase, pub) && !outcome.Opened?
  {
    var region := HeaderRegion(file);
    if region.None? { return Rejected(FormatUnrecognized); }
    var gate := ReadGate(s, region.value.0, pub);
    if gate.Stop? { return gate.outcome; }
    outcome := OpenBody(s, gate.header, gate.salt, gate.base, region.value.1, breaks, passphrase, ahead);
  }

  // What is behind an accepted header.
  method OpenBody(
    s: Suite, h: Header, salt: bytes, base: Base, encrypted: bytes, breaks: bool, passphrase: string,
    ahead: nat -> seq<nat>)
    returns (outcome: Outcome)
    requires s.archiver.Streams()
    ensures outcome == if breaks then BrokenBodyOutcome(s, h, salt, base, passphrase, encrypted)
                       else BodyOutcome(s, h, salt, base, passphrase, encrypted)
  {
    var keys := s.derive(passphrase, h.kdf.cost, salt);
    var body := new FrameReader(encrypted, breaks, s.cipher(keys.body), base, s.hash, h.digest);
    var tar := new TarReader(s.archiver, body);
    var parsed := ReadEntries(s, tar, ahead);
    var verdict := body.Finish();
    if verdict.Refused? { return Rejected(verdict.code); }
    return parsed;
  }

  // Reads entry by entry, and no further than it must.
  method ReadEntries(s: Suite, tar: TarReader, ahead: nat -> seq<nat>) returns (outcome: Outcome)
    requires tar.Valid() && tar.count == 0 && tar.archiver == s.archiver
    modifies tar, tar.body
    ensures tar.Valid()
    ensures tar.body.Whole().verdict == Accepted ==> outcome == EntriesOutcome(s, tar.body.Whole().plain)
  {
    var checker := new Entries.EntryChecker(s.manifest, s.hash);
    var end := TakeEntries(checker, tar, ahead);
    match end {
      case RefusedEarly => return Rejected(ManifestInvalid);
      case BrokenOff => return Broken;
      case Ended =>
        var m := checker.Conclude();
        return if m.Some? then Opened(m.value, checker.entries) else Rejected(ManifestInvalid);
    }
  }

  // How taking entries ended.
  datatype End = RefusedEarly | BrokenOff | Ended

  method TakeEntries(checker: Entries.EntryChecker, tar: TarReader, ahead: nat -> seq<nat>) returns (end: End)
    requires tar.Valid() && tar.count == 0 && checker.Valid() && checker.entries == []
    modifies tar, tar.body, checker
    ensures tar.Valid()
    ensures end == RefusedEarly ==> Entries.Doomed(checker.c, checker.hash, tar.All().entries)
    ensures end == Ended ==> checker.Valid()
    ensures end == Ended && tar.body.Whole().verdict == Accepted ==>
      checker.entries == tar.All().entries && tar.All().complete
    ensures end == BrokenOff && tar.body.Whole().verdict == Accepted ==>
      !Entries.Doomed(checker.c, checker.hash, tar.All().entries) && !tar.All().complete
  {
    while true
      invariant tar.Valid() && checker.Valid()
      invariant checker.entries == tar.All().entries[..tar.count]
      decreases |tar.All().entries| - tar.count
    {
      ghost var all, n := tar.All().entries, tar.count;
      var next := tar.Advance(ahead(tar.count));
      assert n == |all| ==> all[..n] == all;
      match next {
        case Unreadable => return BrokenOff;
        case EndOfArchive => return Ended;
        case Found(e) =>
          assert all[..n] + [e] == all[..n + 1];
          var ok := checker.Take(e);
          if !ok {
            Entries.DoomedStays(checker.c, checker.hash, all[..n + 1], all);
            return RefusedEarly;
          }
      }
    }
  }

  // ---- Writing ----

  datatype Options = Options(passphrase: string, signer: bytes, signerKeyId: string, kdf: Kdf, frameSize: int)

  type WrapKey = Option<bytes -> Option<string>>

  function KdfOf(opt: Options): Kdf {
    if opt.kdf == Kdf(0, 0, 0) then Kdf(256 * 1024, 3, 4) else opt.kdf
  }

  function FrameSizeOf(opt: Options): nat {
    if opt.frameSize <= 0 then DEFAULT_FRAME_SIZE else opt.frameSize
  }

  // A destroyed key is as long as a real one and all zeros.
  predicate UsableSigner(signer: bytes) {
    |signer| == SIGNER_SIZE && exists i :: 0 <= i < |signer| && signer[i] != 0
  }

  predicate UsableOptions(opt: Options) {
    UsableSigner(opt.signer) && opt.signerKeyId != "" && opt.passphrase != "" && ValidKdf(KdfOf(opt))
  }

  function KeysOf(s: Suite, opt: Options, salt: bytes): Keys {
    s.derive(opt.passphrase, KdfOf(opt), salt)
  }

  function Wrapped(s: Suite, wrap: WrapKey, opt: Options, salt: bytes): Option<string> {
    if wrap.None? then None else wrap.value(KeysOf(s, opt, salt).wrap)
  }

  // The header with the given digest and signature.
  function HeaderOf(s: Suite, opt: Options, salt: bytes, base: Base, digest: string, signature: string): Header {
    Header(FORMAT_MAGIC, FORMAT_VERSION, KdfHeader(KDF_ALGORITHM, s.b64(salt), KdfOf(opt)),
           s.b64(base), digest, signature, opt.signerKeyId)
  }

  const PLACEHOLDER_DIGEST: string := seq(64, _ => '0')
  const ZERO_SIGNATURE: bytes := seq(SIGNATURE_SIZE, _ => 0)

  // The entries a source's archive carries.
  function BodyEntriesOf(s: Suite, src: Entries.Source, m: Manifests.Manifest): seq<Entries.Entry>
    requires Entries.Yields(src.snapshot)
    requires Entries.AllCarried(src, Entries.EmbeddedOf(src.assets)) &&
      Entries.RefsValid(Entries.EmbeddedOf(src.assets))
  {
    Entries.Fixed(s.manifest.render(m), src) + Entries.AssetEntries(src, Entries.EmbeddedOf(src.assets))
  }

  // The encrypted body of a list of entries.
  function EncryptedBody(s: Suite, opt: Options, salt: bytes, base: Base, entries: seq<Entries.Entry>): bytes {
    EncodeBody(Framed(s.cipher(KeysOf(s, opt, salt).body), base), Concat(s.archiver.pack(entries)), FrameSizeOf(opt))
  }

  // The signature of a header over everything but itself, if it verifies under
  // the signer's own public half.
  ghost function SignatureOf(s: Suite, signer: bytes, header: Header): Option<bytes> {
    match Canonical(s.marshal, s.Tree(header))
    case None => None
    case Some(signed) =>
      var sig := s.sign(signer, signed);
      if s.verify(s.publicOf(signer), signed, sig) then Some(sig) else None
  }

  function Prefixed(headerJson: bytes): bytes {
    BigEndian(|headerJson|, LENGTH_SIZE) + headerJson
  }

  // What a source and options must offer for a container to be written at all.
  ghost predicate Offered(s: Suite, src: Entries.Source, wrap: WrapKey, opt: Options, salt: bytes) {
    && UsableOptions(opt)
    && Wrapped(s, wrap, opt, salt).Some?
    && Entries.Buildable(src, Wrapped(s, wrap, opt, salt).value)
    && Entries.RefsValid(Entries.EmbeddedOf(src.assets))
    && Entries.Yields(src.snapshot)
    && Entries.AllCarried(src, Entries.EmbeddedOf(src.assets))
  }

  ghost function OfferedBody(s: Suite, src: Entries.Source, wrap: WrapKey, opt: Options, salt: bytes, base: Base): bytes
    requires Offered(s, src, wrap, opt, salt)
  {
    var m := Entries.Assembled(src, Wrapped(s, wrap, opt, salt).value);
    EncryptedBody(s, opt, salt, base, BodyEntriesOf(s, src, m))
  }

  ghost function OfferedSignature(
    s: Suite, src: Entries.Source, wrap: WrapKey, opt: Options, salt: bytes, base: Base): Option<bytes>
    requires Offered(s, src, wrap, opt, salt)
  {
    var body := OfferedBody(s, src, wrap, opt, salt, base);
    SignatureOf(s, opt.signer, HeaderOf(s, opt, salt, base, s.hash(body), s.b64(ZERO_SIGNATURE)))
  }

  // The container a source and options make: the finished header, then the body
  // whose hash it records.
  ghost function ContainerOf(s: Suite, src: Entries.Source, wrap: WrapKey, opt: Options, salt: bytes, base: Base): bytes
    requires Offered(s, src, wrap, opt, salt) && OfferedSignature(s, src, wrap, opt, salt, base).Some?
  {
    var body := OfferedBody(s, src, wrap, opt, salt, base);
    var sig := OfferedSignature(s, src, wrap, opt, salt, base).value;
    Prefixed(s.render(HeaderOf(s, opt, salt, base, s.hash(body), s.b64(sig)))) + body
  }

  // Writes one container at the file's position, in a single forward pass and a
  // rewrite of the header in place. `early` is what the compressor has put out by the
  // time an entry fails, if one does. The file is never touched but for one stretch
  // from where it stood.
  method Create(
    s: Suite, dst: File, src: Entries.Source, wrap: WrapKey, opt: Options, salt: bytes, base: Base, early: seq<bytes>)
    returns (ok: bool)
    requires s.Lawful()
    modifies dst
    ensures ok <==>
      && Offered(s, src, wrap, opt, salt) && OfferedSignature(s, src, wrap, opt, salt, base).Some?
      && dst.failures == old(dst.failures)
    ensures ok ==>
      var container := ContainerOf(s, src, wrap, opt, salt, base);
      && Holds(dst.data, old(dst.data), old(dst.cursor), container)
      && dst.cursor == old(dst.cursor) + |container|
    ensures Touched(dst.data, old(dst.data), old(dst.cursor))
    ensures Head(dst.data, old(dst.cursor)) == Head(old(dst.data), old(dst.cursor))
  {
    ghost var original, failures := dst.data, dst.failures;
    var start := dst.cursor;
    var m := Plan(s, src, wrap, opt, salt);
    if m.None? { return false; }
    ok := dst.Seek(start);
    if !ok { return false; }
    var placeholder := HeaderOf(s, opt, salt, base, PLACEHOLDER_DIGEST, s.b64(ZERO_SIGNATURE));
    var body := FirstPass(s, dst, opt, salt, base, placeholder, m.value, src, early);
    TouchedKeepsHead(dst.data, original, start);
    if body.None? { return false; }
    assert body.value == OfferedBody(s, src, wrap, opt, salt, base);
    ok := Finish(s, dst, original, start, opt.signer, placeholder, body.value);
    TouchedKeepsHead(dst.data, original, start);
  }

  // The first pass: a header of the right length, and the body after it.
  method FirstPass(
    s: Suite, dst: File, opt: Options, salt: bytes, base: Base, placeholder: Header,
    m: Manifests.Manifest, src: Entries.Source, early: seq<bytes>)
    returns (body: Option<bytes>)
    requires src.assets == m.assets && Entries.Openable(src) && Entries.RefsValid(m.assets)
    modifies dst
    ensures Entries.RefsValid(Entries.EmbeddedOf(src.assets))
    ensures body.Some? <==>
      && Entries.Yields(src.snapshot) && Entries.AllCarried(src, Entries.EmbeddedOf(src.assets))
      && dst.failures == old(dst.failures)
    ensures body.Some? ==>
      && body.value == EncryptedBody(s, opt, salt, base, BodyEntriesOf(s, src, m))
      && var w := Prefixed(s.render(placeholder)) + body.value;
         Holds(dst.data, old(dst.data), old(dst.cursor), w) && dst.cursor == old(dst.cursor) + |w|
    ensures Touched(dst.data, old(dst.data), old(dst.cursor))
    ensures dst.failures >= old(dst.failures)
  {
    ghost var original, start := dst.data, dst.cursor;
    var ok := WriteHeader(dst, s.render(placeholder));
    if !ok {
      Entries.EmbeddedRefsValid(src.assets);
      return None;
    }
    body := WriteBody(s, dst, original, start, Prefixed(s.render(placeholder)), opt, salt, base, m, src, early);
  }

  // The second pass: with the body behind it, fill in the two header fields that
  // could not be known before, and write the header again over the placeholder.
  method Finish(
    s: Suite, dst: File, ghost original: bytes, start: nat, signer: bytes, placeholder: Header, body: bytes)
    returns (ok: bool)
    requires s.Lawful()
    requires placeholder.digest == PLACEHOLDER_DIGEST && placeholder.signature == s.b64(ZERO_SIGNATURE)
    requires var w := Prefixed(s.render(placeholder)) + body;
      Holds(dst.data, original, start, w) && dst.cursor == start + |w|
    modifies dst
    ensures var digested := placeholder.(digest := s.hash(body));
      && (ok <==> SignatureOf(s, signer, digested).Some? && dst.failures == old(dst.failures))
      && (ok ==>
            var w := Prefixed(s.render(digested.(signature := s.b64(SignatureOf(s, signer, digested).value)))) + body;
            Holds(dst.data, original, start, w) && dst.cursor == start + |w|)
      && (SignatureOf(s, signer, digested).None? ==> dst.data == old(dst.data))
    ensures Touched(dst.data, original, start)
    ensures dst.failures >= old(dst.failures)
  {
    var header := placeholder.(digest := s.hash(body));
    var sig := SignHeader(s, signer, header);
    if sig.None? { return false; }
    header := header.(signature := s.b64(sig.value));
    SameWidths(s, placeholder, header, sig.value);
    if |s.render(header)| != |s.render(placeholder)| { return false; }
    ok := Rewrite(dst, original, start, s.render(placeholder), s.render(header), body);
  }

  // The checks that come before anything is written, and the manifest.
  method Plan(s: Suite, src: Entries.Source, wrap: WrapKey, opt: Options, salt: bytes)
    returns (m: Option<Manifests.Manifest>)
    ensures m.Some? <==>
      && UsableOptions(opt)
      && Wrapped(s, wrap, opt, salt).Some?
      && Entries.Buildable(src, Wrapped(s, wrap, opt, salt).value)
    ensures m.Some? ==> m.value == Entries.Assembled(src, Wrapped(s, wrap, opt, salt).value)
  {
    if !UsableOptions(opt) { return None; }
    var keys := s.derive(opt.passphrase, KdfOf(opt), salt);
    if wrap.None? { return None; }
    var wrapped := wrap.value(keys.wrap);
    if wrapped.None? { return None; }
    m := Entries.BuildManifest(src, wrapped.value);
  }

  // Collects the entries and drives them through the frame writer, in whatever
  // pieces the compressor emits.
  method WriteBody(
    s: Suite, dst: File, ghost original: bytes, ghost start: nat, ghost before: bytes,
    opt: Options, salt: bytes, base: Base, m: Manifests.Manifest, src: Entries.Source, early: seq<bytes>)
    returns (body: Option<bytes>)
    requires src.assets == m.assets && Entries.Openable(src) && Entries.RefsValid(m.assets)
    requires Holds(dst.data, original, start, before) && dst.cursor == start + |before|
    modifies dst
    ensures Entries.RefsValid(Entries.EmbeddedOf(src.assets))
    ensures body.Some? <==>
      && Entries.Yields(src.snapshot) && Entries.AllCarried(src, Entries.EmbeddedOf(src.assets))
      && dst.failures == old(dst.failures)
    ensures body.Some? ==>
      && body.value == EncryptedBody(s, opt, salt, base, BodyEntriesOf(s, src, m))
      && Holds(dst.data, original, start, before + body.value) && dst.cursor == start + |before + body.value|
    ensures Touched(dst.data, original, start)
    ensures dst.failures >= old(dst.failures)
  {
    var keys := s.derive(opt.passphrase, KdfOf(opt), salt);
    var w := new FrameWriter(dst, s.cipher(keys.body), base, FrameSizeOf(opt), original, start, before);
    var entries := Entries.BodyEntries(s.manifest.render(m), m, src);
    var ok := Feed(w, if entries.Some? then s.archiver.pack(entries.value) else early);
    if !ok || entries.None? { return None; }
    ok := w.Close();
    if !ok { return None; }
    return Some(w.out);
  }

  // What the packer writes, piece by piece, through the frame writer.
  method Feed(w: FrameWriter, pieces: seq<bytes>) returns (ok: bool)
    requires w.Valid() && !w.closed && w.written == []
    modifies w, w.dst
    ensures ok ==> w.Valid() && !w.closed && w.written == Concat(pieces)
    ensures w.Placed()
    ensures w.dst.failures == old(w.dst.failures) + if ok then 0 else 1
  {
    for i := 0 to |pieces|
      invariant w.Valid() && !w.closed && w.written == Concat(pieces[..i])
      invariant w.dst.failures == old(w.dst.failures)
    {
      ConcatUpTo(pieces, i);
      ok := FeedOne(w, pieces[i]);
      if !ok { return; }
    }
    assert pieces[..|pieces|] == pieces;
    return true;
  }

  lemma ConcatUpTo(pieces: seq<bytes>, i: nat)
    requires i < |pieces|
    ensures Concat(pieces[..i + 1]) == Concat(pieces[..i]) + pieces[i]
  {
    assert pieces[..i + 1] == pieces[..i] + [pieces[i]];
    ConcatAppend(pieces[..i], pieces[i]);
  }

  method FeedOne(w: FrameWriter, piece: bytes) returns (ok: bool)
    requires w.Valid() && !w.closed
    modifies w, w.dst
    ensures ok ==> w.Valid() && !w.closed && w.written == old(w.written) + piece
    ensures w.Placed()
    ensures w.dst.failures == old(w.dst.failures) + if ok then 0 else 1
  {
    var n: nat;
    n, ok := w.Write(piece);
    if ok { assert piece[..n] == piece; }
  }

  method SignHeader(s: Suite, signer: bytes, header: Header) returns (sig: Option<bytes>)
    requires s.Lawful()
    ensures sig == SignatureOf(s, signer, header)
  {
    assert s.tree(s.render(header)) == Some(s.Tree(header));
    var signed := CanonicalSignedHeader(s.marshal, s.tree(s.render(header)));
    if signed.None? { return None; }
    var made := s.sign(signer, signed.value);
    return if s.verify(s.publicOf(signer), signed.value, made) then Some(made) else None;
  }

  method WriteHeader(dst: File, headerJson: bytes) returns (ok: bool)
    modifies dst
    ensures ok ==> dst.cursor == old(dst.cursor) + |Prefixed(headerJson)|
    ensures ok ==> Holds(dst.data, old(dst.data), old(dst.cursor), Prefixed(headerJson))
    ensures Touched(dst.data, old(dst.data), old(dst.cursor))
    ensures dst.failures == old(dst.failures) + if ok then 0 else 1
  {
    ghost var original, start := dst.data, dst.cursor;
    var length := BigEndian(|headerJson|, LENGTH_SIZE);
    var n, done := dst.Write(length);
    OverwriteTouches(original, start, length[..n]);
    if !done { return false; }
    assert length[..n] == length;
    n, ok := dst.Write(headerJson);
    HoldsAppend(Overwrite(original, start, length), original, start, length, headerJson[..n]);
    assert ok ==> headerJson[..n] == headerJson;
  }

  // Puts the final header over the placeholder, and the cursor back at the end.
  method Rewrite(dst: File, ghost original: bytes, start: nat, ghost was: bytes, final: bytes, ghost body: bytes)
    returns (ok: bool)
    requires |final| == |was|
    requires Holds(dst.data, original, start, Prefixed(was) + body) && dst.cursor == start + |Prefixed(was) + body|
    modifies dst
    ensures ok ==> Holds(dst.data, original, start, Prefixed(final) + body)
    ensures ok ==> dst.cursor == start + |Prefixed(final) + body|
    ensures Touched(dst.data, original, start)
    ensures dst.failures == old(dst.failures) + if ok then 0 else 1
  {
    var end := dst.cursor;
    ok := dst.Seek(end);
    if !ok { return; }
    ok := dst.Seek(start + LENGTH_SIZE);
    if !ok { return; }
    ghost var data := dst.data;
    var n, done := dst.Write(final);
    RewrittenSoFar(data, original, start, was, final, body, n);
    if !done { return false; }
    ok := dst.Seek(end);
  }

  // With the first n bytes of the final header over the placeholder's.
  lemma RewrittenSoFar(
    data: bytes, original: bytes, start: nat, was: bytes, final: bytes, body: bytes, n: nat)
    requires |final| == |was| && n <= |final| && Holds(data, original, start, Prefixed(was) + body)
    ensures var after := Overwrite(data, start + LENGTH_SIZE, final[..n]);
      && Touched(after, original, start)
      && (n == |final| ==> Holds(after, original, start, Prefixed(final) + body))
    ensures |Prefixed(final) + body| == |Prefixed(was) + body|
  {
    Mixed(data, original, start, was, final, body, n);
    if n == |final| { AllMixed(was, final); }
  }

  lemma Mixed(data: bytes, original: bytes, start: nat, was: bytes, final: bytes, body: bytes, n: nat)
    requires |final| == |was| && n <= |final| && Holds(data, original, start, Prefixed(was) + body)
    ensures Holds(Overwrite(data, start + LENGTH_SIZE, final[..n]), original, start,
              BigEndian(|was|, LENGTH_SIZE) + (final[..n] + was[n..]) + body)
  {
    var length := BigEndian(|was|, LENGTH_SIZE);
    SplitAt(length, was, body, n);
    HoldsRewrite(data, original, start, length, was[..n], final[..n], was[n..] + body);
    Regrouped(length, final[..n], was[n..], body);
  }

  lemma SplitAt(a: bytes, b: bytes, c: bytes, n: nat)
    requires n <= |b|
    ensures a + b[..n] + (b[n..] + c) == a + b + c
  {
    assert b[..n] + b[n..] == b;
    Regrouped(a, b[..n], b[n..], c);
  }

  lemma Regrouped(a: bytes, b: bytes, c: bytes, d: bytes)
    ensures a + b + (c + d) == a + (b + c) + d
  {
  }

  lemma AllMixed(was: bytes, final: bytes)
    requires |final| == |was|
    ensures BigEndian(|was|, LENGTH_SIZE) + (final[..|final|] + was[|final|..]) == Prefixed(final)
  {
  }

  lemma HexIsUnescaped(d: string)
    requires Manifests.HexDigest(d)
    ensures Unescaped(d)
  {
  }

  // The finished header is as long as the placeholder: a digest is 64 hex digits,
  // a signature the base64 of 64 bytes, and neither needs escaping.
  lemma SameWidths(s: Suite, h: Header, h': Header, sig: bytes)
    requires s.Lawful() && Manifests.HexDigest(h'.digest) && |sig| == SIGNATURE_SIZE
    requires h.digest == PLACEHOLDER_DIGEST && h.signature == s.b64(ZERO_SIGNATURE)
    requires h' == h.(digest := h'.digest, signature := s.b64(sig))
    ensures |s.render(h)| == |s.render(h')|
  {
    HexIsUnescaped(h.digest);
    HexIsUnescaped(h'.digest);
    assert |ZERO_SIGNATURE| == |sig|;
    assert s.SameShape(h, h');
  }
}
