// What holds of the container as a whole: what becomes of a created container
// when it is opened, intact, cut, extended or altered.
module ContainerTheorems {
  import opened Wrappers
  import opened Bytes
  import opened Aead
  import opened ArchiveCodes
  import opened Files
  import opened FrameLanguage
  import opened FrameFormat
  import opened HeaderJson
  import opened Strings
  import opened TarReading
  import opened Containers
  import Manifests
  import Entries

  const SALT_SIZE := 16

  lemma OwnVersionIsSupported()
    ensures MajorOf(FORMAT_VERSION) == Some(FORMAT_MAJOR)
  {
    assert "0"[1..] == "" && ['0'] + "" == "0";
    assert Split("0", '.') == ["0"];
    assert ".0"[1..] == "0" && FORMAT_VERSION[1..] == ".0";
    assert Split(".0", '.') == ["", "0"];
    assert ['1'] + "" == "1";
    assert Split(FORMAT_VERSION, '.') == ["1", "0"];
    assert ParseInt("1") == Some(1) && ParseInt("0") == Some(0);
  }

  // A header of a length a reader will read is split from the body after it.
  lemma RegionReadsBack(headerJson: bytes, body: bytes)
    requires 0 < |headerJson| < Radix(LENGTH_SIZE)
    ensures HeaderRegion(Prefixed(headerJson) + body) ==
      if |headerJson| > MAX_HEADER then None else Some((headerJson, body))
  {
    var file := Prefixed(headerJson) + body;
    assert file[..LENGTH_SIZE] == BigEndian(|headerJson|, LENGTH_SIZE);
    BigEndianRoundTrip(|headerJson|, LENGTH_SIZE);
    assert file[LENGTH_SIZE..LENGTH_SIZE + |headerJson|] == headerJson;
    assert file[LENGTH_SIZE + |headerJson|..] == body;
  }

  ghost function FinalHeader(
    s: Suite, src: Entries.Source, wrap: WrapKey, opt: Options, salt: bytes, base: Base): Header
    requires Offered(s, src, wrap, opt, salt) && OfferedSignature(s, src, wrap, opt, salt, base).Some?
  {
    HeaderOf(s, opt, salt, base, s.hash(OfferedBody(s, src, wrap, opt, salt, base)),
      s.b64(OfferedSignature(s, src, wrap, opt, salt, base).value))
  }

  // The header Create leaves passes every check Open makes of a header.
  lemma OwnHeaderPasses(s: Suite, src: Entries.Source, wrap: WrapKey, opt: Options, salt: bytes, base: Base)
    requires s.Lawful() && |salt| == SALT_SIZE
    requires Offered(s, src, wrap, opt, salt) && OfferedSignature(s, src, wrap, opt, salt, base).Some?
    ensures var h := FinalHeader(s, src, wrap, opt, salt, base);
      HeaderGate(s, s.render(h), s.publicOf(opt.signer)) == Pass(h, salt, base)
  {
    var h := FinalHeader(s, src, wrap, opt, salt, base);
    var digested := h.(signature := s.b64(ZERO_SIGNATURE));
    var sig := OfferedSignature(s, src, wrap, opt, salt, base).value;
    assert SignatureOf(s, opt.signer, digested) == Some(sig);
    SignatureSignsItselfOut(s, digested, h.signature);
    assert h == digested.(signature := h.signature);
    assert s.tree(s.render(h)) == Some(s.Tree(h));
    assert s.unb64(h.signature) == Some(sig);
    assert SignatureVerifies(s, s.render(h), h.signature, s.publicOf(opt.signer));
    OwnVersionIsSupported();
    HeaderMaterial(s, opt, salt, base, h);
  }

  lemma HeaderMaterial(s: Suite, opt: Options, salt: bytes, base: Base, h: Header)
    requires s.Lawful() && salt != [] && UsableOptions(opt) && Manifests.HexDigest(h.digest)
    requires h == HeaderOf(s, opt, salt, base, h.digest, h.signature)
    ensures CryptoOf(s, h) == Some((salt, base))
  {
    assert s.unb64(s.b64(salt)) == Some(salt) && s.unb64(s.b64(base)) == Some(base);
  }

  // The plaintext of the body: the packed entries.
  ghost function PlainOf(s: Suite, src: Entries.Source, wrap: WrapKey, opt: Options, salt: bytes): bytes
    requires Offered(s, src, wrap, opt, salt)
  {
    Concat(s.archiver.pack(BodyEntriesOf(s, src, Entries.Assembled(src, Wrapped(s, wrap, opt, salt).value))))
  }

  // A lawful suite, and a source and options for which Create makes a container
  // whose two length prefixes hold what they should.
  ghost predicate Created(s: Suite, src: Entries.Source, wrap: WrapKey, opt: Options, salt: bytes, base: Base) {
    && s.Lawful() && |salt| == SALT_SIZE
    && Offered(s, src, wrap, opt, salt) && OfferedSignature(s, src, wrap, opt, salt, base).Some?
    && |s.render(FinalHeader(s, src, wrap, opt, salt, base))| < Radix(LENGTH_SIZE)
    && FirstFrame(PlainOf(s, src, wrap, opt, salt), FrameSizeOf(opt)) + OVERHEAD < Radix(LENGTH_SIZE)
  }

  // What opening a container Create wrote comes to, for every source and every
  // option. It opens, to the writer's own manifest and entries, exactly when the
  // header is short enough, the frames are small enough, and the asset store
  // really is content-addressed; and otherwise it is refused for the first of
  // these that fails.
  lemma CreatedContainerOpens(s: Suite, src: Entries.Source, wrap: WrapKey, opt: Options, salt: bytes, base: Base)
    requires Created(s, src, wrap, opt, salt, base)
    ensures Entries.RefsValid(src.assets)
    ensures var m := Entries.Assembled(src, Wrapped(s, wrap, opt, salt).value);
      Outcomes(s, ContainerOf(s, src, wrap, opt, salt, base), opt.passphrase, s.publicOf(opt.signer)) ==
        if |s.render(FinalHeader(s, src, wrap, opt, salt, base))| > MAX_HEADER then Rejected(FormatUnrecognized)
        else if FirstFrame(PlainOf(s, src, wrap, opt, salt), FrameSizeOf(opt)) > MAX_CHUNK then Rejected(DecryptFailed)
        else if !Entries.Addressed(s.hash, src) then Rejected(ManifestInvalid)
        else Opened(m, BodyEntriesOf(s, src, m))
  {
    var h := FinalHeader(s, src, wrap, opt, salt, base);
    var body := OfferedBody(s, src, wrap, opt, salt, base);
    RegionReadsBack(s.render(h), body);
    OwnHeaderPasses(s, src, wrap, opt, salt, base);
    var plain := PlainOf(s, src, wrap, opt, salt);
    var cipher := s.cipher(KeysOf(s, opt, salt).body);
    assert body == EncodeBody(Framed(cipher, base), plain, FrameSizeOf(opt));
    WrittenBodyReadsBack(cipher, base, plain, FrameSizeOf(opt), s.hash, s.hash(body));
    OwnEntriesAreRead(s, src, wrap, opt, salt);
  }

  lemma OwnEntriesAreRead(s: Suite, src: Entries.Source, wrap: WrapKey, opt: Options, salt: bytes)
    requires s.Lawful() && Offered(s, src, wrap, opt, salt)
    ensures Entries.RefsValid(src.assets)
    ensures var m := Entries.Assembled(src, Wrapped(s, wrap, opt, salt).value);
      EntriesOutcome(s, PlainOf(s, src, wrap, opt, salt)) ==
        if Entries.Addressed(s.hash, src) then Opened(m, BodyEntriesOf(s, src, m)) else Rejected(ManifestInvalid)
  {
    var wrapped := Wrapped(s, wrap, opt, salt).value;
    var m := Entries.Assembled(src, wrapped);
    var entries := BodyEntriesOf(s, src, m);
    assert s.archiver.unpack(PlainOf(s, src, wrap, opt, salt)) == Listing(entries, true);
    Entries.WrittenEntriesAreRead(s.manifest, s.hash, src, wrapped);
    if Entries.Addressed(s.hash, src) { Entries.NeverDoomed(s.manifest, s.hash, entries); }
  }

  // Under the writer's own header a file's outcome is decided by its body.
  lemma UnderOwnHeader(
    s: Suite, src: Entries.Source, wrap: WrapKey, opt: Options, salt: bytes, base: Base, file: bytes, body: bytes)
    requires Created(s, src, wrap, opt, salt, base)
    requires |s.render(FinalHeader(s, src, wrap, opt, salt, base))| <= MAX_HEADER
    requires file == Prefixed(s.render(FinalHeader(s, src, wrap, opt, salt, base))) + body
    ensures var r := Judge(s.cipher(KeysOf(s, opt, salt).body), base, s.hash,
                           FinalHeader(s, src, wrap, opt, salt, base).digest, body);
      Outcomes(s, file, opt.passphrase, s.publicOf(opt.signer)) ==
        if r.verdict.Refused? then Rejected(r.verdict.code) else EntriesOutcome(s, r.plain)
  {
    RegionReadsBack(s.render(FinalHeader(s, src, wrap, opt, salt, base)), body);
    OwnHeaderPasses(s, src, wrap, opt, salt, base);
  }

  lemma CutInside(c: bytes, head: bytes, body: bytes, cut: nat)
    requires c == head + body && |head| <= cut <= |c|
    ensures c[..cut] == head + body[..cut - |head|]
  {
  }

  // A file cut within its header region has none.
  lemma RegionIsWhole(headerJson: bytes, body: bytes, cut: nat)
    requires 0 < |headerJson| < Radix(LENGTH_SIZE) && cut < |Prefixed(headerJson)|
    ensures HeaderRegion((Prefixed(headerJson) + body)[..cut]) == None
  {
    var file := (Prefixed(headerJson) + body)[..cut];
    if cut >= LENGTH_SIZE {
      assert file[..LENGTH_SIZE] == BigEndian(|headerJson|, LENGTH_SIZE);
      BigEndianRoundTrip(|headerJson|, LENGTH_SIZE);
    }
  }

  // And one whose header is over the cap has none either, however much follows.
  lemma RegionIsCapped(headerJson: bytes, file: bytes)
    requires MAX_HEADER < |headerJson| < Radix(LENGTH_SIZE)
    requires |file| >= LENGTH_SIZE && file[..LENGTH_SIZE] == BigEndian(|headerJson|, LENGTH_SIZE)
    ensures HeaderRegion(file) == None
  {
    BigEndianRoundTrip(|headerJson|, LENGTH_SIZE);
  }

  lemma CutBodyOutcome(
    s: Suite, src: Entries.Source, wrap: WrapKey, opt: Options, salt: bytes, base: Base, file: bytes, k: nat)
    requires Created(s, src, wrap, opt, salt, base)
    requires |s.render(FinalHeader(s, src, wrap, opt, salt, base))| <= MAX_HEADER
    requires k < |OfferedBody(s, src, wrap, opt, salt, base)|
    requires file == Prefixed(s.render(FinalHeader(s, src, wrap, opt, salt, base)))
                     + OfferedBody(s, src, wrap, opt, salt, base)[..k]
    ensures Outcomes(s, file, opt.passphrase, s.publicOf(opt.signer)) ==
      Rejected(if FirstFrame(PlainOf(s, src, wrap, opt, salt), FrameSizeOf(opt)) > MAX_CHUNK && k >= LENGTH_SIZE
               then DecryptFailed else Truncated)
  {
    var h := FinalHeader(s, src, wrap, opt, salt, base);
    UnderOwnHeader(s, src, wrap, opt, salt, base, file, OfferedBody(s, src, wrap, opt, salt, base)[..k]);
    CutBodyIsTruncated(s.cipher(KeysOf(s, opt, salt).body), base, PlainOf(s, src, wrap, opt, salt), FrameSizeOf(opt), k,
      s.hash, h.digest);
  }

  // A created container cut anywhere at all. Within its header, or under a header
  // no reader takes, it is not recognized; past it, truncated; but for a container
  // no reader could decrypt whole, which is found out by its first frame's length.
  lemma CutContainerIsTruncated(
    s: Suite, src: Entries.Source, wrap: WrapKey, opt: Options, salt: bytes, base: Base, cut: nat)
    requires Created(s, src, wrap, opt, salt, base)
    requires cut < |ContainerOf(s, src, wrap, opt, salt, base)|
    ensures var head := Prefixed(s.render(FinalHeader(s, src, wrap, opt, salt, base)));
      Outcomes(s, ContainerOf(s, src, wrap, opt, salt, base)[..cut], opt.passphrase, s.publicOf(opt.signer)) ==
        Rejected(
          if cut < |head| || |head| - LENGTH_SIZE > MAX_HEADER then FormatUnrecognized
          else if FirstFrame(PlainOf(s, src, wrap, opt, salt), FrameSizeOf(opt)) > MAX_CHUNK &&
            cut - |head| >= LENGTH_SIZE
          then DecryptFailed
          else Truncated)
  {
    var json := s.render(FinalHeader(s, src, wrap, opt, salt, base));
    var head, body := Prefixed(json), OfferedBody(s, src, wrap, opt, salt, base);
    var c := ContainerOf(s, src, wrap, opt, salt, base);
    if cut < |head| {
      RegionIsWhole(json, body, cut);
    } else {
      CutInside(c, head, body, cut);
      if |json| > MAX_HEADER {
        LengthComesFirst(json, body[..cut - |head|]);
        RegionIsCapped(json, c[..cut]);
      } else {
        CutBodyOutcome(s, src, wrap, opt, salt, base, c[..cut], cut - |head|);
      }
    }
  }

  lemma LengthComesFirst(headerJson: bytes, body: bytes)
    ensures (Prefixed(headerJson) + body)[..LENGTH_SIZE] == BigEndian(|headerJson|, LENGTH_SIZE)
  {
  }

  // And with anything appended.
  lemma ExtendedContainerIsTruncated(
    s: Suite, src: Entries.Source, wrap: WrapKey, opt: Options, salt: bytes, base: Base, tail: bytes)
    requires Created(s, src, wrap, opt, salt, base) && tail != []
    ensures
      Outcomes(s, ContainerOf(s, src, wrap, opt, salt, base) + tail, opt.passphrase, s.publicOf(opt.signer)) ==
        Rejected(
          if |s.render(FinalHeader(s, src, wrap, opt, salt, base))| > MAX_HEADER then FormatUnrecognized
          else if FirstFrame(PlainOf(s, src, wrap, opt, salt), FrameSizeOf(opt)) > MAX_CHUNK then DecryptFailed
          else Truncated)
  {
    var h := FinalHeader(s, src, wrap, opt, salt, base);
    var body := OfferedBody(s, src, wrap, opt, salt, base);
    Assoc(Prefixed(s.render(h)), body, tail);
    if |s.render(h)| > MAX_HEADER {
      LengthComesFirst(s.render(h), body + tail);
      RegionIsCapped(s.render(h), ContainerOf(s, src, wrap, opt, salt, base) + tail);
    } else {
      ExtendedBodyOutcome(s, src, wrap, opt, salt, base, ContainerOf(s, src, wrap, opt, salt, base) + tail, tail);
    }
  }

  lemma ExtendedBodyOutcome(
    s: Suite, src: Entries.Source, wrap: WrapKey, opt: Options, salt: bytes, base: Base, file: bytes, tail: bytes)
    requires Created(s, src, wrap, opt, salt, base) && tail != []
    requires |s.render(FinalHeader(s, src, wrap, opt, salt, base))| <= MAX_HEADER
    requires file == Prefixed(s.render(FinalHeader(s, src, wrap, opt, salt, base)))
                     + (OfferedBody(s, src, wrap, opt, salt, base) + tail)
    ensures Outcomes(s, file, opt.passphrase, s.publicOf(opt.signer)) ==
      Rejected(if FirstFrame(PlainOf(s, src, wrap, opt, salt), FrameSizeOf(opt)) > MAX_CHUNK
        then DecryptFailed else Truncated)
  {
    UnderOwnHeader(s, src, wrap, opt, salt, base, file, OfferedBody(s, src, wrap, opt, salt, base) + tail);
    ExtendedBodyIsTruncated(s.cipher(KeysOf(s, opt, salt).body), base, PlainOf(s, src, wrap, opt, salt),
      FrameSizeOf(opt), tail, s.hash, FinalHeader(s, src, wrap, opt, salt, base).digest);
  }

  lemma HeldAtStart(data: bytes, original: bytes, start: nat, w: bytes)
    requires Holds(data, original, start, w) && w != []
    ensures Tail(data, start) == w + Tail(original, start + |w|)
    ensures Tail(original, start + |w|) == [] <==> |original| <= start + |w|
  {
    var h, t := Head(original, start), Tail(original, start + |w|);
    Assoc(h, w, t);
    assert (h + (w + t))[|h|..] == w + t;
  }

  // A container created in the middle of a file and opened where it begins.
  // Nothing cuts the file off behind it, so if the file was longer the old bytes
  // follow the container and it is refused; and only then do they make any
  // difference.
  lemma CreatedInAFileOpens(
    s: Suite, src: Entries.Source, wrap: WrapKey, opt: Options, salt: bytes, base: Base,
    data: bytes, original: bytes, start: nat)
    requires Created(s, src, wrap, opt, salt, base)
    requires Holds(data, original, start, ContainerOf(s, src, wrap, opt, salt, base))
    ensures var c := ContainerOf(s, src, wrap, opt, salt, base);
      Outcomes(s, Tail(data, start), opt.passphrase, s.publicOf(opt.signer)) ==
        if |original| <= start + |c| then Outcomes(s, c, opt.passphrase, s.publicOf(opt.signer))
        else Rejected(
          if |s.render(FinalHeader(s, src, wrap, opt, salt, base))| > MAX_HEADER then FormatUnrecognized
          else if FirstFrame(PlainOf(s, src, wrap, opt, salt), FrameSizeOf(opt)) > MAX_CHUNK then DecryptFailed
          else Truncated)
  {
    var c := ContainerOf(s, src, wrap, opt, salt, base);
    HeldAtStart(data, original, start, c);
    var left := Tail(original, start + |c|);
    if left == [] {
      assert c + [] == c;
    } else {
      ExtendedContainerIsTruncated(s, src, wrap, opt, salt, base, left);
    }
  }

  // Whatever body stands under an accepted header, it opens only if it hashes to
  // the digest that header records: no other body does, under any passphrase.
  lemma ForeignBodyNeverOpens(s: Suite, headerJson: bytes, body: bytes, passphrase: string, pub: bytes)
    requires s.Lawful()
    requires HeaderRegion(Prefixed(headerJson) + body) == Some((headerJson, body))
    requires HeaderGate(s, headerJson, pub).Pass?
    requires s.hash(body) != HeaderGate(s, headerJson, pub).header.digest
    ensures var o := Outcomes(s, Prefixed(headerJson) + body, passphrase, pub);
      o in {Rejected(Truncated), Rejected(DecryptFailed), Rejected(SignatureInvalid)}
  {
    var gate := HeaderGate(s, headerJson, pub);
    var cipher := s.cipher(s.derive(passphrase, gate.header.kdf.cost, gate.salt).body);
    AcceptedExactly(cipher, gate.base, s.hash, gate.header.digest, body);
    RefusalsAreOfThreeKinds(Framed(cipher, gate.base), 0, body, false);
  }

  lemma {:induction false} RefusalsAreOfThreeKinds(w: Framer, index: nat, src: bytes, digestOk: bool)
    ensures Scan(w, index, src, digestOk).verdict in
      {Accepted, Refused(Truncated), Refused(DecryptFailed), Refused(SignatureInvalid)}
    decreases |src|
  {
    var step := w.read(index, src);
    if step.Frame? && step.flag == NonFinal { RefusalsAreOfThreeKinds(w, index + 1, step.rest, digestOk); }
  }

  // Signed bytes under which an altered header passes were never signed for the
  // original.
  lemma FitsOnlyItself(s: Suite, original: Header, headerJson: bytes, name: string)
    requires s.Lawful() && Injective(s.marshal)
    requires s.tree(headerJson).Some? && s.tree(headerJson).value.Obj?
    requires name != SIGNATURE && Lookup(s.tree(headerJson).value, name) != Lookup(s.Tree(original), name)
    ensures Canonical(s.marshal, s.tree(headerJson).value).Some? ==>
      Canonical(s.marshal, s.tree(headerJson).value) != Canonical(s.marshal, s.Tree(original))
  {
    var j := s.tree(headerJson).value;
    TreeIsClean(s, original);
    if Canonical(s.marshal, j).Some? {
      SignedScopeIsEverythingElse(s.marshal, j, s.Tree(original));
    }
  }

  // A signature that verifies over other bytes than the original header's.
  ghost predicate Forged(s: Suite, original: Header, pub: bytes, msg: bytes, sig: bytes) {
    s.verify(pub, msg, sig) && Some(msg) != Canonical(s.marshal, s.Tree(original))
  }

  // A header in which any signed member was changed, added or dropped does not get
  // past the signature, or it carries a signature nobody made for the original:
  // nothing is supposed of the key, and the bytes that show it are given.
  lemma AlteredHeaderIsRefused(
    s: Suite, original: Header, headerJson: bytes, body: bytes, passphrase: string, pub: bytes, name: string)
    requires s.Lawful() && Injective(s.marshal)
    requires s.tree(headerJson).Some? && s.tree(headerJson).value.Obj?
    requires name != SIGNATURE && Lookup(s.tree(headerJson).value, name) != Lookup(s.Tree(original), name)
    requires HeaderRegion(Prefixed(headerJson) + body) == Some((headerJson, body))
    ensures
      || Outcomes(s, Prefixed(headerJson) + body, passphrase, pub) in
           {Rejected(FormatUnrecognized), Rejected(VersionUnsupported), Rejected(SignatureInvalid)}
      || (&& Canonical(s.marshal, s.tree(headerJson).value).Some?
          && s.preamble(headerJson).Some? && s.unb64(s.preamble(headerJson).value.signature).Some?
          && Forged(s, original, pub, Canonical(s.marshal, s.tree(headerJson).value).value,
               s.unb64(s.preamble(headerJson).value.signature).value))
  {
    FitsOnlyItself(s, original, headerJson, name);
  }
}
