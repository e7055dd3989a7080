// A concrete suite that keeps every law the container asks of its parts, so that
// what is proved of lawful suites is not proved of nothing.
module ToySuites {
  import opened Wrappers
  import opened Bytes
  import opened FrameLanguage
  import opened HeaderJson
  import opened TarReading
  import opened ToyMarshals
  import opened Wires
  import Aead
  import Manifests
  import Entries
  import opened Containers

  // ---- Manifests ----

  type PackParts = (seq<string>, int)

  function PackTo(p: Manifests.PackLock): PackParts { ([p.packId, p.version, p.channel, p.source], p.schemaEpoch) }

  function PackFrom(x: PackParts): Manifests.PackLock {
    if |x.0| != 4 then Manifests.PackLock("", "", "", "", 0)
    else Manifests.PackLock(x.0[0], x.0[1], x.0[2], x.0[3], x.1)
  }

  function StorageWord(s: Manifests.Storage): (nat, string) {
    match s
    case Embedded => (0, "")
    case ByReference => (1, "")
    case Inherited => (2, "")
    case OtherStorage(w) => (3, w)
  }

  function StorageFrom(x: (nat, string)): Manifests.Storage {
    if x.0 == 0 then Manifests.Embedded else if x.0 == 1 then Manifests.ByReference
    else if x.0 == 2 then Manifests.Inherited else Manifests.OtherStorage(x.1)
  }

  type AssetParts = (seq<string>, (int, (nat, string)))

  function AssetTo(a: Manifests.AssetEntry): AssetParts {
    ([a.assetRef, a.contentType], (a.size, StorageWord(a.storage)))
  }

  function AssetFrom(x: AssetParts): Manifests.AssetEntry {
    if |x.0| != 2 then Manifests.AssetEntry("", 0, "", Manifests.Embedded)
    else Manifests.AssetEntry(x.0[0], x.1.0, x.0[1], StorageFrom(x.1.1))
  }

  function StubTo(s: Manifests.SecretStub): (string, string) { (s.stubId, s.wrappedValue) }

  function StubFrom(x: (string, string)): Manifests.SecretStub { Manifests.SecretStub(x.0, x.1) }

  function ModeWord(m: Manifests.Mode): (nat, string) {
    match m case Full => (0, "") case Incremental => (1, "") case OtherMode(w) => (2, w)
  }

  function ModeFrom(x: (nat, string)): Manifests.Mode {
    if x.0 == 0 then Manifests.Full else if x.0 == 1 then Manifests.Incremental else Manifests.OtherMode(x.1)
  }

  type ManifestParts = (HeadParts, TailParts)

  function ManifestTo(m: Manifests.Manifest): ManifestParts {
    ((ModeWord(m.mode), if m.baseArchive.None? then []
      else [(m.baseArchive.value.digest, m.baseArchive.value.createdAt)]),
     (([m.workspaceId, m.dataKeyWrap], [m.createdAt, m.platformSchemaEpoch]), (m.packs, (m.assets, m.secretStubs))))
  }

  function ManifestFrom(x: ManifestParts): Manifests.Manifest {
    var base := if |x.0.1| != 1 then None else Some(Manifests.BaseArchiveRef(x.0.1[0].0, x.0.1[0].1));
    var texts, numbers := if |x.1.0.0| == 2 then x.1.0.0 else ["", ""], if |x.1.0.1| == 2 then x.1.0.1 else [0, 0];
    Manifests.Manifest(numbers[0], ModeFrom(x.0.0), base, texts[0], numbers[1], x.1.1.0, x.1.1.1.0, x.1.1.1.1, texts[1])
  }

  function Strs(): Wire<seq<string>> { List(Str()) }

  function Tagged(): Wire<(nat, string)> { Pair(Nat(), Str()) }

  function PackWire(): Wire<Manifests.PackLock> { As(Pair(Strs(), Int()), PackTo, PackFrom) }

  function AssetWire(): Wire<Manifests.AssetEntry> { As(Pair(Strs(), Pair(Int(), Tagged())), AssetTo, AssetFrom) }

  function StubWire(): Wire<Manifests.SecretStub> { As(Pair(Str(), Str()), StubTo, StubFrom) }

  function BaseWire(): Wire<seq<(string, int)>> { List(Pair(Str(), Int())) }

  lemma TextsAreGood()
    ensures Good(Str()) && Good(Strs()) && Good(Tagged())
  {
    NatIsGood();
    StrIsGood();
    ListIsGood(Str());
    PairIsGood(Nat(), Str());
  }

  lemma PackWireIsGood()
    ensures Good(PackWire())
  {
    TextsAreGood();
    IntIsGood();
    PairIsGood(Strs(), Int());
    AsIsGood(Pair(Strs(), Int()), PackTo, PackFrom);
  }

  lemma AssetWireIsGood()
    ensures Good(AssetWire())
  {
    TextsAreGood();
    IntIsGood();
    PairIsGood(Int(), Tagged());
    PairIsGood(Strs(), Pair(Int(), Tagged()));
    AsIsGood(Pair(Strs(), Pair(Int(), Tagged())), AssetTo, AssetFrom);
  }

  lemma StubWireIsGood()
    ensures Good(StubWire())
  {
    StrIsGood();
    PairIsGood(Str(), Str());
    AsIsGood(Pair(Str(), Str()), StubTo, StubFrom);
  }

  lemma BaseWireIsGood()
    ensures Good(BaseWire())
  {
    StrIsGood();
    IntIsGood();
    PairIsGood(Str(), Int());
    ListIsGood(Pair(Str(), Int()));
  }

  type HeadParts = ((nat, string), seq<(string, int)>)
  type ListParts = (seq<Manifests.PackLock>, (seq<Manifests.AssetEntry>, seq<Manifests.SecretStub>))
  type TailParts = ((seq<string>, seq<int>), ListParts)

  function HeadWire(): Wire<HeadParts> { Pair(Tagged(), BaseWire()) }

  function ListsWire(): Wire<ListParts> { Pair(List(PackWire()), Pair(List(AssetWire()), List(StubWire()))) }

  function TailWire(): Wire<TailParts> { Pair(Pair(Strs(), List(Int())), ListsWire()) }

  function ManifestWire(): Wire<Manifests.Manifest> { As(Pair(HeadWire(), TailWire()), ManifestTo, ManifestFrom) }

  lemma ListsAreGood()
    ensures Good(ListsWire())
  {
    PackWireIsGood();
    AssetWireIsGood();
    StubWireIsGood();
    ListIsGood(PackWire());
    ListIsGood(AssetWire());
    ListIsGood(StubWire());
    PairIsGood(List(AssetWire()), List(StubWire()));
    PairIsGood(List(PackWire()), Pair(List(AssetWire()), List(StubWire())));
  }

  lemma TailIsGood()
    ensures Good(TailWire())
  {
    TextsAreGood();
    IntIsGood();
    ListsAreGood();
    ListIsGood(Int());
    PairIsGood(Strs(), List(Int()));
    PairIsGood(Pair(Strs(), List(Int())), ListsWire());
  }

  lemma ManifestPartsReadBack(m: Manifests.Manifest)
    ensures ManifestFrom(ManifestTo(m)) == m
  {
  }

  lemma ManifestWireIsGood()
    ensures Good(ManifestWire())
  {
    TextsAreGood();
    BaseWireIsGood();
    TailIsGood();
    PairIsGood(Tagged(), BaseWire());
    PairIsGood(HeadWire(), TailWire());
    forall m ensures ManifestFrom(ManifestTo(m)) == m { ManifestPartsReadBack(m); }
    AsIsGood(Pair(HeadWire(), TailWire()), ManifestTo, ManifestFrom);
  }

  // ---- Headers ----

  type HeaderParts = ((string, string), (seq<string>, seq<nat>))

  function HeaderTo(h: Header): HeaderParts {
    ((h.digest, h.signature),
     ([h.format, h.version, h.kdf.algorithm, h.kdf.salt, h.baseNonce, h.signerKeyId],
      [h.kdf.cost.memoryKiB, h.kdf.cost.iterations, h.kdf.cost.parallelism]))
  }

  function HeaderFrom(x: HeaderParts): Header {
    var t := if |x.1.0| == 6 then x.1.0 else ["", "", "", "", "", ""];
    var n := if |x.1.1| == 3 then x.1.1 else [0, 0, 0];
    Header(t[0], t[1], KdfHeader(t[2], t[3], Kdf(n[0], n[1], n[2])), t[4], x.0.0, x.0.1, t[5])
  }

  function HeaderRest(): Wire<(seq<string>, seq<nat>)> { Pair(Strs(), List(Nat())) }

  function HeaderWire(): Wire<Header> {
    As(Pair(Pair(Str(), Str()), HeaderRest()), HeaderTo, HeaderFrom)
  }

  lemma HeaderRestIsGood()
    ensures Good(HeaderRest())
  {
    TextsAreGood();
    NatIsGood();
    ListIsGood(Nat());
    PairIsGood(Strs(), List(Nat()));
  }

  lemma HeaderWireIsGood()
    ensures Good(HeaderWire())
  {
    TextsAreGood();
    HeaderRestIsGood();
    PairIsGood(Str(), Str());
    PairIsGood(Pair(Str(), Str()), HeaderRest());
    AsIsGood(Pair(Pair(Str(), Str()), HeaderRest()), HeaderTo, HeaderFrom);
  }

  lemma HeaderWidth(h: Header, h': Header)
    requires h.(digest := "", signature := "") == h'.(digest := "", signature := "")
    requires |h.digest| == |h'.digest| && |h.signature| == |h'.signature|
    ensures |HeaderWire().put(h)| == |HeaderWire().put(h')|
  {
    StrWidth(h.digest, h'.digest);
    StrWidth(h.signature, h'.signature);
    assert HeaderTo(h).1 == HeaderTo(h').1 by {
      assert h.(digest := "", signature := "") == h'.(digest := "", signature := "");
    }
  }

  // ---- Entries ----

  function Letter(n: nat): (c: char)
    requires n < 16
    ensures 'a' <= c <= 'p'
  {
    ('a' as int + n) as char
  }

  function LetterValue(c: char): nat {
    if 'a' <= c <= 'p' then c as int - 'a' as int else 0
  }

  predicate Letters(t: string) {
    forall i :: 0 <= i < |t| ==> 'a' <= t[i] <= 'p'
  }

  lemma LettersAreUnescaped(t: string)
    requires Letters(t)
    ensures Unescaped(t)
  {
  }

  // Bytes as letters, two to a byte.
  function Text(b: bytes): (t: string)
    ensures |t| == 2 * |b| && Letters(t)
  {
    if b == [] then "" else [Letter(b[0] / 16), Letter(b[0] % 16)] + Text(b[1..])
  }

  function Untext(t: string): bytes {
    if |t| < 2 then [] else [16 * LetterValue(t[0]) + LetterValue(t[1])] + Untext(t[2..])
  }

  lemma LettersReadBack(x: byte, rest: string)
    ensures Untext([Letter(x / 16), Letter(x % 16)] + rest) == [x] + Untext(rest)
  {
    var t := [Letter(x / 16), Letter(x % 16)] + rest;
    assert t[0] == Letter(x / 16) && t[1] == Letter(x % 16) && t[2..] == rest;
    assert LetterValue(Letter(x / 16)) == x / 16 && LetterValue(Letter(x % 16)) == x % 16;
  }

  lemma {:induction false} TextReadsBack(b: bytes)
    ensures Untext(Text(b)) == b
  {
    if b != [] {
      TextReadsBack(b[1..]);
      LettersReadBack(b[0], Text(b[1..]));
    }
  }

  function EntryTo(e: Entries.Entry): (string, string) { (e.name, Text(e.body)) }

  function EntryFrom(x: (string, string)): Entries.Entry { Entries.Entry(x.0, Untext(x.1)) }

  function EntriesWire(): Wire<seq<Entries.Entry>> { List(As(Pair(Str(), Str()), EntryTo, EntryFrom)) }

  lemma EntriesWireIsGood()
    ensures Good(EntriesWire())
  {
    StrIsGood();
    PairIsGood(Str(), Str());
    forall e ensures EntryFrom(EntryTo(e)) == e { TextReadsBack(e.body); }
    AsIsGood(Pair(Str(), Str()), EntryTo, EntryFrom);
    ListIsGood(As(Pair(Str(), Str()), EntryTo, EntryFrom));
  }

  // ---- The suite ----

  function ManifestCodec(): Manifests.Codec {
    Manifests.Codec(
      (m: Manifests.Manifest) => ManifestWire().put(m),
      (b: bytes) => match Exactly(ManifestWire(), b) case None => None case Some(m) => Some(Manifests.MembersOf(m)),
      (b: bytes) => Exactly(ManifestWire(), b))
  }

  // Packs entries as one list, and from a beginning that holds the list whole
  // tells that nothing after it matters.
  function ToyArchiver(): Archiver {
    Archiver(
      (es: seq<Entries.Entry>) => [EntriesWire().put(es)],
      (b: bytes) => match EntriesWire().get(b) case None => Listing([], false) case Some((es, _)) => Listing(es, true),
      (b: bytes) =>
        match EntriesWire().get(b)
        case None => Prospect(Listing([], false), false)
        case Some((es, rest)) =>
          if EntriesWire().put(es) + rest == b then Prospect(Listing(es, true), true)
            else Prospect(Listing([], false), false))
  }

  lemma BeginningsSettle(p: bytes, q: bytes)
    ensures ToyArchiver().begin(p).listing.entries <= ToyArchiver().unpack(p + q).entries
    ensures ToyArchiver().begin(p).settled ==> ToyArchiver().unpack(p + q) == ToyArchiver().begin(p).listing
  {
    var w := EntriesWire();
    if ToyArchiver().begin(p).settled {
      EntriesWireIsGood();
      var (es, rest) := w.get(p).value;
      Assoc(w.put(es), rest, q);
      assert w.get(w.put(es) + (rest + q)) == Some((es, rest + q));
    }
  }

  lemma EntriesReadBack(es: seq<Entries.Entry>)
    ensures ToyArchiver().unpack(Concat(ToyArchiver().pack(es))) == Listing(es, true)
  {
    EntriesWireIsGood();
    var packed := EntriesWire().put(es);
    assert Concat([packed]) == packed;
    assert packed + [] == packed;
    assert EntriesWire().get(EntriesWire().put(es) + []) == Some((es, []));
  }

  lemma ToyArchiverIsLawful()
    ensures ToyArchiver().Lawful()
  {
    var a := ToyArchiver();
    forall p, q
      ensures a.begin(p).listing.entries <= a.unpack(p + q).entries
      ensures a.begin(p).settled ==> a.unpack(p + q) == a.begin(p).listing
    {
      BeginningsSettle(p, q);
    }
    forall es ensures a.unpack(Concat(a.pack(es))) == Listing(es, true) { EntriesReadBack(es); }
  }

  ghost function Plain(): Suite {
    Suite(
      (b: bytes) => seq(64, _ => '0'),
      Text,
      (t: string) => Some(Untext(t)),
      (k: bytes) => Aead.Toy,
      (p: string, k: Kdf, salt: bytes) => Keys([], []),
      (k: bytes, m: bytes) => seq(64, _ => 0),
      (k: bytes) => [],
      (pub: bytes, m: bytes, sig: bytes) => true,
      (h: Header) => HeaderWire().put(h),
      (b: bytes) => match Exactly(HeaderWire(), b) case None => None
        case Some(h) => Some(Preamble(h.format, h.version, h.signature)),
      (b: bytes) => Exactly(HeaderWire(), b),
      (b: bytes) => None,
      (n: nat) => "0",
      (v: Value) => PutValue(v),
      ManifestCodec(),
      ToyArchiver())
  }

  // The same with documents read as the trees they are.
  ghost function Toy(): Suite {
    Plain().(tree := (b: bytes) => match Exactly(HeaderWire(), b)
      case None => None case Some(h) => Some(Plain().Tree(h)))
  }

  lemma ManifestCodecIsLawful()
    ensures ManifestCodec().Lawful()
  {
    ManifestWireIsGood();
    var c := ManifestCodec();
    forall m ensures c.members(c.render(m)) == Some(Manifests.MembersOf(m)) && c.decode(c.render(m)) == Some(m) {
      ExactlyReadsBack(ManifestWire(), m);
    }
  }

  lemma HeaderIsExact(h: Header)
    ensures Exactly(HeaderWire(), HeaderWire().put(h)) == Some(h) && |HeaderWire().put(h)| > 0
  {
    HeaderWireIsGood();
    ExactlyReadsBack(HeaderWire(), h);
    CharsWidth(h.digest);
  }

  lemma HeadersReadBack(h: Header)
    ensures var s := Toy();
      && |s.render(h)| > 0 && s.preamble(s.render(h)) == Some(Preamble(h.format, h.version, h.signature))
      && s.decode(s.render(h)) == Some(h) && s.tree(s.render(h)) == Some(s.Tree(h))
  {
    HeaderIsExact(h);
    var s := Toy();
    assert s.render(h) == HeaderWire().put(h);
  }

  lemma HeadersKeepTheirWidth(h: Header, h': Header)
    ensures Toy().SameShape(h, h') ==> |Toy().render(h)| == |Toy().render(h')|
  {
    if Toy().SameShape(h, h') { HeaderWidth(h, h'); }
  }

  lemma HeaderLawsHold()
    ensures forall h: Header {:trigger Toy().render(h)} ::
      && |Toy().render(h)| > 0
      && Toy().preamble(Toy().render(h)) == Some(Preamble(h.format, h.version, h.signature))
      && Toy().decode(Toy().render(h)) == Some(h)
      && Toy().tree(Toy().render(h)) == Some(Toy().Tree(h))
    ensures forall h: Header, h': Header {:trigger Toy().render(h), Toy().render(h')} ::
      Toy().SameShape(h, h') ==> |Toy().render(h)| == |Toy().render(h')|
  {
    forall h: Header
      ensures |Toy().render(h)| > 0
      ensures Toy().preamble(Toy().render(h)) == Some(Preamble(h.format, h.version, h.signature))
      ensures Toy().decode(Toy().render(h)) == Some(h) && Toy().tree(Toy().render(h)) == Some(Toy().Tree(h))
    {
      HeadersReadBack(h);
    }
    forall h: Header, h': Header ensures Toy().SameShape(h, h') ==> |Toy().render(h)| == |Toy().render(h')| {
      HeadersKeepTheirWidth(h, h');
    }
  }

  lemma TextLawHolds()
    ensures forall b {:trigger Toy().b64(b)} :: Toy().unb64(Toy().b64(b)) == Some(b) && Unescaped(Toy().b64(b))
    ensures forall b, b' {:trigger Toy().b64(b), Toy().b64(b')} :: |b| == |b'| ==> |Toy().b64(b)| == |Toy().b64(b')|
  {
    forall b ensures Toy().unb64(Toy().b64(b)) == Some(b) && Unescaped(Toy().b64(b)) {
      TextReadsBack(b);
      LettersAreUnescaped(Text(b));
    }
  }

  lemma HashLawHolds()
    ensures forall b {:trigger Toy().hash(b)} :: Manifests.HexDigest(Toy().hash(b))
  {
  }

  lemma CipherLawHolds()
    ensures forall k {:trigger Toy().cipher(k)} :: Toy().cipher(k).Lawful()
  {
    Aead.ToyIsLawful();
    forall k ensures Toy().cipher(k) == Aead.Toy { }
  }

  lemma SignLawHolds()
    ensures forall k, m {:trigger Toy().sign(k, m)} :: |Toy().sign(k, m)| == SIGNATURE_SIZE
  {
  }

  lemma ToyIsLawful()
    ensures Toy().Lawful() && Injective(Toy().marshal)
  {
    MarshalIsInjective();
    ToyArchiverIsLawful();
    HeaderLawsHold();
    TextLawHolds();
    HashLawHolds();
    CipherLawHolds();
    SignLawHolds();
    ManifestCodecIsLawful();
  }
}
