// A concrete codec that keeps every law the bundle asks of its parts, and an
// export under it that carries an asset.
module ToyBundles {
  import opened Wrappers
  import opened Bytes
  import opened Wires
  import opened CastBundles
  import opened CastExchange
  import opened CastTheorems

  // ---- The manifest ----

  function LayerTo(l: Layer): (string, string) { (l.assetRef, l.rest) }

  function LayerFrom(x: (string, string)): Layer { Layer(x.0, x.1) }

  function SlideTo(s: Slide): (seq<Layer>, string) { (s.layers, s.rest) }

  function SlideFrom(x: (seq<Layer>, string)): Slide { Slide(x.0, x.1) }

  function AssetTo(a: AssetEntry): (string, int) { (a.assetRef, a.sizeBytes) }

  function AssetFrom(x: (string, int)): AssetEntry { AssetEntry(x.0, x.1) }

  type CastParts = ((string, seq<Slide>), ((int, nat), seq<(string, string)>))

  ghost function CastTo(c: CastPayload): CastParts {
    ((c.name, c.slides), ((c.defaultDurationMs, if c.isTemplate then 1 else 0), PairsOf(c.labels)))
  }

  ghost function CastFrom(x: CastParts): CastPayload {
    CastPayload(x.0.0, x.0.1, x.1.0.0, x.1.0.1 == 1, FromPairs(x.1.1))
  }

  type ManifestParts = (((string, string), int), (CastPayload, seq<AssetEntry>))

  function ManifestTo(m: Manifest): ManifestParts { (((m.format, m.sourceCastId), m.exportedAtMs), (m.cast, m.assets)) }

  function ManifestFrom(x: ManifestParts): Manifest { Manifest(x.0.0.0, x.0.1, x.0.0.1, x.1.0, x.1.1) }

  function LayerWire(): Wire<Layer> { As(Pair(Str(), Str()), LayerTo, LayerFrom) }

  function SlideWire(): Wire<Slide> { As(Pair(List(LayerWire()), Str()), SlideTo, SlideFrom) }

  function AssetWire(): Wire<AssetEntry> { As(Pair(Str(), Int()), AssetTo, AssetFrom) }

  function CastPartsWire(): Wire<CastParts> {
    Pair(Pair(Str(), List(SlideWire())), Pair(Pair(Int(), Nat()), List(Pair(Str(), Str()))))
  }

  ghost function CastWire(): Wire<CastPayload> { As(CastPartsWire(), c => CastTo(c), x => CastFrom(x)) }

  ghost function ManifestWire(): Wire<Manifest> {
    As(Pair(Pair(Pair(Str(), Str()), Int()), Pair(CastWire(), List(AssetWire()))), ManifestTo, ManifestFrom)
  }

  lemma SlideWireIsGood()
    ensures Good(SlideWire())
  {
    StrIsGood();
    PairIsGood(Str(), Str());
    AsIsGood(Pair(Str(), Str()), LayerTo, LayerFrom);
    ListIsGood(LayerWire());
    PairIsGood(List(LayerWire()), Str());
    AsIsGood(Pair(List(LayerWire()), Str()), SlideTo, SlideFrom);
  }

  lemma AssetWireIsGood()
    ensures Good(AssetWire())
  {
    StrIsGood();
    IntIsGood();
    PairIsGood(Str(), Int());
    AsIsGood(Pair(Str(), Int()), AssetTo, AssetFrom);
  }

  lemma CastPartsAreGood()
    ensures Good(CastPartsWire())
  {
    StrIsGood();
    IntIsGood();
    NatIsGood();
    SlideWireIsGood();
    ListIsGood(SlideWire());
    PairIsGood(Str(), List(SlideWire()));
    PairIsGood(Int(), Nat());
    PairIsGood(Str(), Str());
    ListIsGood(Pair(Str(), Str()));
    PairIsGood(Pair(Int(), Nat()), List(Pair(Str(), Str())));
    PairIsGood(Pair(Str(), List(SlideWire())), Pair(Pair(Int(), Nat()), List(Pair(Str(), Str()))));
  }

  lemma CastWireIsGood()
    ensures Good(CastWire())
  {
    CastPartsAreGood();
    forall c ensures CastFrom(CastTo(c)) == c { PairsReadBack(c.labels); }
    AsIsGood(CastPartsWire(), c => CastTo(c), x => CastFrom(x));
  }

  lemma ManifestWireIsGood()
    ensures Good(ManifestWire())
  {
    StrIsGood();
    IntIsGood();
    CastWireIsGood();
    AssetWireIsGood();
    PairIsGood(Str(), Str());
    PairIsGood(Pair(Str(), Str()), Int());
    ListIsGood(AssetWire());
    PairIsGood(CastWire(), List(AssetWire()));
    PairIsGood(Pair(Pair(Str(), Str()), Int()), Pair(CastWire(), List(AssetWire())));
    AsIsGood(Pair(Pair(Pair(Str(), Str()), Int()), Pair(CastWire(), List(AssetWire()))), ManifestTo, ManifestFrom);
  }

  // ---- The codec ----

  function HexDigit(n: nat): (d: char)
    requires n < 16
    ensures d != '/'
  {
    if n < 10 then ('0' as int + n) as char else ('a' as int + n - 10) as char
  }

  function Nibble(b: bytes, i: nat): (n: nat)
    ensures n < 16
  {
    if i < |b| then b[i] % 16 else 0
  }

  function ToyHash(b: bytes): string {
    seq(64, i requires 0 <= i < 64 => HexDigit(Nibble(b, i)))
  }

  lemma ToyHashIsHex(b: bytes)
    ensures |ToyHash(b)| == 64 && forall i :: 0 <= i < 64 ==> ToyHash(b)[i] != '/'
  {
    forall i | 0 <= i < 64 ensures ToyHash(b)[i] != '/' {
      assert ToyHash(b)[i] == HexDigit(Nibble(b, i));
    }
  }

  // The container is the list of its entries, with the size the law allows.
  ghost function Toy(): Codec<(nat, seq<ZipFile>)> {
    Codec(
      (m: Manifest) => Some(ManifestWire().put(m)),
      (b: bytes) => Exactly(ManifestWire(), b),
      (es: seq<Entry>) => (SizeBound(es), FilesOf(es)),
      (r: (nat, seq<ZipFile>)) => Some(r.1),
      (r: (nat, seq<ZipFile>)) => r.0,
      (b: bytes) => ToyHash(b))
  }

  ghost predicate WritesBy(f: Codec<(nat, seq<ZipFile>)>, w: Wire<Manifest>) {
    forall m {:trigger f.encode(m)} :: f.encode(m) == Some(w.put(m))
  }

  lemma ToyReadsManifests()
    ensures WritesBy(Toy(), ManifestWire())
    ensures forall m {:trigger Toy().encode(m)} :: Toy().decode(Toy().encode(m).value) == Some(m)
  {
    ManifestWireIsGood();
    forall m ensures Toy().decode(Toy().encode(m).value) == Some(m) { ExactlyReadsBack(ManifestWire(), m); }
  }

  lemma ToyHashesToHex()
    ensures forall b {:trigger Toy().hex(b)} ::
      |Toy().hex(b)| == 64 && forall i :: 0 <= i < 64 ==> Toy().hex(b)[i] != '/'
  {
    forall b ensures |Toy().hex(b)| == 64 && forall i :: 0 <= i < 64 ==> Toy().hex(b)[i] != '/' {
      ToyHashIsHex(b);
    }
  }

  lemma ToyIsLawful()
    ensures Toy().Lawful() && WritesBy(Toy(), ManifestWire())
  {
    ToyReadsManifests();
    ToyHashesToHex();
  }

  // ---- An export with an asset ----

  // A cast of one slide showing one image.
  ghost function OneImage(ref: string): Manifest {
    Manifest("", 0, "", CastPayload("", [Slide([Layer(ref, "")], "")], 0, false, map[]), [])
  }

  lemma SlidesAreNarrow(ref: string)
    ensures |List(SlideWire()).put([Slide([Layer(ref, "")], "")])| == 4 * |ref| + 7
  {
    var layer, slide := Layer(ref, ""), Slide([Layer(ref, "")], "");
    StrIsAsWide(ref);
    StrIsAsWide("");
    PairWidth(Str(), Str(), ref, "");
    AsWidth(Pair(Str(), Str()), LayerTo, LayerFrom, layer);
    ListWidth(LayerWire(), [layer]);
    PairWidth(List(LayerWire()), Str(), [layer], "");
    AsWidth(Pair(List(LayerWire()), Str()), SlideTo, SlideFrom, slide);
    ListWidth(SlideWire(), [slide]);
  }

  lemma CastIsNarrow(ref: string)
    ensures |CastWire().put(OneImage(ref).cast)| == 4 * |ref| + 12
  {
    var cast := OneImage(ref).cast;
    var labels: map<string, string> := map[];
    var none: seq<(string, string)> := [];
    assert PairsOf(labels) == none;
    SlidesAreNarrow(ref);
    StrIsAsWide("");
    PairWidth(Str(), List(SlideWire()), "", cast.slides);
    IntWidth(0);
    NatWidth(0);
    PairWidth(Int(), Nat(), 0, 0);
    ListWidth(Pair(Str(), Str()), none);
    PairWidth(Pair(Int(), Nat()), List(Pair(Str(), Str())), (0, 0), none);
    PairWidth(Pair(Str(), List(SlideWire())), Pair(Pair(Int(), Nat()), List(Pair(Str(), Str()))),
      ("", cast.slides), ((0, 0), none));
    AsWidth(CastPartsWire(), c => CastTo(c), x => CastFrom(x), cast);
  }

  lemma AssetsAreNarrow(ref: string)
    ensures |List(AssetWire()).put([AssetEntry(ref, 0)])| == 4 * |ref| + 5
  {
    StrIsAsWide(ref);
    IntWidth(0);
    PairWidth(Str(), Int(), ref, 0);
    AsWidth(Pair(Str(), Int()), AssetTo, AssetFrom, AssetEntry(ref, 0));
    ListWidth(AssetWire(), [AssetEntry(ref, 0)]);
  }

  lemma ManifestIsNarrow(m: Manifest, ref: string)
    requires m == OneImage(ref).(format := FORMAT, assets := [AssetEntry(ref, 0)]) && |ref| == 71
    ensures |ManifestWire().put(m)| < 1000
  {
    CastIsNarrow(ref);
    AssetsAreNarrow(ref);
    StrIsAsWide(FORMAT);
    StrIsAsWide("");
    IntWidth(0);
    PairWidth(Str(), Str(), FORMAT, "");
    PairWidth(Pair(Str(), Str()), Int(), (FORMAT, ""), 0);
    PairWidth(CastWire(), List(AssetWire()), m.cast, m.assets);
    PairWidth(Pair(Pair(Str(), Str()), Int()), Pair(CastWire(), List(AssetWire())),
      ((FORMAT, ""), 0), (m.cast, m.assets));
    AsWidth(Pair(Pair(Pair(Str(), Str()), Int()), Pair(CastWire(), List(AssetWire()))), ManifestTo, ManifestFrom, m);
  }

  lemma OneReference(ref: string, refs: seq<string>)
    requires ref != "" && refs == [ref]
    ensures AreReferences(refs, OneImage(ref).cast.slides)
  {
    var slides := OneImage(ref).cast.slides;
    assert slides[0].layers[0].assetRef == ref;
    forall other | References(slides, other) ensures exists i :: 0 <= i < |refs| && refs[i] == other {
      assert refs[0] == other;
    }
  }

  lemma OneIsListed(ref: string, refs: seq<string>, assets: map<string, bytes>)
    requires refs == [ref] && AllHeld(refs, assets) && assets[refs[0]] == []
    ensures Listed(refs, assets) == [AssetEntry(ref, 0)] && ContentBytes(refs, assets) == 0
  {
    assert refs[..0] == [] && refs[0] == ref;
  }

  lemma OneIsNarrow(ref: string, refs: seq<string>, assets: map<string, bytes>)
    requires |ref| == 71 && refs == [ref] && AllHeld(refs, assets) && assets[refs[0]] == []
    ensures ContentBytes(refs, assets) == 0
    ensures |ManifestWire().put(ManifestOf(OneImage(ref), refs, assets))| < 1000
  {
    OneIsListed(ref, refs, assets);
    ManifestIsNarrow(ManifestOf(OneImage(ref), refs, assets), ref);
  }

  lemma OneIsExportable(
    f: Codec<(nat, seq<ZipFile>)>, w: Wire<Manifest>, m: Manifest, refs: seq<string>, assets: map<string, bytes>)
    requires |refs| == 1 && AllHeld(refs, assets) && assets[refs[0]] == [] && ContentBytes(refs, assets) == 0
    requires WritesBy(f, w) && |w.put(ManifestOf(m, refs, assets))| < 1000
    ensures Exportable(f, m, refs, assets)
  {
    assert f.encode(ManifestOf(m, refs, assets)) == Some(w.put(ManifestOf(m, refs, assets)));
    forall i | 0 <= i < |refs| ensures |assets[refs[i]]| <= MAX_ASSET_BYTES { assert i == 0; }
  }

  lemma ReferenceLength(f: Codec<(nat, seq<ZipFile>)>, b: bytes)
    requires f.Lawful()
    ensures |f.RefOf(b)| == 71
  {
    assert |f.hex(b)| == 64;
  }

  lemma OneIsGenuine(f: Codec<(nat, seq<ZipFile>)>, refs: seq<string>, assets: map<string, bytes>)
    requires refs == [f.RefOf([])] && AllHeld(refs, assets) && assets[refs[0]] == []
    ensures Genuine(f, refs, assets)
  {
  }

  // What the bundle theorems suppose of an export can be met, by an export that
  // carries an asset under a codec like Toy().
  lemma OneImageIsExported(f: Codec<(nat, seq<ZipFile>)>, ref: string, refs: seq<string>, assets: map<string, bytes>)
    requires f.Lawful() && WritesBy(f, ManifestWire())
    requires ref == f.RefOf([]) && refs == [ref] && AllHeld(refs, assets) && assets[refs[0]] == []
    ensures AreReferences(refs, OneImage(ref).cast.slides)
    ensures Exportable(f, OneImage(ref), refs, assets)
    ensures Genuine(f, refs, assets)
  {
    ReferenceLength(f, []);
    OneIsGenuine(f, refs, assets);
    OneReference(ref, refs);
    OneIsNarrow(ref, refs, assets);
    OneIsExportable(f, ManifestWire(), OneImage(ref), refs, assets);
  }
}
