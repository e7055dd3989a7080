// Exporting a cast as one file, and reading such a file back.
module CastBundles {
  import opened Wrappers
  import opened Bytes
  import opened Strings

  // ---- Limits ----

  const FORMAT := "waiveo.cast/1"
  const MANIFEST_NAME := "cast.json"
  const ASSET_PREFIX := "assets/"
  const HASH_PREFIX := "sha256:"

  const MAX_ASSETS := 512
  const MAX_ASSET_BYTES := 64 * 1024 * 1024
  const MAX_CONTENT_BYTES := 2 * MAX_ASSET_BYTES
  const MAX_OVERHEAD_BYTES := 8 * 1024 * 1024
  const MAX_BUNDLE_BYTES := MAX_CONTENT_BYTES + MAX_OVERHEAD_BYTES
  const MAX_MANIFEST_BYTES := MAX_OVERHEAD_BYTES / 2

  // What the container adds to its entries, over-estimated.
  function ZipFramingBytesFor(entries: nat): nat {
    entries * (30 + 46 + 24 + 2 * (|ASSET_PREFIX| + 64)) + 22
  }

  // ---- The manifest ----

  datatype Layer = Layer(assetRef: string, rest: string)

  datatype Slide = Slide(layers: seq<Layer>, rest: string)

  // Absent and empty labels are one.
  datatype CastPayload = CastPayload(
    name: string, slides: seq<Slide>, defaultDurationMs: int, isTemplate: bool, labels: map<string, string>)

  datatype AssetEntry = AssetEntry(assetRef: string, sizeBytes: int)

  datatype Manifest = Manifest(
    format: string, exportedAtMs: int, sourceCastId: string, cast: CastPayload, assets: seq<AssetEntry>)

  // ---- What is abstract ----

  // An entry as written; deflated for the manifest, stored for assets.
  datatype Entry = Entry(name: string, body: bytes, deflated: bool)

  // An entry as listed when reading: its name, the size its header declares, and
  // its content unless reading it fails.
  datatype ZipFile = ZipFile(name: string, declared: nat, content: Option<bytes>)

  // JSON, the zip container and the hash. Raw is the file, size its length.
  datatype Codec<!Raw(!new)> = Codec(
    encode: Manifest -> Option<bytes>,
    decode: bytes -> Option<Manifest>,
    zip: seq<Entry> -> Raw,
    unzip: Raw -> Option<seq<ZipFile>>,
    size: Raw -> int,
    hex: bytes -> string)
  {
    function RefOf(b: bytes): string { HASH_PREFIX + hex(b) }

    ghost predicate Lawful() {
      && (forall m {:trigger encode(m)} :: encode(m).Some? ==> decode(encode(m).value) == Some(m))
      && (forall es {:trigger zip(es)} :: unzip(zip(es)) == Some(FilesOf(es)) && size(zip(es)) <= SizeBound(es))
      && (forall b {:trigger hex(b)} :: |hex(b)| == 64 && forall i :: 0 <= i < 64 ==> hex(b)[i] != '/')
    }
  }

  function FilesOf(es: seq<Entry>): seq<ZipFile> {
    seq(|es|, i requires 0 <= i < |es| => ZipFile(es[i].name, |es[i].body|, Some(es[i].body)))
  }

  // A local header, a central record and a descriptor per entry, its name twice,
  // and the end record; deflate may expand what it is given, though not by more
  // than an eighth and a little.
  function SizeBound(es: seq<Entry>): nat {
    if es == [] then 22
    else
      var e := es[|es| - 1];
      SizeBound(es[..|es| - 1]) + 30 + 46 + 24 + 2 * |e.name| + |e.body| + if e.deflated then |e.body| / 8 + 64 else 0
  }

  // ---- References ----

  ghost predicate References(slides: seq<Slide>, ref: string) {
    && ref != ""
    && exists i, j :: 0 <= i < |slides| && 0 <= j < |slides[i].layers| && slides[i].layers[j].assetRef == ref
  }

  ghost predicate Ascending(refs: seq<string>) {
    forall i, j {:trigger Less(refs[i], refs[j])} :: 0 <= i < j < |refs| ==> Less(refs[i], refs[j])
  }

  // Every distinct reference the slides make, in order.
  ghost predicate AreReferences(refs: seq<string>, slides: seq<Slide>) {
    && Ascending(refs)
    && (forall i :: 0 <= i < |refs| ==> References(slides, refs[i]))
    && forall ref :: References(slides, ref) ==> exists i :: 0 <= i < |refs| && refs[i] == ref
  }

  // So the list is determined by the slides, and a cast exported twice is listed
  // the same way twice.
  lemma {:induction false} ReferencesAreDetermined(a: seq<string>, b: seq<string>)
    requires Ascending(a) && Ascending(b)
    requires forall ref :: ref in a <==> ref in b
    ensures a == b
  {
    if a == [] {
      assert forall i :: 0 <= i < |b| ==> b[i] in a;
    } else {
      assert a[0] in b;
      var i :| 0 <= i < |b| && b[i] == a[0];
      assert b[0] in a;
      var j :| 0 <= j < |a| && a[j] == b[0];
      LessIsStrictTotal(a[0], b[0]);
      assert i == 0;
      forall ref ensures ref in a[1..] <==> ref in b[1..] {
        assert ref in a <==> ref == a[0] || ref in a[1..];
        assert ref in b <==> ref == b[0] || ref in b[1..];
        LessIsStrictTotal(a[0], a[0]);
      }
      ReferencesAreDetermined(a[1..], b[1..]);
      assert a == [a[0]] + a[1..] && b == [b[0]] + b[1..];
    }
  }

  function InsertSorted(refs: seq<string>, r: string): (out: seq<string>)
    ensures multiset(out) == multiset(refs) + multiset{r}
  {
    if refs == [] || Less(refs[|refs| - 1], r) then refs + [r]
    else
      var n := |refs| - 1;
      assert refs == refs[..n] + [refs[n]];
      InsertSorted(refs[..n], r) + [refs[n]]
  }

  function SortStrings(refs: seq<string>): (out: seq<string>)
    ensures multiset(out) == multiset(refs)
  {
    if refs == [] then []
    else
      var n := |refs| - 1;
      assert refs == refs[..n] + [refs[n]];
      InsertSorted(SortStrings(refs[..n]), refs[n])
  }

  lemma AscendingAppend(front: seq<string>, r: string)
    requires Ascending(front) && forall i :: 0 <= i < |front| ==> Less(front[i], r)
    ensures Ascending(front + [r])
  {
  }

  lemma {:induction false} InsertAscends(refs: seq<string>, r: string)
    requires Ascending(refs) && r !in multiset(refs)
    ensures Ascending(InsertSorted(refs, r))
  {
    if refs != [] {
      var n := |refs| - 1;
      assert refs == refs[..n] + [refs[n]];
      assert refs[n] in multiset(refs);
      LessIsStrictTotal(refs[n], r);
      if Less(refs[n], r) {
        forall i | 0 <= i <= n ensures Less(refs[i], r) {
          if i < n {
            assert Less(refs[i], refs[n]);
            LessIsTransitive(refs[i], refs[n], r);
          }
        }
        AscendingAppend(refs, r);
      } else {
        assert Ascending(refs[..n]) by {
          forall i, j | 0 <= i < j < n ensures Less(refs[..n][i], refs[..n][j]) { assert Less(refs[i], refs[j]); }
        }
        InsertAscends(refs[..n], r);
        var front := InsertSorted(refs[..n], r);
        forall i | 0 <= i < |front| ensures Less(front[i], refs[n]) {
          assert front[i] in multiset(refs[..n]) + multiset{r};
          if front[i] != r {
            var k :| 0 <= k < n && refs[k] == front[i];
            assert Less(refs[k], refs[n]);
          }
        }
        AscendingAppend(front, refs[n]);
      }
    }
  }

  lemma {:induction false} SortAscends(refs: seq<string>)
    requires forall i, j :: 0 <= i < j < |refs| ==> refs[i] != refs[j]
    ensures Ascending(SortStrings(refs))
  {
    if refs != [] {
      var n := |refs| - 1;
      SortAscends(refs[..n]);
      assert refs[n] !in refs[..n];
      InsertAscends(SortStrings(refs[..n]), refs[n]);
    }
  }

  // Found so far: without repetition, from these slides, and none of the first
  // i slides' and of the next slide's first j layers' left out.
  ghost predicate Found(out: seq<string>, slides: seq<Slide>, i: nat, j: nat) {
    && (forall k, l :: 0 <= k < l < |out| ==> out[k] != out[l])
    && (forall k :: 0 <= k < |out| ==> References(slides, out[k]))
    && forall a, b :: 0 <= a < |slides| && 0 <= b < |slides[a].layers| && (a < i || (a == i && b < j)) ==>
         slides[a].layers[b].assetRef == "" || slides[a].layers[b].assetRef in out
  }

  method ReferencedAssets(slides: seq<Slide>) returns (refs: seq<string>)
    ensures AreReferences(refs, slides)
  {
    var seen: set<string> := {};
    var out: seq<string> := [];
    for i := 0 to |slides|
      invariant Found(out, slides, i, 0) && forall r :: r in seen <==> r in out
    {
      for j := 0 to |slides[i].layers|
        invariant Found(out, slides, i, j) && forall r :: r in seen <==> r in out
      {
        var ref := slides[i].layers[j].assetRef;
        if ref == "" { continue; }
        if ref in seen { continue; }
        assert References(slides, ref);
        seen := seen + {ref};
        out := out + [ref];
      }
    }
    refs := SortStrings(out);
    SortAscends(out);
    forall i | 0 <= i < |refs| ensures References(slides, refs[i]) {
      assert refs[i] in multiset(refs);
      assert refs[i] in multiset(out);
    }
    forall ref | References(slides, ref) ensures exists i :: 0 <= i < |refs| && refs[i] == ref {
      assert ref in out;
      assert ref in multiset(out);
      assert ref in multiset(refs);
    }
  }
}
