// The language of bodies: runs of frames of which exactly the last is marked
// final. It is stated over any codec that writes and reads one frame, so nothing
// here depends on how a frame is sealed.
module FrameLanguage {
  import opened Bytes
  import opened Aead
  import opened ArchiveCodes

  datatype Step =
    | EndOfInput
    | Unauthentic
    | Frame(plain: bytes, flag: Flag, rest: bytes)

  // Writes the frame of a given index, flag and plaintext, and reads the frame
  // of a given index off the front of some bytes.
  datatype Codec = Codec(write: (nat, Flag, bytes) -> bytes, read: (nat, bytes) -> Step)
  {
    ghost predicate Progress() {
      forall i, src {:trigger read(i, src)} :: read(i, src).Frame? ==> |read(i, src).rest| < |src|
    }

    // A frame of at most `limit` plaintext bytes is read as itself, whatever
    // follows it.
    ghost predicate ReadsBack(limit: nat) {
      forall i, f, c, rest {:trigger read(i, write(i, f, c) + rest)} ::
        |c| <= limit ==> read(i, write(i, f, c) + rest) == Frame(c, f, rest)
    }

    // Whatever reads as a frame is one.
    ghost predicate WasWritten(limit: nat) {
      forall i, src {:trigger read(i, src)} :: read(i, src).Frame? ==>
        var f := read(i, src); |f.plain| <= limit && src == write(i, f.flag, f.plain) + f.rest
    }

    // A cut frame is the end of the input.
    ghost predicate NeedsWhole(limit: nat) {
      forall i, f, c, k: nat {:trigger read(i, write(i, f, c)[..k])} ::
        |c| <= limit && k < |write(i, f, c)| ==> read(i, write(i, f, c)[..k]) == EndOfInput
    }

    ghost predicate Faithful(limit: nat) {
      ReadsBack(limit) && WasWritten(limit) && NeedsWhole(limit)
    }
  }

  type Framer = c: Codec | c.Progress() witness Codec((i, f, c) => [], (i, src) => EndOfInput)

  function Concat(chunks: seq<bytes>): bytes {
    if chunks == [] then [] else chunks[0] + Concat(chunks[1..])
  }

  lemma {:induction false} ConcatAppend(chunks: seq<bytes>, c: bytes)
    ensures Concat(chunks + [c]) == Concat(chunks) + c
  {
    if chunks == [] {
      assert [c] == [c] + [];
    } else {
      assert (chunks + [c])[1..] == chunks[1..] + [c];
      ConcatAppend(chunks[1..], c);
    }
  }

  // ---- What a writer emits ----

  // Consecutive non-final frames, the first numbered `index`.
  function Run(w: Framer, index: nat, full: seq<bytes>): bytes
    decreases full
  {
    if full == [] then [] else w.write(index, NonFinal, full[0]) + Run(w, index + 1, full[1..])
  }

  // A whole body: non-final frames and then exactly one final frame.
  function Body(w: Framer, full: seq<bytes>, last: bytes): bytes {
    Run(w, 0, full) + w.write(|full|, Final, last)
  }

  // The frames a plaintext is cut into: a frame is non-final only if more
  // plaintext follows it, and there is always a final frame, perhaps empty.
  function Chunked(plain: bytes, frameSize: nat): (c: (seq<bytes>, bytes))
    requires frameSize > 0
    decreases |plain|
  {
    if |plain| <= frameSize then ([], plain)
    else
      var (full, last) := Chunked(plain[frameSize..], frameSize);
      ([plain[..frameSize]] + full, last)
  }

  function EncodeBody(w: Framer, plain: bytes, frameSize: nat): bytes
    requires frameSize > 0
  {
    var (full, last) := Chunked(plain, frameSize);
    Body(w, full, last)
  }

  lemma {:induction false} RunAppend(w: Framer, index: nat, full: seq<bytes>, c: bytes)
    ensures Run(w, index, full + [c])
         == Run(w, index, full) + w.write(index + |full|, NonFinal, c)
    decreases full
  {
    if full == [] {
      assert [c][1..] == [];
    } else {
      assert (full + [c])[1..] == full[1..] + [c];
      RunAppend(w, index + 1, full[1..], c);
    }
  }

  // The cut is the only one in which every frame but the last holds exactly
  // frameSize bytes and a last frame after others is not empty.
  ghost predicate Cut(full: seq<bytes>, last: bytes, frameSize: nat) {
    && (forall k :: 0 <= k < |full| ==> |full[k]| == frameSize)
    && |last| <= frameSize
    && (full != [] ==> last != [])
  }

  lemma {:induction false} ChunkedIsTheCut(plain: bytes, frameSize: nat)
    requires frameSize > 0
    ensures Cut(Chunked(plain, frameSize).0, Chunked(plain, frameSize).1, frameSize)
    ensures Concat(Chunked(plain, frameSize).0) + Chunked(plain, frameSize).1 == plain
    decreases |plain|
  {
    if |plain| > frameSize {
      var (full, last) := Chunked(plain[frameSize..], frameSize);
      ChunkedIsTheCut(plain[frameSize..], frameSize);
      assert Chunked(plain, frameSize) == ([plain[..frameSize]] + full, last);
      ConcatCons(plain[..frameSize], full, last);
      assert plain[..frameSize] + plain[frameSize..] == plain;
    }
  }

  lemma ConcatCons(head: bytes, full: seq<bytes>, last: bytes)
    ensures Concat([head] + full) + last == head + (Concat(full) + last)
  {
    assert ([head] + full)[1..] == full;
    Assoc(head, Concat(full), last);
  }

  // A plaintext of L bytes is cut into max(1, ceil(L / frameSize)) frames: the
  // only number of frames that can hold it with none of them wasted.
  lemma {:induction false} FrameCount(plain: bytes, frameSize: nat)
    requires frameSize > 0
    ensures var frames := |Chunked(plain, frameSize).0| + 1;
      && |plain| <= frames * frameSize
      && (frames > 1 ==> (frames - 1) * frameSize < |plain|)
    decreases |plain|
  {
    if |plain| > frameSize {
      FrameCount(plain[frameSize..], frameSize);
      var more := |Chunked(plain[frameSize..], frameSize).0| + 1;
      assert (more + 1) * frameSize == more * frameSize + frameSize;
      assert (more - 1) * frameSize + frameSize == more * frameSize;
    }
  }

  lemma {:induction false} CutIsUnique(full: seq<bytes>, last: bytes, frameSize: nat)
    requires frameSize > 0 && Cut(full, last, frameSize)
    ensures Chunked(Concat(full) + last, frameSize) == (full, last)
  {
    var plain := Concat(full) + last;
    if full == [] {
      assert plain == last;
    } else {
      var tail := Concat(full[1..]) + last;
      assert plain == full[0] + tail;
      assert plain[..frameSize] == full[0] && plain[frameSize..] == tail;
      CutIsUnique(full[1..], last, frameSize);
      assert full == [full[0]] + full[1..];
      assert |tail| > 0;
    }
  }

  // ---- What a reader makes of bytes ----

  datatype Verdict = Accepted | Refused(code: Code)

  // What a body yields in full: the plaintext a reader may hand out, and the
  // verdict. The final frame's plaintext is released only once nothing follows
  // it and the digest agrees.
  datatype Reading = Reading(plain: bytes, verdict: Verdict)

  function Scan(w: Framer, index: nat, src: bytes, digestOk: bool): Reading
    decreases |src|
  {
    match w.read(index, src)
    case EndOfInput => Reading([], Refused(Truncated))
    case Unauthentic => Reading([], Refused(DecryptFailed))
    case Frame(p, NonFinal, rest) =>
      var r := Scan(w, index + 1, rest, digestOk);
      Reading(p + r.plain, r.verdict)
    case Frame(p, Final, rest) =>
      if rest != [] then Reading([], Refused(Truncated))
      else if !digestOk then Reading([], Refused(SignatureInvalid))
      else Reading(p, Accepted)
  }

  // The same of a source that fails where src ends, instead of ending there.
  function ScanBroken(w: Framer, index: nat, src: bytes): (r: Reading)
    ensures r.verdict in {Refused(SourceFailed), Refused(DecryptFailed), Refused(Truncated)}
    decreases |src|
  {
    match w.read(index, src)
    case EndOfInput => Reading([], Refused(SourceFailed))
    case Unauthentic => Reading([], Refused(DecryptFailed))
    case Frame(p, NonFinal, rest) =>
      var r := ScanBroken(w, index + 1, rest);
      Reading(p + r.plain, r.verdict)
    case Frame(p, Final, rest) => Reading([], Refused(if rest != [] then Truncated else SourceFailed))
  }

  // ---- How the two meet ----

  ghost predicate Within(limit: nat, full: seq<bytes>) {
    forall k :: 0 <= k < |full| ==> |full[k]| <= limit
  }

  ghost predicate Fits(limit: nat, full: seq<bytes>, last: bytes) {
    && Within(limit, full)
    && |last| <= limit
  }

  lemma NonFinalReadsBack(w: Framer, limit: nat, index: nat, c: bytes, rest: bytes, digestOk: bool)
    requires w.ReadsBack(limit) && |c| <= limit
    ensures var r := Scan(w, index + 1, rest, digestOk);
      Scan(w, index, w.write(index, NonFinal, c) + rest, digestOk) == Reading(c + r.plain, r.verdict)
  {
    assert w.read(index, w.write(index, NonFinal, c) + rest) == Frame(c, NonFinal, rest);
  }

  lemma {:induction false} RunReadsBack(
    w: Framer, limit: nat, index: nat, full: seq<bytes>, rest: bytes, digestOk: bool)
    requires w.ReadsBack(limit)
    requires Within(limit, full)
    ensures var r := Scan(w, index + |full|, rest, digestOk);
      Scan(w, index, Run(w, index, full) + rest, digestOk) == Reading(Concat(full) + r.plain, r.verdict)
    decreases full
  {
    var r := Scan(w, index + |full|, rest, digestOk);
    if full == [] {
      assert Run(w, index, full) + rest == rest;
      assert Concat(full) + r.plain == r.plain;
    } else {
      RunReadsBack(w, limit, index + 1, full[1..], rest, digestOk);
      RunByOne(w, limit, index, full, rest, digestOk, r);
    }
  }

  lemma RunByOne(w: Framer, limit: nat, index: nat, full: seq<bytes>, rest: bytes, digestOk: bool, r: Reading)
    requires w.ReadsBack(limit) && full != [] && |full[0]| <= limit
    requires Scan(w, index + 1, Run(w, index + 1, full[1..]) + rest, digestOk) ==
      Reading(Concat(full[1..]) + r.plain, r.verdict)
    ensures Scan(w, index, Run(w, index, full) + rest, digestOk) == Reading(Concat(full) + r.plain, r.verdict)
  {
    var (head, more) := (w.write(index, NonFinal, full[0]), Run(w, index + 1, full[1..]));
    Assoc(head, more, rest);
    NonFinalReadsBack(w, limit, index, full[0], more + rest, digestOk);
    Assoc(full[0], Concat(full[1..]), r.plain);
  }

  // Bytes after the final frame are the difference between accepting and
  // refusing as truncated; the digest is consulted only when there are none.
  lemma BodyReadsBack(w: Framer, limit: nat, full: seq<bytes>, last: bytes, tail: bytes, digestOk: bool)
    requires w.ReadsBack(limit) && Fits(limit, full, last)
    ensures Scan(w, 0, Body(w, full, last) + tail, digestOk) ==
      if tail != [] then Reading(Concat(full), Refused(Truncated))
      else if !digestOk then Reading(Concat(full), Refused(SignatureInvalid))
      else Reading(Concat(full) + last, Accepted)
  {
    var final := w.write(|full|, Final, last);
    assert Body(w, full, last) + tail == Run(w, 0, full) + (final + tail);
    RunReadsBack(w, limit, 0, full, final + tail, digestOk);
    assert Concat(full) + [] == Concat(full);
  }

  // A body is accepted exactly when its digest agrees and it is, byte for byte,
  // a run of non-final frames and one final frame, each sealed at its own
  // position and small enough to buffer.
  ghost predicate IsBody(w: Framer, limit: nat, body: bytes) {
    exists full, last :: Fits(limit, full, last) && body == Body(w, full, last)
  }

  lemma {:induction false} AcceptedWasWritten(w: Framer, limit: nat, index: nat, src: bytes, digestOk: bool)
    returns (full: seq<bytes>, last: bytes)
    requires w.WasWritten(limit)
    requires Scan(w, index, src, digestOk).verdict == Accepted
    ensures Fits(limit, full, last)
    ensures src == Run(w, index, full) + w.write(index + |full|, Final, last)
    decreases |src|
  {
    var f := w.read(index, src);
    if f.flag == Final {
      full, last := [], f.plain;
    } else {
      var rest;
      rest, last := AcceptedWasWritten(w, limit, index + 1, f.rest, digestOk);
      full := [f.plain] + rest;
      assert full[1..] == rest;
    }
  }

  lemma AcceptedIff(w: Framer, limit: nat, body: bytes, digestOk: bool)
    requires w.Faithful(limit)
    ensures Scan(w, 0, body, digestOk).verdict == Accepted <==> digestOk && IsBody(w, limit, body)
  {
    if Scan(w, 0, body, digestOk).verdict == Accepted {
      var full, last := AcceptedWasWritten(w, limit, 0, body, digestOk);
      assert body == Body(w, full, last);
      BodyReadsBack(w, limit, full, last, [], digestOk);
      assert body + [] == body;
    }
    if digestOk && IsBody(w, limit, body) {
      var full, last :| Fits(limit, full, last) && body == Body(w, full, last);
      BodyReadsBack(w, limit, full, last, [], true);
      assert body + [] == body;
    }
  }

  // Cutting a body anywhere is refused as truncated, and only whole leading
  // frames are handed out.
  lemma {:induction false} CutShort(
    w: Framer, limit: nat, index: nat, full: seq<bytes>, last: bytes, k: nat, digestOk: bool)
    requires w.ReadsBack(limit) && w.NeedsWhole(limit) && Fits(limit, full, last)
    requires k < |Run(w, index, full) + w.write(index + |full|, Final, last)|
    ensures var body := Run(w, index, full) + w.write(index + |full|, Final, last);
      var r := Scan(w, index, body[..k], digestOk);
      r.verdict == Refused(Truncated) && r.plain <= Concat(full)
    decreases full
  {
    var body := Run(w, index, full) + w.write(index + |full|, Final, last);
    if full == [] {
      assert body == w.write(index, Final, last);
      assert w.read(index, w.write(index, Final, last)[..k]) == EndOfInput;
    } else {
      var head := w.write(index, NonFinal, full[0]);
      var tail := Run(w, index + 1, full[1..]) + w.write(index + |full|, Final, last);
      assert body == head + tail;
      if k < |head| {
        assert w.read(index, head[..k]) == EndOfInput;
        assert body[..k] == head[..k];
      } else {
        CutShort(w, limit, index + 1, full[1..], last, k - |head|, digestOk);
        CutPastOne(w, limit, index, full, tail, k - |head|, digestOk);
        CutAfter(head, tail, k);
      }
    }
  }

  lemma CutAfter(head: bytes, tail: bytes, k: nat)
    requires |head| <= k <= |head + tail|
    ensures (head + tail)[..k] == head + tail[..k - |head|]
  {
  }

  // The frames of a plaintext are within the limit when its first one is.
  lemma ChunksFit(plain: bytes, frameSize: nat, limit: nat)
    requires frameSize > 0 && (|plain| <= limit || frameSize <= limit)
    ensures var (full, last) := Chunked(plain, frameSize);
      Fits(limit, full, last) && Concat(full) <= plain
  {
    var (full, last) := Chunked(plain, frameSize);
    ChunkedIsTheCut(plain, frameSize);
    if |plain| <= frameSize {
      assert full == [] && last == plain;
    }
  }

  lemma CutBodyIsShort(w: Framer, limit: nat, plain: bytes, frameSize: nat, k: nat, digestOk: bool)
    requires frameSize > 0 && (|plain| <= limit || frameSize <= limit)
    requires w.ReadsBack(limit) && w.NeedsWhole(limit)
    requires k < |EncodeBody(w, plain, frameSize)|
    ensures var r := Scan(w, 0, EncodeBody(w, plain, frameSize)[..k], digestOk);
      r.verdict == Refused(Truncated) && r.plain <= plain
  {
    var (full, last) := Chunked(plain, frameSize);
    ChunksFit(plain, frameSize, limit);
    CutShort(w, limit, 0, full, last, k, digestOk);
  }

  lemma CutPastOne(w: Framer, limit: nat, index: nat, full: seq<bytes>, tail: bytes, m: nat, digestOk: bool)
    requires w.ReadsBack(limit) && full != [] && |full[0]| <= limit && m <= |tail|
    requires var r := Scan(w, index + 1, tail[..m], digestOk);
      r.verdict == Refused(Truncated) && r.plain <= Concat(full[1..])
    ensures var r := Scan(w, index, w.write(index, NonFinal, full[0]) + tail[..m], digestOk);
      r.verdict == Refused(Truncated) && r.plain <= Concat(full)
  {
    NonFinalReadsBack(w, limit, index, full[0], tail[..m], digestOk);
    assert Concat(full) == full[0] + Concat(full[1..]);
  }

  // ---- A source that fails ----

  // What is handed out before the failure is the beginning of what the whole body
  // yields, however it goes on.
  lemma {:induction false} BrokenIsTheBeginning(
    w: Framer, limit: nat, index: nat, src: bytes, rest: bytes, digestOk: bool)
    requires w.Faithful(limit)
    ensures ScanBroken(w, index, src).plain <= Scan(w, index, src + rest, digestOk).plain
    decreases |src|
  {
    var step := w.read(index, src);
    if step.Frame? {
      ReadsOn(w, limit, index, src, rest);
      if step.flag == NonFinal {
        BrokenIsTheBeginning(w, limit, index + 1, step.rest, rest, digestOk);
      }
    }
  }

  lemma ReadsOn(w: Framer, limit: nat, index: nat, src: bytes, rest: bytes)
    requires w.ReadsBack(limit) && w.WasWritten(limit) && w.read(index, src).Frame?
    ensures var f := w.read(index, src); w.read(index, src + rest) == Frame(f.plain, f.flag, f.rest + rest)
  {
    var f := w.read(index, src);
    Assoc(w.write(index, f.flag, f.plain), f.rest, rest);
  }

  // It differs from the reading of the same bytes to their end only in what the end
  // itself is taken for.
  lemma {:induction false} BrokenDiffersAtTheEnd(w: Framer, index: nat, src: bytes)
    ensures ScanBroken(w, index, src).plain <= Scan(w, index, src, true).plain
    ensures ScanBroken(w, index, src).verdict == Refused(DecryptFailed) <==>
      Scan(w, index, src, true).verdict == Refused(DecryptFailed)
    ensures Scan(w, index, src, true).verdict == Accepted ==> ScanBroken(w, index, src).verdict == Refused(SourceFailed)
    decreases |src|
  {
    var step := w.read(index, src);
    if step.Frame? && step.flag == NonFinal { BrokenDiffersAtTheEnd(w, index + 1, step.rest); }
  }
}
