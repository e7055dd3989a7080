// Frames as archive/1 puts them on the wire: a length, and a ciphertext sealed
// under the frame's own nonce. What holds of bodies in general is proved in
// FrameLanguage; here it is proved that these frames are an instance.
module FrameFormat {
  import opened Wrappers
  import opened Bytes
  import opened Aead
  import opened ArchiveCodes
  import opened FrameLanguage

  const LENGTH_SIZE := 4
  // The longest ciphertext a reader will buffer.
  const MAX_CIPHERTEXT := 0x400_0000
  // The longest plaintext a readable frame can hold.
  const MAX_CHUNK := MAX_CIPHERTEXT - OVERHEAD

  type Base = b: bytes | |b| == NONCE_SIZE witness seq(NONCE_SIZE, _ => 0)

  // One frame on the wire: the ciphertext's length, truncated to 32 bits, and
  // the ciphertext.
  function FrameBytes(a: Cipher, base: Base, index: nat, flag: Flag, chunk: bytes): bytes {
    var ct := a.seal(FrameNonce(base, index), flag, chunk);
    BigEndian(|ct|, LENGTH_SIZE) + ct
  }

  // Read and authenticate one frame. The flag is learned by trying both values.
  function NextFrame(a: Cipher, base: Base, index: nat, src: bytes): Step {
    if |src| < LENGTH_SIZE then EndOfInput
    else
      var n := FromBigEndian(src[..LENGTH_SIZE]);
      if n > MAX_CIPHERTEXT || n < OVERHEAD then Unauthentic
      else if |src| < LENGTH_SIZE + n then EndOfInput
      else
        var ct := src[LENGTH_SIZE..LENGTH_SIZE + n];
        var rest := src[LENGTH_SIZE + n..];
        var nonce := FrameNonce(base, index);
        match a.open(nonce, NonFinal, ct)
        case Some(p) => Frame(p, NonFinal, rest)
        case None =>
          match a.open(nonce, Final, ct)
          case Some(p) => Frame(p, Final, rest)
          case None => Unauthentic
  }

  function Framed(a: Cipher, base: Base): Framer {
    Codec((i: nat, f, c) => FrameBytes(a, base, i, f, c), (i: nat, src) => NextFrame(a, base, i, src))
  }

  // The reading of a complete body against the digest its header records.
  function Judge(a: Cipher, base: Base, hash: bytes -> string, digest: string, body: bytes): Reading {
    Scan(Framed(a, base), 0, body, hash(body) == digest)
  }

  // A frame as written is read as itself, whatever follows it.
  lemma FrameReadsBack(a: Cipher, base: Base, index: nat, flag: Flag, c: bytes, rest: bytes)
    requires a.Lawful()
    requires |c| <= MAX_CHUNK
    ensures |FrameBytes(a, base, index, flag, c)| == LENGTH_SIZE + |c| + OVERHEAD
    ensures NextFrame(a, base, index, FrameBytes(a, base, index, flag, c) + rest) == Frame(c, flag, rest)
  {
    var nonce := FrameNonce(base, index);
    var ct := a.seal(nonce, flag, c);
    assert |ct| == |c| + OVERHEAD;
    var src := FrameBytes(a, base, index, flag, c) + rest;
    assert src[..LENGTH_SIZE] == BigEndian(|ct|, LENGTH_SIZE);
    WordRadix();
    BigEndianRoundTrip(|ct|, LENGTH_SIZE);
    assert src[LENGTH_SIZE..LENGTH_SIZE + |ct|] == ct;
    assert src[LENGTH_SIZE + |ct|..] == rest;
    assert a.open(nonce, flag, ct) == Some(c);
    assert flag == Final ==> (nonce, flag) != (nonce, NonFinal) && a.open(nonce, NonFinal, ct).None?;
  }

  // A frame read as authentic is a frame some writer sealed at this position.
  lemma FrameWasWritten(a: Cipher, base: Base, index: nat, src: bytes)
    requires a.Lawful()
    requires NextFrame(a, base, index, src).Frame?
    ensures var f := NextFrame(a, base, index, src);
      && |f.plain| <= MAX_CHUNK
      && src == FrameBytes(a, base, index, f.flag, f.plain) + f.rest
  {
    var n := FromBigEndian(src[..LENGTH_SIZE]);
    var ct := src[LENGTH_SIZE..LENGTH_SIZE + n];
    var f := NextFrame(a, base, index, src);
    assert ct == a.seal(FrameNonce(base, index), f.flag, f.plain);
    FromBigEndianRoundTrip(src[..LENGTH_SIZE]);
    assert src == src[..LENGTH_SIZE] + ct + f.rest;
  }

  lemma PartialFrame(a: Cipher, base: Base, index: nat, flag: Flag, c: bytes, k: nat)
    requires a.Lawful()
    requires |c| <= MAX_CHUNK
    requires k < |FrameBytes(a, base, index, flag, c)|
    ensures NextFrame(a, base, index, FrameBytes(a, base, index, flag, c)[..k]) == EndOfInput
  {
    var ct := a.seal(FrameNonce(base, index), flag, c);
    var src := FrameBytes(a, base, index, flag, c)[..k];
    if k >= LENGTH_SIZE {
      assert src[..LENGTH_SIZE] == BigEndian(|ct|, LENGTH_SIZE);
      WordRadix();
      BigEndianRoundTrip(|ct|, LENGTH_SIZE);
    }
  }

  lemma FramedIsFaithful(a: Cipher, base: Base)
    requires a.Lawful()
    ensures Framed(a, base).Faithful(MAX_CHUNK)
  {
    var w := Framed(a, base);
    forall i, f, c, rest | |c| <= MAX_CHUNK
      ensures w.read(i, w.write(i, f, c) + rest) == Frame(c, f, rest)
    {
      FrameReadsBack(a, base, i, f, c, rest);
    }
    forall i, src | w.read(i, src).Frame?
      ensures |w.read(i, src).plain| <= MAX_CHUNK
      ensures src == w.write(i, w.read(i, src).flag, w.read(i, src).plain) + w.read(i, src).rest
    {
      FrameWasWritten(a, base, i, src);
    }
    forall i, f, c, k: nat | |c| <= MAX_CHUNK && k < |w.write(i, f, c)|
      ensures w.read(i, w.write(i, f, c)[..k]) == EndOfInput
    {
      PartialFrame(a, base, i, f, c, k);
    }
  }

  // Every frame of an archive is sealed under its own nonce, up to the 2^64
  // frames its counter can number.
  lemma FrameNoncesDistinct(base: Base, frames: nat)
    requires frames <= Radix(COUNTER_SIZE)
    ensures forall i: nat, j: nat :: i < j < frames ==> FrameNonce(base, i) != FrameNonce(base, j)
  {
    forall i: nat, j: nat | i < j < frames
      ensures FrameNonce(base, i) != FrameNonce(base, j)
    {
      if FrameNonce(base, i) == FrameNonce(base, j) {
        FrameNonceInjective(base, i, j);
        assert false;
      }
    }
  }

  // ---- A written body, read ----

  function FirstFrame(plain: bytes, frameSize: nat): nat {
    if |plain| <= frameSize then |plain| else frameSize
  }

  // What a reader makes of a body some writer produced. A writer will use any
  // frame size it is given, but a reader buffers only so much: the plaintext
  // comes back exactly when its first frame, the largest, is small enough, and
  // otherwise nothing does.
  lemma WrittenBodyReadsBack(a: Cipher, base: Base, plain: bytes, frameSize: nat, hash: bytes -> string, digest: string)
    requires a.Lawful() && frameSize > 0
    requires FirstFrame(plain, frameSize) + OVERHEAD < Radix(LENGTH_SIZE)
    ensures var body := EncodeBody(Framed(a, base), plain, frameSize);
      Judge(a, base, hash, digest, body) ==
        if FirstFrame(plain, frameSize) > MAX_CHUNK then Reading([], Refused(DecryptFailed))
        else if hash(body) != digest then Reading(Concat(Chunked(plain, frameSize).0), Refused(SignatureInvalid))
        else Reading(plain, Accepted)
  {
    var w := Framed(a, base);
    var (full, last) := Chunked(plain, frameSize);
    var body := Body(w, full, last);
    ChunkedIsTheCut(plain, frameSize);
    if FirstFrame(plain, frameSize) <= MAX_CHUNK {
      FramedIsFaithful(a, base);
      BodyReadsBack(w, MAX_CHUNK, full, last, [], hash(body) == digest);
      assert body + [] == body;
    } else {
      BodyIsNotShort(a, base, plain, frameSize);
      OversizedBodyRefused(a, base, plain, frameSize, body, hash(body) == digest);
    }
  }

  // A first frame over the cap is refused on its length alone, whatever follows.
  lemma OversizedFrameRefused(a: Cipher, base: Base, full: seq<bytes>, last: bytes, src: bytes)
    requires a.Lawful()
    requires var first := if full == [] then last else full[0];
      |first| > MAX_CHUNK && |first| + OVERHEAD < Radix(LENGTH_SIZE)
    requires |src| >= LENGTH_SIZE && |Body(Framed(a, base), full, last)| >= LENGTH_SIZE
    requires src[..LENGTH_SIZE] == Body(Framed(a, base), full, last)[..LENGTH_SIZE]
    ensures NextFrame(a, base, 0, src) == Unauthentic
  {
    var w := Framed(a, base);
    var (first, flag) := if full == [] then (last, Final) else (full[0], NonFinal);
    var ct := a.seal(FrameNonce(base, 0), flag, first);
    assert |ct| == |first| + OVERHEAD;
    assert w.write(0, flag, first) == FrameBytes(a, base, 0, flag, first);
    assert Body(w, full, last)[..LENGTH_SIZE] == BigEndian(|ct|, LENGTH_SIZE);
    BigEndianRoundTrip(|ct|, LENGTH_SIZE);
  }

  lemma OversizedBodyRefused(a: Cipher, base: Base, plain: bytes, frameSize: nat, src: bytes, digestOk: bool)
    requires a.Lawful() && frameSize > 0
    requires MAX_CHUNK < FirstFrame(plain, frameSize) && FirstFrame(plain, frameSize) + OVERHEAD < Radix(LENGTH_SIZE)
    requires |src| >= LENGTH_SIZE && |EncodeBody(Framed(a, base), plain, frameSize)| >= LENGTH_SIZE
    requires src[..LENGTH_SIZE] == EncodeBody(Framed(a, base), plain, frameSize)[..LENGTH_SIZE]
    ensures Scan(Framed(a, base), 0, src, digestOk) == Reading([], Refused(DecryptFailed))
  {
    var (full, last) := Chunked(plain, frameSize);
    ChunkedIsTheCut(plain, frameSize);
    OversizedFrameRefused(a, base, full, last, src);
    assert Framed(a, base).read(0, src) == Unauthentic;
  }

  lemma BodyIsNotShort(a: Cipher, base: Base, plain: bytes, frameSize: nat)
    requires a.Lawful() && frameSize > 0
    ensures |EncodeBody(Framed(a, base), plain, frameSize)| >= LENGTH_SIZE
  {
    var (full, last) := Chunked(plain, frameSize);
    var w := Framed(a, base);
    assert |w.write(|full|, Final, last)| == |FrameBytes(a, base, |full|, Final, last)|;
  }

  // A frame size Create accepts and no reader can read back.
  lemma FrameSizeTooLargeToRead(a: Cipher, base: Base, hash: bytes -> string)
    requires a.Lawful()
    ensures var plain: bytes := seq(MAX_CIPHERTEXT, _ => 0);
      var body := EncodeBody(Framed(a, base), plain, MAX_CIPHERTEXT);
      Judge(a, base, hash, hash(body), body).verdict == Refused(DecryptFailed)
  {
    WordRadix();
    var plain: bytes := seq(MAX_CIPHERTEXT, _ => 0);
    WrittenBodyReadsBack(a, base, plain, MAX_CIPHERTEXT, hash,
      hash(EncodeBody(Framed(a, base), plain, MAX_CIPHERTEXT)));
  }

  // A frame moved to another position authenticates under neither flag there.
  lemma MovedFrameIsUnauthentic(a: Cipher, base: Base, from: nat, to: nat, flag: Flag, chunk: bytes, rest: bytes)
    requires a.Lawful() && |chunk| <= MAX_CHUNK
    requires from != to && from < Radix(COUNTER_SIZE) && to < Radix(COUNTER_SIZE)
    ensures NextFrame(a, base, to, FrameBytes(a, base, from, flag, chunk) + rest) == Unauthentic
  {
    if FrameNonce(base, from) == FrameNonce(base, to) { FrameNonceInjective(base, from, to); }
    FrameReadsBack(a, base, from, flag, chunk, rest);
    var ct := a.seal(FrameNonce(base, from), flag, chunk);
    assert a.open(FrameNonce(base, to), NonFinal, ct).None?;
    assert a.open(FrameNonce(base, to), Final, ct).None?;
    var src := FrameBytes(a, base, from, flag, chunk) + rest;
    assert |ct| == |chunk| + OVERHEAD;
    assert src[..LENGTH_SIZE] == BigEndian(|ct|, LENGTH_SIZE);
    WordRadix();
    BigEndianRoundTrip(|ct|, LENGTH_SIZE);
    assert src[LENGTH_SIZE..LENGTH_SIZE + |ct|] == ct;
  }

  // A written body cut short anywhere, or with anything appended, is refused as
  // truncated, and what was handed out by then is the beginning of the plaintext.
  // The one exception is a body no reader could read whole: its first frame is
  // refused as soon as its length is in.
  lemma CutBodyIsTruncated(
    a: Cipher, base: Base, plain: bytes, frameSize: nat, k: nat, hash: bytes -> string, digest: string)
    requires a.Lawful() && frameSize > 0 && FirstFrame(plain, frameSize) + OVERHEAD < Radix(LENGTH_SIZE)
    requires k < |EncodeBody(Framed(a, base), plain, frameSize)|
    ensures var r := Judge(a, base, hash, digest, EncodeBody(Framed(a, base), plain, frameSize)[..k]);
      && r.verdict == Refused(if FirstFrame(plain, frameSize) > MAX_CHUNK && k >= LENGTH_SIZE
        then DecryptFailed else Truncated)
      && r.plain <= plain
  {
    var body := EncodeBody(Framed(a, base), plain, frameSize);
    if k < LENGTH_SIZE {
      assert Framed(a, base).read(0, body[..k]) == EndOfInput;
    } else if FirstFrame(plain, frameSize) > MAX_CHUNK {
      assert body[..k][..LENGTH_SIZE] == body[..LENGTH_SIZE];
      OversizedBodyRefused(a, base, plain, frameSize, body[..k], hash(body[..k]) == digest);
    } else {
      CutReadable(a, base, plain, frameSize, k, hash(body[..k]) == digest);
    }
  }

  lemma CutReadable(a: Cipher, base: Base, plain: bytes, frameSize: nat, k: nat, digestOk: bool)
    requires a.Lawful() && frameSize > 0 && FirstFrame(plain, frameSize) <= MAX_CHUNK
    requires k < |EncodeBody(Framed(a, base), plain, frameSize)|
    ensures var r := Scan(Framed(a, base), 0, EncodeBody(Framed(a, base), plain, frameSize)[..k], digestOk);
      r.verdict == Refused(Truncated) && r.plain <= plain
  {
    FramedIsFaithful(a, base);
    CutBodyIsShort(Framed(a, base), MAX_CHUNK, plain, frameSize, k, digestOk);
  }

  lemma ExtendedBodyIsTruncated(
    a: Cipher, base: Base, plain: bytes, frameSize: nat, tail: bytes, hash: bytes -> string, digest: string)
    requires a.Lawful() && frameSize > 0 && FirstFrame(plain, frameSize) + OVERHEAD < Radix(LENGTH_SIZE)
    requires tail != []
    ensures var r := Judge(a, base, hash, digest, EncodeBody(Framed(a, base), plain, frameSize) + tail);
      && r.verdict == Refused(if FirstFrame(plain, frameSize) > MAX_CHUNK then DecryptFailed else Truncated)
      && r.plain <= plain
  {
    var body := EncodeBody(Framed(a, base), plain, frameSize);
    if FirstFrame(plain, frameSize) > MAX_CHUNK {
      BodyIsNotShort(a, base, plain, frameSize);
      assert (body + tail)[..LENGTH_SIZE] == body[..LENGTH_SIZE];
      OversizedBodyRefused(a, base, plain, frameSize, body + tail, hash(body + tail) == digest);
    } else {
      var (full, last) := Chunked(plain, frameSize);
      ChunkedIsTheCut(plain, frameSize);
      FramedIsFaithful(a, base);
      BodyReadsBack(Framed(a, base), MAX_CHUNK, full, last, tail, hash(body + tail) == digest);
    }
  }

  // The bodies a reader accepts are exactly the digest's preimages among runs of
  // frames each sealed at its own position, the last and only the last marked
  // final. In particular no frame of an accepted body was moved, dropped,
  // repeated or taken from another position.
  lemma AcceptedExactly(a: Cipher, base: Base, hash: bytes -> string, digest: string, body: bytes)
    requires a.Lawful()
    ensures Judge(a, base, hash, digest, body).verdict == Accepted
        <==> hash(body) == digest && IsBody(Framed(a, base), MAX_CHUNK, body)
  {
    FramedIsFaithful(a, base);
    AcceptedIff(Framed(a, base), MAX_CHUNK, body, hash(body) == digest);
  }
}
