// The reading half of the frame format: authenticate one frame at a time, hand
// out its plaintext in whatever pieces the consumer asks for, and give one
// verdict on the whole body however early the consumer stops.
module FrameReading {
  import opened Wrappers
  import opened Bytes
  import opened Aead
  import opened ArchiveCodes
  import opened FrameLanguage
  import opened FrameFormat

  datatype Status = Delivered | EndOfStream | Failed(code: Code)

  const FINISH_BUFFER := 32 * 1024

  class FrameReader {
    const body: bytes
    // Whether the source fails where the body's bytes end, instead of ending there.
    const breaks: bool
    const aead: Cipher
    const base: Base
    const hash: bytes -> string
    const digest: string

    var pos: nat
    var hashed: bytes
    var plain: bytes
    var index: nat
    var sawFinal: bool
    var err: Option<Code>

    // Every byte handed to the consumer so far.
    ghost var delivered: bytes

    ghost function Whole(): Reading {
      if breaks then ScanBroken(Framed(aead, base), 0, body) else Judge(aead, base, hash, digest, body)
    }

    // What the reader has delivered, has staged and has yet to read always adds
    // up to the one reading of the body.
    ghost predicate Valid()
      reads this
    {
      && pos <= |body|
      && match err
         case Some(code) => plain == [] && Whole() == Reading(delivered, Refused(code))
         case None =>
           && hashed == body[..pos]
           && if sawFinal then Whole() == Reading(delivered + plain, Accepted)
              else Whole() == Reading(delivered + plain + Ahead().plain, Ahead().verdict)
    }

    // The reading of what has not been fetched yet.
    ghost function Ahead(): Reading
      requires pos <= |body|
      reads this
    {
      ReadingFrom(index, body[pos..])
    }

    ghost function ReadingFrom(from: nat, src: bytes): Reading {
      if breaks then ScanBroken(Framed(aead, base), from, src)
      else Scan(Framed(aead, base), from, src, hash(body) == digest)
    }

    constructor (body: bytes, breaks: bool, aead: Cipher, base: Base, hash: bytes -> string, digest: string)
      ensures Valid() && delivered == []
      ensures this.body == body && this.breaks == breaks && this.aead == aead && this.base == base
      ensures this.hash == hash && this.digest == digest
    {
      this.body, this.breaks, this.aead, this.base, this.hash, this.digest := body, breaks, aead, base, hash, digest;
      pos, hashed, plain, index, sawFinal, err := 0, [], [], 0, false, None;
      delivered := [];
      new;
      assert body[0..] == body;
    }

    lemma DeliveredIsAPrefix()
      requires Valid()
      ensures delivered <= Whole().plain
    {
    }

    // Fills a buffer of n bytes. What is handed out is always the next part of
    // the body's reading; the end of the stream is reported only after all of an
    // accepted reading, and a refusal only after all of a refused one.
    method Read(n: nat) returns (data: bytes, status: Status)
      requires Valid()
      modifies this
      ensures Valid()
      ensures delivered == old(delivered) + data && |data| <= n
      ensures status != Delivered ==> data == []
      ensures status == Delivered && n > 0 ==> data != []
      ensures status == EndOfStream ==> sawFinal && err == None && Whole() == Reading(delivered, Accepted)
      ensures status.Failed? ==> err == Some(status.code) && Whole() == Reading(delivered, Refused(status.code))
      ensures status.Delivered? ==> err == None
    {
      assert delivered + [] == delivered;
      while true
        invariant Valid() && delivered == old(delivered)
        decreases |body| - pos, if err.None? && !sawFinal then 1 else 0
      {
        if err.Some? { return [], Failed(err.value); }
        if plain != [] {
          var m := if n < |plain| then n else |plain|;
          data := plain[..m];
          Hand(m);
          return data, Delivered;
        }
        assert delivered + plain == delivered;
        if sawFinal { return [], EndOfStream; }
        var refusal := Next();
        if refusal.Some? {
          err := refusal;
          return [], Failed(refusal.value);
        }
      }
    }

    // Moves m staged bytes to the consumer.
    method Hand(m: nat)
      requires Valid() && err.None? && m <= |plain|
      modifies this`plain, this`delivered
      ensures Valid()
      ensures delivered == old(delivered) + old(plain)[..m] && plain == old(plain)[m..]
    {
      assert plain == plain[..m] + plain[m..];
      Assoc(delivered, plain[..m], plain[m..]);
      delivered := delivered + plain[..m];
      plain := plain[m..];
    }

    // Stages one frame's plaintext, once everything required of the sequence up
    // to it holds. Whatever refuses a frame, nothing of it is staged.
    method Next() returns (refusal: Option<Code>)
      requires Valid() && err.None? && !sawFinal && plain == []
      modifies this`pos, this`hashed, this`plain, this`index, this`sawFinal
      ensures delivered == old(delivered)
      ensures refusal.None? ==> Valid() && pos > old(pos)
      ensures refusal.Some? ==> plain == [] && pos <= |body| && Whole() == Reading(delivered, Refused(refusal.value))
    {
      Unstaged();
      ghost var seen := Ahead();
      var step := Fetch();
      OneStep(body[old(pos)..], step);
      refusal := Settle(step, seen);
    }

    lemma Unstaged()
      requires Valid() && err.None? && !sawFinal && plain == []
      ensures Whole() == Reading(delivered + Ahead().plain, Ahead().verdict)
    {
      NothingStaged(delivered);
    }

    // What running out of bytes is taken for.
    function AtTheEnd(): Code {
      if breaks then SourceFailed else Truncated
    }

    // A reading, by its first frame.
    ghost function After(step: Step): Reading
      reads this
    {
      match step
      case EndOfInput => Reading([], Refused(AtTheEnd()))
      case Unauthentic => Reading([], Refused(DecryptFailed))
      case Frame(p, NonFinal, rest) =>
        var r := ReadingFrom(index + 1, rest);
        Reading(p + r.plain, r.verdict)
      case Frame(p, Final, rest) =>
        if rest != [] then Reading([], Refused(Truncated))
        else if breaks then Reading([], Refused(SourceFailed))
        else if hash(body) != digest then Reading([], Refused(SignatureInvalid))
        else Reading(p, Accepted)
    }

    lemma OneStep(src: bytes, step: Step)
      requires step == NextFrame(aead, base, index, src)
      ensures ReadingFrom(index, src) == After(step)
    {
      assert step == Framed(aead, base).read(index, src);
    }

    method Settle(step: Step, ghost seen: Reading) returns (refusal: Option<Code>)
      requires pos <= |body| && err.None? && !sawFinal && plain == []
      requires step.Frame? ==> hashed == body[..pos] && step.rest == body[pos..]
      requires seen == After(step) && Whole() == Reading(delivered + seen.plain, seen.verdict)
      modifies this`plain, this`index, this`sawFinal
      ensures refusal.None? ==> step.Frame? && Valid()
      ensures refusal.Some? ==> plain == [] && Whole() == Reading(delivered, Refused(refusal.value))
    {
      match step {
        case EndOfInput =>
          Ends(seen, AtTheEnd());
          return Some(AtTheEnd());
        case Unauthentic =>
          Ends(seen, DecryptFailed);
          return Some(DecryptFailed);
        case Frame(p, NonFinal, rest) =>
          index := index + 1;
          StageNonFinal(p, seen);
          return None;
        case Frame(p, Final, rest) =>
          index, sawFinal := index + 1, true;
          refusal := StageFinal(p, seen);
      }
    }

    // A reading that is over adds nothing to what was delivered.
    lemma Ends(seen: Reading, code: Code)
      requires Whole() == Reading(delivered + seen.plain, seen.verdict)
      ensures seen == Reading([], Refused(code)) ==> Whole() == Reading(delivered, Refused(code))
    {
      NothingStaged(delivered);
    }

    method StageFinal(p: bytes, ghost seen: Reading) returns (refusal: Option<Code>)
      requires pos <= |body| && hashed == body[..pos] && err.None? && sawFinal && plain == []
      requires Whole() == Reading(delivered + seen.plain, seen.verdict)
      requires seen ==
        if body[pos..] != [] then Reading([], Refused(Truncated))
        else if breaks then Reading([], Refused(SourceFailed))
        else if hash(body) != digest then Reading([], Refused(SignatureInvalid))
        else Reading(p, Accepted)
      modifies this`plain
      ensures refusal.None? ==> Valid()
      ensures refusal.Some? ==> plain == [] && Whole() == Reading(delivered, Refused(refusal.value))
    {
      refusal := CheckEnd();
      NothingStaged(delivered);
      if refusal.None? { plain := p; }
    }

    method StageNonFinal(p: bytes, ghost seen: Reading)
      requires pos <= |body| && hashed == body[..pos] && err.None? && !sawFinal
      requires Whole() == Reading(delivered + seen.plain, seen.verdict)
      requires seen == Reading(p + Ahead().plain, Ahead().verdict)
      modifies this`plain
      ensures Valid()
    {
      Assoc(delivered, p, Ahead().plain);
      plain := p;
    }

    lemma NothingStaged(d: bytes)
      ensures d + [] == d
    {
    }

    // Once the final frame is in: no byte may follow it, and only then is the
    // digest of everything read compared.
    method CheckEnd() returns (refusal: Option<Code>)
      requires pos <= |body| && hashed == body[..pos]
      ensures refusal == if body[pos..] != [] then Some(Truncated)
                         else if breaks then Some(SourceFailed)
                         else if hash(body) != digest then Some(SignatureInvalid) else None
    {
      if pos < |body| { return Some(Truncated); }
      if breaks { return Some(SourceFailed); }
      assert hashed == body;
      if hash(hashed) != digest { return Some(SignatureInvalid); }
      return None;
    }

    // Reads one frame and tries it against both flags, the non-final one first.
    method Fetch() returns (step: Step)
      requires pos <= |body| && hashed == body[..pos]
      modifies this`pos, this`hashed
      ensures pos <= |body|
      ensures step == NextFrame(aead, base, index, body[old(pos)..])
      ensures step.Frame? ==> pos > old(pos) && step.rest == body[pos..] && hashed == body[..pos]
    {
      ghost var src := body[pos..];
      var length := ReadFull(LENGTH_SIZE);
      if length.None? { return EndOfInput; }
      hashed := hashed + length.value;
      assert src[..LENGTH_SIZE] == length.value;

      var n := FromBigEndian(length.value);
      if n > MAX_CIPHERTEXT { return Unauthentic; }
      if n < OVERHEAD { return Unauthentic; }
      var ct := ReadFull(n);
      if ct.None? { return EndOfInput; }
      hashed := hashed + ct.value;
      assert src[LENGTH_SIZE..LENGTH_SIZE + n] == ct.value;
      assert src[LENGTH_SIZE + n..] == body[pos..];

      var nonce := DeriveFrameNonce(base, index);
      var flag := NonFinal;
      var got := aead.open(nonce, flag, ct.value);
      if got.None? {
        flag := Final;
        got := aead.open(nonce, flag, ct.value);
        if got.None? { return Unauthentic; }
      }
      return Frame(got.value, flag, body[pos..]);
    }

    // The next n bytes of the source, or None (with the source exhausted) when
    // fewer remain.
    method ReadFull(n: nat) returns (p: Option<bytes>)
      requires pos <= |body|
      modifies this`pos
      ensures pos <= |body|
      ensures p.Some? <==> old(pos) + n <= |body|
      ensures p.Some? ==> pos == old(pos) + n && p.value == body[old(pos)..pos]
      ensures p.None? ==> pos == |body|
    {
      if pos + n > |body| {
        pos := |body|;
        return None;
      }
      p := Some(body[pos..pos + n]);
      pos := pos + n;
    }

    // The body's verdict. It is a function of the body alone: whatever was read
    // before, and wherever the consumer stopped, it is the same.
    method Finish() returns (verdict: Verdict)
      requires Valid()
      modifies this
      ensures Valid()
      ensures verdict == Whole().verdict
    {
      while err.None? && !sawFinal
        invariant Valid()
        decreases |Whole().plain| - |delivered|
      {
        var data, status := Read(FINISH_BUFFER);
        if status != Delivered { break; }
      }
      if err.Some? { return Refused(err.value); }
      if !sawFinal { return Refused(Truncated); }
      return Accepted;
    }
  }
}
