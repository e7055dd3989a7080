// The writing half of the frame format: buffer plaintext, and emit a frame as
// non-final only once it is known that more plaintext follows.
module FrameWriting {
  import opened Bytes
  import opened Aead
  import opened Files
  import opened FrameLanguage
  import opened FrameFormat

  class FrameWriter {
    const dst: File
    const aead: Cipher
    const base: Base
    const frameSize: nat

    var buf: bytes
    var index: nat
    var closed: bool
    // Everything that got to the destination, in order.
    var out: bytes

    // The plaintext accepted so far, and the full frames already emitted.
    ghost var written: bytes
    ghost var full: seq<bytes>

    // The destination before anything was written to it, where that began, and what
    // was there before the first frame.
    ghost const original: bytes
    ghost const start: nat
    ghost const before: bytes

    ghost predicate Placed()
      reads this, dst
    {
      Holds(dst.data, original, start, before + out) && dst.cursor == start + |before + out|
    }

    // Between calls: every emitted frame is full and provably not the last, and
    // what a closed writer has emitted depends on nothing but `written`.
    ghost predicate Valid()
      reads this, dst
    {
      && frameSize > 0
      && Placed()
      && if closed then
           out == EncodeBody(Framed(aead, base), written, frameSize)
         else Open()
    }

    ghost predicate Open()
      reads this
    {
      && frameSize > 0
      && written == Concat(full) + buf
      && Cut(full, buf, frameSize)
      && Emitted()
    }

    ghost predicate Emitted()
      reads this
    {
      && index == |full|
      && out == Run(Framed(aead, base), 0, full)
    }

    // After the destination failed: the full frames, and some of the next one.
    ghost predicate CutOff(flag: Flag)
      reads this, dst
    {
      && frameSize > 0
      && Placed()
      && written == Concat(full) + buf
      && Cut(full, buf, frameSize)
      && index == |full|
      && var emitted := Run(Framed(aead, base), 0, full);
         emitted <= out <= emitted + FrameBytes(aead, base, |full|, flag, buf)
    }

    constructor (
      dst: File, aead: Cipher, base: Base, frameSize: nat,
      ghost original: bytes, ghost start: nat, ghost before: bytes)
      requires frameSize > 0
      requires Holds(dst.data, original, start, before) && dst.cursor == start + |before|
      ensures Valid() && !closed && written == []
      ensures this.dst == dst && this.aead == aead && this.base == base && this.frameSize == frameSize
      ensures this.original == original && this.start == start && this.before == before
    {
      this.dst, this.aead, this.base, this.frameSize := dst, aead, base, frameSize;
      this.original, this.start, this.before := original, start, before;
      buf, index, closed, out := [], 0, false, [];
      written, full := [], [];
      new;
      assert before + [] == before;
    }

    // Accepts all of p, or nothing once closed. How a plaintext is split into
    // calls leaves no trace: only `written` changes. If the destination fails, so
    // does the call, having accepted only what fits the frame it could not emit.
    method Write(p: bytes) returns (n: nat, ok: bool)
      requires Valid()
      modifies this, dst
      ensures closed == old(closed) && n <= |p| && written == old(written) + p[..n]
      ensures old(closed) ==> !ok && n == 0 && out == old(out) && Valid()
      ensures !old(closed) && ok ==> n == |p| && Valid()
      ensures !old(closed) && !ok ==> n < |p| && |buf| == frameSize && CutOff(NonFinal)
      ensures dst.failures == old(dst.failures) + if ok || old(closed) then 0 else 1
    {
      assert written + p[..0] == written;
      if closed { return 0, false; }
      n := 0;
      while n < |p|
        invariant Open() && Placed() && closed == old(closed) && dst.failures == old(dst.failures)
        invariant n <= |p| && written == old(written) + p[..n]
      {
        var took, made := Take(p[n..]);
        if !made { return n, false; }
        Advanced(old(written), p, n, took);
        n := n + took;
      }
      return n, true;
    }

    lemma Advanced(before: bytes, p: bytes, n: nat, took: nat)
      requires n + took <= |p|
      ensures before + p[..n] + p[n..][..took] == before + p[..n + took]
    {
      assert p[..n + took] == p[..n] + p[n..][..took];
      Assoc(before, p[..n], p[n..][..took]);
    }

    // One turn of Write's loop: make room if there is none, and fill it.
    method Take(p: bytes) returns (took: nat, ok: bool)
      requires Open() && Placed() && p != []
      modifies this`buf, this`index, this`out, this`written, this`full, dst
      ensures ok ==> Open() && Placed()
      ensures ok ==> 0 < took <= |p| && written == old(written) + p[..took]
      ensures !ok ==> written == old(written) && |buf| == frameSize && CutOff(NonFinal)
      ensures dst.failures == old(dst.failures) + if ok then 0 else 1
    {
      if |buf| == frameSize {
        ok := EmitFull();
        if !ok { return 0, false; }
      }
      took := if frameSize - |buf| > |p| then |p| else frameSize - |buf|;
      Append(p[..took]);
      ok := true;
    }

    method Append(p: bytes)
      requires written == Concat(full) + buf
      modifies this`buf, this`written
      ensures buf == old(buf) + p && written == old(written) + p
      ensures written == Concat(full) + buf
    {
      assert Concat(full) + (buf + p) == written + p;
      buf := buf + p;
      written := written + p;
    }

    // The one place a frame goes out as non-final: the buffer is full and more
    // input remains.
    method EmitFull() returns (ok: bool)
      requires Open() && Placed() && |buf| == frameSize
      modifies this`buf, this`index, this`out, this`full, dst
      ensures Placed()
      ensures ok ==> buf == [] && Emitted() && written == Concat(full) == Concat(full) + buf
      ensures ok ==> forall k :: 0 <= k < |full| ==> |full[k]| == frameSize
      ensures !ok ==> |buf| == frameSize && CutOff(NonFinal)
      ensures dst.failures == old(dst.failures) + if ok then 0 else 1
    {
      RunAppend(Framed(aead, base), 0, full, buf);
      ConcatAppend(full, buf);
      ghost var chunk := buf;
      ok := Emit(NonFinal);
      if !ok { return; }
      full := full + [chunk];
    }

    // Emits whatever remains as the final frame, even when nothing does. If the
    // destination fails, it has a beginning of the body of everything written.
    method Close() returns (ok: bool)
      requires Valid()
      modifies this, dst
      ensures closed && written == old(written)
      ensures old(closed) ==> ok && out == old(out)
      ensures ok ==> Valid()
      ensures !ok ==> CutOff(Final) && out <= EncodeBody(Framed(aead, base), written, frameSize)
      ensures dst.failures == old(dst.failures) + if ok then 0 else 1
    {
      if closed { return true; }
      closed := true;
      CutIsUnique(full, buf, frameSize);
      ok := Emit(Final);
    }

    // One frame in two writes. When one fails the writer stays at that frame.
    method Emit(flag: Flag) returns (ok: bool)
      requires Placed()
      modifies this`buf, this`index, this`out, dst
      ensures Placed()
      ensures ok ==> buf == [] && index == old(index) + 1
      ensures ok ==> out == old(out) + FrameBytes(aead, base, old(index), flag, old(buf))
      ensures !ok ==> buf == old(buf) && index == old(index)
      ensures !ok ==> old(out) <= out <= old(out) + FrameBytes(aead, base, index, flag, buf)
      ensures dst.failures == old(dst.failures) + if ok then 0 else 1
    {
      var nonce := DeriveFrameNonce(base, index);
      var ct := aead.seal(nonce, flag, buf);
      var length := BigEndian(|ct|, LENGTH_SIZE);
      Assoc(out, length, ct);
      ok := Put(length);
      if !ok { return; }
      ok := Put(ct);
      if !ok { return; }
      buf := [];
      index := index + 1;
    }

    // Hands p to the destination.
    method Put(p: bytes) returns (ok: bool)
      requires Placed()
      modifies this`out, dst
      ensures Placed()
      ensures ok ==> out == old(out) + p
      ensures !ok ==> old(out) <= out <= old(out) + p
      ensures dst.failures == old(dst.failures) + if ok then 0 else 1
    {
      var n, done := Hand(p);
      Between(old(out), p, n);
      ok := done;
    }

    method Hand(p: bytes) returns (n: nat, done: bool)
      requires Placed()
      modifies this`out, dst
      ensures Placed() && n <= |p| && (done ==> n == |p|)
      ensures out == old(out) + p[..n]
      ensures dst.failures == old(dst.failures) + if done then 0 else 1
    {
      ghost var data, at := dst.data, dst.cursor;
      n, done := dst.Write(p);
      Record(p[..n], data, at);
    }

    lemma Between(before: bytes, p: bytes, n: nat)
      requires n <= |p|
      ensures before <= before + p[..n] <= before + p
      ensures n == |p| ==> p[..n] == p
    {
    }

    // Takes note of what got to the destination.
    method Record(p: bytes, ghost data: bytes, ghost at: nat)
      requires Holds(data, original, start, before + out) && at == start + |before + out|
      requires dst.data == Overwrite(data, at, p) && dst.cursor == at + |p|
      modifies this`out
      ensures Placed() && out == old(out) + p
    {
      HoldsAppend(data, original, start, before + out, p);
      Assoc(before, out, p);
      out := out + p;
    }
  }
}
