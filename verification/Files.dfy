// A seekable file.
module Files {
  import opened Bytes

  function Zeros(n: nat): (z: bytes)
    ensures |z| == n
  {
    if n == 0 then [] else Zeros(n - 1) + [0]
  }

  // The first `at` bytes of a file, a gap past its end reading as zeros.
  function Head(data: bytes, at: nat): (h: bytes)
    ensures |h| == at
  {
    if at <= |data| then data[..at] else data + Zeros(at - |data|)
  }

  function Tail(data: bytes, from: nat): bytes {
    if from < |data| then data[from..] else []
  }

  // The file after p is written at offset `at`: what comes before and after p
  // keeps its value. Writing nothing changes nothing.
  function Overwrite(data: bytes, at: nat, p: bytes): bytes {
    if p == [] then data else Head(data, at) + p + Tail(data, at + |p|)
  }

  lemma TailTail(data: bytes, a: nat, b: nat)
    ensures Tail(Tail(data, a), b) == Tail(data, a + b)
  {
  }

  // Writing p over the bytes that follow x.
  lemma Splice(x: bytes, t: bytes, p: bytes)
    ensures Overwrite(x + t, |x|, p) == x + p + Tail(t, |p|)
  {
    var data := x + t;
    if p == [] {
      assert x + p == x && Tail(t, 0) == t;
    } else {
      assert Head(data, |x|) == x;
      assert Tail(data, |x| + |p|) == Tail(t, |p|);
    }
  }

  // The file holds w at `start`, and is as it was everywhere else.
  ghost predicate Holds(data: bytes, original: bytes, start: nat, w: bytes) {
    data == Head(original, start) + w + Tail(original, start + |w|)
  }

  lemma HoldsKeepsHead(data: bytes, original: bytes, start: nat, w: bytes)
    requires Holds(data, original, start, w)
    ensures Head(data, start) == Head(original, start)
  {
    var h := Head(original, start);
    assert data == h + (w + Tail(original, start + |w|));
  }

  lemma HoldsAppend(data: bytes, original: bytes, start: nat, w: bytes, p: bytes)
    requires Holds(data, original, start, w)
    ensures Holds(Overwrite(data, start + |w|, p), original, start, w + p)
  {
    var h, t := Head(original, start), Tail(original, start + |w|);
    TailTail(original, start + |w|, |p|);
    AppendIn(data, start + |w|, h, w, t, p, Tail(original, start + |w + p|));
  }

  lemma AppendIn(data: bytes, at: nat, h: bytes, w: bytes, t: bytes, p: bytes, left: bytes)
    requires data == h + w + t && at == |h| + |w| && left == Tail(t, |p|)
    ensures Overwrite(data, at, p) == h + (w + p) + left
  {
    Splice(h + w, t, p);
    Assoc(h, w, p);
  }

  // Rewriting part of what is held with as many bytes replaces that part only.
  lemma HoldsRewrite(data: bytes, original: bytes, start: nat, x: bytes, p: bytes, p': bytes, y: bytes)
    requires |p| == |p'|
    requires Holds(data, original, start, x + p + y)
    ensures Holds(Overwrite(data, start + |x|, p'), original, start, x + p' + y)
  {
    RewriteHeld(data, original, start, x, p, p', y, start + |x + p + y|, start + |x + p' + y|);
  }

  lemma RewriteHeld(
    data: bytes, original: bytes, start: nat, x: bytes, p: bytes, p': bytes, y: bytes, end: nat, end': nat)
    requires |p| == |p'| && end == end'
    requires data == Head(original, start) + (x + p + y) + Tail(original, end)
    ensures Overwrite(data, start + |x|, p') == Head(original, start) + (x + p' + y) + Tail(original, end')
  {
    RewriteAt(data, start + |x|, Head(original, start), x, p, p', y, Tail(original, end),
      Overwrite(data, start + |x|, p'));
  }

  lemma RewriteAt(data: bytes, at: nat, h: bytes, x: bytes, p: bytes, p': bytes, y: bytes, t: bytes, after: bytes)
    requires |p| == |p'| && data == h + (x + p + y) + t && at == |h| + |x| && after == Overwrite(data, at, p')
    ensures after == h + (x + p' + y) + t
  {
    RewriteIn(data, at, h, x, p, p', y, t);
  }

  lemma RewriteIn(data: bytes, at: nat, h: bytes, x: bytes, p: bytes, p': bytes, y: bytes, t: bytes)
    requires |p| == |p'| && data == h + (x + p + y) + t && at == |h| + |x|
    ensures Overwrite(data, at, p') == h + (x + p' + y) + t
  {
    RewriteInside(h + x, p, p', y + t);
    Regroup(h, x, p, y, t);
    Regroup(h, x, p', y, t);
  }

  lemma RewriteInside(front: bytes, p: bytes, p': bytes, back: bytes)
    requires |p| == |p'|
    ensures Overwrite(front + (p + back), |front|, p') == front + (p' + back)
  {
    Splice(front, p + back, p');
    DropPrefix(p, back);
    Assoc(front, p', back);
  }

  lemma Regroup(h: bytes, x: bytes, p: bytes, y: bytes, t: bytes)
    ensures h + (x + p + y) + t == (h + x) + (p + (y + t))
  {
  }

  lemma DropPrefix(p: bytes, back: bytes)
    ensures Tail(p + back, |p|) == back
  {
  }

  // The file as it was, or but for one stretch of it from `start`.
  ghost predicate Touched(data: bytes, original: bytes, start: nat) {
    data == original || exists w :: Holds(data, original, start, w)
  }

  lemma TouchedKeepsHead(data: bytes, original: bytes, start: nat)
    requires Touched(data, original, start)
    ensures Head(data, start) == Head(original, start)
  {
    if data != original {
      var w :| Holds(data, original, start, w);
      HoldsKeepsHead(data, original, start, w);
    }
  }

  lemma OverwriteTouches(data: bytes, at: nat, p: bytes)
    ensures Touched(Overwrite(data, at, p), data, at)
    ensures p != [] ==> Holds(Overwrite(data, at, p), data, at, p)
  {
    if p != [] { assert Holds(Overwrite(data, at, p), data, at, p); }
  }

  // A file whose operations may fail, and at any point: of what is to be written only
  // a beginning may get there.
  class File {
    var data: bytes
    var cursor: nat
    // How many operations have failed.
    ghost var failures: nat

    constructor (data: bytes, cursor: nat)
      ensures this.data == data && this.cursor == cursor
    {
      this.data, this.cursor := data, cursor;
    }

    method Write(p: bytes) returns (n: nat, ok: bool)
      modifies this
      ensures n <= |p| && (ok ==> n == |p|)
      ensures data == Overwrite(old(data), old(cursor), p[..n]) && cursor == old(cursor) + n
      ensures failures == old(failures) + if ok then 0 else 1
    {
      n, ok := *, *;
      if ok || n > |p| { n := |p|; }
      if !ok { failures := failures + 1; }
      if n == 0 { return; }
      data := Head(data, cursor) + p[..n] + Tail(data, cursor + n);
      cursor := cursor + n;
    }

    method Seek(to: nat) returns (ok: bool)
      modifies this`cursor, this`failures
      ensures cursor == if ok then to else old(cursor)
      ensures failures == old(failures) + if ok then 0 else 1
    {
      ok := *;
      if !ok { failures := failures + 1; }
      if ok { cursor := to; }
    }
  }
}
