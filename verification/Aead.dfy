// Frame nonces, and the authenticated encryption the frames are sealed with.
//
// The cipher itself is not modelled. It is a pair of functions in the shape of
// sections 2.1 and 2.2 of RFC 5116, and everything proved about frames is proved
// for every pair that satisfies Lawful. Toy is one such pair, so Lawful is not
// an empty assumption.
module Aead {
  import opened Wrappers
  import opened Bytes

  const NONCE_SIZE := 24
  const COUNTER_SIZE := 8
  const PREFIX_SIZE := NONCE_SIZE - COUNTER_SIZE
  const OVERHEAD := 16

  // The one byte of associated data a frame binds.
  datatype Flag = NonFinal | Final

  datatype Cipher = Cipher(
    seal: (bytes, Flag, bytes) -> bytes,
    open: (bytes, Flag, bytes) -> Option<bytes>)
  {
    // Seal adds a tag of fixed length; Open inverts Seal; Open succeeds only on
    // a Seal output; and what is sealed under one nonce and flag never opens
    // under another. The last clause speaks of nonces that share their random
    // prefix, which is all that one archive uses: a 16-byte tag cannot keep all
    // 24-byte nonces apart.
    ghost predicate Lawful() {
      && (forall n, f, p {:trigger seal(n, f, p)} :: |n| == NONCE_SIZE ==> |seal(n, f, p)| == |p| + OVERHEAD)
      && (forall n, f, p {:trigger open(n, f, seal(n, f, p))} :: |n| == NONCE_SIZE ==>
        open(n, f, seal(n, f, p)) == Some(p))
      && (forall n, f, c {:trigger open(n, f, c)} :: |n| == NONCE_SIZE && open(n, f, c).Some? ==>
        c == seal(n, f, open(n, f, c).value))
      && (forall n, f, p, n', f' {:trigger open(n', f', seal(n, f, p))} ::
            |n| == |n'| == NONCE_SIZE && n[..PREFIX_SIZE] == n'[..PREFIX_SIZE] && (n, f) != (n', f') ==>
              open(n', f', seal(n, f, p)).None?)
    }
  }

  // Frame `index`'s nonce: the base nonce with the index XORed into its last
  // eight bytes as a big-endian 64-bit integer.
  function FrameNonce(base: bytes, index: nat): (nonce: bytes)
    requires |base| == NONCE_SIZE
    ensures |nonce| == NONCE_SIZE && nonce[..PREFIX_SIZE] == base[..PREFIX_SIZE]
  {
    var counter := BigEndian(index, COUNTER_SIZE);
    seq(NONCE_SIZE, i requires 0 <= i < NONCE_SIZE =>
      if i < PREFIX_SIZE then base[i] else Xor(base[i], counter[i - PREFIX_SIZE]))
  }

  method DeriveFrameNonce(base: bytes, index: nat) returns (derived: bytes)
    requires |base| == NONCE_SIZE
    ensures derived == FrameNonce(base, index)
  {
    var nonce := new byte[NONCE_SIZE];
    for i := 0 to NONCE_SIZE
      invariant nonce[..i] == base[..i]
    {
      nonce[i] := base[i];
    }
    var counter := BigEndian(index, COUNTER_SIZE);
    for i := 0 to COUNTER_SIZE
      invariant nonce[..PREFIX_SIZE] == base[..PREFIX_SIZE]
      invariant forall k :: 0 <= k < i ==> nonce[PREFIX_SIZE + k] == Xor(base[PREFIX_SIZE + k], counter[k])
      invariant forall k :: PREFIX_SIZE + i <= k < NONCE_SIZE ==> nonce[k] == base[k]
    {
      nonce[NONCE_SIZE - COUNTER_SIZE + i] := Xor(nonce[NONCE_SIZE - COUNTER_SIZE + i], counter[i]);
    }
    derived := nonce[..];
    var spec := FrameNonce(base, index);
    forall k | 0 <= k < NONCE_SIZE ensures derived[k] == spec[k] {
      if k < PREFIX_SIZE {
        assert derived[k] == derived[..PREFIX_SIZE][k];
      } else {
        assert derived[k] == nonce[PREFIX_SIZE + (k - PREFIX_SIZE)];
      }
    }
  }

  // The nonce can be read back to its index, so within the 2^64 indices a
  // counter can hold no two frames of an archive share a nonce.
  lemma FrameNonceInjective(base: bytes, i: nat, j: nat)
    requires |base| == NONCE_SIZE
    requires i < Radix(COUNTER_SIZE) && j < Radix(COUNTER_SIZE)
    requires FrameNonce(base, i) == FrameNonce(base, j)
    ensures i == j
  {
    var ci, cj := BigEndian(i, COUNTER_SIZE), BigEndian(j, COUNTER_SIZE);
    forall k | 0 <= k < COUNTER_SIZE ensures ci[k] == cj[k] {
      var b := base[PREFIX_SIZE + k];
      assert FrameNonce(base, i)[PREFIX_SIZE + k] == Xor(b, ci[k]);
      assert FrameNonce(base, j)[PREFIX_SIZE + k] == Xor(b, cj[k]);
      XorCancels(b, ci[k]);
      XorCancels(b, cj[k]);
    }
    assert ci == cj;
    BigEndianRoundTrip(i, COUNTER_SIZE);
    BigEndianRoundTrip(j, COUNTER_SIZE);
  }

  // A cipher that hides nothing and authenticates by writing the counter part
  // of the nonce and the flag into the tag.
  function Tag(n: bytes, f: Flag): (t: bytes)
    requires |n| == NONCE_SIZE
    ensures |t| == OVERHEAD
  {
    n[PREFIX_SIZE..] + [if f == Final then 1 else 0, 0, 0, 0, 0, 0, 0, 0]
  }

  function ToySeal(n: bytes, f: Flag, p: bytes): bytes {
    if |n| == NONCE_SIZE then p + Tag(n, f) else p
  }

  function ToyOpen(n: bytes, f: Flag, c: bytes): Option<bytes> {
    if |n| != NONCE_SIZE || |c| < OVERHEAD then None
    else if c[|c| - OVERHEAD..] == Tag(n, f) then Some(c[..|c| - OVERHEAD])
    else None
  }

  const Toy := Cipher((n, f, p) => ToySeal(n, f, p), (n, f, c) => ToyOpen(n, f, c))

  lemma ToyIsLawful()
    ensures Toy.Lawful()
  {
    forall n, f, p | |n| == NONCE_SIZE
      ensures Toy.open(n, f, Toy.seal(n, f, p)) == Some(p)
    {
      var c := ToySeal(n, f, p);
      assert c[|c| - OVERHEAD..] == Tag(n, f) && c[..|c| - OVERHEAD] == p;
    }
    forall n, f, c | |n| == NONCE_SIZE && Toy.open(n, f, c).Some?
      ensures c == Toy.seal(n, f, Toy.open(n, f, c).value)
    {
      assert c == c[..|c| - OVERHEAD] + c[|c| - OVERHEAD..];
    }
    forall n, f, p, n', f' |
      |n| == |n'| == NONCE_SIZE && n[..PREFIX_SIZE] == n'[..PREFIX_SIZE] && (n, f) != (n', f')
      ensures Toy.open(n', f', Toy.seal(n, f, p)).None?
    {
      var c := ToySeal(n, f, p);
      assert c[|c| - OVERHEAD..] == Tag(n, f);
      TagInjective(n, f, n', f');
    }
  }

  lemma TagInjective(n: bytes, f: Flag, n': bytes, f': Flag)
    requires |n| == |n'| == NONCE_SIZE && n[..PREFIX_SIZE] == n'[..PREFIX_SIZE]
    ensures Tag(n, f) == Tag(n', f') ==> n == n' && f == f'
  {
    if Tag(n, f) == Tag(n', f') {
      assert Tag(n, f)[COUNTER_SIZE] == Tag(n', f')[COUNTER_SIZE];
      assert n[PREFIX_SIZE..] == Tag(n, f)[..COUNTER_SIZE] == Tag(n', f')[..COUNTER_SIZE] == n'[PREFIX_SIZE..];
      assert n == n[..PREFIX_SIZE] + n[PREFIX_SIZE..];
      assert n' == n'[..PREFIX_SIZE] + n'[PREFIX_SIZE..];
    }
  }
}
