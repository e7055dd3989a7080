// Self-delimiting encodings, built from parts: enough to give every law the
// container asks of its documents a concrete instance.
module Wires {
  import opened Wrappers
  import opened Bytes

  datatype Wire<!T> = Wire(put: T -> bytes, get: bytes -> Option<(T, bytes)>)

  // Whatever follows, what was put is got back and nothing more is taken.
  ghost predicate Good<T(!new)>(w: Wire<T>) {
    forall v, rest {:trigger w.put(v) + rest} :: w.get(w.put(v) + rest) == Some((v, rest))
  }

  // ---- Numbers ----

  function PutNat(n: nat): bytes {
    if n == 0 then [0] else [1] + PutNat(n - 1)
  }

  function GetNat(b: bytes): Option<(nat, bytes)> {
    if b == [] then None
    else if b[0] == 0 then Some((0, b[1..]))
    else match GetNat(b[1..]) case None => None case Some((n, rest)) => Some((n + 1, rest))
  }

  lemma Consed(first: byte, rest: bytes)
    ensures |[first] + rest| > 0 && ([first] + rest)[0] == first && ([first] + rest)[1..] == rest
  {
  }

  lemma {:induction false} NatReadsBack(n: nat, rest: bytes)
    ensures GetNat(PutNat(n) + rest) == Some((n, rest))
  {
    if n == 0 {
      Consed(0, rest);
    } else {
      NatReadsBack(n - 1, rest);
      Assoc([1], PutNat(n - 1), rest);
      Consed(1, PutNat(n - 1) + rest);
    }
  }

  function Nat(): Wire<nat> { Wire(PutNat, GetNat) }

  lemma NatIsGood()
    ensures Good(Nat())
  {
    forall n: nat, rest ensures Nat().get(Nat().put(n) + rest) == Some((n, rest)) { NatReadsBack(n, rest); }
  }

  // ---- Pairs, lists, and anything that is one of those in disguise ----

  function Pair<A, B>(a: Wire<A>, b: Wire<B>): Wire<(A, B)> {
    Wire(
      (v: (A, B)) => a.put(v.0) + b.put(v.1),
      (s: bytes) =>
        match a.get(s)
        case None => None
        case Some((x, rest)) =>
          match b.get(rest) case None => None case Some((y, left)) => Some(((x, y), left)))
  }

  lemma PairIsGood<A(!new), B(!new)>(a: Wire<A>, b: Wire<B>)
    requires Good(a) && Good(b)
    ensures Good(Pair(a, b))
  {
    var w := Pair(a, b);
    forall v, rest ensures w.get(w.put(v) + rest) == Some((v, rest)) {
      Assoc(a.put(v.0), b.put(v.1), rest);
      assert a.get(a.put(v.0) + (b.put(v.1) + rest)) == Some((v.0, b.put(v.1) + rest));
      assert b.get(b.put(v.1) + rest) == Some((v.1, rest));
    }
  }

  function PutAll<T>(w: Wire<T>, xs: seq<T>): bytes {
    if xs == [] then [] else w.put(xs[0]) + PutAll(w, xs[1..])
  }

  function GetAll<T>(w: Wire<T>, n: nat, b: bytes): Option<(seq<T>, bytes)> {
    if n == 0 then Some(([], b))
    else
      match w.get(b)
      case None => None
      case Some((x, rest)) =>
        match GetAll(w, n - 1, rest) case None => None case Some((xs, left)) => Some(([x] + xs, left))
  }

  lemma {:induction false} AllReadBack<T(!new)>(w: Wire<T>, xs: seq<T>, rest: bytes)
    requires Good(w)
    ensures GetAll(w, |xs|, PutAll(w, xs) + rest) == Some((xs, rest))
  {
    if xs == [] {
      assert PutAll(w, xs) + rest == rest;
    } else {
      AllReadBack(w, xs[1..], rest);
      Assoc(w.put(xs[0]), PutAll(w, xs[1..]), rest);
      assert w.get(w.put(xs[0]) + (PutAll(w, xs[1..]) + rest)) == Some((xs[0], PutAll(w, xs[1..]) + rest));
      assert xs == [xs[0]] + xs[1..];
    }
  }

  function List<T>(w: Wire<T>): Wire<seq<T>> {
    Wire(
      (xs: seq<T>) => PutNat(|xs|) + PutAll(w, xs),
      (s: bytes) => match GetNat(s) case None => None case Some((n, rest)) => GetAll(w, n, rest))
  }

  lemma ListIsGood<T(!new)>(w: Wire<T>)
    requires Good(w)
    ensures Good(List(w))
  {
    forall xs, rest ensures List(w).get(List(w).put(xs) + rest) == Some((xs, rest)) {
      Assoc(PutNat(|xs|), PutAll(w, xs), rest);
      NatReadsBack(|xs|, PutAll(w, xs) + rest);
      AllReadBack(w, xs, rest);
    }
  }

  function As<A, B>(w: Wire<A>, to: B -> A, from: A -> B): Wire<B> {
    Wire(
      (v: B) => w.put(to(v)),
      (s: bytes) => match w.get(s) case None => None case Some((x, rest)) => Some((from(x), rest)))
  }

  lemma AsIsGood<A(!new), B(!new)>(w: Wire<A>, to: B -> A, from: A -> B)
    requires Good(w) && forall v :: from(to(v)) == v
    ensures Good(As(w, to, from))
  {
    var b := As(w, to, from);
    forall v, rest ensures b.get(b.put(v) + rest) == Some((v, rest)) {
      assert w.get(w.put(to(v)) + rest) == Some((to(v), rest));
    }
  }

  // What a wire reads from bytes that are exactly one value.
  function Exactly<T>(w: Wire<T>, b: bytes): Option<T> {
    match w.get(b) case None => None case Some((v, _)) => Some(v)
  }

  lemma ExactlyReadsBack<T(!new)>(w: Wire<T>, v: T)
    requires Good(w)
    ensures Exactly(w, w.put(v)) == Some(v)
  {
    assert w.put(v) + [] == w.put(v);
  }

  // ---- Strings and integers ----

  function PutChar(c: char): bytes { BigEndian(c as int, 3) }

  predicate IsScalar(n: nat) {
    n < 0xD800 || 0xE000 <= n < 0x11_0000
  }

  function GetChar(b: bytes): Option<(char, bytes)> {
    if |b| < 3 || !IsScalar(FromBigEndian(b[..3])) then None else Some((FromBigEndian(b[..3]) as char, b[3..]))
  }

  function Char(): Wire<char> { Wire(PutChar, GetChar) }

  lemma CharIsGood()
    ensures Good(Char())
  {
    assert Radix(3) == 0x100_0000;
    forall c, rest ensures Char().get(Char().put(c) + rest) == Some((c, rest)) {
      BigEndianRoundTrip(c as int, 3);
      var all := PutChar(c) + rest;
      assert all[..3] == PutChar(c) && all[3..] == rest;
    }
  }

  function Str(): Wire<string> { List(Char()) }

  lemma StrIsGood()
    ensures Good(Str())
  {
    CharIsGood();
    ListIsGood(Char());
  }

  // Strings of one length take one width.
  lemma {:induction false} CharsWidth(s: string)
    ensures |PutAll(Char(), s)| == 3 * |s|
  {
    if s != "" { CharsWidth(s[1..]); }
  }

  lemma StrWidth(a: string, b: string)
    requires |a| == |b|
    ensures |Str().put(a)| == |Str().put(b)|
  {
    CharsWidth(a);
    CharsWidth(b);
  }

  function Int(): Wire<int> {
    As(Pair(Nat(), Nat()),
       (n: int) => if n < 0 then (1, (-n) as nat) else (0, n as nat),
       (p: (nat, nat)) => if p.0 == 1 then -(p.1 as int) else p.1)
  }

  lemma IntIsGood()
    ensures Good(Int())
  {
    NatIsGood();
    PairIsGood(Nat(), Nat());
    AsIsGood(Pair(Nat(), Nat()),
       (n: int) => if n < 0 then (1, (-n) as nat) else (0, n as nat),
       (p: (nat, nat)) => if p.0 == 1 then -(p.1 as int) else p.1);
  }

  lemma {:induction false} NatWidth(n: nat)
    ensures |PutNat(n)| == n + 1
  {
    if n > 0 { NatWidth(n - 1); }
  }

  lemma StrIsAsWide(s: string)
    ensures |Str().put(s)| == 4 * |s| + 1
  {
    NatWidth(|s|);
    CharsWidth(s);
  }

  lemma PairWidth<A, B>(a: Wire<A>, b: Wire<B>, x: A, y: B)
    ensures |Pair(a, b).put((x, y))| == |a.put(x)| + |b.put(y)|
  {
  }

  lemma AsWidth<A, B>(w: Wire<A>, to: B -> A, from: A -> B, v: B)
    ensures |As(w, to, from).put(v)| == |w.put(to(v))|
  {
  }

  lemma ListWidth<T>(w: Wire<T>, xs: seq<T>)
    requires |xs| <= 1
    ensures |List(w).put(xs)| == if xs == [] then 1 else 2 + |w.put(xs[0])|
  {
    NatWidth(|xs|);
    if xs != [] { assert PutAll(w, xs) == w.put(xs[0]) + PutAll(w, xs[1..]); }
  }

  lemma IntWidth(n: nat)
    ensures |Int().put(n)| == n + 2
  {
    NatWidth(0);
    NatWidth(n);
  }

  // ---- Maps, by their pairs in some order ----

  ghost function PairsOf<K, V>(m: map<K, V>): seq<(K, V)>
    decreases |m|
  {
    if m == map[] then []
    else
      assert m.Keys != {};
      var k :| k in m;
      assert m.Keys == (m - {k}).Keys + {k};
      [(k, m[k])] + PairsOf(m - {k})
  }

  ghost function FromPairs<K(!new), V>(ps: seq<(K, V)>): map<K, V> {
    if ps == [] then map[] else FromPairs(ps[1..])[ps[0].0 := ps[0].1]
  }

  lemma {:induction false} PairsReadBack<K(!new), V>(m: map<K, V>)
    ensures FromPairs(PairsOf(m)) == m
    decreases |m|
  {
    if m != map[] {
      assert m.Keys != {};
      var ps := PairsOf(m);
      var k := ps[0].0;
      assert m.Keys == (m - {k}).Keys + {k};
      assert ps[1..] == PairsOf(m - {k});
      PairsReadBack(m - {k});
    }
  }
}
