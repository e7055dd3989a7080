// A marshaller of generic documents that never gives two documents the same bytes,
// so that what is proved of injective ones is not proved of nothing.
module ToyMarshals {
  import opened Wrappers
  import opened Bytes
  import opened HeaderJson
  import opened Wires

  // What two equal encodings put apart.
  lemma Cancel<T(!new)>(w: Wire<T>, x: T, y: T, r: bytes, t: bytes)
    requires Good(w) && w.put(x) + r == w.put(y) + t
    ensures x == y && r == t
  {
    assert w.get(w.put(x) + r) == Some((x, r));
    assert w.get(w.put(y) + t) == Some((y, t));
  }

  // ---- Scalars ----

  function AtomTo(a: Atom): (nat, string) {
    match a case Text(s) => (0, s) case Number(l) => (1, l) case Word(w) => (2, w)
  }

  function AtomFrom(x: (nat, string)): Atom {
    if x.0 == 0 then Text(x.1) else if x.0 == 1 then Number(x.1) else Word(x.1)
  }

  function AtomWire(): Wire<Atom> { As(Pair(Nat(), Str()), AtomTo, AtomFrom) }

  lemma AtomWireIsGood()
    ensures Good(AtomWire())
  {
    NatIsGood();
    StrIsGood();
    PairIsGood(Nat(), Str());
    AsIsGood(Pair(Nat(), Str()), AtomTo, AtomFrom);
  }

  // ---- Documents ----

  // The members' names, each once, in some order.
  ghost function Names(m: map<string, Value>): (names: seq<string>)
    ensures forall i :: 0 <= i < |names| ==> names[i] in m
    ensures forall k :: k in m ==> k in names
    decreases |m|
  {
    if m == map[] then []
    else
      assert m.Keys != {};
      var k :| k in m;
      assert m.Keys == (m - {k}).Keys + {k};
      [k] + Names(m - {k})
  }

  ghost function PutValue(v: Value): bytes
    decreases v
  {
    match v
    case VScalar(atom) => PutNat(0) + AtomWire().put(atom)
    case VArr(items) => PutNat(1) + (PutNat(|items|) + PutItems(v, 0))
    case VObj(members) => PutNat(2) + (PutNat(|Names(members)|) + PutMembers(v, 0))
  }

  ghost function PutItems(v: Value, i: nat): bytes
    requires v.VArr? && i <= |v.items|
    decreases v, |v.items| - i
  {
    if i == |v.items| then [] else PutValue(v.items[i]) + PutItems(v, i + 1)
  }

  ghost function PutMembers(v: Value, i: nat): bytes
    requires v.VObj? && i <= |Names(v.members)|
    decreases v, |Names(v.members)| - i
  {
    var names := Names(v.members);
    if i == |names| then []
    else Str().put(names[i]) + (PutValue(v.members[names[i]]) + PutMembers(v, i + 1))
  }

  // ---- No two documents alike ----

  lemma {:induction false} ValuesApart(v: Value, w: Value, r: bytes, t: bytes)
    requires PutValue(v) + r == PutValue(w) + t
    ensures v == w && r == t
    decreases v, 1, 0
  {
    NatIsGood();
    TagsApart(v, w, r, t);
    match v {
      case VScalar(a) =>
        AtomWireIsGood();
        Assoc(PutNat(0), AtomWire().put(v.atom), r);
        Assoc(PutNat(0), AtomWire().put(w.atom), t);
        Cancel(Nat(), 0, 0, AtomWire().put(v.atom) + r, AtomWire().put(w.atom) + t);
        Cancel(AtomWire(), v.atom, w.atom, r, t);
      case VArr(_) => ArraysApart(v, w, r, t);
      case VObj(_) => ObjectsApart(v, w, r, t);
    }
  }

  function TagOf(v: Value): nat {
    match v case VScalar(_) => 0 case VArr(_) => 1 case VObj(_) => 2
  }

  ghost function Untagged(v: Value): bytes {
    match v
    case VScalar(atom) => AtomWire().put(atom)
    case VArr(items) => PutNat(|items|) + PutItems(v, 0)
    case VObj(members) => PutNat(|Names(members)|) + PutMembers(v, 0)
  }

  lemma TagsApart(v: Value, w: Value, r: bytes, t: bytes)
    requires PutValue(v) + r == PutValue(w) + t
    ensures TagOf(v) == TagOf(w) && Untagged(v) + r == Untagged(w) + t
  {
    NatIsGood();
    assert PutValue(v) == PutNat(TagOf(v)) + Untagged(v) && PutValue(w) == PutNat(TagOf(w)) + Untagged(w);
    Assoc(PutNat(TagOf(v)), Untagged(v), r);
    Assoc(PutNat(TagOf(w)), Untagged(w), t);
    Cancel(Nat(), TagOf(v), TagOf(w), Untagged(v) + r, Untagged(w) + t);
  }

  lemma {:induction false} ArraysApart(v: Value, w: Value, r: bytes, t: bytes)
    requires v.VArr? && w.VArr? && Untagged(v) + r == Untagged(w) + t
    ensures v == w && r == t
    decreases v, 0, |v.items| + 1
  {
    NatIsGood();
    Assoc(PutNat(|v.items|), PutItems(v, 0), r);
    Assoc(PutNat(|w.items|), PutItems(w, 0), t);
    Cancel(Nat(), |v.items|, |w.items|, PutItems(v, 0) + r, PutItems(w, 0) + t);
    ItemsApart(v, w, 0, r, t);
    assert v.items[0..] == v.items && w.items[0..] == w.items;
  }

  lemma {:induction false} ItemsApart(v: Value, w: Value, i: nat, r: bytes, t: bytes)
    requires v.VArr? && w.VArr? && |v.items| == |w.items| && i <= |v.items|
    requires PutItems(v, i) + r == PutItems(w, i) + t
    ensures v.items[i..] == w.items[i..] && r == t
    decreases v, 0, |v.items| - i
  {
    if i == |v.items| {
      assert [] + r == r && [] + t == t;
    } else {
      Assoc(PutValue(v.items[i]), PutItems(v, i + 1), r);
      Assoc(PutValue(w.items[i]), PutItems(w, i + 1), t);
      var x, y := v.items[i], w.items[i];
      ValuesApart(x, y, PutItems(v, i + 1) + r, PutItems(w, i + 1) + t);
      ItemsApart(v, w, i + 1, r, t);
      FirstAndRest(v.items, i);
      FirstAndRest(w.items, i);
    }
  }

  lemma FirstAndRest(items: seq<Value>, i: nat)
    requires i < |items|
    ensures items[i..] == [items[i]] + items[i + 1..]
  {
  }

  lemma {:induction false} ObjectsApart(v: Value, w: Value, r: bytes, t: bytes)
    requires v.VObj? && w.VObj? && Untagged(v) + r == Untagged(w) + t
    ensures v == w && r == t
    decreases v, 0, |Names(v.members)| + 1
  {
    NatIsGood();
    var m, n := |Names(v.members)|, |Names(w.members)|;
    Assoc(PutNat(m), PutMembers(v, 0), r);
    Assoc(PutNat(n), PutMembers(w, 0), t);
    Cancel(Nat(), m, n, PutMembers(v, 0) + r, PutMembers(w, 0) + t);
    MembersApart(v, w, 0, r, t);
    SameMembers(v.members, w.members);
  }

  ghost predicate AgreeFrom(a: map<string, Value>, b: map<string, Value>, i: nat) {
    && |Names(a)| == |Names(b)|
    && forall k {:trigger Names(a)[k]} :: i <= k < |Names(a)| ==>
         Names(a)[k] == Names(b)[k] && a[Names(a)[k]] == b[Names(b)[k]]
  }

  lemma {:induction false} MembersApart(v: Value, w: Value, i: nat, r: bytes, t: bytes)
    requires v.VObj? && w.VObj? && |Names(v.members)| == |Names(w.members)| && i <= |Names(v.members)|
    requires PutMembers(v, i) + r == PutMembers(w, i) + t
    ensures AgreeFrom(v.members, w.members, i) && r == t
    decreases v, 0, |Names(v.members)| - i
  {
    if i == |Names(v.members)| {
      assert [] + r == r && [] + t == t;
    } else {
      MemberApart(v, w, i, r, t);
      var name := Names(v.members)[i];
      var x, y := v.members[name], w.members[name];
      ValuesApart(x, y, PutMembers(v, i + 1) + r, PutMembers(w, i + 1) + t);
      MembersApart(v, w, i + 1, r, t);
      AgreeOneMore(v.members, w.members, i);
    }
  }

  lemma AgreeOneMore(a: map<string, Value>, b: map<string, Value>, i: nat)
    requires AgreeFrom(a, b, i + 1) && i < |Names(a)|
    requires Names(a)[i] == Names(b)[i] && a[Names(a)[i]] == b[Names(b)[i]]
    ensures AgreeFrom(a, b, i)
  {
  }

  lemma MemberApart(v: Value, w: Value, i: nat, r: bytes, t: bytes)
    requires v.VObj? && w.VObj? && i < |Names(v.members)| == |Names(w.members)|
    requires PutMembers(v, i) + r == PutMembers(w, i) + t
    ensures var a, b := Names(v.members)[i], Names(w.members)[i];
      a == b && PutValue(v.members[a]) + (PutMembers(v, i + 1) + r) ==
        PutValue(w.members[b]) + (PutMembers(w, i + 1) + t)
  {
    var a, b := Names(v.members)[i], Names(w.members)[i];
    NamesApart(a, b, PutValue(v.members[a]), PutMembers(v, i + 1), r, PutValue(w.members[b]), PutMembers(w, i + 1), t);
  }

  lemma NamesApart(a: string, b: string, x: bytes, p: bytes, r: bytes, y: bytes, q: bytes, t: bytes)
    requires Str().put(a) + (x + p) + r == Str().put(b) + (y + q) + t
    ensures a == b && x + (p + r) == y + (q + t)
  {
    StrIsGood();
    Assoc(Str().put(a), x + p, r);
    Assoc(x, p, r);
    Assoc(Str().put(b), y + q, t);
    Assoc(y, q, t);
    Cancel(Str(), a, b, x + (p + r), y + (q + t));
  }

  lemma SameMembers(a: map<string, Value>, b: map<string, Value>)
    requires AgreeFrom(a, b, 0)
    ensures a == b
  {
    forall k | k in a ensures k in b && a[k] == b[k] {
      var i :| 0 <= i < |Names(a)| && Names(a)[i] == k;
    }
    forall k | k in b ensures k in a {
      var i :| 0 <= i < |Names(b)| && Names(b)[i] == k;
      assert Names(a)[i] == Names(b)[i];
    }
  }

  lemma MarshalIsInjective()
    ensures Injective(v => PutValue(v))
  {
    forall v, w | PutValue(v) == PutValue(w) ensures v == w {
      assert PutValue(v) + [] == PutValue(w) + [];
      ValuesApart(v, w, [], []);
    }
  }
}
