// The outer header as a JSON document with ordered members, the refusal of
// repeated members, and the canonical form a signature covers.
module HeaderJson {
  import opened Wrappers
  import opened Bytes

  // A string, a number kept as its literal, or one of true, false and null.
  datatype Atom = Text(s: string) | Number(literal: string) | Word(w: string)

  datatype Json =
    | Scalar(atom: Atom)
    | Arr(items: seq<Json>)
    | Obj(members: seq<Member>)

  datatype Member = Member(name: string, value: Json)

  // A document as a generic map holds it: members without order.
  datatype Value =
    | VScalar(atom: Atom)
    | VArr(items: seq<Value>)
    | VObj(members: map<string, Value>)

  // No object, at any depth, names a member twice.
  ghost predicate DupFree(j: Json) {
    match j
    case Scalar(_) => true
    case Arr(items) => forall i :: 0 <= i < |items| ==> DupFree(items[i])
    case Obj(members) =>
      && (forall i :: 0 <= i < |members| ==> DupFree(members[i].value))
      && (forall i, k :: 0 <= i < k < |members| ==> members[i].name != members[k].name)
  }

  // Walks one value, descending into every object and array. It stops at the
  // first repeated member.
  method ScanForDuplicates(j: Json) returns (clean: bool)
    ensures clean <==> DupFree(j)
    decreases j
  {
    match j {
      case Scalar(_) => return true;
      case Arr(items) =>
        for i := 0 to |items|
          invariant forall k :: 0 <= k < i ==> DupFree(items[k])
        {
          var ok := ScanForDuplicates(items[i]);
          if !ok { return false; }
        }
        return true;
      case Obj(members) =>
        var seen: set<string> := {};
        for i := 0 to |members|
          invariant seen == set k | 0 <= k < i :: members[k].name
          invariant forall k :: 0 <= k < i ==> DupFree(members[k].value)
          invariant forall k, l :: 0 <= k < l < i ==> members[k].name != members[l].name
        {
          var member := members[i];
          if member.name in seen { return false; }
          seen := seen + {member.name};
          var ok := ScanForDuplicates(member.value);
          if !ok { return false; }
        }
        return true;
    }
  }

  // ---- Two ways to read an object that repeats a member ----

  // Keeping the last occurrence, as a decoder into a generic map does. A decoder that
  // also matches names but for their case is another matter: the duplicate check
  // compares names exactly.
  function LastWins(j: Json): Value {
    match j
    case Scalar(s) => VScalar(s)
    case Arr(items) => VArr(seq(|items|, i requires 0 <= i < |items| => LastWins(items[i])))
    case Obj(members) => VObj(LastMembers(members))
  }

  function LastMembers(members: seq<Member>): map<string, Value> {
    if members == [] then map[]
    else
      var rest, m := members[..|members| - 1], members[|members| - 1];
      LastMembers(rest)[m.name := LastWins(m.value)]
  }

  // Keeping the first occurrence, as some other decoders do.
  function FirstWins(j: Json): Value {
    match j
    case Scalar(s) => VScalar(s)
    case Arr(items) => VArr(seq(|items|, i requires 0 <= i < |items| => FirstWins(items[i])))
    case Obj(members) => VObj(FirstMembers(members))
  }

  function FirstMembers(members: seq<Member>): map<string, Value> {
    if members == [] then map[]
    else FirstMembers(members[1..])[members[0].name := FirstWins(members[0].value)]
  }

  lemma {:induction false} LastMembersAre(members: seq<Member>)
    requires DupFree(Obj(members))
    ensures forall i :: 0 <= i < |members| ==>
      members[i].name in LastMembers(members) && LastMembers(members)[members[i].name] == LastWins(members[i].value)
    ensures forall n :: n in LastMembers(members) ==> exists i :: 0 <= i < |members| && members[i].name == n
  {
    if members != [] {
      var rest := members[..|members| - 1];
      LastMembersAre(rest);
      forall n | n in LastMembers(members)
        ensures exists i :: 0 <= i < |members| && members[i].name == n
      {
        if n == members[|members| - 1].name {
        } else {
          assert n in LastMembers(rest);
          var i :| 0 <= i < |rest| && rest[i].name == n;
          assert members[i].name == n;
        }
      }
      forall i | 0 <= i < |members|
        ensures members[i].name in LastMembers(members) &&
          LastMembers(members)[members[i].name] == LastWins(members[i].value)
      {
        if i < |rest| { assert rest[i] == members[i]; }
      }
    }
  }

  lemma {:induction false} FirstMembersAre(members: seq<Member>)
    requires DupFree(Obj(members))
    ensures forall i :: 0 <= i < |members| ==>
      members[i].name in FirstMembers(members) && FirstMembers(members)[members[i].name] == FirstWins(members[i].value)
    ensures forall n :: n in FirstMembers(members) ==> exists i :: 0 <= i < |members| && members[i].name == n
  {
    if members != [] {
      var rest := members[1..];
      FirstMembersAre(rest);
      forall n | n in FirstMembers(members)
        ensures exists i :: 0 <= i < |members| && members[i].name == n
      {
        if n == members[0].name {
        } else {
          assert n in FirstMembers(rest);
          var i :| 0 <= i < |rest| && rest[i].name == n;
          assert members[i + 1].name == n;
        }
      }
      forall i | 0 <= i < |members|
        ensures members[i].name in FirstMembers(members) &&
          FirstMembers(members)[members[i].name] == FirstWins(members[i].value)
      {
        if i > 0 { assert rest[i - 1] == members[i]; }
      }
    }
  }

  // Once repeated members are refused, a decoder that keeps the first and one
  // that keeps the last read the same document.
  lemma {:induction false} ReadersAgree(j: Json)
    requires DupFree(j)
    ensures FirstWins(j) == LastWins(j)
    decreases j
  {
    match j {
      case Scalar(_) =>
      case Arr(items) =>
        forall i | 0 <= i < |items| ensures FirstWins(items[i]) == LastWins(items[i]) {
          ReadersAgree(items[i]);
        }
      case Obj(members) =>
        forall i | 0 <= i < |members| ensures FirstWins(members[i].value) == LastWins(members[i].value) {
          ReadersAgree(members[i].value);
        }
        FirstMembersAre(members);
        LastMembersAre(members);
        var f, l := FirstMembers(members), LastMembers(members);
        assert f.Keys == l.Keys;
        assert forall n :: n in f ==> f[n] == l[n];
        assert f == l;
    }
  }

  // And without the refusal they need not.
  lemma ReadersMayDisagree()
    ensures exists j :: !DupFree(j) && FirstWins(j) != LastWins(j)
  {
    var a, b := Member("digest", Scalar(Text("a"))), Member("digest", Scalar(Text("b")));
    var j := Obj([a, b]);
    assert j.members[0].name == j.members[1].name;
    assert [a, b][..1] == [a] && [a, b][1..] == [b];
    assert LastMembers([a, b])["digest"] == VScalar(Text("b"));
    assert FirstMembers([a, b])["digest"] == VScalar(Text("a"));
    assert FirstWins(j) != LastWins(j);
  }

  // ---- The signed scope ----

  const SIGNATURE := "signature"

  // What a signature covers: every member of the header but the signature.
  function SignedScope(j: Json): map<string, Value>
    requires j.Obj?
  {
    LastMembers(j.members) - {SIGNATURE}
  }

  // The bytes that are signed, or None for a document that is no header: not an
  // object, or with a member repeated.
  ghost function Canonical(marshal: Value -> bytes, j: Json): Option<bytes> {
    if j.Obj? && DupFree(j) then Some(marshal(VObj(SignedScope(j)))) else None
  }

  method CanonicalSignedHeader(marshal: Value -> bytes, parsed: Option<Json>) returns (signed: Option<bytes>)
    ensures signed == if parsed.Some? then Canonical(marshal, parsed.value) else None
  {
    if parsed.None? { return None; }
    var clean := ScanForDuplicates(parsed.value);
    if !clean || !parsed.value.Obj? { return None; }
    return Some(marshal(VObj(LastMembers(parsed.value.members) - {SIGNATURE})));
  }

  // The renderer of generic maps is injective: it sorts members and drops
  // nothing.
  ghost predicate Injective(marshal: Value -> bytes) {
    forall u, v :: marshal(u) == marshal(v) ==> u == v
  }

  // The value of a member, read straight off the document.
  ghost function Lookup(j: Json, name: string): Option<Value>
    requires j.Obj?
  {
    if exists i :: 0 <= i < |j.members| && j.members[i].name == name then
      var i :| 0 <= i < |j.members| && j.members[i].name == name; Some(LastWins(j.members[i].value))
    else None
  }

  lemma ScopeLookup(j: Json, name: string)
    requires j.Obj? && DupFree(j) && name != SIGNATURE
    ensures Lookup(j, name) == if name in SignedScope(j) then Some(SignedScope(j)[name]) else None
  {
    LastMembersAre(j.members);
  }

  // Two headers sign as the same bytes exactly when they carry the same members
  // with the same values, whatever their order, except for the signature.
  lemma SignedScopeIsEverythingElse(marshal: Value -> bytes, j: Json, k: Json)
    requires Injective(marshal)
    requires j.Obj? && DupFree(j) && k.Obj? && DupFree(k)
    ensures Canonical(marshal, j) == Canonical(marshal, k) <==>
      forall n :: n != SIGNATURE ==> Lookup(j, n) == Lookup(k, n)
  {
    var a, b := SignedScope(j), SignedScope(k);
    if Canonical(marshal, j) == Canonical(marshal, k) {
      assert VObj(a) == VObj(b);
      forall n | n != SIGNATURE ensures Lookup(j, n) == Lookup(k, n) {
        ScopeLookup(j, n);
        ScopeLookup(k, n);
      }
    }
    if forall n :: n != SIGNATURE ==> Lookup(j, n) == Lookup(k, n) {
      forall n ensures (n in a) == (n in b) && (n in a ==> a[n] == b[n]) {
        if n != SIGNATURE {
          ScopeLookup(j, n);
          ScopeLookup(k, n);
        }
      }
      assert a == b;
    }
  }

  // Whatever value the signature member has, the rest signs as the same bytes.
  lemma {:induction false} SignatureIsOutOfScope(members: seq<Member>, i: nat, value: Json)
    requires i < |members| && members[i].name == SIGNATURE
    ensures LastMembers(members[i := Member(SIGNATURE, value)]) - {SIGNATURE} == LastMembers(members) - {SIGNATURE}
  {
    var last := |members| - 1;
    var changed := members[i := Member(SIGNATURE, value)];
    if i == last {
      assert changed[..last] == members[..last];
    } else {
      assert changed[..last] == members[..last][i := Member(SIGNATURE, value)];
      SignatureIsOutOfScope(members[..last], i, value);
      var a, b := LastMembers(changed[..last]), LastMembers(members[..last]);
      forall n | n != SIGNATURE ensures (n in a) == (n in b) && (n in a ==> a[n] == b[n]) {
        assert (n in a - {SIGNATURE}) == (n in b - {SIGNATURE});
        if n in a { assert (a - {SIGNATURE})[n] == (b - {SIGNATURE})[n]; }
      }
    }
  }
}
