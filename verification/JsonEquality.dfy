/**
 * `json_value_equals` (libfreenect/fakenect/parson.c). It walks one value and looks the names up in
 * the other; that this is equality up to the order of members rests on counting.
 */
module JsonEquality {
  import opened JsonUtf8
  import opened JsonText
  import opened JsonRoundTrip
  import opened Options

  // ---------------------------------------------------------------- the comparison

  /** The comparison of two numbers, whose difference the code holds in a double. */
  predicate Close(a: int, b: int) {
    (if a < b then b - a else a - b) as real < 0.000001
  }

  /** What `json_value_equals` returns. */
  predicate Equals(a: Json, b: Json)
    decreases a, 1
  {
    match (a, b)
    case (Null, Null) => true
    case (Bool(x), Bool(y)) => x == y
    case (Number(x), Number(y)) => Close(x, y)
    case (String(s), String(t)) => s == t
    case (Array(xs), Array(ys)) => |xs| == |ys| && forall i :: 0 <= i < |xs| ==> Equals(xs[i], ys[i])
    case (Object(ms), Object(ns)) => |ms| == |ns| && forall i :: 0 <= i < |ms| ==> EqualsMember(a, i, ns)
    case _ => false
  }

  /** The values of the `i`-th name, looked up in both objects, are equal; a missing one equals nothing. */
  predicate EqualsMember(a: Json, i: nat, ns: seq<Member>)
    requires a.Object? && i < |a.members|
    decreases a, 0
  {
    var key := a.members[i].name;
    if Lookup(a.members, key).None? || Lookup(ns, key).None? then false
    else
      LookupSmaller(a, key);
      Equals(Lookup(a.members, key).value, Lookup(ns, key).value)
  }

  lemma {:induction false} Found(ms: seq<Member>, key: string) returns (i: nat)
    requires Lookup(ms, key).Some?
    ensures i < |ms| && ms[i] == Member(key, Lookup(ms, key).value)
  {
    if ms[0].name == key {
      return 0;
    }
    i := Found(ms[1..], key);
    return i + 1;
  }

  lemma LookupSmaller(a: Json, key: string)
    requires a.Object? && Lookup(a.members, key).Some?
    ensures Lookup(a.members, key).value < a
  {
    var i := Found(a.members, key);
    assert a.members[i].value < a;
  }

  // ---------------------------------------------------------------- what a value means

  /** A value with the order of object members forgotten at every depth. */
  datatype Meaning =
    | MNull
    | MBool(b: bool)
    | MNumber(n: int)
    | MString(s: string)
    | MArray(items: seq<Meaning>)
    | MObject(members: map<string, Meaning>)

  function MeaningOf(v: Json): Meaning
    decreases v
  {
    match v
    case Null => MNull
    case Bool(b) => MBool(b)
    case Number(n) => MNumber(n)
    case String(s) => MString(s)
    case Array(items) => MArray(ItemsMeaning(items))
    case Object(ms) => MObject(MembersMeaning(ms))
  }

  function ItemsMeaning(items: seq<Json>): seq<Meaning>
    decreases items
  {
    if items == [] then [] else [MeaningOf(items[0])] + ItemsMeaning(items[1..])
  }

  function MembersMeaning(ms: seq<Member>): map<string, Meaning>
    decreases ms
  {
    if ms == [] then map[] else MembersMeaning(ms[1..])[ms[0].name := MeaningOf(ms[0].value)]
  }

  /** Names are distinct at every depth, as the object operations keep them. */
  ghost predicate DistinctDeep(v: Json)
    decreases v
  {
    match v
    case Array(items) => forall i :: 0 <= i < |items| ==> DistinctDeep(items[i])
    case Object(ms) => DistinctNames(ms) && forall i :: 0 <= i < |ms| ==> DistinctDeep(ms[i].value)
    case _ => true
  }

  lemma {:induction false} ItemsMeaningAt(items: seq<Json>)
    ensures |ItemsMeaning(items)| == |items|
    ensures forall i :: 0 <= i < |items| ==> ItemsMeaning(items)[i] == MeaningOf(items[i])
  {
    if items != [] {
      ItemsMeaningAt(items[1..]);
    }
  }

  lemma {:induction false} MembersMeaningAt(ms: seq<Member>, key: string)
    ensures key in MembersMeaning(ms) <==> Lookup(ms, key).Some?
    ensures Lookup(ms, key).Some? ==> MembersMeaning(ms)[key] == MeaningOf(Lookup(ms, key).value)
  {
    if ms != [] {
      MembersMeaningAt(ms[1..], key);
    }
  }

  lemma {:induction false} MeaningCounts(ms: seq<Member>)
    requires DistinctNames(ms)
    ensures |MembersMeaning(ms)| == |ms|
  {
    if ms != [] {
      MeaningCounts(ms[1..]);
      var name := ms[0].name;
      MembersMeaningAt(ms[1..], name);
      if Lookup(ms[1..], name).Some? {
        var i := Found(ms[1..], name);
        assert false;
      }
    }
  }

  /** As many keys, and all keys of one in the other: then the same keys. */
  lemma SameKeys<T>(a: set<T>, b: set<T>)
    requires a <= b && |a| == |b|
    ensures a == b
  {
    assert b == a + (b - a);
    assert |b| == |a| + |b - a|;
  }

  lemma SameMap(m: map<string, Meaning>, n: map<string, Meaning>)
    requires |m| == |n| && forall k :: k in m ==> k in n && m[k] == n[k]
    ensures m == n
  {
    SameKeys(m.Keys, n.Keys);
  }

  /** Every key of an object's meaning is one of its names. */
  lemma KeyIsName(ms: seq<Member>, key: string) returns (i: nat)
    requires key in MembersMeaning(ms)
    ensures i < |ms| && ms[i].name == key
  {
    MembersMeaningAt(ms, key);
    i := Found(ms, key);
  }

  // ---------------------------------------------------------------- equality is agreement in meaning

  /**
   * Over values with distinct names, `json_value_equals` holds exactly when the values agree up to
   * the order of object members at every depth.
   */
  lemma {:induction false} EqualsIsAgreement(a: Json, b: Json)
    requires DistinctDeep(a) && DistinctDeep(b)
    ensures Equals(a, b) <==> MeaningOf(a) == MeaningOf(b)
    decreases a, 1
  {
    if a.Array? && b.Array? {
      ArraysAgree(a, b);
    } else if a.Object? && b.Object? {
      ObjectsAgree(a, b);
    }
  }

  lemma {:induction false} ArraysAgree(a: Json, b: Json)
    requires a.Array? && b.Array? && DistinctDeep(a) && DistinctDeep(b)
    ensures Equals(a, b) <==> MeaningOf(a) == MeaningOf(b)
    decreases a, 0
  {
    var xs, ys := a.items, b.items;
    ItemsMeaningAt(xs);
    ItemsMeaningAt(ys);
    if |xs| == |ys| {
      forall i | 0 <= i < |xs|
        ensures Equals(xs[i], ys[i]) <==> ItemsMeaning(xs)[i] == ItemsMeaning(ys)[i]
      {
        EqualsIsAgreement(xs[i], ys[i]);
      }
    }
  }

  lemma {:induction false} ObjectsAgree(a: Json, b: Json)
    requires a.Object? && b.Object? && DistinctDeep(a) && DistinctDeep(b)
    ensures Equals(a, b) <==> MeaningOf(a) == MeaningOf(b)
    decreases a, 0
  {
    var ms, ns := a.members, b.members;
    var m, n := MembersMeaning(ms), MembersMeaning(ns);
    forall i | 0 <= i < |ms|
      ensures var key := ms[i].name; key in m && (EqualsMember(a, i, ns) <==> key in n && m[key] == n[key])
    {
      MemberAgrees(a, i, ns);
    }
    MeaningCounts(ms);
    MeaningCounts(ns);
    if Equals(a, b) {
      forall k | k in m
        ensures k in n && m[k] == n[k]
      {
        var i := KeyIsName(ms, k);
        assert EqualsMember(a, i, ns);
      }
      SameMap(m, n);
    }
  }

  lemma {:induction false} MemberAgrees(a: Json, i: nat, ns: seq<Member>)
    requires a.Object? && DistinctDeep(a) && i < |a.members|
    requires forall j :: 0 <= j < |ns| ==> DistinctDeep(ns[j].value)
    ensures var key := a.members[i].name; var m, n := MembersMeaning(a.members), MembersMeaning(ns);
      key in m && (EqualsMember(a, i, ns) <==> key in n && m[key] == n[key])
    decreases a, 0, i
  {
    var key := a.members[i].name;
    LookupOwn(a.members, i);
    MembersMeaningAt(a.members, key);
    MembersMeaningAt(ns, key);
    if Lookup(ns, key).Some? {
      var j := Found(ns, key);
      assert DistinctDeep(ns[j].value);
      EqualsIsAgreement(a.members[i].value, ns[j].value);
    }
  }

  /** So it is reflexive, symmetric and transitive. */
  lemma EqualsIsEquivalence(a: Json, b: Json, c: Json)
    requires DistinctDeep(a) && DistinctDeep(b) && DistinctDeep(c)
    ensures Equals(a, a)
    ensures Equals(a, b) <==> Equals(b, a)
    ensures Equals(a, b) && Equals(b, c) ==> Equals(a, c)
  {
    EqualsIsAgreement(a, a);
    EqualsIsAgreement(a, b);
    EqualsIsAgreement(b, a);
    EqualsIsAgreement(b, c);
    EqualsIsAgreement(a, c);
  }

  /**
   * The hypothesis is needed: on repeated names the comparison is not even symmetric. `json_object_add`
   * refuses a name that is there, so the library never builds such an object.
   */
  lemma DuplicatesBreakSymmetry()
    ensures var a, b := Object([Member("x", Null), Member("x", Null)]), Object([Member("x", Null), Member("y", Null)]);
      Equals(a, b) && !Equals(b, a)
  {
    var ms := [Member("x", Null), Member("x", Null)];
    var ns := [Member("x", Null), Member("y", Null)];
    var a, b := Object(ms), Object(ns);
    assert Lookup(ms, "y") == Lookup(ms[1..], "y") == Lookup(ms[1..][1..], "y") == None;
    assert Lookup(ms, "x") == Some(Null) && Lookup(ns, "x") == Some(Null);
    assert EqualsMember(a, 0, ns) && EqualsMember(a, 1, ns);
    assert !EqualsMember(b, 1, ms);
  }

  /** `json_value_equals` as it runs, with its loops and early exits. */
  method ValueEquals(a: Json, b: Json) returns (same: bool)
    ensures same <==> Equals(a, b)
    ensures DistinctDeep(a) && DistinctDeep(b) ==> (same <==> MeaningOf(a) == MeaningOf(b))
    decreases a, 1
  {
    match (a, b) {
      case (Null, Null) => same := true;
      case (Bool(x), Bool(y)) => same := x == y;
      case (Number(x), Number(y)) => same := Close(x, y);
      case (String(s), String(t)) => same := s == t;
      case (Array(_), Array(_)) => same := ArrayEquals(a, b);
      case (Object(_), Object(_)) => same := ObjectEquals(a, b);
      case _ => same := false;
    }
    if DistinctDeep(a) && DistinctDeep(b) {
      EqualsIsAgreement(a, b);
    }
  }

  method ArrayEquals(a: Json, b: Json) returns (same: bool)
    requires a.Array? && b.Array?
    ensures same <==> Equals(a, b)
    decreases a, 0
  {
    if |a.items| != |b.items| {
      return false;
    }
    for i := 0 to |a.items|
      invariant forall k :: 0 <= k < i ==> Equals(a.items[k], b.items[k])
    {
      var equal := ValueEquals(a.items[i], b.items[i]);
      if !equal {
        return false;
      }
    }
    return true;
  }

  method ObjectEquals(a: Json, b: Json) returns (same: bool)
    requires a.Object? && b.Object?
    ensures same <==> Equals(a, b)
    decreases a, 0
  {
    if |a.members| != |b.members| {
      return false;
    }
    for i := 0 to |a.members|
      invariant forall k :: 0 <= k < i ==> EqualsMember(a, k, b.members)
    {
      var key := a.members[i].name;
      var x, y := Lookup(a.members, key), Lookup(b.members, key);
      if x.None? || y.None? {
        assert !EqualsMember(a, i, b.members);
        return false;
      }
      LookupSmaller(a, key);
      var equal := ValueEquals(x.value, y.value);
      assert EqualsMember(a, i, b.members) <==> equal;
      if !equal {
        return false;
      }
    }
    return true;
  }
}
