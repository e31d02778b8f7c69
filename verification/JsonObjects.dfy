/**
 * Objects of the JSON library (libfreenect/fakenect/parson.c): two parallel arrays of names and
 * values that grow by doubling, where removal moves the last entry into the gap. The table refines
 * a list of members with distinct names, and that list a map.
 */
module JsonObjects {
  import opened JsonUtf8
  import opened JsonText
  import opened JsonRoundTrip
  import opened Options

  // ---------------------------------------------------------------- the list of members

  /** The position of a name, or the count if it is absent. */
  function Find(ms: seq<Member>, name: string): (i: nat)
    ensures i <= |ms|
    ensures i < |ms| ==> ms[i].name == name && Lookup(ms, name) == Some(ms[i].value)
    ensures i == |ms| ==> Lookup(ms, name) == None && !HasName(ms, name)
  {
    if ms == [] then 0 else if ms[0].name == name then 0 else 1 + Find(ms[1..], name)
  }

  lemma Present(ms: seq<Member>, name: string)
    ensures HasName(ms, name) <==> Lookup(ms, name).Some?
    ensures HasName(ms, name) <==> Find(ms, name) < |ms|
  {
    var i := Find(ms, name);
  }

  function SetMember(ms: seq<Member>, name: string, v: Json): seq<Member> {
    var i := Find(ms, name);
    if i < |ms| then ms[i := Member(name, v)] else ms + [Member(name, v)]
  }

  /** The last member takes the place of the removed one. */
  function RemoveMember(ms: seq<Member>, name: string): seq<Member> {
    var i := Find(ms, name);
    if i < |ms| then ms[i := ms[|ms| - 1]][..|ms| - 1] else ms
  }

  // ---------------------------------------------------------------- the map

  function MapOf(ms: seq<Member>): map<string, Json> {
    if ms == [] then map[] else MapOf(ms[1..])[ms[0].name := ms[0].value]
  }

  lemma {:induction false} MapOfAt(ms: seq<Member>, name: string)
    ensures name in MapOf(ms) <==> Lookup(ms, name).Some?
    ensures Lookup(ms, name).Some? ==> MapOf(ms)[name] == Lookup(ms, name).value
  {
    if ms != [] {
      MapOfAt(ms[1..], name);
    }
  }

  /** In a list with distinct names, a member's name leads to it. */
  lemma FindUnique(ms: seq<Member>, i: nat)
    requires DistinctNames(ms) && i < |ms|
    ensures Find(ms, ms[i].name) == i
  {
    var j := Find(ms, ms[i].name);
    assert j < |ms| by {
      LookupOwn(ms, i);
    }
  }

  /** Setting changes the value under that name only, and keeps the names distinct. */
  lemma SetLookup(ms: seq<Member>, name: string, v: Json, k: string)
    requires DistinctNames(ms)
    ensures DistinctNames(SetMember(ms, name, v))
    ensures Lookup(SetMember(ms, name, v), k) == if k == name then Some(v) else Lookup(ms, k)
  {
    var ns := SetMember(ms, name, v);
    var i := Find(ms, name);
    assert DistinctNames(ns);
    if k == name {
      FindUnique(ns, i);
    } else {
      var j := Find(ms, k);
      if j < |ms| {
        assert ns[j] == ms[j];
        FindUnique(ns, j);
      } else if Find(ns, k) < |ns| {
        assert ns[Find(ns, k)].name == k;
        assert HasName(ms, k);
      }
    }
  }

  /** Where the members of the shortened list come from. */
  lemma RemovedAt(ms: seq<Member>, name: string, j: nat) returns (from: nat)
    requires DistinctNames(ms) && j < |RemoveMember(ms, name)|
    ensures from < |ms| && RemoveMember(ms, name)[j] == ms[from]
    ensures ms[from].name != name
    ensures from == if j == Find(ms, name) then |ms| - 1 else j
  {
    var i := Find(ms, name);
    from := if j == i then |ms| - 1 else j;
    assert i < |ms| ==> ms[from].name != ms[i].name;
    if ms[from].name == name {
      FindUnique(ms, from);
    }
  }

  lemma RemoveDistinct(ms: seq<Member>, name: string)
    requires DistinctNames(ms)
    ensures DistinctNames(RemoveMember(ms, name))
  {
    var ns := RemoveMember(ms, name);
    forall a, b | 0 <= a < b < |ns|
      ensures ns[a].name != ns[b].name
    {
      var x := RemovedAt(ms, name, a);
      var y := RemovedAt(ms, name, b);
      assert x != y;
    }
  }

  lemma OthersStay(ms: seq<Member>, name: string, i: nat)
    requires DistinctNames(ms) && i < |ms| && ms[i].name != name
    ensures HasName(RemoveMember(ms, name), ms[i].name)
  {
    var ns := RemoveMember(ms, name);
    var at := if i == |ms| - 1 && Find(ms, name) < |ms| then Find(ms, name) else i;
    assert ns[at] == ms[i];
  }

  /** Removing takes away the value under that name only. */
  lemma RemoveLookup(ms: seq<Member>, name: string, k: string)
    requires DistinctNames(ms)
    ensures Lookup(RemoveMember(ms, name), k) == if k == name then None else Lookup(ms, k)
  {
    var ns := RemoveMember(ms, name);
    RemoveDistinct(ms, name);
    var j := Find(ns, k);
    if j < |ns| {
      var x := RemovedAt(ms, name, j);
      FindUnique(ms, x);
    } else if k != name {
      var x := Find(ms, k);
      if x < |ms| {
        OthersStay(ms, name, x);
        assert false;
      }
    }
  }

  lemma SetIsUpdate(ms: seq<Member>, name: string, v: Json)
    requires DistinctNames(ms)
    ensures MapOf(SetMember(ms, name, v)) == MapOf(ms)[name := v]
  {
    forall k
      ensures k in MapOf(SetMember(ms, name, v)) <==> k in MapOf(ms)[name := v]
      ensures k in MapOf(ms)[name := v] ==> MapOf(SetMember(ms, name, v))[k] == MapOf(ms)[name := v][k]
    {
      SetLookup(ms, name, v, k);
      MapOfAt(ms, k);
      MapOfAt(SetMember(ms, name, v), k);
    }
  }

  lemma RemoveIsDelete(ms: seq<Member>, name: string)
    requires DistinctNames(ms)
    ensures MapOf(RemoveMember(ms, name)) == MapOf(ms) - {name}
  {
    forall k
      ensures k in MapOf(RemoveMember(ms, name)) <==> k in MapOf(ms) - {name}
      ensures k in MapOf(ms) - {name} ==> MapOf(RemoveMember(ms, name))[k] == (MapOf(ms) - {name})[k]
    {
      RemoveLookup(ms, name, k);
      MapOfAt(ms, k);
      MapOfAt(RemoveMember(ms, name), k);
    }
  }

  lemma {:induction false} MapCounts(ms: seq<Member>)
    requires DistinctNames(ms)
    ensures |MapOf(ms)| == |ms|
  {
    if ms != [] {
      MapCounts(ms[1..]);
      MapOfAt(ms[1..], ms[0].name);
      assert Find(ms[1..], ms[0].name) == |ms[1..]|;
    }
  }

  // ---------------------------------------------------------------- the table

  const STARTING_CAPACITY: nat := 16

  function Zip(names: seq<string>, values: seq<Json>): (ms: seq<Member>)
    requires |names| == |values|
    ensures |ms| == |names| && forall i :: 0 <= i < |ms| ==> ms[i] == Member(names[i], values[i])
  {
    seq(|names|, i requires 0 <= i < |names| => Member(names[i], values[i]))
  }

  /** `memcpy` of `n` entries. */
  method CopyPrefix<T>(to: array<T>, from: array<T>, n: nat)
    requires n <= to.Length && n <= from.Length && to != from
    modifies to
    ensures to[..n] == from[..n]
  {
    for i := 0 to n
      invariant forall j :: 0 <= j < i ==> to[j] == from[j]
    {
      to[i] := from[i];
    }
  }

  /** `json_object_t`. The arrays are null until the first member is added. */
  class ObjectTable {
    var names: array?<string>
    var values: array?<Json>
    var count: nat
    var capacity: nat

    /** `json_object_init`. */
    constructor ()
      ensures Valid() && Members() == [] && names == null && values == null
    {
      names, values, count, capacity := null, null, 0, 0;
    }

    ghost predicate Shape()
      reads this, names, values
    {
      && (names == null <==> values == null)
      && (names == null ==> capacity == 0)
      && (names != null ==> names.Length == capacity && values.Length == capacity)
      && count <= capacity
    }

    ghost function Members(): seq<Member>
      requires Shape()
      reads this, names, values
    {
      if names == null then [] else Zip(names[..count], values[..count])
    }

    ghost predicate Valid()
      reads this, names, values
    {
      Shape() && DistinctNames(Members())
    }

    /** The arrays are the old ones or new ones. */
    twostate predicate OwnArrays()
      reads this
    {
      || (names == old(names) && values == old(values))
      || (names != null && fresh(names) && values != null && fresh(values))
    }

    /** `json_object_resize`, which never drops members; the arrays of a capacity of 0 are refused. */
    method Resize(newCapacity: nat) returns (ok: bool)
      requires Valid() && count <= newCapacity
      modifies this
      ensures Valid() && Members() == old(Members()) && count == old(count) && OwnArrays()
      ensures ok <==> newCapacity > 0
      ensures capacity == if ok then newCapacity else old(capacity)
    {
      if newCapacity == 0 {
        return false;
      }
      var tempNames := new string[newCapacity];
      var tempValues := new Json[newCapacity];
      if names != null && values != null && count > 0 {
        CopyPrefix(tempNames, names, count);
        CopyPrefix(tempValues, values, count);
      }
      names, values, capacity := tempNames, tempValues, newCapacity;
      return true;
    }

    /** `json_object_nget_value`: the value under the first `n` characters of `name`. */
    method NGetValue(name: string, n: nat) returns (r: Option<Json>)
      requires Valid() && n <= |name|
      ensures r == Lookup(Members(), name[..n])
    {
      ghost var ms := Members();
      var key := name[..n];
      for i := 0 to count
        invariant forall j :: 0 <= j < i ==> ms[j].name != key
      {
        if |names[i]| != n {
          continue;
        }
        if names[i] == key {
          FindUnique(ms, i);
          assert ms[i].name == key;
          return Some(values[i]);
        }
      }
      assert Find(ms, key) == |ms|;
      return None;
    }

    /** `json_object_get_value`. */
    method GetValue(name: string) returns (r: Option<Json>)
      requires Valid()
      ensures r == Lookup(Members(), name)
    {
      assert name[..|name|] == name;
      r := NGetValue(name, |name|);
    }

    /** `json_object_add`: a name that is there already is refused. */
    method Add(name: string, value: Json) returns (ok: bool)
      requires Valid()
      modifies this, names, values
      ensures Valid() && OwnArrays()
      ensures ok <==> !HasName(old(Members()), name)
      ensures Members() == if ok then old(Members()) + [Member(name, value)] else old(Members())
      ensures capacity ==
              if ok && old(count) == old(capacity) then Max(2 * old(capacity), STARTING_CAPACITY) else old(capacity)
    {
      ghost var ms := Members();
      var present := GetValue(name);
      Present(ms, name);
      if present.Some? {
        return false;
      }
      if count >= capacity {
        var newCapacity := Max(capacity * 2, STARTING_CAPACITY);
        var resized := Resize(newCapacity);
      }
      Append(name, value);
      return true;
    }

    /** The new member goes behind the last one. */
    method Append(name: string, value: Json)
      requires Valid() && count < capacity && !HasName(Members(), name)
      modifies this, names, values
      ensures Valid() && names == old(names) && values == old(values) && capacity == old(capacity)
      ensures Members() == old(Members()) + [Member(name, value)]
    {
      ghost var ms := Members();
      var index := count;
      names[index] := name;
      values[index] := value;
      count := count + 1;
      assert names[..count] == old(names[..count]) + [name];
      assert values[..count] == old(values[..count]) + [value];
      assert Members() == ms + [Member(name, value)];
    }

    /** `strcmp` with every name in turn. */
    method IndexOf(name: string) returns (i: nat)
      requires Valid() && HasName(Members(), name)
      ensures i == Find(Members(), name) < count
    {
      ghost var ms := Members();
      i := 0;
      while names[i] != name
        invariant i <= Find(ms, name) < count
        decreases count - i
      {
        i := i + 1;
      }
      FindUnique(ms, i);
    }

    /** `json_object_set_value`; a value that already has a parent is refused. */
    method SetValue(name: string, value: Json, attached: bool) returns (ok: bool)
      requires Valid()
      modifies this, names, values
      ensures Valid() && OwnArrays()
      ensures ok <==> !attached
      ensures Members() == if ok then SetMember(old(Members()), name, value) else old(Members())
    {
      hide Lookup, Find;
      ghost var ms := Members();
      if attached {
        return false;
      }
      var oldValue := GetValue(name);
      Present(ms, name);
      if oldValue.Some? {
        var i := IndexOf(name);
        values[i] := value;
        assert values[..count] == old(values[..count])[i := value];
        SetLookup(ms, name, value, name);
        assert Members() == SetMember(ms, name, value);
        return true;
      }
      ok := Add(name, value);
    }

    /** `json_object_remove`. */
    method Remove(name: string) returns (ok: bool)
      requires Valid()
      modifies this, names, values
      ensures Valid() && names == old(names) && values == old(values) && capacity == old(capacity)
      ensures ok <==> HasName(old(Members()), name)
      ensures Members() == RemoveMember(old(Members()), name)
    {
      hide Lookup, Find;
      ghost var ms := Members();
      var present := GetValue(name);
      Present(ms, name);
      if present.None? {
        return false;
      }
      var i := IndexOf(name);
      RemoveDistinct(ms, name);
      MoveLastTo(i);
      return true;
    }

    /** The entry at `i` is overwritten with the last one, which is dropped. */
    method MoveLastTo(i: nat)
      requires Shape() && i < count
      modifies this, names, values
      ensures Shape() && names == old(names) && values == old(values) && capacity == old(capacity)
      ensures Members() == old(Members()[i := Members()[count - 1]][..count - 1])
    {
      var last := count - 1;
      if i != last {
        names[i] := names[last];
        values[i] := values[last];
      }
      count := last;
    }

    /** `json_object_clear` keeps the capacity. */
    method Clear()
      requires Valid()
      modifies this
      ensures Valid() && Members() == [] && names == old(names) && values == old(values) && capacity == old(capacity)
    {
      count := 0;
    }
  }
}
