/**
 * Dotted names in the JSON library (libfreenect/fakenect/parson.c): `a.b.c` leads through nested
 * objects. Objects are lists of members here; the operations on one object are those of
 * `JsonObjects`, which its table is proved to perform.
 */
module JsonPaths {
  import opened JsonUtf8
  import opened JsonText
  import opened JsonRoundTrip
  import opened JsonEquality
  import opened JsonObjects
  import opened Options

  // ---------------------------------------------------------------- the operations

  /** `strchr(name, '.')`: the position of the first dot, or the length. */
  function DotAt(name: string): (d: nat)
    ensures d <= |name| && (d < |name| ==> name[d] == '.')
  {
    if name == "" || name[0] == '.' then 0 else 1 + DotAt(name[1..])
  }

  function HasDot(name: string): bool {
    DotAt(name) < |name|
  }

  function First(name: string): string {
    name[..DotAt(name)]
  }

  function Next(name: string): (r: string)
    requires HasDot(name)
    ensures |r| < |name|
  {
    name[DotAt(name) + 1..]
  }

  /** An object, or the null pointer that stands for anything else. */
  function AsObject(v: Option<Json>): Option<seq<Member>> {
    if v.Some? && v.value.Object? then Some(v.value.members) else None
  }

  function Get(o: Option<seq<Member>>, name: string): Option<Json> {
    if o.None? then None else Lookup(o.value, name)
  }

  /** `json_object_dotget_value`. */
  function DotGet(o: Option<seq<Member>>, name: string): Option<Json>
    decreases |name|
  {
    if !HasDot(name) then Get(o, name) else DotGet(AsObject(Get(o, First(name))), Next(name))
  }

  /** Whether an operation succeeded, and what it left of the object. */
  datatype Outcome = Outcome(ok: bool, members: seq<Member>)

  /** `json_object_dotset_value`; `attached` says that the value already has a parent. */
  function DotSet(o: seq<Member>, name: string, v: Json, attached: bool): Outcome
    decreases |name|
  {
    if !HasDot(name) then
      if attached then Outcome(false, o) else Outcome(true, SetMember(o, name, v))
    else
      match Lookup(o, First(name))
      case None =>
        var r := DotSet([], Next(name), v, attached);
        Outcome(r.ok, SetMember(o, First(name), Object(r.members)))
      case Some(Object(ms)) =>
        var r := DotSet(ms, Next(name), v, attached);
        Outcome(r.ok, SetMember(o, First(name), Object(r.members)))
      case _ => Outcome(false, o)
  }

  /** `json_object_dotremove`. */
  function DotRemove(o: seq<Member>, name: string): Outcome
    decreases |name|
  {
    if !HasDot(name) then Outcome(HasName(o, name), RemoveMember(o, name))
    else
      match Lookup(o, First(name))
      case Some(Object(ms)) =>
        var r := DotRemove(ms, Next(name));
        Outcome(r.ok, SetMember(o, First(name), Object(r.members)))
      case _ => Outcome(false, o)
  }

  // ---------------------------------------------------------------- paths

  /** The segments of a dotted name. */
  function Split(name: string): (path: seq<string>)
    ensures path != []
    decreases |name|
  {
    if !HasDot(name) then [name] else [First(name)] + Split(Next(name))
  }

  /** The value that a path leads to. */
  function Follow(o: Option<seq<Member>>, path: seq<string>): Option<Json>
    requires path != []
    decreases |path|
  {
    if |path| == 1 then Get(o, path[0]) else Follow(AsObject(Get(o, path[0])), path[1..])
  }

  lemma {:induction false} DotGetFollows(o: Option<seq<Member>>, name: string)
    ensures DotGet(o, name) == Follow(o, Split(name))
    decreases |name|
  {
    if HasDot(name) {
      DotGetFollows(AsObject(Get(o, First(name))), Next(name));
      assert Split(name)[1..] == Split(Next(name));
    }
  }

  /** Neither path continues the other. */
  predicate Apart(p: seq<string>, q: seq<string>) {
    !(p <= q) && !(q <= p)
  }

  // ---------------------------------------------------------------- setting

  /** A failure, or what path `q` leads to after `v` was set at path `p`. */
  ghost predicate SetAt(before: Option<seq<Member>>, after: Outcome, p: seq<string>, q: seq<string>, v: Json)
    requires p != [] && q != []
  {
    var now := Follow(Some(after.members), q);
    if !after.ok then true
    else if q == p then now == Some(v)
    else if p <= q then now == Follow(AsObject(Some(v)), q[|p|..])
    else if q <= p then now.Some? && now.value.Object?
    else now == Follow(before, q)
  }

  lemma FollowNothing(q: seq<string>)
    requires q != []
    ensures Follow(None, q) == None && Follow(Some([]), q) == None
    decreases |q|
  {
    if |q| > 1 {
      FollowNothing(q[1..]);
    }
  }

  /** What a path leads to once the value under `key` is `w`. */
  lemma FollowSet(o: seq<Member>, key: string, w: Json, q: seq<string>)
    requires DistinctNames(o) && q != []
    ensures var now := Follow(Some(SetMember(o, key, w)), q);
      && (q[0] != key ==> now == Follow(Some(o), q))
      && (q == [key] ==> now == Some(w))
      && (q[0] == key && |q| > 1 ==> now == Follow(AsObject(Some(w)), q[1..]))
  {
    SetLookup(o, key, w, q[0]);
  }

  /** The object that a set goes into under `key`; a missing one is as good as an empty one. */
  function Child(o: seq<Member>, key: string): seq<Member> {
    var v := Lookup(o, key);
    if v.Some? && v.value.Object? then v.value.members else []
  }

  predicate Enterable(o: seq<Member>, key: string) {
    Lookup(o, key).None? || Lookup(o, key).value.Object?
  }

  lemma FollowChild(o: seq<Member>, key: string, q: seq<string>)
    requires Enterable(o, key) && |q| > 1 && q[0] == key
    ensures Follow(Some(o), q) == Follow(Some(Child(o, key)), q[1..])
  {
    FollowNothing(q[1..]);
  }

  /** A set at a dotted name is a set in the child. */
  lemma DotSetStep(o: seq<Member>, name: string, v: Json, attached: bool)
    requires HasDot(name)
    ensures var key := First(name);
      DotSet(o, name, v, attached) ==
        if Enterable(o, key) then
          var r := DotSet(Child(o, key), Next(name), v, attached);
          Outcome(r.ok, SetMember(o, key, Object(r.members)))
        else Outcome(false, o)
  {
  }

  /**
   * After a successful set, the name leads to the value, longer names lead into the value, shorter
   * ones to objects, and every other name leads where it led before.
   */
  lemma {:induction false} DotSetFollows(o: seq<Member>, name: string, v: Json, attached: bool, q: seq<string>)
    requires DistinctDeep(Object(o)) && q != []
    ensures SetAt(Some(o), DotSet(o, name, v, attached), Split(name), q, v)
    decreases |name|
  {
    ChildDistinct(o, First(name));
    if !HasDot(name) {
      SetHere(o, name, v, q);
    } else if Enterable(o, First(name)) {
      DotSetStep(o, name, v, attached);
      var r := DotSet(Child(o, First(name)), Next(name), v, attached);
      if |q| > 1 {
        DotSetFollows(Child(o, First(name)), Next(name), v, attached, q[1..]);
      }
      SetBelow(o, First(name), r, Split(Next(name)), q, v);
    }
  }

  lemma SetHere(o: seq<Member>, name: string, v: Json, q: seq<string>)
    requires DistinctNames(o) && q != []
    ensures SetAt(Some(o), Outcome(true, SetMember(o, name, v)), [name], q, v)
  {
    FollowSet(o, name, v, q);
    assert q[0] == name ==> [name] <= q;
    assert |q| > 1 && [name] <= q ==> !(q <= [name]);
  }

  /** What holds of the child's paths holds of the same paths from its parent. */
  lemma SetBelow(o: seq<Member>, key: string, r: Outcome, p: seq<string>, q: seq<string>, v: Json)
    requires DistinctNames(o) && Enterable(o, key) && p != [] && q != []
    requires |q| > 1 ==> SetAt(Some(Child(o, key)), r, p, q[1..], v)
    ensures SetAt(Some(o), Outcome(r.ok, SetMember(o, key, Object(r.members))), [key] + p, q, v)
  {
    var path := [key] + p;
    FollowSet(o, key, Object(r.members), q);
    assert path[1..] == p;
    if q[0] != key {
      DifferentStart(path, q);
    } else if |q| > 1 {
      FollowChild(o, key, q);
      Shorten(path, q);
    } else {
      assert q <= path && !(path <= q);
    }
  }

  lemma DifferentStart(p: seq<string>, q: seq<string>)
    requires p != [] && q != [] && p[0] != q[0]
    ensures Apart(p, q)
  {
  }

  /** Two paths with the same first segment are related as their rests are. */
  lemma Shorten(p: seq<string>, q: seq<string>)
    requires |p| > 1 && |q| > 1 && p[0] == q[0]
    ensures p <= q <==> p[1..] <= q[1..]
    ensures q <= p <==> q[1..] <= p[1..]
    ensures p == q <==> p[1..] == q[1..]
    ensures p <= q ==> q[|p|..] == q[1..][|p[1..]|..]
  {
    assert p == [p[0]] + p[1..] && q == [q[0]] + q[1..];
  }

  lemma ChildDistinct(o: seq<Member>, key: string)
    requires DistinctDeep(Object(o))
    ensures DistinctNames(o)
    ensures Lookup(o, key).Some? ==> DistinctDeep(Lookup(o, key).value)
    ensures DistinctDeep(Object(Child(o, key)))
  {
    var i := Find(o, key);
    assert i < |o| ==> DistinctDeep(o[i].value);
  }

  /** The same in terms of names: what was set is got back, and unrelated names are not affected. */
  lemma DotSetThenGet(o: seq<Member>, name: string, v: Json, attached: bool, other: string)
    requires DistinctDeep(Object(o)) && DotSet(o, name, v, attached).ok
    ensures var after := Some(DotSet(o, name, v, attached).members);
      && DotGet(after, name) == Some(v)
      && (Apart(Split(name), Split(other)) ==> DotGet(after, other) == DotGet(Some(o), other))
  {
    var after := DotSet(o, name, v, attached).members;
    DotSetFollows(o, name, v, attached, Split(name));
    DotSetFollows(o, name, v, attached, Split(other));
    DotGetFollows(Some(after), name);
    DotGetFollows(Some(after), other);
    DotGetFollows(Some(o), other);
  }

  // ---------------------------------------------------------------- when setting succeeds

  /** Every shorter path leads to an object or to nothing. */
  ghost predicate Open(o: seq<Member>, p: seq<string>) {
    forall k :: 0 < k < |p| ==> OpenAt(o, p, k)
  }

  ghost predicate OpenAt(o: seq<Member>, p: seq<string>, k: nat)
    requires 0 < k <= |p|
  {
    var x := Follow(Some(o), p[..k]);
    x.None? || x.value.Object?
  }

  lemma OpenStep(o: seq<Member>, p: seq<string>)
    requires |p| > 1
    ensures Open(o, p) <==> Enterable(o, p[0]) && Open(Child(o, p[0]), p[1..])
  {
    assert OpenAt(o, p, 1) <==> Enterable(o, p[0]);
    if Enterable(o, p[0]) {
      forall k | 0 < k < |p[1..]|
        ensures OpenAt(Child(o, p[0]), p[1..], k) <==> OpenAt(o, p, k + 1)
      {
        FollowChild(o, p[0], p[..k + 1]);
        assert p[..k + 1][1..] == p[1..][..k];
      }
      if Open(Child(o, p[0]), p[1..]) {
        forall k | 0 < k < |p|
          ensures OpenAt(o, p, k)
        {
          assert k > 1 ==> OpenAt(Child(o, p[0]), p[1..], k - 1);
        }
      }
    }
  }

  /** A set succeeds exactly when the value has no parent and no shorter path leads to anything but an object. */
  lemma {:induction false} DotSetSucceeds(o: seq<Member>, name: string, v: Json, attached: bool)
    ensures DotSet(o, name, v, attached).ok <==> !attached && Open(o, Split(name))
    decreases |name|
  {
    if HasDot(name) {
      DotSetStep(o, name, v, attached);
      DotSetSucceeds(Child(o, First(name)), Next(name), v, attached);
      assert Split(name)[1..] == Split(Next(name));
      OpenStep(o, Split(name));
    }
  }

  /** A value that is refused does not matter. */
  lemma {:induction false} RefusedIsIrrelevant(o: seq<Member>, name: string, v: Json, w: Json)
    ensures DotSet(o, name, v, true) == DotSet(o, name, w, true)
    decreases |name|
  {
    if HasDot(name) {
      DotSetStep(o, name, v, true);
      DotSetStep(o, name, w, true);
      RefusedIsIrrelevant(Child(o, First(name)), Next(name), v, w);
    }
  }

  /** The path that leads to the object a set goes into. */
  function Parent(p: seq<string>): seq<string>
    requires p != []
  {
    p[..|p| - 1]
  }

  /** Some object on the way is missing. */
  predicate MissingParent(o: seq<Member>, p: seq<string>)
    requires p != []
  {
    |p| > 1 && Follow(Some(o), Parent(p)).None?
  }

  lemma MissingStep(o: seq<Member>, p: seq<string>)
    requires |p| > 1 && Enterable(o, p[0])
    ensures MissingParent(o, p) <==> Lookup(o, p[0]).None? || MissingParent(Child(o, p[0]), p[1..])
  {
    if |p| > 2 {
      FollowChild(o, p[0], Parent(p));
      assert Parent(p)[1..] == Parent(p[1..]);
      FollowNothing(Parent(p[1..]));
    }
  }

  lemma SetSame(o: seq<Member>, key: string, v: Json)
    ensures SetMember(o, key, v) == o <==> Lookup(o, key) == Some(v)
  {
    var i := Find(o, key);
    if i < |o| {
      assert SetMember(o, key, v)[i].value == v;
    } else {
      assert |SetMember(o, key, v)| == |o| + 1;
    }
  }

  /**
   * A failed set leaves the object as it was, except in one case: if the value already has a parent
   * and an object on the way is missing, the missing objects are created before the set fails.
   */
  lemma {:induction false} FailedSetChanges(o: seq<Member>, name: string, v: Json, attached: bool)
    requires !DotSet(o, name, v, attached).ok
    ensures DotSet(o, name, v, attached).members != o <==>
              attached && Open(o, Split(name)) && MissingParent(o, Split(name))
    decreases |name|
  {
    var p := Split(name);
    DotSetSucceeds(o, name, v, attached);
    if HasDot(name) {
      var key := First(name);
      DotSetStep(o, name, v, attached);
      OpenStep(o, p);
      if Enterable(o, key) {
        assert p[1..] == Split(Next(name));
        MissingStep(o, p);
        FailedSetChanges(Child(o, key), Next(name), v, attached);
        SetSame(o, key, Object(DotSet(Child(o, key), Next(name), v, attached).members));
      }
    }
  }

  /** Such a set of "a.b" in an empty object leaves an empty object under "a". */
  lemma LeavesEmptyObject(v: Json)
    ensures DotSet([], "a.b", v, true) == Outcome(false, [Member("a", Object([]))])
  {
    assert DotAt("a.b") == 1 && First("a.b") == "a" && Next("a.b") == "b";
    assert DotAt("b") == 1;
  }

  /** Names stay distinct at every depth. */
  lemma {:induction false} DotSetKeepsDistinct(o: seq<Member>, name: string, v: Json, attached: bool)
    requires DistinctDeep(Object(o)) && DistinctDeep(v)
    ensures DistinctDeep(Object(DotSet(o, name, v, attached).members))
    decreases |name|
  {
    ChildDistinct(o, First(name));
    if !HasDot(name) {
      SetKeepsDistinct(o, name, v);
    } else {
      DotSetStep(o, name, v, attached);
      DotSetKeepsDistinct(Child(o, First(name)), Next(name), v, attached);
      SetKeepsDistinct(o, First(name), Object(DotSet(Child(o, First(name)), Next(name), v, attached).members));
    }
  }

  lemma SetKeepsDistinct(o: seq<Member>, key: string, v: Json)
    requires DistinctDeep(Object(o)) && DistinctDeep(v)
    ensures DistinctDeep(Object(SetMember(o, key, v)))
  {
    SetLookup(o, key, v, key);
    var ns := SetMember(o, key, v);
    forall i | 0 <= i < |ns|
      ensures DistinctDeep(ns[i].value)
    {
      if i < |o| && i != Find(o, key) {
        assert DistinctDeep(o[i].value);
      }
    }
  }

  // ---------------------------------------------------------------- removing

  /** What path `q` leads to after what path `p` led to was removed. */
  ghost predicate RemovedPath(before: seq<Member>, after: seq<Member>, p: seq<string>, q: seq<string>)
    requires p != [] && q != []
  {
    var now := Follow(Some(after), q);
    if p <= q then now == None
    else if q <= p then now.Some? && now.value.Object?
    else now == Follow(Some(before), q)
  }

  /** Removing succeeds exactly where there is something to get, and otherwise changes nothing. */
  lemma {:induction false} DotRemoveSucceeds(o: seq<Member>, name: string)
    ensures DotRemove(o, name).ok <==> DotGet(Some(o), name).Some?
    ensures !DotRemove(o, name).ok ==> DotRemove(o, name).members == o
    decreases |name|
  {
    if !HasDot(name) {
      Present(o, name);
    } else {
      var key := First(name);
      var child := AsObject(Lookup(o, key));
      DotGetFollows(child, Next(name));
      if child.Some? {
        DotRemoveSucceeds(child.value, Next(name));
        SetSame(o, key, Object(DotRemove(child.value, Next(name)).members));
      } else {
        FollowNothing(Split(Next(name)));
      }
    }
  }

  /** After a removal the name and its continuations lead nowhere; every unrelated name leads where it led before. */
  lemma {:induction false} DotRemoveFollows(o: seq<Member>, name: string, q: seq<string>)
    requires DistinctDeep(Object(o)) && q != [] && DotRemove(o, name).ok
    ensures RemovedPath(o, DotRemove(o, name).members, Split(name), q)
    decreases |name|
  {
    ChildDistinct(o, First(name));
    if !HasDot(name) {
      RemoveHere(o, name, q);
    } else {
      var child := Child(o, First(name));
      if |q| > 1 {
        DotRemoveFollows(child, Next(name), q[1..]);
      }
      RemoveBelow(o, First(name), DotRemove(child, Next(name)).members, Split(Next(name)), q);
    }
  }

  lemma RemoveHere(o: seq<Member>, name: string, q: seq<string>)
    requires DistinctNames(o) && q != []
    ensures RemovedPath(o, RemoveMember(o, name), [name], q)
  {
    RemoveLookup(o, name, q[0]);
    assert [name] <= q <==> q[0] == name;
    if |q| > 1 && q[0] == name {
      FollowNothing(q[1..]);
    }
  }

  lemma RemoveBelow(o: seq<Member>, key: string, after: seq<Member>, p: seq<string>, q: seq<string>)
    requires DistinctNames(o) && Enterable(o, key) && p != [] && q != []
    requires |q| > 1 ==> RemovedPath(Child(o, key), after, p, q[1..])
    ensures RemovedPath(o, SetMember(o, key, Object(after)), [key] + p, q)
  {
    var path := [key] + p;
    FollowSet(o, key, Object(after), q);
    assert path[1..] == p;
    if q[0] != key {
      DifferentStart(path, q);
    } else if |q| > 1 {
      FollowChild(o, key, q);
      Shorten(path, q);
    } else {
      assert q <= path && !(path <= q);
    }
  }

  /** Removing what was set where nothing was, in an object that was there, gives back exactly the old object. */
  lemma {:induction false} RemoveUndoesSet(o: seq<Member>, name: string, v: Json)
    requires DistinctDeep(Object(o)) && DotGet(Some(o), name).None?
    requires DotSet(o, name, v, false).ok && !MissingParent(o, Split(name))
    ensures DotRemove(DotSet(o, name, v, false).members, name) == Outcome(true, o)
    decreases |name|
  {
    var key := First(name);
    ChildDistinct(o, key);
    if !HasDot(name) {
      UndoHere(o, name, v);
    } else {
      DotSetStep(o, name, v, false);
      assert Split(name)[1..] == Split(Next(name));
      MissingStep(o, Split(name));
      RemoveUndoesSet(Child(o, key), Next(name), v);
      var inner := DotSet(Child(o, key), Next(name), v, false).members;
      SetLookup(o, key, Object(inner), key);
      SetTwice(o, key, Object(inner), Object(Child(o, key)));
      SetSame(o, key, Object(Child(o, key)));
    }
  }

  lemma UndoHere(o: seq<Member>, name: string, v: Json)
    requires DistinctNames(o) && Lookup(o, name).None?
    ensures var after := SetMember(o, name, v); HasName(after, name) && RemoveMember(after, name) == o
  {
    hide Lookup, Find;
    var after := SetMember(o, name, v);
    SetLookup(o, name, v, name);
    Present(after, name);
    FindUnique(after, |o|);
    assert after[|o| := after[|o|]][..|o|] == o;
  }

  lemma SetTwice(o: seq<Member>, key: string, v: Json, w: Json)
    ensures SetMember(SetMember(o, key, v), key, w) == SetMember(o, key, w)
  {
    var ns := SetMember(o, key, v);
    FindIsFirst(o, key);
    FirstMatch(ns, Find(o, key), key);
  }

  lemma {:induction false} FindIsFirst(ms: seq<Member>, key: string)
    ensures forall j :: 0 <= j < Find(ms, key) ==> ms[j].name != key
  {
    if ms != [] && ms[0].name != key {
      FindIsFirst(ms[1..], key);
      forall j | 0 <= j < Find(ms, key)
        ensures ms[j].name != key
      {
        if j > 0 {
          assert ms[j] == ms[1..][j - 1];
        }
      }
    }
  }

  lemma {:induction false} FirstMatch(ms: seq<Member>, i: nat, key: string)
    requires i < |ms| && ms[i].name == key && forall j :: 0 <= j < i ==> ms[j].name != key
    ensures Find(ms, key) == i
  {
    if i > 0 {
      FirstMatch(ms[1..], i - 1, key);
    }
  }
}
