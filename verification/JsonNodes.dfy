/**
 * Values of the JSON library (libfreenect/fakenect/parson.c) as linked nodes: every child points
 * back to its parent, and no node is reached twice. The operations on dotted names keep it so, and a
 * deep copy is a tree of new nodes.
 */
module JsonNodes {
  import opened JsonUtf8
  import opened JsonText
  import opened JsonRoundTrip
  import opened JsonEquality
  import opened JsonObjects
  import opened JsonPaths
  import opened Options

  datatype Kind = KindLeaf | KindArray | KindObject

  /** `json_value_t`, with the array or the object that it points to. */
  class Node {
    var parent: Node?
    const kind: Kind
    const scalar: Json
    var names: seq<string>
    var items: seq<Node>
    ghost var repr: set<Node>
    ghost var model: Json

    /** `json_value_init_array`, `json_value_init_object` and the initializers of the other types. */
    constructor (kind: Kind, scalar: Json)
      requires kind == KindLeaf ==> !scalar.Array? && !scalar.Object?
      ensures Valid() && repr == {this} && parent == null && this.kind == kind
      ensures model == match kind case KindLeaf => scalar case KindArray => Array([]) case KindObject => Object([])
    {
      parent := null;
      this.kind, this.scalar := kind, scalar;
      names, items := [], [];
      repr := {this};
      model := match kind case KindLeaf => scalar case KindArray => Array([]) case KindObject => Object([]);
    }

    /** A child belongs to this node alone. */
    ghost predicate Owns(i: nat)
      requires i < |items|
      reads this, repr
    {
      var c := items[i];
      c in repr && c.repr <= repr && this !in c.repr && c.parent == this
    }

    /** The tree below this node stands for `model`. */
    ghost predicate Valid()
      reads this, repr
      decreases repr
    {
      && this in repr
      && (forall i :: 0 <= i < |items| ==> Owns(i) && items[i].Valid())
      && (forall i, j :: 0 <= i < j < |items| ==> items[i].repr !! items[j].repr)
      && match kind
         case KindLeaf => items == [] && names == [] && model == scalar && !model.Array? && !model.Object?
         case KindArray =>
           && model.Array? && names == [] && |model.items| == |items|
           && forall i :: 0 <= i < |items| ==> model.items[i] == items[i].model
         case KindObject =>
           && model.Object? && |model.members| == |items| == |names| && DistinctNames(model.members)
           && forall i :: 0 <= i < |items| ==> model.members[i] == Member(names[i], items[i].model)
    }

    /** A tree is handed over: its root gets a parent. */
    method Adopt(child: Node)
      requires Valid() && child.Valid() && child !in repr && child.repr !! repr
      modifies child`parent
      ensures child.Valid() && child.parent == this && Valid()
    {
      child.parent := this;
    }

    /** `json_array_add`. */
    method ArrayAdd(child: Node)
      requires Valid() && kind == KindArray
      requires child.Valid() && child.repr !! repr
      modifies this, child`parent
      ensures Valid() && model == Array(old(model.items) + [child.model])
      ensures repr == old(repr) + child.repr && parent == old(parent)
      ensures child.repr == old(child.repr) && child.model == old(child.model)
    {
      ghost var vs := model.items + [child.model];
      Adopt(child);
      Extend(child);
      DescribeItems(vs);
    }

    /** `json_object_get_value`: the child under the first matching name, or null. */
    method GetValue(name: string) returns (r: Node?)
      requires Valid() && kind == KindObject
      ensures r == null <==> Lookup(model.members, name).None?
      ensures r != null ==> Find(model.members, name) < |items| && r == items[Find(model.members, name)]
    {
      ghost var ms := model.members;
      for i := 0 to |names|
        invariant forall j :: 0 <= j < i ==> ms[j].name != name
      {
        if names[i] == name {
          assert ms[i].name == name;
          FindUnique(ms, i);
          return items[i];
        }
      }
      assert Find(ms, name) == |ms|;
      return null;
    }

    /** `json_object_add`. */
    method ObjectAdd(name: string, child: Node) returns (ok: bool)
      requires Valid() && kind == KindObject
      requires child.Valid() && child.repr !! repr
      modifies this, child`parent
      ensures ok <==> !HasName(old(model.members), name)
      ensures Valid() && parent == old(parent)
      ensures model == if ok then Object(old(model.members) + [Member(name, old(child.model))]) else old(model)
      ensures repr == if ok then old(repr) + old(child.repr) else old(repr)
      ensures items == if ok then old(items) + [child] else old(items)
    {
      var present := GetValue(name);
      if present != null {
        assert forall i :: 0 <= i < |items| ==> model.members[i].name == names[i];
        return false;
      }
      NoneHasName(model.members, name);
      ObjectAppend(name, child);
      return true;
    }

    method ObjectAppend(name: string, child: Node)
      requires Valid() && kind == KindObject && !HasName(model.members, name)
      requires child.Valid() && child.repr !! repr
      modifies this, child`parent
      ensures Valid() && parent == old(parent)
      ensures model == Object(old(model.members) + [Member(name, old(child.model))])
      ensures repr == old(repr) + old(child.repr) && items == old(items) + [child]
    {
      ghost var ms := model.members + [Member(name, child.model)];
      AppendDistinct(model.members, Member(name, child.model));
      Adopt(child);
      Extend(child);
      names := names + [name];
      Describe(ms);
    }

    /** All of `Valid` except what the node itself stands for. */
    ghost predicate Owning()
      reads this, repr
    {
      && this in repr
      && (forall i :: 0 <= i < |items| ==> Owns(i) && items[i].Valid())
      && (forall i, j :: 0 <= i < j < |items| ==> items[i].repr !! items[j].repr)
    }

    /** The members as they are become the tree's own description. */
    ghost method Describe(ms: seq<Member>)
      requires Owning() && kind == KindObject && |ms| == |items| == |names| && DistinctNames(ms)
      requires forall i :: 0 <= i < |items| ==> ms[i] == Member(names[i], items[i].model)
      modifies this`model
      ensures Valid() && model == Object(ms)
    {
      model := Object(ms);
    }

    /** The same for items. */
    ghost method DescribeItems(vs: seq<Json>)
      requires Owning() && kind == KindArray && names == [] && |vs| == |items|
      requires forall i :: 0 <= i < |items| ==> vs[i] == items[i].model
      modifies this`model
      ensures Valid() && model == Array(vs)
    {
      model := Array(vs);
    }

    /** Takes in a tree whose root has been handed over. */
    method Extend(child: Node)
      requires Owning() && child.Valid() && child.repr !! repr && child.parent == this
      modifies this`items, this`repr
      ensures Owning() && items == old(items) + [child] && repr == old(repr) + child.repr
    {
      items := items + [child];
      repr := repr + child.repr;
    }

    /** `json_value_deep_copy`: an equal tree, none of whose nodes existed before. */
    method DeepCopy() returns (copy: Node)
      requires Valid()
      ensures fresh(copy.repr) && copy.Valid() && copy.parent == null
      ensures copy.model == model && Equals(model, copy.model)
      decreases repr, 2
    {
      ModelEqualsItself();
      match kind
      case KindLeaf => copy := new Node(KindLeaf, scalar);
      case KindArray => copy := CopyArray();
      case KindObject => copy := CopyObject();
    }

    lemma ModelEqualsItself()
      requires Valid()
      ensures Equals(model, model)
    {
      ModelDistinct();
      EqualsIsEquivalence(model, model, model);
    }

    /** Every object in the tree has distinct names. */
    lemma {:induction false} ModelDistinct()
      requires Valid()
      ensures DistinctDeep(model)
      decreases repr
    {
      forall i | 0 <= i < |items|
        ensures DistinctDeep(items[i].model)
      {
        assert Owns(i);
        items[i].ModelDistinct();
      }
    }

    method CopyArray() returns (copy: Node)
      requires Valid() && kind == KindArray
      ensures fresh(copy.repr) && copy.Valid() && copy.parent == null
      ensures copy.model == model
      decreases repr, 1
    {
      copy := new Node(KindArray, Null);
      for i := 0 to |items|
        invariant fresh(copy.repr) && copy.Valid() && copy.parent == null && copy.kind == KindArray
        invariant copy.model == Array(model.items[..i]) && copy.repr !! repr
      {
        CopyItem(i, copy);
      }
    }

    /** One round: a copy of the `i`-th item is appended. */
    method CopyItem(i: nat, copy: Node)
      requires Valid() && kind == KindArray && i < |items|
      requires copy.Valid() && copy.kind == KindArray && copy.repr !! repr
      requires copy.model == Array(model.items[..i])
      modifies copy
      ensures copy.Valid() && copy.parent == old(copy.parent) && fresh(copy.repr - old(copy.repr))
      ensures copy.model == Array(model.items[..i + 1])
      decreases repr, 0
    {
      assert Owns(i);
      var child := items[i].DeepCopy();
      copy.ArrayAdd(child);
      assert model.items[..i + 1] == model.items[..i] + [model.items[i]];
    }

    method CopyObject() returns (copy: Node)
      requires Valid() && kind == KindObject
      ensures fresh(copy.repr) && copy.Valid() && copy.parent == null
      ensures copy.model == model
      decreases repr, 1
    {
      copy := new Node(KindObject, Null);
      for i := 0 to |items|
        invariant fresh(copy.repr) && copy.Valid() && copy.parent == null && copy.kind == KindObject
        invariant copy.model == Object(model.members[..i]) && copy.repr !! repr
      {
        CopyMember(i, copy);
      }
    }

    /** One round: a copy of the `i`-th member is added under its name. */
    method CopyMember(i: nat, copy: Node)
      requires Valid() && kind == KindObject && i < |items|
      requires copy.Valid() && copy.kind == KindObject && copy.repr !! repr
      requires copy.model == Object(model.members[..i])
      modifies copy
      ensures copy.Valid() && copy.parent == old(copy.parent) && fresh(copy.repr - old(copy.repr))
      ensures copy.model == Object(model.members[..i + 1])
      decreases repr, 0
    {
      var value := ValueAt(i);
      var child := value.DeepCopy();
      AddNext(i, copy, child);
    }

    method AddNext(i: nat, copy: Node, child: Node)
      requires Valid() && kind == KindObject && i < |items| && model.members[i] == Member(names[i], child.model)
      requires copy.Valid() && copy.kind == KindObject && child.Valid()
      requires copy.repr !! repr && child.repr !! repr && child.repr !! copy.repr
      requires copy.model == Object(model.members[..i])
      modifies copy, child`parent
      ensures copy.Valid() && copy.parent == old(copy.parent) && copy.repr == old(copy.repr) + old(child.repr)
      ensures copy.model == Object(model.members[..i + 1])
    {
      NewInPrefix(model.members, i);
      var ok := copy.ObjectAdd(names[i], child);
    }

    /** The value of the `i`-th name, looked up by that name. */
    method ValueAt(i: nat) returns (r: Node)
      requires Valid() && kind == KindObject && i < |items|
      ensures r == items[i] && r.Valid() && r.repr < repr && model.members[i] == Member(names[i], r.model)
    {
      assert Owns(i);
      assert forall j :: 0 <= j < |items| ==> model.members[j].name == names[j];
      FindUnique(model.members, i);
      r := GetValue(names[i]);
    }

    // ---------------------------------------------------------------- dotted names

    /** The node that a dotted name leads to, or null. */
    ghost function NodeAt(name: string): Node?
      requires Valid() && kind == KindObject
      reads this, repr
      decreases |name|, 1
    {
      NodeFrom(Find(model.members, if HasDot(name) then First(name) else name), name)
    }

    /** The same, given the place of the first segment. */
    ghost function NodeFrom(i: nat, name: string): Node?
      requires Valid() && kind == KindObject
      reads this, repr
      decreases |name|, 0
    {
      if i >= |items| then null
      else if !HasDot(name) then items[i]
      else
        assert Owns(i);
        if items[i].kind != KindObject then null else items[i].NodeAt(Next(name))
    }

    lemma NodeBelow(name: string, i: nat)
      requires Valid() && kind == KindObject && HasDot(name)
      requires i < |items| && i == Find(model.members, First(name)) && items[i].kind == KindObject
      ensures Owns(i) && NodeAt(name) == items[i].NodeAt(Next(name))
    {
      assert Owns(i);
    }

    /** A child is replaced in place; the old one is no longer part of the tree. */
    method ReplaceAt(i: nat, value: Node)
      requires Valid() && kind == KindObject && i < |items|
      requires value.Valid() && value.repr !! repr
      modifies this, value`parent
      ensures Valid() && parent == old(parent)
      ensures model == Object(old(model.members)[i := Member(old(names[i]), old(value.model))])
      ensures repr <= old(repr) + old(value.repr) && items == old(items)[i := value]
    {
      ghost var ms := model.members[i := Member(names[i], value.model)];
      SameNamesStayDistinct(model.members, ms);
      Adopt(value);
      ReplaceItem(i, value);
      Describe(ms);
    }

    method ReplaceItem(i: nat, value: Node)
      requires Owning() && i < |items| && value.Valid() && value.repr !! repr && value.parent == this
      modifies this`items, this`repr
      ensures Owning() && items == old(items)[i := value] && repr <= old(repr) + value.repr
    {
      assert Owns(i);
      repr := repr - items[i].repr + value.repr;
      items := items[i := value];
    }

    /** `strcmp` with every name in turn. */
    method IndexOf(name: string) returns (i: nat)
      requires Valid() && kind == KindObject && HasName(model.members, name)
      ensures i == Find(model.members, name) < |items|
    {
      ghost var ms := model.members;
      Present(ms, name);
      i := 0;
      while names[i] != name
        invariant i <= Find(ms, name) < |items|
        decreases |items| - i
      {
        i := i + 1;
      }
      FindUnique(ms, i);
    }

    /** The value that a set would put in place: a node that has a parent is refused, whatever it holds. */
    ghost function Offered(): Json
      reads this
    {
      if parent == null then model else Null
    }

    /** The nodes that a set would take into the tree. */
    ghost function Brought(): set<Node>
      reads this
    {
      if parent == null then repr else {}
    }

    /** `json_object_set_value`; the value may be part of any tree, this one included, if it has a parent. */
    method SetValue(name: string, value: Node) returns (ok: bool)
      requires Valid() && kind == KindObject
      requires value.parent == null ==> value.Valid() && value.repr !! repr
      modifies this, value`parent
      ensures Valid() && parent == old(parent) && repr <= old(repr) + old(value.Brought())
      ensures ok <==> old(value.parent) == null
      ensures !ok ==> value.parent == old(value.parent) && repr == old(repr) && items == old(items)
      ensures model == if ok then Object(SetMember(old(model.members), name, old(value.model))) else old(model)
      ensures ok ==> items == Placed(old(items), Find(old(model.members), name), value)
      ensures ok ==> Find(model.members, name) < |items| && items[Find(model.members, name)] == value
    {
      hide Lookup, Find, HasName, DistinctNames;
      if value.parent != null {
        return false;
      }
      Present(model.members, name);
      var oldValue := GetValue(name);
      if oldValue != null {
        Overwrite(name, value);
        return true;
      }
      ok := ObjectAdd(name, value);
      FindUnique(model.members, |items| - 1);
    }

    /** The value takes the place of the one under that name. */
    method Overwrite(name: string, value: Node)
      requires Valid() && kind == KindObject && HasName(model.members, name)
      requires value.Valid() && value.repr !! repr
      modifies this, value`parent
      ensures Valid() && parent == old(parent) && repr <= old(repr) + old(value.repr)
      ensures model == Object(SetMember(old(model.members), name, old(value.model)))
      ensures items == Placed(old(items), Find(old(model.members), name), value)
      ensures Find(model.members, name) < |items| && items[Find(model.members, name)] == value
    {
      var i := IndexOf(name);
      ReplaceAt(i, value);
      FindUnique(model.members, i);
    }

    /** `json_object_dotget_value`. */
    method DotGet(name: string) returns (r: Node?)
      requires Valid() && kind == KindObject
      ensures r == null <==> JsonPaths.DotGet(Some(model.members), name).None?
      ensures r != null ==> r in repr && r.Valid() && Some(r.model) == JsonPaths.DotGet(Some(model.members), name)
      ensures r == NodeAt(name)
      decreases |name|
    {
      if !HasDot(name) {
        r := GetChild(name);
        return;
      }
      var child := GetChild(First(name));
      if child == null || child.kind != KindObject {
        DotGetFollows(None, Next(name));
        FollowNothing(Split(Next(name)));
        return null;
      }
      r := child.DotGet(Next(name));
    }

    /** A child under its name, with what ownership says of it. */
    method GetChild(name: string) returns (r: Node?)
      requires Valid() && kind == KindObject
      ensures r == null <==> Lookup(model.members, name).None?
      ensures r != null ==>
        && Find(model.members, name) < |items| && r == items[Find(model.members, name)]
        && r in repr && r.repr <= repr && this !in r.repr && r.Valid()
        && Lookup(model.members, name) == Some(r.model) && (r.kind == KindObject <==> r.model.Object?)
    {
      r := GetValue(name);
      if r != null {
        assert Owns(Find(model.members, name));
      }
    }

    /** `json_object_dotset_value`: objects that are missing on the way are created. */
    method DotSet(name: string, value: Node) returns (ok: bool)
      requires Valid() && kind == KindObject
      requires value.parent == null ==> value.Valid() && value.repr !! repr
      modifies repr, value`parent
      ensures Valid() && parent == old(parent)
      ensures fresh(repr - old(repr) - old(value.Brought()))
      ensures old(value.parent) != null ==> value.parent == old(value.parent)
      ensures Outcome(ok, model.members)
           == JsonPaths.DotSet(old(model.members), name, old(value.Offered()), old(value.parent) != null)
      ensures ok ==> NodeAt(name) == value
      ensures OthersStay(name)
      decreases |name|, 1
    {
      hide HasName, DistinctNames, Lookup, Split, DotAt, Find;
      if !HasDot(name) {
        ok := SetHere(name, value);
        return;
      }
      var child := EnterFirst(name, value.Offered(), value.parent != null);
      if child == null {
        return false;
      }
      ok := DotSetThrough(child, name, value);
    }

    /** Names that neither extend this one nor are extended by it lead to the nodes that they led to. */
    twostate predicate OthersStay(name: string)
      requires kind == KindObject && old(Valid()) && Valid()
      reads this, repr
    {
      forall other {:trigger NodeAt(other)} ::
        Apart(Split(name), Split(other)) ==> NodeAt(other) == old(NodeAt(other))
    }

    /** A name without a dot. */
    method SetHere(name: string, value: Node) returns (ok: bool)
      requires Valid() && kind == KindObject && !HasDot(name)
      requires value.parent == null ==> value.Valid() && value.repr !! repr
      modifies this, value`parent
      ensures Valid() && parent == old(parent) && repr <= old(repr) + old(value.Brought())
      ensures old(value.parent) != null ==> value.parent == old(value.parent)
      ensures Outcome(ok, model.members)
           == JsonPaths.DotSet(old(model.members), name, old(value.Offered()), old(value.parent) != null)
      ensures ok ==> NodeAt(name) == value
      ensures OthersStay(name)
    {
      hide HasName, DistinctNames, Lookup, Split, DotAt, SetMember, Find;
      ghost var ms, before := model.members, items;
      ok := SetValue(name, value);
      forall other | Apart(Split(name), Split(other))
        ensures NodeAt(other) == old(NodeAt(other))
      {
        var head := if HasDot(other) then First(other) else other;
        ApartFromLeaf(name, other);
        SetKeepsPlaces(ms, name, old(value.model), head);
        var j := Find(ms, head);
        if j < |before| {
          assert old(Owns(j)) && items[j] == before[j];
        }
      }
    }

    /** The object that the first segment leads to, for a set that goes on in it as it would have from here. */
    method EnterFirst(name: string, ghost v: Json, ghost attached: bool) returns (child: Node?)
      requires Valid() && kind == KindObject && HasDot(name)
      modifies this
      ensures Valid() && parent == old(parent) && fresh(repr - old(repr))
      ensures var whole := JsonPaths.DotSet(old(model.members), name, v, attached);
        if child == null then whole == Outcome(false, model.members)
        else whole == JsonPaths.DotSet(model.members, name, v, attached)
      ensures child != null ==>
        var i := Find(model.members, First(name)); i < |items| && child == items[i] && child.kind == KindObject
      ensures OthersStay(name)
    {
      hide HasName, DistinctNames, Lookup, Split, DotAt, Find;
      ghost var o := model.members;
      DotSetStep(o, name, v, attached);
      if Lookup(o, First(name)).None? {
        CreatedChild(o, name, v, attached);
      }
      child := EnterChild(First(name));
      forall other | Apart(Split(name), Split(other))
        ensures NodeAt(other) == old(NodeAt(other))
      {
        ApartFromFirst(name, other);
        assert Beyond(First(name), other);
      }
    }

    /** A set through the object that the first segment leads to. */
    method DotSetThrough(child: Node, name: string, value: Node) returns (ok: bool)
      requires Valid() && kind == KindObject && HasDot(name)
      requires var i := Find(model.members, First(name)); i < |items| && child == items[i] && child.kind == KindObject
      requires value.parent == null ==> value.Valid() && value.repr !! repr
      modifies repr, value`parent
      ensures Valid() && parent == old(parent)
      ensures fresh(repr - old(repr) - old(value.Brought()))
      ensures old(value.parent) != null ==> value.parent == old(value.parent)
      ensures Outcome(ok, model.members)
           == JsonPaths.DotSet(old(model.members), name, old(value.Offered()), old(value.parent) != null)
      ensures ok ==> NodeAt(name) == value
      ensures OthersStay(name)
      decreases |name|, 0
    {
      hide HasName, DistinctNames, Lookup, Split, DotAt, Find;
      ghost var i := Find(model.members, First(name));
      ghost var ms := model.members;
      assert Owns(i);
      DotSetChild(model.members, name, value.Offered(), value.parent != null, i);
      ok := DotSetIn(child, Next(name), value, i);
      SameNamesSamePlace(ms, model.members, First(name));
      NodeBelow(name, i);
      forall other | Apart(Split(name), Split(other))
        ensures NodeAt(other) == old(NodeAt(other))
      {
        var head := if HasDot(other) then First(other) else other;
        SameNamesSamePlace(ms, model.members, head);
        var j := Find(ms, head);
        assert NodeAt(other) == NodeFrom(j, other) && old(NodeAt(other) == NodeFrom(j, other));
        if j < |items| {
          assert old(Owns(j));
          if head == First(name) {
            ApartBelow(name, other);
            assert NodeFrom(j, other) == child.NodeAt(Next(other));
            assert old(NodeFrom(j, other) == child.NodeAt(Next(other)));
          }
        }
      }
    }

    /** The object under a name, created if there is nothing; null if there is something else. */
    method EnterChild(key: string) returns (child: Node?)
      requires Valid() && kind == KindObject
      modifies this
      ensures Valid() && parent == old(parent) && fresh(repr - old(repr))
      ensures child == null <==> !Enterable(old(model.members), key)
      ensures child != null ==>
        Find(model.members, key) < |items| && child == items[Find(model.members, key)] && child.kind == KindObject
      ensures model.members == if Lookup(old(model.members), key).None?
                               then old(model.members) + [Member(key, Object([]))] else old(model.members)
      ensures forall other {:trigger NodeAt(other)} :: Beyond(key, other) ==> NodeAt(other) == old(NodeAt(other))
    {
      hide Lookup, Find, HasName, DistinctNames, Split, DotAt;
      child := GetChild(key);
      if child == null || child.kind != KindObject {
        var added := CreateChild(key);
        if !added {
          return null;
        }
        child := GetChild(key);
      }
    }

    /** A new empty object is added under a name, unless the name is there. */
    method CreateChild(key: string) returns (added: bool)
      requires Valid() && kind == KindObject
      modifies this
      ensures Valid() && parent == old(parent) && fresh(repr - old(repr))
      ensures added <==> Lookup(old(model.members), key).None?
      ensures model.members == if added then old(model.members) + [Member(key, Object([]))] else old(model.members)
      ensures added ==> Lookup(model.members, key) == Some(Object([]))
      ensures forall other {:trigger NodeAt(other)} :: Beyond(key, other) ==> NodeAt(other) == old(NodeAt(other))
    {
      var newValue := new Node(KindObject, Null);
      added := AddBeside(key, newValue);
    }

    /** Adding an empty object does not concern names that do not stop at it. */
    method AddBeside(key: string, newValue: Node) returns (added: bool)
      requires Valid() && kind == KindObject && newValue.Valid() && newValue.repr !! repr
      requires newValue.kind == KindObject && newValue.model == Object([])
      modifies this, newValue`parent
      ensures Valid() && parent == old(parent) && repr <= old(repr) + newValue.repr
      ensures newValue.repr == old(newValue.repr)
      ensures added <==> Lookup(old(model.members), key).None?
      ensures model.members == if added then old(model.members) + [Member(key, Object([]))] else old(model.members)
      ensures added ==> Lookup(model.members, key) == Some(Object([]))
      ensures forall other {:trigger NodeAt(other)} :: Beyond(key, other) ==> NodeAt(other) == old(NodeAt(other))
    {
      hide HasName, DistinctNames, Lookup, Split, DotAt, Find;
      ghost var ms, before := model.members, items;
      added := AddEmpty(key, newValue);
      forall other | Beyond(key, other)
        ensures NodeAt(other) == old(NodeAt(other))
      {
        var head := if HasDot(other) then First(other) else other;
        SplitHead(other);
        AddKeepsPlaces(ms, Member(key, Object([])), head);
        var j := Find(ms, head);
        assert old(NodeAt(other) == NodeFrom(j, other));
        if j < |before| {
          assert NodeAt(other) == NodeFrom(j, other);
          assert old(Owns(j)) && items[j] == before[j];
        } else if added && head == key {
          newValue.EmptyLeadsNowhere(Next(other));
        }
      }
    }

    method AddEmpty(key: string, newValue: Node) returns (added: bool)
      requires Valid() && kind == KindObject && newValue.Valid() && newValue.repr !! repr
      requires newValue.kind == KindObject && newValue.model == Object([])
      modifies this, newValue`parent
      ensures Valid() && parent == old(parent) && repr <= old(repr) + newValue.repr
      ensures newValue.Valid() && newValue.repr == old(newValue.repr)
      ensures added <==> Lookup(old(model.members), key).None?
      ensures model.members == if added then old(model.members) + [Member(key, Object([]))] else old(model.members)
      ensures items == if added then old(items) + [newValue] else old(items)
      ensures added ==> Lookup(model.members, key) == Some(Object([]))
    {
      Present(model.members, key);
      added := ObjectAdd(key, newValue);
      if added {
        LastFound(model.members);
        assert Owns(|items| - 1);
      }
    }

    lemma EmptyLeadsNowhere(name: string)
      requires Valid() && kind == KindObject && model == Object([])
      ensures NodeAt(name) == null
    {
    }

    /** The step into a child that is an object. */
    method DotSetIn(child: Node, rest: string, value: Node, ghost i: nat) returns (ok: bool)
      requires Valid() && kind == KindObject
      requires i < |items| && child == items[i] && child.kind == KindObject && child.model.Object?
      requires value.parent == null ==> value.Valid() && value.repr !! repr
      modifies repr, value`parent
      ensures Valid() && parent == old(parent) && items == old(items)
      ensures fresh(repr - old(repr) - old(value.Brought()))
      ensures old(value.parent) != null ==> value.parent == old(value.parent)
      ensures var ms, attached := old(model.members), old(value.parent) != null;
        var r := JsonPaths.DotSet(old(child.model.members), rest, old(value.Offered()), attached);
        ok == r.ok && model == Object(ms[i := Member(ms[i].name, Object(r.members))])
      ensures Owns(i) && (ok ==> child.NodeAt(rest) == value)
      ensures child.Valid() && child.OthersStay(rest)
      ensures forall j :: 0 <= j < |items| && j != i ==> unchanged(old(items[j]), old(items[j].repr))
      decreases |rest|, 2
    {
      hide Lookup, Find, HasName, DistinctNames, Split, DotAt, Apart;
      ghost var before := child.repr;
      assert Owns(i);
      ok := child.DotSet(rest, value);
      Refresh(i, before);
    }

    /** `json_object_remove`: the last member takes the place of the removed one. */
    method Remove(name: string) returns (ok: bool)
      requires Valid() && kind == KindObject
      modifies this
      ensures Valid() && parent == old(parent) && repr <= old(repr)
      ensures ok <==> HasName(old(model.members), name)
      ensures model == Object(RemoveMember(old(model.members), name))
    {
      Present(model.members, name);
      var present := GetValue(name);
      if present == null {
        return false;
      }
      var i := IndexOf(name);
      RemovesByMove(model.members, name, i);
      MoveLastTo(i, Moved(model.members, i));
      return true;
    }

    /** The last member is moved to the place of the one at `i`, so that `ms` are left. */
    method MoveLastTo(i: nat, ghost ms: seq<Member>)
      requires Valid() && kind == KindObject && i < |items| && DistinctNames(ms)
      requires ms == Moved(model.members, i)
      modifies this
      ensures Valid() && parent == old(parent) && repr <= old(repr) && model == Object(ms)
    {
      MoveItem(i);
      names := names[i := names[|names| - 1]][..|names| - 1];
      Describe(ms);
    }

    method MoveItem(i: nat)
      requires Owning() && i < |items|
      modifies this`items, this`repr
      ensures Owning() && repr <= old(repr)
      ensures items == old(items)[i := old(items)[|old(items)| - 1]][..|old(items)| - 1]
    {
      var last := |items| - 1;
      assert Owns(i) && Owns(last);
      repr := repr - items[i].repr;
      items := items[i := items[last]][..last];
    }

    /** `json_object_dotremove`. */
    method DotRemove(name: string) returns (ok: bool)
      requires Valid() && kind == KindObject
      modifies repr
      ensures Valid() && parent == old(parent) && repr <= old(repr)
      ensures Outcome(ok, model.members) == JsonPaths.DotRemove(old(model.members), name)
      decreases |name|, 1
    {
      if !HasDot(name) {
        ok := Remove(name);
        return;
      }
      var child := GetChild(First(name));
      if child == null || child.kind != KindObject {
        return false;
      }
      ghost var i := Find(model.members, First(name));
      DotRemoveChild(model.members, name, i);
      ok := DotRemoveIn(child, Next(name), i);
    }

    method DotRemoveIn(child: Node, rest: string, ghost i: nat) returns (ok: bool)
      requires Valid() && kind == KindObject
      requires i < |items| && child == items[i] && child.kind == KindObject && child.model.Object?
      modifies repr
      ensures Valid() && parent == old(parent) && repr <= old(repr)
      ensures var r := JsonPaths.DotRemove(old(child.model.members), rest);
        ok == r.ok && model == Object(old(model.members)[i := Member(old(model.members)[i].name, Object(r.members))])
      decreases |rest|, 2
    {
      ghost var before := child.repr;
      assert Owns(i);
      ok := child.DotRemove(rest);
      Refresh(i, before);
    }

    // ---------------------------------------------------------------- setting a value that contains the object

    /** This object is at the end of a path from above, of which nothing else is in its tree. */
    ghost predicate EndOf(path: seq<Node>)
      reads path, this, repr
    {
      && Descends(path) && path[|path| - 1] == this
      && forall i :: 0 <= i < |path| - 1 ==> path[i] !in repr
    }

    /**
     * `json_object_set_value` for a value without a parent that contains the object: the source accepts
     * it, and the path from the value down to the object closes.
     */
    method CloseCycle(name: string, value: Node, ghost path: seq<Node>)
      requires Valid() && kind == KindObject && EndOf(path) && path[0] == value && value.parent == null
      modifies this, value`parent
      ensures Descends(path + [value]) && value.parent == this
    {
      hide HasName, DistinctNames, Lookup, Find;
      var oldValue := GetValue(name);
      if oldValue != null {
        Present(model.members, name);
        var i := IndexOf(name);
        value.parent := this;
        items := items[i := value];
        assert items[i] == value;
      } else {
        value.parent := this;
        items := items + [value];
        names := names + [name];
        assert items[|items| - 1] == value;
      }
    }

    /** So, after the call, neither the value nor the object is the root of a tree. */
    method SetInside(name: string, value: Node, ghost path: seq<Node>)
      requires kind == KindObject && value.parent == null && value.Valid()
      requires Descends(path) && path[0] == value && path[|path| - 1] == this
      modifies this, value`parent
      ensures !Valid() && !value.Valid() && value.parent == this
    {
      DescendantOwnsLess(path);
      CloseCycle(name, value, path);
      OnCycleIsNoTree(path + [value], 0);
      OnCycleIsNoTree(path + [value], |path| - 1);
    }

    /** The same through a dotted name: `loop` is the cycle, unless the way is not open. */
    method DotCloseCycle(name: string, value: Node, ghost path: seq<Node>) returns (ok: bool, ghost loop: seq<Node>)
      requires Valid() && kind == KindObject && EndOf(path) && path[0] == value && value.parent == null
      modifies repr, value`parent
      ensures ok <==> Open(old(model.members), Split(name))
      ensures ok ==> path < loop && loop[|loop| - 1] == value && Descends(loop)
      decreases |name|
    {
      hide HasName, DistinctNames, Lookup, DotAt, Find;
      if !HasDot(name) {
        CloseCycle(name, value, path);
        return true, path + [value];
      }
      OpenFirst(model.members, name);
      var child := EnterOnPath(First(name), path);
      if child == null {
        return false, path;
      }
      ok, loop := child.DotCloseCycle(Next(name), value, path + [child]);
    }

    /** The object under a name continues the path. */
    method EnterOnPath(key: string, ghost path: seq<Node>) returns (child: Node?)
      requires Valid() && kind == KindObject && EndOf(path)
      modifies this
      ensures parent == old(parent) && fresh(repr - old(repr))
      ensures child == null <==> !Enterable(old(model.members), key)
      ensures child != null ==>
        && child.Valid() && child.kind == KindObject && child.repr <= repr && child.EndOf(path + [child])
        && child.model == Object(Child(old(model.members), key))
    {
      hide Lookup, Find, HasName, DistinctNames, Split, DotAt;
      ghost var o := model.members;
      child := EnterChild(key);
      if child != null {
        ghost var i := Find(model.members, key);
        assert Owns(i) && items[i].Valid();
        Entered(o, key, model.members);
      }
    }

    /** `json_object_dotset_value` for such a value. */
    method DotSetInside(name: string, value: Node, ghost path: seq<Node>) returns (ok: bool)
      requires kind == KindObject && value.parent == null && value.Valid()
      requires Descends(path) && path[0] == value && path[|path| - 1] == this && Valid()
      modifies repr, value`parent
      ensures ok <==> Open(old(model.members), Split(name))
      ensures ok ==> !Valid() && !value.Valid()
    {
      DescendantOwnsLess(path);
      ghost var loop;
      ok, loop := DotCloseCycle(name, value, path);
      if ok {
        OnCycleIsNoTree(loop, 0);
        OnCycleIsNoTree(loop, |path| - 1);
      }
    }

    /** All of `Valid` except what concerns child `i`, which owned `before` and has changed since. */
    ghost predicate ValidBeside(i: nat, before: set<Node>)
      requires i < |items|
      reads this, repr, items, items[i].repr
    {
      && kind == KindObject && this in repr && before <= repr && this !in before
      && this !in items[i].repr && items[i].parent == this && items[i].Valid()
      && (forall j :: 0 <= j < |items| && j != i ==>
            Owns(j) && items[j].Valid() && items[j].repr !! before && items[j].repr !! items[i].repr)
      && (forall j, k :: 0 <= j < k < |items| && j != i && k != i ==> items[j].repr !! items[k].repr)
      && Described(i)
    }

    /** The names and the other children are as the model says. */
    ghost predicate Described(i: nat)
      requires i < |items|
      reads this, items
    {
      && model.Object? && |model.members| == |items| == |names| && DistinctNames(model.members)
      && model.members[i].name == names[i]
      && (forall j :: 0 <= j < |items| && j != i ==> model.members[j] == Member(names[j], items[j].model))
    }

    /** Brings the tree's own description up to date after child `i` has changed. */
    ghost method Refresh(i: nat, before: set<Node>)
      requires i < |items| && ValidBeside(i, before)
      modifies this`repr, this`model
      ensures Valid() && repr == old(repr) - before + items[i].repr
      ensures model == Object(old(model.members)[i := Member(names[i], items[i].model)])
    {
      repr := repr - before + items[i].repr;
      model := Object(model.members[i := Member(names[i], items[i].model)]);
    }
  }

  /** The last member in place of the one at `i`. */
  function Moved(ms: seq<Member>, i: nat): (r: seq<Member>)
    requires i < |ms|
    ensures |r| == |ms| - 1
    ensures forall j :: 0 <= j < |r| ==> r[j] == if j == i then ms[|ms| - 1] else ms[j]
  {
    ms[i := ms[|ms| - 1]][..|ms| - 1]
  }

  lemma RemovesByMove(ms: seq<Member>, name: string, i: nat)
    requires DistinctNames(ms) && i == Find(ms, name) < |ms|
    ensures RemoveMember(ms, name) == Moved(ms, i) && DistinctNames(Moved(ms, i))
  {
    RemoveDistinct(ms, name);
  }

  /** A set below a child that is there is a set in that child. */
  lemma DotSetChild(o: seq<Member>, name: string, v: Json, attached: bool, i: nat)
    requires HasDot(name) && i == Find(o, First(name)) < |o| && o[i].value.Object?
    ensures var r := JsonPaths.DotSet(o[i].value.members, Next(name), v, attached);
      JsonPaths.DotSet(o, name, v, attached) == Outcome(r.ok, o[i := Member(First(name), Object(r.members))])
  {
  }

  lemma DotRemoveChild(o: seq<Member>, name: string, i: nat)
    requires HasDot(name) && i == Find(o, First(name)) < |o| && o[i].value.Object?
    ensures var r := JsonPaths.DotRemove(o[i].value.members, Next(name));
      JsonPaths.DotRemove(o, name) == Outcome(r.ok, o[i := Member(First(name), Object(r.members))])
  {
  }

  /** `v` in place of the element at `i`, or behind the last one. */
  function Placed<T>(s: seq<T>, i: nat, v: T): seq<T> {
    if i < |s| then s[i := v] else s + [v]
  }

  /** A name that an object created under `key` does not concern. */
  predicate Beyond(key: string, other: string) {
    Split(other)[0] == key ==> HasDot(other)
  }

  lemma ApartFromFirst(name: string, other: string)
    requires HasDot(name) && Apart(Split(name), Split(other))
    ensures Beyond(First(name), other)
  {
    if !HasDot(other) {
      assert Split(other) == [other];
    }
  }

  lemma ApartFromLeaf(name: string, other: string)
    requires !HasDot(name) && Apart(Split(name), Split(other))
    ensures name != if HasDot(other) then First(other) else other
  {
    SplitHead(other);
    assert Split(name) == [name];
  }

  lemma ApartBelow(name: string, other: string)
    requires HasDot(name) && Apart(Split(name), Split(other))
    requires First(name) == if HasDot(other) then First(other) else other
    ensures HasDot(other) && Apart(Split(Next(name)), Split(Next(other)))
  {
    SplitHead(other);
    if HasDot(other) {
      assert Split(name)[1..] == Split(Next(name)) && Split(other)[1..] == Split(Next(other));
      Shorten(Split(name), Split(other));
    } else {
      assert Split(other) == [other];
    }
  }

  lemma SameNamesStayDistinct(ms: seq<Member>, now: seq<Member>)
    requires DistinctNames(ms) && |now| == |ms| && forall k :: 0 <= k < |ms| ==> now[k].name == ms[k].name
    ensures DistinctNames(now)
  {
  }

  lemma {:induction false} SameNamesSamePlace(ms: seq<Member>, now: seq<Member>, key: string)
    requires |now| == |ms| && forall k :: 0 <= k < |ms| ==> now[k].name == ms[k].name
    ensures Find(now, key) == Find(ms, key)
  {
    if ms != [] && ms[0].name != key {
      SameNamesSamePlace(ms[1..], now[1..], key);
    }
  }

  lemma SplitHead(name: string)
    ensures Split(name)[0] == if HasDot(name) then First(name) else name
  {
  }

  lemma AddKeepsPlaces(ms: seq<Member>, m: Member, other: string)
    ensures var j := Find(ms, other);
      Find(ms + [m], other) == if j < |ms| || m.name == other then j else |ms| + 1
  {
    var j := Find(ms, other);
    FindIsFirst(ms, other);
    if j < |ms| || m.name == other {
      FirstMatch(ms + [m], j, other);
    } else if Find(ms + [m], other) <= |ms| {
      assert HasName(ms, other);
    }
  }

  /** A set leaves the other names at their places. */
  lemma SetKeepsPlaces(ms: seq<Member>, name: string, v: Json, other: string)
    requires other != name
    ensures var now := SetMember(ms, name, v);
      if Find(ms, other) < |ms| then Find(now, other) == Find(ms, other) else Find(now, other) == |now|
  {
    var now := SetMember(ms, name, v);
    var j := Find(ms, other);
    if j < |ms| {
      FindIsFirst(ms, other);
      FirstMatch(now, j, other);
    } else if Find(now, other) < |now| {
      assert HasName(ms, other);
    }
  }

  lemma OpenFirst(o: seq<Member>, name: string)
    requires HasDot(name)
    ensures Open(o, Split(name)) <==> Enterable(o, First(name)) && Open(Child(o, First(name)), Split(Next(name)))
  {
    OpenStep(o, Split(name));
    assert Split(name)[1..] == Split(Next(name));
  }

  /** What stands under a name after an object was created there if there was nothing. */
  lemma Entered(o: seq<Member>, key: string, now: seq<Member>)
    requires Enterable(o, key)
    requires now == if Lookup(o, key).None? then o + [Member(key, Object([]))] else o
    ensures Lookup(now, key) == Some(Object(Child(o, key)))
  {
    if Lookup(o, key).None? {
      FindIsFirst(o, key);
      FirstMatch(now, |o|, key);
    }
  }

  lemma AppendDistinct(ms: seq<Member>, m: Member)
    requires DistinctNames(ms) && !HasName(ms, m.name)
    ensures DistinctNames(ms + [m])
  {
  }

  lemma LastFound(ms: seq<Member>)
    requires ms != [] && DistinctNames(ms)
    ensures Lookup(ms, ms[|ms| - 1].name) == Some(ms[|ms| - 1].value)
  {
    LookupOwn(ms, |ms| - 1);
  }

  /** Setting through a child that was just created is setting through a missing one. */
  lemma CreatedChild(o: seq<Member>, name: string, v: Json, attached: bool)
    requires HasDot(name) && Lookup(o, First(name)).None?
    ensures JsonPaths.DotSet(o + [Member(First(name), Object([]))], name, v, attached)
         == JsonPaths.DotSet(o, name, v, attached)
  {
    var key := First(name);
    var created := SetMember(o, key, Object([]));
    FindIsFirst(o, key);
    FirstMatch(created, |o|, key);
    DotSetStep(o, name, v, attached);
    DotSetStep(created, name, v, attached);
    SetTwice(o, key, Object([]), Object(JsonPaths.DotSet([], Next(name), v, attached).members));
  }

  lemma {:induction false} NoneHasName(ms: seq<Member>, name: string)
    requires Lookup(ms, name).None?
    ensures !HasName(ms, name)
  {
    if ms != [] {
      NoneHasName(ms[1..], name);
      forall i | 0 <= i < |ms|
        ensures ms[i].name != name
      {
        if i > 0 {
          assert ms[i] == ms[1..][i - 1];
        }
      }
    }
  }

  lemma NewInPrefix(ms: seq<Member>, i: nat)
    requires DistinctNames(ms) && i < |ms|
    ensures !HasName(ms[..i], ms[i].name)
    ensures ms[..i + 1] == ms[..i] + [ms[i]]
  {
  }

  // ---------------------------------------------------------------- a value that contains the object

  /** Each node of the path is a child of the one before. */
  ghost predicate Descends(path: seq<Node>)
    reads path
  {
    path != [] && forall i :: 0 < i < |path| ==> path[i] in path[i - 1].items
  }

  /** Downwards in a tree, what a node owns shrinks, and no node is met again. */
  lemma {:induction false} DescendantOwnsLess(path: seq<Node>)
    requires Descends(path) && path[0].Valid()
    ensures var last := path[|path| - 1]; last.Valid() && (|path| > 1 ==> last.repr < path[0].repr)
    ensures forall i :: 0 <= i < |path| - 1 ==> path[i] !in path[|path| - 1].repr
  {
    if |path| > 1 {
      var above := path[..|path| - 1];
      DescendantOwnsLess(above);
      var p, c := path[|path| - 2], path[|path| - 1];
      var i :| 0 <= i < |p.items| && p.items[i] == c;
      assert p.Owns(i);
    }
  }

  /** No node on a closed path is the root of a tree. */
  lemma OnCycleIsNoTree(loop: seq<Node>, i: nat)
    requires Descends(loop) && i < |loop| - 1 && loop[|loop| - 1] == loop[0]
    ensures !loop[i].Valid()
  {
    var around := loop[i..] + loop[1..i + 1];
    forall j | 0 < j < |around|
      ensures around[j] in around[j - 1].items
    {
      var k := if j < |loop| - i then i + j else j - (|loop| - 1 - i);
      assert around[j] == loop[k] && around[j - 1] == loop[k - 1];
    }
    if loop[i].Valid() {
      DescendantOwnsLess(around);
      assert false;
    }
  }
}
