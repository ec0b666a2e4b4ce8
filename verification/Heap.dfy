/** Values in memory: nodes with parent pointers, and what it takes for them to be trees.

  `Is(h, id, u)` says that the node at `id`, with everything under it, is the value u.
 */
module Heap {
  import opened Items
  import opened Values
  import Layout

  type Id = nat

  datatype Body =
    | Scalar(v: Value)
    | Arr(elements: seq<Id>)
    | Obj(members: seq<Item<Id>>)

  datatype Node = Node(parent: Option<Id>, body: Body)

  type Store = map<Id, Node>

  // ---------------------------------------------------------------- nodes and values

  function Kids(body: Body): (r: seq<Id>)
  {
    match body
    case Scalar(_) => []
    case Arr(elements) => elements
    case Obj(members) => seq(|members|, i requires 0 <= i < |members| => members[i].value)
  }

  /** The values directly inside a value. */
  function Subs(u: Value): (r: seq<Value>)
    ensures forall i :: 0 <= i < |r| ==> Depth(r[i]) < Depth(u)
  {
    match u
    case Array(elements) =>
      assert forall i :: 0 <= i < |elements| ==> Depth(elements[i]) < Depth(u) by { ElementsShallower(elements); }
      elements
    case Object(members) =>
      assert forall i :: 0 <= i < |members| ==> Depth(members[i].value) < Depth(u) by { MembersShallower(members); }
      seq(|members|, i requires 0 <= i < |members| => members[i].value)
    case _ => []
  }

  lemma {:induction false} ElementsShallower(elements: seq<Value>)
    ensures forall i :: 0 <= i < |elements| ==> Depth(elements[i]) < ElementsDepth(elements)
  {
    if elements != [] { ElementsShallower(elements[1..]); }
  }

  lemma {:induction false} MembersShallower(members: seq<Item<Value>>)
    ensures forall i :: 0 <= i < |members| ==> Depth(members[i].value) < MembersDepth(members)
  {
    if members != [] { MembersShallower(members[1..]); }
  }

  /** The node's own part of the value: its kind, its count, its names. */
  ghost predicate Shape(body: Body, u: Value) {
    match body
    case Scalar(v) => u == v && Layout.IsScalar(v)
    case Arr(elements) => u.Array? && |u.elements| == |elements|
    case Obj(members) =>
      u.Object? && |u.members| == |members| && forall i :: 0 <= i < |members| ==> u.members[i].name == members[i].name
  }

  lemma ShapeDetermines(body: Body, u: Value, w: Value)
    requires Shape(body, u) && Shape(body, w) && Subs(u) == Subs(w)
    ensures u == w
  {
    match body {
      case Scalar(_) =>
      case Arr(_) =>
      case Obj(_) =>
        forall i | 0 <= i < |u.members| ensures u.members[i] == w.members[i] {
          assert Subs(u)[i] == Subs(w)[i];
        }
        assert u.members == w.members;
    }
  }

  ghost predicate Is(h: Store, id: Id, u: Value)
    decreases Depth(u)
  {
    && id in h && Shape(h[id].body, u) && |Kids(h[id].body)| == |Subs(u)|
    && forall i :: 0 <= i < |Subs(u)| ==> Is(h, Kids(h[id].body)[i], Subs(u)[i])
  }

  /** x is the node `id` or somewhere under it. */
  ghost predicate Inside(h: Store, id: Id, u: Value, x: Id)
    requires Is(h, id, u)
    decreases Depth(u)
  {
    x == id || exists i :: 0 <= i < |Subs(u)| && Inside(h, Kids(h[id].body)[i], Subs(u)[i], x)
  }

  lemma {:induction false} OneValue(h: Store, id: Id, u: Value, w: Value)
    requires Is(h, id, u) && Is(h, id, w)
    ensures u == w
    decreases Depth(u)
  {
    hide Subs, Kids, Shape;
    forall i | 0 <= i < |Subs(u)| ensures Subs(u)[i] == Subs(w)[i] {
      OneValue(h, Kids(h[id].body)[i], Subs(u)[i], Subs(w)[i]);
    }
    assert Subs(u) == Subs(w);
    ShapeDetermines(h[id].body, u, w);
  }

  /** Only the nodes under `id` matter to its value, and of those only the bodies. */
  lemma {:induction false} Frame(h: Store, h': Store, id: Id, u: Value)
    requires Is(h, id, u)
    requires forall x :: Inside(h, id, u, x) ==> x in h' && x in h && h'[x].body == h[x].body
    ensures Is(h', id, u)
    ensures forall x :: Inside(h', id, u, x) <==> Inside(h, id, u, x)
    decreases Depth(u)
  {
    hide Subs, Kids, Shape;
    assert Inside(h, id, u, id);
    var kids, us := Kids(h[id].body), Subs(u);
    forall i | 0 <= i < |us|
      ensures Is(h', kids[i], us[i])
      ensures forall x :: Inside(h', kids[i], us[i], x) <==> Inside(h, kids[i], us[i], x)
    {
      forall x | Inside(h, kids[i], us[i], x) ensures x in h' && x in h && h'[x].body == h[x].body {
        assert Inside(h, id, u, x);
      }
      Frame(h, h', kids[i], us[i]);
    }
  }

  /** A node inside has a value, and one that is shallower unless it is the node itself. */
  lemma {:induction false} InsideIs(h: Store, id: Id, u: Value, x: Id) returns (w: Value)
    requires Is(h, id, u) && Inside(h, id, u, x)
    ensures Is(h, x, w) && Depth(w) <= Depth(u) && (x != id ==> Depth(w) < Depth(u))
    ensures forall y :: Inside(h, x, w, y) ==> Inside(h, id, u, y)
    decreases Depth(u)
  {
    hide Subs, Kids, Shape;
    if x == id {
      w := u;
    } else {
      var i :| 0 <= i < |Subs(u)| && Inside(h, Kids(h[id].body)[i], Subs(u)[i], x);
      w := InsideIs(h, Kids(h[id].body)[i], Subs(u)[i], x);
    }
  }

  lemma KidInside(h: Store, id: Id, u: Value, i: nat)
    requires Is(h, id, u) && i < |Subs(u)|
    ensures Inside(h, Kids(h[id].body)[i], Subs(u)[i], Kids(h[id].body)[i])
    ensures Inside(h, id, u, Kids(h[id].body)[i])
  {
    hide Subs, Kids, Shape;
  }

  /** Nothing is inside its own children. */
  lemma NoLoop(h: Store, id: Id, u: Value, i: nat)
    requires Is(h, id, u) && i < |Subs(u)|
    ensures !Inside(h, Kids(h[id].body)[i], Subs(u)[i], id)
  {
    hide Kids, Shape;
    if Inside(h, Kids(h[id].body)[i], Subs(u)[i], id) {
      var w := InsideIs(h, Kids(h[id].body)[i], Subs(u)[i], id);
      OneValue(h, id, u, w);
    }
  }

  // ---------------------------------------------------------------- forests

  ghost predicate HasValue(h: Store, id: Id) {
    exists u :: Is(h, id, u)
  }

  /** Children are live and point back. */
  ghost predicate Linked(h: Store) {
    forall p, i :: p in h && 0 <= i < |Kids(h[p].body)| ==>
      Kids(h[p].body)[i] in h && h[Kids(h[p].body)[i]].parent == Some(p)
  }

  /** No value is in two slots of a container. */
  ghost predicate OneSlot(kids: seq<Id>) {
    forall i, j :: 0 <= i < j < |kids| ==> kids[i] != kids[j]
  }

  /** A parent pointer leads to a live container that has the value. */
  ghost predicate Rooted(h: Store) {
    forall x :: x in h && h[x].parent.Some? ==> h[x].parent.value in h && x in Kids(h[h[x].parent.value].body)
  }

  ghost predicate Named(body: Body) {
    body.Obj? ==> Distinct(body.members) && forall i :: 0 <= i < |body.members| ==> IsName(body.members[i].name)
  }

  /** Every live value is a tree of live values, each in exactly one slot, the one its parent
      pointer names; the pointer is null exactly for roots. */
  ghost predicate IsForest(h: Store) {
    && Linked(h) && Rooted(h)
    && (forall p :: p in h ==> OneSlot(Kids(h[p].body)) && Named(h[p].body))
    && forall p :: p in h ==> HasValue(h, p)
  }

  ghost function ValueAt(h: Store, id: Id): (u: Value)
    requires HasValue(h, id)
    ensures Is(h, id, u)
  {
    var u :| Is(h, id, u);
    u
  }

  /** Going up from inside a tree stays inside until its root. */
  lemma {:induction false} UpInside(h: Store, a: Id, u: Value, x: Id) returns (q: Id)
    requires Linked(h) && Is(h, a, u) && Inside(h, a, u, x) && x != a
    ensures x in h && h[x].parent == Some(q) && Inside(h, a, u, q)
    decreases Depth(u)
  {
    hide Subs, Shape, Kids;
    var i :| 0 <= i < |Subs(u)| && Inside(h, Kids(h[a].body)[i], Subs(u)[i], x);
    var k := Kids(h[a].body)[i];
    if x == k {
      q := a;
    } else {
      q := UpInside(h, k, Subs(u)[i], x);
    }
  }

  /** Two trees that share a node are one inside the other. */
  lemma {:induction false} Nested(h: Store, a: Id, u: Value, b: Id, w: Value, x: Id)
    requires Linked(h) && Is(h, a, u) && Is(h, b, w) && Inside(h, a, u, x) && Inside(h, b, w, x)
    ensures Inside(h, b, w, a) || Inside(h, a, u, b)
    decreases Depth(u)
  {
    hide Subs, Shape, Kids;
    if x != a {
      var i :| 0 <= i < |Subs(u)| && Inside(h, Kids(h[a].body)[i], Subs(u)[i], x);
      var k := Kids(h[a].body)[i];
      Nested(h, k, Subs(u)[i], b, w, x);
      if Inside(h, b, w, k) && k != b {
        var q := UpInside(h, b, w, k);
      } else if k == b {
        KidInside(h, a, u, i);
      }
    }
  }

  /** A root is inside no other tree. */
  lemma RootInside(h: Store, a: Id, u: Value, v: Id)
    requires Linked(h) && Is(h, a, u) && v in h && h[v].parent == None
    ensures Inside(h, a, u, v) <==> v == a
  {
    if Inside(h, a, u, v) && v != a {
      var q := UpInside(h, a, u, v);
    }
  }

  /** Different children of a node have nothing in common. */
  lemma SiblingsApart(h: Store, p: Id, u: Value, i: nat, j: nat, x: Id)
    requires Linked(h) && Is(h, p, u) && OneSlot(Kids(h[p].body)) && i < |Subs(u)| && j < |Subs(u)| && i != j
    requires Inside(h, Kids(h[p].body)[i], Subs(u)[i], x)
    ensures !Inside(h, Kids(h[p].body)[j], Subs(u)[j], x)
  {
    hide Subs, Shape, Kids;
    var a, b := Kids(h[p].body)[i], Kids(h[p].body)[j];
    if Inside(h, b, Subs(u)[j], x) {
      Nested(h, a, Subs(u)[i], b, Subs(u)[j], x);
      NoLoop(h, p, u, i);
      NoLoop(h, p, u, j);
      if Inside(h, b, Subs(u)[j], a) {
        var q := UpInside(h, b, Subs(u)[j], a);
      } else {
        var q := UpInside(h, a, Subs(u)[i], b);
      }
    }
  }
}
