/** Ownership of values in memory: what the mutating calls do to the nodes, and why every
    value stays in one place of one tree.
 */
module Forest {
  import opened Items
  import opened Values
  import opened Heap
  import Layout

  // ---------------------------------------------------------------- changing one container

  /** Child i of p is not a child in the new body. */
  ghost predicate Dropped(h: Store, p: Id, body: Body, i: nat)
    requires p in h && i < |Kids(h[p].body)|
  {
    Kids(h[p].body)[i] !in Kids(body)
  }

  /** x is under a child that is dropped. */
  ghost predicate Dead(h: Store, p: Id, u: Value, body: Body, x: Id)
    requires Is(h, p, u)
  {
    exists i :: 0 <= i < |Subs(u)| && Dropped(h, p, body, i) && Inside(h, Kids(h[p].body)[i], Subs(u)[i], x)
  }

  /** The container p gets a new body: what it drops is freed, and v, if there is one, is
      linked in. */
  ghost function Change(h: Store, p: Id, u: Value, body: Body, v: Option<Id>): Store
    requires Is(h, p, u)
  {
    map x | x in h && !Dead(h, p, u, body, x) ::
      Node(if v == Some(x) then Some(p) else h[x].parent, if x == p then body else h[x].body)
  }

  /** A change the calls make: children stay, go, or are the root v, which does not contain p. */
  ghost predicate Sound(h: Store, p: Id, u: Value, body: Body, v: Option<Id>) {
    && IsForest(h) && Is(h, p, u) && OneSlot(Kids(body)) && Named(body) && !body.Scalar?
    && (forall k :: k in Kids(body) ==> k in Kids(h[p].body) || v == Some(k))
    && (v.Some? ==>
          && v.value in Kids(body) && v.value in h && h[v.value].parent == None
          && !Inside(h, v.value, ValueAt(h, v.value), p))
  }

  lemma PAlive(h: Store, p: Id, u: Value, body: Body, v: Option<Id>)
    requires Sound(h, p, u, body, v)
    ensures !Dead(h, p, u, body, p)
  {
    hide Subs, Kids, Shape, Named;
    if i :| 0 <= i < |Subs(u)| && Dropped(h, p, body, i) && Inside(h, Kids(h[p].body)[i], Subs(u)[i], p) {
      NoLoop(h, p, u, i);
    }
  }

  lemma RootAlive(h: Store, p: Id, u: Value, body: Body, r: Id)
    requires Linked(h) && Is(h, p, u) && r in h && h[r].parent == None
    ensures !Dead(h, p, u, body, r)
  {
    hide Subs, Kids, Shape;
    if i :| 0 <= i < |Subs(u)| && Dropped(h, p, body, i) && Inside(h, Kids(h[p].body)[i], Subs(u)[i], r) {
      RootInside(h, Kids(h[p].body)[i], Subs(u)[i], r);
    }
  }

  /** Whatever shares a node with a dropped tree is in it, or has p inside. */
  lemma DeadInside(h: Store, p: Id, u: Value, body: Body, a: Id, w: Value, x: Id)
    requires Linked(h) && Is(h, p, u) && Is(h, a, w) && Inside(h, a, w, x) && Dead(h, p, u, body, x)
    ensures Dead(h, p, u, body, a) || Inside(h, a, w, p)
  {
    hide Subs, Kids, Shape;
    var i :| 0 <= i < |Subs(u)| && Dropped(h, p, body, i) && Inside(h, Kids(h[p].body)[i], Subs(u)[i], x);
    var k := Kids(h[p].body)[i];
    Nested(h, a, w, k, Subs(u)[i], x);
    if !Inside(h, k, Subs(u)[i], a) && k != a {
      var q := UpInside(h, a, w, k);
    } else if k == a {
      KidInside(h, p, u, i);
    }
  }

  /** A tree without p that is not dropped keeps its value. */
  lemma Unaffected(h: Store, p: Id, u: Value, body: Body, v: Option<Id>, a: Id, w: Value)
    requires Sound(h, p, u, body, v)
    requires Is(h, a, w) && !Inside(h, a, w, p) && !Dead(h, p, u, body, a)
    ensures Is(Change(h, p, u, body, v), a, w)
    ensures forall x :: Inside(Change(h, p, u, body, v), a, w, x) <==> Inside(h, a, w, x)
  {
    hide Subs, Kids, Shape, Dead, Named;
    var h' := Change(h, p, u, body, v);
    forall x | Inside(h, a, w, x) ensures x in h' && x in h && h'[x].body == h[x].body {
      var wx := InsideIs(h, a, w, x);
      if Dead(h, p, u, body, x) { DeadInside(h, p, u, body, a, w, x); }
    }
    Frame(h, h', a, w);
  }

  /** A child of p that stays keeps its value. */
  lemma KeptKid(h: Store, p: Id, u: Value, body: Body, v: Option<Id>, i: nat)
    requires Sound(h, p, u, body, v) && i < |Subs(u)| && !Dropped(h, p, body, i)
    ensures Is(Change(h, p, u, body, v), Kids(h[p].body)[i], Subs(u)[i])
    ensures forall x :: Inside(Change(h, p, u, body, v), Kids(h[p].body)[i], Subs(u)[i], x)
                   <==> Inside(h, Kids(h[p].body)[i], Subs(u)[i], x)
  {
    hide Subs, Kids, Shape, Named;
    NoLoop(h, p, u, i);
    var k := Kids(h[p].body)[i];
    KidInside(h, p, u, i);
    if j :| 0 <= j < |Subs(u)| && Dropped(h, p, body, j) && Inside(h, Kids(h[p].body)[j], Subs(u)[j], k) {
      SiblingsApart(h, p, u, j, i, k);
    }
    Unaffected(h, p, u, body, v, k, Subs(u)[i]);
  }

  /** The value that is linked in keeps its value. */
  lemma NewKid(h: Store, p: Id, u: Value, body: Body, v: Option<Id>)
    requires Sound(h, p, u, body, v) && v.Some?
    ensures Is(Change(h, p, u, body, v), v.value, ValueAt(h, v.value))
    ensures forall x :: Inside(Change(h, p, u, body, v), v.value, ValueAt(h, v.value), x)
                   <==> Inside(h, v.value, ValueAt(h, v.value), x)
  {
    hide Subs, Kids, Shape, Dead, Named;
    RootAlive(h, p, u, body, v.value);
    Unaffected(h, p, u, body, v, v.value, ValueAt(h, v.value));
  }

  // ---------------------------------------------------------------- forests stay forests

  lemma ChangeLinked(h: Store, p: Id, u: Value, body: Body, v: Option<Id>)
    requires Sound(h, p, u, body, v)
    ensures Linked(Change(h, p, u, body, v))
  {
    hide Subs, Shape, Kids, Named, Dead;
    var h' := Change(h, p, u, body, v);
    forall q, i | q in h' && 0 <= i < |Kids(h'[q].body)|
      ensures Kids(h'[q].body)[i] in h' && h'[Kids(h'[q].body)[i]].parent == Some(q)
    {
      var k := Kids(h'[q].body)[i];
      if q == p {
        ChangedChild(h, p, u, body, v, k);
      } else {
        OtherChild(h, p, u, body, v, q, i);
      }
    }
  }

  lemma ChangedChild(h: Store, p: Id, u: Value, body: Body, v: Option<Id>, k: Id)
    requires Sound(h, p, u, body, v) && k in Kids(body)
    ensures k in Change(h, p, u, body, v) && Change(h, p, u, body, v)[k].parent == Some(p)
  {
    hide Subs, Shape, Kids, Named, Dead;
    if v == Some(k) {
      RootAlive(h, p, u, body, k);
    } else {
      var i :| 0 <= i < |Kids(h[p].body)| && Kids(h[p].body)[i] == k;
      KeptKid(h, p, u, body, v, i);
    }
  }

  lemma OtherChild(h: Store, p: Id, u: Value, body: Body, v: Option<Id>, q: Id, i: nat)
    requires Sound(h, p, u, body, v) && q in h && q != p && i < |Kids(h[q].body)| && !Dead(h, p, u, body, q)
    ensures var k := Kids(h[q].body)[i];
            k in Change(h, p, u, body, v) && Change(h, p, u, body, v)[k].parent == Some(q)
  {
    hide Subs, Shape, Kids, Named, Dead;
    DeadUp(h, p, u, body, q, i);
  }

  /** A container other than p of a dead node is dead. */
  lemma DeadUp(h: Store, p: Id, u: Value, body: Body, q: Id, i: nat)
    requires Linked(h) && Is(h, p, u) && q in h && q != p && i < |Kids(h[q].body)|
    ensures Dead(h, p, u, body, Kids(h[q].body)[i]) ==> Dead(h, p, u, body, q)
  {
    hide Subs, Shape, Kids;
    var k := Kids(h[q].body)[i];
    if j :| 0 <= j < |Subs(u)| && Dropped(h, p, body, j) && Inside(h, Kids(h[p].body)[j], Subs(u)[j], k) {
      var d := Kids(h[p].body)[j];
      assert k != d;
      var q' := UpInside(h, d, Subs(u)[j], k);
    }
  }

  lemma DroppedIsDead(h: Store, p: Id, u: Value, body: Body)
    requires Is(h, p, u)
    ensures forall x :: x in Kids(h[p].body) && x !in Kids(body) ==> Dead(h, p, u, body, x)
  {
    hide Subs, Shape, Kids;
    forall x | x in Kids(h[p].body) && x !in Kids(body) ensures Dead(h, p, u, body, x) {
      var i :| 0 <= i < |Kids(h[p].body)| && Kids(h[p].body)[i] == x;
      KidInside(h, p, u, i);
    }
  }

  /** A child of a dead node is dead. */
  lemma DeadDown(h: Store, p: Id, u: Value, body: Body, q: Id, x: Id)
    requires Is(h, p, u) && Dead(h, p, u, body, q) && q in h && x in Kids(h[q].body)
    ensures Dead(h, p, u, body, x)
  {
    hide Subs, Shape, Kids;
    var j :| 0 <= j < |Subs(u)| && Dropped(h, p, body, j) && Inside(h, Kids(h[p].body)[j], Subs(u)[j], q);
    var w := InsideIs(h, Kids(h[p].body)[j], Subs(u)[j], q);
    var i :| 0 <= i < |Kids(h[q].body)| && Kids(h[q].body)[i] == x;
    KidInside(h, q, w, i);
  }

  lemma ChangeRooted(h: Store, p: Id, u: Value, body: Body, v: Option<Id>)
    requires Sound(h, p, u, body, v)
    ensures Rooted(Change(h, p, u, body, v))
  {
    hide Subs, Shape, Kids, Named;
    var h' := Change(h, p, u, body, v);
    PAlive(h, p, u, body, v);
    DroppedIsDead(h, p, u, body);
    forall x | x in h' && h'[x].parent.Some?
      ensures h'[x].parent.value in h' && x in Kids(h'[h'[x].parent.value].body)
    {
      if v != Some(x) {
        var q := h[x].parent.value;
        if Dead(h, p, u, body, q) { DeadDown(h, p, u, body, q, x); }
      }
    }
  }

  /** A node whose children have values has one. */
  lemma Build(h: Store, id: Id)
    requires id in h && (h[id].body.Scalar? ==> Layout.IsScalar(h[id].body.v))
    requires forall i :: 0 <= i < |Kids(h[id].body)| ==> HasValue(h, Kids(h[id].body)[i])
    ensures HasValue(h, id)
  {
    var body, kids := h[id].body, Kids(h[id].body);
    var us := seq(|kids|, i requires 0 <= i < |kids| => ValueAt(h, kids[i]));
    match body {
      case Scalar(v) => assert Is(h, id, v);
      case Arr(_) => assert Is(h, id, Array(us));
      case Obj(members) =>
        var ms := seq(|us|, i requires 0 <= i < |us| => Item(members[i].name, us[i]));
        assert Subs(Object(ms)) == us;
        assert Is(h, id, Object(ms));
    }
  }

  lemma {:induction false} ChangeValues(h: Store, p: Id, u: Value, body: Body, v: Option<Id>, a: Id, w: Value)
    requires Sound(h, p, u, body, v) && Is(h, a, w) && a in Change(h, p, u, body, v)
    ensures HasValue(Change(h, p, u, body, v), a)
    decreases Depth(w)
  {
    hide Subs, Shape, Kids, Named, Dead, Linked, Change;
    var h' := Change(h, p, u, body, v);
    if a == p {
      ChangedValue(h, p, u, body, v);
    } else {
      forall i | 0 <= i < |Kids(h[a].body)| ensures HasValue(h', Kids(h[a].body)[i]) {
        SameNode(h, p, u, body, v, a);
        OtherChild(h, p, u, body, v, a, i);
        ChangeValues(h, p, u, body, v, Kids(h[a].body)[i], Subs(w)[i]);
      }
      SameNode(h, p, u, body, v, a);
      ScalarShape(h[a].body, w);
      Build(h', a);
    }
  }

  lemma ScalarShape(body: Body, u: Value)
    requires Shape(body, u)
    ensures body.Scalar? ==> Layout.IsScalar(body.v)
  {
  }

  lemma SameNode(h: Store, p: Id, u: Value, body: Body, v: Option<Id>, a: Id)
    requires Is(h, p, u) && a in Change(h, p, u, body, v) && a != p
    ensures a in h && !Dead(h, p, u, body, a) && Change(h, p, u, body, v)[a].body == h[a].body
  {
  }

  /** Every child of the changed container has a value: its old one. */
  lemma ChangedValue(h: Store, p: Id, u: Value, body: Body, v: Option<Id>)
    requires Sound(h, p, u, body, v)
    ensures HasValue(Change(h, p, u, body, v), p)
  {
    hide Subs, Shape, Kids, Named, Linked;
    var h' := Change(h, p, u, body, v);
    PAlive(h, p, u, body, v);
    forall i | 0 <= i < |Kids(body)| ensures HasValue(h', Kids(body)[i]) {
      var k := Kids(body)[i];
      if v == Some(k) {
        NewKid(h, p, u, body, v);
      } else {
        var j :| 0 <= j < |Kids(h[p].body)| && Kids(h[p].body)[j] == k;
        KeptKid(h, p, u, body, v, j);
      }
    }
    Build(h', p);
  }

  lemma ChangeKeepsForest(h: Store, p: Id, u: Value, body: Body, v: Option<Id>)
    requires Sound(h, p, u, body, v)
    ensures IsForest(Change(h, p, u, body, v))
  {
    hide Subs, Shape, Kids, Named, Dead, Is;
    var h' := Change(h, p, u, body, v);
    ChangeLinked(h, p, u, body, v);
    ChangeRooted(h, p, u, body, v);
    forall a | a in h' ensures HasValue(h', a) {
      ChangeValues(h, p, u, body, v, a, ValueAt(h, a));
    }
  }
}
