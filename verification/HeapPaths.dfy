/** Dotted paths into values in memory: dotset and dotremove have on the values in memory the
    effect that module DotPaths gives them, keep the forest, and touch nothing else.
 */
module HeapPaths {
  import opened Items
  import opened Values
  import opened Heap
  import opened Ownership
  import Forest
  import Layout
  import opened DotPaths

  /** An address malloc may return. */
  ghost function NewId(h: Store): (n: Id)
    ensures n !in h
  {
    FreeAddress(h.Keys);
    var n: Id :| n !in h;
    n
  }

  lemma {:induction false} FreeAddress(s: set<nat>)
    ensures exists n: nat :: n !in s
  {
    var m := Bound(s);
    assert m !in s;
  }

  lemma {:induction false} Bound(s: set<nat>) returns (m: nat)
    ensures forall x :: x in s ==> x < m
    decreases |s|
  {
    if s == {} {
      m := 0;
    } else {
      var x :| x in s;
      var b := Bound(s - {x});
      m := Max(b, x + 1);
      assert forall y :: y in s ==> y == x || y in s - {x};
    }
  }

  ghost function NewObject(h: Store): Store {
    h[NewId(h) := Node(None, Obj([]))]
  }

  /** json_object_dotset_value on the object p. */
  ghost function DotSetAt(h: Store, p: Id, path: string, v: Id): Outcome
    requires p in h && v in h
    decreases |path|
  {
    if !h[p].body.Obj? then Done(h, false)
    else if !IsDotted(path) then Perform(h, SetCall(p, path, v))
    else
      var members := h[p].body.members;
      var k := Find(members, Head(path));
      if k < |members| then
        if members[k].value !in h then Crash else DotSetAt(h, members[k].value, Rest(path), v)
      else
        var n := NewId(h);
        var r := DotSetAt(NewObject(h), n, Rest(path), v);
        if r.Crash? || n !in r.store || p !in r.store then Crash
        else if !r.ok then
          var freed := Free(r.store, n, Object([]));
          if freed.None? then Crash else Done(freed.value, false)
        else Perform(r.store, SetCall(p, Head(path), n))  // json_object_add: the name is new
  }

  /** json_object_dotremove on the object p. */
  ghost function DotRemoveAt(h: Store, p: Id, path: string): Outcome
    requires p in h
    decreases |path|
  {
    if !h[p].body.Obj? then Done(h, false)
    else if !IsDotted(path) then Perform(h, RemoveCall(p, path))
    else
      var members := h[p].body.members;
      var k := Find(members, Head(path));
      if k == |members| then Done(h, false)
      else if members[k].value !in h then Crash
      else DotRemoveAt(h, members[k].value, Rest(path))
  }

  // ---------------------------------------------------------------- inside a child

  /** A change inside the child of p called `name`, seen from p. */
  lemma ChildChanged(h: Store, h': Store, p: Id, u: Value, name: string, k: Id, inner: Value, inner': Value,
                     v: Option<Id>)
    requires IsForest(h) && Is(h, p, u) && u.Object? && h[p].body.Obj?
    requires Has(h[p].body.members, name) && k == h[p].body.members[Find(h[p].body.members, name)].value
    requires Lookup(u.members, name) == Some(inner) && Is(h, k, inner) && Local(h, h', k, inner, inner', v)
    requires v.Some? ==> v.value in h && h[v.value].parent == None && v.value != p
    ensures Is(h', p, Object(Set(u.members, name, inner')))
    ensures Local(h, h', p, u, Object(Set(u.members, name, inner')), v)
    ensures forall x :: Inside(h', k, inner', x) ==> Inside(h', p, Object(Set(u.members, name, inner')), x)
  {
    hide Find, Is, Inside, IsForest, Linked, OneSlot, Subs, Kids, Joined, Set, Shape;
    LiveNode(h, p, u);
    var i := Find(h[p].body.members, name);
    ChildFacts(h, p, u, name);
    NoLoop(h, p, u, i);
    OneValue(h, k, inner, Subs(u)[i]);
    ForestSlots(h, p);
    var U := Object(Set(u.members, name, inner'));
    LocalKeeps(h, h', k, inner, inner', v, p);
    SetShape(h[p].body, u, name, inner');
    forall j | 0 <= j < |Subs(u)| && j != i
      ensures Is(h', Kids(h[p].body)[j], Subs(u)[j])
      ensures forall x ::
                Inside(h', Kids(h[p].body)[j], Subs(u)[j], x) <==> Inside(h, Kids(h[p].body)[j], Subs(u)[j], x)
    {
      SiblingKept(h, h', p, u, i, j, inner', v);
    }
    IsFromKids(h', p, U);
    InsideKids(h, h', p, u, U, i, inner', v);
    OutsideParent(h, p, u, i);
    OutsideParent(h', p, U, i);
  }

  lemma ForestSlots(h: Store, p: Id)
    requires IsForest(h) && p in h
    ensures Linked(h) && OneSlot(Kids(h[p].body)) && HasValue(h, p)
  {
  }

  lemma LocalKeeps(h: Store, h': Store, p: Id, u: Value, u': Value, v: Option<Id>, x: Id)
    requires Local(h, h', p, u, u', v) && x in h && !Inside(h, p, u, x) && v != Some(x)
    ensures x in h' && h'[x] == h[x]
  {
    hide Is, Inside;
  }

  lemma LiveNode(h: Store, p: Id, u: Value)
    requires Is(h, p, u)
    ensures p in h && Shape(h[p].body, u) && |Kids(h[p].body)| == |Subs(u)|
    ensures forall i :: 0 <= i < |Subs(u)| ==> Is(h, Kids(h[p].body)[i], Subs(u)[i])
  {
  }

  lemma ChildFacts(h: Store, p: Id, u: Value, name: string)
    requires Is(h, p, u) && h[p].body.Obj? && Has(h[p].body.members, name)
    ensures u.Object? && |Subs(u)| == |u.members| == |h[p].body.members| == |Kids(h[p].body)|
    ensures var i := Find(h[p].body.members, name);
            && Find(u.members, name) == i && Kids(h[p].body)[i] == h[p].body.members[i].value
            && Subs(u)[i] == u.members[i].value && Is(h, Kids(h[p].body)[i], Subs(u)[i])
  {
    SameFindByNames(h[p].body.members, u.members, name);
  }

  /** Replacing the value of a member keeps everything else of the node's shape. */
  lemma SetShape(body: Body, u: Value, name: string, inner': Value)
    requires body.Obj? && Shape(body, u) && Has(u.members, name)
    ensures var i, U := Find(u.members, name), Object(Set(u.members, name, inner'));
            && Shape(body, U) && |Subs(U)| == |Subs(u)| && i < |Subs(u)| && Subs(U)[i] == inner'
            && forall j :: 0 <= j < |Subs(u)| && j != i ==> Subs(U)[j] == Subs(u)[j]
  {
  }

  lemma IsFromKids(h: Store, p: Id, U: Value)
    requires p in h && Shape(h[p].body, U) && |Kids(h[p].body)| == |Subs(U)|
    requires forall j :: 0 <= j < |Subs(U)| ==> Is(h, Kids(h[p].body)[j], Subs(U)[j])
    ensures Is(h, p, U)
  {
  }

  lemma SiblingKept(h: Store, h': Store, p: Id, u: Value, i: nat, j: nat, inner': Value, v: Option<Id>)
    requires Linked(h) && Is(h, p, u) && OneSlot(Kids(h[p].body)) && i < |Subs(u)| && j < |Subs(u)| && i != j
    requires Local(h, h', Kids(h[p].body)[i], Subs(u)[i], inner', v)
    requires v.Some? ==> v.value in h && h[v.value].parent == None
    ensures Is(h', Kids(h[p].body)[j], Subs(u)[j])
    ensures forall x :: Inside(h', Kids(h[p].body)[j], Subs(u)[j], x) <==> Inside(h, Kids(h[p].body)[j], Subs(u)[j], x)
  {
    hide Subs, Kids, Joined, OneSlot;
    var a, w := Kids(h[p].body)[j], Subs(u)[j];
    forall x | Inside(h, a, w, x) ensures x in h' && x in h && h'[x].body == h[x].body {
      SiblingsApart(h, p, u, j, i, x);
      var wx := InsideIs(h, a, w, x);
      if v == Some(x) { RootInside(h, a, w, x); }
    }
    Frame(h, h', a, w);
  }

  lemma InsideKids(h: Store, h': Store, p: Id, u: Value, U: Value, i: nat, inner': Value, v: Option<Id>)
    requires Is(h, p, u) && Is(h', p, U) && h'[p] == h[p] && |Subs(U)| == |Subs(u)| && i < |Subs(u)|
             && Subs(U)[i] == inner'
    requires forall j :: 0 <= j < |Subs(u)| && j != i ==>
               && Subs(U)[j] == Subs(u)[j]
               && forall x ::
                    Inside(h', Kids(h[p].body)[j], Subs(U)[j], x) <==> Inside(h, Kids(h[p].body)[j], Subs(u)[j], x)
    requires Local(h, h', Kids(h[p].body)[i], Subs(u)[i], inner', v)
    ensures forall x :: Inside(h', p, U, x) ==> Inside(h, p, u, x) || x !in h || Joined(h, v, x)
  {
    hide Subs, Kids, Joined, Shape;
    forall x | Inside(h', p, U, x) ensures Inside(h, p, u, x) || x !in h || Joined(h, v, x) {
      if x != p {
        var j :| 0 <= j < |Subs(U)| && Inside(h', Kids(h'[p].body)[j], Subs(U)[j], x);
      }
    }
  }

  lemma OutsideParent(h: Store, p: Id, u: Value, i: nat)
    requires Is(h, p, u) && i < |Subs(u)|
    ensures forall x :: !Inside(h, p, u, x) ==> !Inside(h, Kids(h[p].body)[i], Subs(u)[i], x)
  {
    hide Subs, Kids, Shape;
  }

  // ---------------------------------------------------------------- setting

  lemma NewObjectFacts(h: Store, p: Id, u: Value)
    requires IsForest(h) && Is(h, p, u)
    ensures var n, h1 := NewId(h), NewObject(h);
            && IsForest(h1) && Is(h1, n, Object([])) && h1[n].parent == None && n !in h
            && Is(h1, p, u) && (forall x :: Inside(h1, p, u, x) <==> Inside(h, p, u, x))
            && forall x :: Inside(h1, n, Object([]), x) <==> x == n
  {
    hide IsForest;
    assert Kids(Obj([])) == [];
    NewNodeKeepsForest(h, NewId(h), Obj([]));
    NewNodeKeepsValue(h, NewId(h), Obj([]), p, u);
  }

  /** A new node without children is a new root. */
  lemma NewNodeKeepsForest(h: Store, n: Id, body: Body)
    requires IsForest(h) && n !in h && Kids(body) == [] && Named(body) && (body.Scalar? ==> Layout.IsScalar(body.v))
    ensures IsForest(h[n := Node(None, body)])
  {
    hide Kids, Is;
    var h1 := h[n := Node(None, body)];
    Forest.Build(h1, n);
    forall a | a in h ensures HasValue(h1, a) {
      NewNodeKeepsValue(h, n, body, a, ValueAt(h, a));
    }
  }

  lemma NewNodeKeepsValue(h: Store, n: Id, body: Body, a: Id, w: Value)
    requires n !in h && Is(h, a, w)
    ensures var h1 := h[n := Node(None, body)]; Is(h1, a, w) && forall x :: Inside(h1, a, w, x) <==> Inside(h, a, w, x)
  {
    hide Subs, Kids, Shape;
    var h1 := h[n := Node(None, body)];
    forall x | Inside(h, a, w, x) ensures x in h1 && x in h && h1[x].body == h[x].body {
      var wx := InsideIs(h, a, w, x);
    }
    Frame(h, h1, a, w);
  }

  /** What dotset does on the object p: exactly what module DotPaths says, or nothing. */
  ghost predicate SetRight(h: Store, p: Id, u: Value, path: string, v: Id, w: Value, r: Outcome)
    requires Is(h, p, u) && u.Object?
  {
    var spec := DotSet(u.members, path, w);
    && r.Done? && (r.ok <==> spec.Some?)
    && (r.ok ==> IsForest(r.store) && Local(h, r.store, p, u, Object(spec.value), Some(v)))
    && (r.ok ==> Inside(r.store, p, Object(spec.value), v))
    && (!r.ok ==> r.store == h)
  }

  /** A root that may be put into p. */
  ghost predicate MayEnter(h: Store, p: Id, v: Id, w: Value) {
    v in h && h[v].parent == None && Is(h, v, w) && !Inside(h, v, w, p)
  }

  lemma SetHere(h: Store, p: Id, u: Value, path: string, v: Id, w: Value)
    requires IsForest(h) && Is(h, p, u) && h[p].body.Obj? && u.Object? && MayEnter(h, p, v, w)
    requires IsName(path) && !IsDotted(path)
    ensures SetRight(h, p, u, path, v, w, DotSetAt(h, p, path, v))
  {
    hide Subs, Kids, IsForest, Shape, Is, Local, PlanOf, Set, FirstDot, Perform;
    var c := SetCall(p, path, v);
    LiveNode(h, p, u);
    PlanIsSome(h, p, path, v);
    OneValue(h, v, w, ValueAt(h, v));
    PerformKeepsForest(h, c);
    PerformMeans(h, c, u);
    ItselfInside(h, v, w);
    JoinedIs(h, v, w, v);
  }

  lemma PlanIsSome(h: Store, p: Id, name: string, v: Id)
    requires p in h && v in h && h[p].body.Obj? && h[v].parent == None
    ensures PlanOf(h, SetCall(p, name, v)).Some?
  {
  }

  /** The child on the way does not contain the root either. */
  lemma MayEnterChild(h: Store, p: Id, u: Value, i: nat, v: Id, w: Value)
    requires Linked(h) && Is(h, p, u) && i < |Subs(u)| && MayEnter(h, p, v, w)
    ensures MayEnter(h, Kids(h[p].body)[i], v, w) && v != p
  {
    hide Subs, Kids, Shape;
    var k := Kids(h[p].body)[i];
    if Inside(h, v, w, k) {
      var q := UpInside(h, v, w, k);
    }
  }

  /** Dotset on values in memory is dotset on values. */
  lemma {:induction false} DotSetRefines(h: Store, p: Id, u: Value, path: string, v: Id, w: Value)
    requires IsForest(h) && Is(h, p, u) && u.Object? && MayEnter(h, p, v, w) && IsName(path)
    ensures SetRight(h, p, u, path, v, w, DotSetAt(h, p, path, v))
    decreases |path|, 1
  {
    hide Subs, Kids, IsForest, Shape, Is, Local, Set, FirstDot, Perform, DotSetAt, Find, Lookup, SetRight, MayEnter;
    ObjectBody(h, p, u);
    HeadIsName(path);
    if !IsDotted(path) {
      SetHere(h, p, u, path, v, w);
    } else if Has(h[p].body.members, Head(path)) {
      SetInChild(h, p, u, path, v, w);
    } else {
      SetInNew(h, p, u, path, v, w);
    }
  }

  lemma ObjectBody(h: Store, p: Id, u: Value)
    requires Is(h, p, u)
    ensures p in h && (u.Object? <==> h[p].body.Obj?)
    ensures u.Object? ==> forall name :: Has(h[p].body.members, name) <==> Has(u.members, name)
  {
    if u.Object? {
      forall name ensures Has(h[p].body.members, name) <==> Has(u.members, name) {
        SameFindByNames(h[p].body.members, u.members, name);
      }
    }
  }

  /** The next object on the way exists, or something else is in the way. */
  lemma {:induction false} SetInChild(h: Store, p: Id, u: Value, path: string, v: Id, w: Value)
    requires IsForest(h) && Is(h, p, u) && u.Object? && MayEnter(h, p, v, w) && IsName(path)
    requires IsDotted(path) && h[p].body.Obj? && Has(h[p].body.members, Head(path)) && IsName(Rest(path))
    ensures SetRight(h, p, u, path, v, w, DotSetAt(h, p, path, v))
    decreases |path|, 0
  {
    hide Subs, Kids, IsForest, Shape, Is, Local, Set, FirstDot, Perform, Find, MayEnter;
    var name, rest := Head(path), Rest(path);
    RestIsShorter(path);
    LiveNode(h, p, u);
    EnterIsRoot(h, p, v, w);
    ChildFacts(h, p, u, name);
    var i := Find(h[p].body.members, name);
    var k, inner := h[p].body.members[i].value, Subs(u)[i];
    ForestSlots(h, p);
    MayEnterChild(h, p, u, i, v, w);
    ObjectBody(h, k, inner);
    assert Lookup(u.members, name) == Some(inner);
    if inner.Object? {
      DotSetRefines(h, k, inner, rest, v, w);
      var r := DotSetAt(h, k, rest, v);
      if r.ok {
        var inner' := Object(DotSet(inner.members, rest, w).value);
        ChildChanged(h, r.store, p, u, name, k, inner, inner', Some(v));
      }
    }
  }

  lemma EnterIsRoot(h: Store, p: Id, v: Id, w: Value)
    requires MayEnter(h, p, v, w)
    ensures v in h && h[v].parent == None && v != p && Is(h, v, w)
  {
  }

  /** The next object on the way is missing and is made. */
  lemma {:induction false} SetInNew(h: Store, p: Id, u: Value, path: string, v: Id, w: Value)
    requires IsForest(h) && Is(h, p, u) && u.Object? && MayEnter(h, p, v, w) && IsName(path)
    requires IsDotted(path) && h[p].body.Obj? && !Has(h[p].body.members, Head(path))
    requires IsName(Head(path)) && IsName(Rest(path)) && !Has(u.members, Head(path))
    ensures SetRight(h, p, u, path, v, w, DotSetAt(h, p, path, v))
    decreases |path|, 0
  {
    hide Subs, Kids, IsForest, Shape, Is, Local, Set, FirstDot, Perform, Find, MayEnter;
    var name, rest := Head(path), Rest(path);
    RestIsShorter(path);
    LiveNode(h, p, u);
    EnterIsRoot(h, p, v, w);
    var n, h1 := NewId(h), NewObject(h);
    NewObjectFacts(h, p, u);
    EnterNew(h, v, w);
    DotSetRefines(h1, n, Object([]), rest, v, w);
    var r := DotSetAt(h1, n, rest, v);
    if r.ok {
      AddNew(h, p, u, name, v, w, r.store, Object(DotSet([], rest, w).value));
    } else {
      FreeNew(h, n);
    }
  }

  lemma RestIsShorter(path: string)
    requires IsDotted(path)
    ensures |Rest(path)| < |path|
  {
  }

  /** Any root may be put into a new object. */
  lemma EnterNew(h: Store, v: Id, w: Value)
    requires v in h && h[v].parent == None && Is(h, v, w)
    ensures MayEnter(NewObject(h), NewId(h), v, w)
    ensures forall x :: Inside(NewObject(h), v, w, x) <==> Inside(h, v, w, x)
  {
    hide Subs, Kids, Shape;
    var n := NewId(h);
    NewNodeKeepsValue(h, n, Obj([]), v, w);
    if Inside(h, v, w, n) {
      var wn := InsideIs(h, v, w, n);
    }
  }

  /** A refused dotset takes back the object it made. */
  lemma FreeNew(h: Store, n: Id)
    requires n !in h
    ensures Free(h[n := Node(None, Obj([]))], n, Object([])) == Some(h)
  {
    assert h[n := Node(None, Obj([]))] - {n} == h;
  }

  /** The state after the rest of the path has been set in the new object. */
  ghost predicate Filled(h: Store, p: Id, u: Value, v: Id, w: Value, h2: Store, U: Value) {
    && IsForest(h) && Is(h, p, u) && MayEnter(h, p, v, w)
    && IsForest(h2) && Local(NewObject(h), h2, NewId(h), Object([]), U, Some(v))
  }

  lemma NewUntouched(h: Store, p: Id, u: Value, v: Id, w: Value, h2: Store, U: Value)
    requires Filled(h, p, u, v, w, h2, U)
    ensures Is(h2, p, u) && (forall x :: Inside(h2, p, u, x) <==> Inside(h, p, u, x))
    ensures forall x :: x in h ==> x in h2 && h2[x].body == h[x].body && (x != v ==> h2[x] == h[x])
  {
    hide Subs, Kids, Shape, Joined, IsForest;
    NewObjectFacts(h, p, u);
    ForestSlots(h, p);
    forall x | Inside(h, p, u, x) ensures x in h2 && x in h && h2[x].body == h[x].body {
      RootInside(h, p, u, v);
      var wx := InsideIs(h, p, u, x);
    }
    Frame(h, h2, p, u);
  }

  lemma NewIsFree(h: Store, p: Id, u: Value, v: Id, w: Value, h2: Store, U: Value)
    requires Filled(h, p, u, v, w, h2, U)
    ensures MayEnter(h2, p, NewId(h), U)
    ensures forall x :: Inside(h2, NewId(h), U, x) ==> x !in h || Joined(h, Some(v), x)
  {
    hide Subs, Kids, Shape, IsForest;
    NewObjectFacts(h, p, u);
    EnterNew(h, v, w);
    OneValue(h, v, w, ValueAt(h, v));
    OneValue(NewObject(h), v, w, ValueAt(NewObject(h), v));
    LiveNode(h, p, u);
  }

  /** The new object, filled, is added. */
  lemma AddNew(h: Store, p: Id, u: Value, name: string, v: Id, w: Value, h2: Store, U: Value)
    requires Filled(h, p, u, v, w, h2, U) && h[p].body.Obj? && u.Object? && IsName(name)
    ensures p in h2 && NewId(h) in h2
    ensures var r := Perform(h2, SetCall(p, name, NewId(h)));
            && r.Done? && r.ok && IsForest(r.store)
            && Local(h, r.store, p, u, Object(Set(u.members, name, U)), Some(v))
            && forall x :: Inside(h2, NewId(h), U, x) ==> Inside(r.store, p, Object(Set(u.members, name, U)), x)
  {
    hide Subs, Kids, Shape, IsForest, Is, Set, PlanOf, Perform, Find;
    var n := NewId(h);
    NewUntouched(h, p, u, v, w, h2, U);
    NewIsFree(h, p, u, v, w, h2, U);
    EnterIsRoot(h, p, v, w);
    LiveNode(h, p, u);
    OneValue(h2, n, U, ValueAt(h2, n));
    var c := SetCall(p, name, n);
    PlanIsSome(h2, p, name, n);
    PerformKeepsForest(h2, c);
    PerformMeans(h2, c, u);
    forall x ensures Joined(h2, Some(n), x) <==> Inside(h2, n, U, x) { JoinedIs(h2, n, U, x); }
    LocalAfter(h, p, u, v, w, h2, n, U, Perform(h2, c).store, Object(Set(u.members, name, U)));
  }

  lemma LocalAfter(h: Store, p: Id, u: Value, v: Id, w: Value, h2: Store, n: Id, U: Value, h3: Store, U3: Value)
    requires Is(h, p, u) && Is(h2, p, u) && (forall x :: Inside(h2, p, u, x) <==> Inside(h, p, u, x))
    requires forall x :: x in h ==> x in h2 && h2[x].body == h[x].body && (x != v ==> h2[x] == h[x])
    requires n !in h && v != p && p in h
    requires Is(h2, n, U) && forall x :: Inside(h2, n, U, x) ==> x !in h || Joined(h, Some(v), x)
    requires Is(h, v, w) && Local(h2, h3, p, u, U3, Some(n))
    ensures Local(h, h3, p, u, U3, Some(v))
  {
    hide Subs, Kids, Shape, Is, Inside, Joined;
    LiveNode(h, p, u);
    ItselfInside(h, v, w);
    JoinedIs(h, v, w, v);
    forall x | x in h && !Inside(h, p, u, x)
      ensures x in h3 && h3[x].body == h[x].body && (x != v ==> h3[x] == h[x])
    {
      LocalKeeps(h2, h3, p, u, U3, Some(n), x);
    }
    forall x | Inside(h3, p, U3, x) ensures Inside(h, p, u, x) || x !in h || Joined(h, Some(v), x) {
      LocalWithin(h2, h3, p, u, U3, Some(n), x);
      JoinedIs(h2, n, U, x);
    }
  }

  lemma JoinedIs(h: Store, v: Id, w: Value, x: Id)
    requires Is(h, v, w)
    ensures Joined(h, Some(v), x) <==> Inside(h, v, w, x)
  {
    hide Subs, Kids, Shape;
    OneValue(h, v, w, ValueAt(h, v));
  }

  lemma ItselfInside(h: Store, v: Id, w: Value)
    requires Is(h, v, w)
    ensures Inside(h, v, w, v)
  {
  }

  lemma LocalWithin(h: Store, h': Store, p: Id, u: Value, u': Value, v: Option<Id>, x: Id)
    requires Local(h, h', p, u, u', v) && Inside(h', p, u', x)
    ensures Inside(h, p, u, x) || x !in h || Joined(h, v, x)
  {
    hide Is, Inside;
  }

  // ---------------------------------------------------------------- a root above the object

  /** An accepted dotset of a root above the object, or of the object itself, breaks the
      forest. */
  lemma {:induction false} DotSetBeneath(h: Store, p: Id, u: Value, path: string, v: Id, w: Value)
    requires IsForest(h) && Is(h, p, u) && u.Object? && v in h && h[v].parent == None && Is(h, v, w)
             && Inside(h, v, w, p)
    requires IsName(path) && DotSet(u.members, path, w).Some?
    ensures var r := DotSetAt(h, p, path, v); !(r.Done? && IsForest(r.store))
    decreases |path|, 1
  {
    hide Subs, Kids, IsForest, Shape, Is, Set, FirstDot, Perform, Find, PlanOf;
    LiveNode(h, p, u);
    ObjectBody(h, p, u);
    HeadIsName(path);
    if !IsDotted(path) {
      BreaksHere(h, p, path, v, w);
    } else if Has(h[p].body.members, Head(path)) {
      var name := Head(path);
      RestIsShorter(path);
      ChildFacts(h, p, u, name);
      var i := Find(h[p].body.members, name);
      var k, inner := h[p].body.members[i].value, Subs(u)[i];
      ObjectBody(h, k, inner);
      assert Lookup(u.members, name) == Some(inner);
      ChildAlsoInside(h, p, u, i, v, w);
      DotSetBeneath(h, k, inner, Rest(path), v, w);
    } else {
      BreaksNew(h, p, u, path, v, w);
    }
  }

  lemma BreaksHere(h: Store, p: Id, name: string, v: Id, w: Value)
    requires IsForest(h) && p in h && h[p].body.Obj? && v in h && h[v].parent == None && Is(h, v, w)
             && Inside(h, v, w, p)
    requires IsName(name)
    ensures var r := Perform(h, SetCall(p, name, v)); !(r.Done? && IsForest(r.store))
  {
    hide Subs, Kids, IsForest, Shape, Is, Perform, PlanOf;
    PlanIsSome(h, p, name, v);
    OneValue(h, v, w, ValueAt(h, v));
    InsertExactly(h, SetCall(p, name, v));
  }

  lemma ChildAlsoInside(h: Store, p: Id, u: Value, i: nat, v: Id, w: Value)
    requires Is(h, p, u) && i < |Subs(u)| && Is(h, v, w) && Inside(h, v, w, p)
    ensures Inside(h, v, w, Kids(h[p].body)[i])
  {
    hide Subs, Kids, Shape;
    var u' := InsideIs(h, v, w, p);
    OneValue(h, p, u, u');
    KidInside(h, p, u, i);
  }

  /** The new object receives the root, and is then put beneath it. */
  lemma BreaksNew(h: Store, p: Id, u: Value, path: string, v: Id, w: Value)
    requires IsForest(h) && Is(h, p, u) && u.Object? && v in h && h[v].parent == None && Is(h, v, w)
             && Inside(h, v, w, p)
    requires IsDotted(path) && h[p].body.Obj? && !Has(h[p].body.members, Head(path)) && !Has(u.members, Head(path))
    requires IsName(Head(path)) && IsName(Rest(path)) && DotSet(u.members, path, w).Some?
    ensures var r := DotSetAt(h, p, path, v); !(r.Done? && IsForest(r.store))
  {
    hide Subs, Kids, IsForest, Shape, Is, Local, Set, FirstDot, Perform, Find, MayEnter;
    var n, h1 := NewId(h), NewObject(h);
    LiveNode(h, p, u);
    NewObjectFacts(h, p, u);
    EnterNew(h, v, w);
    DotSetRefines(h1, n, Object([]), Rest(path), v, w);
    var r := DotSetAt(h1, n, Rest(path), v);
    var U := Object(DotSet([], Rest(path), w).value);
    AboveInside(h1, n, v, w, p, r.store, U);
    BreaksHere(r.store, p, Head(path), n, U);
  }

  /** After the root has been put into the new object, p is inside that. */
  lemma AboveInside(h1: Store, n: Id, v: Id, w: Value, p: Id, h2: Store, U: Value)
    requires MayEnter(h1, n, v, w) && Inside(h1, v, w, p) && p != n && n in h1 && h1[n].parent == None
    requires Local(h1, h2, n, Object([]), U, Some(v)) && Inside(h2, n, U, v)
    requires forall x :: Inside(h1, n, Object([]), x) <==> x == n
    ensures p in h1 && p in h2 && n in h2 && h2[p].body == h1[p].body && h2[n].parent == None
    ensures Is(h2, n, U) && Inside(h2, n, U, p)
  {
    hide Subs, Kids, Shape, Joined;
    forall x | Inside(h1, v, w, x) ensures x in h2 && x in h1 && h2[x].body == h1[x].body {
      var wx := InsideIs(h1, v, w, x);
      assert x != n by { NotInsideEntered(h1, n, v, w); }
    }
    Frame(h1, h2, v, w);
    var wv := InsideIs(h2, n, U, v);
    OneValue(h2, v, w, wv);
  }

  lemma NotInsideEntered(h: Store, p: Id, v: Id, w: Value)
    requires MayEnter(h, p, v, w)
    ensures !Inside(h, v, w, p)
  {
  }

  /** A dotset of a root, accepted by the path, keeps the forest if and only if the root is not
      above the object. */
  lemma DotSetExactly(h: Store, p: Id, u: Value, path: string, v: Id, w: Value)
    requires IsForest(h) && Is(h, p, u) && u.Object? && v in h && h[v].parent == None && Is(h, v, w) && IsName(path)
    requires DotSet(u.members, path, w).Some?
    ensures var r := DotSetAt(h, p, path, v);
            r.Done? && IsForest(r.store) <==> !Inside(h, v, w, p)
  {
    hide Subs, Kids, IsForest, Shape, Is, Local, DotSetAt;
    LiveNode(h, p, u);
    if Inside(h, v, w, p) {
      DotSetBeneath(h, p, u, path, v, w);
    } else {
      DotSetRefines(h, p, u, path, v, w);
    }
  }

  /** A value that has a parent is refused, and nothing changes. */
  lemma {:induction false} DotSetRefusesParent(h: Store, p: Id, path: string, v: Id)
    requires IsForest(h) && p in h && v in h && h[v].parent.Some?
    ensures DotSetAt(h, p, path, v) == Done(h, false)
    decreases |path|
  {
    hide FirstDot, Find;
    if h[p].body.Obj? && IsDotted(path) {
      RestIsShorter(path);
      var k := Find(h[p].body.members, Head(path));
      if k < |h[p].body.members| {
        ChildLive(h, p, k);
        DotSetRefusesParent(h, h[p].body.members[k].value, Rest(path), v);
      } else {
        ForestSlots(h, p);
        NewObjectFacts(h, p, ValueAt(h, p));
        DotSetRefusesParent(NewObject(h), NewId(h), Rest(path), v);
        FreeNew(h, NewId(h));
      }
    }
  }

  lemma ChildLive(h: Store, p: Id, k: nat)
    requires Linked(h) && p in h && h[p].body.Obj? && k < |h[p].body.members|
    ensures h[p].body.members[k].value in h
  {
    assert Kids(h[p].body)[k] == h[p].body.members[k].value;
  }

  // ---------------------------------------------------------------- removing

  ghost predicate RemoveRight(h: Store, p: Id, u: Value, path: string, r: Outcome)
    requires Is(h, p, u) && u.Object?
  {
    var spec := DotRemove(u.members, path);
    && r.Done? && (r.ok <==> spec.Some?)
    && (r.ok ==> IsForest(r.store) && Local(h, r.store, p, u, Object(spec.value), None))
    && (!r.ok ==> r.store == h)
  }

  lemma RemoveHere(h: Store, p: Id, u: Value, name: string)
    requires IsForest(h) && Is(h, p, u) && h[p].body.Obj? && u.Object? && !IsDotted(name)
    ensures RemoveRight(h, p, u, name, DotRemoveAt(h, p, name))
  {
    hide Subs, Kids, IsForest, Shape, Is, Local, FirstDot, Perform, RemoveAt;
    var c := RemoveCall(p, name);
    LiveNode(h, p, u);
    ObjectBody(h, p, u);
    PerformKeepsForest(h, c);
    if PlanOf(h, c).Some? { PerformMeans(h, c, u); }
  }

  /** Dotremove on values in memory is dotremove on values. */
  lemma {:induction false} DotRemoveRefines(h: Store, p: Id, u: Value, path: string)
    requires IsForest(h) && Is(h, p, u) && u.Object?
    ensures RemoveRight(h, p, u, path, DotRemoveAt(h, p, path))
    decreases |path|
  {
    hide Subs, Kids, IsForest, Shape, Is, Local, Set, FirstDot, Perform, Find;
    LiveNode(h, p, u);
    ObjectBody(h, p, u);
    if !IsDotted(path) {
      RemoveHere(h, p, u, path);
    } else if Has(h[p].body.members, Head(path)) {
      var name, rest := Head(path), Rest(path);
      RestIsShorter(path);
      ChildFacts(h, p, u, name);
      var i := Find(h[p].body.members, name);
      var k, inner := h[p].body.members[i].value, Subs(u)[i];
      LiveNode(h, k, inner);
      ObjectBody(h, k, inner);
      assert Lookup(u.members, name) == Some(inner);
      if inner.Object? {
        DotRemoveRefines(h, k, inner, rest);
        var r := DotRemoveAt(h, k, rest);
        if r.ok {
          ChildChanged(h, r.store, p, u, name, k, inner, Object(DotRemove(inner.members, rest).value), None);
        }
      }
    }
  }
}
