/** The calls that change values in memory, as steps of a state machine.

  A step crashes if it touches a node that has been freed. `RunKeepsForest` is about every run
  in which no value is inserted beneath itself, which the calls do not check.
 */
module Ownership {
  import opened Items
  import opened Values
  import opened Heap
  import opened Forest

  /** `Crash` is undefined behaviour; otherwise the status the call returns. */
  datatype Outcome = Crash | Done(store: Store, ok: bool)

  // ---------------------------------------------------------------- freeing

  function Positions(n: nat): (r: seq<nat>)
    ensures |r| == n && forall i :: 0 <= i < n ==> r[i] == i
  {
    seq(n, i requires 0 <= i < n => i)
  }

  /** json_value_free: children first, then the node; None when it meets a freed node. The
      value u gives the node's shape. */
  ghost function Free(h: Store, id: Id, u: Value): Option<Store>
    decreases Depth(u), 1, 0
  {
    if id !in h || !Shape(h[id].body, u) || |Kids(h[id].body)| != |Subs(u)| then None
    else
      var idx := Positions(|Subs(u)|);
      var r := FreeAll(h, Kids(h[id].body), Subs(u), idx, Depth(u));
      if r.None? || id !in r.value then None else Some(r.value - {id})
  }

  /** The children at the given positions, one after the other. */
  ghost function FreeAll(h: Store, kids: seq<Id>, us: seq<Value>, idx: seq<nat>, bound: nat): Option<Store>
    requires |kids| == |us| && (forall i :: 0 <= i < |us| ==> Depth(us[i]) < bound)
    requires forall n :: 0 <= n < |idx| ==> idx[n] < |us|
    decreases bound, 0, |idx|
  {
    if idx == [] then Some(h)
    else
      var r := Free(h, kids[idx[0]], us[idx[0]]);
      if r.None? then None else FreeAll(r.value, kids, us, idx[1..], bound)
  }

  ghost predicate Indices(idx: seq<nat>, n: nat) {
    && (forall i :: 0 <= i < |idx| ==> idx[i] < n)
    && forall i, j :: 0 <= i < j < |idx| ==> idx[i] != idx[j]
  }

  /** x is under one of the children at these positions. */
  ghost predicate Under(h: Store, p: Id, u: Value, idx: seq<nat>, x: Id)
    requires Is(h, p, u) && Indices(idx, |Subs(u)|)
  {
    exists n :: 0 <= n < |idx| && Inside(h, Kids(h[p].body)[idx[n]], Subs(u)[idx[n]], x)
  }

  ghost function WithoutTree(g: Store, h: Store, id: Id, u: Value): Store
    requires Is(h, id, u)
  {
    map x | x in g && !Inside(h, id, u, x) :: g[x]
  }

  ghost function WithoutTrees(g: Store, h: Store, p: Id, u: Value, idx: seq<nat>): Store
    requires Is(h, p, u) && Indices(idx, |Subs(u)|)
  {
    map x | x in g && !Under(h, p, u, idx, x) :: g[x]
  }

  ghost predicate Agree(h: Store, g: Store, x: Id) {
    x in h && x in g && g[x] == h[x]
  }

  ghost predicate Slotted(h: Store) {
    Linked(h) && forall p :: p in h ==> OneSlot(Kids(h[p].body))
  }

  /** Freeing removes exactly the tree, every node of it once, and meets no freed node: also
      in a store g where other trees have been freed already. */
  lemma {:induction false} FreeExact(h: Store, g: Store, id: Id, u: Value)
    requires Slotted(h) && Is(h, id, u) && forall x :: Inside(h, id, u, x) ==> Agree(h, g, x)
    ensures Free(g, id, u) == Some(WithoutTree(g, h, id, u))
    decreases Depth(u), 1, 0
  {
    hide Subs, Kids, Shape;
    assert Inside(h, id, u, id);
    var idx := Positions(|Subs(u)|);
    forall x | Under(h, id, u, idx, x) ensures Agree(h, g, x) {
      var n :| 0 <= n < |idx| && Inside(h, Kids(h[id].body)[idx[n]], Subs(u)[idx[n]], x);
    }
    FreeAllExact(h, g, id, u, idx);
    UnderAll(h, id, u, idx);
    assert g[id] == h[id] && id in WithoutTrees(g, h, id, u, idx);
    LastOfTree(h, g, id, u, idx);
  }

  lemma LastOfTree(h: Store, g: Store, id: Id, u: Value, idx: seq<nat>)
    requires Is(h, id, u) && Indices(idx, |Subs(u)|)
    requires forall x :: Inside(h, id, u, x) <==> x == id || Under(h, id, u, idx, x)
    ensures WithoutTrees(g, h, id, u, idx) - {id} == WithoutTree(g, h, id, u)
  {
    hide Is, Inside, Under;
  }

  lemma UnderAll(h: Store, id: Id, u: Value, idx: seq<nat>)
    requires Is(h, id, u) && |idx| == |Subs(u)| && forall i :: 0 <= i < |idx| ==> idx[i] == i
    ensures forall x :: Inside(h, id, u, x) <==> x == id || Under(h, id, u, idx, x)
    ensures !Under(h, id, u, idx, id)
  {
    hide Subs, Kids, Shape;
    if n :| 0 <= n < |idx| && Inside(h, Kids(h[id].body)[idx[n]], Subs(u)[idx[n]], id) {
      NoLoop(h, id, u, n);
    }
    forall x | Inside(h, id, u, x) && x != id ensures Under(h, id, u, idx, x) {
      var i :| 0 <= i < |Subs(u)| && Inside(h, Kids(h[id].body)[i], Subs(u)[i], x);
      assert idx[i] == i;
    }
  }

  lemma {:induction false} FreeAllExact(h: Store, g: Store, p: Id, u: Value, idx: seq<nat>)
    requires Slotted(h) && Is(h, p, u) && Indices(idx, |Subs(u)|)
    requires forall x :: Under(h, p, u, idx, x) ==> Agree(h, g, x)
    ensures FreeAll(g, Kids(h[p].body), Subs(u), idx, Depth(u)) == Some(WithoutTrees(g, h, p, u, idx))
    decreases Depth(u), 0, |idx|
  {
    hide Subs, Kids, Shape, Free, Linked, OneSlot;
    if idx == [] {
      assert g == WithoutTrees(g, h, p, u, idx);
    } else {
      var i, rest := idx[0], idx[1..];
      var k, uk := Kids(h[p].body)[i], Subs(u)[i];
      forall x | Inside(h, k, uk, x) ensures Agree(h, g, x) { assert Under(h, p, u, idx, x); }
      FreeExact(h, g, k, uk);
      var g' := WithoutTree(g, h, k, uk);
      FirstThenRest(h, p, u, idx);
      FreeAllExact(h, g', p, u, rest);
      assert WithoutTrees(g', h, p, u, rest) == WithoutTrees(g, h, p, u, idx);
    }
  }

  lemma FirstThenRest(h: Store, p: Id, u: Value, idx: seq<nat>)
    requires Slotted(h) && Is(h, p, u) && Indices(idx, |Subs(u)|) && idx != []
    ensures Indices(idx[1..], |Subs(u)|)
    ensures var k, uk := Kids(h[p].body)[idx[0]], Subs(u)[idx[0]];
            forall x :: Under(h, p, u, idx, x) <==> Inside(h, k, uk, x) || Under(h, p, u, idx[1..], x)
    ensures var k, uk := Kids(h[p].body)[idx[0]], Subs(u)[idx[0]];
            forall x :: Under(h, p, u, idx[1..], x) ==> !Inside(h, k, uk, x)
  {
    hide Subs, Kids, Shape;
    var i, rest := idx[0], idx[1..];
    var k, uk := Kids(h[p].body)[i], Subs(u)[i];
    forall x | Under(h, p, u, rest, x) ensures !Inside(h, k, uk, x) && Under(h, p, u, idx, x) {
      var n :| 0 <= n < |rest| && Inside(h, Kids(h[p].body)[rest[n]], Subs(u)[rest[n]], x);
      assert rest[n] == idx[n + 1];
      SiblingsApart(h, p, u, rest[n], i, x);
    }
    forall x | Under(h, p, u, idx, x) && !Inside(h, k, uk, x) ensures Under(h, p, u, rest, x) {
      var n :| 0 <= n < |idx| && Inside(h, Kids(h[p].body)[idx[n]], Subs(u)[idx[n]], x);
      assert n > 0 && idx[n] == rest[n - 1];
    }
    forall x | Inside(h, k, uk, x) ensures Under(h, p, u, idx, x) { }
  }

  // ---------------------------------------------------------------- freeing and linking

  /** Two writes: the container's slots, and the parent pointer of what is put in. */
  function Relink(h: Store, p: Id, body: Body, v: Option<Id>): Store
    requires p in h && (v.Some? ==> v.value in h)
  {
    var h1 := h[p := Node(h[p].parent, body)];
    if v.None? then h1 else h1[v.value := Node(Some(p), h1[v.value].body)]
  }

  /** Frees the children of p at the given positions, then changes p. */
  ghost function FreeThenLink(h: Store, p: Id, idx: seq<nat>, body: Body, v: Option<Id>): Outcome
    requires p in h && Indices(idx, |Kids(h[p].body)|)
  {
    if !HasValue(h, p) then Crash
    else
      var u := ValueAt(h, p);
      var r := FreeAll(h, Kids(h[p].body), Subs(u), idx, Depth(u));
      if r.None? || p !in r.value || (v.Some? && v.value !in r.value) then Crash
      else Done(Relink(r.value, p, body, v), true)
  }

  lemma LinkIsChange(h: Store, p: Id, u: Value, idx: seq<nat>, body: Body, v: Option<Id>)
    requires Sound(h, p, u, body, v) && Indices(idx, |Kids(h[p].body)|)
    requires forall i :: 0 <= i < |Kids(h[p].body)| ==> (Dropped(h, p, body, i) <==> i in idx)
    ensures FreeThenLink(h, p, idx, body, v) == Done(Change(h, p, u, body, v), true)
  {
    hide Subs, Kids, Shape, Named, FreeAll, Free, OneSlot, Linked, Rooted;
    OneValue(h, p, u, ValueAt(h, p));
    forall x ensures Under(h, p, u, idx, x) <==> Dead(h, p, u, body, x) {
      UnderIsDead(h, p, u, idx, body, x);
    }
    forall x | Under(h, p, u, idx, x) ensures Agree(h, h, x) { UnderIsLive(h, p, u, idx, x); }
    FreeAllExact(h, h, p, u, idx);
    PAlive(h, p, u, body, v);
    if v.Some? {
      RootAlive(h, p, u, body, v.value);
      NotItself(h, p, v.value);
    }
    RelinkIsChange(h, p, u, idx, body, v);
  }

  lemma RelinkIsChange(h: Store, p: Id, u: Value, idx: seq<nat>, body: Body, v: Option<Id>)
    requires Is(h, p, u) && p in h && Indices(idx, |Subs(u)|) && (v.Some? ==> v.value in h)
    requires forall x :: Under(h, p, u, idx, x) <==> Dead(h, p, u, body, x)
    requires !Dead(h, p, u, body, p) && (v.Some? ==> !Dead(h, p, u, body, v.value) && v.value != p)
    ensures Relink(WithoutTrees(h, h, p, u, idx), p, body, v) == Change(h, p, u, body, v)
  {
    hide Subs, Kids, Shape, Under, Dead, Is, Indices;
  }

  lemma NotItself(h: Store, p: Id, v: Id)
    requires HasValue(h, v) && !Inside(h, v, ValueAt(h, v), p)
    ensures v != p
  {
  }

  lemma UnderIsDead(h: Store, p: Id, u: Value, idx: seq<nat>, body: Body, x: Id)
    requires Is(h, p, u) && Indices(idx, |Subs(u)|)
    requires forall i :: 0 <= i < |Kids(h[p].body)| ==> (Dropped(h, p, body, i) <==> i in idx)
    ensures Under(h, p, u, idx, x) <==> Dead(h, p, u, body, x)
  {
    hide Subs, Kids, Shape, Dropped;
    if n :| 0 <= n < |idx| && Inside(h, Kids(h[p].body)[idx[n]], Subs(u)[idx[n]], x) {
      assert Dropped(h, p, body, idx[n]);
    }
    if i :| 0 <= i < |Subs(u)| && Dropped(h, p, body, i) && Inside(h, Kids(h[p].body)[i], Subs(u)[i], x) {
      var n :| 0 <= n < |idx| && idx[n] == i;
    }
  }

  lemma UnderIsLive(h: Store, p: Id, u: Value, idx: seq<nat>, x: Id)
    requires Is(h, p, u) && Indices(idx, |Subs(u)|) && Under(h, p, u, idx, x)
    ensures x in h
  {
    hide Subs, Kids, Shape;
    var n :| 0 <= n < |idx| && Inside(h, Kids(h[p].body)[idx[n]], Subs(u)[idx[n]], x);
    var w := InsideIs(h, Kids(h[p].body)[idx[n]], Subs(u)[idx[n]], x);
  }

  // ---------------------------------------------------------------- the calls

  datatype Call =
    | SetCall(p: Id, name: string, v: Id)     // json_object_set_value
    | RemoveCall(p: Id, name: string)         // json_object_remove
    | AppendCall(p: Id, v: Id)                // json_array_append_value
    | ReplaceCall(p: Id, ix: nat, v: Id)      // json_array_replace_value
    | RemoveAtCall(p: Id, ix: nat)            // json_array_remove
    | ClearCall(p: Id)                        // json_object_clear, json_array_clear

  predicate Inserts(c: Call) {
    c.SetCall? || c.AppendCall? || c.ReplaceCall?
  }

  /** A call frees the children at `idx`, gives its container a new body, and links v in. */
  datatype Plan = Plan(idx: seq<nat>, body: Body, v: Option<Id>)

  /** None when the call returns JSONFailure. */
  function PlanOf(h: Store, c: Call): Option<Plan>
    requires c.p in h && (Inserts(c) ==> c.v in h)
  {
    if Inserts(c) && h[c.v].parent.Some? then None
    else
      match h[c.p].body
      case Scalar(_) => None
      case Obj(members) => (
        match c
        case SetCall(_, name, v) =>
          var k := Find(members, name);
          Some(Plan(if k < |members| then [k] else [], Obj(Set(members, name, v)), Some(v)))
        case RemoveCall(_, name) =>
          var k := Find(members, name);
          if k < |members| then Some(Plan([k], Obj(RemoveAt(members, k)), None)) else None
        case ClearCall(_) => Some(Plan(Positions(|members|), Obj([]), None))
        case _ => None)
      case Arr(elements) => (
        match c
        case AppendCall(_, v) => Some(Plan([], Arr(elements + [v]), Some(v)))
        case ReplaceCall(_, ix, v) =>
          if ix < |elements| then Some(Plan([ix], Arr(elements[ix := v]), Some(v))) else None
        case RemoveAtCall(_, ix) =>
          if ix < |elements| then Some(Plan([ix], Arr(elements[..ix] + elements[ix + 1..]), None)) else None
        case ClearCall(_) => Some(Plan(Positions(|elements|), Arr([]), None))
        case _ => None)
  }

  ghost function Perform(h: Store, c: Call): Outcome
    requires c.p in h && (Inserts(c) ==> c.v in h)
  {
    var plan := PlanOf(h, c);
    if plan.None? then Done(h, false)
    else if !Indices(plan.value.idx, |Kids(h[c.p].body)|) then Crash
    else FreeThenLink(h, c.p, plan.value.idx, plan.value.body, plan.value.v)
  }

  /** What the calls do not check: the value put in is not the root above the container. */
  ghost predicate NotBeneathItself(h: Store, c: Call) {
    Inserts(c) && c.v in h && h[c.v].parent == None && HasValue(h, c.v) ==> !Inside(h, c.v, ValueAt(h, c.v), c.p)
  }

  ghost predicate Legal(h: Store, c: Call) {
    c.p in h && (Inserts(c) ==> c.v in h) && (c.SetCall? ==> IsName(c.name))
  }

  /** The plan drops exactly the children it frees, and keeps names and slots apart. */
  ghost predicate Fits(h: Store, p: Id, plan: Plan)
    requires p in h
  {
    && !plan.body.Scalar?
    && Indices(plan.idx, |Kids(h[p].body)|) && OneSlot(Kids(plan.body)) && Named(plan.body)
    && (forall i :: 0 <= i < |Kids(h[p].body)| ==> (Dropped(h, p, plan.body, i) <==> i in plan.idx))
    && (forall k :: k in Kids(plan.body) ==> k in Kids(h[p].body) || plan.v == Some(k))
    && (plan.v.Some? ==> plan.v.value in Kids(plan.body))
  }

  lemma RootIsNoKid(h: Store, p: Id, v: Id)
    requires Linked(h) && p in h && v in h && h[v].parent == None
    ensures v !in Kids(h[p].body)
  {
    hide Kids;
  }

  lemma ObjKids(members: seq<Item<Id>>)
    ensures var kids := Kids(Obj(members));
            |kids| == |members| && forall i :: 0 <= i < |members| ==> kids[i] == members[i].value
  {
  }

  /** Child k is replaced by the new id v, all others stay. */
  lemma ReplacedKids(before: seq<Id>, after: seq<Id>, k: nat, v: Id)
    requires OneSlot(before) && v !in before && k < |before| && |after| == |before| && after[k] == v
    requires forall i :: 0 <= i < |before| && i != k ==> after[i] == before[i]
    ensures OneSlot(after) && v in after && forall x :: x in after ==> x in before || x == v
    ensures forall i :: 0 <= i < |before| ==> (before[i] !in after <==> i == k)
  {
    forall i | 0 <= i < |before| ensures before[i] !in after <==> i == k {
      if i != k { assert after[i] == before[i]; }
    }
  }

  /** The new id v comes last. */
  lemma AppendedKids(before: seq<Id>, after: seq<Id>, v: Id)
    requires OneSlot(before) && v !in before && after == before + [v]
    ensures OneSlot(after) && v in after && forall x :: x in after ==> x in before || x == v
    ensures forall i :: 0 <= i < |before| ==> before[i] in after
  {
    assert after[|before|] == v;
    forall i | 0 <= i < |before| ensures before[i] in after { assert after[i] == before[i]; }
  }

  /** The last child takes the place of child k. */
  lemma RemovedKids(before: seq<Id>, after: seq<Id>, k: nat)
    requires OneSlot(before) && k < |before| && |after| == |before| - 1
    requires forall i :: 0 <= i < |after| ==> after[i] == before[if i == k then |before| - 1 else i]
    ensures OneSlot(after) && forall x :: x in after ==> x in before
    ensures forall i :: 0 <= i < |before| ==> (before[i] !in after <==> i == k)
  {
    forall i | 0 <= i < |before| ensures before[i] !in after <==> i == k {
      if i != k { assert after[if i == |before| - 1 then k else i] == before[i]; }
    }
  }

  /** The children after child k move up. */
  lemma ShiftedKids(before: seq<Id>, after: seq<Id>, k: nat)
    requires OneSlot(before) && k < |before| && after == before[..k] + before[k + 1..]
    ensures OneSlot(after) && forall x :: x in after ==> x in before
    ensures forall i :: 0 <= i < |before| ==> (before[i] !in after <==> i == k)
  {
    assert forall i :: 0 <= i < |after| ==> after[i] == before[if i < k then i else i + 1];
    forall i | 0 <= i < |before| ensures before[i] !in after <==> i == k {
      if i != k { assert after[if i < k then i else i - 1] == before[i]; }
    }
  }

  lemma SlotsOf(h: Store, p: Id)
    requires IsForest(h) && p in h
    ensures OneSlot(Kids(h[p].body)) && Named(h[p].body) && Linked(h)
  {
  }

  lemma SetNamed(members: seq<Item<Id>>, name: string, v: Id)
    requires Named(Obj(members)) && IsName(name)
    ensures Named(Obj(Set(members, name, v)))
  {
  }

  lemma SetFits(h: Store, p: Id, name: string, v: Id)
    requires IsForest(h) && Legal(h, SetCall(p, name, v)) && h[v].parent == None && h[p].body.Obj?
    ensures Fits(h, p, PlanOf(h, SetCall(p, name, v)).value)
  {
    hide IsForest, Kids, OneSlot, Named, Find;
    SlotsOf(h, p);
    RootIsNoKid(h, p, v);
    var ms := h[p].body.members;
    var k, r := Find(ms, name), Set(ms, name, v);
    ObjKids(ms);
    ObjKids(r);
    SetNamed(ms, name, v);
    if k < |ms| {
      ReplacedKids(Kids(Obj(ms)), Kids(Obj(r)), k, v);
    } else {
      assert Kids(Obj(r)) == Kids(Obj(ms)) + [v];
      AppendedKids(Kids(Obj(ms)), Kids(Obj(r)), v);
    }
  }

  lemma RemoveNamed(members: seq<Item<Id>>, k: nat)
    requires Named(Obj(members)) && k < |members|
    ensures Named(Obj(RemoveAt(members, k)))
  {
    RemoveAtLookup(members, k, "");
  }

  lemma RemoveFits(h: Store, p: Id, name: string)
    requires IsForest(h) && p in h && h[p].body.Obj? && Has(h[p].body.members, name)
    ensures Fits(h, p, PlanOf(h, RemoveCall(p, name)).value)
  {
    hide IsForest, Kids, OneSlot, Named, Find, RemoveAt;
    SlotsOf(h, p);
    var ms := h[p].body.members;
    var k := Find(ms, name);
    var r := RemoveAt(ms, k);
    ObjKids(ms);
    ObjKids(r);
    RemoveNamed(ms, k);
    RemovedKids(Kids(Obj(ms)), Kids(Obj(r)), k);
  }

  lemma AppendFits(h: Store, p: Id, v: Id)
    requires IsForest(h) && Legal(h, AppendCall(p, v)) && h[v].parent == None && h[p].body.Arr?
    ensures Fits(h, p, PlanOf(h, AppendCall(p, v)).value)
  {
    hide IsForest, OneSlot;
    SlotsOf(h, p);
    RootIsNoKid(h, p, v);
    AppendedKids(h[p].body.elements, h[p].body.elements + [v], v);
  }

  lemma ReplaceFits(h: Store, p: Id, ix: nat, v: Id)
    requires IsForest(h) && Legal(h, ReplaceCall(p, ix, v)) && h[v].parent == None
    requires h[p].body.Arr? && ix < |h[p].body.elements|
    ensures Fits(h, p, PlanOf(h, ReplaceCall(p, ix, v)).value)
  {
    hide IsForest, OneSlot;
    SlotsOf(h, p);
    RootIsNoKid(h, p, v);
    ReplacedKids(h[p].body.elements, h[p].body.elements[ix := v], ix, v);
  }

  lemma RemoveAtFits(h: Store, p: Id, ix: nat)
    requires IsForest(h) && p in h && h[p].body.Arr? && ix < |h[p].body.elements|
    ensures Fits(h, p, PlanOf(h, RemoveAtCall(p, ix)).value)
  {
    hide IsForest, OneSlot;
    SlotsOf(h, p);
    var e := h[p].body.elements;
    ShiftedKids(e, e[..ix] + e[ix + 1..], ix);
  }

  lemma PlanFits(h: Store, c: Call)
    requires IsForest(h) && Legal(h, c) && PlanOf(h, c).Some?
    ensures Fits(h, c.p, PlanOf(h, c).value)
    ensures PlanOf(h, c).value.v == if Inserts(c) then Some(c.v) else None
    ensures Inserts(c) ==> h[c.v].parent == None
  {
    hide IsForest, Fits;
    match h[c.p].body {
      case Obj(_) =>
        match c {
          case SetCall(p, name, v) => SetFits(h, p, name, v);
          case RemoveCall(p, name) => RemoveFits(h, p, name);
          case ClearCall(p) => ClearFits(h, p);
          case _ =>
        }
      case Arr(_) =>
        match c {
          case AppendCall(p, v) => AppendFits(h, p, v);
          case ReplaceCall(p, ix, v) => ReplaceFits(h, p, ix, v);
          case RemoveAtCall(p, ix) => RemoveAtFits(h, p, ix);
          case ClearCall(p) => ClearFits(h, p);
          case _ =>
        }
      case Scalar(_) =>
    }
  }

  lemma ClearFits(h: Store, p: Id)
    requires p in h && !h[p].body.Scalar?
    ensures Fits(h, p, PlanOf(h, ClearCall(p)).value)
  {
    var idx := PlanOf(h, ClearCall(p)).value.idx;
    forall i | 0 <= i < |Kids(h[p].body)| ensures i in idx { assert idx[i] == i; }
  }

  /** A call crashes on nothing, and does what its plan says. */
  lemma PerformIsChange(h: Store, c: Call)
    requires IsForest(h) && Legal(h, c) && NotBeneathItself(h, c) && PlanOf(h, c).Some?
    ensures var plan := PlanOf(h, c).value;
            && Sound(h, c.p, ValueAt(h, c.p), plan.body, plan.v)
            && Perform(h, c) == Done(Change(h, c.p, ValueAt(h, c.p), plan.body, plan.v), true)
  {
    hide Linked, Rooted, Kids, Subs, OneSlot, Named, PlanOf, Change, FreeThenLink, Dropped, Is;
    var plan := PlanOf(h, c).value;
    PlanFits(h, c);
    LinkIsChange(h, c.p, ValueAt(h, c.p), plan.idx, plan.body, plan.v);
  }

  /** Every call keeps the forest and crashes on nothing; when it refuses, nothing changes. */
  lemma PerformKeepsForest(h: Store, c: Call)
    requires IsForest(h) && Legal(h, c) && NotBeneathItself(h, c)
    ensures Perform(h, c).Done? && IsForest(Perform(h, c).store)
    ensures Perform(h, c).ok <==> PlanOf(h, c).Some?
    ensures !Perform(h, c).ok ==> Perform(h, c).store == h
  {
    hide IsForest, PlanOf, Change, FreeThenLink, Sound;
    if PlanOf(h, c).Some? {
      var plan := PlanOf(h, c).value;
      PerformIsChange(h, c);
      ForestHasValue(h, c.p);
      ChangeKeepsForest(h, c.p, ValueAt(h, c.p), plan.body, plan.v);
    }
  }

  lemma ForestHasValue(h: Store, p: Id)
    requires IsForest(h) && p in h
    ensures HasValue(h, p)
  {
  }

  // ---------------------------------------------------------------- what the calls mean

  /** The value of the container after a call, from its value before and that of what is put
      in. */
  function Meant(c: Call, u: Value, w: Value): Value {
    match c
    case SetCall(_, name, _) => if u.Object? then Object(Set(u.members, name, w)) else u
    case RemoveCall(_, name) =>
      if u.Object? && Remove(u.members, name).Some? then Object(Remove(u.members, name).value) else u
    case AppendCall(_, _) => if u.Array? then Array(u.elements + [w]) else u
    case ReplaceCall(_, ix, _) => if u.Array? && ix < |u.elements| then Array(u.elements[ix := w]) else u
    case RemoveAtCall(_, ix) =>
      if u.Array? && ix < |u.elements| then Array(u.elements[..ix] + u.elements[ix + 1..]) else u
    case ClearCall(_) => if u.Object? then Object([]) else if u.Array? then Array([]) else u
  }

  /** What the calls on an array mean, element by element. */
  lemma ArrayLaws(c: Call, u: Value, w: Value)
    requires u.Array?
    ensures c.AppendCall? ==>
              var r := Meant(c, u, w);
              && r.Array? && |r.elements| == |u.elements| + 1 && r.elements[|u.elements|] == w
              && forall k :: 0 <= k < |u.elements| ==> r.elements[k] == u.elements[k]
    ensures c.ReplaceCall? && c.ix < |u.elements| ==>
              var r := Meant(c, u, w);
              && r.Array? && |r.elements| == |u.elements|
              && forall k :: 0 <= k < |u.elements| ==> r.elements[k] == if k == c.ix then w else u.elements[k]
    ensures c.RemoveAtCall? && c.ix < |u.elements| ==>
              var r := Meant(c, u, w);
              && r.Array? && |r.elements| == |u.elements| - 1
              && forall k :: 0 <= k < |r.elements| ==> r.elements[k] == u.elements[if k < c.ix then k else k + 1]
  {
  }

  /** Child i of the new body is what U has there: an old child's value, or that of v. */
  ghost predicate Matches(h: Store, p: Id, u: Value, body: Body, v: Option<Id>, U: Value, i: nat)
    requires Is(h, p, u) && i < |Kids(body)| && i < |Subs(U)|
  {
    || (v == Some(Kids(body)[i]) && HasValue(h, v.value) && Subs(U)[i] == ValueAt(h, v.value))
    || exists j :: 0 <= j < |Subs(u)| && Kids(h[p].body)[j] == Kids(body)[i] && Subs(u)[j] == Subs(U)[i]
  }

  /** The changed container has the value that matches. */
  lemma ChangedIs(h: Store, p: Id, u: Value, body: Body, v: Option<Id>, U: Value)
    requires Sound(h, p, u, body, v) && Shape(body, U) && |Kids(body)| == |Subs(U)|
    requires forall i :: 0 <= i < |Subs(U)| ==> Matches(h, p, u, body, v, U, i)
    ensures Is(Change(h, p, u, body, v), p, U)
  {
    hide Subs, Kids, Shape, Named, Linked, Dead;
    var h' := Change(h, p, u, body, v);
    PAlive(h, p, u, body, v);
    forall i | 0 <= i < |Subs(U)| ensures Is(h', Kids(body)[i], Subs(U)[i]) {
      assert Matches(h, p, u, body, v, U, i);
      if v == Some(Kids(body)[i]) && Subs(U)[i] == ValueAt(h, v.value) {
        NewKid(h, p, u, body, v);
      } else {
        var j :| 0 <= j < |Subs(u)| && Kids(h[p].body)[j] == Kids(body)[i] && Subs(u)[j] == Subs(U)[i];
        KeptKid(h, p, u, body, v, j);
      }
    }
  }

  lemma {:induction false} SameFindByNames<V, W>(a: seq<Item<V>>, b: seq<Item<W>>, name: string)
    requires |a| == |b| && forall i :: 0 <= i < |a| ==> a[i].name == b[i].name
    ensures Find(a, name) == Find(b, name)
  {
    if a != [] { SameFindByNames(a[1..], b[1..], name); }
  }

  lemma ObjectSubs(members: seq<Item<Value>>)
    ensures var us := Subs(Object(members));
            |us| == |members| && forall i :: 0 <= i < |members| ==> us[i] == members[i].value
  {
  }

  /** The members of an object value are those of its node. */
  lemma ObjectNode(h: Store, p: Id, u: Value)
    requires Is(h, p, u) && h[p].body.Obj?
    ensures p in h && u.Object? && |u.members| == |h[p].body.members|
    ensures forall i :: 0 <= i < |u.members| ==> u.members[i].name == h[p].body.members[i].name
  {
  }

  lemma SetMatches(h: Store, p: Id, u: Value, name: string, v: Id)
    requires Is(h, p, u) && h[p].body.Obj? && HasValue(h, v)
    ensures u.Object?
    ensures var body, U := Obj(Set(h[p].body.members, name, v)), Object(Set(u.members, name, ValueAt(h, v)));
            && Shape(body, U) && |Kids(body)| == |Subs(U)|
            && forall i :: 0 <= i < |Subs(U)| ==> Matches(h, p, u, body, Some(v), U, i)
  {
    hide Find, Kids, Subs, Is;
    ObjectNode(h, p, u);
    var ms := h[p].body.members;
    SameFindByNames(ms, u.members, name);
    var ms', us' := Set(ms, name, v), Set(u.members, name, ValueAt(h, v));
    var body, U := Obj(ms'), Object(us');
    ObjKids(ms);
    ObjKids(ms');
    ObjectSubs(u.members);
    ObjectSubs(us');
    forall i | 0 <= i < |us'| ensures Matches(h, p, u, body, Some(v), U, i) {
      if i < |ms| && i != Find(ms, name) {
        assert Kids(h[p].body)[i] == Kids(body)[i] && Subs(u)[i] == Subs(U)[i];
      }
    }
  }

  lemma RemoveMatches(h: Store, p: Id, u: Value, name: string)
    requires Is(h, p, u) && h[p].body.Obj? && Has(h[p].body.members, name)
    ensures u.Object? && Has(u.members, name)
    ensures var k := Find(u.members, name);
            k < |h[p].body.members|
            && var body, U := Obj(RemoveAt(h[p].body.members, k)), Object(RemoveAt(u.members, k));
               k == Find(h[p].body.members, name) && Shape(body, U) && |Kids(body)| == |Subs(U)|
               && forall i :: 0 <= i < |Subs(U)| ==> Matches(h, p, u, body, None, U, i)
  {
    hide Find, Kids, Subs, Is, RemoveAt;
    ObjectNode(h, p, u);
    var ms := h[p].body.members;
    SameFindByNames(ms, u.members, name);
    var k, last := Find(ms, name), |ms| - 1;
    var ms', us' := RemoveAt(ms, k), RemoveAt(u.members, k);
    var body, U := Obj(ms'), Object(us');
    ObjKids(ms);
    ObjKids(ms');
    ObjectSubs(u.members);
    ObjectSubs(us');
    forall i | 0 <= i < |us'| ensures Matches(h, p, u, body, None, U, i) {
      var j := if i == k then last else i;
      assert Kids(h[p].body)[j] == Kids(body)[i] && Subs(u)[j] == Subs(U)[i];
    }
  }

  lemma ClearMatches(h: Store, p: Id, u: Value)
    requires Is(h, p, u) && h[p].body.Obj?
    ensures u.Object? && Shape(Obj([]), Object([])) && |Kids(Obj([]))| == |Subs(Object([]))| == 0
  {
  }

  lemma ArrayMatches(h: Store, c: Call, u: Value)
    requires Legal(h, c) && Is(h, c.p, u) && h[c.p].body.Arr? && PlanOf(h, c).Some? && (Inserts(c) ==> HasValue(h, c.v))
    ensures var plan, U := PlanOf(h, c).value, Meant(c, u, if Inserts(c) then ValueAt(h, c.v) else Null);
            && Shape(plan.body, U) && |Kids(plan.body)| == |Subs(U)|
            && forall i :: 0 <= i < |Subs(U)| ==> Matches(h, c.p, u, plan.body, plan.v, U, i)
  {
    hide Is, Matches, Distinct;
    ArrayNode(h, c.p, u);
    match c {
      case AppendCall(_, v) => AppendMatches(h, c.p, u, v);
      case ReplaceCall(_, ix, v) => if ix < |u.elements| { ReplaceMatches(h, c.p, u, ix, v); }
      case RemoveAtCall(_, ix) => if ix < |u.elements| { RemoveAtMatches(h, c.p, u, ix); }
      case _ =>
    }
  }

  lemma ArrayNode(h: Store, p: Id, u: Value)
    requires Is(h, p, u) && h[p].body.Arr?
    ensures p in h && u.Array? && |u.elements| == |h[p].body.elements|
  {
  }

  /** Child i of the new body is child j of the old one. */
  lemma SameChild(h: Store, p: Id, u: Value, body: Body, v: Option<Id>, U: Value, i: nat, j: nat)
    requires Is(h, p, u) && h[p].body.Arr? && body.Arr? && u.Array? && U.Array?
    requires |body.elements| == |U.elements| && i < |U.elements|
    requires j < |h[p].body.elements| == |u.elements|
    requires body.elements[i] == h[p].body.elements[j] && U.elements[i] == u.elements[j]
    ensures Matches(h, p, u, body, v, U, i)
  {
    assert Kids(h[p].body)[j] == Kids(body)[i] && Subs(u)[j] == Subs(U)[i];
  }

  lemma AppendMatches(h: Store, p: Id, u: Value, v: Id)
    requires Is(h, p, u) && h[p].body.Arr? && u.Array? && HasValue(h, v)
    ensures var body, U := Arr(h[p].body.elements + [v]), Array(u.elements + [ValueAt(h, v)]);
            && Shape(body, U) && |Kids(body)| == |Subs(U)|
            && forall i :: 0 <= i < |Subs(U)| ==> Matches(h, p, u, body, Some(v), U, i)
  {
    var body, U := Arr(h[p].body.elements + [v]), Array(u.elements + [ValueAt(h, v)]);
    forall i | 0 <= i < |Subs(U)| ensures Matches(h, p, u, body, Some(v), U, i) {
      if i < |u.elements| { SameChild(h, p, u, body, Some(v), U, i, i); }
    }
  }

  lemma ReplaceMatches(h: Store, p: Id, u: Value, ix: nat, v: Id)
    requires Is(h, p, u) && h[p].body.Arr? && u.Array? && HasValue(h, v)
    requires ix < |h[p].body.elements| == |u.elements|
    ensures var body, U := Arr(h[p].body.elements[ix := v]), Array(u.elements[ix := ValueAt(h, v)]);
            && Shape(body, U) && |Kids(body)| == |Subs(U)|
            && forall i :: 0 <= i < |Subs(U)| ==> Matches(h, p, u, body, Some(v), U, i)
  {
    var body, U := Arr(h[p].body.elements[ix := v]), Array(u.elements[ix := ValueAt(h, v)]);
    forall i | 0 <= i < |Subs(U)| ensures Matches(h, p, u, body, Some(v), U, i) {
      if i != ix { SameChild(h, p, u, body, Some(v), U, i, i); }
    }
  }

  lemma RemoveAtMatches(h: Store, p: Id, u: Value, ix: nat)
    requires Is(h, p, u) && h[p].body.Arr? && u.Array? && ix < |h[p].body.elements| == |u.elements|
    ensures var e, us := h[p].body.elements, u.elements;
            var body, U := Arr(e[..ix] + e[ix + 1..]), Array(us[..ix] + us[ix + 1..]);
            && Shape(body, U) && |Kids(body)| == |Subs(U)|
            && forall i :: 0 <= i < |Subs(U)| ==> Matches(h, p, u, body, None, U, i)
  {
    var e, us := h[p].body.elements, u.elements;
    var body, U := Arr(e[..ix] + e[ix + 1..]), Array(us[..ix] + us[ix + 1..]);
    forall i | 0 <= i < |Subs(U)| ensures Matches(h, p, u, body, None, U, i) {
      SameChild(h, p, u, body, None, U, i, if i < ix then i else i + 1);
    }
  }

  /** x is in the tree that is put in. */
  ghost predicate Joined(h: Store, v: Option<Id>, x: Id) {
    v.Some? && HasValue(h, v.value) && Inside(h, v.value, ValueAt(h, v.value), x)
  }

  /** Between h and h' only the tree of p and the parent of the root v have changed, and the
      tree of p has only grown by v's and by new nodes. */
  ghost predicate Local(h: Store, h': Store, p: Id, u: Value, u': Value, v: Option<Id>) {
    && Is(h, p, u) && Is(h', p, u') && h'[p].parent == h[p].parent
    && (forall x :: x in h && !Inside(h, p, u, x) ==>
          x in h' && h'[x].body == h[x].body && (v != Some(x) ==> h'[x] == h[x]))
    && forall x :: Inside(h', p, u', x) ==> Inside(h, p, u, x) || x !in h || Joined(h, v, x)
  }

  lemma DeadIsInside(h: Store, p: Id, u: Value, body: Body, x: Id)
    requires Is(h, p, u)
    ensures Dead(h, p, u, body, x) ==> Inside(h, p, u, x)
  {
    hide Subs, Kids, Shape;
  }

  /** Outside the tree of p nothing changes but v. */
  lemma ChangeOutside(h: Store, p: Id, u: Value, body: Body, v: Option<Id>)
    requires Sound(h, p, u, body, v)
    ensures var h' := Change(h, p, u, body, v);
            && p in h' && h'[p] == Node(h[p].parent, body)
            && forall x :: x in h && !Inside(h, p, u, x) ==>
                 x in h' && h'[x].body == h[x].body && (v != Some(x) ==> h'[x] == h[x])
  {
    hide Subs, Kids, Shape, Named, Linked, Dead;
    PAlive(h, p, u, body, v);
    forall x ensures Dead(h, p, u, body, x) ==> Inside(h, p, u, x) {
      DeadIsInside(h, p, u, body, x);
    }
  }

  lemma ChangeIsLocal(h: Store, p: Id, u: Value, body: Body, v: Option<Id>, U: Value)
    requires Sound(h, p, u, body, v) && Shape(body, U) && |Kids(body)| == |Subs(U)|
    requires forall i :: 0 <= i < |Subs(U)| ==> Matches(h, p, u, body, v, U, i)
    ensures Local(h, Change(h, p, u, body, v), p, u, U, v)
  {
    hide Subs, Kids, Shape, Matches, Joined, Sound, Change;
    SoundIs(h, p, u, body, v);
    var h' := Change(h, p, u, body, v);
    ChangedIs(h, p, u, body, v, U);
    ChangeOutside(h, p, u, body, v);
    forall x | Inside(h', p, U, x) ensures Inside(h, p, u, x) || Joined(h, v, x) {
      if x != p {
        var i :| 0 <= i < |Subs(U)| && Inside(h', Kids(h'[p].body)[i], Subs(U)[i], x);
        InsideMatch(h, p, u, body, v, U, i, x);
      }
    }
  }

  /** The whole tree that is put in is inside p afterwards. */
  lemma ChangeJoins(h: Store, p: Id, u: Value, body: Body, v: Option<Id>, U: Value)
    requires Sound(h, p, u, body, v) && v.Some? && Is(Change(h, p, u, body, v), p, U)
    ensures forall x :: Joined(h, v, x) ==> Inside(Change(h, p, u, body, v), p, U, x)
  {
    hide Subs, Kids, Shape, Named, Linked, Dead;
    var h' := Change(h, p, u, body, v);
    NewKid(h, p, u, body, v);
    var i :| 0 <= i < |Kids(body)| && Kids(body)[i] == v.value;
    PAlive(h, p, u, body, v);
    OneValue(h', v.value, ValueAt(h, v.value), Subs(U)[i]);
  }

  lemma SoundIs(h: Store, p: Id, u: Value, body: Body, v: Option<Id>)
    requires Sound(h, p, u, body, v)
    ensures Is(h, p, u) && Inside(h, p, u, p)
  {
  }

  lemma InsideMatch(h: Store, p: Id, u: Value, body: Body, v: Option<Id>, U: Value, i: nat, x: Id)
    requires Sound(h, p, u, body, v) && i < |Kids(body)| && i < |Subs(U)| && Matches(h, p, u, body, v, U, i)
    requires Is(Change(h, p, u, body, v), Kids(body)[i], Subs(U)[i])
    requires Inside(Change(h, p, u, body, v), Kids(body)[i], Subs(U)[i], x)
    ensures Inside(h, p, u, x) || Joined(h, v, x)
  {
    hide Subs, Kids, Shape, Named, Linked, Dead, Change;
    if v == Some(Kids(body)[i]) && Subs(U)[i] == ValueAt(h, v.value) {
      NewKid(h, p, u, body, v);
    } else {
      var j :| 0 <= j < |Subs(u)| && Kids(h[p].body)[j] == Kids(body)[i] && Subs(u)[j] == Subs(U)[i];
      KeptKid(h, p, u, body, v, j);
    }
  }

  /** A call that succeeds has the effect on values that module Items and sequences say, and
      no other. */
  lemma PerformMeans(h: Store, c: Call, u: Value)
    requires IsForest(h) && Legal(h, c) && NotBeneathItself(h, c) && PlanOf(h, c).Some? && Is(h, c.p, u)
    ensures Perform(h, c).Done? && (Inserts(c) ==> HasValue(h, c.v))
    ensures var U := Meant(c, u, if Inserts(c) then ValueAt(h, c.v) else Null);
            Is(Perform(h, c).store, c.p, U)
            && Local(h, Perform(h, c).store, c.p, u, U, if Inserts(c) then Some(c.v) else None)
            && (Inserts(c) ==> forall x :: Joined(h, Some(c.v), x) ==> Inside(Perform(h, c).store, c.p, U, x))
  {
    hide IsForest, Is, Subs, Kids, Find, Change, Sound, Matches, Set, Shape, Fits;
    var plan := PlanOf(h, c).value;
    PerformIsChange(h, c);
    OneValue(h, c.p, u, ValueAt(h, c.p));
    if Inserts(c) { ForestHasValue(h, c.v); }
    match h[c.p].body {
      case Obj(_) =>
        match c {
          case SetCall(p, name, v) => SetMatches(h, p, u, name, v);
          case RemoveCall(p, name) => RemoveMatches(h, p, u, name);
          case ClearCall(p) => ClearMatches(h, p, u);
          case _ =>
        }
      case Arr(_) => ArrayMatches(h, c, u);
      case Scalar(_) =>
    }
    PlanFits(h, c);
    var U := Meant(c, u, if Inserts(c) then ValueAt(h, c.v) else Null);
    ChangeIsLocal(h, c.p, u, plan.body, plan.v, U);
    if Inserts(c) { ChangeJoins(h, c.p, u, plan.body, plan.v, U); }
  }

  // ---------------------------------------------------------------- inserting a root beneath itself

  /** The way down from a to p survives a change of p alone. */
  lemma {:induction false} WayDown(h: Store, h': Store, a: Id, u: Value, u': Value, p: Id)
    requires Is(h, a, u) && Is(h', a, u') && Inside(h, a, u, p)
    requires forall x :: x in h' && x != p && x in h ==> h'[x].body == h[x].body
    ensures Inside(h', a, u', p)
    decreases Depth(u)
  {
    hide Subs, Kids, Shape;
    if a != p {
      var i :| 0 <= i < |Subs(u)| && Inside(h, Kids(h[a].body)[i], Subs(u)[i], p);
      WayDown(h, h', Kids(h[a].body)[i], Subs(u)[i], Subs(u')[i], p);
    }
  }

  /** With p inside v and v a child of p, v cannot be a value. */
  lemma CycleHasNoValue(h: Store, h': Store, v: Id, u: Value, p: Id)
    requires Is(h, v, u) && Inside(h, v, u, p) && p in h' && v in Kids(h'[p].body)
    requires forall x :: x in h' && x != p && x in h ==> h'[x].body == h[x].body
    ensures !HasValue(h', v)
  {
    hide Subs, Kids, Shape;
    if HasValue(h', v) {
      var u' := ValueAt(h', v);
      WayDown(h, h', v, u, u', p);
      var w := InsideIs(h', v, u', p);
      var i :| 0 <= i < |Kids(h'[p].body)| && Kids(h'[p].body)[i] == v;
      OneValue(h', v, u', Subs(w)[i]);
    }
  }

  /** An insertion that the calls accept keeps the forest if and only if the value put in is
      not a root above the container. */
  lemma InsertExactly(h: Store, c: Call)
    requires IsForest(h) && Legal(h, c) && PlanOf(h, c).Some?
    ensures NotBeneathItself(h, c) <==> Perform(h, c).Done? && IsForest(Perform(h, c).store)
  {
    hide IsForest, PlanOf, Perform, Is, Kids;
    if NotBeneathItself(h, c) {
      PerformKeepsForest(h, c);
    } else if Perform(h, c).Done? {
      PerformBeneath(h, c);
      ForestHasAllValues(Perform(h, c).store);
    }
  }

  lemma ForestHasAllValues(h: Store)
    ensures IsForest(h) ==> forall x :: x in h ==> HasValue(h, x)
  {
  }

  lemma CountsAgree(h: Store, p: Id, u: Value)
    requires Is(h, p, u)
    ensures |Kids(h[p].body)| == |Subs(u)|
  {
  }

  lemma PerformBeneath(h: Store, c: Call)
    requires IsForest(h) && Legal(h, c) && PlanOf(h, c).Some? && !NotBeneathItself(h, c) && Perform(h, c).Done?
    ensures c.v in Perform(h, c).store && !HasValue(Perform(h, c).store, c.v)
  {
    hide PlanOf, Is, Kids, Subs, Rooted, Linked, OneSlot, Named, Under, FreeAll;
    var plan := PlanOf(h, c).value;
    PlanFits(h, c);
    var u := ValueAt(h, c.p);
    CountsAgree(h, c.p, u);
    forall x | Under(h, c.p, u, plan.idx, x) ensures Agree(h, h, x) { UnderIsLive(h, c.p, u, plan.idx, x); }
    FreeAllExact(h, h, c.p, u, plan.idx);
    CycleHasNoValue(h, Perform(h, c).store, c.v, ValueAt(h, c.v), c.p);
  }

  /** An example: an array appended to itself. */
  lemma SelfAppendBreaks()
    ensures var h: Store := map[0 := Node(None, Arr([]))];
            && IsForest(h) && PlanOf(h, AppendCall(0, 0)).Some?
            && Perform(h, AppendCall(0, 0)).Done? && !IsForest(Perform(h, AppendCall(0, 0)).store)
  {
    var h: Store := map[0 := Node(None, Arr([]))];
    var c := AppendCall(0, 0);
    assert Is(h, 0, Array([]));
    OneValue(h, 0, Array([]), ValueAt(h, 0));
    InsertExactly(h, c);
  }
}
