/** Deep copies in memory. */
module DeepCopy {
  import opened Items
  import opened Values
  import opened Heap
  import opened Ownership
  import opened HeapPaths
  import opened Building
  import Compare
  import Layout
  import Printer

  function Empty(body: Body): Body {
    match body
    case Scalar(v) => body
    case Arr(_) => Arr([])
    case Obj(_) => Obj([])
  }

  /** json_value_deep_copy: a new container, then a copy of each child, added to it. None when
      it meets a freed node; the value u gives the shape of what is copied. */
  ghost function Copy(h: Store, id: Id, u: Value): Option<Made>
    decreases Depth(u), 1, 0
  {
    if id !in h || !Shape(h[id].body, u) then None
    else
      var n := NewId(h);
      CopyKids(h[n := Node(None, Empty(h[id].body))], id, u, n, 0)
  }

  /** The loop: children from i on are still to be copied into n. */
  ghost function CopyKids(h: Store, id: Id, u: Value, n: Id, i: nat): Option<Made>
    requires i <= |Subs(u)|
    decreases Depth(u), 0, |Subs(u)| - i
  {
    if i == |Subs(u)| then Some(Made(h, n))
    else if id !in h || i >= |Kids(h[id].body)| then None
    else
      var c := Copy(h, Kids(h[id].body)[i], Subs(u)[i]);
      if c.None? || n !in c.value.store || c.value.id !in c.value.store then None
      else
        var r := Perform(c.value.store, AddTo(u, n, i, c.value.id));
        if r.Crash? || !r.ok then None else CopyKids(r.store, id, u, n, i + 1)
  }

  /** A deep copy has the same value in new nodes, and the original is untouched. */
  lemma CopyExact(h: Store, id: Id, u: Value)
    requires IsForest(h) && Is(h, id, u)
    ensures Copy(h, id, u).Some?
    ensures var c := Copy(h, id, u).value; Beside(h, c.store, c.id, u)
  {
    hide IsForest, Is, Copy, Build, Beside, Sane;
    IsSane(h, id, u);
    BuildExact(h, u);
    CopyIsBuild(h, id, u);
  }

  /** Copying makes the nodes that building the value makes. */
  lemma {:induction false} CopyIsBuild(h: Store, id: Id, u: Value)
    requires IsForest(h) && Is(h, id, u)
    ensures Copy(h, id, u) == Build(h, u)
    decreases Depth(u), 1, 0
  {
    hide IsForest, Kids, Subs, Is, CopyKids, BuildKids, Beside, Prefix;
    var n := NewId(h);
    LiveNode(h, id, u);
    NewContainer(h, u, n);
    IsSane(h, id, u);
    EmptyIsBare(h[id].body, u);
    CopyKidsIsBuild(h, h[n := Node(None, Bare(u))], id, u, n, 0);
  }

  lemma EmptyIsBare(body: Body, u: Value)
    requires Shape(body, u)
    ensures Empty(body) == Bare(u)
  {
  }

  lemma {:induction false} CopyKidsIsBuild(h0: Store, h: Store, id: Id, u: Value, n: Id, i: nat)
    requires Is(h0, id, u) && i <= |Subs(u)| && Beside(h0, h, n, Prefix(u, i)) && Sane(u)
    ensures CopyKids(h, id, u, n, i) == BuildKids(h, u, n, i)
    decreases Depth(u), 0, |Subs(u)| - i
  {
    hide IsForest, Kids, Subs, Is, Copy, Build, Beside, Inside, Prefix, AddTo, Sane;
    if i < |Subs(u)| {
      StillThere(h0, h, id, u, n, Prefix(u, i), i);
      CopyIsBuild(h, Kids(h0[id].body)[i], Subs(u)[i]);
      SaneSub(u, i);
      BuildExact(h, Subs(u)[i]);
      var c := Build(h, Subs(u)[i]).value;
      AddChild(h0, h, u, n, i, c.store, c.id);
      CopyKidsIsBuild(h0, Perform(c.store, AddTo(u, n, i, c.id)).store, id, u, n, i + 1);
    }
  }

  lemma {:induction false} IsSane(h: Store, id: Id, u: Value)
    requires IsForest(h) && Is(h, id, u)
    ensures Sane(u)
    decreases Depth(u)
  {
    hide IsForest, Kids;
    LiveNode(h, id, u);
    forall i | 0 <= i < |Subs(u)| ensures Sane(Subs(u)[i]) { IsSane(h, Kids(h[id].body)[i], Subs(u)[i]); }
    NodeIsNamed(h, id);
    SaneWhole(h[id].body, u);
  }

  lemma NodeIsNamed(h: Store, id: Id)
    requires IsForest(h) && id in h
    ensures Named(h[id].body)
  {
  }

  lemma SaneWhole(body: Body, u: Value)
    requires Shape(body, u) && Named(body) && forall i :: 0 <= i < |Subs(u)| ==> Sane(Subs(u)[i])
    ensures Sane(u)
  {
    match u {
      case Array(elements) =>
        forall k | 0 <= k < |elements| ensures Sane(elements[k]) { assert Sane(Subs(u)[k]); }
      case Object(members) =>
        forall k | 0 <= k < |members| ensures Sane(members[k].value) { assert Sane(Subs(u)[k]); }
      case _ =>
    }
  }

  /** So a copy is equal to its source, and both are printed alike. */
  lemma CopyIsEqual(h: Store, id: Id, source: Value, copy: Value, level: nat, pretty: bool, slashes: bool)
    requires IsForest(h) && Is(h, id, source) && WellFormed(source)
    requires Copy(h, id, source).Some? && Is(Copy(h, id, source).value.store, Copy(h, id, source).value.id, copy)
    ensures Compare.Same(copy, source) && Compare.Same(source, copy)
    ensures Printer.Print(copy, level, pretty, slashes) == Printer.Print(source, level, pretty, slashes)
    ensures Is(Copy(h, id, source).value.store, id, source)
  {
    hide IsForest, Is, Copy, WellFormed, Compare.Same, Printer.Print, Inside;
    CopyExact(h, id, source);
    var c := Copy(h, id, source).value;
    OneValue(c.store, c.id, source, copy);
    Compare.SameReflexive(source);
    SourceKept(h, c.store, id, source);
  }

  lemma SourceKept(h: Store, h': Store, id: Id, u: Value)
    requires Is(h, id, u) && forall x :: x in h ==> x in h' && h'[x] == h[x]
    ensures Is(h', id, u)
  {
    hide Kids, Subs, Shape;
    forall x | Inside(h, id, u, x) ensures x in h' && x in h && h'[x].body == h[x].body {
      var wx := InsideIs(h, id, u, x);
    }
    Frame(h, h', id, u);
  }

  /** The original's children are still to be found. */
  lemma StillThere(h0: Store, h: Store, id: Id, u: Value, n: Id, w: Value, i: nat)
    requires Is(h0, id, u) && Beside(h0, h, n, w) && i < |Subs(u)|
    ensures IsForest(h) && id in h0 && id in h && h[id] == h0[id] && n in h
    ensures i < |Kids(h0[id].body)| && Is(h, Kids(h0[id].body)[i], Subs(u)[i])
  {
    hide Subs, Shape;
    SourceKept(h0, h, id, u);
  }
}
