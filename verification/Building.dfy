/** New values in memory: the nodes that parsing and copying make, a container first and then
  each child, added to it.
 */
module Building {
  import opened Items
  import opened Values
  import opened Heap
  import opened Ownership
  import opened HeapPaths
  import Layout

  datatype Made = Made(store: Store, id: Id)

  /** What a json_value_init function makes: a scalar, or an empty container. */
  function Bare(u: Value): Body {
    match u
    case Array(_) => Arr([])
    case Object(_) => Obj([])
    case _ => Scalar(u)
  }

  /** parse_value, parse_array_value and parse_object_value, as to memory: the nodes for a value
      u that is read. None when a child cannot be added. */
  ghost function Build(h: Store, u: Value): Option<Made>
    decreases Depth(u), 1, 0
  {
    var n := NewId(h);
    BuildKids(h[n := Node(None, Bare(u))], u, n, 0)
  }

  /** The loop: children from i on are still to be made and added to n. */
  ghost function BuildKids(h: Store, u: Value, n: Id, i: nat): Option<Made>
    requires i <= |Subs(u)|
    decreases Depth(u), 0, |Subs(u)| - i
  {
    if i == |Subs(u)| then Some(Made(h, n))
    else
      var c := Build(h, Subs(u)[i]);
      if c.None? || n !in c.value.store || c.value.id !in c.value.store then None
      else
        var r := Perform(c.value.store, AddTo(u, n, i, c.value.id));
        if r.Crash? || !r.ok then None else BuildKids(r.store, u, n, i + 1)
  }

  /** json_array_add, or json_object_add: the names of an object are distinct. */
  function AddTo(u: Value, n: Id, i: nat, k: Id): (c: Call)
    requires i < |Subs(u)|
    ensures Inserts(c) && c.p == n && c.v == k
  {
    if u.Object? then SetCall(n, u.members[i].name, k) else AppendCall(n, k)
  }

  /** The value so far. */
  function Prefix(u: Value, i: nat): Value
    requires i <= |Subs(u)|
  {
    match u
    case Array(elements) => Array(elements[..i])
    case Object(members) => Object(members[..i])
    case _ => u
  }

  /** h' is h and, apart from it, a new root n whose value is u. */
  ghost predicate Beside(h: Store, h': Store, n: Id, u: Value) {
    && IsForest(h') && n !in h && Is(h', n, u) && h'[n].parent == None
    && (forall x :: x in h ==> x in h' && h'[x] == h[x])
    && forall x :: Inside(h', n, u, x) ==> x !in h
  }

  /** Building a value adds its nodes, apart from all others, and leaves a forest. */
  lemma {:induction false} BuildExact(h: Store, u: Value)
    requires IsForest(h) && Sane(u)
    ensures Build(h, u).Some?
    ensures var c := Build(h, u).value; Beside(h, c.store, c.id, u)
    decreases Depth(u), 1, 0
  {
    hide IsForest, Kids, Subs, BuildKids;
    var n := NewId(h);
    NewContainer(h, u, n);
    BuildKidsExact(h, h[n := Node(None, Bare(u))], u, n, 0);
    WholePrefix(u);
  }

  lemma WholePrefix(u: Value)
    ensures Prefix(u, |Subs(u)|) == u
  {
  }

  lemma NewContainer(h: Store, u: Value, n: Id)
    requires IsForest(h) && n !in h
    ensures Beside(h, h[n := Node(None, Bare(u))], n, Prefix(u, 0))
  {
    hide Kids, Subs, Shape, Named, Bare, Prefix, IsForest;
    BareFits(u);
    NewNodeKeepsForest(h, n, Bare(u));
  }

  lemma BareFits(u: Value)
    ensures Kids(Bare(u)) == [] && Named(Bare(u)) && (Bare(u).Scalar? ==> Layout.IsScalar(Bare(u).v))
    ensures Shape(Bare(u), Prefix(u, 0)) && Subs(Prefix(u, 0)) == []
    ensures Subs(u) != [] ==> u.Array? || u.Object?
  {
  }

  lemma {:induction false} BuildKidsExact(h0: Store, h: Store, u: Value, n: Id, i: nat)
    requires Sane(u) && i <= |Subs(u)| && Beside(h0, h, n, Prefix(u, i))
    ensures BuildKids(h, u, n, i).Some?
    ensures var c := BuildKids(h, u, n, i).value; c.id == n && Beside(h0, c.store, n, Prefix(u, |Subs(u)|))
    decreases Depth(u), 0, |Subs(u)| - i
  {
    hide IsForest, Kids, Subs, Is, Build, Beside, Inside, Prefix, AddTo, Sane;
    if i < |Subs(u)| {
      BesideForest(h0, h, n, Prefix(u, i));
      SaneSub(u, i);
      BuildExact(h, Subs(u)[i]);
      var c := Build(h, Subs(u)[i]).value;
      AddChild(h0, h, u, n, i, c.store, c.id);
      BuildKidsExact(h0, Perform(c.store, AddTo(u, n, i, c.id)).store, u, n, i + 1);
    }
  }

  lemma BesideForest(h0: Store, h: Store, n: Id, u: Value)
    requires Beside(h0, h, n, u)
    ensures IsForest(h)
  {
  }

  lemma SaneSub(u: Value, i: nat)
    requires Sane(u) && i < |Subs(u)|
    ensures Sane(Subs(u)[i]) && (u.Array? || u.Object?)
    ensures u.Object? ==> Distinct(u.members) && IsName(u.members[i].name)
  {
  }

  /** Adding child i to the value so far. */
  lemma AddChild(h0: Store, h: Store, u: Value, n: Id, i: nat, h2: Store, k: Id)
    requires Sane(u) && i < |Subs(u)| && Beside(h0, h, n, Prefix(u, i))
    requires Beside(h, h2, k, Subs(u)[i])
    ensures n in h2 && k in h2
    ensures var r := Perform(h2, AddTo(u, n, i, k));
            r.Done? && r.ok && Beside(h0, r.store, n, Prefix(u, i + 1))
  {
    hide IsForest, Kids, Subs, Perform, PlanOf, Is, AddTo, Prefix, Meant, Local, Legal, Sane;
    var P, w, c := Prefix(u, i), Subs(u)[i], AddTo(u, n, i, k);
    SaneSub(u, i);
    LiveNode(h2, k, w);
    assert Inside(h, n, P, n) && Inside(h2, k, w, k);
    SoFarKept(h, n, P, h2, k, w);
    NameFits(u, i, h2, n, k);
    OneValue(h2, k, w, ValueAt(h2, k));
    PerformKeepsForest(h2, c);
    PerformMeans(h2, c, P);
    NextPrefix(u, i, n, k);
    AddedBeside(h0, h, h2, n, P, k, w, Perform(h2, c).store, Prefix(u, i + 1));
  }

  /** The value so far is not affected by the next child. */
  lemma SoFarKept(h: Store, n: Id, P: Value, h2: Store, k: Id, w: Value)
    requires Is(h, n, P) && Beside(h, h2, k, w)
    ensures Is(h2, n, P) && forall x :: Inside(h2, n, P, x) <==> Inside(h, n, P, x)
    ensures n in h && n in h2 && h2[n] == h[n]
  {
    hide Kids, Subs, Shape;
    forall x | Inside(h, n, P, x) ensures x in h2 && x in h && h2[x].body == h[x].body {
      var wx := InsideIs(h, n, P, x);
    }
    Frame(h, h2, n, P);
  }

  lemma NameFits(u: Value, i: nat, h2: Store, n: Id, k: Id)
    requires i < |Subs(u)| && (u.Array? || u.Object?)
    requires u.Object? ==> Distinct(u.members) && IsName(u.members[i].name)
    requires Is(h2, n, Prefix(u, i)) && k in h2 && h2[k].parent == None
    ensures Legal(h2, AddTo(u, n, i, k)) && PlanOf(h2, AddTo(u, n, i, k)).Some?
  {
  }

  /** One more child: names are distinct, so the set adds. */
  lemma NextPrefix(u: Value, i: nat, n: Id, k: Id)
    requires i < |Subs(u)| && (u.Array? || u.Object?) && (u.Object? ==> Distinct(u.members))
    ensures Meant(AddTo(u, n, i, k), Prefix(u, i), Subs(u)[i]) == Prefix(u, i + 1)
  {
    if u.Object? {
      NextOfDistinct(u.members, i);
      assert u.members[i] == Item(u.members[i].name, Subs(u)[i]);
    } else {
      assert u.elements[..i + 1] == u.elements[..i] + [u.elements[i]];
    }
  }

  lemma AddedBeside(h0: Store, h: Store, h2: Store, n: Id, P: Value, k: Id, w: Value, h3: Store, Q: Value)
    requires Beside(h0, h, n, P) && Beside(h, h2, k, w) && IsForest(h3) && Local(h2, h3, n, P, Q, Some(k))
    requires forall x :: Inside(h2, n, P, x) <==> Inside(h, n, P, x)
    ensures Beside(h0, h3, n, Q)
  {
    hide IsForest, Kids, Subs, Shape;
    OneValue(h2, k, w, ValueAt(h2, k));
    assert Inside(h2, k, w, k);
  }
}
