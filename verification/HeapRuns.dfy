/** Whole runs of calls on values in memory. */
module HeapRuns {
  import opened Items
  import opened Values
  import opened Heap
  import opened Ownership
  import opened HeapPaths
  import Building
  import CText
  import DeepCopy
  import Layout
  import Parsed
  import Parser

  datatype Op =
    | NewOp(body: Body)                            // json_value_init_...
    | CallOp(c: Call)
    | DotSetOp(p: Id, path: string, v: Id)         // json_object_dotset_value
    | DotRemoveOp(p: Id, path: string)             // json_object_dotremove
    | CopyOp(id: Id)                               // json_value_deep_copy
    | ParseOp(text: string)                        // json_parse_string
    | FreeOp(id: Id)                               // json_value_free

  /** What a caller answers for: live arguments, freeing only roots, and not inserting a root
      beneath itself. A value that has a parent may be passed anywhere: it is refused. */
  ghost predicate Allowed(h: Store, op: Op) {
    match op
    case NewOp(body) => Kids(body) == [] && Named(body) && (body.Scalar? ==> Layout.IsScalar(body.v))
    case CallOp(c) => Legal(h, c) && NotBeneathItself(h, c)
    case DotSetOp(p, path, v) =>
      && p in h && v in h && IsName(path)
      && (h[v].parent == None && HasValue(h, v) ==> !Inside(h, v, ValueAt(h, v), p))
    case DotRemoveOp(p, path) => p in h
    case CopyOp(id) => id in h
    case ParseOp(text) => true
    case FreeOp(id) => id in h && h[id].parent == None
  }

  ghost function Step(h: Store, op: Op): Outcome
    requires Allowed(h, op)
  {
    match op
    case NewOp(body) => Done(h[NewId(h) := Node(None, body)], true)
    case CallOp(c) => Perform(h, c)
    case DotSetOp(p, path, v) => DotSetAt(h, p, path, v)
    case DotRemoveOp(p, path) => DotRemoveAt(h, p, path)
    case CopyOp(id) =>
      if !HasValue(h, id) then Crash
      else
        var c := DeepCopy.Copy(h, id, ValueAt(h, id));
        if c.None? then Crash else Done(c.value.store, true)
    case ParseOp(text) =>
      var v := Parser.ParseText(text);
      if v.None? then Done(h, false)
      else
        var r := Building.Build(h, v.value);
        if r.None? then Crash else Done(r.value.store, true)
    case FreeOp(id) =>
      if !HasValue(h, id) then Crash
      else
        var r := Free(h, id, ValueAt(h, id));
        if r.None? then Crash else Done(r.value, true)
  }

  ghost predicate AllowedRun(h: Store, ops: seq<Op>)
    decreases |ops|
  {
    ops != [] ==> Allowed(h, ops[0]) && (Step(h, ops[0]).Done? ==> AllowedRun(Step(h, ops[0]).store, ops[1..]))
  }

  ghost function Run(h: Store, ops: seq<Op>): Outcome
    requires AllowedRun(h, ops)
    decreases |ops|
  {
    if ops == [] then Done(h, true)
    else
      var r := Step(h, ops[0]);
      if r.Crash? then Crash else Run(r.store, ops[1..])
  }

  // ---------------------------------------------------------------- freeing a root

  lemma OutsideTree(h: Store, id: Id, u: Value, a: Id, w: Value)
    requires Linked(h) && Is(h, id, u) && Is(h, a, w) && h[id].parent == None && !Inside(h, id, u, a)
    ensures Is(WithoutTree(h, h, id, u), a, w)
  {
    hide Kids, Subs, Shape;
    forall x | Inside(h, a, w, x) ensures x in h && !Inside(h, id, u, x) {
      var wx := InsideIs(h, a, w, x);
      if Inside(h, id, u, x) {
        Nested(h, id, u, a, w, x);
        RootInside(h, a, w, id);
      }
    }
    Frame(h, WithoutTree(h, h, id, u), a, w);
  }

  /** Freeing a root frees exactly its tree, and what is left is a forest. */
  lemma FreeKeepsForest(h: Store, id: Id, u: Value)
    requires IsForest(h) && Is(h, id, u) && h[id].parent == None
    ensures Free(h, id, u) == Some(WithoutTree(h, h, id, u))
    ensures IsForest(WithoutTree(h, h, id, u))
  {
    hide Kids, Subs, Shape, Named;
    forall x | Inside(h, id, u, x) ensures Agree(h, h, x) { var w := InsideIs(h, id, u, x); }
    FreeExact(h, h, id, u);
    RestLinked(h, id, u);
    var h' := WithoutTree(h, h, id, u);
    forall a | a in h' ensures HasValue(h', a) {
      OutsideTree(h, id, u, a, ValueAt(h, a));
    }
  }

  lemma RestLinked(h: Store, id: Id, u: Value)
    requires IsForest(h) && Is(h, id, u) && h[id].parent == None
    ensures Linked(WithoutTree(h, h, id, u)) && Rooted(WithoutTree(h, h, id, u))
  {
    hide Kids, Subs, Shape, Named, Is, Inside;
    var h' := WithoutTree(h, h, id, u);
    forall q, i | q in h' && 0 <= i < |Kids(h'[q].body)|
      ensures Kids(h'[q].body)[i] in h' && h'[Kids(h'[q].body)[i]].parent == Some(q)
    {
      LeavesTree(h, id, u, q, i);
    }
    forall x | x in h' && h'[x].parent.Some?
      ensures h'[x].parent.value in h' && x in Kids(h'[h'[x].parent.value].body)
    {
      EntersTree(h, id, u, x);
    }
  }

  /** A child in the tree of a root has its container there too. */
  lemma LeavesTree(h: Store, id: Id, u: Value, q: Id, i: nat)
    requires Linked(h) && Is(h, id, u) && h[id].parent == None && q in h && i < |Kids(h[q].body)|
    ensures Inside(h, id, u, Kids(h[q].body)[i]) ==> Inside(h, id, u, q)
  {
    hide Kids, Subs, Shape;
    var k := Kids(h[q].body)[i];
    if Inside(h, id, u, k) {
      assert k != id;
      var p := UpInside(h, id, u, k);
    }
  }

  lemma EntersTree(h: Store, id: Id, u: Value, x: Id)
    requires IsForest(h) && Is(h, id, u) && x in h && h[x].parent.Some?
    ensures h[x].parent.value in h
    ensures Inside(h, id, u, h[x].parent.value) ==> Inside(h, id, u, x)
  {
    hide Kids, Subs, Shape, Named;
    var q := h[x].parent.value;
    if Inside(h, id, u, q) {
      var w := InsideIs(h, id, u, q);
      var i :| 0 <= i < |Kids(h[q].body)| && Kids(h[q].body)[i] == x;
      KidInside(h, q, w, i);
    }
  }

  // ---------------------------------------------------------------- runs

  lemma DotSetKeepsForest(h: Store, p: Id, path: string, v: Id)
    requires IsForest(h) && Allowed(h, DotSetOp(p, path, v))
    ensures DotSetAt(h, p, path, v).Done? && IsForest(DotSetAt(h, p, path, v).store)
  {
    hide IsForest, Is, Local, DotSetAt;
    ForestHasValue(h, p);
    ForestHasValue(h, v);
    var u, w := ValueAt(h, p), ValueAt(h, v);
    if h[v].parent.Some? {
      DotSetRefusesParent(h, p, path, v);
    } else {
      ObjectBody(h, p, u);
      if u.Object? { DotSetRefines(h, p, u, path, v, w); } else { NoObject(h, p, path, v); }
    }
  }

  lemma NoObject(h: Store, p: Id, path: string, v: Id)
    requires p in h && v in h && !h[p].body.Obj?
    ensures DotSetAt(h, p, path, v) == Done(h, false) && DotRemoveAt(h, p, path) == Done(h, false)
  {
  }

  lemma DotRemoveKeepsForest(h: Store, p: Id, path: string)
    requires IsForest(h) && p in h
    ensures DotRemoveAt(h, p, path).Done? && IsForest(DotRemoveAt(h, p, path).store)
  {
    hide IsForest, Is, Local, DotRemoveAt;
    ForestHasValue(h, p);
    var u := ValueAt(h, p);
    ObjectBody(h, p, u);
    if u.Object? { DotRemoveRefines(h, p, u, path); } else { NoObject(h, p, path, p); }
  }

  /** Parsing leaves a forest with one new root, whose value is the one that was read; nothing
      there before is touched. */
  lemma ParsedIsTree(h: Store, text: string)
    requires IsForest(h) && Parser.ParseText(text).Some?
    ensures var v := Parser.ParseText(text).value;
            Building.Build(h, v).Some? &&
            Building.Beside(h, Building.Build(h, v).value.store, Building.Build(h, v).value.id, v)
  {
    hide IsForest, Building.Build, Building.Beside, Parser.ParseValue, Sane;
    Parsed.ParseFits(text, if CText.StartsWith(text, 0, Parser.BOM) then 3 else 0, 0);
    Building.BuildExact(h, Parser.ParseText(text).value);
  }

  lemma StepKeepsForest(h: Store, op: Op)
    requires IsForest(h) && Allowed(h, op)
    ensures Step(h, op).Done? && IsForest(Step(h, op).store)
  {
    hide IsForest, Perform, DotSetAt, DotRemoveAt, Free, DeepCopy.Copy, Building.Build, Is, Inside, Parser.ParseText;
    match op {
      case NewOp(body) => NewNodeKeepsForest(h, NewId(h), body);
      case CallOp(c) => PerformKeepsForest(h, c);
      case DotSetOp(p, path, v) => DotSetKeepsForest(h, p, path, v);
      case DotRemoveOp(p, path) => DotRemoveKeepsForest(h, p, path);
      case CopyOp(id) =>
        ForestHasValue(h, id);
        DeepCopy.CopyExact(h, id, ValueAt(h, id));
      case ParseOp(text) => if Parser.ParseText(text).Some? { ParsedIsTree(h, text); }
      case FreeOp(id) =>
        ForestHasValue(h, id);
        FreeKeepsForest(h, id, ValueAt(h, id));
    }
  }

  /** Every allowed run keeps the forest: each live value in at most one slot, the one its
      parent pointer names, null exactly for roots, no freed value reachable, nothing freed
      twice. */
  lemma {:induction false} RunKeepsForest(h: Store, ops: seq<Op>)
    requires IsForest(h) && AllowedRun(h, ops)
    ensures Run(h, ops).Done? && IsForest(Run(h, ops).store)
    decreases |ops|
  {
    hide IsForest, Step, Allowed;
    if ops != [] {
      StepKeepsForest(h, ops[0]);
      RunKeepsForest(Step(h, ops[0]).store, ops[1..]);
    }
  }

  lemma RunFromNothing(ops: seq<Op>)
    requires AllowedRun(map[], ops)
    ensures Run(map[], ops).Done? && IsForest(Run(map[], ops).store)
  {
    hide Step, Allowed;
    RunKeepsForest(map[], ops);
  }

  /** In a forest a value has one slot at most, and its parent pointer is null exactly when it
      has none. */
  lemma OneSlotEach(h: Store, x: Id)
    requires IsForest(h) && x in h
    ensures forall p, i, q, j ::
              (p in h && q in h && 0 <= i < |Kids(h[p].body)| && 0 <= j < |Kids(h[q].body)|
               && Kids(h[p].body)[i] == x && Kids(h[q].body)[j] == x) ==> p == q && i == j
    ensures h[x].parent == None <==> forall p :: p in h ==> x !in Kids(h[p].body)
  {
    hide Kids;
    forall p, i, q, j |
      p in h && q in h && 0 <= i < |Kids(h[p].body)| && 0 <= j < |Kids(h[q].body)|
      && Kids(h[p].body)[i] == x && Kids(h[q].body)[j] == x
      ensures p == q && i == j
    {
      assert h[x].parent == Some(p) && h[x].parent == Some(q);
    }
  }
}
