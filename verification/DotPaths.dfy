/** Dotted paths into nested objects: what a set or a removal does to every path. */
module DotPaths {
  import opened Items
  import opened Values

  // ---------------------------------------------------------------- paths

  /** strchr(p, '.'), or the length when there is no dot. */
  function FirstDot(p: string): (d: nat)
    ensures d <= |p| && (d < |p| ==> p[d] == '.')
    ensures forall j :: 0 <= j < d ==> p[j] != '.'
  {
    if p == "" || p[0] == '.' then 0 else 1 + FirstDot(p[1..])
  }

  predicate IsDotted(p: string) {
    FirstDot(p) < |p|
  }

  /** The name before the first dot. */
  function Head(p: string): string {
    p[..FirstDot(p)]
  }

  function Rest(p: string): string
    requires IsDotted(p)
  {
    p[FirstDot(p) + 1..]
  }

  /** When q goes on from p with a dot, what follows the dot. */
  function After(q: string, p: string): Option<string> {
    if |p| < |q| && q[..|p|] == p && q[|p|] == '.' then Some(q[|p| + 1..]) else None
  }

  lemma FirstDotIs(p: string, d: nat)
    requires d <= |p| && (d < |p| ==> p[d] == '.') && forall j :: 0 <= j < d ==> p[j] != '.'
    ensures FirstDot(p) == d
  {
  }

  /** Paths with different heads have nothing to do with each other. */
  lemma HeadsApart(q: string, p: string)
    requires Head(q) != Head(p)
    ensures q != p && After(q, p) == None && After(p, q) == None
  {
    HeadOfPrefix(q, p);
    HeadOfPrefix(p, q);
  }

  lemma HeadOfPrefix(q: string, p: string)
    ensures After(q, p).Some? ==> Head(q) == Head(p)
  {
    if After(q, p) == None {
      return;
    }
    var d := FirstDot(p);
    assert forall j :: 0 <= j < d ==> q[j] == q[..|p|][j];
    if d < |p| { assert q[d] == q[..|p|][d]; }
    FirstDotIs(q, d);
    assert q[..d] == q[..|p|][..d];
  }

  /** What two paths start with in common cancels out. */
  lemma AfterCommon(h: string, a: string, b: string)
    ensures After(h + a, h + b) == After(a, b)
    ensures h + a == h + b <==> a == b
  {
    assert (h + a)[|h|..] == a && (h + b)[|h|..] == b;
    if |b| < |a| {
      assert (h + a)[..|h + b|] == h + a[..|b|];
      assert (h + a[..|b|])[|h|..] == a[..|b|];
      assert (h + a)[|h + b| + 1..] == a[|b| + 1..];
    }
  }

  /** Paths with the same head compare as what follows it. */
  lemma SameHead(q: string, p: string)
    requires Head(q) == Head(p)
    ensures IsDotted(q) && IsDotted(p) ==> After(q, p) == After(Rest(q), Rest(p)) && (q == p <==> Rest(q) == Rest(p))
    ensures IsDotted(q) && !IsDotted(p) ==> After(q, p) == Some(Rest(q)) && q != p && After(p, q) == None
    ensures !IsDotted(q) && !IsDotted(p) ==> q == p && After(q, p) == None
  {
    hide FirstDot;
    assert |Head(p)| == FirstDot(p) && |Head(q)| == FirstDot(q);
    if IsDotted(q) && IsDotted(p) {
      HeadAndRest(p);
      HeadAndRest(q);
      AfterCommon(Head(p) + ".", Rest(q), Rest(p));
    }
  }

  lemma HeadAndRest(p: string)
    requires IsDotted(p)
    ensures p == Head(p) + "." + Rest(p)
  {
  }

  // ---------------------------------------------------------------- the operations

  /** json_object_dotget_value. */
  function DotGet(members: seq<Item<Value>>, p: string): Option<Value>
    decreases |p|
  {
    if !IsDotted(p) then Lookup(members, p)
    else
      var x: Option<Value> := Lookup(members, Head(p));
      match x
      case Some(Object(inner)) => DotGet(inner, Rest(p))
      case _ => None
  }

  /** json_object_dotset_value, on a value without a parent. Missing objects on the way are
      made; anything else on the way is not overwritten. */
  function DotSet(members: seq<Item<Value>>, p: string, v: Value): Option<seq<Item<Value>>>
    decreases |p|
  {
    if !IsDotted(p) then Some(Set(members, p, v))
    else
      var inner :=
        var x: Option<Value> := Lookup(members, Head(p));
      match x
        case None => DotSet([], Rest(p), v)
        case Some(Object(inner)) => DotSet(inner, Rest(p), v)
        case _ => None;
      if inner.None? then None else Some(Set(members, Head(p), Object(inner.value)))
  }

  /** json_object_dotremove. */
  function DotRemove(members: seq<Item<Value>>, p: string): Option<seq<Item<Value>>>
    decreases |p|
  {
    if !IsDotted(p) then Remove(members, p)
    else
      var x: Option<Value> := Lookup(members, Head(p));
      match x
      case Some(Object(inner)) =>
        var r := DotRemove(inner, Rest(p));
        if r.None? then None else Some(Set(members, Head(p), Object(r.value)))
      case _ => None
  }

  // ---------------------------------------------------------------- setting

  /** A proper prefix of p leads to something that is not an object. */
  ghost predicate Blocked(members: seq<Item<Value>>, p: string) {
    exists q :: BlockedAt(members, p, q)
  }

  ghost predicate BlockedAt(members: seq<Item<Value>>, p: string, q: string) {
    After(p, q).Some? && DotGet(members, q).Some? && !DotGet(members, q).value.Object?
  }

  lemma {:induction false} SetSucceedsIff(members: seq<Item<Value>>, p: string, v: Value)
    ensures DotSet(members, p, v).Some? <==> !Blocked(members, p)
    decreases |p|
  {
    if !IsDotted(p) {
      forall q ensures !BlockedAt(members, p, q) { NoDotNoPrefix(p, q); }
    } else {
      var h, x := Head(p), Lookup(members, Head(p));
      HeadIsPrefix(p);
      if x.Some? && !x.value.Object? {
        assert BlockedAt(members, p, h);
      } else {
        var inner := if x.Some? then x.value.members else [];
        SetSucceedsIff(inner, Rest(p), v);
        BlockedInside(members, p, inner);
      }
    }
  }

  lemma NoDotNoPrefix(p: string, q: string)
    requires !IsDotted(p)
    ensures After(p, q) == None
  {
  }

  /** The head of a dotted path is an undotted proper prefix. */
  lemma HeadIsPrefix(p: string)
    requires IsDotted(p)
    ensures After(p, Head(p)) == Some(Rest(p)) && !IsDotted(Head(p)) && Head(Head(p)) == Head(p)
  {
    var h := Head(p);
    FirstDotIs(h, |h|);
  }

  lemma BlockedInside(members: seq<Item<Value>>, p: string, inner: seq<Item<Value>>)
    requires IsDotted(p)
    requires var x := Lookup(members, Head(p)); if x.Some? then x.value == Object(inner) else inner == []
    ensures Blocked(members, p) <==> Blocked(inner, Rest(p))
  {
    hide Lookup, FirstDot, BlockedAt;
    if q :| BlockedAt(members, p, q) {
      BlockDown(members, p, inner, q);
    }
    if q :| BlockedAt(inner, Rest(p), q) {
      BlockUp(members, p, inner, q);
    }
  }

  lemma BlockDown(members: seq<Item<Value>>, p: string, inner: seq<Item<Value>>, q: string)
    requires IsDotted(p) && BlockedAt(members, p, q)
    requires var x := Lookup(members, Head(p)); if x.Some? then x.value == Object(inner) else inner == []
    ensures IsDotted(q) && BlockedAt(inner, Rest(p), Rest(q))
  {
    hide Lookup, FirstDot;
    HeadOfPrefix(p, q);
    SameHead(p, q);
    UndottedHead(q);
  }

  lemma UndottedHead(q: string)
    ensures !IsDotted(q) ==> Head(q) == q
  {
  }

  lemma BlockUp(members: seq<Item<Value>>, p: string, inner: seq<Item<Value>>, q: string)
    requires IsDotted(p) && BlockedAt(inner, Rest(p), q)
    requires var x := Lookup(members, Head(p)); if x.Some? then x.value == Object(inner) else inner == []
    ensures BlockedAt(members, p, Head(p) + "." + q)
  {
    hide Lookup;
    var h := Head(p);
    var q' := h + "." + q;
    FirstDotIs(q', |h|);
    assert Head(q') == h && Rest(q') == q;
    SameHead(p, q');
    EmptyGet(q);
  }

  lemma EmptyGet(p: string)
    ensures DotGet([], p) == None
  {
  }

  /** What every path leads to after a set: v itself, inside v, an object on the way to it,
      or the same as before. */
  ghost function AfterSet(members: seq<Item<Value>>, p: string, v: Value, q: string): Option<Value> {
    if q == p then Some(v)
    else if After(q, p).Some? then Within(v, After(q, p).value)
    else if After(p, q).Some? then
      var inner := match DotGet(members, q) case Some(Object(m)) => m case _ => [];
      var r := DotSet(inner, After(p, q).value, v);
      if r.Some? then Some(Object(r.value)) else None
    else DotGet(members, q)
  }

  function Within(v: Value, p: string): Option<Value> {
    if v.Object? then DotGet(v.members, p) else None
  }

  /** Only the member called like the path's head matters. */
  lemma GetByHead(a: seq<Item<Value>>, b: seq<Item<Value>>, q: string)
    requires Lookup(a, Head(q)) == Lookup(b, Head(q))
    ensures DotGet(a, q) == DotGet(b, q)
  {
    hide Lookup;
    if !IsDotted(q) { assert Head(q) == q; }
  }

  /** The first step of a path into an object member. */
  lemma GetInside(members: seq<Item<Value>>, q: string, inner: seq<Item<Value>>)
    requires Lookup(members, Head(q)) == Some(Object(inner))
    ensures DotGet(members, q) == if IsDotted(q) then DotGet(inner, Rest(q)) else Some(Object(inner))
  {
    hide Lookup;
    if !IsDotted(q) { assert Head(q) == q; }
  }

  lemma {:induction false} SetThenGet(members: seq<Item<Value>>, p: string, v: Value, q: string)
    requires DotSet(members, p, v).Some?
    ensures DotGet(DotSet(members, p, v).value, q) == AfterSet(members, p, v, q)
    decreases |p|
  {
    hide Lookup, Set, FirstDot;
    var r, h := DotSet(members, p, v).value, Head(p);
    if !IsDotted(p) {
      assert h == p;
      SetLookup(members, p, v, Head(q));
      if Head(q) != h { HeadsApart(q, p); GetByHead(members, r, q); } else { SameHead(q, p); }
    } else {
      var x := Lookup(members, h);
      var inner := if x.Some? then x.value.members else [];
      var inner' := DotSet(inner, Rest(p), v).value;
      SetLookup(members, h, Object(inner'), Head(q));
      if Head(q) != h {
        HeadsApart(q, p);
        GetByHead(members, r, q);
      } else {
        SameHead(q, p);
        SameHead(p, q);
        GetInside(r, q, inner');
        if IsDotted(q) {
          SetThenGet(inner, Rest(p), v, Rest(q));
          AfterSetInside(members, p, v, q, inner);
        } else {
          HeadIsPrefix(p);
          assert Head(q) == q;
        }
      }
    }
  }

  lemma AfterSetInside(members: seq<Item<Value>>, p: string, v: Value, q: string, inner: seq<Item<Value>>)
    requires IsDotted(p) && IsDotted(q) && Head(q) == Head(p)
    requires var x := Lookup(members, Head(p)); if x.Some? then x.value == Object(inner) else inner == []
    ensures AfterSet(members, p, v, q) == AfterSet(inner, Rest(p), v, Rest(q))
  {
    hide Lookup, FirstDot;
    SameHead(q, p);
    SameHead(p, q);
    EmptyGet(Rest(q));
    assert DotGet(members, q) == DotGet(inner, Rest(q));
  }

  /** The laws of dotset, for paths p and q that are not prefixes of each other. */
  lemma SetLaws(members: seq<Item<Value>>, p: string, v: Value, q: string)
    requires DotSet(members, p, v).Some?
    ensures DotGet(DotSet(members, p, v).value, p) == Some(v)
    ensures q != p && After(q, p) == After(p, q) == None ==>
              DotGet(DotSet(members, p, v).value, q) == DotGet(members, q)
  {
    SetThenGet(members, p, v, p);
    SetThenGet(members, p, v, q);
  }

  // ---------------------------------------------------------------- removing

  lemma {:induction false} RemoveSucceedsIff(members: seq<Item<Value>>, p: string)
    ensures DotRemove(members, p).Some? <==> DotGet(members, p).Some?
    decreases |p|
  {
    hide Lookup, Set;
    if !IsDotted(p) {
      LookupFinds(members, p);
    } else {
      var x: Option<Value> := Lookup(members, Head(p));
      match x {
        case Some(Object(inner)) => RemoveSucceedsIff(inner, Rest(p));
        case _ =>
      }
    }
  }

  lemma LookupFinds(members: seq<Item<Value>>, name: string)
    ensures Lookup(members, name).Some? <==> Remove(members, name).Some?
  {
  }

  /** What every path leads to after a removal: nothing at p and inside it, an object on the
      way to it, and the same as before everywhere else. */
  ghost function AfterRemove(members: seq<Item<Value>>, p: string, q: string): Option<Value> {
    if q == p || After(q, p).Some? then None
    else if After(p, q).Some? then
      match DotGet(members, q)
      case Some(Object(inner)) =>
        var r := DotRemove(inner, After(p, q).value);
        if r.Some? then Some(Object(r.value)) else None
      case _ => None
    else DotGet(members, q)
  }

  lemma RemoveLookup(members: seq<Item<Value>>, name: string, x: string)
    requires Distinct(members) && Remove(members, name).Some?
    ensures Lookup(Remove(members, name).value, x) == if x == name then None else Lookup(members, x)
  {
    RemoveAtLookup(members, Find(members, name), x);
  }

  lemma FoundIsWellFormed(members: seq<Item<Value>>, name: string)
    requires WellFormed(Object(members)) && Lookup(members, name).Some?
    ensures WellFormed(Lookup(members, name).value)
  {
  }

  lemma {:induction false} RemoveThenGet(members: seq<Item<Value>>, p: string, q: string)
    requires WellFormed(Object(members)) && DotRemove(members, p).Some?
    ensures DotGet(DotRemove(members, p).value, q) == AfterRemove(members, p, q)
    decreases |p|
  {
    hide Lookup, Set, Remove, FirstDot;
    var r, h := DotRemove(members, p).value, Head(p);
    if !IsDotted(p) {
      assert h == p;
      RemoveLookup(members, p, Head(q));
      if Head(q) != h { HeadsApart(q, p); GetByHead(members, r, q); } else { SameHead(q, p); assert Head(q) == p; }
    } else {
      var inner := Lookup(members, h).value.members;
      var inner' := DotRemove(inner, Rest(p)).value;
      FoundIsWellFormed(members, h);
      SetLookup(members, h, Object(inner'), Head(q));
      if Head(q) != h {
        HeadsApart(q, p);
        GetByHead(members, r, q);
      } else {
        SameHead(q, p);
        SameHead(p, q);
        GetInside(r, q, inner');
        GetInside(members, q, inner);
        if IsDotted(q) {
          RemoveThenGet(inner, Rest(p), Rest(q));
        } else {
          HeadIsPrefix(p);
        }
      }
    }
  }

  /** The laws of dotremove: afterwards p leads nowhere, paths that do not go on from p lead
      somewhere if and only if they did, and paths unrelated to p lead where they did. */
  lemma RemoveLaws(members: seq<Item<Value>>, p: string, q: string)
    requires WellFormed(Object(members)) && DotRemove(members, p).Some?
    ensures DotGet(DotRemove(members, p).value, p) == None
    ensures q != p && After(q, p) == None ==>
              (DotGet(DotRemove(members, p).value, q).Some? <==> DotGet(members, q).Some?)
    ensures q != p && After(q, p) == After(p, q) == None ==>
              DotGet(DotRemove(members, p).value, q) == DotGet(members, q)
  {
    RemoveThenGet(members, p, p);
    RemoveThenGet(members, p, q);
    RemoveSucceedsIff(members, p);
    if After(p, q).Some? { PrefixOfFound(members, p, q); }
  }

  /** Everything on the way to a value is an object, which has the value on the rest of the
      way. */
  lemma {:induction false} PrefixOfFound(members: seq<Item<Value>>, p: string, q: string)
    requires DotGet(members, p).Some? && After(p, q).Some?
    ensures DotGet(members, q).Some? && DotGet(members, q).value.Object?
    ensures DotGet(DotGet(members, q).value.members, After(p, q).value) == DotGet(members, p)
    ensures DotRemove(DotGet(members, q).value.members, After(p, q).value).Some?
    decreases |p|
  {
    hide Lookup, Set, FirstDot, DotRemove;
    HeadOfPrefix(p, q);
    SameHead(p, q);
    SameHead(q, p);
    var inner := Lookup(members, Head(p)).value.members;
    GetInside(members, p, inner);
    GetInside(members, q, inner);
    RemoveSucceedsIff(inner, Rest(p));
    if IsDotted(q) {
      PrefixOfFound(inner, Rest(p), Rest(q));
    }
  }

  // ---------------------------------------------------------------- well-formedness

  lemma SetKeepsWellFormed(members: seq<Item<Value>>, name: string, v: Value)
    requires WellFormed(Object(members)) && WellFormed(v) && IsName(name)
    ensures WellFormed(Object(Set(members, name, v)))
  {
  }

  lemma HeadIsName(p: string)
    requires IsName(p)
    ensures IsName(Head(p)) && (IsDotted(p) ==> IsName(Rest(p)))
  {
  }

  /** Objects stay well formed under a set. */
  lemma {:induction false} DotSetKeepsWellFormed(members: seq<Item<Value>>, p: string, v: Value)
    requires WellFormed(Object(members)) && WellFormed(v) && IsName(p) && DotSet(members, p, v).Some?
    ensures WellFormed(Object(DotSet(members, p, v).value))
    decreases |p|
  {
    hide Lookup, Set, FirstDot, WellFormed;
    HeadIsName(p);
    if !IsDotted(p) {
      SetKeepsWellFormed(members, p, v);
    } else {
      var x := Lookup(members, Head(p));
      var inner := if x.Some? then x.value.members else [];
      if x.Some? { FoundIsWellFormed(members, Head(p)); } else { EmptyWellFormed(); }
      DotSetKeepsWellFormed(inner, Rest(p), v);
      SetKeepsWellFormed(members, Head(p), Object(DotSet(inner, Rest(p), v).value));
    }
  }

  lemma EmptyWellFormed()
    ensures WellFormed(Object([]))
  {
  }

  lemma {:induction false} DotRemoveKeepsWellFormed(members: seq<Item<Value>>, p: string)
    requires WellFormed(Object(members)) && IsName(p) && DotRemove(members, p).Some?
    ensures WellFormed(Object(DotRemove(members, p).value))
    decreases |p|
  {
    hide Lookup, Set, FirstDot, WellFormed, Remove;
    HeadIsName(p);
    if !IsDotted(p) {
      RemoveKeepsWellFormed(members, p);
    } else {
      var inner := Lookup(members, Head(p)).value.members;
      FoundIsWellFormed(members, Head(p));
      DotRemoveKeepsWellFormed(inner, Rest(p));
      SetKeepsWellFormed(members, Head(p), Object(DotRemove(inner, Rest(p)).value));
    }
  }

  lemma RemoveKeepsWellFormed(members: seq<Item<Value>>, name: string)
    requires WellFormed(Object(members)) && Remove(members, name).Some?
    ensures WellFormed(Object(Remove(members, name).value))
  {
    RemoveAtLookup(members, Find(members, name), name);
  }
}
