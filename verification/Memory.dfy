/** The calls that free and link values, as they run: writes to one field after another. Each
    is proved against its step in module Ownership.
 */
module Memory {
  import opened Items
  import opened Values
  import opened Heap
  import opened Ownership
  import opened DotPaths
  import HeapPaths

  class Memory {
    var store: Store

    constructor ()
      ensures store == map[]
    {
      store := map[];
    }

    /** json_value_free; `u` is the value freed, and no node is met that was freed before. */
    method FreeValue(id: Id, ghost u: Value)
      requires Free(store, id, u).Some?
      modifies this
      ensures Free(old(store), id, u) == Some(store)
      decreases Depth(u), 1
    {
      hide Free, Subs, Kids, Shape, FreeAll;
      FreeOpens(store, id, u);
      var kids := Kids(store[id].body);
      FreeKids(kids, Positions(|kids|), u);
      store := store - {id};
    }

    /** The loop over the children at the given positions. */
    method FreeKids(kids: seq<Id>, idx: seq<nat>, ghost u: Value)
      requires |kids| == |Subs(u)| && forall n :: 0 <= n < |idx| ==> idx[n] < |Subs(u)|
      requires FreeAll(store, kids, Subs(u), idx, Depth(u)).Some?
      modifies this
      ensures FreeAll(old(store), kids, Subs(u), idx, Depth(u)) == Some(store)
      decreases Depth(u), 0
    {
      hide Free, Subs, Kids, Shape;
      ghost var us := Subs(u);
      assert idx[0..] == idx;
      for i := 0 to |idx|
        invariant FreeAll(store, kids, us, idx[i..], Depth(u)) == FreeAll(old(store), kids, us, idx, Depth(u))
      {
        assert idx[i..][0] == idx[i] && idx[i..][1..] == idx[i + 1..];
        FreeValue(kids[idx[i]], us[idx[i]]);
      }
      assert idx[|idx|..] == [];
    }

    /** The two writes of an insertion, and the one of a removal. */
    method Write(p: Id, body: Body, v: Option<Id>)
      requires p in store && (v.Some? ==> v.value in store)
      modifies this
      ensures store == Relink(old(store), p, body, v)
    {
      store := store[p := Node(store[p].parent, body)];
      if v.Some? {
        store := store[v.value := Node(Some(p), store[v.value].body)];
      }
    }

    /** json_object_set_value. */
    method SetValue(p: Id, name: string, v: Id) returns (ok: bool)
      requires p in store && store[p].body.Obj? && v in store && Perform(store, SetCall(p, name, v)).Done?
      modifies this
      ensures Perform(old(store), SetCall(p, name, v)) == Done(store, ok)
    {
      hide Find, FreeAll, Kids, Subs, Is;
      if store[v].parent.Some? {
        return false;
      }
      var members := store[p].body.members;
      var k := Find(members, name);
      FreeAt(p, if k < |members| then [k] else []);
      Write(p, Obj(Set(members, name, v)), Some(v));
      ok := true;
    }

    /** json_object_remove; in the table the last member takes the place of the one removed. */
    method RemoveValue(p: Id, name: string) returns (ok: bool)
      requires p in store && store[p].body.Obj? && Perform(store, RemoveCall(p, name)).Done?
      modifies this
      ensures Perform(old(store), RemoveCall(p, name)) == Done(store, ok)
    {
      hide Find, FreeAll, Kids, Subs, Is, RemoveAt;
      var members := store[p].body.members;
      var k := Find(members, name);
      if k == |members| {
        return false;
      }
      FreeAt(p, [k]);
      Write(p, Obj(RemoveAt(members, k)), None);
      ok := true;
    }

    /** json_array_append_value. */
    method AppendValue(p: Id, v: Id) returns (ok: bool)
      requires p in store && store[p].body.Arr? && v in store && Perform(store, AppendCall(p, v)).Done?
      modifies this
      ensures Perform(old(store), AppendCall(p, v)) == Done(store, ok)
    {
      hide Kids, Subs, Is;
      if store[v].parent.Some? {
        return false;
      }
      Write(p, Arr(store[p].body.elements + [v]), Some(v));
      ok := true;
    }

    /** json_array_replace_value. */
    method ReplaceValue(p: Id, ix: nat, v: Id) returns (ok: bool)
      requires p in store && store[p].body.Arr? && v in store && Perform(store, ReplaceCall(p, ix, v)).Done?
      modifies this
      ensures Perform(old(store), ReplaceCall(p, ix, v)) == Done(store, ok)
    {
      hide FreeAll, Kids, Subs, Is;
      var elements := store[p].body.elements;
      if store[v].parent.Some? || ix >= |elements| {
        return false;
      }
      FreeAt(p, [ix]);
      Write(p, Arr(elements[ix := v]), Some(v));
      ok := true;
    }

    /** json_array_remove. */
    method RemoveElement(p: Id, ix: nat) returns (ok: bool)
      requires p in store && store[p].body.Arr? && Perform(store, RemoveAtCall(p, ix)).Done?
      modifies this
      ensures Perform(old(store), RemoveAtCall(p, ix)) == Done(store, ok)
    {
      hide FreeAll, Kids, Subs, Is;
      var elements := store[p].body.elements;
      if ix >= |elements| {
        return false;
      }
      FreeAt(p, [ix]);
      Write(p, Arr(elements[..ix] + elements[ix + 1..]), None);
      ok := true;
    }

    /** json_object_clear and json_array_clear. */
    method Clear(p: Id) returns (ok: bool)
      requires p in store && !store[p].body.Scalar? && Perform(store, ClearCall(p)).Done?
      modifies this
      ensures Perform(old(store), ClearCall(p)) == Done(store, ok)
    {
      hide FreeAll, Subs, Is;
      var body := store[p].body;
      FreeAt(p, Positions(|Kids(body)|));
      Write(p, if body.Obj? then Obj([]) else Arr([]), None);
      ok := true;
    }

    /** Frees the children of p at the given positions. */
    method FreeAt(p: Id, idx: seq<nat>)
      requires p in store && Indices(idx, |Kids(store[p].body)|) && HasValue(store, p)
      requires FreedAt(store, p, idx).Some?
      modifies this
      ensures FreedAt(old(store), p, idx) == Some(store)
    {
      hide FreeAll, Kids, Subs, Is;
      ghost var u := ValueAt(store, p);
      CountsAgree(store, p, u);
      FreeKids(Kids(store[p].body), idx, u);
    }

    /** json_object_dotremove. */
    method DotRemove(p: Id, path: string) returns (ok: bool)
      requires p in store && HeapPaths.DotRemoveAt(store, p, path).Done?
      modifies this
      ensures HeapPaths.DotRemoveAt(old(store), p, path) == Done(store, ok)
      decreases |path|
    {
      hide FirstDot, Find, Perform;
      if !store[p].body.Obj? {
        return false;  // json_value_get_object gives NULL
      }
      if !IsDotted(path) {
        ok := RemoveValue(p, path);
        return;
      }
      var members := store[p].body.members;
      var k := Find(members, Head(path));
      if k == |members| {
        return false;
      }
      HeapPaths.RestIsShorter(path);
      ok := DotRemove(members[k].value, Rest(path));
    }
  }

  ghost function FreedAt(h: Store, p: Id, idx: seq<nat>): Option<Store>
    requires p in h && Indices(idx, |Kids(h[p].body)|) && HasValue(h, p)
  {
    var u := ValueAt(h, p);
    FreeAll(h, Kids(h[p].body), Subs(u), idx, Depth(u))
  }

  lemma FreeOpens(h: Store, id: Id, u: Value)
    requires Free(h, id, u).Some?
    ensures id in h && |Kids(h[id].body)| == |Subs(u)|
    ensures var r := FreeAll(h, Kids(h[id].body), Subs(u), Positions(|Subs(u)|), Depth(u));
            r.Some? && id in r.value && Free(h, id, u) == Some(r.value - {id})
  {
    hide Kids, Subs, Shape, FreeAll;
  }
}
