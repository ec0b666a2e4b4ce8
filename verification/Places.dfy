/** Equality, validation and dotted paths, place by place: what they come to at every path into
  the values.
 */
module Places {
  import opened Items
  import opened Numbers
  import opened Values
  import opened Compare
  import DotPaths

  datatype Step = Member(name: string) | Element(i: nat)

  /** What a path leads to: a value, an element behind the end of an array, or nothing. */
  datatype Face = There(v: Value) | NoElement | Absent

  function Facing(v: Value, path: seq<Step>): Face
    decreases |path|
  {
    if path == [] then There(v)
    else
      match path[0]
      case Member(name) =>
        if v.Object? && Has(v.members, name) then Facing(v.members[Find(v.members, name)].value, path[1..]) else Absent
      case Element(i) =>
        if !v.Array? then Absent else if i < |v.elements| then Facing(v.elements[i], path[1..]) else NoElement
  }

  /** json_value_get_type. */
  datatype Kind = NullKind | BoolKind | NumberKind | StringKind | ArrayKind | ObjectKind

  function KindOf(v: Value): Kind {
    match v
    case Null => NullKind
    case Bool(_) => BoolKind
    case Number(_) => NumberKind
    case String(_) => StringKind
    case Array(_) => ArrayKind
    case Object(_) => ObjectKind
  }

  // ---------------------------------------------------------------- equality

  /** Both paths lead to values or neither does; the values are of one kind, and scalars are
      the same, numbers up to an error. */
  ghost predicate Alike(x: Face, y: Face) {
    && (x.There? <==> y.There?)
    && (x.There? ==>
          && KindOf(x.v) == KindOf(y.v)
          && (x.v.Bool? ==> x.v.b == y.v.b)
          && (x.v.String? ==> x.v.text == y.v.text)
          && (x.v.Number? ==> -0.000001 < Meaning(x.v.literal) - Meaning(y.v.literal) < 0.000001))
  }

  lemma {:induction false} SameAlike(a: Value, b: Value, path: seq<Step>)
    requires WellFormed(a) && WellFormed(b) && Same(a, b)
    ensures Alike(Facing(a, path), Facing(b, path))
    decreases |path|, 0
  {
    hide Meaning, IsNumber, Find;
    if path != [] && path[0].Member? && a.Object? {
      MemberAlike(a.members, b.members, path[0].name, path[1..]);
    } else if path != [] && path[0].Element? && a.Array? {
      var i := path[0].i;
      if i < |a.elements| { SameAlike(a.elements[i], b.elements[i], path[1..]); }
    }
  }

  lemma {:induction false} MemberAlike(m: seq<Item<Value>>, n: seq<Item<Value>>, name: string, path: seq<Step>)
    requires WellFormed(Object(m)) && WellFormed(Object(n)) && Same(Object(m), Object(n))
    ensures Has(m, name) <==> Has(n, name)
    ensures Has(m, name) ==> Alike(Facing(m[Find(m, name)].value, path), Facing(n[Find(n, name)].value, path))
    decreases |path|, 1
  {
    hide Meaning, IsNumber, Find, Facing, Alike;
    if Has(n, name) { assert Has(m, n[Find(n, name)].name); }
    if Has(m, name) {
      var i := Find(m, name);
      assert Has(n, m[i].name) && Same(m[i].value, n[Find(n, m[i].name)].value);
      SameAlike(m[i].value, n[Find(n, name)].value, path);
    }
  }

  lemma FacingThrough(v: Value, step: Step, path: seq<Step>)
    ensures Facing(v, [step] + path) ==
            match step
            case Member(name) =>
              if v.Object? && Has(v.members, name) then Facing(v.members[Find(v.members, name)].value, path) else Absent
            case Element(i) =>
              if !v.Array? then Absent else if i < |v.elements| then Facing(v.elements[i], path) else NoElement
  {
    assert ([step] + path)[1..] == path;
  }

  ghost predicate AlikeEverywhere(a: Value, b: Value) {
    forall path :: Alike(Facing(a, path), Facing(b, path))
  }

  lemma {:induction false} AlikeSame(a: Value, b: Value)
    requires WellFormed(a) && WellFormed(b) && AlikeEverywhere(a, b)
    ensures Same(a, b)
    decreases a, 1
  {
    hide Meaning, IsNumber, Find, Facing;
    FacingHere(a);
    FacingHere(b);
    assert Alike(Facing(a, []), Facing(b, []));
    match a {
      case Array(e) => ElementsAlikeSame(e, b.elements);
      case Object(m) => MembersAlikeSame(m, b.members);
      case _ => ScalarsAlike(a, b);
    }
  }

  lemma ScalarsAlike(a: Value, b: Value)
    requires Alike(There(a), There(b)) && !a.Array? && !a.Object?
    ensures Same(a, b)
  {
    hide Meaning;
    match a {
      case Null =>
      case Bool(x) => assert b == Bool(b.b);
      case Number(x) =>
      case String(x) => assert b == String(b.text);
    }
  }

  lemma FacingHere(v: Value)
    ensures Facing(v, []) == There(v)
  {
  }

  lemma {:induction false} ElementsAlikeSame(e: seq<Value>, f: seq<Value>)
    requires WellFormed(Array(e)) && WellFormed(Array(f)) && AlikeEverywhere(Array(e), Array(f))
    ensures Same(Array(e), Array(f))
    decreases e, 0
  {
    hide Meaning, IsNumber, Facing, Alike;
    ElementAlike(e, f, |e|, []);
    ElementAlike(e, f, |f|, []);
    forall i | 0 <= i < |e| ensures Same(e[i], f[i]) {
      forall path ensures Alike(Facing(e[i], path), Facing(f[i], path)) { ElementAlike(e, f, i, path); }
      assert AlikeEverywhere(e[i], f[i]);
      AlikeSame(e[i], f[i]);
    }
  }

  lemma ElementAlike(e: seq<Value>, f: seq<Value>, i: nat, path: seq<Step>)
    requires AlikeEverywhere(Array(e), Array(f))
    ensures i < |e| && i < |f| ==> Alike(Facing(e[i], path), Facing(f[i], path))
    ensures i < |e| <==> i < |f|
  {
    hide Meaning, Facing;
    FacingThrough(Array(e), Element(i), path);
    FacingThrough(Array(f), Element(i), path);
    FacingThrough(Array(e), Element(i), []);
    FacingThrough(Array(f), Element(i), []);
    if i < |e| { FacingHere(e[i]); }
    if i < |f| { FacingHere(f[i]); }
    assert Alike(Facing(Array(e), [Element(i)] + path), Facing(Array(f), [Element(i)] + path));
    assert Alike(Facing(Array(e), [Element(i)] + []), Facing(Array(f), [Element(i)] + []));
  }

  lemma {:induction false} MembersAlikeSame(m: seq<Item<Value>>, n: seq<Item<Value>>)
    requires WellFormed(Object(m)) && WellFormed(Object(n)) && AlikeEverywhere(Object(m), Object(n))
    ensures Same(Object(m), Object(n))
    decreases m, 0
  {
    hide Meaning, IsNumber, Facing, Find, Alike;
    forall i | 0 <= i < |m| ensures Has(n, m[i].name) && Same(m[i].value, n[Find(n, m[i].name)].value) {
      var name := m[i].name;
      FindAt(m, i);
      NamedAlike(m, n, name, []);
      var w := n[Find(n, name)].value;
      forall path ensures Alike(Facing(m[i].value, path), Facing(w, path)) { NamedAlike(m, n, name, path); }
      assert AlikeEverywhere(m[i].value, w);
      AlikeSame(m[i].value, w);
    }
    forall j | 0 <= j < |n| ensures Has(m, n[j].name) {
      FindAt(n, j);
      NamedAlike(m, n, n[j].name, []);
    }
  }

  lemma NamedAlike(m: seq<Item<Value>>, n: seq<Item<Value>>, name: string, path: seq<Step>)
    requires AlikeEverywhere(Object(m), Object(n))
    ensures Has(m, name) <==> Has(n, name)
    ensures Has(m, name) ==> Alike(Facing(m[Find(m, name)].value, path), Facing(n[Find(n, name)].value, path))
  {
    hide Meaning, Facing, Find;
    FacingThrough(Object(m), Member(name), path);
    FacingThrough(Object(n), Member(name), path);
    FacingThrough(Object(m), Member(name), []);
    FacingThrough(Object(n), Member(name), []);
    if Has(m, name) { FacingHere(m[Find(m, name)].value); }
    if Has(n, name) { FacingHere(n[Find(n, name)].value); }
    assert Alike(Facing(Object(m), [Member(name)] + path), Facing(Object(n), [Member(name)] + path));
    assert Alike(Facing(Object(m), [Member(name)] + []), Facing(Object(n), [Member(name)] + []));
  }

  /** Two values are equal if and only if every path leads to values in both or in neither, of
      the same kind, and to the same scalars, numbers up to an error. */
  lemma SameByPlaces(a: Value, b: Value)
    requires WellFormed(a) && WellFormed(b)
    ensures Same(a, b) <==> AlikeEverywhere(a, b)
  {
    hide Same, WellFormed, Alike;
    if Same(a, b) {
      forall path ensures Alike(Facing(a, path), Facing(b, path)) { SameAlike(a, b, path); }
    }
    if AlikeEverywhere(a, b) { AlikeSame(a, b); }
  }

  // ---------------------------------------------------------------- validation

  /** The part of the schema that is asked at a path: an array's first element is asked of every
      element. */
  function Asked(schema: Value, path: seq<Step>): Option<Value>
    decreases |path|
  {
    if path == [] then Some(schema)
    else
      match path[0]
      case Member(name) =>
        if schema.Object? && Has(schema.members, name)
        then Asked(schema.members[Find(schema.members, name)].value, path[1..]) else None
      case Element(_) =>
        if schema.Array? && schema.elements != [] then Asked(schema.elements[0], path[1..]) else None
  }

  /** Where the schema asks for something there is a value, unless the array has no such element,
      and it is of the kind that is asked, unless null is. */
  ghost predicate Fulfilled(asked: Option<Value>, face: Face) {
    asked.None? || face == NoElement
    || (face.There? && (KindOf(asked.value) == NullKind || KindOf(face.v) == KindOf(asked.value)))
  }

  ghost predicate FulfilledEverywhere(schema: Value, v: Value) {
    forall path :: Fulfilled(Asked(schema, path), Facing(v, path))
  }

  lemma {:induction false} ValidFulfils(schema: Value, v: Value, path: seq<Step>)
    requires WellFormed(schema) && Validates(schema, v)
    ensures Fulfilled(Asked(schema, path), Facing(v, path))
    decreases |path|
  {
    hide IsNumber, Find;
    if path != [] && path[0].Member? && schema.Object? && Has(schema.members, path[0].name) {
      var m := schema.members;
      var i := Find(m, path[0].name);
      assert ValidAt(m, i, v.members);
      ValidFulfils(m[i].value, v.members[Find(v.members, m[i].name)].value, path[1..]);
    } else if path != [] && path[0].Element? && schema.Array? && schema.elements != [] {
      var i := path[0].i;
      if i < |v.elements| { ValidFulfils(schema.elements[0], v.elements[i], path[1..]); }
    }
  }

  lemma AskedThrough(schema: Value, step: Step, path: seq<Step>)
    ensures Asked(schema, [step] + path) ==
            match step
            case Member(name) =>
              if schema.Object? && Has(schema.members, name)
              then Asked(schema.members[Find(schema.members, name)].value, path) else None
            case Element(_) =>
              if schema.Array? && schema.elements != [] then Asked(schema.elements[0], path) else None
  {
    assert ([step] + path)[1..] == path;
  }

  lemma AskedHere(schema: Value)
    ensures Asked(schema, []) == Some(schema)
  {
  }

  lemma {:induction false} FulfilsValid(schema: Value, v: Value)
    requires WellFormed(schema) && FulfilledEverywhere(schema, v)
    ensures Validates(schema, v)
    decreases schema
  {
    hide IsNumber, Find, Facing, Asked;
    AskedHere(schema);
    FacingHere(v);
    assert Fulfilled(Asked(schema, []), Facing(v, []));
    match schema {
      case Array(e) =>
        if e != [] {
          forall i | 0 <= i < |v.elements| ensures Validates(e[0], v.elements[i]) {
            forall path ensures Fulfilled(Asked(e[0], path), Facing(v.elements[i], path)) {
              AskedThrough(schema, Element(i), path);
              FacingThrough(v, Element(i), path);
              assert Fulfilled(Asked(schema, [Element(i)] + path), Facing(v, [Element(i)] + path));
            }
            assert FulfilledEverywhere(e[0], v.elements[i]);
            FulfilsValid(e[0], v.elements[i]);
          }
        }
      case Object(m) =>
        forall i | 0 <= i < |m| ensures ValidAt(m, i, v.members) { MemberFulfils(m, v, i); }
      case _ =>
    }
  }

  lemma {:induction false} MemberFulfils(m: seq<Item<Value>>, v: Value, i: nat)
    requires WellFormed(Object(m)) && v.Object? && FulfilledEverywhere(Object(m), v) && i < |m|
    ensures ValidAt(m, i, v.members)
    decreases m, 0
  {
    hide IsNumber, Find, Facing, Asked, Fulfilled;
    var name, n := m[i].name, v.members;
    FindAt(m, i);
    AskedThrough(Object(m), Member(name), []);
    FacingThrough(v, Member(name), []);
    AskedHere(m[i].value);
    MemberIsThere(m, v, name);
    forall path ensures Has(n, name) ==> Fulfilled(Asked(m[i].value, path), Facing(n[Find(n, name)].value, path)) {
      AskedThrough(Object(m), Member(name), path);
      FacingThrough(v, Member(name), path);
      assert Fulfilled(Asked(Object(m), [Member(name)] + path), Facing(v, [Member(name)] + path));
    }
    if Has(n, name) { FulfilsValid(m[i].value, n[Find(n, name)].value); }
  }

  lemma MemberIsThere(m: seq<Item<Value>>, v: Value, name: string)
    requires Has(m, name) && v.Object? && FulfilledEverywhere(Object(m), v)
    ensures Has(v.members, name)
  {
    hide Find, Facing, Asked;
    AskedThrough(Object(m), Member(name), []);
    AskedHere(m[Find(m, name)].value);
    FacingThrough(v, Member(name), []);
    assert Fulfilled(Asked(Object(m), [Member(name)] + []), Facing(v, [Member(name)] + []));
  }

  /** A value is valid if and only if, at every path at which the schema asks for something, there
      is a value of the kind that is asked: of any kind where null is asked, and with nothing
      to ask of elements that are not there. */
  lemma ValidByPlaces(schema: Value, v: Value)
    requires WellFormed(schema)
    ensures Validates(schema, v) <==> FulfilledEverywhere(schema, v)
  {
    hide Validates, WellFormed, Fulfilled;
    if Validates(schema, v) {
      forall path ensures Fulfilled(Asked(schema, path), Facing(v, path)) { ValidFulfils(schema, v, path); }
    }
    if FulfilledEverywhere(schema, v) { FulfilsValid(schema, v); }
  }

  /** In particular an accepted value is of its schema's kind, unless the schema is null. */
  lemma AcceptedKind(schema: Value, v: Value)
    requires WellFormed(schema) && Validates(schema, v) && KindOf(schema) != NullKind
    ensures KindOf(v) == KindOf(schema)
  {
    hide Validates, WellFormed, Facing, Asked;
    ValidByPlaces(schema, v);
    AskedHere(schema);
    FacingHere(v);
    assert Fulfilled(Asked(schema, []), Facing(v, []));
  }

  // ---------------------------------------------------------------- dotted paths

  /** Names with dots between them. */
  function Dotted(names: seq<string>): string
    requires names != []
  {
    if |names| == 1 then names[0] else names[0] + "." + Dotted(names[1..])
  }

  function Members(names: seq<string>): (path: seq<Step>)
    ensures |path| == |names|
  {
    if names == [] then [] else [Member(names[0])] + Members(names[1..])
  }

  lemma FirstName(name: string, rest: string)
    requires '.' !in name
    ensures DotPaths.FirstDot(name) == |name| && DotPaths.FirstDot(name + "." + rest) == |name|
    ensures (name + "." + rest)[..|name|] == name && (name + "." + rest)[|name| + 1..] == rest
  {
    DotPaths.FirstDotIs(name, |name|);
    DotPaths.FirstDotIs(name + "." + rest, |name|);
  }

  /** json_object_dotget_value follows the names between the dots. */
  lemma {:induction false} DotGetFollows(members: seq<Item<Value>>, names: seq<string>)
    requires names != [] && forall k :: 0 <= k < |names| ==> '.' !in names[k]
    ensures DotPaths.DotGet(members, Dotted(names)) ==
            match Facing(Object(members), Members(names))
            case There(v) => Some(v)
            case _ => None
    decreases |names|
  {
    hide Find;
    var path := Members(names);
    assert path[1..] == Members(names[1..]);
    if |names| == 1 {
      FirstName(names[0], "");
    } else {
      FirstName(names[0], Dotted(names[1..]));
      if Has(members, names[0]) {
        var v := members[Find(members, names[0])].value;
        match v {
          case Object(inner) => DotGetFollows(inner, names[1..]);
          case _ => assert path[1..] != [] && path[1..][0].Member?;
        }
      }
    }
  }
}
