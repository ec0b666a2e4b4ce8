/** Comparing values, and validating one value against another as a schema.

  The methods check what the library checks: member counts, and one side's names. `Same`
  and `Validates` say what that amounts to.
 */
module Compare {
  import opened CText
  import opened Items
  import opened Magnitudes
  import opened Numbers
  import opened Values

  // ---------------------------------------------------------------- names

  lemma {:induction false} NamesWithin<V>(a: seq<Item<V>>, names: set<string>)
    requires Distinct(a) && forall i :: 0 <= i < |a| ==> a[i].name in names
    ensures |a| <= |names|
    ensures |a| == |names| ==> forall x :: x in names ==> Has(a, x)
  {
    if a != [] {
      var last := |a| - 1;
      var front, x := a[..last], a[last].name;
      NamesWithin(front, names - {x});
      forall y | y in names && |a| == |names| ensures Has(a, y) {
        if y == x {
          FindAt(a, last);
        } else {
          assert y in names - {x};
          var k := Find(front, y);
          assert a[k].name == y;
        }
      }
    } else if |names| == 0 {
      assert names == {};
    }
  }

  /** Pigeonhole: distinct names that all occur in b number at most |b|, and if they number
      |b|, then those of b all occur among them. */
  lemma NamesCounted<V>(a: seq<Item<V>>, b: seq<Item<V>>)
    requires Distinct(a) && Distinct(b) && forall i :: 0 <= i < |a| ==> Has(b, a[i].name)
    ensures |a| <= |b|
    ensures |a| == |b| ==> forall j :: 0 <= j < |b| ==> Has(a, b[j].name)
  {
    NameSetSize(b);
    forall i | 0 <= i < |a| ensures a[i].name in NameSet(b) {
      assert b[Find(b, a[i].name)].name in NameSet(b);
    }
    NamesWithin(a, NameSet(b));
    forall j | 0 <= j < |b| ensures b[j].name in NameSet(b) {
    }
  }

  // ---------------------------------------------------------------- equality

  /** Numbers are equal up to an error. */
  predicate Near(x: string, y: string) {
    -0.000001 < Meaning(x) - Meaning(y) < 0.000001
  }

  /** Equality: arrays element by element, objects by name. */
  ghost predicate Same(a: Value, b: Value) {
    match a
    case Null => b.Null?
    case Bool(x) => b == a
    case Number(x) => b.Number? && Near(x, b.literal)
    case String(x) => b == a
    case Array(e) => b.Array? && |e| == |b.elements| && forall i :: 0 <= i < |e| ==> Same(e[i], b.elements[i])
    case Object(m) =>
      && b.Object?
      && (forall i :: 0 <= i < |m| ==>
            Has(b.members, m[i].name) && Same(m[i].value, b.members[Find(b.members, m[i].name)].value))
      && forall j :: 0 <= j < |b.members| ==> Has(m, b.members[j].name)
  }

  /** json_value_equals; for objects it compares the numbers of members and then looks only
      at the names of the first. */
  method ValueEquals(a: Value, b: Value) returns (r: bool)
    requires WellFormed(a) && WellFormed(b)
    ensures r == Same(a, b)
    decreases a, 1
  {
    match a {
      case Null => r := b.Null?;
      case Bool(_) => r := a == b;
      case String(_) => r := a == b;
      case Number(x) => r := b.Number? && Near(x, b.literal);
      case Array(e) =>
        if !b.Array? {
          return false;
        }
        r := ArraysEqual(e, b.elements);
      case Object(m) =>
        if !b.Object? {
          return false;
        }
        r := ObjectsEqual(m, b.members);
    }
  }

  method ArraysEqual(e: seq<Value>, f: seq<Value>) returns (r: bool)
    requires WellFormed(Array(e)) && WellFormed(Array(f))
    ensures r == Same(Array(e), Array(f))
    decreases e, 0
  {
    if |e| != |f| {
      return false;
    }
    for i := 0 to |e|
      invariant forall k :: 0 <= k < i ==> Same(e[k], f[k])
    {
      var same := ValueEquals(e[i], f[i]);
      if !same {
        return false;
      }
    }
    r := true;
  }

  /** Member i of m and the member of n with the same name. */
  ghost predicate SameAt(m: seq<Item<Value>>, n: seq<Item<Value>>, i: nat)
    requires i < |m|
  {
    Has(n, m[i].name) && Same(m[i].value, n[Find(n, m[i].name)].value)
  }

  lemma CountsDecide(m: seq<Item<Value>>, n: seq<Item<Value>>)
    requires Distinct(m) && Distinct(n)
    ensures Same(Object(m), Object(n)) <==> |m| == |n| && forall i :: 0 <= i < |m| ==> SameAt(m, n, i)
  {
    hide Distinct, Find;
    if forall i :: 0 <= i < |m| ==> SameAt(m, n, i) {
      forall i | 0 <= i < |m| ensures Has(n, m[i].name) { assert SameAt(m, n, i); }
      NamesCounted(m, n);
    }
    if Same(Object(m), Object(n)) {
      forall i | 0 <= i < |m| ensures SameAt(m, n, i) { }
      NamesCounted(m, n);
      NamesCounted(n, m);
    }
    if |m| == |n| && forall i :: 0 <= i < |m| ==> SameAt(m, n, i) {
      forall i | 0 <= i < |m| ensures Has(n, m[i].name) && Same(m[i].value, n[Find(n, m[i].name)].value) {
        assert SameAt(m, n, i);
      }
    }
  }

  method ObjectsEqual(m: seq<Item<Value>>, n: seq<Item<Value>>) returns (r: bool)
    requires WellFormed(Object(m)) && WellFormed(Object(n))
    ensures r == Same(Object(m), Object(n))
    decreases m, 0
  {
    hide Same, Find, Distinct, IsNumber, IsName;
    CountsDecide(m, n);
    if |m| != |n| {
      return false;
    }
    for i := 0 to |m|
      invariant forall k :: 0 <= k < i ==> SameAt(m, n, k)
    {
      FindAt(m, i);
      var x, y := Lookup(m, m[i].name), Lookup(n, m[i].name);
      if y.None? {
        assert !SameAt(m, n, i);
        return false;  // json_value_get_type of a missing value is JSONError
      }
      var same := ValueEquals(x.value, y.value);
      if !same {
        return false;
      }
    }
    r := true;
  }

  lemma {:induction false} SameReflexive(a: Value)
    requires WellFormed(a)
    ensures Same(a, a)
  {
    match a {
      case Array(e) =>
        forall i | 0 <= i < |e| ensures Same(e[i], e[i]) { SameReflexive(e[i]); }
      case Object(m) =>
        forall i | 0 <= i < |m| ensures Find(m, m[i].name) == i && Same(m[i].value, m[i].value) {
          FindAt(m, i);
          SameReflexive(m[i].value);
        }
      case _ =>
    }
  }

  /** Equality does not depend on the order of the arguments, although the code looks only at
      the names of the first. */
  lemma {:induction false} SameSymmetric(a: Value, b: Value)
    requires WellFormed(a) && WellFormed(b) && Same(a, b)
    ensures Same(b, a)
  {
    match a {
      case Array(e) =>
        forall i | 0 <= i < |e| ensures Same(b.elements[i], e[i]) { SameSymmetric(e[i], b.elements[i]); }
      case Object(m) =>
        var n := b.members;
        forall j | 0 <= j < |n| ensures Has(m, n[j].name) && Same(n[j].value, m[Find(m, n[j].name)].value) {
          var i := Find(m, n[j].name);
          FindAt(n, j);
          SameSymmetric(m[i].value, n[j].value);
        }
      case _ =>
    }
  }

  /** The same value with the members of objects, at any depth, in another order. */
  ghost predicate Reordered(a: Value, b: Value) {
    match a
    case Array(e) => b.Array? && |e| == |b.elements| && forall i :: 0 <= i < |e| ==> Reordered(e[i], b.elements[i])
    case Object(m) =>
      && b.Object?
      && (forall i :: 0 <= i < |m| ==>
            Has(b.members, m[i].name) && Reordered(m[i].value, b.members[Find(b.members, m[i].name)].value))
      && forall j :: 0 <= j < |b.members| ==> Has(m, b.members[j].name)
    case _ => a == b
  }

  /** Member order, at any depth, does not matter. */
  lemma {:induction false} OrderDoesNotMatter(a: Value, b: Value, c: Value)
    requires WellFormed(a) && WellFormed(b) && WellFormed(c) && Reordered(a, b)
    ensures Same(a, c) <==> Same(b, c)
    decreases a, 1
  {
    match a {
      case Array(e) =>
        if c.Array? && |c.elements| == |e| {
          forall i | 0 <= i < |e| ensures Same(e[i], c.elements[i]) <==> Same(b.elements[i], c.elements[i]) {
            OrderDoesNotMatter(e[i], b.elements[i], c.elements[i]);
          }
        }
      case Object(m) =>
        if c.Object? { MembersInAnyOrder(m, b.members, c.members); }
      case _ =>
    }
  }

  lemma {:induction false} MembersInAnyOrder(m: seq<Item<Value>>, n: seq<Item<Value>>, o: seq<Item<Value>>)
    requires WellFormed(Object(m)) && WellFormed(Object(n)) && WellFormed(Object(o)) && Reordered(Object(m), Object(n))
    ensures Same(Object(m), Object(o)) <==> Same(Object(n), Object(o))
    decreases Object(m), 0
  {
    hide Find;
    if Same(Object(m), Object(o)) {
      forall j | 0 <= j < |n| ensures Has(o, n[j].name) && Same(n[j].value, o[Find(o, n[j].name)].value) {
        var i := Find(m, n[j].name);
        FindAt(n, j);
        OrderDoesNotMatter(m[i].value, n[j].value, o[Find(o, m[i].name)].value);
      }
      forall j | 0 <= j < |o| ensures Has(n, o[j].name) {
        var i := Find(m, o[j].name);
        assert Has(n, m[i].name);
      }
    }
    if Same(Object(n), Object(o)) {
      forall i | 0 <= i < |m| ensures Has(o, m[i].name) && Same(m[i].value, o[Find(o, m[i].name)].value) {
        var j := Find(n, m[i].name);
        OrderDoesNotMatter(m[i].value, n[j].value, o[Find(o, m[i].name)].value);
      }
      forall j | 0 <= j < |o| ensures Has(m, o[j].name) {
        var i := Find(n, o[j].name);
        assert Has(m, n[i].name);
      }
    }
  }

  /** The same value, member order included, with numbers less than 0.000001 from those of a. */
  ghost predicate Renumbered(a: Value, b: Value) {
    match a
    case Number(x) => b.Number? && -0.000001 < Meaning(x) - Meaning(b.literal) < 0.000001
    case Array(e) => b.Array? && |e| == |b.elements| && forall i :: 0 <= i < |e| ==> Renumbered(e[i], b.elements[i])
    case Object(m) =>
      && b.Object? && |m| == |b.members|
      && forall i :: 0 <= i < |m| ==> m[i].name == b.members[i].name && Renumbered(m[i].value, b.members[i].value)
    case _ => a == b
  }

  /** b with the numbers that a has in the same places. */
  function WithNumbers(b: Value, a: Value): Value
    decreases b
  {
    match b
    case Number(_) => a
    case Array(f) =>
      if a.Array? && |a.elements| == |f|
      then Array(seq(|f|, i requires 0 <= i < |f| => WithNumbers(f[i], a.elements[i]))) else b
    case Object(n) =>
      if a.Object?
      then
        var m := a.members;
        Object(seq(|n|, j requires 0 <= j < |n| => Item(n[j].name, WithNumbers(n[j].value, MemberValue(m, n[j].name)))))
      else b
    case _ => b
  }

  /** The value of the member with the name, or null. */
  function MemberValue(m: seq<Item<Value>>, name: string): Value {
    if Has(m, name) then m[Find(m, name)].value else Null
  }

  lemma {:induction false} MixIsBetween(a: Value, b: Value)
    requires WellFormed(a) && WellFormed(b) && Same(a, b)
    ensures var c := WithNumbers(b, a); WellFormed(c) && Reordered(a, c) && Renumbered(c, b)
    decreases b, 1
  {
    hide Meaning, IsNumber, Find;
    match b {
      case Array(f) =>
        forall i | 0 <= i < |f|
          ensures var c := WithNumbers(f[i], a.elements[i]);
                  WellFormed(c) && Reordered(a.elements[i], c) && Renumbered(c, f[i])
        {
          MixIsBetween(a.elements[i], f[i]);
        }
      case Object(n) => MembersMix(a.members, n);
      case _ =>
    }
  }

  lemma {:induction false} MembersMix(m: seq<Item<Value>>, n: seq<Item<Value>>)
    requires WellFormed(Object(m)) && WellFormed(Object(n)) && Same(Object(m), Object(n))
    ensures var c := WithNumbers(Object(n), Object(m));
            WellFormed(c) && Reordered(Object(m), c) && Renumbered(c, Object(n))
    decreases Object(n), 0
  {
    hide Meaning, IsNumber, Find;
    var o := WithNumbers(Object(n), Object(m)).members;
    forall j | 0 <= j < |n|
      ensures o[j].name == n[j].name && Has(m, n[j].name)
      ensures WellFormed(o[j].value) && Renumbered(o[j].value, n[j].value)
      ensures Reordered(m[Find(m, n[j].name)].value, o[j].value)
    {
      var i := Find(m, n[j].name);
      FindAt(n, j);
      assert Same(m[i].value, n[Find(n, m[i].name)].value);
      MixIsBetween(m[i].value, n[j].value);
    }
    assert Distinct(o);
    forall i | 0 <= i < |m| ensures Has(o, m[i].name) && Reordered(m[i].value, o[Find(o, m[i].name)].value) {
      var j := Find(n, m[i].name);
      assert Has(n, m[i].name) && o[j].name == m[i].name;
      FindAt(o, j);
      FindAt(m, i);
    }
  }

  lemma {:induction false} RenumberedIsSame(a: Value, b: Value)
    requires WellFormed(a) && WellFormed(b) && Renumbered(a, b)
    ensures Same(a, b)
  {
    hide Meaning, IsNumber, Find;
    match a {
      case Array(e) =>
        forall i | 0 <= i < |e| ensures Same(e[i], b.elements[i]) { RenumberedIsSame(e[i], b.elements[i]); }
      case Object(m) =>
        var n := b.members;
        forall i | 0 <= i < |m| ensures Has(n, m[i].name) && Same(m[i].value, n[Find(n, m[i].name)].value) {
          FindAt(n, i);
          RenumberedIsSame(m[i].value, n[i].value);
        }
        forall j | 0 <= j < |n| ensures Has(m, n[j].name) { FindAt(m, j); }
      case _ =>
    }
  }

  /** Two values are equal if and only if one is the other with members in another order and
      each number replaced by one less than 0.000001 away. */
  lemma SameExactly(a: Value, b: Value)
    requires WellFormed(a) && WellFormed(b)
    ensures Same(a, b) <==> exists c :: WellFormed(c) && Reordered(a, c) && Renumbered(c, b)
  {
    hide Same, WellFormed, Reordered, Renumbered, WithNumbers;
    if Same(a, b) { MixIsBetween(a, b); }
    if c :| WellFormed(c) && Reordered(a, c) && Renumbered(c, b) {
      RenumberedIsSame(c, b);
      OrderDoesNotMatter(a, c, b);
    }
  }

  /** Without numbers only the order of members may differ. */
  lemma SameIsReordered(a: Value, b: Value)
    requires WellFormed(a) && WellFormed(b) && NoNumber(a)
    ensures Same(a, b) <==> Reordered(a, b)
  {
    hide Same, WellFormed, Reordered, NoNumber;
    if Same(a, b) { NoNumberReordered(a, b); }
    if Reordered(a, b) {
      SameReflexive(b);
      OrderDoesNotMatter(a, b, b);
    }
  }

  lemma {:induction false} NoNumberReordered(a: Value, b: Value)
    requires WellFormed(a) && WellFormed(b) && NoNumber(a) && Same(a, b)
    ensures Reordered(a, b)
    decreases a
  {
    hide Near, IsNumber, Find;
    match a {
      case Array(e) =>
        forall i | 0 <= i < |e| ensures Reordered(e[i], b.elements[i]) { NoNumberReordered(e[i], b.elements[i]); }
      case Object(m) =>
        var n := b.members;
        forall i | 0 <= i < |m| ensures Reordered(m[i].value, n[Find(n, m[i].name)].value) {
          NoNumberReordered(m[i].value, n[Find(n, m[i].name)].value);
        }
      case _ =>
    }
  }

  // ---------------------------------------------------------------- when equality carries over

  /** Every number in the value is drawn from D. */
  ghost predicate Drawn(D: iset<string>, v: Value) {
    match v
    case Number(literal) => literal in D
    case Array(e) => forall i :: 0 <= i < |e| ==> Drawn(D, e[i])
    case Object(m) => forall i :: 0 <= i < |m| ==> Drawn(D, m[i].value)
    case _ => true
  }

  /** x is equal to two numbers of D that are not equal to each other. */
  ghost predicate Apart(D: iset<string>, x: string) {
    exists y, z :: y in D && z in D && Near(y, x) && Near(x, z) && !Near(y, z)
  }

  /** No number in the value is apart. */
  ghost predicate Firm(D: iset<string>, b: Value) {
    match b
    case Number(literal) => !Apart(D, literal)
    case Array(e) => forall i :: 0 <= i < |e| ==> Firm(D, e[i])
    case Object(m) => forall i :: 0 <= i < |m| ==> Firm(D, m[i].value)
    case _ => true
  }

  /** A value as the library builds it, with numbers from D. */
  ghost predicate Built(D: iset<string>, v: Value) {
    WellFormed(v) && Drawn(D, v)
  }

  lemma {:induction false} FirmCarries(D: iset<string>, a: Value, b: Value, c: Value)
    requires Built(D, a) && Built(D, b) && Built(D, c) && Firm(D, b) && Same(a, b) && Same(b, c)
    ensures Same(a, c)
    decreases b
  {
    hide Find, Near, IsNumber;
    match b {
      case Number(x) =>
        assert a.literal in D && c.literal in D;
      case Array(e) =>
        forall i | 0 <= i < |e| ensures Same(a.elements[i], c.elements[i]) {
          FirmCarries(D, a.elements[i], e[i], c.elements[i]);
        }
      case Object(n) =>
        FirmMembers(D, a.members, n, c.members);
      case _ =>
    }
  }

  lemma {:induction false} FirmMembers(D: iset<string>, m: seq<Item<Value>>, n: seq<Item<Value>>, o: seq<Item<Value>>)
    requires Built(D, Object(m)) && Built(D, Object(n)) && Built(D, Object(o)) && Firm(D, Object(n))
    requires Same(Object(m), Object(n)) && Same(Object(n), Object(o))
    ensures Same(Object(m), Object(o))
    decreases Object(n), 0
  {
    hide Find, Near, IsNumber;
    forall i | 0 <= i < |m| ensures Has(o, m[i].name) && Same(m[i].value, o[Find(o, m[i].name)].value) {
      var j := Find(n, m[i].name);
      assert n[j].name == m[i].name && Has(o, n[j].name);
      FirmCarries(D, m[i].value, n[j].value, o[Find(o, n[j].name)].value);
    }
    forall k | 0 <= k < |o| ensures Has(m, o[k].name) {
      var j := Find(n, o[k].name);
      assert Has(m, n[j].name);
    }
  }

  /** Two values equal to b but not to each other, when some number in b is apart. */
  lemma {:induction false} ApartIsSeen(D: iset<string>, b: Value) returns (a: Value, c: Value)
    requires Built(D, b) && !Firm(D, b) && forall x :: x in D ==> IsNumber(x)
    ensures Built(D, a) && Built(D, c) && Same(a, b) && Same(b, c) && !Same(a, c)
    decreases b
  {
    hide Near, IsNumber, Find;
    match b {
      case Number(x) =>
        var y, z :| y in D && z in D && Near(y, x) && Near(x, z) && !Near(y, z);
        a, c := Number(y), Number(z);
      case Array(e) =>
        var k :| 0 <= k < |e| && !Firm(D, e[k]);
        var x, y := ApartIsSeen(D, e[k]);
        a, c := Array(e[k := x]), Array(e[k := y]);
        ElementReplaced(D, e, k, x, y);
      case Object(m) =>
        var k :| 0 <= k < |m| && !Firm(D, m[k].value);
        var x, y := ApartIsSeen(D, m[k].value);
        a, c := Object(m[k := Item(m[k].name, x)]), Object(m[k := Item(m[k].name, y)]);
        MemberReplaced(D, m, k, x);
        MemberReplaced(D, m, k, y);
        SameSymmetric(c, b);
        MemberTellsApart(m, k, x, y);
    }
  }

  lemma ElementReplaced(D: iset<string>, e: seq<Value>, k: nat, x: Value, y: Value)
    requires Built(D, Array(e)) && k < |e| && Built(D, x) && Built(D, y) && Same(x, e[k]) && Same(e[k], y)
             && !Same(x, y)
    ensures Built(D, Array(e[k := x])) && Built(D, Array(e[k := y]))
    ensures Same(Array(e[k := x]), Array(e)) && Same(Array(e), Array(e[k := y]))
            && !Same(Array(e[k := x]), Array(e[k := y]))
  {
    hide Near, IsNumber, Find;
    var f, g := e[k := x], e[k := y];
    ElementsKnown(D, e);
    assert !Same(f[k], g[k]);
    ElementsBuilt(D, f);
    ElementsBuilt(D, g);
  }

  lemma ElementsKnown(D: iset<string>, e: seq<Value>)
    requires Built(D, Array(e))
    ensures forall i :: 0 <= i < |e| ==> Built(D, e[i]) && Same(e[i], e[i])
  {
    hide Same, Near, IsNumber;
    forall i | 0 <= i < |e| ensures Same(e[i], e[i]) { SameReflexive(e[i]); }
  }

  lemma ElementsBuilt(D: iset<string>, e: seq<Value>)
    requires forall i :: 0 <= i < |e| ==> Built(D, e[i])
    ensures Built(D, Array(e))
  {
  }

  /** An object with the value of one member replaced by one that is equal to it. */
  lemma MemberReplaced(D: iset<string>, m: seq<Item<Value>>, k: nat, x: Value)
    requires Built(D, Object(m)) && k < |m| && Built(D, x) && (Same(x, m[k].value) || Same(m[k].value, x))
    ensures var r := m[k := Item(m[k].name, x)]; Built(D, Object(r)) && Same(Object(r), Object(m))
  {
    hide Near, IsNumber, Find;
    var r := m[k := Item(m[k].name, x)];
    if Same(m[k].value, x) { SameSymmetric(m[k].value, x); }
    forall i | 0 <= i < |r| ensures Has(m, r[i].name) && Same(r[i].value, m[Find(m, r[i].name)].value) {
      FindAt(m, i);
      if i != k { SameReflexive(m[i].value); }
    }
    assert Distinct(r);
    forall j | 0 <= j < |m| ensures Has(r, m[j].name) {
      assert r[j].name == m[j].name;
      FindAt(r, j);
    }
  }

  lemma MemberTellsApart(m: seq<Item<Value>>, k: nat, x: Value, y: Value)
    requires Distinct(m) && k < |m| && !Same(x, y)
    ensures !Same(Object(m[k := Item(m[k].name, x)]), Object(m[k := Item(m[k].name, y)]))
  {
    hide Near, Find;
    var r, s := m[k := Item(m[k].name, x)], m[k := Item(m[k].name, y)];
    assert Distinct(s) && s[k].name == r[k].name;
    FindAt(s, k);
    assert r[k].value == x && s[Find(s, r[k].name)].value == y;
  }

  /** Equality through b carries over to all values with numbers from D, if and only if no
      number in b is equal to two of them that differ. */
  lemma CarriesExactlyWithin(D: iset<string>, b: Value)
    requires Built(D, b) && forall x :: x in D ==> IsNumber(x)
    ensures (forall a, c :: Built(D, a) && Built(D, c) && Same(a, b) && Same(b, c) ==> Same(a, c)) <==> Firm(D, b)
  {
    hide Firm, Built, Same, IsNumber;
    if Firm(D, b) {
      forall a, c | Built(D, a) && Built(D, c) && Same(a, b) && Same(b, c) ensures Same(a, c) {
        FirmCarries(D, a, b, c);
      }
    } else {
      var a, c := ApartIsSeen(D, b);
    }
  }

  ghost function AllNumbers(): iset<string> {
    iset x | IsNumber(x)
  }

  lemma {:induction false} WellFormedIsDrawn(v: Value)
    requires WellFormed(v)
    ensures Drawn(AllNumbers(), v)
  {
    hide IsNumber;
    match v {
      case Array(e) => forall i | 0 <= i < |e| ensures Drawn(AllNumbers(), e[i]) { WellFormedIsDrawn(e[i]); }
      case Object(m) =>
        forall i | 0 <= i < |m| ensures Drawn(AllNumbers(), m[i].value) { WellFormedIsDrawn(m[i].value); }
      case _ =>
    }
  }

  /** Equality through b carries over to everything if and only if b is firm. */
  lemma FirmCarriesExactly(b: Value)
    requires WellFormed(b)
    ensures (forall a, c :: WellFormed(a) && WellFormed(c) && Same(a, b) && Same(b, c) ==> Same(a, c))
            <==> Firm(AllNumbers(), b)
  {
    hide Firm, Same, IsNumber, WellFormed, Drawn;
    var D := AllNumbers();
    assert forall v :: WellFormed(v) ==> Built(D, v) by {
      forall v | WellFormed(v) ensures Built(D, v) { WellFormedIsDrawn(v); }
    }
    CarriesExactlyWithin(D, b);
  }

  ghost predicate NoNumber(b: Value) {
    Drawn(iset{}, b)
  }

  /** In particular through a value without numbers. */
  lemma {:induction false} NoNumberIsFirm(D: iset<string>, b: Value)
    requires NoNumber(b)
    ensures Firm(D, b)
    decreases b
  {
    match b {
      case Array(e) => forall i | 0 <= i < |e| ensures Firm(D, e[i]) { NoNumberIsFirm(D, e[i]); }
      case Object(m) => forall i | 0 <= i < |m| ensures Firm(D, m[i].value) { NoNumberIsFirm(D, m[i].value); }
      case _ =>
    }
  }

  /** Different numbers of D are not equal: integers, say, or multiples of 0.000001. */
  ghost predicate Spaced(D: iset<string>) {
    forall x, y :: x in D && y in D && Near(x, y) ==> Meaning(x) == Meaning(y)
  }

  /** And through any value when the numbers are spaced like that. */
  lemma SpacedNumbersCarry(D: iset<string>, a: Value, b: Value, c: Value)
    requires Spaced(D) && Built(D, a) && Built(D, b) && Built(D, c) && Same(a, b) && Same(b, c)
    ensures Same(a, c)
  {
    hide Same, Meaning;
    forall x | x in D ensures !Apart(D, x) {
      forall y, z | y in D && z in D && Near(y, x) && Near(x, z) ensures Near(y, z) { }
    }
    NotApartIsFirm(D, b);
    FirmCarries(D, a, b, c);
  }

  ghost predicate IsInteger(x: string) {
    Meaning(x).Floor as real == Meaning(x)
  }

  lemma IntegersAreSpaced(D: iset<string>)
    requires forall x :: x in D ==> IsInteger(x)
    ensures Spaced(D)
  {
    hide Meaning;
    forall x, y | x in D && y in D && Near(x, y) ensures Meaning(x) == Meaning(y) {
      NearIntegers(Meaning(x).Floor, Meaning(y).Floor);
    }
  }

  lemma NearIntegers(i: int, j: int)
    requires -0.000001 < i as real - j as real < 0.000001
    ensures i == j
  {
  }

  lemma {:induction false} NotApartIsFirm(D: iset<string>, b: Value)
    requires Drawn(D, b) && forall x :: x in D ==> !Apart(D, x)
    ensures Firm(D, b)
    decreases b
  {
    hide Apart;
    match b {
      case Array(e) => forall i | 0 <= i < |e| ensures Firm(D, e[i]) { NotApartIsFirm(D, e[i]); }
      case Object(m) => forall i | 0 <= i < |m| ensures Firm(D, m[i].value) { NotApartIsFirm(D, m[i].value); }
      case _ =>
    }
  }

  // ---------------------------------------------------------------- which numbers are apart

  /** Of magnitude 10^10 or more. */
  predicate IsLarge(x: string) {
    Meaning(x) >= 10_000_000_000.0 || Meaning(x) <= -10_000_000_000.0
  }

  /** Two numbers with the given number between them, 0.000001 apart and equal to it. */
  lemma Neighbours(x: string) returns (y: string, z: string)
    requires IsNumber(x) && !IsLarge(x)
    ensures IsNumber(y) && IsNumber(z) && Near(y, x) && Near(x, z) && Meaning(y) - Meaning(z) == 0.000001
  {
    hide Meaning, IsNumber;
    var n := (Meaning(x) * 10_000_000.0).Floor;
    var k := if n + 6 > 100_000_000_000_000_000 then 100_000_000_000_000_000
             else if n - 4 < -100_000_000_000_000_000 then -99_999_999_999_999_990
             else n + 6;
    y := FineGrid(k);
    z := FineGrid(k - 10);
  }

  lemma LargeIsNotApart(x: string, y: string, z: string)
    requires IsNumber(x) && IsNumber(y) && IsNumber(z) && IsLarge(x) && Near(y, x) && Near(x, z)
    ensures Near(y, z)
  {
    hide Meaning;
    var i := CoarseGrid(x);
    if IsLarge(y) { var j := CoarseGrid(y); SameStep(i, j); }
    if IsLarge(z) { var j := CoarseGrid(z); SameStep(i, j); }
  }

  lemma SameStep(i: int, j: int)
    requires -0.000001 < i as real / 1_000_000.0 - j as real / 1_000_000.0 < 0.000001
    ensures i == j
  {
    NearIntegers(i, j);
  }

  /** A number is equal to two that differ, if and only if its magnitude is below 10^10. */
  lemma ApartExactly(x: string)
    requires IsNumber(x)
    ensures Apart(AllNumbers(), x) <==> !IsLarge(x)
  {
    hide Meaning, IsNumber;
    var D := AllNumbers();
    if IsLarge(x) {
      forall y, z | y in D && z in D && Near(y, x) && Near(x, z) ensures Near(y, z) { LargeIsNotApart(x, y, z); }
    } else {
      var y, z := Neighbours(x);
      assert y in D && z in D;
    }
  }

  /** No number in the value is of a magnitude below 10^10. */
  predicate LargeNumbers(b: Value) {
    match b
    case Number(literal) => IsLarge(literal)
    case Array(e) => forall i :: 0 <= i < |e| ==> LargeNumbers(e[i])
    case Object(m) => forall i :: 0 <= i < |m| ==> LargeNumbers(m[i].value)
    case _ => true
  }

  lemma {:induction false} FirmExactly(b: Value)
    requires WellFormed(b)
    ensures Firm(AllNumbers(), b) <==> LargeNumbers(b)
    decreases b
  {
    hide Apart, IsLarge, IsNumber;
    match b {
      case Number(literal) => ApartExactly(literal);
      case Array(e) =>
        forall i | 0 <= i < |e| ensures Firm(AllNumbers(), e[i]) <==> LargeNumbers(e[i]) { FirmExactly(e[i]); }
      case Object(m) =>
        forall i | 0 <= i < |m| ensures Firm(AllNumbers(), m[i].value) <==> LargeNumbers(m[i].value) {
          FirmExactly(m[i].value);
        }
      case _ =>
    }
  }

  /** Equality through b carries over to everything if and only if b has no number of a
      magnitude below 10^10. */
  lemma EqualityCarriesExactly(b: Value)
    requires WellFormed(b)
    ensures (forall a, c :: WellFormed(a) && WellFormed(c) && Same(a, b) && Same(b, c) ==> Same(a, c))
            <==> LargeNumbers(b)
  {
    hide Firm, Same, WellFormed, LargeNumbers;
    FirmCarriesExactly(b);
    FirmExactly(b);
  }

  /** 2^-20: a double, and the literal that `%1.17g` prints for it. */
  const Small := "9.5367431640625e-07"

  lemma SmallParts() returns (fraction: string, exponent: string)
    ensures IsParts("9", fraction, exponent) && AllDigits(fraction) && IsExponent(exponent)
    ensures Small == Literal(false, "9", fraction, exponent) && |fraction| == 13 && ExponentOf(exponent) == -7
  {
    hide DigitsValue;
    fraction := "5367431640625";
    exponent := SmallExponent(7);
  }

  lemma SmallMagnitude(fraction: string, exponent: string)
    requires AllDigits(fraction) && |fraction| == 13 && IsExponent(exponent) && ExponentOf(exponent) == -7
    ensures 0.0000009 <= MagnitudeOf("9", fraction, exponent) < 0.000001
  {
    hide DigitsValue, Pow10, Ten, IsExponent, ExponentOf;
    var t := "9" + fraction;
    SmallDigits(t);
    SmallPowers();
    Between(DigitsValue(t) as real, 9.0 * Ten(13) as real, Ten(14) as real, Pow10(-20), 0.0000009, 0.000001);
    assert ExponentOf(exponent) - |fraction| == -20;
  }

  lemma SmallDigits(t: string)
    requires AllDigits(t) && |t| == 14 && t[0] == '9'
    ensures 9 * Ten(13) <= DigitsValue(t) < Ten(14)
  {
    hide DigitsValue, Ten;
    DigitsLower(t);
    DigitsBound(t);
    assert t[0] as int - '0' as int == 9;
  }

  lemma SmallPowers()
    ensures Pow10(-20) > 0.0
    ensures 9.0 * Ten(13) as real * Pow10(-20) == 0.0000009 && Ten(14) as real * Pow10(-20) == 0.000001
  {
    hide Pow10, Ten;
    Tens();
    Pow10Sum(-20, 13);
    Pow10Sum(-20, 14);
    Pow10Inverse(6);
    Pow10Inverse(7);
    Pow10Positive(-20);
  }

  lemma Between(d: real, low: real, high: real, x: real, p: real, q: real)
    requires low <= d < high && x > 0.0 && low * x == p && high * x == q
    ensures p <= d * x < q
  {
    Scaled(low, d, x);
    Scaled(d, high, x);
  }

  lemma Scaled(a: real, b: real, x: real)
    requires x > 0.0
    ensures a <= b ==> a * x <= b * x
    ensures a < b ==> a * x < b * x
  {
  }

  lemma SmallMeans()
    ensures IsNumber(Small) && IsNumber("-" + Small)
    ensures 0.0000009 <= Meaning(Small) < 0.000001 && Meaning("-" + Small) == -Meaning(Small)
  {
    hide Meaning, IsParts, IsExponent, ExponentOf, MagnitudeOf;
    var fraction, exponent := SmallParts();
    SmallMagnitude(fraction, exponent);
    assert "-" + Small == Literal(true, "9", fraction, exponent);
    MeaningOfParts(false, "9", fraction, exponent);
    MeaningOfParts(true, "9", fraction, exponent);
  }

  lemma ZeroMeans()
    ensures IsNumber("0") && Meaning("0") == 0.0
  {
    hide Meaning, IsG17, DigitsValue;
    Tens();
    IntegerMeans(false, 0);
    assert Digits(0) == "0" && Literal(false, "0", "", "") == "0";
  }

  /** An example: equality does not carry over through 0. */
  lemma SameIsNotTransitive()
    ensures var a, b, c := Number("-" + Small), Number("0"), Number(Small);
            && WellFormed(a) && WellFormed(b) && WellFormed(c)
            && Same(a, b) && Same(b, c) && !Same(a, c) && !Firm(AllNumbers(), b)
  {
    hide Meaning, IsNumber;
    SmallMeans();
    ZeroMeans();
    assert "-" + Small in AllNumbers() && Small in AllNumbers();
  }

  // ---------------------------------------------------------------- validation

  /** json_validate: null stands for any value, an array's first element for every element,
      and an object asks for members of its names. */
  ghost predicate Validates(schema: Value, v: Value) {
    match schema
    case Null => true
    case Bool(_) => v.Bool?
    case Number(_) => v.Number?
    case String(_) => v.String?
    case Array(e) => v.Array? && (e != [] ==> forall i :: 0 <= i < |v.elements| ==> Validates(e[0], v.elements[i]))
    case Object(m) => v.Object? && forall i :: 0 <= i < |m| ==> ValidAt(m, i, v.members)
  }

  ghost predicate ValidAt(m: seq<Item<Value>>, i: nat, n: seq<Item<Value>>)
    requires i < |m|
    decreases m[i].value
  {
    Has(n, m[i].name) && Validates(m[i].value, n[Find(n, m[i].name)].value)
  }

  method Validate(schema: Value, v: Value) returns (ok: bool)
    requires WellFormed(schema) && WellFormed(v)
    ensures ok == Validates(schema, v)
    decreases schema, 1
  {
    match schema {
      case Null => ok := true;
      case Bool(_) => ok := v.Bool?;
      case Number(_) => ok := v.Number?;
      case String(_) => ok := v.String?;
      case Array(e) =>
        if !v.Array? {
          return false;
        }
        if |e| == 0 {
          return true;
        }
        for i := 0 to |v.elements|
          invariant forall k :: 0 <= k < i ==> Validates(e[0], v.elements[k])
        {
          var valid := Validate(e[0], v.elements[i]);
          if !valid {
            return false;
          }
        }
        ok := true;
      case Object(m) =>
        if !v.Object? {
          return false;
        }
        ok := ValidateMembers(m, v.members);
    }
  }

  /** The object case; too few members are refused before any is looked at, which never
      changes the verdict. */
  method ValidateMembers(m: seq<Item<Value>>, n: seq<Item<Value>>) returns (ok: bool)
    requires WellFormed(Object(m)) && WellFormed(Object(n))
    ensures ok == Validates(Object(m), Object(n))
    decreases m, 0
  {
    hide Find;
    if |m| == 0 {
      return true;
    }
    TooFew(m, n);
    if |n| < |m| {
      return false;
    }
    for i := 0 to |m|
      invariant forall k :: 0 <= k < i ==> ValidAt(m, k, n)
    {
      FindAt(m, i);
      var x, y := Lookup(m, m[i].name), Lookup(n, m[i].name);
      if y.None? {
        assert !ValidAt(m, i, n);
        return false;
      }
      var valid := Validate(x.value, y.value);
      if !valid {
        return false;
      }
    }
    ok := true;
  }

  /** An object with fewer members than the schema is never valid. */
  lemma TooFew(m: seq<Item<Value>>, n: seq<Item<Value>>)
    requires Distinct(m) && Distinct(n)
    ensures |n| < |m| ==> !Validates(Object(m), Object(n))
  {
    hide Find;
    if Validates(Object(m), Object(n)) {
      forall i | 0 <= i < |m| ensures Has(n, m[i].name) { assert ValidAt(m, i, n); }
      NamesCounted(m, n);
    }
  }

  /** w has everything v has: objects, at any depth, may have more members. */
  ghost predicate Widens(v: Value, w: Value) {
    match v
    case Array(e) => w.Array? && |e| == |w.elements| && forall i :: 0 <= i < |e| ==> Widens(e[i], w.elements[i])
    case Object(m) => w.Object? && forall i :: 0 <= i < |m| ==>
        Has(w.members, m[i].name) && Widens(m[i].value, w.members[Find(w.members, m[i].name)].value)
    case _ => v == w
  }

  /** Adding members to objects, at any depth, keeps a value valid. */
  lemma {:induction false} WideningKeepsValid(schema: Value, v: Value, w: Value)
    requires Validates(schema, v) && Widens(v, w)
    ensures Validates(schema, w)
    decreases schema
  {
    match schema {
      case Array(e) =>
        if e != [] {
          forall i | 0 <= i < |w.elements| ensures Validates(e[0], w.elements[i]) {
            WideningKeepsValid(e[0], v.elements[i], w.elements[i]);
          }
        }
      case Object(m) =>
        forall i | 0 <= i < |m| ensures ValidAt(m, i, w.members) {
          assert ValidAt(m, i, v.members);
          var k := Find(v.members, m[i].name);
          WideningKeepsValid(m[i].value, v.members[k].value, w.members[Find(w.members, m[i].name)].value);
        }
      case _ =>
    }
  }

  /** Nothing the schema b accepts is refused by the schema a: where they meet, an empty
      array in b is not met by an array in a that asks for something. */
  ghost predicate NoClash(a: Value, b: Value) {
    match a
    case Array(e) =>
      b.Array? && e != [] ==> if b.elements == [] then e[0] == Null else NoClash(e[0], b.elements[0])
    case Object(m) =>
      b.Object? ==> forall i :: 0 <= i < |m| ==>
        (Has(b.members, m[i].name) ==> NoClash(m[i].value, b.members[Find(b.members, m[i].name)].value))
    case _ => true
  }

  /** No array in the value, as far as a schema looks at it, is empty. */
  ghost predicate NoEmptyArray(b: Value) {
    match b
    case Array(e) => e != [] && NoEmptyArray(e[0])
    case Object(m) => forall i :: 0 <= i < |m| ==> NoEmptyArray(m[i].value)
    case _ => true
  }

  lemma {:induction false} NothingEmptyNoClash(a: Value, b: Value)
    requires NoEmptyArray(b)
    ensures NoClash(a, b)
    decreases a
  {
    match a {
      case Array(e) =>
        if b.Array? && e != [] { NothingEmptyNoClash(e[0], b.elements[0]); }
      case Object(m) =>
        if b.Object? {
          forall i | 0 <= i < |m| && Has(b.members, m[i].name)
            ensures NoClash(m[i].value, b.members[Find(b.members, m[i].name)].value)
          {
            NothingEmptyNoClash(m[i].value, b.members[Find(b.members, m[i].name)].value);
          }
        }
      case _ =>
    }
  }

  /** Validation carries over through b when a and b do not clash. */
  lemma {:induction false} ValidationCarriesOver(a: Value, b: Value, c: Value)
    requires Validates(a, b) && NoClash(a, b) && Validates(b, c) && WellFormed(b)
    ensures Validates(a, c)
    decreases a
  {
    match a {
      case Array(e) =>
        if e != [] && e[0] != Null {
          forall i | 0 <= i < |c.elements| ensures Validates(e[0], c.elements[i]) {
            ValidationCarriesOver(e[0], b.elements[0], c.elements[i]);
          }
        }
      case Object(m) =>
        var n := b.members;
        forall i | 0 <= i < |m| ensures ValidAt(m, i, c.members) {
          assert ValidAt(m, i, n);
          var k := Find(n, m[i].name);
          assert ValidAt(n, k, c.members);
          ValidationCarriesOver(m[i].value, n[k].value, c.members[Find(c.members, m[i].name)].value);
        }
      case _ =>
    }
  }

  /** The emptiest value b accepts. */
  function Sample(b: Value): Value {
    match b
    case Array(_) => Array([])
    case Object(m) => Object(SampleMembers(m))
    case _ => b
  }

  function SampleMembers(m: seq<Item<Value>>): (r: seq<Item<Value>>)
    ensures |r| == |m|
    ensures forall i :: 0 <= i < |m| ==> r[i].name == m[i].name
  {
    if m == [] then [] else [Item(m[0].name, Sample(m[0].value))] + SampleMembers(m[1..])
  }

  lemma {:induction false} SampleMemberAt(m: seq<Item<Value>>, i: nat)
    requires i < |m|
    ensures SampleMembers(m)[i].value == Sample(m[i].value)
  {
    if i > 0 { SampleMemberAt(m[1..], i - 1); }
  }

  lemma {:induction false} SampleIsValid(b: Value)
    requires WellFormed(b)
    ensures Validates(b, Sample(b))
    decreases b
  {
    if b.Object? {
      var m, r := b.members, SampleMembers(b.members);
      forall i | 0 <= i < |m| ensures ValidAt(m, i, r) {
        SampleMemberAt(m, i);
        SameFind(r, m[i].name, i);
        SampleIsValid(m[i].value);
      }
    }
  }

  lemma {:induction false} SampleIsWellFormed(b: Value)
    requires WellFormed(b)
    ensures WellFormed(Sample(b))
    decreases b
  {
    hide IsNumber, IsName;
    if b.Object? {
      var m, r := b.members, SampleMembers(b.members);
      forall i | 0 <= i < |m| ensures IsName(r[i].name) && WellFormed(r[i].value) {
        SampleMemberAt(m, i);
        SampleIsWellFormed(m[i].value);
      }
    }
  }

  /** A value that b accepts and a does not, when the two clash. */
  lemma {:induction false} ClashIsSeen(a: Value, b: Value) returns (c: Value)
    requires Validates(a, b) && WellFormed(a) && WellFormed(b) && !NoClash(a, b)
    ensures WellFormed(c) && Validates(b, c) && !Validates(a, c)
    decreases a
  {
    match a {
      case Array(e) =>
        if b.elements == [] {
          c := Array([Null]);
          assert !Validates(e[0], c.elements[0]);
        } else {
          var x := ClashIsSeen(e[0], b.elements[0]);
          c := Array([x]);
          assert !Validates(e[0], c.elements[0]);
        }
      case Object(m) =>
        var n := b.members;
        var i :| 0 <= i < |m| && Has(n, m[i].name) && !NoClash(m[i].value, n[Find(n, m[i].name)].value);
        assert ValidAt(m, i, n);
        var k := Find(n, m[i].name);
        var x := ClashIsSeen(m[i].value, n[k].value);
        c := SampleWith(n, k, x);
        SameFind(c.members, m[i].name, k);
        assert !ValidAt(m, i, c.members);
    }
  }

  /** The sample with one member's value replaced by one that is valid there. */
  lemma SampleWith(n: seq<Item<Value>>, k: nat, x: Value) returns (c: Value)
    requires WellFormed(Object(n)) && k < |n| && Validates(n[k].value, x) && WellFormed(x)
    ensures WellFormed(c)
    ensures c.Object? && |c.members| == |n| && (forall j :: 0 <= j < |n| ==> c.members[j].name == n[j].name)
    ensures c.members[k].value == x && Validates(Object(n), c)
  {
    var r := SampleMembers(n)[k := Item(n[k].name, x)];
    c := Object(r);
    forall j | 0 <= j < |n| ensures ValidAt(n, j, r) {
      SampleMemberAt(n, j);
      SameFind(r, n[j].name, j);
      SampleIsValid(n[j].value);
    }
    SampleIsWellFormed(Object(n));
    ReplacedIsWellFormed(SampleMembers(n), k, x);
  }

  lemma ReplacedIsWellFormed(m: seq<Item<Value>>, k: nat, x: Value)
    requires WellFormed(Object(m)) && k < |m| && WellFormed(x)
    ensures WellFormed(Object(m[k := Item(m[k].name, x)]))
  {
    hide IsNumber, IsName;
  }

  /** Validation through b carries over to everything b accepts if and only if a and b do
      not clash. */
  lemma CarriesOverExactly(a: Value, b: Value)
    requires WellFormed(a) && WellFormed(b) && Validates(a, b)
    ensures (forall c :: WellFormed(c) && Validates(b, c) ==> Validates(a, c)) <==> NoClash(a, b)
  {
    if NoClash(a, b) {
      forall c | WellFormed(c) && Validates(b, c) ensures Validates(a, c) {
        ValidationCarriesOver(a, b, c);
      }
    } else {
      var c := ClashIsSeen(a, b);
    }
  }

  /** In particular it carries over through a value without empty arrays. */
  lemma ValidationTransitive(a: Value, b: Value, c: Value)
    requires WellFormed(b) && Validates(a, b) && Validates(b, c) && NoEmptyArray(b)
    ensures Validates(a, c)
  {
    NothingEmptyNoClash(a, b);
    ValidationCarriesOver(a, b, c);
  }

  /** An example of a clash: [1] accepts [], [] accepts [null], but [1] does not. */
  lemma EmptyArrayClashes()
    ensures var a, b, c := Array([Number("1")]), Array([]), Array([Null]);
            Validates(a, b) && Validates(b, c) && !Validates(a, c) && !NoClash(a, b)
  {
    var c := Array([Null]);
    assert !Validates(Number("1"), c.elements[0]);
  }
}
