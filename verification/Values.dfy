/** JSON values as trees. */
module Values {
  import opened Items
  import opened Numbers

  const MAX_NESTING := 2048

  /** A number is represented by its literal (see module Numbers). */
  datatype Value =
    | Null
    | Bool(b: bool)
    | Number(literal: string)
    | String(text: string)
    | Array(elements: seq<Value>)
    | Object(members: seq<Item<Value>>)

  /** Member names are C strings. */
  predicate IsName(name: string) {
    '\0' !in name
  }

  /** What the library's own constructors build: finite numbers, and objects whose names are
      distinct C strings. Strings may hold any bytes. */
  ghost predicate WellFormed(v: Value) {
    match v
    case Number(literal) => IsNumber(literal)
    case Array(elements) => forall i :: 0 <= i < |elements| ==> WellFormed(elements[i])
    case Object(members) =>
      && Distinct(members)
      && forall i :: 0 <= i < |members| ==> IsName(members[i].name) && WellFormed(members[i].value)
    case _ => true
  }

  /** Objects have distinct names that are C strings, at every depth. */
  ghost predicate Sane(v: Value) {
    match v
    case Array(elements) => forall k :: 0 <= k < |elements| ==> Sane(elements[k])
    case Object(members) =>
      Distinct(members) && forall k :: 0 <= k < |members| ==> IsName(members[k].name) && Sane(members[k].value)
    case _ => true
  }

  function Max(a: nat, b: nat): (m: nat)
    ensures m >= a && m >= b && (m == a || m == b)
  {
    if a > b then a else b
  }

  /** Nesting depth: 0 for scalars and for empty arrays and objects. */
  function Depth(v: Value): nat {
    match v
    case Array(elements) => ElementsDepth(elements)
    case Object(members) => MembersDepth(members)
    case _ => 0
  }

  /** One more than the deepest element; 0 when there is none. */
  function ElementsDepth(elements: seq<Value>): nat {
    if elements == [] then 0 else Max(1 + Depth(elements[0]), ElementsDepth(elements[1..]))
  }

  function MembersDepth(members: seq<Item<Value>>): nat {
    if members == [] then 0 else Max(1 + Depth(members[0].value), MembersDepth(members[1..]))
  }

  lemma ConsElementsDepth(elements: seq<Value>, v: Value, tail: seq<Value>)
    requires elements == [v] + tail
    ensures ElementsDepth(elements) == Max(1 + Depth(v), ElementsDepth(tail))
    ensures tail == [] ==> ElementsDepth(elements) == 1 + Depth(v)
  {
    hide Depth;
    assert elements[1..] == tail;
  }

  lemma ConsMembersDepth(members: seq<Item<Value>>, item: Item<Value>, tail: seq<Item<Value>>)
    requires members == [item] + tail
    ensures MembersDepth(members) == Max(1 + Depth(item.value), MembersDepth(tail))
    ensures tail == [] ==> MembersDepth(members) == 1 + Depth(item.value)
  {
    hide Depth;
    assert members[1..] == tail;
  }

  lemma NoDepth()
    ensures ElementsDepth([]) == 0 && MembersDepth([]) == 0
  {
  }
}
