/** Ordered name/value lists: what a JSON object means, apart from its hash table.

  `Set`, `Add` and `Remove` say what the table operations do to the list, order included;
  `RunRefines` relates any run of them to the same run on a finite map.
 */
module Items {

  datatype Option<+T> = None | Some(value: T)

  datatype Item<V> = Item(name: string, value: V)

  ghost predicate Distinct<V>(items: seq<Item<V>>) {
    forall i, j :: 0 <= i < j < |items| ==> items[i].name != items[j].name
  }

  /** Position of the first item called `name`, or the length when there is none. */
  function Find<V>(items: seq<Item<V>>, name: string): (k: nat)
    ensures k <= |items|
    ensures k < |items| ==> items[k].name == name
    ensures forall j :: 0 <= j < k ==> items[j].name != name
  {
    if items == [] then 0
    else if items[0].name == name then 0
    else 1 + Find(items[1..], name)
  }

  predicate Has<V>(items: seq<Item<V>>, name: string) {
    Find(items, name) < |items|
  }

  function Lookup<V>(items: seq<Item<V>>, name: string): Option<V> {
    var k := Find(items, name);
    if k < |items| then Some(items[k].value) else None
  }

  function Set<V>(items: seq<Item<V>>, name: string, value: V): seq<Item<V>> {
    var k := Find(items, name);
    if k < |items| then items[k := Item(name, value)] else items + [Item(name, value)]
  }

  function Add<V>(items: seq<Item<V>>, name: string, value: V): Option<seq<Item<V>>> {
    if Has(items, name) then None else Some(items + [Item(name, value)])
  }

  /** The last item takes the place of the one removed. */
  function RemoveAt<T>(s: seq<T>, k: nat): (r: seq<T>)
    requires k < |s|
    ensures |r| == |s| - 1
    ensures forall i :: 0 <= i < |r| ==> r[i] == s[if i == k then |s| - 1 else i]
  {
    s[k := s[|s| - 1]][..|s| - 1]
  }

  function Remove<V>(items: seq<Item<V>>, name: string): Option<seq<Item<V>>> {
    var k := Find(items, name);
    if k < |items| then Some(RemoveAt(items, k)) else None
  }

  // ---------------------------------------------------------------- finite maps

  function NameSet<V>(items: seq<Item<V>>): set<string> {
    set i | 0 <= i < |items| :: items[i].name
  }

  function ToMap<V>(items: seq<Item<V>>): map<string, V> {
    map x | x in NameSet(items) && Has(items, x) :: items[Find(items, x)].value
  }

  /** In a list with distinct names, the item at any index is the one its name finds. */
  lemma FindAt<V>(items: seq<Item<V>>, k: nat)
    requires Distinct(items) && k < |items|
    ensures Find(items, items[k].name) == k
  {
  }

  /** Adding the items of a list one by one never meets a name twice. */
  lemma NextOfDistinct<V>(items: seq<Item<V>>, i: nat)
    requires Distinct(items) && i < |items|
    ensures Add(items[..i], items[i].name, items[i].value) == Some(items[..i + 1])
  {
    assert items[..i + 1] == items[..i] + [items[i]];
  }

  lemma ToMapLookup<V>(items: seq<Item<V>>, name: string)
    ensures Lookup(items, name) == if name in ToMap(items) then Some(ToMap(items)[name]) else None
  {
    var k := Find(items, name);
    if k < |items| {
      assert name in NameSet(items);
    }
  }

  /** Two lists with the same lookups have the same map. */
  lemma SameLookupsSameMap<V>(items: seq<Item<V>>, m: map<string, V>)
    requires forall x :: Lookup(items, x) == if x in m then Some(m[x]) else None
    ensures ToMap(items) == m
  {
    var t := ToMap(items);
    forall x
      ensures x in t <==> x in m
      ensures x in t ==> t[x] == m[x]
    {
      ToMapLookup(items, x);
      assert Lookup(items, x) == if x in m then Some(m[x]) else None;
    }
  }

  lemma {:induction false} NameSetSize<V>(items: seq<Item<V>>)
    requires Distinct(items)
    ensures |NameSet(items)| == |items|
  {
    if items == [] {
      assert NameSet(items) == {};
    } else {
      var last := |items| - 1;
      NameSetSize(items[..last]);
      assert items[last].name !in NameSet(items[..last]);
      assert NameSet(items) == NameSet(items[..last]) + {items[last].name};
    }
  }

  /** With distinct names, the map has as many entries as the list has items. */
  lemma CountIsMapSize<V>(items: seq<Item<V>>)
    requires Distinct(items)
    ensures |ToMap(items)| == |items|
  {
    NameSetSize(items);
    forall x | x in NameSet(items) ensures Has(items, x) {
      var i :| 0 <= i < |items| && items[i].name == x;
    }
    assert ToMap(items).Keys == NameSet(items);
  }

  lemma SetLookup<V>(items: seq<Item<V>>, name: string, value: V, x: string)
    ensures Lookup(Set(items, name, value), x) == if x == name then Some(value) else Lookup(items, x)
  {
    var r := Set(items, name, value);
    var k, kx := Find(items, name), Find(items, x);
    SameFind(r, x, if x == name then k else if kx == |items| then |r| else kx);
  }

  /** `Find` is determined by its contract. */
  lemma SameFind<V>(items: seq<Item<V>>, x: string, k: nat)
    requires k <= |items| && (k < |items| ==> items[k].name == x)
    requires forall j :: 0 <= j < k ==> items[j].name != x
    ensures Find(items, x) == k
  {
  }

  lemma RemoveAtLookup<V>(items: seq<Item<V>>, k: nat, x: string)
    requires Distinct(items) && k < |items|
    ensures Distinct(RemoveAt(items, k))
    ensures Lookup(RemoveAt(items, k), x) == if x == items[k].name then None else Lookup(items, x)
  {
    var r, last, kx := RemoveAt(items, k), |items| - 1, Find(items, x);
    assert forall i :: 0 <= i < |r| ==> r[i] == items[if i == k then last else i];
    if x == items[k].name || kx == |items| {
      assert forall i :: 0 <= i < |r| ==> r[i].name != x;
      SameFind(r, x, |r|);
    } else {
      var at := if kx == last then k else kx;
      assert r[at] == items[kx];
      SameFind(r, x, at);
    }
  }

  // ---------------------------------------------------------------- whole runs

  datatype Op<V> =
    | OpSet(name: string, value: V)
    | OpAdd(name: string, value: V)
    | OpRemove(name: string)
    | OpClear
    | OpGet(name: string)

  /** `Status` is what the updating calls return; `Got` what a lookup returns. */
  datatype Answer<V> = Status(ok: bool) | Got(found: Option<V>)

  function StepItems<V>(items: seq<Item<V>>, op: Op<V>): (seq<Item<V>>, Answer<V>) {
    match op
    case OpSet(name, value) => (Set(items, name, value), Status(true))
    case OpAdd(name, value) =>
      var r := Add(items, name, value);
      if r.Some? then (r.value, Status(true)) else (items, Status(false))
    case OpRemove(name) =>
      var r := Remove(items, name);
      if r.Some? then (r.value, Status(true)) else (items, Status(false))
    case OpClear => ([], Status(true))
    case OpGet(name) => (items, Got(Lookup(items, name)))
  }

  function StepMap<V>(m: map<string, V>, op: Op<V>): (map<string, V>, Answer<V>) {
    match op
    case OpSet(name, value) => (m[name := value], Status(true))
    case OpAdd(name, value) => if name in m then (m, Status(false)) else (m[name := value], Status(true))
    case OpRemove(name) => if name in m then (m - {name}, Status(true)) else (m, Status(false))
    case OpClear => (map[], Status(true))
    case OpGet(name) => (m, Got(if name in m then Some(m[name]) else None))
  }

  function RunItems<V>(items: seq<Item<V>>, ops: seq<Op<V>>): (seq<Item<V>>, seq<Answer<V>>)
    decreases |ops|
  {
    if ops == [] then (items, [])
    else
      var last := |ops| - 1;
      var (mid, answers) := RunItems(items, ops[..last]);
      var (end, answer) := StepItems(mid, ops[last]);
      (end, answers + [answer])
  }

  /** One more operation. */
  lemma RunMore<V>(items: seq<Item<V>>, ops: seq<Op<V>>, k: nat)
    requires k < |ops|
    ensures var (mid, answers) := RunItems(items, ops[..k]);
            var (end, answer) := StepItems(mid, ops[k]);
            RunItems(items, ops[..k + 1]) == (end, answers + [answer])
  {
    assert ops[..k + 1][..k] == ops[..k];
  }

  function RunMap<V>(m: map<string, V>, ops: seq<Op<V>>): (map<string, V>, seq<Answer<V>>)
    decreases |ops|
  {
    if ops == [] then (m, [])
    else
      var last := |ops| - 1;
      var (mid, answers) := RunMap(m, ops[..last]);
      var (end, answer) := StepMap(mid, ops[last]);
      (end, answers + [answer])
  }

  lemma StepLookup<V>(items: seq<Item<V>>, op: Op<V>, x: string)
    requires Distinct(items)
    ensures var m' := StepMap(ToMap(items), op).0;
            Lookup(StepItems(items, op).0, x) == if x in m' then Some(m'[x]) else None
  {
    ToMapLookup(items, x);
    match op {
      case OpSet(name, value) =>
        SetLookup(items, name, value, x);
      case OpAdd(name, value) =>
        ToMapLookup(items, name);
        SetLookup(items, name, value, x);
      case OpRemove(name) =>
        ToMapLookup(items, name);
        if Has(items, name) { RemoveAtLookup(items, Find(items, name), x); }
      case OpClear =>
      case OpGet(name) =>
    }
  }

  lemma StepAnswer<V>(items: seq<Item<V>>, op: Op<V>)
    requires Distinct(items)
    ensures Distinct(StepItems(items, op).0)
    ensures StepItems(items, op).1 == StepMap(ToMap(items), op).1
  {
    match op {
      case OpSet(name, value) =>
      case OpAdd(name, value) => ToMapLookup(items, name);
      case OpRemove(name) =>
        ToMapLookup(items, name);
        if Has(items, name) { RemoveAtLookup(items, Find(items, name), name); }
      case OpClear =>
      case OpGet(name) => ToMapLookup(items, name);
    }
  }

  lemma StepRefines<V>(items: seq<Item<V>>, op: Op<V>)
    requires Distinct(items)
    ensures Distinct(StepItems(items, op).0)
    ensures StepItems(items, op).1 == StepMap(ToMap(items), op).1
    ensures ToMap(StepItems(items, op).0) == StepMap(ToMap(items), op).0
  {
    hide StepItems, StepMap, ToMap, Lookup;
    StepAnswer(items, op);
    var next, m' := StepItems(items, op).0, StepMap(ToMap(items), op).0;
    forall x ensures Lookup(next, x) == if x in m' then Some(m'[x]) else None {
      StepLookup(items, op, x);
    }
    SameLookupsSameMap(next, m');
  }

  /** Every run on the list answers as the same run on a finite map, ends at the list of
      that map, keeps names distinct, and counts as many items as the map has entries. */
  lemma {:induction false} RunRefines<V>(items: seq<Item<V>>, ops: seq<Op<V>>)
    requires Distinct(items)
    ensures var (end, answers) := RunItems(items, ops);
            && Distinct(end)
            && (ToMap(end), answers) == RunMap(ToMap(items), ops)
            && |end| == |RunMap(ToMap(items), ops).0|
    decreases |ops|
  {
    hide StepItems, StepMap, ToMap, Distinct;
    if ops == [] {
      CountIsMapSize(items);
    } else {
      var last := |ops| - 1;
      RunRefines(items, ops[..last]);
      var mid := RunItems(items, ops[..last]).0;
      StepRefines(mid, ops[last]);
      CountIsMapSize(StepItems(mid, ops[last]).0);
    }
  }

  lemma RunFromEmpty<V>(ops: seq<Op<V>>)
    ensures var (end, answers) := RunItems([], ops);
            (ToMap(end), answers) == RunMap(map[], ops) && |end| == |ToMap(end)|
  {
    assert ToMap<V>([]) == map[];
    RunRefines([], ops);
  }
}
