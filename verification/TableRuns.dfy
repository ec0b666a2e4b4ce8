/** Whole runs of an object table against a finite map. */
module TableRuns {
  import opened Items
  import T = ObjectTable

  method Step<V(0)>(table: T.ObjectTable<V>, op: Op<V>) returns (answer: Answer<V>)
    requires table.Valid()
    modifies table.Repr()
    ensures table.Valid() && fresh(table.Repr() - old(table.Repr()))
    ensures (table.items, answer) == StepItems(old(table.items), op)
  {
    match op {
      case OpSet(name, value) =>
        table.SetValue(name, value);
        answer := Status(true);
      case OpAdd(name, value) =>
        var ok := table.Add(name, value);
        answer := Status(ok);
      case OpRemove(name) =>
        var ok := table.Remove(name);
        answer := Status(ok);
      case OpClear =>
        table.Clear();
        answer := Status(true);
      case OpGet(name) =>
        var found := table.GetValue(name);
        answer := Got(found);
    }
  }

  /** Any sequence of calls on an empty object answers as a finite map would; at the end the
      table holds that map, with as many items, and has an empty cell left for probing. */
  method Run<V(0)>(ops: seq<Op<V>>) returns (table: T.ObjectTable<V>, answers: seq<Answer<V>>)
    ensures table.Valid() && fresh(table.Repr())
    ensures table.items == RunItems([], ops).0
    ensures (ToMap(table.items), answers) == RunMap(map[], ops)
    ensures table.count == |ToMap(table.items)|
    ensures table.cellCapacity == 0 || table.count <= table.itemCapacity < table.cellCapacity
  {
    hide StepItems, RunItems, RunMap, ToMap, T.Consistent, T.IsCapacity, T.Separate;
    RunNothing<V>();
    table := new T.ObjectTable<V>(0);
    answers := [];
    for k := 0 to |ops|
      invariant table.Valid() && fresh(table.Repr())
      invariant RunItems([], ops[..k]) == (table.items, answers)
    {
      var answer := Step(table, ops[k]);
      answers := answers + [answer];
      RunMore([], ops, k);
    }
    assert ops[..|ops|] == ops;
    RunFromEmpty(ops);
  }

  lemma RunNothing<V>()
    ensures RunItems<V>([], []) == ([], [])
  {
  }
}
