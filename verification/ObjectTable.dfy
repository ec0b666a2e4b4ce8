/** The hash table behind a JSON object: open addressing over `cells`, which index a dense,
    ordered item store (`names`, `values`, `hashes`, `cellIxs`).

  Every method is proved against the ordered lists of module `Items`.
 */
module ObjectTable {
  import opened Bits
  import opened Items
  import opened Probing

  const STARTING_CAPACITY := 16
  const WORD := 0x1_0000_0000_0000_0000  // unsigned long and size_t are 64 bits wide

  // ---------------------------------------------------------------- hashing

  /** strlen: the characters before the first NUL. */
  function StrLen(s: string): (n: nat)
    ensures n <= |s| && '\0' !in s[..n] && (n < |s| ==> s[n] == '\0')
  {
    if s == [] || s[0] == '\0' then 0 else 1 + StrLen(s[1..])
  }

  /** hash * 33 + c over the characters, in 64 bits. */
  function Djb2(s: string): (h: nat)
    ensures h < WORD
  {
    if s == [] then 5381
    else
      var h := Djb2(s[..|s| - 1]);
      (Shl(h, 5) + h + s[|s| - 1] as int) % WORD
  }

  function HashOf(key: string): (h: nat)
    ensures h < WORD
  {
    Djb2(key[..StrLen(key)])
  }

  /** The hash without the reduction: 5381 and the characters as the digits of a number to the
      base 33. */
  function Weighted(s: string): nat {
    if s == [] then 5381 else 33 * Weighted(s[..|s| - 1]) + s[|s| - 1] as int
  }

  /** Reducing after each character is reducing once at the end. */
  lemma {:induction false} Djb2IsWeighted(s: string)
    ensures Djb2(s) == Weighted(s) % WORD
  {
    if s != [] {
      var front, c := s[..|s| - 1], s[|s| - 1] as int;
      Djb2IsWeighted(front);
      ShlIsTimes(Djb2(front), 5);
      assert Pow2(5) == 32;
      ReduceOnce(Weighted(front), c);
    }
  }

  lemma ReduceOnce(w: nat, c: nat)
    ensures (w % WORD * 32 + w % WORD + c) % WORD == (33 * w + c) % WORD
  {
    var q, r := w / WORD, w % WORD;
    assert 33 * w + c == (33 * q) * WORD + (33 * r + c);
    ModAdds(33 * q, 33 * r + c, WORD);
  }

  lemma ModAdds(q: nat, r: nat, m: nat)
    requires m > 0
    ensures (q * m + r) % m == r % m
  {
    var k := r / m;
    ModUnique(q * m + r, m, q + k, r % m);
  }

  method HashString(s: string) returns (hash: nat)
    ensures hash == HashOf(s)
  {
    hash := 5381;
    for i := 0 to |s|
      invariant i <= StrLen(s) && hash == Djb2(s[..i])
    {
      if s[i] == '\0' {
        break;
      }
      assert s[..i + 1][..i] == s[..i];
      hash := (Shl(hash, 5) + hash + s[i] as int) % WORD;
    }
  }

  // ---------------------------------------------------------------- capacities and homes

  ghost predicate IsCapacity(capacity: nat) {
    capacity == 0 || exists k: nat :: k >= 4 && capacity == Pow2(k)
  }

  /** capacity - 1 in size_t. */
  function MaskOf(capacity: nat): nat {
    if capacity == 0 then WORD - 1 else capacity - 1
  }

  /** The cell where probing for `key` starts. */
  function Home(key: string, capacity: nat): (h: nat)
    ensures capacity > 0 ==> h < capacity
  {
    if capacity == 0 then 0 else HashOf(key) % capacity
  }

  lemma MaskIsHome(key: string, capacity: nat)
    requires IsCapacity(capacity) && capacity > 0
    ensures And(HashOf(key), MaskOf(capacity)) == Home(key, capacity)
  {
    var k: nat :| k >= 4 && capacity == Pow2(k);
    AndLowMask(HashOf(key), k);
  }

  lemma MaskWraps(ix: nat, i: nat, capacity: nat)
    requires IsCapacity(capacity) && ix < capacity && i <= capacity
    ensures And(ix + i, MaskOf(capacity)) == if ix + i < capacity then ix + i else ix + i - capacity
  {
    var k: nat :| k >= 4 && capacity == Pow2(k);
    AndLowMask(ix + i, k);
    ModUnique(ix + i, capacity, if ix + i < capacity then 0 else 1,
              if ix + i < capacity then ix + i else ix + i - capacity);
  }

  function Grown(capacity: nat): nat {
    if capacity * 2 > STARTING_CAPACITY then capacity * 2 else STARTING_CAPACITY
  }

  lemma AtLeastSixteen(capacity: nat)
    requires IsCapacity(capacity) && capacity > 0
    ensures capacity >= 16
  {
    var k: nat :| k >= 4 && capacity == Pow2(k);
    Pow2Grows(k);
  }

  lemma {:induction false} Pow2Grows(k: nat)
    requires k >= 4
    ensures Pow2(k) >= 16
  {
    assert Pow2(4) == 16;
    if k > 4 { Pow2Grows(k - 1); }
  }

  lemma GrownIsCapacity(capacity: nat)
    requires IsCapacity(capacity)
    ensures IsCapacity(Grown(capacity)) && Grown(capacity) == if capacity == 0 then 16 else 2 * capacity
  {
    assert Pow2(4) == 16;
    if capacity > 0 {
      AtLeastSixteen(capacity);
      var k: nat :| k >= 4 && capacity == Pow2(k);
      assert Pow2(k + 1) == capacity * 2;
    }
  }

  // ---------------------------------------------------------------- consistency

  function Homes<V>(items: seq<Item<V>>, capacity: nat): (r: seq<nat>)
    ensures |r| == |items| && forall i :: 0 <= i < |r| ==> r[i] == Home(items[i].name, capacity)
  {
    seq(|items|, i requires 0 <= i < |items| => Home(items[i].name, capacity))
  }

  ghost predicate Hashed<V>(hashes: seq<nat>, items: seq<Item<V>>) {
    |hashes| == |items| && forall i :: 0 <= i < |items| ==> hashes[i] == HashOf(items[i].name)
  }

  /** How the cells, the hashes, the items and the back pointers of a table hang together. */
  ghost predicate Consistent<V>(cells: seq<int>, hashes: seq<nat>, items: seq<Item<V>>, ixs: seq<nat>) {
    && Hashed(hashes, items)
    && Distinct(items)
    && Inv(cells, Homes(items, |cells|), ixs)
  }

  /** The same, except that cell `hole` is stale and nothing points at it. */
  ghost predicate ConsistentBut<V>(cells: seq<int>, hashes: seq<nat>, items: seq<Item<V>>, ixs: seq<nat>, hole: nat) {
    && Hashed(hashes, items)
    && Distinct(items)
    && HoleInv(cells, Homes(items, |cells|), ixs, hole)
  }

  lemma PlaceKeepsConsistent<V>(cells: seq<int>, hashes: seq<nat>, items: seq<Item<V>>, ixs: seq<nat>,
                                item: Item<V>, ix: nat)
    requires Consistent(cells, hashes, items, ixs) && !Has(items, item.name)
    requires ix < |cells| && cells[ix] == EMPTY && Occupied(cells, Home(item.name, |cells|), ix)
    ensures Consistent(cells[ix := |items|], hashes + [HashOf(item.name)], items + [item], ixs + [ix])
  {
    PlaceKeepsInv(cells, Homes(items, |cells|), ixs, Home(item.name, |cells|), ix);
    assert Homes(items + [item], |cells|) == Homes(items, |cells|) + [Home(item.name, |cells|)];
  }

  lemma ReplaceKeepsConsistent<V>(cells: seq<int>, hashes: seq<nat>, items: seq<Item<V>>, ixs: seq<nat>,
                                  k: nat, value: V)
    requires Consistent(cells, hashes, items, ixs) && k < |items|
    ensures Consistent(cells, hashes, items[k := Item(items[k].name, value)], ixs)
  {
    assert Homes(items[k := Item(items[k].name, value)], |cells|) == Homes(items, |cells|);
  }

  lemma HashedRemoveAt<V>(hashes: seq<nat>, items: seq<Item<V>>, k: nat, capacity: nat)
    requires Hashed(hashes, items) && k < |items|
    ensures Hashed(RemoveAt(hashes, k), RemoveAt(items, k))
    ensures Homes(RemoveAt(items, k), capacity) == RemoveAt(Homes(items, capacity), k)
  {
  }

  lemma MoveLastLeavesHole<V>(cells: seq<int>, hashes: seq<nat>, items: seq<Item<V>>, ixs: seq<nat>, k: nat)
    requires Consistent(cells, hashes, items, ixs) && k < |items|
    ensures |ixs| == |items| && ixs[|items| - 1] < |cells|
    ensures ConsistentBut(Repointed(cells, ixs, k), RemoveAt(hashes, k), RemoveAt(items, k), RemoveAt(ixs, k), ixs[k])
  {
    hide Inv, HoleInv, Hashed, Distinct, RemoveAt, Repointed;
    HashedRemoveAt(hashes, items, k, |cells|);
    RemoveAtLookup(items, k, items[k].name);
    InvRanges(cells, Homes(items, |cells|), ixs);
    MoveLastOpensHole(cells, Homes(items, |cells|), ixs, k);
  }

  lemma ShiftIsConsistent<V>(cells: seq<int>, hashes: seq<nat>, items: seq<Item<V>>, ixs: seq<nat>, hole: nat)
    requires ConsistentBut(cells, hashes, items, ixs, hole) && |items| + 1 < |cells|
    ensures hole < |cells| && Hashed(hashes, items)
    ensures Safe(cells, Homes(items, |cells|), ixs, hole)
    ensures var (cells', ixs') := Shift(cells, Homes(items, |cells|), ixs, hole, hole, |cells| - 1);
            Consistent(cells', hashes, items, ixs')
  {
    ShiftFromHole(cells, Homes(items, |cells|), ixs, hole);
  }

  // ---------------------------------------------------------------- probing for a key

  /** The first `i` cells probed from `start` are occupied by items with other names. */
  ghost predicate Missed<V>(cells: seq<int>, items: seq<Item<V>>, key: string, start: nat, i: nat) {
    forall q :: 0 <= q < |cells| && start < |cells| ==> Dist(start, q, |cells|) < i ==>
      0 <= cells[q] < |items| && items[cells[q]].name != key
  }

  lemma MissedOneMore<V>(cells: seq<int>, items: seq<Item<V>>, key: string, start: nat, ix: nat)
    requires start < |cells| && ix < |cells|
    requires Missed(cells, items, key, start, Dist(start, ix, |cells|))
    requires 0 <= cells[ix] < |items| && items[cells[ix]].name != key
    ensures Missed(cells, items, key, start, Dist(start, ix, |cells|) + 1)
  {
  }

  /** A probe that reaches an empty cell without meeting `key` shows that it is absent. */
  lemma MissedEverywhere<V>(cells: seq<int>, items: seq<Item<V>>, ixs: seq<nat>, key: string, ix: nat)
    requires Inv(cells, Homes(items, |cells|), ixs)
    requires ix < |cells| && cells[ix] == EMPTY
    requires Missed(cells, items, key, Home(key, |cells|), Dist(Home(key, |cells|), ix, |cells|))
    ensures !Has(items, key)
    ensures Occupied(cells, Home(key, |cells|), ix)
  {
    forall k | 0 <= k < |items| ensures items[k].name != key {
      var h, p := Home(items[k].name, |cells|), ixs[k];
      assert Homes(items, |cells|)[k] == h;
      assert cells[p] == k;
      assert Dist(h, ix, |cells|) >= Dist(h, p, |cells|);
      assert p != ix;
    }
  }

  /** An empty cell stops every probe of a non-empty table. */
  lemma CannotMissAll<V>(cells: seq<int>, items: seq<Item<V>>, ixs: seq<nat>, key: string, start: nat)
    requires Linked(cells, ixs, -1) && (|cells| > 0 ==> |ixs| < |cells| && start < |cells|)
    requires Missed(cells, items, key, start, |cells|)
    ensures |cells| == 0
  {
    forall p | 0 <= p < |cells| ensures cells[p] != EMPTY {
      var d := Dist(start, p, |cells|);
    }
    if |cells| > 0 {
      SomeEmpty(cells, ixs, -1);
    }
  }

  // ---------------------------------------------------------------- compaction

  ghost predicate Masked(hashes: seq<nat>, homes: seq<nat>, capacity: nat) {
    |hashes| == |homes| && forall k :: 0 <= k < |homes| ==> And(hashes[k], MaskOf(capacity)) == homes[k]
  }

  lemma MasksAreHomes<V>(hashes: seq<nat>, items: seq<Item<V>>, capacity: nat)
    requires Hashed(hashes, items) && IsCapacity(capacity) && capacity > 0
    ensures Masked(hashes, Homes(items, capacity), capacity)
  {
    forall k | 0 <= k < |items| ensures And(hashes[k], MaskOf(capacity)) == Homes(items, capacity)[k] {
      MaskIsHome(items[k].name, capacity);
    }
  }

  /** The compaction loop of json_object_remove_internal, starting at the removed item's cell. */
  method ShiftLoop(cells: array<int>, cellIxs: array<nat>, hashes: array<nat>, count: nat, cell: nat,
                   ghost homes: seq<nat>)
    requires cellIxs != hashes && count <= cellIxs.Length && count <= hashes.Length
    requires cell < cells.Length && IsCapacity(cells.Length)
    requires Safe(cells[..], homes, cellIxs[..count], cell)
    requires Masked(hashes[..count], homes, cells.Length)
    modifies cells, cellIxs
    ensures (cells[..], cellIxs[..count])
            == old(Shift(cells[..], homes, cellIxs[..count], cell, cell, cells.Length - 1))
  {
    hide Shift, Safe, Masked, IsCapacity, And, MaskOf;
    ghost var cs, ixs := cells[..], cellIxs[..count];
    ghost var hs, end := hashes[..count], Shift(cs, homes, ixs, cell, cell, cells.Length - 1);
    var i: nat, j: nat, x: nat := cell, cell, 0;
    while x < cells.Length - 1
      invariant cells[..] == cs && cellIxs[..count] == ixs && i < cells.Length && j < cells.Length
      invariant Safe(cs, homes, ixs, i) && x < cells.Length
      invariant Dist(i, j, cells.Length) <= x
      invariant Shift(cs, homes, ixs, i, j, cells.Length - 1 - x) == end
    {
      MaskWraps(j, 1, cells.Length);
      ShiftRound(cs, homes, ixs, i, j, cells.Length - 1 - x);
      j := And(j + 1, MaskOf(cells.Length));
      if cells[j] == EMPTY {
        break;
      }
      HomeMasked(hs, homes, cells.Length, cs[j]);
      var k := And(hashes[cells[j]], MaskOf(cells.Length));
      if (j > i && (k <= i || k > j)) || (j < i && (k <= i && k > j)) {
        cs, ixs := cs[i := cs[j]], ixs[cs[j] := i];
        cellIxs[cells[j]] := i;
        cells[i] := cells[j];
        i := j;
      }
      x := x + 1;
    }
    if x == cells.Length - 1 { ShiftEnds(cs, homes, ixs, i, j); }
    cells[i] := EMPTY;
  }

  lemma HomeMasked(hashes: seq<nat>, homes: seq<nat>, capacity: nat, k: int)
    requires Masked(hashes, homes, capacity) && 0 <= k < |homes|
    ensures k < |hashes| && And(hashes[k], MaskOf(capacity)) == homes[k]
  {
  }

  lemma ShiftEnds(cells: seq<int>, homes: seq<nat>, ixs: seq<nat>, hole: nat, j: nat)
    requires Safe(cells, homes, ixs, hole) && j < |cells|
    ensures hole < |cells| && Shift(cells, homes, ixs, hole, j, 0) == (cells[hole := EMPTY], ixs)
  {
  }

  /** A round of the loop. */
  lemma ShiftRound(cells: seq<int>, homes: seq<nat>, ixs: seq<nat>, hole: nat, j: nat, steps: nat)
    requires Safe(cells, homes, ixs, hole) && j < |cells| && hole < |cells|
    requires 0 < steps && Dist(hole, j, |cells|) + steps < |cells|
    ensures var j' := Next(j, |cells|);
            && j' != hole && |homes| == |ixs| && (cells[j'] == EMPTY || 0 <= cells[j'] < |ixs|)
            && (cells[j'] == EMPTY ==> Shift(cells, homes, ixs, hole, j, steps) == (cells[hole := EMPTY], ixs))
            && (cells[j'] != EMPTY && Crosses(hole, j', homes[cells[j']]) ==>
                  var cells', ixs' := cells[hole := cells[j']], ixs[cells[j'] := hole];
                  && Safe(cells', homes, ixs', j')
                  && Shift(cells, homes, ixs, hole, j, steps) == Shift(cells', homes, ixs', j', j', steps - 1))
            && (cells[j'] != EMPTY && !Crosses(hole, j', homes[cells[j']]) ==>
                  && Dist(hole, j', |cells|) == Dist(hole, j, |cells|) + 1
                  && Shift(cells, homes, ixs, hole, j, steps) == Shift(cells, homes, ixs, hole, j', steps - 1))
  {
  }

  /** Swap-with-last on the item store, when item k is not the last. */
  method MoveFields<V>(names: array<string>, values: array<V>, hashes: array<nat>, k: nat, last: nat)
    requires names as object != values && values as object != hashes && names as object != hashes
    requires k <= last < names.Length == values.Length == hashes.Length
    modifies names, values, hashes
    ensures hashes[..last] == RemoveAt(old(hashes[..last + 1]), k)
    ensures forall i :: 0 <= i < last ==> names[i] == old(names[if i == k then last else i])
    ensures forall i :: 0 <= i < last ==> values[i] == old(values[if i == k then last else i])
  {
    if k < last {
      names[k] := names[last];
      values[k] := values[last];
      hashes[k] := hashes[last];
    }
  }

  /** The same for the back pointers, pointing the moved item's cell at its new slot. */
  method MoveCell(cells: array<int>, cellIxs: array<nat>, k: nat, last: nat)
    requires cells as object != cellIxs && k <= last < cellIxs.Length && cellIxs[last] < cells.Length
    modifies cells, cellIxs
    ensures cells[..] == old(Repointed(cells[..], cellIxs[..last + 1], k))
    ensures cellIxs[..last] == RemoveAt(old(cellIxs[..last + 1]), k)
  {
    if k < last {
      cellIxs[k] := cellIxs[last];
      cells[cellIxs[k]] := k;
    }
  }

  // ---------------------------------------------------------------- the table

  /** The five arrays of a table are different ones. */
  ghost predicate Separate<V>(cells: array<int>, hashes: array<nat>, names: array<string>, values: array<V>,
                              cellIxs: array<nat>)
  {
    && hashes != cellIxs && cells as object != hashes && cells as object != cellIxs
    && names as object != cells && names as object != hashes && names as object != cellIxs
    && values as object != cells && values as object != hashes
    && values as object != names && values as object != cellIxs
  }

  class ObjectTable<V(0)> {
    ghost var items: seq<Item<V>>  // the item store, as a list
    var cells: array<int>
    var hashes: array<nat>
    var names: array<string>
    var values: array<V>
    var cellIxs: array<nat>
    var count: nat
    var itemCapacity: nat
    var cellCapacity: nat

    ghost function Repr(): set<object>
      reads this
    {
      {this, cells, hashes, names, values, cellIxs}
    }

    ghost predicate Shape()
      reads this, names, values
    {
      && Separate(cells, hashes, names, values, cellIxs)
      && cells.Length == cellCapacity
      && hashes.Length == names.Length == values.Length == cellIxs.Length == itemCapacity
      && itemCapacity == cellCapacity * 7 / 10
      && IsCapacity(cellCapacity)
      && |items| == count <= itemCapacity
      && forall i :: 0 <= i < count ==> items[i] == Item(names[i], values[i])
    }

    ghost predicate Valid()
      reads this, cells, hashes, names, values, cellIxs
    {
      Shape() && Consistent(cells[..], hashes[..count], items, cellIxs[..count])
    }

    /** json_object_init. */
    constructor (capacity: nat)
      requires IsCapacity(capacity)
      ensures Valid() && items == [] && cellCapacity == capacity
      ensures 10 * itemCapacity <= 7 * capacity < 10 * itemCapacity + 10
      ensures fresh(Repr())
    {
      items := [];
      cells := new int[capacity](_ => EMPTY);
      hashes := new nat[capacity * 7 / 10];
      names := new string[capacity * 7 / 10];
      values := new V[capacity * 7 / 10];
      cellIxs := new nat[capacity * 7 / 10];
      count := 0;
      cellCapacity := capacity;
      itemCapacity := capacity * 7 / 10;
    }

    /** The cell that holds `key`, or the empty cell where it would go; -1 when there are no
        cells. */
    method GetCellIx(key: string, hash: nat) returns (ix: int, found: bool)
      requires Valid() && hash == HashOf(key)
      ensures found == Has(items, key)
      ensures found ==> 0 <= ix < cellCapacity && cells[ix] == Find(items, key)
      ensures found ==> cellIxs[Find(items, key)] == ix
      ensures !found && cellCapacity == 0 ==> ix == EMPTY
      ensures !found && cellCapacity > 0 ==>
                0 <= ix < cellCapacity && cells[ix] == EMPTY && Occupied(cells[..], Home(key, cellCapacity), ix)
    {
      var cellIx := And(hash, MaskOf(cellCapacity));
      ghost var cs, ixs := cells[..], cellIxs[..count];
      if cellCapacity > 0 {
        MaskIsHome(key, cellCapacity);
      }
      for i := 0 to cellCapacity
        invariant Missed(cs, items, key, cellIx, i)
      {
        ix := And(cellIx + i, MaskOf(cellCapacity));
        MaskWraps(cellIx, i, cellCapacity);
        assert Dist(cellIx, ix, cellCapacity) == i;
        var cell := cells[ix];
        assert cell == cs[ix];
        if cell == EMPTY {
          MissedEverywhere(cs, items, ixs, key, ix);
          return ix, false;
        }
        assert ixs[cell] == ix;
        if hash == hashes[cell] && names[cell] == key {
          FindAt(items, cell);
          return ix, true;
        }
        assert hashes[..count][cell] == HashOf(items[cell].name);
        MissedOneMore(cs, items, key, cellIx, ix);
      }
      CannotMissAll(cs, items, ixs, key, cellIx);
      ix, found := EMPTY, false;
    }

    /** The five writes that put a new item at an empty cell, shared by json_object_add and
        json_object_set_value. */
    method Place(name: string, value: V, hash: nat, cellIx: nat)
      requires Valid() && !Has(items, name) && hash == HashOf(name)
      requires count < itemCapacity && cellIx < cellCapacity
      requires cells[cellIx] == EMPTY && Occupied(cells[..], Home(name, cellCapacity), cellIx)
      modifies Repr()
      ensures Valid() && Repr() == old(Repr()) && cellCapacity == old(cellCapacity)
      ensures items == old(items) + [Item(name, value)]
    {
      hide Consistent, Occupied, IsCapacity;
      ghost var cs, hs, ixs := cells[..], hashes[..count], cellIxs[..count];
      PlaceKeepsConsistent(cs, hs, items, ixs, Item(name, value), cellIx);
      names[count] := name;
      cells[cellIx] := count;
      values[count] := value;
      cellIxs[count] := cellIx;
      hashes[count] := hash;
      assert cells[..] == cs[cellIx := count];
      assert cellIxs[..count + 1] == ixs + [cellIx];
      assert hashes[..count + 1] == hs + [hash];
      count := count + 1;
      items := items + [Item(name, value)];
    }

    /** json_object_grow_and_rehash: same items in the same order, in a larger table. */
    method GrowAndRehash()
      requires Valid()
      modifies Repr()
      ensures Valid() && items == old(items) && fresh(Repr() - {this})
      ensures cellCapacity == Grown(old(cellCapacity)) && count < itemCapacity
      decreases 1, 1
    {
      var newCapacity := if cellCapacity * 2 > STARTING_CAPACITY then cellCapacity * 2 else STARTING_CAPACITY;
      GrownIsCapacity(cellCapacity);
      var newObject := new ObjectTable<V>(newCapacity);
      AddAllTo(newObject);
      Become(newObject);
    }

    /** The re-insertion loop. Every insertion succeeds and none of them grows the new table. */
    method AddAllTo(newObject: ObjectTable<V>)
      requires Valid() && newObject.Valid() && newObject.items == [] && Repr() !! newObject.Repr()
      requires count < newObject.cellCapacity * 7 / 10
      modifies newObject.Repr()
      ensures newObject.Valid() && newObject.items == items && newObject.Repr() == old(newObject.Repr())
      ensures newObject.cellCapacity == old(newObject.cellCapacity)
      decreases 1, 0
    {
      for i := 0 to count
        invariant newObject.Valid() && newObject.Repr() == old(newObject.Repr())
        invariant newObject.cellCapacity == old(newObject.cellCapacity)
        invariant newObject.items == items[..i]
      {
        NextOfDistinct(items, i);
        var ok := newObject.Add(names[i], values[i]);
        assert ok;
      }
    }

    /** The structure assignment `*object = new_object`. */
    method Become(other: ObjectTable<V>)
      requires other.Valid() && other != this
      modifies this
      ensures Valid() && cells == other.cells && hashes == other.hashes && names == other.names
      ensures values == other.values && cellIxs == other.cellIxs
      ensures items == old(other.items) && cellCapacity == old(other.cellCapacity)
    {
      hide Consistent, IsCapacity, Separate;
      items := other.items;
      cells, hashes, names := other.cells, other.hashes, other.names;
      values, cellIxs := other.values, other.cellIxs;
      count, itemCapacity, cellCapacity := other.count, other.itemCapacity, other.cellCapacity;
    }

    /** json_object_add: fails, changing nothing, when the name is taken. */
    method Add(name: string, value: V) returns (ok: bool)
      requires Valid()
      modifies Repr()
      ensures Valid() && fresh(Repr() - old(Repr()))
      ensures ok == Items.Add(old(items), name, value).Some?
      ensures items == if ok then Items.Add(old(items), name, value).value else old(items)
      ensures old(count) < old(itemCapacity) ==> Repr() == old(Repr()) && cellCapacity == old(cellCapacity)
      decreases if count >= itemCapacity then 2 else 0, 1
    {
      hide Consistent, IsCapacity, Occupied;
      var hash := HashString(name);
      var cellIx, found := GetCellIx(name, hash);
      if found {
        return false;
      }
      Insert(name, value, hash, cellIx);
      ok := true;
    }

    /** The tail of json_object_add and json_object_set_value: a new name, after growing when
        the item store is full. */
    method Insert(name: string, value: V, hash: nat, ix: int)
      requires Valid() && !Has(items, name) && hash == HashOf(name)
      requires cellCapacity > 0 ==>
                 0 <= ix < cellCapacity && cells[ix] == EMPTY && Occupied(cells[..], Home(name, cellCapacity), ix)
      modifies Repr()
      ensures Valid() && fresh(Repr() - old(Repr()))
      ensures items == old(items) + [Item(name, value)]
      ensures old(count) < old(itemCapacity) ==> Repr() == old(Repr()) && cellCapacity == old(cellCapacity)
      decreases if count >= itemCapacity then 2 else 0, 0
    {
      if count >= itemCapacity {
        GrowAndRehash();
        var cellIx, _ := GetCellIx(name, hash);
        Place(name, value, hash, cellIx);
      } else {
        Place(name, value, hash, ix);
      }
    }

    method Replace(itemIx: nat, value: V)
      requires Valid() && itemIx < count
      modifies this`items, values
      ensures Valid()
      ensures items == old(items)[itemIx := Item(old(items)[itemIx].name, value)]
    {
      hide Consistent, IsCapacity;
      ReplaceKeepsConsistent(cells[..], hashes[..count], items, cellIxs[..count], itemIx, value);
      values[itemIx] := value;
      items := items[itemIx := Item(items[itemIx].name, value)];
    }

    /** json_object_set_value, for a value without a parent. */
    method SetValue(name: string, value: V)
      requires Valid()
      modifies Repr()
      ensures Valid() && fresh(Repr() - old(Repr()))
      ensures items == Set(old(items), name, value)
    {
      hide Consistent, IsCapacity, Occupied;
      var hash := HashString(name);
      var cellIx, found := GetCellIx(name, hash);
      if found {
        var itemIx := cells[cellIx];
        Replace(itemIx, value);
      } else {
        Insert(name, value, hash, cellIx);
      }
    }

    /** json_object_getn_value. */
    method GetValue(name: string) returns (r: Option<V>)
      requires Valid()
      ensures r == Lookup(items, name)
    {
      hide Consistent, IsCapacity, Occupied;
      var hash := HashString(name);
      var cellIx, found := GetCellIx(name, hash);
      if !found {
        return None;
      }
      var itemIx := cells[cellIx];
      r := Some(values[itemIx]);
    }

    /** First half of json_object_remove_internal: the last item moves into slot itemIx. */
    method MoveLast(itemIx: nat)
      requires Valid() && itemIx < count
      modifies this`count, this`items, cells, names, values, cellIxs, hashes
      ensures Shape() && items == RemoveAt(old(items), itemIx) && count == old(count) - 1
      ensures ConsistentBut(cells[..], hashes[..count], items, cellIxs[..count], old(cellIxs[itemIx]))
    {
      hide Consistent, ConsistentBut, IsCapacity;
      var lastItemIx := count - 1;
      MoveLastLeavesHole(cells[..], hashes[..count], items, cellIxs[..count], itemIx);
      assert cellIxs[lastItemIx] == cellIxs[..count][lastItemIx];
      MoveFields(names, values, hashes, itemIx, lastItemIx);
      MoveCell(cells, cellIxs, itemIx, lastItemIx);
      count := lastItemIx;
      items := RemoveAt(items, itemIx);
    }

    /** Second half of json_object_remove_internal: items after the hole whose probe path
        crosses it are shifted back, with wraparound. */
    method ShiftBack(cell: nat)
      requires Shape() && count < itemCapacity
      requires ConsistentBut(cells[..], hashes[..count], items, cellIxs[..count], cell)
      modifies cells, cellIxs
      ensures Valid()
    {
      hide Consistent, ConsistentBut, Safe, IsCapacity;
      ghost var hs := hashes[..count];
      ShiftIsConsistent(cells[..], hs, items, cellIxs[..count], cell);
      MasksAreHomes(hs, items, cellCapacity);
      ShiftLoop(cells, cellIxs, hashes, count, cell, Homes(items, cellCapacity));
      assert hashes[..count] == hs;
    }

    /** json_object_remove_internal. */
    method Remove(name: string) returns (ok: bool)
      requires Valid()
      modifies Repr()
      ensures Valid() && Repr() == old(Repr()) && cellCapacity == old(cellCapacity)
      ensures ok == Items.Remove(old(items), name).Some?
      ensures items == if ok then Items.Remove(old(items), name).value else old(items)
    {
      hide Consistent, ConsistentBut, IsCapacity, Occupied;
      var hash := HashString(name);
      var cell, found := GetCellIx(name, hash);
      if !found {
        return false;
      }
      var itemIx := cells[cell];
      MoveLast(itemIx);
      ShiftBack(cell);
      ok := true;
    }

    /** The items by index, as json_object_get_name and json_object_get_value_at give them. */
    method Snapshot() returns (r: seq<Item<V>>)
      requires Valid()
      ensures r == items
    {
      r := [];
      for i := 0 to count
        invariant r == items[..i]
      {
        r := r + [Item(names[i], values[i])];
      }
    }

    /** json_object_clear: keeps the capacity. */
    method Clear()
      requires Valid()
      modifies Repr()
      ensures Valid() && items == [] && Repr() == old(Repr()) && cellCapacity == old(cellCapacity)
    {
      count := 0;
      items := [];
      for i := 0 to cellCapacity
        invariant Shape() && count == 0 && Repr() == old(Repr()) && cellCapacity == old(cellCapacity)
        invariant forall p :: 0 <= p < i ==> cells[p] == EMPTY
      {
        cells[i] := EMPTY;
      }
    }
  }
}
