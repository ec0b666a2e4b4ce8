/** Linear probing on a ring of cells.

  `cells[p]` is `EMPTY` or the index of an item; item k sits at cell `ixs[k]` and hashes to
  cell `homes[k]`. The invariant is kept by placing an item at the end of its probe path
  (`PlaceKeepsInv`) and by deletion: `MoveLastOpensHole`, any number of `ShiftStep`s, then
  `FillHoleKeepsInv`.
 */
module Probing {
  import opened Items

  const EMPTY := -1

  /** Steps forward from cell a to cell b on a ring of n cells. */
  function Dist(a: nat, b: nat, n: nat): (d: nat)
    requires a < n && b < n
    ensures d < n
  {
    if a <= b then b - a else b - a + n
  }

  function Next(a: nat, n: nat): nat
    requires a < n
  {
    if a + 1 == n then 0 else a + 1
  }

  /** Cells and items point at each other, except that nothing points at the cell `hole`
      (no cell, when `hole` is negative). */
  ghost predicate Linked(cells: seq<int>, ixs: seq<nat>, hole: int) {
    && (forall k :: 0 <= k < |ixs| ==> ixs[k] < |cells| && ixs[k] != hole && cells[ixs[k]] == k)
    && (forall p :: 0 <= p < |cells| && p != hole ==>
          cells[p] == EMPTY || (0 <= cells[p] < |ixs| && ixs[cells[p]] == p))
  }

  ghost predicate InRange(s: seq<nat>, n: nat) {
    forall k :: 0 <= k < |s| ==> s[k] < n
  }

  /** No empty cell lies on the way from an item's home to the item. */
  ghost predicate Probed(cells: seq<int>, homes: seq<nat>, ixs: seq<nat>)
    requires |homes| == |ixs| && InRange(homes, |cells|) && InRange(ixs, |cells|)
  {
    forall k, q :: 0 <= k < |ixs| && 0 <= q < |cells| ==>
      Dist(homes[k], q, |cells|) < Dist(homes[k], ixs[k], |cells|) ==> cells[q] != EMPTY
  }

  ghost predicate Inv(cells: seq<int>, homes: seq<nat>, ixs: seq<nat>) {
    && |homes| == |ixs|
    && InRange(homes, |cells|)
    && Linked(cells, ixs, -1)
    && Probed(cells, homes, ixs)
  }

  ghost predicate HoleInv(cells: seq<int>, homes: seq<nat>, ixs: seq<nat>, hole: nat) {
    && |homes| == |ixs|
    && InRange(homes, |cells|)
    && hole < |cells|
    && cells[hole] != EMPTY
    && Linked(cells, ixs, hole)
    && Probed(cells, homes, ixs)
  }

  /** All cells from `start` up to `end`, exclusive, are occupied. */
  ghost predicate Occupied(cells: seq<int>, start: nat, end: nat)
    requires start < |cells| && end < |cells|
  {
    forall q :: 0 <= q < |cells| && Dist(start, q, |cells|) < Dist(start, end, |cells|) ==> cells[q] != EMPTY
  }

  /** The items after the hole, up to cell j, have homes after the hole: their probe paths
      do not cross it. */
  ghost predicate Settled(cells: seq<int>, homes: seq<nat>, ixs: seq<nat>, hole: nat, j: nat)
    requires HoleInv(cells, homes, ixs, hole) && j < |cells|
  {
    forall q :: 0 <= q < |cells| && 0 < Dist(hole, q, |cells|) <= Dist(hole, j, |cells|) ==>
      cells[q] != EMPTY && Dist(homes[cells[q]], q, |cells|) < Dist(hole, q, |cells|)
  }

  // ---------------------------------------------------------------- empty cells

  function Upto(n: nat): (s: set<nat>)
    ensures |s| == n && forall x :: x in s <==> 0 <= x < n
  {
    if n == 0 then {} else Upto(n - 1) + {n - 1}
  }

  /** Pigeonhole: with fewer items than cells, the hole not counted, some cell is empty. */
  lemma SomeEmpty(cells: seq<int>, ixs: seq<nat>, hole: int)
    requires Linked(cells, ixs, hole)
    requires |ixs| + (if hole >= 0 then 1 else 0) < |cells|
    ensures exists p :: 0 <= p < |cells| && cells[p] == EMPTY
  {
    if forall p :: 0 <= p < |cells| ==> cells[p] != EMPTY {
      var taken := set k | 0 <= k < |ixs| :: ixs[k];
      var all := if hole >= 0 then taken + {hole} else taken;
      assert Upto(|cells|) <= all by {
        forall p | p in Upto(|cells|) && p != hole ensures p in taken {
          assert ixs[cells[p]] == p;
        }
      }
      ImageSize(ixs);
      SubsetSize(Upto(|cells|), all);
      assert false;
    }
  }

  lemma {:induction false} ImageSize(ixs: seq<nat>)
    ensures |set k | 0 <= k < |ixs| :: ixs[k]| <= |ixs|
  {
    var image := set k | 0 <= k < |ixs| :: ixs[k];
    if ixs == [] {
      assert image == {};
    } else {
      var init := ixs[..|ixs| - 1];
      ImageSize(init);
      assert image == (set k | 0 <= k < |init| :: init[k]) + {ixs[|ixs| - 1]};
    }
  }

  lemma SubsetSize<T>(a: set<T>, b: set<T>)
    requires a <= b
    ensures |a| <= |b|
  {
    assert b == a + (b - a);
  }

  /** The first empty cell at or after `start`. */
  lemma FirstEmpty(cells: seq<int>, start: nat) returns (e: nat)
    requires start < |cells|
    requires exists p :: 0 <= p < |cells| && cells[p] == EMPTY
    ensures e < |cells| && cells[e] == EMPTY && Occupied(cells, start, e)
  {
    var p :| 0 <= p < |cells| && cells[p] == EMPTY;
    e := start;
    while cells[e] != EMPTY
      invariant e < |cells| && Occupied(cells, start, e)
      invariant Dist(start, e, |cells|) <= Dist(start, p, |cells|)
      decreases Dist(start, p, |cells|) - Dist(start, e, |cells|)
    {
      e := Next(e, |cells|);
    }
  }

  // ---------------------------------------------------------------- insertion

  lemma PlaceKeepsInv(cells: seq<int>, homes: seq<nat>, ixs: seq<nat>, home: nat, ix: nat)
    requires Inv(cells, homes, ixs)
    requires home < |cells| && ix < |cells|
    requires cells[ix] == EMPTY && Occupied(cells, home, ix)
    ensures Inv(cells[ix := |ixs|], homes + [home], ixs + [ix])
  {
  }

  // ---------------------------------------------------------------- deletion

  lemma InvRanges(cells: seq<int>, homes: seq<nat>, ixs: seq<nat>)
    requires Inv(cells, homes, ixs)
    ensures |ixs| == |homes| && InRange(ixs, |cells|)
  {
  }

  /** The last item's cell now points at slot k, unless k is the last slot. */
  function Repointed(cells: seq<int>, ixs: seq<nat>, k: nat): (r: seq<int>)
    requires k < |ixs| && ixs[|ixs| - 1] < |cells|
    ensures |r| == |cells|
  {
    if k < |ixs| - 1 then cells[ixs[|ixs| - 1] := k] else cells
  }

  /** Overwriting item k with the last item, and pointing the last item's cell at k, leaves
      a hole at item k's old cell. */
  lemma MoveLastOpensHole(cells: seq<int>, homes: seq<nat>, ixs: seq<nat>, k: nat)
    requires Inv(cells, homes, ixs) && k < |ixs|
    ensures ixs[|ixs| - 1] < |cells|
    ensures HoleInv(Repointed(cells, ixs, k), RemoveAt(homes, k), RemoveAt(ixs, k), ixs[k])
  {
    RepointedLinked(cells, ixs, k);
    hide Linked, Repointed;
    var last, cells', homes', ixs' := |ixs| - 1, Repointed(cells, ixs, k), RemoveAt(homes, k), RemoveAt(ixs, k);
    forall i, q | 0 <= i < last && 0 <= q < |cells| && Dist(homes'[i], q, |cells|) < Dist(homes'[i], ixs'[i], |cells|)
      ensures cells'[q] != EMPTY
    {
      var i' := if i == k then last else i;
      assert Dist(homes[i'], q, |cells|) < Dist(homes[i'], ixs[i'], |cells|);
    }
  }

  lemma RepointedLinked(cells: seq<int>, ixs: seq<nat>, k: nat)
    requires Linked(cells, ixs, -1) && k < |ixs|
    ensures ixs[|ixs| - 1] < |cells|
    ensures Linked(Repointed(cells, ixs, k), RemoveAt(ixs, k), ixs[k])
    ensures Repointed(cells, ixs, k)[ixs[k]] != EMPTY && InRange(RemoveAt(ixs, k), |cells|)
    ensures forall q :: 0 <= q < |cells| && cells[q] != EMPTY ==> Repointed(cells, ixs, k)[q] != EMPTY
  {
  }

  /** Moving the item at j into the hole, when its home is not after the hole, moves the
      hole to j. */
  lemma ShiftKeepsHole(cells: seq<int>, homes: seq<nat>, ixs: seq<nat>, hole: nat, j: nat)
    requires HoleInv(cells, homes, ixs, hole)
    requires j < |cells| && j != hole && cells[j] != EMPTY
    requires Dist(homes[cells[j]], j, |cells|) >= Dist(hole, j, |cells|)
    ensures HoleInv(cells[hole := cells[j]], homes, ixs[cells[j] := hole], j)
  {
    var m, n := cells[j], |cells|;
    var cells', ixs' := cells[hole := m], ixs[m := hole];
    forall k, q | 0 <= k < |ixs'| && 0 <= q < n && Dist(homes[k], q, n) < Dist(homes[k], ixs'[k], n)
      ensures cells'[q] != EMPTY
    {
      if k == m {
        assert Dist(homes[m], hole, n) <= Dist(homes[m], j, n);
      }
      assert Dist(homes[k], q, n) < Dist(homes[k], ixs[k], n);
    }
  }

  /** The compaction loop's invariant: a hole, everything settled from it up to j, and e the
      first empty cell after it. */
  ghost predicate ShiftInv(cells: seq<int>, homes: seq<nat>, ixs: seq<nat>, hole: nat, j: nat, e: nat) {
    && HoleInv(cells, homes, ixs, hole)
    && j < |cells| && e < |cells|
    && Settled(cells, homes, ixs, hole, j)
    && cells[e] == EMPTY
    && Occupied(cells, hole, e)
    && Dist(hole, j, |cells|) < Dist(hole, e, |cells|)
  }

  /** One iteration of the loop, moving the next item or not. */
  lemma ShiftStep(cells: seq<int>, homes: seq<nat>, ixs: seq<nat>, hole: nat, j: nat, e: nat)
    requires ShiftInv(cells, homes, ixs, hole, j, e)
    requires cells[Next(j, |cells|)] != EMPTY
    ensures var n, j' := |cells|, Next(j, |cells|);
            && j' != hole
            && Dist(j', e, n) + 1 == Dist(j, e, n)
            && 0 <= cells[j'] < |ixs|
            && (if Dist(homes[cells[j']], j', n) >= Dist(hole, j', n)
                then ShiftInv(cells[hole := cells[j']], homes, ixs[cells[j'] := hole], j', j', e)
                else ShiftInv(cells, homes, ixs, hole, j', e))
  {
    var n, j' := |cells|, Next(j, |cells|);
    NextIsFarther(cells, hole, j, e);
    if Dist(homes[cells[j']], j', n) >= Dist(hole, j', n) {
      MovedOn(cells, homes, ixs, hole, j, e);
    } else {
      StayedOn(cells, homes, ixs, hole, j, e);
    }
  }

  lemma NextIsFarther(cells: seq<int>, hole: nat, j: nat, e: nat)
    requires hole < |cells| && j < |cells| && e < |cells| && cells[e] == EMPTY
    requires cells[Next(j, |cells|)] != EMPTY && Dist(hole, j, |cells|) < Dist(hole, e, |cells|)
    ensures var n, j' := |cells|, Next(j, |cells|);
            && j' != hole && Dist(j', e, n) + 1 == Dist(j, e, n)
            && Dist(hole, j', n) == Dist(hole, j, n) + 1 < Dist(hole, e, n)
  {
  }

  lemma MovedOn(cells: seq<int>, homes: seq<nat>, ixs: seq<nat>, hole: nat, j: nat, e: nat)
    requires ShiftInv(cells, homes, ixs, hole, j, e)
    requires var n, j' := |cells|, Next(j, |cells|);
             && cells[j'] != EMPTY && j' != hole && 0 <= cells[j'] < |ixs|
             && Dist(homes[cells[j']], j', n) >= Dist(hole, j', n)
             && Dist(hole, j', n) == Dist(hole, j, n) + 1 < Dist(hole, e, n)
    ensures var j' := Next(j, |cells|);
            ShiftInv(cells[hole := cells[j']], homes, ixs[cells[j'] := hole], j', j', e)
  {
    hide HoleInv;
    ShiftKeepsHole(cells, homes, ixs, hole, Next(j, |cells|));
    HoleInRange(cells, homes, ixs, hole);
  }

  lemma HoleInRange(cells: seq<int>, homes: seq<nat>, ixs: seq<nat>, hole: nat)
    requires HoleInv(cells, homes, ixs, hole)
    ensures |homes| == |ixs| && InRange(homes, |cells|) && InRange(ixs, |cells|) && hole < |cells|
  {
  }

  lemma StayedOn(cells: seq<int>, homes: seq<nat>, ixs: seq<nat>, hole: nat, j: nat, e: nat)
    requires ShiftInv(cells, homes, ixs, hole, j, e)
    requires var n, j' := |cells|, Next(j, |cells|);
             && cells[j'] != EMPTY && j' != hole && 0 <= cells[j'] < |ixs|
             && Dist(homes[cells[j']], j', n) < Dist(hole, j', n)
             && Dist(hole, j', n) == Dist(hole, j, n) + 1 < Dist(hole, e, n)
    ensures ShiftInv(cells, homes, ixs, hole, Next(j, |cells|), e)
  {
  }

  /** The loop's test for "the item at j has its home at or before the hole". */
  predicate Crosses(hole: nat, j: nat, home: nat) {
    (j > hole && (home <= hole || home > j)) || (j < hole && (home <= hole && home > j))
  }

  lemma CrossesIsFarther(hole: nat, j: nat, home: nat, n: nat)
    requires hole < n && j < n && home < n && hole != j
    ensures Crosses(hole, j, home) <==> Dist(home, j, n) >= Dist(hole, j, n)
  {
  }

  /** Once the next cell is empty, the hole can be emptied too. */
  lemma FillHoleKeepsInv(cells: seq<int>, homes: seq<nat>, ixs: seq<nat>, hole: nat, j: nat, e: nat)
    requires ShiftInv(cells, homes, ixs, hole, j, e)
    requires cells[Next(j, |cells|)] == EMPTY
    ensures Inv(cells[hole := EMPTY], homes, ixs)
  {
    var n := |cells|;
    assert Next(j, n) == e;
    forall k | 0 <= k < |ixs| ensures Dist(homes[k], hole, n) >= Dist(homes[k], ixs[k], n) {
      var h, p := homes[k], ixs[k];
      assert Dist(hole, p, n) <= Dist(hole, j, n) ==> Dist(h, p, n) < Dist(hole, p, n);
      assert Dist(h, e, n) >= Dist(h, p, n);
    }
  }

  /** Every cell but the hole is empty or holds an item's index. */
  ghost predicate Safe(cells: seq<int>, homes: seq<nat>, ixs: seq<nat>, hole: nat) {
    && |homes| == |ixs|
    && InRange(homes, |cells|)
    && hole < |cells|
    && forall p :: 0 <= p < |cells| && p != hole ==> cells[p] == EMPTY || 0 <= cells[p] < |ixs|
  }

  /** What the compaction loop leaves in the cells and the back pointers, with `steps`
      iterations to go. */
  ghost function Shift(cells: seq<int>, homes: seq<nat>, ixs: seq<nat>, hole: nat, j: nat, steps: nat)
    : (r: (seq<int>, seq<nat>))
    requires Safe(cells, homes, ixs, hole) && j < |cells|
    requires Dist(hole, j, |cells|) + steps < |cells|
    ensures |r.0| == |cells| && |r.1| == |ixs|
    decreases steps
  {
    var j' := Next(j, |cells|);
    if steps == 0 || cells[j'] == EMPTY then (cells[hole := EMPTY], ixs)
    else if Crosses(hole, j', homes[cells[j']]) then
      Shift(cells[hole := cells[j']], homes, ixs[cells[j'] := hole], j', j', steps - 1)
    else Shift(cells, homes, ixs, hole, j', steps - 1)
  }

  lemma ShiftNotDone(cells: seq<int>, homes: seq<nat>, ixs: seq<nat>, hole: nat, j: nat, e: nat)
    requires ShiftInv(cells, homes, ixs, hole, j, e)
    ensures hole < |cells| && j < |cells| && e < |cells| && Dist(j, e, |cells|) > 0
  {
  }

  /** The loop restores the invariant, given steps enough to reach the first empty cell. */
  lemma {:induction false} ShiftRestoresInv(cells: seq<int>, homes: seq<nat>, ixs: seq<nat>,
                                            hole: nat, j: nat, e: nat, steps: nat)
    requires ShiftInv(cells, homes, ixs, hole, j, e) && Safe(cells, homes, ixs, hole)
    requires Dist(j, e, |cells|) <= steps && Dist(hole, j, |cells|) + steps < |cells|
    ensures var (cells', ixs') := Shift(cells, homes, ixs, hole, j, steps);
            Inv(cells', homes, ixs')
    decreases steps
  {
    hide ShiftInv, Inv, Linked, Probed;
    ShiftNotDone(cells, homes, ixs, hole, j, e);
    var j' := Next(j, |cells|);
    if cells[j'] == EMPTY {
      FillHoleKeepsInv(cells, homes, ixs, hole, j, e);
    } else {
      ShiftStep(cells, homes, ixs, hole, j, e);
      CrossesIsFarther(hole, j', homes[cells[j']], |cells|);
      if Crosses(hole, j', homes[cells[j']]) {
        ShiftRestoresInv(cells[hole := cells[j']], homes, ixs[cells[j'] := hole], j', j', e, steps - 1);
      } else {
        ShiftRestoresInv(cells, homes, ixs, hole, j', e, steps - 1);
      }
    }
  }

  /** Deletion as a whole, from the hole on. */
  lemma ShiftFromHole(cells: seq<int>, homes: seq<nat>, ixs: seq<nat>, hole: nat)
    requires HoleInv(cells, homes, ixs, hole) && |ixs| + 1 < |cells|
    ensures Safe(cells, homes, ixs, hole)
    ensures var (cells', ixs') := Shift(cells, homes, ixs, hole, hole, |cells| - 1);
            Inv(cells', homes, ixs')
  {
    SomeEmpty(cells, ixs, hole);
    var e := FirstEmpty(cells, hole);
    ShiftRestoresInv(cells, homes, ixs, hole, hole, e, |cells| - 1);
  }
}
