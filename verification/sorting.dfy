/*******************************************************************************
 *  The two algorithms of disks.hpp: `sort_left_to_right` and `sort_lawnmower`,
 *  and their result `sorted_disks`.
 *
 *  Each algorithm repeats directional passes over a private copy of the row
 *  until `is_sorted()` holds. A pass swaps adjacent (light, dark) pairs and
 *  counts its swaps; every swap removes exactly one inversion, so the total
 *  swap count is the inversion count of the input row.
 *******************************************************************************/
module Sorting {
  import opened Disks
  import opened DiskOrder

  /** The output of either algorithm (`sorted_disks`): the final row and the number of swaps. */
  datatype SortedDisks = SortedDisks(after: DiskState, swapCount: nat)

  /**
   * One left-to-right pass: for each i, swap disks i and i + 1 when they are
   * (light, dark).
   *
   * The source's loop runs i up to `total_count() - 1` and there calls
   * `get(i + 1)` out of range; this pass deliberately stops at the last
   * in-range pair, `i + 1 < total_count()`. `ForwardPassAsWritten` below
   * models the loop bound exactly as written.
   */
  method ForwardPass(d: DiskState) returns (e: DiskState, swaps: nat)
    ensures e.TotalCount() == d.TotalCount()
    ensures multiset(e.colors) == multiset(d.colors)
    ensures e.Valid() <==> d.Valid()
    ensures Inversions(e.colors) + swaps == Inversions(d.colors)
    ensures swaps == 0 ==> e == d && NoLightDarkPair(d.colors)
  {
    e := d;
    swaps := 0;
    var i := 0;
    while i + 1 < e.TotalCount()
      invariant e.TotalCount() == d.TotalCount()
      invariant multiset(e.colors) == multiset(d.colors)
      invariant e.Valid() <==> d.Valid()
      invariant Inversions(e.colors) + swaps == Inversions(d.colors)
      invariant swaps == 0 ==> e == d
      invariant swaps == 0 ==> forall j :: 0 <= j < i && j + 1 < |d.colors| ==> !LightDarkAt(d.colors, j)
    {
      if e.Get(i) == Light && e.Get(i + 1) == Dark {
        SwapRemovesOneInversion(e, i);
        swaps := swaps + 1;
        e := e.Swap(i);
      }
      i := i + 1;
    }
  }

  /**
   * One right-to-left pass of the lawnmower: for each i from
   * `total_count() - 1` down to 1, swap disks i - 1 and i when they are
   * (light, dark). Every index it touches is in range.
   */
  method BackwardPass(d: DiskState) returns (e: DiskState, swaps: nat)
    requires d.TotalCount() > 0
    ensures e.TotalCount() == d.TotalCount()
    ensures multiset(e.colors) == multiset(d.colors)
    ensures e.Valid() <==> d.Valid()
    ensures Inversions(e.colors) + swaps == Inversions(d.colors)
    ensures swaps == 0 ==> e == d && NoLightDarkPair(d.colors)
  {
    e := d;
    swaps := 0;
    var i: nat := e.TotalCount() - 1;
    while i > 0
      invariant i < e.TotalCount() == d.TotalCount()
      invariant multiset(e.colors) == multiset(d.colors)
      invariant e.Valid() <==> d.Valid()
      invariant Inversions(e.colors) + swaps == Inversions(d.colors)
      invariant swaps == 0 ==> e == d
      invariant swaps == 0 ==> forall j :: i <= j && j + 1 < |d.colors| ==> !LightDarkAt(d.colors, j)
    {
      if e.Get(i) == Dark && e.Get(i - 1) == Light {
        SwapRemovesOneInversion(e, i - 1);
        swaps := swaps + 1;
        e := e.Swap(i - 1);
      }
      i := i - 1;
    }
  }

  /**
   * `sort_left_to_right`: repeat forward passes until the row is sorted.
   * The result is the sorted row of the same size, and the swap count is the
   * input's inversion count, n(n-1)/2 for n light disks.
   *
   * `Valid()` is needed as well as `IsAlternating()`: the odd-length row
   * "D L D" is alternating, becomes "D D L" after one swap, and then has no
   * pair left to swap while still failing `is_sorted`, so the loop would never
   * end. The constructor only builds rows with as many dark disks as light.
   */
  method SortLeftToRight(before: DiskState) returns (r: SortedDisks)
    requires before.Valid() && before.IsAlternating()
    ensures r.after.IsSorted()
    ensures r.after.TotalCount() == before.TotalCount()
    ensures multiset(r.after.colors) == multiset(before.colors)
    ensures r.after.colors == SortedRow(before.LightCount())
    ensures r.swapCount == Inversions(before.colors)
    ensures r.swapCount == before.LightCount() * (before.LightCount() - 1) / 2
    ensures before.IsSorted() ==> r == SortedDisks(before, 0)
  {
    var numSwaps := 0;
    var newDisks := before;
    while !newDisks.IsSorted()
      invariant newDisks.Valid()
      invariant newDisks.TotalCount() == before.TotalCount()
      invariant multiset(newDisks.colors) == multiset(before.colors)
      invariant numSwaps + Inversions(newDisks.colors) == Inversions(before.colors)
      decreases Inversions(newDisks.colors)
    {
      NoPairBalancedIsSorted(newDisks);
      var swaps;
      newDisks, swaps := ForwardPass(newDisks);
      numSwaps := numSwaps + swaps;
    }
    r := SortedDisks(newDisks, numSwaps);
    SortedOutcome(before, newDisks, numSwaps);
  }

  /**
   * `sort_lawnmower`: repeat a forward pass followed by a backward pass until
   * the row is sorted. Same result and same swap count as `SortLeftToRight`.
   */
  method SortLawnmower(before: DiskState) returns (r: SortedDisks)
    requires before.Valid() && before.IsAlternating()
    ensures r.after.IsSorted()
    ensures r.after.TotalCount() == before.TotalCount()
    ensures multiset(r.after.colors) == multiset(before.colors)
    ensures r.after.colors == SortedRow(before.LightCount())
    ensures r.swapCount == Inversions(before.colors)
    ensures r.swapCount == before.LightCount() * (before.LightCount() - 1) / 2
    ensures before.IsSorted() ==> r == SortedDisks(before, 0)
  {
    var numSwaps := 0;
    var newDisks := before;
    while !newDisks.IsSorted()
      invariant newDisks.Valid()
      invariant newDisks.TotalCount() == before.TotalCount()
      invariant multiset(newDisks.colors) == multiset(before.colors)
      invariant numSwaps + Inversions(newDisks.colors) == Inversions(before.colors)
      decreases Inversions(newDisks.colors)
    {
      NoPairBalancedIsSorted(newDisks);
      var forward, backward;
      newDisks, forward := ForwardPass(newDisks);
      numSwaps := numSwaps + forward;
      newDisks, backward := BackwardPass(newDisks);
      numSwaps := numSwaps + backward;
    }
    r := SortedDisks(newDisks, numSwaps);
    SortedOutcome(before, newDisks, numSwaps);
  }

  /**
   * What either sort knows once its loop has ended: the final row is sorted
   * and holds the input's disks, and the swaps made account for all
   * inversions of the input.
   */
  lemma SortedOutcome(before: DiskState, after: DiskState, swapCount: nat)
    requires before.Valid() && before.IsAlternating()
    requires after.Valid() && after.IsSorted()
    requires after.TotalCount() == before.TotalCount()
    requires swapCount + Inversions(after.colors) == Inversions(before.colors)
    ensures after.colors == SortedRow(before.LightCount())
    ensures swapCount == Inversions(before.colors)
    ensures swapCount == before.LightCount() * (before.LightCount() - 1) / 2
    ensures before.IsSorted() ==> after == before && swapCount == 0
  {
    var n := before.LightCount();
    ValidHalves(before);
    SortedIffNoInversions(after);
    SortedRowIff(after.colors);
    AlternatingRowIff(before.colors);
    AlternatingRowInversions(n);
    if before.IsSorted() {
      SortedRowIff(before.colors);
    }
  }

  // ---------------------------------------------------------------------------
  // The forward loop as written in the source
  // ---------------------------------------------------------------------------

  /** How the forward loop of the source ends: normally, or at a failed index assertion. */
  datatype PassOutcome = Completed(after: DiskState, swaps: nat) | IndexOutOfRange(index: nat)

  /**
   * The forward loop of `sort_left_to_right` and `sort_lawnmower` with its
   * bound exactly as written: i runs up to `total_count() - 1`, `get(i)` is
   * read first and `get(i + 1)` only when disk i is light (the `&&`
   * short-circuits). A `get` out of range fails its assertion.
   */
  function ForwardPassAsWritten(d: DiskState, i: nat, swaps: nat): (o: PassOutcome)
    ensures o.IndexOutOfRange? ==> o.index == d.TotalCount()
    ensures o.Completed? ==> o.after.TotalCount() == d.TotalCount()
    ensures o.Completed? ==> multiset(o.after.colors) == multiset(d.colors)
    ensures o.Completed? ==> o.swaps >= swaps
    decreases d.TotalCount() - i
  {
    if !(i < d.TotalCount()) then Completed(d, swaps)
    else if d.Get(i) != Light then ForwardPassAsWritten(d, i + 1, swaps)
    else if !d.IsIndex(i + 1) then IndexOutOfRange(i + 1)
    else if d.Get(i + 1) == Dark then ForwardPassAsWritten(d.Swap(i), i + 1, swaps + 1)
    else ForwardPassAsWritten(d, i + 1, swaps)
  }

  /**
   * When the last disk is light, the loop as written always reaches the last
   * index with a light disk there and reads one past the end of the row.
   */
  lemma {:induction false} AsWrittenPassOverrunsRow(d: DiskState, i: nat, swaps: nat)
    requires i < d.TotalCount()
    requires d.Get(d.TotalCount() - 1) == Light
    ensures ForwardPassAsWritten(d, i, swaps) == IndexOutOfRange(d.TotalCount())
    decreases d.TotalCount() - i
  {
    if d.Get(i) != Light {
      AsWrittenPassOverrunsRow(d, i + 1, swaps);
    } else if d.IsIndex(i + 1) {
      if d.Get(i + 1) == Dark {
        AsWrittenPassOverrunsRow(d.Swap(i), i + 1, swaps + 1);
      } else {
        AsWrittenPassOverrunsRow(d, i + 1, swaps);
      }
    }
  }

  /**
   * For every alternating row with two or more light disks, e.g. "D L D L",
   * the sorts as written enter their loop and the first forward pass fails
   * the index assertion of `get`.
   */
  lemma AsWrittenSortFailsOnFirstPass(before: DiskState)
    requires before.Valid() && before.IsAlternating()
    requires before.LightCount() >= 2
    ensures !before.IsSorted()
    ensures ForwardPassAsWritten(before, 0, 0) == IndexOutOfRange(before.TotalCount())
  {
    AlternatingSortedIffSingle(before);
    ValidHalves(before);
    var last := before.TotalCount() - 1;
    assert before.colors[last] == AlternatingColor(last);
    AsWrittenPassOverrunsRow(before, 0, 0);
  }
}
