/*******************************************************************************
 *  Inversions of a row: the pairs (light before dark) that the sorting passes
 *  remove one adjacent swap at a time. This is the variant that makes the
 *  `while (!is_sorted())` loops of disks.hpp terminate and that fixes their
 *  swap counts.
 *******************************************************************************/
module DiskOrder {
  import opened Disks

  /** Number of index pairs i < j with a light disk at i and a dark disk at j. */
  function Inversions(s: seq<Color>): nat
    decreases |s|
  {
    if |s| == 0 then 0
    else (if s[0] == Light then CountColor(s[1..], Dark) else 0) + Inversions(s[1..])
  }

  /** The pair starting at `j` is a light disk followed by a dark one. */
  predicate LightDarkAt(s: seq<Color>, j: nat)
    requires j + 1 < |s|
  {
    s[j] == Light && s[j + 1] == Dark
  }

  /** No light disk is directly followed by a dark one. */
  predicate NoLightDarkPair(s: seq<Color>) {
    forall j :: 0 <= j && j + 1 < |s| ==> !LightDarkAt(s, j)
  }

  /** No light disk stands anywhere before a dark one. */
  predicate NoLightBeforeDark(s: seq<Color>) {
    forall i, j :: 0 <= i < j < |s| ==> !(s[i] == Light && s[j] == Dark)
  }

  // ---------------------------------------------------------------------------
  // What an inversion count of zero means
  // ---------------------------------------------------------------------------

  lemma {:induction false} CountZeroIff(s: seq<Color>, c: Color)
    ensures CountColor(s, c) == 0 <==> forall j :: 0 <= j < |s| ==> s[j] != c
    decreases |s|
  {
    if |s| > 0 {
      CountZeroIff(s[1..], c);
      if CountColor(s, c) == 0 {
        forall j | 0 <= j < |s| ensures s[j] != c {
          if j > 0 {
            assert s[j] == s[1..][j - 1];
          }
        }
      } else {
        if s[0] != c {
          assert CountColor(s[1..], c) != 0;
          var k :| 0 <= k < |s[1..]| && s[1..][k] == c;
          assert s[k + 1] == c;
        }
      }
    }
  }

  /** Zero inversions is exactly: no light disk anywhere before a dark one. */
  lemma {:induction false} InversionsZeroIff(s: seq<Color>)
    ensures Inversions(s) == 0 <==> NoLightBeforeDark(s)
    decreases |s|
  {
    if |s| > 0 {
      var t := s[1..];
      InversionsZeroIff(t);
      CountZeroIff(t, Dark);
      if Inversions(s) == 0 {
        forall i, j | 0 <= i < j < |s| ensures !(s[i] == Light && s[j] == Dark) {
          assert s[j] == t[j - 1];
          if i > 0 {
            assert s[i] == t[i - 1];
          }
        }
      } else {
        if s[0] == Light && CountColor(t, Dark) != 0 {
          var k :| 0 <= k < |t| && t[k] == Dark;
          assert s[0] == Light && s[k + 1] == Dark;
        } else {
          assert !NoLightBeforeDark(t);
          var i, j :| 0 <= i < j < |t| && t[i] == Light && t[j] == Dark;
          assert s[i + 1] == Light && s[j + 1] == Dark;
        }
      }
    }
  }

  // ---------------------------------------------------------------------------
  // One adjacent swap removes exactly one inversion
  // ---------------------------------------------------------------------------

  /** Swapping an adjacent (light, dark) pair lowers the inversion count by exactly one. */
  lemma {:induction false} SwapRemovesOneInversion(d: DiskState, i: nat)
    requires d.IsIndex(i) && d.IsIndex(i + 1)
    requires d.Get(i) == Light && d.Get(i + 1) == Dark
    ensures Inversions(d.Swap(i).colors) + 1 == Inversions(d.colors)
    decreases i
  {
    var s := d.colors;
    var t := d.Swap(i).colors;
    if i == 0 {
      assert s[1..][1..] == s[2..];
      assert t[1..][1..] == s[2..];
      assert t[1..][0] == Light;
    } else {
      var tail := DiskState(s[1..]);
      assert tail.Swap(i - 1).colors == t[1..];
      SwapRemovesOneInversion(tail, i - 1);
      CountMultiset(s[1..], Dark);
      CountMultiset(t[1..], Dark);
    }
  }

  // ---------------------------------------------------------------------------
  // When a row is sorted
  // ---------------------------------------------------------------------------

  /** Without adjacent (light, dark) pairs, every disk after a light disk is light. */
  lemma {:induction false} LightStaysLight(s: seq<Color>, i: nat, j: nat)
    requires NoLightDarkPair(s)
    requires i <= j < |s|
    requires s[i] == Light
    ensures s[j] == Light
    decreases j - i
  {
    if j > i {
      LightStaysLight(s, i, j - 1);
      assert !LightDarkAt(s, j - 1);
    }
  }

  /** Without adjacent (light, dark) pairs, a light disk at `i` leaves at most `i` dark disks. */
  lemma LightBoundsDarkCount(s: seq<Color>, i: nat)
    requires NoLightDarkPair(s)
    requires i < |s|
    ensures s[i] == Light ==> CountColor(s, Dark) <= i
  {
    if s[i] == Light {
      var suffix := s[i..];
      forall j | 0 <= j < |suffix| ensures suffix[j] != Dark {
        LightStaysLight(s, i, i + j);
      }
      assert s == s[..i] + suffix;
      CountAppend(s[..i], suffix, Dark);
      CountAbsent(suffix, Dark);
    }
  }

  /** Without adjacent (light, dark) pairs, a dark disk at `i` means at least `i + 1` dark disks. */
  lemma DarkBoundsDarkCount(s: seq<Color>, i: nat)
    requires NoLightDarkPair(s)
    requires i < |s|
    ensures s[i] == Dark ==> CountColor(s, Dark) >= i + 1
  {
    if s[i] == Dark {
      var prefix := s[..i + 1];
      forall j | 0 <= j < |prefix| ensures prefix[j] == Dark {
        if s[j] == Light {
          LightStaysLight(s, j, i);
        }
      }
      assert s == prefix + s[i + 1..];
      CountAppend(prefix, s[i + 1..], Dark);
      CountUniform(prefix, Dark);
    }
  }

  /**
   * A row holding as many dark disks as half its length, with no light disk
   * directly before a dark one, is sorted. This is why a pass that swaps
   * nothing leaves the `while (!is_sorted())` loop.
   */
  lemma NoPairBalancedIsSorted(d: DiskState)
    requires d.Valid()
    ensures NoLightDarkPair(d.colors) ==> d.IsSorted()
  {
    var s := d.colors;
    ValidHalves(d);
    if NoLightDarkPair(s) {
      forall i | 0 <= i < |s| / 2 ensures s[i] == Dark {
        LightBoundsDarkCount(s, i);
      }
      forall i | |s| / 2 <= i < |s| ensures s[i] == Light {
        DarkBoundsDarkCount(s, i);
      }
    }
  }

  /** For a valid row, sorted is exactly zero inversions. */
  lemma SortedIffNoInversions(d: DiskState)
    requires d.Valid()
    ensures d.IsSorted() <==> Inversions(d.colors) == 0
  {
    var s := d.colors;
    InversionsZeroIff(s);
    if d.IsSorted() {
      forall i, j | 0 <= i < j < |s| ensures !(s[i] == Light && s[j] == Dark) {
        if i >= |s| / 2 {
          assert s[j] == Light;
        }
      }
    }
    if Inversions(s) == 0 {
      forall j | 0 <= j && j + 1 < |s| ensures !LightDarkAt(s, j) {
        assert !(s[j] == Light && s[j + 1] == Dark);
      }
      NoPairBalancedIsSorted(d);
    }
  }

  /** The alternating row with `n` light disks has n(n-1)/2 inversions. */
  lemma {:induction false} AlternatingRowInversions(n: nat)
    ensures 2 * Inversions(AlternatingRow(n)) == n * (n - 1)
    decreases n
  {
    if n > 0 {
      var s := AlternatingRow(n);
      var rest := AlternatingRow(n - 1);
      assert s[1..] == [Light] + rest;
      assert s[1..][1..] == rest;
      AlternatingRowCounts(n - 1);
      AlternatingRowInversions(n - 1);
      assert Inversions(s) == Inversions(s[1..]) == (n - 1) + Inversions(rest);
      assert n * (n - 1) == (n - 1) * (n - 2) + 2 * (n - 1);
    }
  }

  /**
   * A valid alternating row is already sorted only when it holds a single
   * light disk ("D L").
   */
  lemma AlternatingSortedIffSingle(d: DiskState)
    requires d.Valid() && d.IsAlternating()
    ensures d.IsSorted() <==> d.TotalCount() == 2
  {
    var s := d.colors;
    ValidHalves(d);
    if d.TotalCount() >= 4 {
      assert s[1] == AlternatingColor(1) == Light;
    }
  }

  /** Three light disks take 3 swaps to sort, four light disks take 6. */
  lemma ScenarioInversionCounts()
    ensures Inversions(AlternatingRow(3)) == 3
    ensures Inversions(AlternatingRow(4)) == 6
  {
    AlternatingRowInversions(3);
    AlternatingRowInversions(4);
  }
}
