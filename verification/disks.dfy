/*******************************************************************************
 *  One row of light and dark disks (`disk_color`, `disk_state` in disks.hpp).
 *
 *  The row is an immutable value: the source's in-place `swap` becomes a
 *  function returning the swapped row, and the C++ `assert`s on indices
 *  become `requires` clauses.
 *******************************************************************************/
module Disks {

  /** The colour of one disk (`disk_color`). */
  datatype Color = Dark | Light

  datatype Option<T> = None | Some(value: T)

  /** Number of disks of colour `c` in `s`. */
  function CountColor(s: seq<Color>, c: Color): (n: nat)
    ensures n <= |s|
    decreases |s|
  {
    if |s| == 0 then 0 else (if s[0] == c then 1 else 0) + CountColor(s[1..], c)
  }

  /** The colour that `disk_state`'s constructor puts at index `i`. */
  function AlternatingColor(i: nat): Color {
    if i % 2 == 0 then Dark else Light
  }

  /** The row D L D L ... with `n` pairs, built pair by pair. */
  function AlternatingRow(n: nat): (s: seq<Color>)
    ensures |s| == 2 * n
  {
    if n == 0 then [] else [Dark, Light] + AlternatingRow(n - 1)
  }

  /** The row with `n` dark disks followed by `n` light disks. */
  function SortedRow(n: nat): (s: seq<Color>)
    ensures |s| == 2 * n
  {
    seq(2 * n, i => if i < n then Dark else Light)
  }

  /** The state of one row of disks. */
  datatype DiskState = DiskState(colors: seq<Color>) {

    function TotalCount(): nat {
      |colors|
    }

    /** The source derives the number of light disks from the row length. */
    function LightCount(): (n: nat)
      ensures Valid() ==> n == CountColor(colors, Light)
    {
      CountBoth(colors);
      TotalCount() / 2
    }

    function DarkCount(): (n: nat)
      ensures Valid() ==> n == CountColor(colors, Dark)
    {
      CountBoth(colors);
      LightCount()
    }

    /**
     * The invariant every `disk_state` keeps: the constructor builds a
     * non-empty row with as many dark disks as light ones (`light_count > 0`
     * of each), and `swap` is the only mutation. The length is then even.
     */
    predicate Valid() {
      && |colors| > 0
      && CountColor(colors, Dark) == CountColor(colors, Light)
    }

    predicate IsIndex(i: nat) {
      i < TotalCount()
    }

    function Get(index: nat): Color
      requires IsIndex(index)
    {
      colors[index]
    }

    /** Exchanges the disks at `leftIndex` and `leftIndex + 1`. */
    function Swap(leftIndex: nat): (r: DiskState)
      requires IsIndex(leftIndex) && IsIndex(leftIndex + 1)
      ensures r.TotalCount() == TotalCount()
      ensures r.Get(leftIndex) == Get(leftIndex + 1)
      ensures r.Get(leftIndex + 1) == Get(leftIndex)
      ensures forall j :: 0 <= j < |colors| && j != leftIndex && j != leftIndex + 1 ==>
                r.colors[j] == colors[j]
      ensures multiset(r.colors) == multiset(colors)
      ensures r.Valid() <==> Valid()
    {
      var r := DiskState(colors[leftIndex := colors[leftIndex + 1]][leftIndex + 1 := colors[leftIndex]]);
      CountMultiset(colors, Dark);
      CountMultiset(r.colors, Dark);
      CountMultiset(colors, Light);
      CountMultiset(r.colors, Light);
      r
    }

    /** Dark at every even index, light at every odd index. */
    predicate IsAlternating() {
      forall i :: 0 <= i < |colors| ==> colors[i] == AlternatingColor(i)
    }

    /** Dark on every index of the left half, light on every index of the right half. */
    predicate IsSorted() {
      && (forall i :: 0 <= i < |colors| / 2 ==> colors[i] == Dark)
      && (forall i :: |colors| / 2 <= i < |colors| ==> colors[i] == Light)
    }

    /** One `D` or `L` per disk, separated by single spaces. */
    function ToString(): (r: string)
      ensures |colors| > 0 ==> |r| == 2 * |colors| - 1
      ensures |colors| == 0 ==> r == ""
      decreases |colors|
    {
      if |colors| == 0 then ""
      else if |colors| == 1 then [Token(colors[0])]
      else [Token(colors[0]), ' '] + DiskState(colors[1..]).ToString()
    }
  }

  function Token(c: Color): char {
    if c == Light then 'L' else 'D'
  }

  function TokenColor(ch: char): Option<Color> {
    if ch == 'D' then Some(Dark) else if ch == 'L' then Some(Light) else None
  }

  /** Reads back the rendering of `ToString`; `None` for any other text. */
  function Parse(s: string): (r: Option<DiskState>)
    ensures r.Some? ==> (|s| == 0 <==> |r.value.colors| == 0)
    decreases |s|
  {
    if |s| == 0 then Some(DiskState([]))
    else match TokenColor(s[0])
      case None => None
      case Some(c) =>
        if |s| == 1 then Some(DiskState([c]))
        else if s[1] != ' ' || |s| == 2 then None
        else match Parse(s[2..])
          case None => None
          case Some(rest) => Some(DiskState([c] + rest.colors))
  }

  /**
   * The constructor `disk_state(light_count)`: a row of `2 * lightCount` dark
   * disks whose odd indices are then painted light, one by one.
   */
  method NewDiskState(lightCount: nat) returns (d: DiskState)
    requires lightCount > 0
    ensures d.TotalCount() == 2 * lightCount
    ensures d.IsAlternating()
    ensures d.colors == AlternatingRow(lightCount)
    ensures d.Valid()
    ensures d.LightCount() == lightCount && d.DarkCount() == lightCount
  {
    var colors := seq(2 * lightCount, _ => Dark);
    var i := 1;
    while i < |colors|
      invariant |colors| == 2 * lightCount
      invariant i % 2 == 1 && i <= |colors| + 1
      invariant forall j :: 0 <= j < |colors| ==>
                  colors[j] == (if j < i && j % 2 == 1 then Light else Dark)
    {
      colors := colors[i := Light];
      i := i + 2;
    }
    d := DiskState(colors);
    AlternatingRowIff(colors);
    AlternatingRowCounts(lightCount);
  }

  // ---------------------------------------------------------------------------
  // Lemmas
  // ---------------------------------------------------------------------------

  lemma {:induction false} CountMultiset(s: seq<Color>, c: Color)
    ensures CountColor(s, c) == multiset(s)[c]
    decreases |s|
  {
    if |s| > 0 {
      assert s == [s[0]] + s[1..];
      CountMultiset(s[1..], c);
    }
  }

  /** A valid row has even length, half of it dark and half of it light. */
  lemma ValidHalves(d: DiskState)
    requires d.Valid()
    ensures d.TotalCount() % 2 == 0
    ensures CountColor(d.colors, Dark) == d.TotalCount() / 2
    ensures CountColor(d.colors, Light) == d.TotalCount() / 2
  {
    CountBoth(d.colors);
  }

  /** Every disk is dark or light. */
  lemma {:induction false} CountBoth(s: seq<Color>)
    ensures CountColor(s, Dark) + CountColor(s, Light) == |s|
    decreases |s|
  {
    if |s| > 0 {
      CountBoth(s[1..]);
    }
  }

  lemma {:induction false} CountAppend(a: seq<Color>, b: seq<Color>, c: Color)
    ensures CountColor(a + b, c) == CountColor(a, c) + CountColor(b, c)
    decreases |a|
  {
    if |a| == 0 {
      assert a + b == b;
    } else {
      assert (a + b)[1..] == a[1..] + b;
      CountAppend(a[1..], b, c);
    }
  }

  /** A row with no disk of colour `c` counts zero of them. */
  lemma {:induction false} CountAbsent(s: seq<Color>, c: Color)
    requires forall j :: 0 <= j < |s| ==> s[j] != c
    ensures CountColor(s, c) == 0
    decreases |s|
  {
    if |s| > 0 {
      CountAbsent(s[1..], c);
    }
  }

  /** A row made only of colour `c` counts all its disks. */
  lemma {:induction false} CountUniform(s: seq<Color>, c: Color)
    requires forall j :: 0 <= j < |s| ==> s[j] == c
    ensures CountColor(s, c) == |s|
    decreases |s|
  {
    if |s| > 0 {
      CountUniform(s[1..], c);
    }
  }

  lemma {:induction false} AlternatingRowAt(n: nat, k: nat)
    requires k < 2 * n
    ensures AlternatingRow(n)[k] == AlternatingColor(k)
    decreases n
  {
    if k >= 2 {
      assert AlternatingRow(n)[k] == AlternatingRow(n - 1)[k - 2];
      AlternatingRowAt(n - 1, k - 2);
    }
  }

  /** An even-length row is alternating exactly when it is `AlternatingRow`. */
  lemma AlternatingRowIff(s: seq<Color>)
    requires |s| % 2 == 0
    ensures DiskState(s).IsAlternating() <==> s == AlternatingRow(|s| / 2)
  {
    var n := |s| / 2;
    forall k | 0 <= k < |s|
      ensures AlternatingRow(n)[k] == AlternatingColor(k)
    {
      AlternatingRowAt(n, k);
    }
  }

  lemma {:induction false} AlternatingRowCounts(n: nat)
    ensures CountColor(AlternatingRow(n), Dark) == n
    ensures CountColor(AlternatingRow(n), Light) == n
    decreases n
  {
    if n > 0 {
      var rest := AlternatingRow(n - 1);
      assert AlternatingRow(n) == [Dark] + ([Light] + rest);
      CountAppend([Dark], [Light] + rest, Dark);
      CountAppend([Dark], [Light] + rest, Light);
      CountAppend([Light], rest, Dark);
      CountAppend([Light], rest, Light);
      AlternatingRowCounts(n - 1);
    }
  }

  /** An even-length row is sorted exactly when it is `SortedRow`. */
  lemma SortedRowIff(s: seq<Color>)
    requires |s| % 2 == 0
    ensures DiskState(s).IsSorted() <==> s == SortedRow(|s| / 2)
  {
  }

  /** Swapping the same pair twice gives back the original row. */
  lemma SwapInvolution(d: DiskState, i: nat)
    requires d.IsIndex(i) && d.IsIndex(i + 1)
    ensures d.Swap(i).Swap(i) == d
  {
    assert d.Swap(i).Swap(i).colors == d.colors;
  }

  /** Parsing the rendering of a row gives back the row. */
  lemma {:induction false} ParseToString(d: DiskState)
    ensures Parse(d.ToString()) == Some(d)
    decreases |d.colors|
  {
    if |d.colors| >= 2 {
      var tail := DiskState(d.colors[1..]);
      var s := d.ToString();
      assert s[2..] == tail.ToString();
      ParseToString(tail);
      assert d.colors == [d.colors[0]] + tail.colors;
    } else if |d.colors| == 1 {
      assert d.colors == [d.colors[0]];
    }
  }

  /** Every text that parses is the rendering of the row it parses to. */
  lemma {:induction false} ToStringParse(s: string, d: DiskState)
    requires Parse(s) == Some(d)
    ensures d.ToString() == s
    decreases |s|
  {
    if |s| >= 3 {
      var rest := Parse(s[2..]).value;
      ToStringParse(s[2..], rest);
      assert d.colors[1..] == rest.colors;
      assert s == [s[0], s[1]] + s[2..];
    } else if |s| == 1 {
      assert s == [s[0]];
    }
  }
}
