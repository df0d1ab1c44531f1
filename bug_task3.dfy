/**
 * The top-species chart: the same per-(species, light type) sums as the
 * report, plus per-species totals and the same sums keyed light type
 * first; the four species with the largest totals; and the table of
 * their sums per light type that the chart draws.
 */
module BugTask3 {
  import opened Wrappers
  import opened Strings
  import opened Sorting
  import opened BugSurvey

  /**
   * The data-reading loop, each row held against the width of the header
   * line as `LocateColumns` splits it: for each accepted row, its light type joins
   * `lightTypes` and each species' count is added to `counts`,
   * `speciesTotals` and `lightSpeciesCounts` alike.
   */
  method Aggregate(lines: seq<string>, headerLine: string, c: Columns, parse: string -> Option<int>)
    returns (counts: map<string, map<string, int>>, speciesTotals: map<string, int>,
             lightSpeciesCounts: map<string, map<string, int>>, lightTypes: seq<string>)
    requires Fits(c, |GetlineFields(headerLine, ',')|)
    ensures counts == Counts(Accepted(lines, |GetlineFields(headerLine, ',')|), c, parse)
    ensures speciesTotals == Totals(Accepted(lines, |GetlineFields(headerLine, ',')|), c, parse)
    ensures lightSpeciesCounts == LightCounts(Accepted(lines, |GetlineFields(headerLine, ',')|), c, parse)
    ensures lightTypes == LightTypes(Accepted(lines, |GetlineFields(headerLine, ',')|), c)
  {
    var width := |GetlineFields(headerLine, ',')|;
    counts, speciesTotals, lightSpeciesCounts, lightTypes := map[], map[], map[], [];
    ghost var rows: seq<seq<string>> := [];
    for i := 0 to |lines|
      invariant rows == Accepted(lines[..i], width)
      invariant counts == Counts(rows, c, parse)
      invariant speciesTotals == Totals(rows, c, parse)
      invariant lightSpeciesCounts == LightCounts(rows, c, parse)
      invariant lightTypes == LightTypes(rows, c)
    {
      AcceptStep(lines, i, width, rows, c, parse);
      var row := GetlineFields(lines[i], ',');
      if |row| != width {
        continue;
      }
      lightTypes := SetInsert(lightTypes, row[c.light]);
      counts, speciesTotals, lightSpeciesCounts := AddRow(counts, speciesTotals, lightSpeciesCounts, SpeciesList, row, c, parse);
      rows := rows + [row];
    }
    assert lines[..|lines|] == lines;
  }

  /** The inner loop over the species: the row's count for each species, or 0 when it does not convert, goes into all three maps. */
  method AddRow(counts: map<string, map<string, int>>, speciesTotals: map<string, int>,
                lightSpeciesCounts: map<string, map<string, int>>, species: seq<string>,
                row: seq<string>, c: Columns, parse: string -> Option<int>)
    returns (counts': map<string, map<string, int>>, speciesTotals': map<string, int>,
             lightSpeciesCounts': map<string, map<string, int>>)
    requires Fits(c, |row|)
    ensures counts' == CountRow(counts, species, row, c, parse)
    ensures speciesTotals' == TotalRow(speciesTotals, species, row, c, parse)
    ensures lightSpeciesCounts' == LightRow(lightSpeciesCounts, species, row, c, parse)
  {
    counts', speciesTotals', lightSpeciesCounts' := counts, speciesTotals, lightSpeciesCounts;
    var lightType := row[c.light];
    for j := 0 to |species|
      invariant counts' == CountRow(counts, species[..j], row, c, parse)
      invariant speciesTotals' == TotalRow(speciesTotals, species[..j], row, c, parse)
      invariant lightSpeciesCounts' == LightRow(lightSpeciesCounts, species[..j], row, c, parse)
    {
      RowStep(counts, speciesTotals, lightSpeciesCounts, species, j, row, c, parse);
      var sp := species[j];
      var index := SpeciesColumn(c, sp);
      var count := 0;
      var parsed := parse(row[index]);
      if parsed.Some? {
        count := parsed.value;
      }
      assert count == CellCount(row, index, parse);
      counts' := Bump(counts', sp, lightType, count);
      speciesTotals' := AddTo(speciesTotals', sp, count);
      lightSpeciesCounts' := Bump(lightSpeciesCounts', lightType, sp, count);
    }
    assert species[..|species|] == species;
  }

  // ------------------------------------------------------------ the totals agree with the per-light sums

  /** The sum of `lightSpeciesCounts[lt][sp]` over the light types lts. */
  function ColumnSum(lsc: map<string, map<string, int>>, lts: seq<string>, sp: string): int {
    if lts == [] then 0 else ColumnSum(lsc, lts[..|lts| - 1], sp) + Get(Inner(lsc, lts[|lts| - 1]), sp)
  }

  /** The sum of the per-light tallies of column col over the light types lts. */
  function SumTally(lts: seq<string>, rows: seq<seq<string>>, col: int, c: Columns, parse: string -> Option<int>): int {
    if lts == [] then 0 else SumTally(lts[..|lts| - 1], rows, col, c, parse) + Tally(rows, col, lts[|lts| - 1], c, parse)
  }

  lemma {:induction false} SumTallyNoRows(lts: seq<string>, col: int, c: Columns, parse: string -> Option<int>)
    ensures SumTally(lts, [], col, c, parse) == 0
  {
    if lts != [] {
      SumTallyNoRows(lts[..|lts| - 1], col, c, parse);
    }
  }

  /** One more row adds its cell to the tally of its own light type, which distinct lts hold at most once. */
  lemma {:induction false} SumTallySnoc(lts: seq<string>, rows: seq<seq<string>>, row: seq<string>, col: int, c: Columns, parse: string -> Option<int>)
    requires Distinct(lts)
    ensures SumTally(lts, rows + [row], col, c, parse)
         == SumTally(lts, rows, col, c, parse) + (if LightOf(row, c) in lts then CellCount(row, col, parse) else 0)
  {
    assert (rows + [row])[..|rows|] == rows;
    if lts != [] {
      var init := lts[..|lts| - 1];
      assert lts == init + [lts[|lts| - 1]];
      SumTallySnoc(init, rows, row, col, c, parse);
    }
  }

  /** Summing a column over all rows is summing its per-light tallies over any distinct list holding every light type read. */
  lemma {:induction false} ColumnTotalBySumTally(rows: seq<seq<string>>, lts: seq<string>, col: int, c: Columns, parse: string -> Option<int>)
    requires Distinct(lts)
    requires forall k :: 0 <= k < |rows| ==> LightOf(rows[k], c) in lts
    ensures ColumnTotal(rows, col, parse) == SumTally(lts, rows, col, c, parse)
  {
    if rows == [] {
      SumTallyNoRows(lts, col, c, parse);
    } else {
      var init := rows[..|rows| - 1];
      assert rows == init + [rows[|rows| - 1]];
      ColumnTotalBySumTally(init, lts, col, c, parse);
      SumTallySnoc(lts, init, rows[|rows| - 1], col, c, parse);
    }
  }

  lemma {:induction false} ColumnSumBySumTally(rows: seq<seq<string>>, lts: seq<string>, c: Columns, parse: string -> Option<int>, sp: string)
    requires sp in SpeciesList
    ensures ColumnSum(LightCounts(rows, c, parse), lts, sp) == SumTally(lts, rows, SpeciesColumn(c, sp), c, parse)
  {
    if lts != [] {
      ColumnSumBySumTally(rows, lts[..|lts| - 1], c, parse, sp);
      LightCountsMeaning(rows, c, parse, lts[|lts| - 1], sp);
    }
  }

  /** `speciesTotals[sp]` is the sum over the light types read of `lightSpeciesCounts[lt][sp]`. */
  lemma TotalsAreLightSums(rows: seq<seq<string>>, c: Columns, parse: string -> Option<int>, sp: string)
    requires sp in SpeciesList
    ensures Get(Totals(rows, c, parse), sp) == ColumnSum(LightCounts(rows, c, parse), LightTypes(rows, c), sp)
  {
    var lts := LightTypes(rows, c);
    forall i, j | 0 <= i < j < |lts|
      ensures lts[i] != lts[j]
    {
      AscendingDistinct(lts, i, j);
    }
    forall k | 0 <= k < |rows|
      ensures LightOf(rows[k], c) in lts
    {
    }
    TotalsMeaning(rows, c, parse, sp);
    ColumnTotalBySumTally(rows, lts, SpeciesColumn(c, sp), c, parse);
    ColumnSumBySumTally(rows, lts, c, parse, sp);
  }

  // ------------------------------------------------------------ the top four species

  /** The sort order of `speciesVector`: larger totals first. */
  predicate Heavier(a: (string, int), b: (string, int)) {
    a.1 >= b.1
  }

  lemma HeavierTotalPreorder()
    ensures TotalPreorder(Heavier)
  {
  }

  function Min(a: int, b: int): int {
    if a < b then a else b
  }

  /** Every pair of vec is an entry of m. */
  predicate EntriesOf(vec: seq<(string, int)>, m: map<string, int>) {
    forall k :: 0 <= k < |vec| ==> vec[k].0 in m && vec[k].1 == m[vec[k].0]
  }

  /** No name heads two pairs of vec. */
  predicate DistinctNames(vec: seq<(string, int)>) {
    forall i, j :: 0 <= i < j < |vec| ==> vec[i].0 != vec[j].0
  }

  /** `speciesVector(speciesTotals.begin(), speciesTotals.end())`: every entry once, in an order the map does not fix. */
  method CopyEntries(m: map<string, int>) returns (vec: seq<(string, int)>)
    ensures |vec| == |m|
    ensures EntriesOf(vec, m)
    ensures forall sp :: sp in m ==> (sp, m[sp]) in vec
    ensures DistinctNames(vec)
  {
    vec := [];
    var remaining := m.Keys;
    while remaining != {}
      invariant remaining <= m.Keys
      invariant |vec| + |remaining| == |m.Keys|
      invariant EntriesOf(vec, m)
      invariant forall sp :: sp in m && sp !in remaining ==> (sp, m[sp]) in vec
      invariant forall k :: 0 <= k < |vec| ==> vec[k].0 !in remaining
      invariant DistinctNames(vec)
      decreases |remaining|
    {
      var sp :| sp in remaining;
      vec := vec + [(sp, m[sp])];
      remaining := remaining - {sp};
    }
    assert |m| == |m.Keys|;
  }

  /** A permutation of all of m's entries holds all of m's entries and nothing else. */
  lemma PermutedEntries(vec: seq<(string, int)>, sorted: seq<(string, int)>, m: map<string, int>)
    requires multiset(sorted) == multiset(vec)
    requires EntriesOf(vec, m) && forall sp :: sp in m ==> (sp, m[sp]) in vec
    ensures EntriesOf(sorted, m) && forall sp :: sp in m ==> (sp, m[sp]) in sorted
  {
    forall k | 0 <= k < |sorted|
      ensures sorted[k].0 in m && sorted[k].1 == m[sorted[k].0]
    {
      assert sorted[k] in multiset(vec);
    }
    forall sp | sp in m
      ensures (sp, m[sp]) in sorted
    {
      assert (sp, m[sp]) in multiset(sorted);
    }
  }

  /** A permutation of entries with distinct names has distinct names. */
  lemma PermutedNames(vec: seq<(string, int)>, sorted: seq<(string, int)>, m: map<string, int>)
    requires multiset(sorted) == multiset(vec)
    requires DistinctNames(vec) && EntriesOf(sorted, m)
    ensures DistinctNames(sorted)
  {
    forall i, j | 0 <= i < j < |sorted|
      ensures sorted[i].0 != sorted[j].0
    {
      NoRepeatsCount(vec, sorted[i]);
      HeldOnce(sorted, i, j);
    }
  }

  /** The names of the first n pairs of a heaviest-first list of all of m's entries are the n largest totals, largest first. */
  lemma TopOfSorted(sorted: seq<(string, int)>, m: map<string, int>, top: seq<string>)
    requires Sorted(sorted, Heavier) && EntriesOf(sorted, m) && DistinctNames(sorted)
    requires forall sp :: sp in m ==> (sp, m[sp]) in sorted
    requires |top| <= |sorted| && forall k :: 0 <= k < |top| ==> top[k] == sorted[k].0
    ensures forall i :: 0 <= i < |top| ==> top[i] in m
    ensures forall i, j :: 0 <= i < j < |top| ==> top[i] != top[j]
    ensures forall i, j :: 0 <= i < j < |top| ==> m[top[i]] >= m[top[j]]
    ensures forall i, sp :: 0 <= i < |top| && sp in m && sp !in top ==> m[top[i]] >= m[sp]
  {
    forall i, sp | 0 <= i < |top| && sp in m && sp !in top
      ensures m[top[i]] >= m[sp]
    {
      var p :| 0 <= p < |sorted| && sorted[p] == (sp, m[sp]);
      assert Heavier(sorted[i], sorted[p]);
    }
    forall i, j | 0 <= i < j < |top|
      ensures m[top[i]] >= m[top[j]]
    {
      assert Heavier(sorted[i], sorted[j]);
    }
  }

  /** `speciesVector` after the sort: all of m's entries, heaviest first. */
  method SortedEntries(m: map<string, int>) returns (sorted: seq<(string, int)>)
    ensures |sorted| == |m|
    ensures Sorted(sorted, Heavier)
    ensures EntriesOf(sorted, m) && forall sp :: sp in m ==> (sp, m[sp]) in sorted
    ensures DistinctNames(sorted)
  {
    var vec := CopyEntries(m);
    sorted := SortBy(vec, Heavier);
    assert Sorted(sorted, Heavier) by {
      HeavierTotalPreorder();
      SortBySorted(vec, Heavier);
    }
    PermutedEntries(vec, sorted, m);
    PermutedNames(vec, sorted, m);
  }

  /**
   * `speciesVector` sorted by descending total and its first four names
   * taken: the four (or fewer) largest totals, largest first, ties in no
   * fixed order.
   */
  method TopSpecies(speciesTotals: map<string, int>) returns (top: seq<string>)
    ensures |top| == Min(4, |speciesTotals|)
    ensures forall i :: 0 <= i < |top| ==> top[i] in speciesTotals
    ensures forall i, j :: 0 <= i < j < |top| ==> top[i] != top[j]
    ensures forall i, j :: 0 <= i < j < |top| ==> speciesTotals[top[i]] >= speciesTotals[top[j]]
    ensures forall i, sp :: 0 <= i < |top| && sp in speciesTotals && sp !in top ==> speciesTotals[top[i]] >= speciesTotals[sp]
  {
    var sorted := SortedEntries(speciesTotals);
    top := [];
    for i := 0 to Min(4, |sorted|)
      invariant |top| == i
      invariant forall k :: 0 <= k < i ==> top[k] == sorted[k].0
    {
      top := top + [sorted[i].0];
    }
    TopOfSorted(sorted, speciesTotals, top);
  }

  // ------------------------------------------------------------ the chart's table

  /** `data`: one row per top species, one column per light type, each the species' sum for that light type. */
  method DataTable(top: seq<string>, lightTypes: seq<string>, lightSpeciesCounts: map<string, map<string, int>>)
    returns (data: array2<int>)
    ensures fresh(data)
    ensures data.Length0 == |top| && data.Length1 == |lightTypes|
    ensures forall i, j :: 0 <= i < |top| && 0 <= j < |lightTypes| ==>
      data[i, j] == Get(Inner(lightSpeciesCounts, lightTypes[j]), top[i])
  {
    data := new int[|top|, |lightTypes|]((_, _) => 0);
    for i := 0 to |top|
      invariant forall p, q :: 0 <= p < i && 0 <= q < |lightTypes| ==>
        data[p, q] == Get(Inner(lightSpeciesCounts, lightTypes[q]), top[p])
    {
      for j := 0 to |lightTypes|
        invariant forall p, q :: 0 <= p < i && 0 <= q < |lightTypes| ==>
          data[p, q] == Get(Inner(lightSpeciesCounts, lightTypes[q]), top[p])
        invariant forall q :: 0 <= q < j ==> data[i, q] == Get(Inner(lightSpeciesCounts, lightTypes[q]), top[i])
      {
        data[i, j] := Get(Inner(lightSpeciesCounts, lightTypes[j]), top[i]);
      }
    }
  }

  /** `positions`: the bar-group positions 1, 2, ..., n, one per light type. */
  function Positions(n: nat): (r: seq<int>)
    ensures |r| == n
    ensures forall j :: 0 <= j < n ==> r[j] == j + 1
    ensures forall i, j :: 0 <= i < j < n ==> r[i] < r[j]
  {
    if n == 0 then [] else Positions(n - 1) + [n]
  }
}
