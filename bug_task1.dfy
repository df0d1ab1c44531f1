/**
 * The most-attractive-light report: per species and light type, the sum of
 * the species' counts over the accepted rows, and per species a light type
 * with the largest positive sum.
 */
module BugTask1 {
  import opened Wrappers
  import opened Strings
  import opened Sorting
  import opened BugSurvey

  /**
   * The data-reading loop, each row held against the width of the header
   * line as `LocateColumns` splits it: split each line, skip it unless it
   * has one cell per header, add its light type to `lightTypes` and each species' count
   * to `counts[sp][lightType]`.
   */
  method Aggregate(lines: seq<string>, headerLine: string, c: Columns, parse: string -> Option<int>)
    returns (counts: map<string, map<string, int>>, lightTypes: seq<string>)
    requires Fits(c, |GetlineFields(headerLine, ',')|)
    ensures counts == Counts(Accepted(lines, |GetlineFields(headerLine, ',')|), c, parse)
    ensures lightTypes == LightTypes(Accepted(lines, |GetlineFields(headerLine, ',')|), c)
  {
    var width := |GetlineFields(headerLine, ',')|;
    counts, lightTypes := map[], [];
    ghost var rows: seq<seq<string>> := [];
    for i := 0 to |lines|
      invariant rows == Accepted(lines[..i], width)
      invariant counts == Counts(rows, c, parse)
      invariant lightTypes == LightTypes(rows, c)
    {
      AcceptStep(lines, i, width, rows, c, parse);
      var row := GetlineFields(lines[i], ',');
      if |row| != width {
        continue;
      }
      lightTypes := SetInsert(lightTypes, row[c.light]);
      counts := AddRow(counts, SpeciesList, row, c, parse);
      rows := rows + [row];
    }
    assert lines[..|lines|] == lines;
  }

  /** The inner loop over the species: `counts[sp][lightType] += count` with the row's cell, or 0 when it does not convert. */
  method AddRow(counts: map<string, map<string, int>>, species: seq<string>, row: seq<string>, c: Columns, parse: string -> Option<int>)
    returns (r: map<string, map<string, int>>)
    requires Fits(c, |row|)
    ensures r == CountRow(counts, species, row, c, parse)
  {
    r := counts;
    var lightType := row[c.light];
    for j := 0 to |species|
      invariant r == CountRow(counts, species[..j], row, c, parse)
    {
      RowStep(counts, map[], map[], species, j, row, c, parse);
      var sp := species[j];
      var index := SpeciesColumn(c, sp);
      var count := 0;
      var parsed := parse(row[index]);
      if parsed.Some? {
        count := parsed.value;
      }
      assert count == CellCount(row, index, parse);
      r := Bump(r, sp, lightType, count);
    }
    assert species[..|species|] == species;
  }

  /**
   * What the report shows for one species: a light type whose count is
   * positive and not exceeded by any other, or "" when no count is positive.
   */
  predicate MostAttractiveLight(lightCounts: map<string, int>, light: string) {
    if exists lt :: lt in lightCounts && lightCounts[lt] > 0 then
      light in lightCounts && forall lt :: lt in lightCounts ==> lightCounts[lt] <= lightCounts[light]
    else light == ""
  }

  /**
   * The argmax loop over one species' light counts, visited in an order
   * the map does not fix: the light with the first strictly larger count
   * than everything before it wins.
   */
  method MostAttractive(lightCounts: map<string, int>) returns (maxLight: string, maxCount: int)
    ensures maxCount >= 0
    ensures maxCount == 0 <==> forall lt :: lt in lightCounts ==> lightCounts[lt] <= 0
    ensures maxCount > 0 ==> maxLight in lightCounts && lightCounts[maxLight] == maxCount
    ensures forall lt :: lt in lightCounts ==> lightCounts[lt] <= maxCount
    ensures MostAttractiveLight(lightCounts, maxLight)
  {
    maxLight, maxCount := "", 0;
    var remaining := lightCounts.Keys;
    while remaining != {}
      invariant remaining <= lightCounts.Keys
      invariant maxCount >= 0
      invariant maxCount == 0 ==> maxLight == ""
      invariant maxCount > 0 ==> maxLight in lightCounts && lightCounts[maxLight] == maxCount
      invariant forall lt :: lt in lightCounts && lt !in remaining ==> lightCounts[lt] <= maxCount
      invariant maxCount > 0 ==> maxLight !in remaining
      decreases remaining
    {
      var lt :| lt in remaining;
      if lightCounts[lt] > maxCount {
        maxCount := lightCounts[lt];
        maxLight := lt;
      }
      remaining := remaining - {lt};
    }
  }

  /** One shown light per species, in the species list's order. */
  method Report(counts: map<string, map<string, int>>) returns (report: seq<(string, string)>)
    ensures |report| == |SpeciesList|
    ensures forall i :: 0 <= i < |report| ==>
      report[i].0 == SpeciesList[i] && MostAttractiveLight(Inner(counts, SpeciesList[i]), report[i].1)
  {
    report := [];
    for i := 0 to |SpeciesList|
      invariant |report| == i
      invariant forall k :: 0 <= k < i ==>
        report[k].0 == SpeciesList[k] && MostAttractiveLight(Inner(counts, SpeciesList[k]), report[k].1)
    {
      var sp := SpeciesList[i];
      var maxLight, _ := MostAttractive(Inner(counts, sp));
      report := report + [(sp, maxLight)];
    }
  }

  /** Two lights a species can show have the same positive count, or are both "". */
  lemma MostAttractiveTies(lightCounts: map<string, int>, a: string, b: string)
    requires MostAttractiveLight(lightCounts, a) && MostAttractiveLight(lightCounts, b)
    ensures a == b || (a in lightCounts && b in lightCounts && lightCounts[a] == lightCounts[b] > 0)
  {
  }
}
