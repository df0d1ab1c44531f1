/**
 * What the two bug-attraction reports share: the fixed species list, the
 * header scan that finds the columns, the row filter, and the
 * specification of the per-(species, light type) sums both accumulate.
 */
module BugSurvey {
  import opened Wrappers
  import opened Strings
  import opened Sorting

  /** The species columns, in report order. */
  const SpeciesList: seq<string> := [
    "Diptera", "Hymenoptera", "Hemiptera", "Psocoptera", "Coleoptera",
    "Collembola", "Arachnid", "Thysanura", "Isoptera", "Lepidoptera",
    "Neuroptera", "Larave", "Orthoptera", "Unident"]

  predicate Distinct(s: seq<string>) {
    forall i, j :: 0 <= i < j < |s| ==> s[i] != s[j]
  }

  lemma SpeciesDistinct()
    ensures Distinct(SpeciesList)
  {
  }

  // ------------------------------------------------------------ the header

  /** The last position of name among the headers, or -1 when it is not there. */
  function LastIndexOf(hs: seq<string>, name: string): (r: int)
    ensures -1 <= r < |hs|
    ensures r == -1 <==> name !in hs
    ensures r >= 0 ==> hs[r] == name && forall j :: r < j < |hs| ==> hs[j] != name
  {
    if hs == [] then -1
    else if hs[|hs| - 1] == name then |hs| - 1
    else
      assert hs == hs[..|hs| - 1] + [hs[|hs| - 1]];
      LastIndexOf(hs[..|hs| - 1], name)
  }

  /** `speciesIndices` after the header scan: each species that heads a column, mapped to its last column. */
  function SpeciesColumns(hs: seq<string>): (m: map<string, int>)
    ensures forall sp :: sp in m <==> sp in SpeciesList && sp in hs
    ensures forall sp :: sp in m ==> m[sp] == LastIndexOf(hs, sp)
  {
    if hs == [] then map[]
    else
      var init, h := hs[..|hs| - 1], hs[|hs| - 1];
      assert hs == init + [h];
      var m := SpeciesColumns(init);
      if h in SpeciesList then m[h := |hs| - 1] else m
  }

  /** The column indices the header scan finds. */
  datatype Columns = Columns(light: int, moon: int, total: int, species: map<string, int>)

  /** Every index a data row of the given width is read at is inside the row. */
  predicate Fits(c: Columns, width: int) {
    && 0 <= c.light < width
    && forall sp :: sp in c.species ==> 0 <= c.species[sp] < width
  }

  /**
   * The header line split at its commas, then scanned for the columns the
   * tasks read.
   */
  method LocateColumns(headerLine: string) returns (headers: seq<string>, c: Columns)
    ensures headers == GetlineFields(headerLine, ',')
    ensures c.light == LastIndexOf(headers, "Light Type")
    ensures c.moon == LastIndexOf(headers, "Standardized Moon")
    ensures c.total == LastIndexOf(headers, "Total")
    ensures c.species == SpeciesColumns(headers)
    ensures "Light Type" in headers ==> Fits(c, |headers|)
  {
    headers := GetlineFields(headerLine, ',');
    c := ScanHeaders(headers);
  }

  /**
   * The header scan: "Light Type", "Standardized Moon" and "Total" each at
   * their last column or -1, and every species that heads a column at its
   * last column.
   */
  method ScanHeaders(headers: seq<string>) returns (c: Columns)
    ensures c.light == LastIndexOf(headers, "Light Type")
    ensures c.moon == LastIndexOf(headers, "Standardized Moon")
    ensures c.total == LastIndexOf(headers, "Total")
    ensures c.species == SpeciesColumns(headers)
    ensures "Light Type" in headers ==> Fits(c, |headers|)
  {
    var light, moon, total := -1, -1, -1;
    var indices: map<string, int> := map[];
    for i := 0 to |headers|
      invariant light == LastIndexOf(headers[..i], "Light Type")
      invariant moon == LastIndexOf(headers[..i], "Standardized Moon")
      invariant total == LastIndexOf(headers[..i], "Total")
      invariant indices == SpeciesColumns(headers[..i])
    {
      NextIndex(headers, i, "Light Type");
      NextIndex(headers, i, "Standardized Moon");
      NextIndex(headers, i, "Total");
      HeaderStep(headers, i);
      var h := headers[i];
      if h == "Light Type" {
        light := i;
      } else if h == "Standardized Moon" {
        moon := i;
      } else if h == "Total" {
        total := i;
      }
      indices := MatchSpecies(indices, h, i);
    }
    assert headers[..|headers|] == headers;
    c := Columns(light, moon, total, indices);
  }

  /** One more header: a name's last column is this one if the header is that name. */
  lemma NextIndex(hs: seq<string>, i: nat, name: string)
    requires i < |hs|
    ensures LastIndexOf(hs[..i + 1], name) == if hs[i] == name then i else LastIndexOf(hs[..i], name)
  {
    var prefix := hs[..i + 1];
    assert prefix[..|prefix| - 1] == hs[..i] && prefix[|prefix| - 1] == hs[i];
  }

  /** One more header: the species map gains this column if the header is a species. */
  lemma HeaderStep(hs: seq<string>, i: nat)
    requires i < |hs|
    ensures SpeciesColumns(hs[..i + 1]) == if hs[i] in SpeciesList then SpeciesColumns(hs[..i])[hs[i] := i] else SpeciesColumns(hs[..i])
  {
    var prefix := hs[..i + 1];
    assert prefix[..|prefix| - 1] == hs[..i] && prefix[|prefix| - 1] == hs[i];
  }

  /** The inner loop of the header scan: the header h, if it names a species, now maps to column i. */
  method MatchSpecies(indices: map<string, int>, h: string, i: int) returns (r: map<string, int>)
    ensures r == if h in SpeciesList then indices[h := i] else indices
  {
    r := indices;
    for j := 0 to |SpeciesList|
      invariant r == if h in SpeciesList[..j] then indices[h := i] else indices
    {
      assert SpeciesList[..j + 1] == SpeciesList[..j] + [SpeciesList[j]];
      if h == SpeciesList[j] {
        r := r[SpeciesList[j] := i];
      }
    }
    assert SpeciesList[..|SpeciesList|] == SpeciesList;
  }

  // ------------------------------------------------------------ data rows

  /** The split cells of the data lines whose cell count equals the header count, in file order. */
  function Accepted(lines: seq<string>, width: int): (rows: seq<seq<string>>)
    ensures forall k :: 0 <= k < |rows| ==> |rows[k]| == width
  {
    if lines == [] then []
    else
      var init := Accepted(lines[..|lines| - 1], width);
      var row := GetlineFields(lines[|lines| - 1], ',');
      if |row| == width then init + [row] else init
  }

  /** The cell at column i; columns outside the row read as "" (never the case for accepted rows and fitting columns). */
  function At(row: seq<string>, i: int): string {
    if 0 <= i < |row| then row[i] else ""
  }

  function LightOf(row: seq<string>, c: Columns): string {
    At(row, c.light)
  }

  /** `speciesIndices[sp]`: a species that heads no column reads column 0. */
  function SpeciesColumn(c: Columns, sp: string): int {
    if sp in c.species then c.species[sp] else 0
  }

  /** The count a cell contributes: its `stoi` value, or 0 when the conversion throws. */
  function CellCount(row: seq<string>, col: int, parse: string -> Option<int>): int {
    if 0 <= col < |row| then
      match parse(row[col])
      case None => 0
      case Some(n) => n
    else 0
  }

  /**
   * On a row the columns fit, every read is inside the row: the light type
   * is the light cell, and each species' count is its cell's `stoi` value,
   * or 0 when the conversion throws and the catch resets it.
   */
  lemma CellCountInRow(row: seq<string>, c: Columns, sp: string, parse: string -> Option<int>)
    requires Fits(c, |row|)
    ensures LightOf(row, c) == row[c.light]
    ensures 0 <= SpeciesColumn(c, sp) < |row|
    ensures parse(row[SpeciesColumn(c, sp)]).None? ==> CellCount(row, SpeciesColumn(c, sp), parse) == 0
    ensures parse(row[SpeciesColumn(c, sp)]).Some? ==> CellCount(row, SpeciesColumn(c, sp), parse) == parse(row[SpeciesColumn(c, sp)]).value
  {
  }

  // ------------------------------------------------------------ maps with default entries

  /** `m[k]` read through `operator[]`: a missing key reads 0. */
  function Get(m: map<string, int>, k: string): int {
    if k in m then m[k] else 0
  }

  /** `m[k]` of a nested map: a missing key reads the empty map. */
  function Inner(m: map<string, map<string, int>>, k: string): map<string, int> {
    if k in m then m[k] else map[]
  }

  /** `m[outer][inner] += n`, creating either entry when missing. */
  function Bump(m: map<string, map<string, int>>, outer: string, inner: string, n: int): map<string, map<string, int>> {
    m[outer := Inner(m, outer)[inner := Get(Inner(m, outer), inner) + n]]
  }

  /** What `m[outer][inner] += n` does to the entry at (o, i). */
  lemma BumpAt(m: map<string, map<string, int>>, outer: string, inner: string, n: int, o: string, i: string)
    ensures o in Bump(m, outer, inner, n) <==> o in m || o == outer
    ensures i in Inner(Bump(m, outer, inner, n), o) <==> i in Inner(m, o) || (o == outer && i == inner)
    ensures Get(Inner(Bump(m, outer, inner, n), o), i) == Get(Inner(m, o), i) + (if o == outer && i == inner then n else 0)
  {
  }

  /** `m[k] += n`, creating the entry when missing. */
  function AddTo(m: map<string, int>, k: string, n: int): map<string, int> {
    m[k := Get(m, k) + n]
  }

  // ------------------------------------------------------------ what the loops accumulate

  /** `counts[sp][lightType] += count` for each species of sps in turn. */
  function CountRow(m: map<string, map<string, int>>, sps: seq<string>, row: seq<string>, c: Columns, parse: string -> Option<int>): map<string, map<string, int>> {
    if sps == [] then m
    else
      var sp := sps[|sps| - 1];
      Bump(CountRow(m, sps[..|sps| - 1], row, c, parse), sp, LightOf(row, c), CellCount(row, SpeciesColumn(c, sp), parse))
  }

  /** `counts` after the given accepted rows. */
  function Counts(rows: seq<seq<string>>, c: Columns, parse: string -> Option<int>): map<string, map<string, int>> {
    if rows == [] then map[]
    else CountRow(Counts(rows[..|rows| - 1], c, parse), SpeciesList, rows[|rows| - 1], c, parse)
  }

  /** `speciesTotals[sp] += count` for each species of sps in turn. */
  function TotalRow(m: map<string, int>, sps: seq<string>, row: seq<string>, c: Columns, parse: string -> Option<int>): map<string, int> {
    if sps == [] then m
    else
      var sp := sps[|sps| - 1];
      AddTo(TotalRow(m, sps[..|sps| - 1], row, c, parse), sp, CellCount(row, SpeciesColumn(c, sp), parse))
  }

  /** `speciesTotals` after the given accepted rows. */
  function Totals(rows: seq<seq<string>>, c: Columns, parse: string -> Option<int>): map<string, int> {
    if rows == [] then map[]
    else TotalRow(Totals(rows[..|rows| - 1], c, parse), SpeciesList, rows[|rows| - 1], c, parse)
  }

  /** `lightSpeciesCounts[lightType][sp] += count` for each species of sps in turn. */
  function LightRow(m: map<string, map<string, int>>, sps: seq<string>, row: seq<string>, c: Columns, parse: string -> Option<int>): map<string, map<string, int>> {
    if sps == [] then m
    else
      var sp := sps[|sps| - 1];
      Bump(LightRow(m, sps[..|sps| - 1], row, c, parse), LightOf(row, c), sp, CellCount(row, SpeciesColumn(c, sp), parse))
  }

  /** `lightSpeciesCounts` after the given accepted rows. */
  function LightCounts(rows: seq<seq<string>>, c: Columns, parse: string -> Option<int>): map<string, map<string, int>> {
    if rows == [] then map[]
    else LightRow(LightCounts(rows[..|rows| - 1], c, parse), SpeciesList, rows[|rows| - 1], c, parse)
  }

  /** `lightTypes` after the given accepted rows: their light types, ascending and without repeats. */
  function LightTypes(rows: seq<seq<string>>, c: Columns): (r: seq<string>)
    ensures StrictlyAscending(r)
    ensures forall lt :: lt in r <==> exists k :: 0 <= k < |rows| && LightOf(rows[k], c) == lt
  {
    if rows == [] then []
    else
      var init := rows[..|rows| - 1];
      var prev := LightTypes(init, c);
      assert forall k :: 0 <= k < |init| ==> rows[k] == init[k];
      SetInsert(prev, LightOf(rows[|rows| - 1], c))
  }

  /** One more species of the inner loop: each fold takes one more step. */
  lemma RowStep(counts: map<string, map<string, int>>, totals: map<string, int>, lsc: map<string, map<string, int>>,
                species: seq<string>, j: nat, row: seq<string>, c: Columns, parse: string -> Option<int>)
    requires j < |species|
    ensures var sp, n := species[j], CellCount(row, SpeciesColumn(c, species[j]), parse);
      && CountRow(counts, species[..j + 1], row, c, parse) == Bump(CountRow(counts, species[..j], row, c, parse), sp, LightOf(row, c), n)
      && TotalRow(totals, species[..j + 1], row, c, parse) == AddTo(TotalRow(totals, species[..j], row, c, parse), sp, n)
      && LightRow(lsc, species[..j + 1], row, c, parse) == Bump(LightRow(lsc, species[..j], row, c, parse), LightOf(row, c), sp, n)
  {
    assert species[..j + 1][..j] == species[..j];
  }

  // ------------------------------------------------------------ the sums, stated directly

  /** The sum of column col over the rows whose light type is lt. */
  function Tally(rows: seq<seq<string>>, col: int, lt: string, c: Columns, parse: string -> Option<int>): int {
    if rows == [] then 0
    else
      var row := rows[|rows| - 1];
      Tally(rows[..|rows| - 1], col, lt, c, parse) + (if LightOf(row, c) == lt then CellCount(row, col, parse) else 0)
  }

  /** The sum of column col over all rows. */
  function ColumnTotal(rows: seq<seq<string>>, col: int, parse: string -> Option<int>): int {
    if rows == [] then 0
    else ColumnTotal(rows[..|rows| - 1], col, parse) + CellCount(rows[|rows| - 1], col, parse)
  }

  /** One row's effect on `counts[sp][lt]`. */
  lemma {:induction false} CountRowAt(m: map<string, map<string, int>>, sps: seq<string>, row: seq<string>, c: Columns, parse: string -> Option<int>, sp: string, lt: string)
    requires Distinct(sps)
    ensures sp in CountRow(m, sps, row, c, parse) <==> sp in m || sp in sps
    ensures lt in Inner(CountRow(m, sps, row, c, parse), sp) <==> lt in Inner(m, sp) || (sp in sps && lt == LightOf(row, c))
    ensures Get(Inner(CountRow(m, sps, row, c, parse), sp), lt)
         == Get(Inner(m, sp), lt) + (if sp in sps && lt == LightOf(row, c) then CellCount(row, SpeciesColumn(c, sp), parse) else 0)
  {
    if sps != [] {
      var init, last := sps[..|sps| - 1], sps[|sps| - 1];
      assert sps == init + [last];
      CountRowAt(m, init, row, c, parse, sp, lt);
      BumpAt(CountRow(m, init, row, c, parse), last, LightOf(row, c), CellCount(row, SpeciesColumn(c, last), parse), sp, lt);
    }
  }

  /** `counts[sp][lt]` is the sum of the species' column over the rows of light type lt, and lt has an entry exactly when some row has that light type. */
  lemma {:induction false} CountsMeaning(rows: seq<seq<string>>, c: Columns, parse: string -> Option<int>, sp: string, lt: string)
    ensures sp in Counts(rows, c, parse) <==> rows != [] && sp in SpeciesList
    ensures lt in Inner(Counts(rows, c, parse), sp) <==> sp in SpeciesList && lt in LightTypes(rows, c)
    ensures Get(Inner(Counts(rows, c, parse), sp), lt) == if sp in SpeciesList then Tally(rows, SpeciesColumn(c, sp), lt, c, parse) else 0
  {
    if rows != [] {
      var init := rows[..|rows| - 1];
      SpeciesDistinct();
      CountsMeaning(init, c, parse, sp, lt);
      CountRowAt(Counts(init, c, parse), SpeciesList, rows[|rows| - 1], c, parse, sp, lt);
    }
  }

  /** One row's effect on `speciesTotals[sp]`. */
  lemma {:induction false} TotalRowAt(m: map<string, int>, sps: seq<string>, row: seq<string>, c: Columns, parse: string -> Option<int>, sp: string)
    requires Distinct(sps)
    ensures sp in TotalRow(m, sps, row, c, parse) <==> sp in m || sp in sps
    ensures Get(TotalRow(m, sps, row, c, parse), sp) == Get(m, sp) + (if sp in sps then CellCount(row, SpeciesColumn(c, sp), parse) else 0)
  {
    if sps != [] {
      var init, last := sps[..|sps| - 1], sps[|sps| - 1];
      assert sps == init + [last];
      TotalRowAt(m, init, row, c, parse, sp);
    }
  }

  /** `speciesTotals[sp]` is the sum of the species' column over all rows. */
  lemma {:induction false} TotalsMeaning(rows: seq<seq<string>>, c: Columns, parse: string -> Option<int>, sp: string)
    ensures sp in Totals(rows, c, parse) <==> rows != [] && sp in SpeciesList
    ensures Get(Totals(rows, c, parse), sp) == if sp in SpeciesList then ColumnTotal(rows, SpeciesColumn(c, sp), parse) else 0
  {
    if rows != [] {
      var init := rows[..|rows| - 1];
      SpeciesDistinct();
      TotalsMeaning(init, c, parse, sp);
      TotalRowAt(Totals(init, c, parse), SpeciesList, rows[|rows| - 1], c, parse, sp);
    }
  }

  /** One row's effect on `lightSpeciesCounts[lt][sp]`. */
  lemma {:induction false} LightRowAt(m: map<string, map<string, int>>, sps: seq<string>, row: seq<string>, c: Columns, parse: string -> Option<int>, lt: string, sp: string)
    requires Distinct(sps)
    ensures lt in LightRow(m, sps, row, c, parse) <==> lt in m || (sps != [] && lt == LightOf(row, c))
    ensures Get(Inner(LightRow(m, sps, row, c, parse), lt), sp)
         == Get(Inner(m, lt), sp) + (if sp in sps && lt == LightOf(row, c) then CellCount(row, SpeciesColumn(c, sp), parse) else 0)
  {
    if sps != [] {
      var init, last := sps[..|sps| - 1], sps[|sps| - 1];
      assert sps == init + [last];
      assert Distinct(init) && last !in init;
      var prev, n := LightRow(m, init, row, c, parse), CellCount(row, SpeciesColumn(c, last), parse);
      assert LightRow(m, sps, row, c, parse) == Bump(prev, LightOf(row, c), last, n);
      LightRowAt(m, init, row, c, parse, lt, sp);
      BumpAt(prev, LightOf(row, c), last, n, lt, sp);
    }
  }

  /** `lightSpeciesCounts[lt][sp]` is the same sum as `counts[sp][lt]`, and lt has an entry exactly when some row has that light type. */
  lemma {:induction false} LightCountsMeaning(rows: seq<seq<string>>, c: Columns, parse: string -> Option<int>, lt: string, sp: string)
    ensures lt in LightCounts(rows, c, parse) <==> lt in LightTypes(rows, c)
    ensures Get(Inner(LightCounts(rows, c, parse), lt), sp) == if sp in SpeciesList then Tally(rows, SpeciesColumn(c, sp), lt, c, parse) else 0
  {
    if rows != [] {
      var init := rows[..|rows| - 1];
      SpeciesDistinct();
      LightCountsMeaning(init, c, parse, lt, sp);
      LightRowAt(LightCounts(init, c, parse), SpeciesList, rows[|rows| - 1], c, parse, lt, sp);
    }
  }

  /** Reading line i: it is accepted when it has the header's width, and then each fold takes one step. */
  lemma AcceptStep(lines: seq<string>, i: nat, width: int, rows: seq<seq<string>>, c: Columns, parse: string -> Option<int>)
    requires i < |lines| && rows == Accepted(lines[..i], width) && Fits(c, width)
    ensures var row := GetlineFields(lines[i], ',');
      Accepted(lines[..i + 1], width) == if |row| == width then rows + [row] else rows
    ensures var row := GetlineFields(lines[i], ','); var next := rows + [row];
      |row| == width ==>
        && LightOf(row, c) == row[c.light]
        && (rows + [row])[..|rows|] == rows
        && Counts(next, c, parse) == CountRow(Counts(rows, c, parse), SpeciesList, row, c, parse)
        && Totals(next, c, parse) == TotalRow(Totals(rows, c, parse), SpeciesList, row, c, parse)
        && LightCounts(next, c, parse) == LightRow(LightCounts(rows, c, parse), SpeciesList, row, c, parse)
        && LightTypes(next, c) == SetInsert(LightTypes(rows, c), row[c.light])
  {
    assert lines[..i + 1][..i] == lines[..i];
    var row := GetlineFields(lines[i], ',');
    assert (rows + [row])[..|rows|] == rows;
  }

  /** A line whose cell count differs from the header count is not read. */
  lemma SkippedLine(lines: seq<string>, line: string, width: int)
    requires |GetlineFields(line, ',')| != width
    ensures Accepted(lines + [line], width) == Accepted(lines, width)
  {
    assert (lines + [line])[..|lines|] == lines;
  }
}
