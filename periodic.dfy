/**
 * The periodic-table lookup tool: a table of elements indexed by atomic
 * number, two indices of (key, atomic number) pairs sorted by key and
 * searched by binary search, and the normalisation of what the user types
 * before it is looked up.
 */
module Periodic {
  import opened Wrappers
  import opened Strings
  import opened Sorting

  /** One element as read from a data row; the atomic mass is not kept, only whether its token converts. */
  datatype Element = Element(symbol: string, name: string, number: int, phase: string, category: string)

  /** A default-constructed element: empty strings and number 0. */
  const NoElement := Element("", "", 0, "", "")

  /** Atomic numbers the table stores. */
  predicate InRange(n: int) {
    1 <= n <= 118
  }

  /** One entry of the name or symbol index: the key and its atomic number. */
  type IndexEntry = (string, int)

  /** `CompClass::operator()`: entries are ordered by key alone. */
  predicate Comp(a: IndexEntry, b: IndexEntry) {
    StrLess(a.0, b.0)
  }

  /** `!comp(b, a)`: the relation that neighbours in a vector sorted with `comp` satisfy. */
  predicate KeyLe(a: IndexEntry, b: IndexEntry) {
    !Comp(b, a)
  }

  /** An index sorted with `comp`. */
  predicate KeySorted(index: seq<IndexEntry>) {
    Sorted(index, KeyLe)
  }

  lemma KeyLeTotalPreorder()
    ensures TotalPreorder(KeyLe)
  {
    forall a: IndexEntry, b: IndexEntry
      ensures KeyLe(a, b) || KeyLe(b, a)
    {
      StrLeTotal(a.0, b.0);
    }
    forall a: IndexEntry, b: IndexEntry, c: IndexEntry | KeyLe(a, b) && KeyLe(b, c)
      ensures KeyLe(a, c)
    {
      StrLeTransitive(a.0, b.0, c.0);
    }
  }

  /**
   * `index_find`: binary search of index for key. The result is the atomic
   * number of an entry with that key, or -1.
   */
  method IndexFind(index: seq<IndexEntry>, key: string) returns (r: int)
    ensures |index| == 0 ==> r == -1
    ensures r != -1 ==> exists i :: 0 <= i < |index| && index[i] == (key, r)
    ensures KeySorted(index) && (exists i :: 0 <= i < |index| && index[i].0 == key) ==>
              exists i :: 0 <= i < |index| && index[i] == (key, r)
    ensures KeySorted(index) && r == -1 && (forall i :: 0 <= i < |index| ==> index[i].1 != -1) ==>
              forall i :: 0 <= i < |index| ==> index[i].0 != key
  {
    var left := 0;
    var right := |index| - 1;
    while left <= right
      invariant 0 <= left && right < |index| && left <= right + 1
      invariant KeySorted(index) ==> forall i :: 0 <= i < left ==> StrLess(index[i].0, key)
      invariant KeySorted(index) ==> forall i :: right < i < |index| ==> StrLess(key, index[i].0)
      decreases right - left
    {
      var mid := left + (right - left) / 2;
      if index[mid].0 == key {
        return index[mid].1;
      } else if StrLess(index[mid].0, key) {
        if KeySorted(index) {
          forall i | 0 <= i <= mid
            ensures StrLess(index[i].0, key)
          {
            if i < mid {
              assert KeyLe(index[i], index[mid]);
              StrLeLessTrans(index[i].0, index[mid].0, key);
            }
          }
        }
        left := mid + 1;
      } else {
        if KeySorted(index) {
          StrLessTotal(index[mid].0, key);
          forall i | mid <= i < |index|
            ensures StrLess(key, index[i].0)
          {
            if i > mid {
              assert KeyLe(index[mid], index[i]);
              StrLessLeTrans(key, index[mid].0, index[i].0);
            }
          }
        }
        right := mid - 1;
      }
    }
    if KeySorted(index) {
      forall i | 0 <= i < |index|
        ensures index[i].0 != key
      {
        StrLessIrreflexive(key);
      }
    }
    return -1;
  }

  // ------------------------------------------------------------ reading rows

  /**
   * The token that the j-th `std::getline(ss, token, ',')` of one row leaves
   * behind: the j-th piece of the line, and once the line is exhausted the
   * token keeps the value of the last piece (a failing getline does not
   * change it).
   */
  function RowToken(line: string, j: nat): string {
    var p := Pieces(line, ',');
    p[if j < |p| then j else |p| - 1]
  }

  /** On a line with enough fields the tokens are exactly its getline fields. */
  lemma RowTokenIsField(line: string, j: nat)
    requires j < |GetlineFields(line, ',')|
    ensures RowToken(line, j) == GetlineFields(line, ',')[j]
  {
  }

  /**
   * One data row, columns number, name, symbol, mass, phase, type. None when
   * `std::stoi` throws on the number token or `std::stod` throws on the mass
   * token: neither is caught, so either ends the program. massConverts says
   * which tokens `std::stod` accepts; the mass itself is not kept.
   */
  function ParseRow(line: string, parse: string -> Option<int>, massConverts: string -> bool): (r: Option<Element>)
    ensures r.None? <==> parse(RowToken(line, 0)).None? || !massConverts(RowToken(line, 3))
    ensures r.Some? ==> (r.value.number == parse(RowToken(line, 0)).value
                         && r.value.name == RowToken(line, 1) && r.value.symbol == RowToken(line, 2)
                         && r.value.phase == RowToken(line, 4) && r.value.category == RowToken(line, 5))
  {
    match parse(RowToken(line, 0))
    case None => None
    case Some(n) =>
      if !massConverts(RowToken(line, 3)) then None
      else Some(Element(RowToken(line, 2), RowToken(line, 1), n, RowToken(line, 4), RowToken(line, 5)))
  }

  /** All rows parsed, or None as soon as one of them aborts the program. */
  function ParsedRows(lines: seq<string>, parse: string -> Option<int>, massConverts: string -> bool): Option<seq<Element>> {
    if lines == [] then Some([])
    else
      match ParsedRows(lines[..|lines| - 1], parse, massConverts)
      case None => None
      case Some(rows) =>
        match ParseRow(lines[|lines| - 1], parse, massConverts)
        case None => None
        case Some(e) => Some(rows + [e])
  }

  /** The rows parse exactly when every line's number and mass convert, and then row i is line i parsed. */
  lemma {:induction false} ParsedRowsMeaning(lines: seq<string>, parse: string -> Option<int>, massConverts: string -> bool)
    ensures ParsedRows(lines, parse, massConverts).Some? <==> forall i :: 0 <= i < |lines| ==> ParseRow(lines[i], parse, massConverts).Some?
    ensures ParsedRows(lines, parse, massConverts).Some? ==> var rows := ParsedRows(lines, parse, massConverts).value;
      |rows| == |lines| && forall i :: 0 <= i < |lines| ==> rows[i] == ParseRow(lines[i], parse, massConverts).value
  {
    if lines != [] {
      var init := lines[..|lines| - 1];
      ParsedRowsMeaning(init, parse, massConverts);
      assert forall i :: 0 <= i < |init| ==> init[i] == lines[i];
    }
  }

  /** Reading line i after rows: the parse, the slots and the indices each take one step. */
  lemma LoadStep(lines: seq<string>, i: nat, rows: seq<Element>, parse: string -> Option<int>, massConverts: string -> bool,
                  slots: seq<Element>, parsed: Option<Element>)
    requires i < |lines| && ParsedRows(lines[..i], parse, massConverts) == Some(rows) && |slots| == 119
    requires parsed == ParseRow(lines[i], parse, massConverts)
    ensures parsed.None? ==> ParsedRows(lines[..i + 1], parse, massConverts).None?
    ensures parsed.Some? ==> var e := parsed.value;
      && ParsedRows(lines[..i + 1], parse, massConverts) == Some(rows + [e])
      && Place(slots, rows + [e]) == Store(Place(slots, rows), e)
      && Entries(rows + [e], false) == Entries(rows, false) + (if InRange(e.number) then [(e.name, e.number)] else [])
      && Entries(rows + [e], true) == Entries(rows, true) + (if InRange(e.number) then [(e.symbol, e.number)] else [])
  {
    assert lines[..i + 1][..i] == lines[..i];
    if parsed.Some? {
      assert (rows + [parsed.value])[..|rows|] == rows;
    }
  }

  /** Once a line aborts, reading more lines does not resume. */
  lemma {:induction false} AbortPersists(lines: seq<string>, n: nat, parse: string -> Option<int>, massConverts: string -> bool)
    requires n <= |lines| && ParsedRows(lines[..n], parse, massConverts).None?
    ensures ParsedRows(lines, parse, massConverts).None?
    decreases |lines| - n
  {
    if n < |lines| {
      assert lines[..n + 1][..n] == lines[..n];
      AbortPersists(lines, n + 1, parse, massConverts);
    } else {
      assert lines[..n] == lines;
    }
  }

  /** Storing one element: `elements[number] = elem` when the number is in 1..118. */
  function Store(slots: seq<Element>, e: Element): seq<Element>
    requires |slots| == 119
  {
    if InRange(e.number) then slots[e.number := e] else slots
  }

  /** The slots after storing rows in order. */
  function Place(slots: seq<Element>, rows: seq<Element>): (r: seq<Element>)
    requires |slots| == 119
    ensures |r| == 119
  {
    if rows == [] then slots else Store(Place(slots, rows[..|rows| - 1]), rows[|rows| - 1])
  }

  /** The index entries that rows add: (name or symbol, number) for each row in range, in order. */
  function Entries(rows: seq<Element>, bySymbol: bool): (r: seq<IndexEntry>)
    ensures forall i :: 0 <= i < |r| ==> InRange(r[i].1)
  {
    if rows == [] then []
    else
      var e := rows[|rows| - 1];
      Entries(rows[..|rows| - 1], bySymbol) + (if InRange(e.number) then [(if bySymbol then e.symbol else e.name, e.number)] else [])
  }

  /**
   * After the rows are stored, slot n holds the last row numbered n, or its
   * old content when no row has that number; rows out of range touch nothing.
   */
  lemma {:induction false} PlaceLastWins(slots: seq<Element>, rows: seq<Element>, n: int)
    requires |slots| == 119 && 0 <= n < 119
    ensures (forall k :: 0 <= k < |rows| ==> rows[k].number != n || !InRange(n)) ==> Place(slots, rows)[n] == slots[n]
    ensures InRange(n) && (exists k :: 0 <= k < |rows| && rows[k].number == n) ==>
              exists k :: 0 <= k < |rows| && rows[k].number == n && Place(slots, rows)[n] == rows[k]
                       && forall j :: k < j < |rows| ==> rows[j].number != n
  {
    if rows != [] {
      var init := rows[..|rows| - 1];
      var last := rows[|rows| - 1];
      var before := Place(slots, init);
      assert Place(slots, rows) == Store(before, last);
      PlaceLastWins(slots, init, n);
      if InRange(n) && last.number == n {
        assert Place(slots, rows)[n] == last;
      } else {
        assert Place(slots, rows)[n] == before[n];
        assert forall k :: 0 <= k < |init| ==> init[k] == rows[k];
        if InRange(n) && exists k :: 0 <= k < |rows| && rows[k].number == n {
          var k :| 0 <= k < |rows| && rows[k].number == n;
          assert init[k].number == n;
        }
      }
    }
  }

  // --------------------------------------------------------------- the table

  /** The characters that the input is trimmed of: `" \t\n\r\f\v"`. */
  const InputWhitespace: set<char> := {' ', '\t', '\n', '\r', '\U{C}', '\U{B}'}

  /** What one line of user input leads to. */
  datatype LookupResult =
    | Quit                  // "quit" in any case
    | Found(number: int)    // display elements[number]
    | NotFound              // "Element not found."
    | InvalidNumber         // a number outside 1..118
    | Aborted               // std::stoi threw on an all-digit input

  /**
   * The two erase calls that trim the input: everything before the first
   * character outside ws, then everything after the last one (when there is
   * none, `npos + 1` wraps to 0 and the whole string is erased).
   */
  function EraseTrim(s: string, ws: set<char>): string {
    var a := match FindFirstNotOf(s, ws) case None => [] case Some(f) => s[f..];
    match FindLastNotOf(a, ws)
    case None => []
    case Some(l) => a[..l + 1]
  }

  lemma FindLastNotOfUnique(s: string, cs: set<char>, x: nat)
    requires x < |s| && s[x] !in cs && AllIn(s[x + 1..], cs)
    ensures FindLastNotOf(s, cs) == Some(x)
  {
  }

  /** The first character outside ws comes no later than the last one. */
  lemma FirstBeforeLast(s: string, ws: set<char>, f: nat, l: nat)
    requires FindFirstNotOf(s, ws) == Some(f) && FindLastNotOf(s, ws) == Some(l)
    ensures f <= l
  {
    forall i | 0 <= i < f
      ensures s[i] in ws
    {
      assert s[..f][i] == s[i];
    }
  }

  /** After the characters before the first one outside ws are erased, the last one outside ws moves back by as many. */
  lemma LastAfterErase(s: string, ws: set<char>, f: nat, l: nat)
    requires FindFirstNotOf(s, ws) == Some(f) && FindLastNotOf(s, ws) == Some(l)
    ensures f <= l && FindLastNotOf(s[f..], ws) == Some(l - f)
  {
    FirstBeforeLast(s, ws, f, l);
    var a := s[f..];
    assert a[l - f] == s[l];
    assert AllIn(a[l - f + 1..], ws) by {
      assert a[l - f + 1..] == s[l + 1..];
    }
    FindLastNotOfUnique(a, ws, l - f);
  }

  /** The two erase calls trim exactly as `Trim` does. */
  lemma EraseTrimIsTrim(s: string, ws: set<char>)
    ensures EraseTrim(s, ws) == Trim(s, ws)
  {
    match FindFirstNotOf(s, ws)
    case None =>
    case Some(f) =>
      var l := FindLastNotOf(s, ws).value;
      TrimBetween(s, ws, f, l);
      LastAfterErase(s, ws, f, l);
      assert s[f..][..l - f + 1] == s[f..l + 1];
  }

  /** `!input.empty() && std::all_of(..., ::isdigit)`. */
  predicate IsNumber(s: string) {
    s != [] && forall i :: 0 <= i < |s| ==> IsDigit(s[i])
  }

  /**
   * An input judged a number is its own trim and never reads "quit", so
   * the number branch sees exactly the digits typed.
   */
  lemma NumberInput(t: string)
    requires IsNumber(t)
    ensures Trim(t, InputWhitespace) == t
    ensures UpperString(t) != "QUIT"
  {
    assert t[0] !in InputWhitespace by { assert IsDigit(t[0]); }
    assert FindFirstNotOf(t, InputWhitespace) == Some(0);
    assert AllIn(t[|t|..], InputWhitespace);
    assert t[|t| - 1] !in InputWhitespace by { assert IsDigit(t[|t| - 1]); }
    FindLastNotOfUnique(t, InputWhitespace, |t| - 1);
    TrimBetween(t, InputWhitespace, 0, |t| - 1);
    assert t[0..|t|] == t;
    assert UpperString(t)[0] != 'Q' by { assert UpperString(t)[0] == Upper(t[0]); }
  }

  /** The symbol as it is looked up: first character upper-cased, a second one lower-cased. */
  function NormalizeSymbol(s: string): (r: string)
    requires |s| <= 2
    ensures |r| == |s|
    ensures |s| >= 1 ==> r[0] == Upper(s[0])
    ensures |s| == 2 ==> r[1] == Lower(s[1])
  {
    if s == [] then [] else if |s| == 1 then [Upper(s[0])] else [Upper(s[0]), Lower(s[1])]
  }

  /** The name as it is looked up: first character upper-cased, the rest lower-cased. */
  function Capitalized(s: string): (r: string)
    ensures |r| == |s|
    ensures |s| >= 1 ==> r[0] == Upper(s[0])
    ensures forall i :: 1 <= i < |s| ==> r[i] == Lower(s[i])
  {
    if s == [] then [] else [Upper(s[0])] + LowerString(s[1..])
  }

  /** The name is case-mapped character by character, as the loop of the source does. */
  method NormalizeName(s: string) returns (name: string)
    ensures name == Capitalized(s)
  {
    name := s;
    if |name| == 0 {
      return;
    }
    name := name[0 := Upper(name[0])];
    for i := 1 to |name|
      invariant |name| == |s|
      invariant |s| > 0 ==> name[0] == Upper(s[0])
      invariant forall j :: 1 <= j < i ==> name[j] == Lower(s[j])
      invariant forall j :: i <= j < |s| ==> name[j] == s[j]
    {
      name := name[i := Lower(name[i])];
    }
  }

  lemma SameUpper(c: char, d: char)
    requires Lower(c) == Lower(d)
    ensures Upper(c) == Upper(d)
  {
    UpperLower(c);
    UpperLower(d);
  }

  /** Inputs that differ only in letter case look up the same symbol; normalising twice changes nothing. */
  lemma SymbolCaseInsensitive(s: string, t: string)
    requires |s| <= 2 && LowerString(s) == LowerString(t)
    ensures NormalizeSymbol(s) == NormalizeSymbol(t)
    ensures NormalizeSymbol(NormalizeSymbol(s)) == NormalizeSymbol(s)
  {
    if |s| >= 1 {
      assert LowerString(s)[0] == LowerString(t)[0];
      SameUpper(s[0], t[0]);
      UpperUpper(s[0]);
    }
    if |s| == 2 {
      assert LowerString(s)[1] == LowerString(t)[1];
      LowerLower(s[1]);
    }
  }

  /** Inputs that differ only in letter case look up the same name; capitalising twice changes nothing. */
  lemma NameCaseInsensitive(s: string, t: string)
    requires LowerString(s) == LowerString(t)
    ensures Capitalized(s) == Capitalized(t)
    ensures Capitalized(Capitalized(s)) == Capitalized(s)
  {
    var a, b, c := Capitalized(s), Capitalized(t), Capitalized(Capitalized(s));
    forall i | 0 <= i < |s|
      ensures a[i] == b[i] && c[i] == a[i]
    {
      assert LowerString(s)[i] == LowerString(t)[i];
      if i == 0 {
        SameUpper(s[0], t[0]);
        UpperUpper(s[0]);
      } else {
        LowerLower(s[i]);
      }
    }
  }

  /** The key that input t is searched for: a symbol when it has at most two characters, a name otherwise. */
  function SearchKey(t: string): string {
    if |t| <= 2 then NormalizeSymbol(t) else Capitalized(t)
  }

  /**
   * The element table: 119 slots indexed by atomic number (slot 0 unused)
   * and the name and symbol indices.
   */
  class PeriodicTable {
    var elements: array<Element>
    var nameIndex: seq<IndexEntry>
    var symbolIndex: seq<IndexEntry>

    ghost predicate Valid()
      reads this
    {
      && elements.Length == 119
      && (forall i :: 0 <= i < |nameIndex| ==> InRange(nameIndex[i].1))
      && (forall i :: 0 <= i < |symbolIndex| ==> InRange(symbolIndex[i].1))
    }

    /** `std::vector<Element> elements(119)` and two empty indices. */
    constructor ()
      ensures Valid() && fresh(elements)
      ensures elements[..] == seq(119, _ => NoElement)
      ensures nameIndex == [] && symbolIndex == []
    {
      elements := new Element[119](_ => NoElement);
      nameIndex := [];
      symbolIndex := [];
    }

    /**
     * The store step of the read loop in `main`: an element numbered 1..118 takes its slot and gets an
     * entry in both indices; any other element changes nothing.
     */
    method Insert(e: Element)
      requires Valid()
      modifies this, elements
      ensures Valid() && elements == old(elements)
      ensures elements[..] == Store(old(elements[..]), e)
      ensures nameIndex == old(nameIndex) + (if InRange(e.number) then [(e.name, e.number)] else [])
      ensures symbolIndex == old(symbolIndex) + (if InRange(e.number) then [(e.symbol, e.number)] else [])
    {
      if InRange(e.number) {
        elements[e.number] := e;
      } else {
        return;
      }
      nameIndex := nameIndex + [(e.name, e.number)];
      symbolIndex := symbolIndex + [(e.symbol, e.number)];
    }

    /**
     * The read loop over the data lines (the header line already skipped).
     * ok is false when a number or mass token does not convert, which ends the
     * program; otherwise every row has been stored in order.
     */
    method Load(lines: seq<string>, parse: string -> Option<int>, massConverts: string -> bool) returns (ok: bool)
      requires Valid()
      modifies this, elements
      ensures Valid() && elements == old(elements)
      ensures ok <==> ParsedRows(lines, parse, massConverts).Some?
      ensures ok ==> var rows := ParsedRows(lines, parse, massConverts).value;
                     && elements[..] == Place(old(elements[..]), rows)
                     && nameIndex == old(nameIndex) + Entries(rows, false)
                     && symbolIndex == old(symbolIndex) + Entries(rows, true)
    {
      ghost var rows: seq<Element> := [];
      var i := 0;
      while i < |lines|
        invariant 0 <= i <= |lines|
        invariant Valid() && elements == old(elements)
        invariant ParsedRows(lines[..i], parse, massConverts) == Some(rows)
        invariant elements[..] == Place(old(elements[..]), rows)
        invariant nameIndex == old(nameIndex) + Entries(rows, false)
        invariant symbolIndex == old(symbolIndex) + Entries(rows, true)
      {
        var parsed := ParseRow(lines[i], parse, massConverts);
        LoadStep(lines, i, rows, parse, massConverts, old(elements[..]), parsed);
        if parsed.None? {
          AbortPersists(lines, i + 1, parse, massConverts);
          return false;
        }
        var e := parsed.value;
        Insert(e);
        rows := rows + [e];
        i := i + 1;
      }
      assert lines[..i] == lines;
      return true;
    }

    /** The two `std::sort` calls after reading: both indices sorted with `comp`. */
    method SortIndices()
      requires Valid()
      modifies this
      ensures Valid() && elements == old(elements)
      ensures nameIndex == SortBy(old(nameIndex), KeyLe) && symbolIndex == SortBy(old(symbolIndex), KeyLe)
      ensures KeySorted(nameIndex) && KeySorted(symbolIndex)
      ensures multiset(nameIndex) == multiset(old(nameIndex)) && multiset(symbolIndex) == multiset(old(symbolIndex))
    {
      KeyLeTotalPreorder();
      SortBySorted(nameIndex, KeyLe);
      SortBySorted(symbolIndex, KeyLe);
      var n, s := SortBy(nameIndex, KeyLe), SortBy(symbolIndex, KeyLe);
      forall i | 0 <= i < |n|
        ensures InRange(n[i].1)
      {
        assert n[i] in multiset(nameIndex);
      }
      forall i | 0 <= i < |s|
        ensures InRange(s[i].1)
      {
        assert s[i] in multiset(symbolIndex);
      }
      nameIndex, symbolIndex := n, s;
    }

    /**
     * One turn of the input loop of `main`: trim the line, stop on "quit" in any
     * case, look up an all-digit input by number, an input of at most two
     * characters by symbol and a longer one by name.
     */
    method Lookup(input: string, parse: string -> Option<int>) returns (r: LookupResult)
      requires Valid()
      ensures var t := Trim(input, InputWhitespace);
        && (r == Quit <==> UpperString(t) == "QUIT")
        && (r == Aborted <==> UpperString(t) != "QUIT" && IsNumber(t) && parse(t).None?)
        && (r.Found? ==> InRange(r.number))
        && (UpperString(t) != "QUIT" && IsNumber(t) && parse(t).Some? ==>
              var n := parse(t).value;
              && (r == InvalidNumber <==> !InRange(n))
              && (r.Found? <==> InRange(n) && elements[n].name != "")
              && (r.Found? ==> r.number == n))
        && (UpperString(t) != "QUIT" && !IsNumber(t) ==>
              var index := if |t| <= 2 then symbolIndex else nameIndex;
              && (r.Found? || r == NotFound)
              && (r.Found? ==> (SearchKey(t), r.number) in index)
              && (KeySorted(index) ==> (r.Found? <==> exists e :: e in index && e.0 == SearchKey(t))))
    {
      var t := EraseTrim(input, InputWhitespace);
      EraseTrimIsTrim(input, InputWhitespace);
      if UpperString(t) == "QUIT" {
        return Quit;
      }
      if IsNumber(t) {
        var parsed := parse(t);
        if parsed.None? {
          return Aborted;
        }
        r := LookupNumber(parsed.value);
      } else {
        r := LookupText(t);
      }
    }

    /** The number branch of the input loop: a number outside 1..118 is invalid, and a slot without a name holds no element. */
    method LookupNumber(n: int) returns (r: LookupResult)
      requires Valid()
      ensures r == InvalidNumber <==> !InRange(n)
      ensures r.Found? <==> InRange(n) && elements[n].name != ""
      ensures r.Found? ==> r.number == n
      ensures r == InvalidNumber || r == NotFound || r.Found?
    {
      if InRange(n) {
        if elements[n].name != "" {
          r := Found(n);
        } else {
          r := NotFound;
        }
      } else {
        r := InvalidNumber;
      }
    }

    /**
     * The text branch of the input loop: a text of at most two characters is searched as a
     * symbol, a longer one as a name; what is found is an entry of that
     * index, and on a sorted index nothing is missed.
     */
    method LookupText(t: string) returns (r: LookupResult)
      requires Valid()
      ensures var index := if |t| <= 2 then symbolIndex else nameIndex;
        && (r.Found? || r == NotFound)
        && (r.Found? ==> (SearchKey(t), r.number) in index && InRange(r.number))
        && (KeySorted(index) ==> (r.Found? <==> exists e :: e in index && e.0 == SearchKey(t)))
    {
      var index, key;
      if |t| <= 2 {
        index, key := symbolIndex, NormalizeSymbol(t);
      } else {
        index := nameIndex;
        key := NormalizeName(t);
      }
      var n := IndexFind(index, key);
      if n != -1 {
        ghost var i :| 0 <= i < |index| && index[i] == (key, n);
        assert index[i] in index;
        r := Found(n);
      } else {
        if KeySorted(index) {
          forall e | e in index
            ensures e.0 != key
          {
            var i :| 0 <= i < |index| && index[i] == e;
          }
        }
        r := NotFound;
      }
    }
  }
}
