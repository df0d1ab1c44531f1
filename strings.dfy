/**
 * Character and string routines shared by the programs: ASCII case mapping
 * (`tolower`, `toupper`, `isdigit` in the "C" locale), the lexicographic
 * order of `std::string`, `find_first_not_of` / `find_last_not_of` and the
 * trimming built on them, and the way `std::getline` splits a line on a
 * delimiter.
 */
module Strings {
  import opened Wrappers

  // ---------------------------------------------------------------- characters

  /** `tolower` on ASCII: 'A'..'Z' map to 'a'..'z', everything else is kept. */
  function Lower(c: char): char {
    if 'A' <= c <= 'Z' then (c as int + 32) as char else c
  }

  /** `toupper` on ASCII: 'a'..'z' map to 'A'..'Z', everything else is kept. */
  function Upper(c: char): char {
    if 'a' <= c <= 'z' then (c as int - 32) as char else c
  }

  /** `isdigit` on ASCII. */
  predicate IsDigit(c: char) {
    '0' <= c <= '9'
  }

  lemma LowerLower(c: char)
    ensures Lower(Lower(c)) == Lower(c)
  {
  }

  lemma UpperUpper(c: char)
    ensures Upper(Upper(c)) == Upper(c)
  {
  }

  lemma UpperLower(c: char)
    ensures Upper(Lower(c)) == Upper(c)
  {
  }

  /** Every character mapped by `tolower`: what `std::transform(..., ::tolower)` yields. */
  function LowerString(s: string): (r: string)
    ensures |r| == |s|
    ensures forall i :: 0 <= i < |s| ==> r[i] == Lower(s[i])
  {
    if s == [] then [] else [Lower(s[0])] + LowerString(s[1..])
  }

  /** Every character mapped by `toupper`. */
  function UpperString(s: string): (r: string)
    ensures |r| == |s|
    ensures forall i :: 0 <= i < |s| ==> r[i] == Upper(s[i])
  {
    if s == [] then [] else [Upper(s[0])] + UpperString(s[1..])
  }

  // -------------------------------------------------- the order of std::string

  /**
   * `a < b` on `std::string`: lexicographic by character code, a proper
   * prefix coming first.
   */
  predicate StrLess(a: string, b: string)
    decreases |a|
  {
    if a == [] then b != []
    else if b == [] then false
    else if a[0] != b[0] then a[0] < b[0]
    else StrLess(a[1..], b[1..])
  }

  /** `!(b < a)`: the non-strict order that a sequence sorted with `<` satisfies pairwise. */
  predicate StrLe(a: string, b: string) {
    !StrLess(b, a)
  }

  lemma {:induction false} StrLessIrreflexive(a: string)
    ensures !StrLess(a, a)
    decreases |a|
  {
    if a != [] {
      StrLessIrreflexive(a[1..]);
    }
  }

  lemma {:induction false} StrLessTransitive(a: string, b: string, c: string)
    requires StrLess(a, b) && StrLess(b, c)
    ensures StrLess(a, c)
    decreases |a|
  {
    if a != [] && a[0] == b[0] && b[0] == c[0] {
      StrLessTransitive(a[1..], b[1..], c[1..]);
    }
  }

  lemma {:induction false} StrLessTotal(a: string, b: string)
    ensures a == b || StrLess(a, b) || StrLess(b, a)
    decreases |a|
  {
    if a != [] && b != [] && a[0] == b[0] {
      StrLessTotal(a[1..], b[1..]);
      if a[1..] == b[1..] {
        assert a == [a[0]] + a[1..] && b == [b[0]] + b[1..];
      }
    }
  }

  lemma StrLessAsymmetric(a: string, b: string)
    requires StrLess(a, b)
    ensures !StrLess(b, a)
  {
    if StrLess(b, a) {
      StrLessTransitive(a, b, a);
      StrLessIrreflexive(a);
    }
  }

  /** `<` on strings is a strict total order, so `StrLe` is a total order. */
  lemma StrLeLessTrans(a: string, b: string, c: string)
    requires StrLe(a, b) && StrLess(b, c)
    ensures StrLess(a, c)
  {
    StrLessTotal(a, b);
    if a != b {
      StrLessTransitive(a, b, c);
    }
  }

  lemma StrLessLeTrans(a: string, b: string, c: string)
    requires StrLess(a, b) && StrLe(b, c)
    ensures StrLess(a, c)
  {
    StrLessTotal(b, c);
    if b != c {
      StrLessTransitive(a, b, c);
    }
  }

  lemma StrLeTransitive(a: string, b: string, c: string)
    requires StrLe(a, b) && StrLe(b, c)
    ensures StrLe(a, c)
  {
    if StrLess(c, a) {
      StrLessLeTrans(c, a, b);
      StrLessAsymmetric(c, b);
    }
  }

  lemma StrLeTotal(a: string, b: string)
    ensures StrLe(a, b) || StrLe(b, a)
  {
    if StrLess(a, b) {
      StrLessAsymmetric(a, b);
    }
  }

  // ------------------------------------------------------------------ trimming

  /** Every character of s belongs to cs. */
  predicate AllIn(s: string, cs: set<char>) {
    forall i :: 0 <= i < |s| ==> s[i] in cs
  }

  /** `s.find_first_not_of(cs)`, with None standing for `npos`. */
  function FindFirstNotOf(s: string, cs: set<char>): (r: Option<nat>)
    ensures r.None? <==> AllIn(s, cs)
    ensures r.Some? ==> r.value < |s| && s[r.value] !in cs && AllIn(s[..r.value], cs)
  {
    if s == [] then None
    else if s[0] !in cs then Some(0)
    else
      match FindFirstNotOf(s[1..], cs)
      case None => None
      case Some(k) =>
        Some(k + 1)
  }

  /** `s.find_last_not_of(cs)`, with None standing for `npos`. */
  function FindLastNotOf(s: string, cs: set<char>): (r: Option<nat>)
    ensures r.None? <==> AllIn(s, cs)
    ensures r.Some? ==> r.value < |s| && s[r.value] !in cs && AllIn(s[r.value + 1..], cs)
  {
    if s == [] then None
    else if s[|s| - 1] !in cs then Some(|s| - 1)
    else
      var r := FindLastNotOf(s[..|s| - 1], cs);
      assert r.Some? ==> forall i :: r.value + 1 <= i < |s| - 1 ==> s[i] == s[..|s| - 1][i];
      r
  }

  /**
   * Trimming by `find_first_not_of` / `find_last_not_of` and `substr`: the
   * empty string when s holds only characters of cs, otherwise the part of s
   * from its first to its last character outside cs.
   */
  function Trim(s: string, cs: set<char>): string {
    match FindFirstNotOf(s, cs)
    case None => []
    case Some(first) => s[first..FindLastNotOf(s, cs).value + 1]
  }

  /**
   * What trimming yields: nothing exactly when s holds only characters of
   * cs, and otherwise a slice of s that begins and ends outside cs, with
   * only characters of cs cut from either end.
   */
  lemma TrimMeaning(s: string, cs: set<char>)
    ensures Trim(s, cs) == [] <==> AllIn(s, cs)
    ensures Trim(s, cs) != [] ==> Trim(s, cs)[0] !in cs && Trim(s, cs)[|Trim(s, cs)| - 1] !in cs
    ensures exists p, q :: 0 <= p <= q <= |s| && Trim(s, cs) == s[p..q] && AllIn(s[..p], cs) && AllIn(s[q..], cs)
  {
    match FindFirstNotOf(s, cs)
    case None =>
      assert s[|s|..|s|] == [] && s[..|s|] == s;
    case Some(first) =>
      var last := FindLastNotOf(s, cs).value;
      assert Trim(s, cs) == s[first..last + 1];
      assert AllIn(s[..first], cs) && AllIn(s[last + 1..], cs);
  }

  /** Where s has a character outside cs, the trimmed string runs from the first such character to the last. */
  lemma TrimBetween(s: string, cs: set<char>, first: nat, last: nat)
    requires FindFirstNotOf(s, cs) == Some(first) && FindLastNotOf(s, cs) == Some(last)
    ensures first <= last && Trim(s, cs) == s[first..last + 1]
  {
  }

  lemma TrimIdempotent(s: string, cs: set<char>)
    ensures Trim(Trim(s, cs), cs) == Trim(s, cs)
  {
    var r := Trim(s, cs);
    TrimMeaning(s, cs);
    if r != [] {
      assert FindFirstNotOf(r, cs) == Some(0);
      assert FindLastNotOf(r, cs) == Some(|r| - 1);
      TrimBetween(r, cs, 0, |r| - 1);
      assert r[0..|r|] == r;
    }
  }

  // ------------------------------------------------------ splitting on getline

  /** The number of occurrences of d in s. */
  function Occurrences(s: string, d: char): nat {
    if s == [] then 0 else (if s[0] == d then 1 else 0) + Occurrences(s[1..], d)
  }

  /** The pieces of s between occurrences of d, one more than there are d's. */
  function Pieces(s: string, d: char): (r: seq<string>)
    ensures |r| == Occurrences(s, d) + 1
    ensures forall k :: 0 <= k < |r| ==> d !in r[k]
    ensures r[|r| - 1] == [] <==> s == [] || s[|s| - 1] == d
  {
    if s == [] then [[]]
    else
      var rest := Pieces(s[1..], d);
      if s[0] == d then [[]] + rest else [[s[0]] + rest[0]] + rest[1..]
  }

  /** The pieces glued back together with d between them. */
  function Join(fields: seq<string>, d: char): string {
    if |fields| == 0 then []
    else if |fields| == 1 then fields[0]
    else fields[0] + [d] + Join(fields[1..], d)
  }

  /**
   * The fields that `while (std::getline(ss, item, d))` yields for a stream
   * holding s: every piece between delimiters, except that a final empty
   * piece (s empty or ending with d) makes getline fail rather than yield "".
   */
  function GetlineFields(s: string, d: char): (r: seq<string>)
    ensures forall k :: 0 <= k < |r| ==> d !in r[k]
    ensures |r| == Occurrences(s, d) + (if s == [] || s[|s| - 1] == d then 0 else 1)
  {
    var p := Pieces(s, d);
    if p[|p| - 1] == [] then p[..|p| - 1] else p
  }

  /** A character put in front of the first piece comes out in front of the joined string. */
  lemma JoinExtendHead(c: char, p: seq<string>, d: char)
    requires |p| >= 1
    ensures Join([[c] + p[0]] + p[1..], d) == [c] + Join(p, d)
  {
    var q := [[c] + p[0]] + p[1..];
    assert q[0] == [c] + p[0] && q[1..] == p[1..];
  }

  lemma {:induction false} JoinPieces(s: string, d: char)
    ensures Join(Pieces(s, d), d) == s
  {
    if s != [] {
      var rest := Pieces(s[1..], d);
      JoinPieces(s[1..], d);
      assert s == [s[0]] + s[1..];
      if s[0] == d {
        var p := [[]] + rest;
        assert p[0] == [] && p[1..] == rest;
      } else {
        JoinExtendHead(s[0], rest, d);
      }
    }
  }

  /**
   * Splitting with getline loses only a final empty field: joining the
   * fields (with that empty field put back when s is empty or ends with d)
   * gives s again.
   */
  lemma GetlineFieldsJoin(s: string, d: char)
    ensures Join(GetlineFields(s, d) + (if s == [] || s[|s| - 1] == d then [[]] else []), d) == s
  {
    var p := Pieces(s, d);
    JoinPieces(s, d);
    if s == [] || s[|s| - 1] == d {
      assert GetlineFields(s, d) + [[]] == p;
    } else {
      assert GetlineFields(s, d) + [] == p;
    }
  }
}
