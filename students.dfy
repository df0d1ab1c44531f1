/**
 * Reading student records from a CSV file: a line is split on commas, each
 * field is trimmed, and a line becomes a record only when it has exactly
 * twelve non-empty fields whose seven numeric columns convert.
 */
module Students {
  import opened Wrappers
  import opened Strings

  /** `" \t\r\n"`: the characters `trim` removes. */
  const FieldWhitespace: set<char> := {' ', '\t', '\r', '\n'}

  /** `struct Student`. */
  datatype Student = Student(
    rollNo: string, gender: string, raceEthnicity: string, parentalEducation: string,
    lunch: int, testPreparation: int, math: int, science: int, reading: int, writing: int, total: int,
    grade: char)

  /** The number of columns of a well-formed line. */
  const FieldCount := 12

  /** Every field trimmed, in order. */
  function TrimAll(fields: seq<string>): (r: seq<string>)
    ensures |r| == |fields|
  {
    if fields == [] then [] else TrimAll(fields[..|fields| - 1]) + [Trim(fields[|fields| - 1], FieldWhitespace)]
  }

  lemma {:induction false} TrimAllAt(fields: seq<string>, i: int)
    requires 0 <= i < |fields|
    ensures TrimAll(fields)[i] == Trim(fields[i], FieldWhitespace)
    decreases |fields|
  {
    if i < |fields| - 1 {
      TrimAllAt(fields[..|fields| - 1], i);
    }
  }

  /** What the tokens vector of `parse_line` holds: the trimmed getline fields of the line. */
  function Tokens(line: string): seq<string> {
    TrimAll(GetlineFields(line, ','))
  }

  /** Twelve tokens, none of them empty. */
  predicate WellFormed(tokens: seq<string>) {
    |tokens| == FieldCount && forall i :: 0 <= i < |tokens| ==> tokens[i] != []
  }

  /** Every conversion of columns 4..k succeeds. */
  predicate ConvertsUpTo(tokens: seq<string>, parse: string -> Option<int>, k: int)
    requires |tokens| == FieldCount
  {
    && (k >= 4 ==> parse(tokens[4]).Some?)
    && (k >= 5 ==> parse(tokens[5]).Some?)
    && (k >= 6 ==> parse(tokens[6]).Some?)
    && (k >= 7 ==> parse(tokens[7]).Some?)
    && (k >= 8 ==> parse(tokens[8]).Some?)
    && (k >= 9 ==> parse(tokens[9]).Some?)
    && (k >= 10 ==> parse(tokens[10]).Some?)
  }

  /** The record a line describes, if it describes one. */
  function Record(line: string, parse: string -> Option<int>): Option<Student> {
    RecordOf(Tokens(line), parse)
  }

  /** The record that tokens describe: twelve non-empty tokens whose numeric columns all convert. */
  function RecordOf(t: seq<string>, parse: string -> Option<int>): Option<Student> {
    if WellFormed(t) && ConvertsUpTo(t, parse, 10) then
      Some(Student(t[0], t[1], t[2], t[3],
                   parse(t[4]).value, parse(t[5]).value, parse(t[6]).value, parse(t[7]).value,
                   parse(t[8]).value, parse(t[9]).value, parse(t[10]).value, t[11][0]))
    else None
  }

  /**
   * The student after the assignments of `parse_line` on well-formed
   * tokens: the text fields, then the integer fields in column order up to
   * the first conversion that throws, then the grade if none does.
   */
  function Assigned(t: seq<string>, student: Student, parse: string -> Option<int>): Student
    requires WellFormed(t)
  {
    var s := student.(rollNo := t[0], gender := t[1], raceEthnicity := t[2], parentalEducation := t[3]);
    if parse(t[4]).None? then s else
    var s := s.(lunch := parse(t[4]).value);
    if parse(t[5]).None? then s else
    var s := s.(testPreparation := parse(t[5]).value);
    if parse(t[6]).None? then s else
    var s := s.(math := parse(t[6]).value);
    if parse(t[7]).None? then s else
    var s := s.(science := parse(t[7]).value);
    if parse(t[8]).None? then s else
    var s := s.(reading := parse(t[8]).value);
    if parse(t[9]).None? then s else
    var s := s.(writing := parse(t[9]).value);
    if parse(t[10]).None? then s else
    var s := s.(total := parse(t[10]).value);
    s.(grade := t[11][0])
  }

  /**
   * What the assignments leave: the text fields from tokens 0-3, each
   * integer field converted when every conversion up to it succeeds and
   * left as it was otherwise, and the grade written only when all succeed.
   */
  lemma AssignedFields(t: seq<string>, student: Student, parse: string -> Option<int>)
    requires WellFormed(t)
    ensures var s := Assigned(t, student, parse);
      && s.rollNo == t[0] && s.gender == t[1] && s.raceEthnicity == t[2] && s.parentalEducation == t[3]
      && s.lunch == (if ConvertsUpTo(t, parse, 4) then parse(t[4]).value else student.lunch)
      && s.testPreparation == (if ConvertsUpTo(t, parse, 5) then parse(t[5]).value else student.testPreparation)
      && s.math == (if ConvertsUpTo(t, parse, 6) then parse(t[6]).value else student.math)
      && s.science == (if ConvertsUpTo(t, parse, 7) then parse(t[7]).value else student.science)
      && s.reading == (if ConvertsUpTo(t, parse, 8) then parse(t[8]).value else student.reading)
      && s.writing == (if ConvertsUpTo(t, parse, 9) then parse(t[9]).value else student.writing)
      && s.total == (if ConvertsUpTo(t, parse, 10) then parse(t[10]).value else student.total)
      && s.grade == (if ConvertsUpTo(t, parse, 10) then t[11][0] else student.grade)
  {
  }

  /** When every conversion succeeds, the assignments produce the line's record, whatever the student held before. */
  lemma AssignedIsRecord(line: string, student: Student, parse: string -> Option<int>)
    requires WellFormed(Tokens(line)) && ConvertsUpTo(Tokens(line), parse, 10)
    ensures Record(line, parse) == Some(Assigned(Tokens(line), student, parse))
  {
  }

  /** The first loop of `parse_line`: the trimmed fields of the line, in order. */
  method Tokenize(line: string) returns (tokens: seq<string>)
    ensures tokens == Tokens(line)
  {
    var fields := GetlineFields(line, ',');
    tokens := [];
    for i := 0 to |fields|
      invariant tokens == TrimAll(fields[..i])
    {
      assert fields[..i + 1][..i] == fields[..i];
      tokens := tokens + [Trim(fields[i], FieldWhitespace)];
    }
    assert fields[..|fields|] == fields;
  }

  /**
   * `parse_line`: splits the line, trims each field, rejects the line unless
   * it has twelve non-empty fields, then assigns the fields of student in
   * column order. A conversion that throws ends the assignments there, the
   * fields already assigned keeping their new values.
   */
  method ParseLine(line: string, student: Student, parse: string -> Option<int>) returns (ok: bool, s: Student)
    ensures ok <==> Record(line, parse).Some?
    ensures ok ==> s == Record(line, parse).value
    ensures !WellFormed(Tokens(line)) ==> s == student
    ensures WellFormed(Tokens(line)) ==> s == Assigned(Tokens(line), student, parse)
  {
    var tokens := Tokenize(line);
    ok, s := ParseTokens(tokens, student, parse);
  }

  /** The checks and assignments of `parse_line` once the line is split into tokens. */
  method ParseTokens(tokens: seq<string>, student: Student, parse: string -> Option<int>) returns (ok: bool, s: Student)
    ensures ok <==> RecordOf(tokens, parse).Some?
    ensures ok ==> s == RecordOf(tokens, parse).value
    ensures !WellFormed(tokens) ==> s == student
    ensures WellFormed(tokens) ==> s == Assigned(tokens, student, parse)
  {
    s := student;
    if |tokens| != FieldCount {
      return false, s;
    }
    for i := 0 to |tokens|
      invariant forall j :: 0 <= j < i ==> tokens[j] != []
    {
      if tokens[i] == [] {
        return false, s;
      }
    }
    s := s.(rollNo := tokens[0], gender := tokens[1], raceEthnicity := tokens[2], parentalEducation := tokens[3]);
    var v := parse(tokens[4]);
    if v.None? { return false, s; }
    s := s.(lunch := v.value);
    v := parse(tokens[5]);
    if v.None? { return false, s; }
    s := s.(testPreparation := v.value);
    v := parse(tokens[6]);
    if v.None? { return false, s; }
    s := s.(math := v.value);
    v := parse(tokens[7]);
    if v.None? { return false, s; }
    s := s.(science := v.value);
    v := parse(tokens[8]);
    if v.None? { return false, s; }
    s := s.(reading := v.value);
    v := parse(tokens[9]);
    if v.None? { return false, s; }
    s := s.(writing := v.value);
    v := parse(tokens[10]);
    if v.None? { return false, s; }
    s := s.(total := v.value);
    s := s.(grade := tokens[11][0]);
    return true, s;
  }

  /** The record of one line, as a sequence of zero or one records. */
  function Kept(line: string, parse: string -> Option<int>): seq<Student> {
    match Record(line, parse)
    case None => []
    case Some(s) => [s]
  }

  /** The records of the lines that parse, in file order. */
  function Records(lines: seq<string>, parse: string -> Option<int>): seq<Student> {
    if lines == [] then [] else Records(lines[..|lines| - 1], parse) + Kept(lines[|lines| - 1], parse)
  }

  /** One more line adds its record, if it has one. */
  lemma RecordsStep(lines: seq<string>, i: nat, parse: string -> Option<int>)
    requires i < |lines|
    ensures Records(lines[..i + 1], parse) == Records(lines[..i], parse) + Kept(lines[i], parse)
  {
    assert lines[..i + 1][..i] == lines[..i];
  }

  /** Reading the file in two parts reads the records of both parts, in order. */
  lemma {:induction false} RecordsConcat(a: seq<string>, b: seq<string>, parse: string -> Option<int>)
    ensures Records(a + b, parse) == Records(a, parse) + Records(b, parse)
    decreases |b|
  {
    if b == [] {
      assert a + b == a;
    } else {
      var b', x := b[..|b| - 1], b[|b| - 1];
      assert (a + b)[..|a + b| - 1] == a + b';
      assert (a + b)[|a + b| - 1] == x;
      RecordsConcat(a, b', parse);
    }
  }

  /**
   * Every record read has non-empty text fields without commas and without
   * surrounding whitespace, and a grade that is neither whitespace nor a comma.
   */
  lemma RecordFieldsClean(line: string, parse: string -> Option<int>)
    requires Record(line, parse).Some?
    ensures var s := Record(line, parse).value;
      && Clean(s.rollNo) && Clean(s.gender) && Clean(s.raceEthnicity) && Clean(s.parentalEducation)
      && s.grade !in FieldWhitespace && s.grade != ','
  {
    var f := GetlineFields(line, ',');
    var t := Tokens(line);
    forall i | 0 <= i < FieldCount
      ensures Clean(t[i])
    {
      TrimAllAt(f, i);
      TrimInside(f[i]);
    }
  }

  /** Non-empty, no comma, no whitespace at either end. */
  predicate Clean(field: string) {
    field != [] && ',' !in field && field[0] !in FieldWhitespace && field[|field| - 1] !in FieldWhitespace
  }

  lemma TrimInside(field: string)
    requires ',' !in field && Trim(field, FieldWhitespace) != []
    ensures Clean(Trim(field, FieldWhitespace))
  {
    var r := Trim(field, FieldWhitespace);
    TrimMeaning(field, FieldWhitespace);
    var p, q :| 0 <= p <= q <= |field| && r == field[p..q];
  }

  /**
   * The reading loop of `main`: an empty file is an error; otherwise the header line is
   * skipped and the students are the records of the remaining lines, in order.
   */
  method LoadStudents(lines: seq<string>, parse: string -> Option<int>) returns (ok: bool, students: seq<Student>)
    ensures ok <==> lines != []
    ensures students == if ok then Records(lines[1..], parse) else []
  {
    students := [];
    if lines == [] {
      return false, students;
    }
    var data := lines[1..];
    for i := 0 to |data|
      invariant students == Records(data[..i], parse)
    {
      RecordsStep(data, i, parse);
      var blank := Student("", "", "", "", 0, 0, 0, 0, 0, 0, 0, ' ');
      var parsed, s := ParseLine(data[i], blank, parse);
      if parsed {
        students := students + [s];
      }
    }
    assert data[..|data|] == data;
    return true, students;
  }
}
