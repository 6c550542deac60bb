/** The per-row rules of the two CSV importers. Rows arrive already split into
    fields; a row with other than three fields is skipped. */
module Ingest {
  import opened Text
  import opened Leitner

  datatype Student = Student(code: string, name: string, classLevel: string)

  const FieldsPerRow := 3
  const MeaningSeparator := ';'

  /** Students are stored under their own code. */
  predicate KeyedByCode(students: map<string, Student>) {
    forall c :: c in students ==> students[c].code == c
  }

  /** Word ids are below the next id to hand out, and pairwise distinct. */
  predicate WellNumbered(words: seq<Word>, nextId: nat) {
    (forall i :: 0 <= i < |words| ==> words[i].id < nextId) &&
    (forall i, j :: 0 <= i < j < |words| ==> words[i].id != words[j].id)
  }

  /** How many rows have the expected number of fields. */
  function WellFormedRows(rows: seq<seq<string>>): nat {
    if rows == [] then 0
    else WellFormedRows(rows[..|rows| - 1]) + (if |rows[|rows| - 1]| == FieldsPerRow then 1 else 0)
  }

  /** [m.strip() for m in parts] */
  function StripAll(parts: seq<string>): (r: seq<string>)
    ensures |r| == |parts|
    ensures forall i :: 0 <= i < |parts| ==> r[i] == Strip(parts[i])
  {
    if parts == [] then [] else [Strip(parts[0])] + StripAll(parts[1..])
  }

  /** The meanings cell "a; b;c" becomes ["a", "b", "c"]. */
  function Meanings(cell: string): (r: seq<string>)
    ensures |r| >= 1
  {
    StripAll(Split(cell, MeaningSeparator))
  }

  // ---------------------------------------------------------------------------
  // Student import

  datatype StudentImport = StudentImport(students: map<string, Student>, added: nat, updated: nat)

  /** One row: a known code is updated in place, a new one is added. */
  function ImportStudentRow(acc: StudentImport, row: seq<string>): (r: StudentImport)
    ensures |row| != FieldsPerRow ==> r == acc
    ensures |row| == FieldsPerRow ==>
      r.added + r.updated == acc.added + acc.updated + 1 &&
      (r.updated == acc.updated + 1 <==> Strip(row[0]) in acc.students) &&
      r.students == acc.students[Strip(row[0]) := Student(Strip(row[0]), Strip(row[1]), Strip(row[2]))]
    ensures |r.students| + acc.added == |acc.students| + r.added
  {
    if |row| != FieldsPerRow then acc
    else
      var code, name, level := Strip(row[0]), Strip(row[1]), Strip(row[2]);
      var students := acc.students[code := Student(code, name, level)];
      if code in acc.students then StudentImport(students, acc.added, acc.updated + 1)
      else StudentImport(students, acc.added + 1, acc.updated)
  }

  function ImportStudents(acc: StudentImport, rows: seq<seq<string>>): StudentImport {
    if rows == [] then acc else ImportStudentRow(ImportStudents(acc, rows[..|rows| - 1]), rows[|rows| - 1])
  }

  /** The import of the first i + 1 rows is that of the first i, then row i. */
  lemma ImportStudentsPrefix(acc: StudentImport, rows: seq<seq<string>>, i: nat)
    requires i < |rows|
    ensures ImportStudents(acc, rows[..i + 1]) == ImportStudentRow(ImportStudents(acc, rows[..i]), rows[i])
  {
    assert rows[..i + 1][..i] == rows[..i];
  }

  /** Every well-formed row counts once, as added or as updated; each added row is a new
      student, and no student is removed. */
  lemma {:induction false} ImportStudentsTotals(acc: StudentImport, rows: seq<seq<string>>)
    ensures var r := ImportStudents(acc, rows);
      r.added + r.updated == acc.added + acc.updated + WellFormedRows(rows) &&
      |r.students| + acc.added == |acc.students| + r.added &&
      acc.students.Keys <= r.students.Keys
    decreases |rows|
  {
    if rows != [] {
      ImportStudentsTotals(acc, rows[..|rows| - 1]);
    }
  }

  lemma {:induction false} ImportStudentsKeyedByCode(acc: StudentImport, rows: seq<seq<string>>)
    requires KeyedByCode(acc.students)
    ensures KeyedByCode(ImportStudents(acc, rows).students)
    decreases |rows|
  {
    if rows != [] {
      ImportStudentsKeyedByCode(acc, rows[..|rows| - 1]);
    }
  }

  /** The import that re-reads a row it has already seen updates, never adds. */
  lemma ReimportStudentUpdates(acc: StudentImport, row: seq<string>)
    requires |row| == FieldsPerRow
    ensures var once := ImportStudentRow(acc, row);
      var twice := ImportStudentRow(once, row);
      twice.updated == once.updated + 1 && twice.added == once.added && twice.students == once.students
  {
  }

  // ---------------------------------------------------------------------------
  // Word import

  datatype WordImport = WordImport(words: seq<Word>, nextId: nat, added: nat)

  /** The duplicate test as written: a stored word of the class whose english equals the
      lower-cased incoming english (the stored english itself is not lower-cased). */
  predicate HasStoredWord(words: seq<Word>, level: string, english: string) {
    exists i :: 0 <= i < |words| && words[i].classLevel == level && words[i].english == Lower(english)
  }

  /** One row: a new word with the next id is appended unless the duplicate test finds one. */
  function ImportWordRow(acc: WordImport, row: seq<string>): WordImport {
    if |row| != FieldsPerRow then acc
    else
      var level, english, turkish := Strip(row[0]), Strip(row[1]), Strip(row[2]);
      if HasStoredWord(acc.words, level, english) then acc
      else WordImport(acc.words + [Word(acc.nextId, level, english, Meanings(turkish))], acc.nextId + 1, acc.added + 1)
  }

  /** A malformed row or a duplicate changes nothing; otherwise exactly one word is appended,
      carrying the next id and the stripped fields. */
  lemma ImportWordRowEffect(acc: WordImport, row: seq<string>)
    ensures var r := ImportWordRow(acc, row);
      (|row| != FieldsPerRow ==> r == acc) &&
      (|row| == FieldsPerRow ==>
        (r.added == acc.added + 1 <==> !HasStoredWord(acc.words, Strip(row[0]), Strip(row[1])))) &&
      (r.added == acc.added ==> r == acc) &&
      (r.added == acc.added + 1 ==>
        |row| == FieldsPerRow &&
        r.words == acc.words + [Word(acc.nextId, Strip(row[0]), Strip(row[1]), Meanings(Strip(row[2])))] &&
        r.nextId == acc.nextId + 1) &&
      (r.added == acc.added || r.added == acc.added + 1)
  {
  }

  function ImportWords(acc: WordImport, rows: seq<seq<string>>): WordImport {
    if rows == [] then acc else ImportWordRow(ImportWords(acc, rows[..|rows| - 1]), rows[|rows| - 1])
  }

  lemma ImportWordsPrefix(acc: WordImport, rows: seq<seq<string>>, i: nat)
    requires i < |rows|
    ensures ImportWords(acc, rows[..i + 1]) == ImportWordRow(ImportWords(acc, rows[..i]), rows[i])
  {
    assert rows[..i + 1][..i] == rows[..i];
  }

  /** Words are only appended, one per added row, each with a fresh id; at most one per well-formed row. */
  lemma {:induction false} ImportWordsTotals(acc: WordImport, rows: seq<seq<string>>)
    ensures var r := ImportWords(acc, rows);
      acc.added <= r.added <= acc.added + WellFormedRows(rows) &&
      |r.words| + acc.added == |acc.words| + r.added &&
      r.nextId + acc.added == acc.nextId + r.added &&
      acc.words == r.words[..|acc.words|]
    decreases |rows|
  {
    if rows != [] {
      ImportWordsTotals(acc, rows[..|rows| - 1]);
      ImportWordRowEffect(ImportWords(acc, rows[..|rows| - 1]), rows[|rows| - 1]);
    }
  }

  lemma WellNumberedAppend(words: seq<Word>, nextId: nat, w: Word)
    requires WellNumbered(words, nextId) && w.id == nextId
    ensures WellNumbered(words + [w], nextId + 1)
  {
    var ws := words + [w];
    forall i, j | 0 <= i < j < |ws| ensures ws[i].id != ws[j].id {
      assert ws[i] == words[i];
      if j < |words| { assert ws[j] == words[j]; }
    }
  }

  lemma ImportWordRowWellNumbered(acc: WordImport, row: seq<string>)
    requires WellNumbered(acc.words, acc.nextId)
    ensures WellNumbered(ImportWordRow(acc, row).words, ImportWordRow(acc, row).nextId)
  {
    var r := ImportWordRow(acc, row);
    ImportWordRowEffect(acc, row);
    if r.added == acc.added + 1 {
      WellNumberedAppend(acc.words, acc.nextId, r.words[|acc.words|]);
      assert r.words == acc.words + [r.words[|acc.words|]];
    }
  }

  /** Imports keep word ids fresh and distinct. */
  lemma {:induction false} ImportWordsWellNumbered(acc: WordImport, rows: seq<seq<string>>)
    requires WellNumbered(acc.words, acc.nextId)
    ensures WellNumbered(ImportWords(acc, rows).words, ImportWords(acc, rows).nextId)
    decreases |rows|
  {
    if rows != [] {
      ImportWordsWellNumbered(acc, rows[..|rows| - 1]);
      ImportWordRowWellNumbered(ImportWords(acc, rows[..|rows| - 1]), rows[|rows| - 1]);
    }
  }

  /** Re-importing a row whose english is already lower case adds nothing. */
  lemma ReimportLowercaseWordSkipped(acc: WordImport, row: seq<string>)
    requires |row| == FieldsPerRow && Lower(Strip(row[1])) == Strip(row[1])
    ensures var once := ImportWordRow(acc, row);
      ImportWordRow(once, row) == once
  {
    var once := ImportWordRow(acc, row);
    ImportWordRowEffect(acc, row);
    ImportWordRowEffect(once, row);
    if once.added == acc.added + 1 {
      assert once.words[|acc.words|].english == Strip(row[1]);
    }
  }

  /** The duplicate test misses a stored word whose english has upper-case letters:
      importing such a row twice adds two words. */
  lemma ReimportMixedCaseWordDuplicated(acc: WordImport, row: seq<string>)
    requires |row| == FieldsPerRow && Lower(Strip(row[1])) != Strip(row[1])
    requires !HasStoredWord(acc.words, Strip(row[0]), Strip(row[1]))
    ensures ImportWordRow(ImportWordRow(acc, row), row).added == acc.added + 2
  {
    var once := ImportWordRow(acc, row);
    ImportWordRowEffect(acc, row);
    forall i | 0 <= i < |once.words|
      ensures !(once.words[i].classLevel == Strip(row[0]) && once.words[i].english == Lower(Strip(row[1])))
    {
      if i < |acc.words| { assert once.words[i] == acc.words[i]; }
    }
  }

  /** An english cell such as "Hello", whose first letter is upper case, is such a row:
      importing "5A,Hello,merhaba" twice stores two words. */
  lemma CapitalizedIsMixedCase(english: string)
    requires english != [] && 'A' <= english[0] <= 'Z' && !IsSpace(english[|english| - 1])
    ensures Lower(Strip(english)) != Strip(english)
  {
    StripUnpadded(english);
    assert Lower(english)[0] != english[0];
  }
}
