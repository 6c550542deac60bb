/** The store behind the API, in memory: students by code, the word catalog in insertion
    order, and progress records by (student code, word id); and the endpoint bodies that
    read and change it. The clock (now) is passed in, in UTC seconds. */
module Server {
  import opened Text
  import opened StableSort
  import opened Leitner
  import opened Ingest

  datatype Failure = StudentNotFound | WordNotFound
  datatype Result<T> = Ok(value: T) | Err(failure: Failure)

  datatype StudyResponse = StudyResponse(wordId: WordId, english: string, isCorrect: bool,
                                         correctAnswers: seq<string>, newBox: int, feedback: Feedback)

  datatype NextWord = Completed | Next(wordId: WordId, english: string, currentBox: int, remaining: nat)

  /** The distribution maps box b to its count (the source's key "box_b"). */
  datatype StudentStats = StudentStats(totalWords: nat, boxDistribution: map<int, nat>,
                                       studiedToday: nat, nextStudyWords: nat)

  datatype WordStatus = WordStatus(id: WordId, english: string, meanings: seq<string>,
                                   box: int, lastStudied: Option<int>)

  // ---------------------------------------------------------------------------
  // Queries the database answers

  function InClass(level: string): Word -> bool {
    (w: Word) => w.classLevel == level
  }

  /** The words of one class, in catalog order. */
  function ClassWords(words: seq<Word>, level: string): seq<Word> {
    Filter(words, InClass(level))
  }

  lemma ClassWordsMembers(words: seq<Word>, level: string)
    ensures forall w :: w in ClassWords(words, level) <==> w in words && w.classLevel == level
  {
    FilterMembers(words, InClass(level));
  }

  /** The first catalog word with the given id, if any. */
  function FindWord(words: seq<Word>, id: WordId): (r: Option<Word>)
    ensures r.None? <==> forall i :: 0 <= i < |words| ==> words[i].id != id
    ensures r.Some? ==> exists i :: (0 <= i < |words| && words[i] == r.value && r.value.id == id &&
                                     forall j :: 0 <= j < i ==> words[j].id != id)
  {
    if words == [] then None
    else if words[0].id == id then Some(words[0])
    else
      var r := FindWord(words[1..], id);
      assert r.Some? ==> forall j :: 0 < j < |words| ==> words[j] == words[1..][j - 1];
      r
  }

  /** The keys of a student's progress records. */
  function RecordsOf(prog: map<ProgressKey, Progress>, code: string): set<ProgressKey> {
    set k | k in prog && k.0 == code
  }

  /** The keys of a student's records that sit in box b. */
  function RecordsInBox(prog: map<ProgressKey, Progress>, code: string, b: int): set<ProgressKey> {
    set k | k in prog && k.0 == code && prog[k].box == b
  }

  function BoxesUsed(prog: map<ProgressKey, Progress>, code: string): set<int> {
    set k | k in prog && k.0 == code :: prog[k].box
  }

  /** The grouping of a student's records by box: one entry per box in use, with its count. */
  function GroupByBox(prog: map<ProgressKey, Progress>, code: string): (r: map<int, nat>)
    ensures forall b :: b in r <==> RecordsInBox(prog, code, b) != {}
    ensures forall b :: b in r ==> r[b] == |RecordsInBox(prog, code, b)| > 0
  {
    var r := map b | b in BoxesUsed(prog, code) :: |RecordsInBox(prog, code, b)|;
    forall b ensures b in r <==> RecordsInBox(prog, code, b) != {} {
      if RecordsInBox(prog, code, b) != {} {
        var k :| k in RecordsInBox(prog, code, b);
        assert prog[k].box == b;
      }
      if b in BoxesUsed(prog, code) {
        var k :| k in prog && k.0 == code && prog[k].box == b;
        assert k in RecordsInBox(prog, code, b);
      }
    }
    r
  }

  /** The records of the student stamped at or after midnight of now. */
  function StudiedToday(prog: map<ProgressKey, Progress>, code: string, now: int): set<ProgressKey> {
    set k | k in prog && k.0 == code && prog[k].lastStudied.Some? && prog[k].lastStudied.value >= Midnight(now)
  }

  /** On a clock that never runs backwards, "studied today" is exactly "stamped, and not due
      again until midnight". */
  lemma StudiedTodayMeansNotDue(prog: map<ProgressKey, Progress>, code: string, now: int, k: ProgressKey)
    requires k in prog && k.0 == code
    requires prog[k].lastStudied.Some? ==> prog[k].lastStudied.value <= now
    ensures k in StudiedToday(prog, code, now) <==>
      prog[k].lastStudied.Some? && !MidnightPassed(prog[k].lastStudied, now)
  {
    if prog[k].lastStudied.Some? {
      var t := prog[k].lastStudied.value;
      DayMonotone(t, now);
      DayOf(Day(now), 0);
      if t >= Midnight(now) {
        DayMonotone(Midnight(now), t);
      } else {
        var d := Day(t);
        DayOf(d, t - d * SecondsPerDay);
        assert d < Day(now);
      }
    }
  }

  /** The sum of the counts of boxes 1..n. */
  function SumBoxes(prog: map<ProgressKey, Progress>, code: string, n: nat): nat {
    if n == 0 then 0 else SumBoxes(prog, code, n - 1) + |RecordsInBox(prog, code, n)|
  }

  function RecordsUpTo(prog: map<ProgressKey, Progress>, code: string, n: nat): set<ProgressKey> {
    set k | k in prog && k.0 == code && 1 <= prog[k].box <= n
  }

  lemma {:induction false} SumBoxesCounts(prog: map<ProgressKey, Progress>, code: string, n: nat)
    ensures SumBoxes(prog, code, n) == |RecordsUpTo(prog, code, n)|
    decreases n
  {
    if n == 0 {
      assert RecordsUpTo(prog, code, 0) == {};
    } else {
      SumBoxesCounts(prog, code, n - 1);
      assert RecordsUpTo(prog, code, n) == RecordsUpTo(prog, code, n - 1) + RecordsInBox(prog, code, n);
      assert RecordsUpTo(prog, code, n - 1) * RecordsInBox(prog, code, n) == {};
    }
  }

  /** With every box in 1..TopBox, the five counts add up to the student's number of records. */
  lemma DistributionCoversRecords(prog: map<ProgressKey, Progress>, code: string)
    requires forall k :: k in prog ==> 1 <= prog[k].box <= TopBox
    ensures SumBoxes(prog, code, TopBox) == |RecordsOf(prog, code)|
  {
    SumBoxesCounts(prog, code, TopBox);
    assert RecordsUpTo(prog, code, TopBox) == RecordsOf(prog, code);
  }

  /** With every box in 1..TopBox, no box outside that range holds a record. */
  lemma NoRecordsOutsideBoxes(prog: map<ProgressKey, Progress>, code: string, b: int)
    requires forall k :: k in prog ==> 1 <= prog[k].box <= TopBox
    requires !(1 <= b <= TopBox)
    ensures RecordsInBox(prog, code, b) == {}
  {
  }

  /** The study list as the scheduler computes it; empty for an unknown student. */
  function TodaysList(students: map<string, Student>, words: seq<Word>, prog: map<ProgressKey, Progress>,
                      code: string, now: int): seq<StudyItem> {
    if code in students then StudyListOf(ClassWords(words, students[code].classLevel), prog, code, now) else []
  }

  /** The progress records after computing the list: the lazily created ones are added. */
  function AfterListing(students: map<string, Student>, words: seq<Word>, prog: map<ProgressKey, Progress>,
                        code: string): map<ProgressKey, Progress> {
    if code in students then LazyInit(prog, code, ClassWords(words, students[code].classLevel)) else prog
  }

  /** The next word comes from the highest box below the top that has a due word; a top-box
      word comes next only when no word below the top is due. */
  lemma NextWordPriority(s: seq<StudyItem>)
    requires StudyOrder(s) != []
    ensures var r := StudyOrder(s);
      forall j :: 0 <= j < |r| && r[j].box < TopBox ==> r[0].box < TopBox && r[0].box >= r[j].box
  {
    var r := StudyOrder(s);
    StudyOrderLayout(s);
    forall j | 0 <= j < |r| && r[j].box < TopBox ensures r[0].box < TopBox && r[0].box >= r[j].box {
      assert r[0].box <= TopBox;
      if r[0].box == TopBox {
        assert false;
      }
    }
  }

  /** One row of the word list the student page shows. */
  function StatusOf(w: Word, p: Option<Progress>): WordStatus {
    WordStatus(w.id, w.english, w.meanings, CurrentBox(p), if p.Some? then p.value.lastStudied else None)
  }

  /** The rows of the class words, in catalog order, as the listing loop collects them. */
  function Statuses(ws: seq<Word>, prog: map<ProgressKey, Progress>, code: string): (r: seq<WordStatus>)
    ensures |r| == |ws|
    ensures forall i :: 0 <= i < |ws| ==> r[i] == StatusOf(ws[i], Lookup(prog, (code, ws[i].id)))
  {
    if ws == [] then []
    else
      var w := ws[|ws| - 1];
      Statuses(ws[..|ws| - 1], prog, code) + [StatusOf(w, Lookup(prog, (code, w.id)))]
  }

  function StatusBox(x: WordStatus): int { x.box }

  /** The word list: every class word once, ascending by box, catalog order within a box;
      a word without a record shows box 1 and no date. */
  lemma StudentWordsOrder(ws: seq<Word>, prog: map<ProgressKey, Progress>, code: string, v: int)
    ensures var r := Sort(Statuses(ws, prog, code), StatusBox, false);
      Ordered(r, StatusBox, false) &&
      multiset(r) == multiset(Statuses(ws, prog, code)) &&
      |r| == |ws| &&
      WithKey(r, StatusBox, v) == WithKey(Statuses(ws, prog, code), StatusBox, v)
  {
    var s := Statuses(ws, prog, code);
    SortOrdered(s, StatusBox, false);
    SortPermutes(s, StatusBox, false);
    SortStable(s, StatusBox, false, v);
    assert |multiset(Sort(s, StatusBox, false))| == |multiset(s)|;
  }

  // ---------------------------------------------------------------------------
  // The store

  class Store {
    var students: map<string, Student>
    var words: seq<Word>
    var progress: map<ProgressKey, Progress>
    var nextWordId: nat

    /** Students under their own codes, fresh distinct word ids, every box in 1..TopBox. */
    predicate Valid()
      reads this
    {
      KeyedByCode(students) && WellNumbered(words, nextWordId) &&
      forall k :: k in progress ==> 1 <= progress[k].box <= TopBox
    }

    constructor()
      ensures Valid()
      ensures students == map[] && words == [] && progress == map[] && nextWordId == 0
    {
      students := map[];
      words := [];
      progress := map[];
      nextWordId := 0;
    }

    /** One word of the loop: its record is looked up and created at box 1 when missing;
        the word is collected when the midnight rule and the top-box rule let it through. */
    method VisitWord(code: string, w: Word, now: int) returns (entry: Option<StudyItem>)
      modifies this
      ensures students == old(students) && words == old(words) && nextWordId == old(nextWordId)
      ensures var key := (code, w.id);
        progress == if key in old(progress) then old(progress) else old(progress)[key := Progress(1, None)]
      ensures entry == Entry(w, Lookup(old(progress), (code, w.id)), now)
    {
      var key := (code, w.id);
      if key !in progress {
        progress := progress[key := Progress(1, None)];
        return Some(StudyItem(w, 1));
      }
      var p := progress[key];
      var canStudy := MidnightPassed(p.lastStudied, now);
      entry := None;
      if p.box == TopBox {
        if canStudy && p.lastStudied.None? {
          entry := Some(StudyItem(w, p.box));
        }
      } else if canStudy {
        entry := Some(StudyItem(w, p.box));
      }
    }

    /** The loop over the class words, collecting the due ones in catalog order. */
    method CollectDue(code: string, ws: seq<Word>, now: int) returns (toStudy: seq<StudyItem>)
      modifies this
      ensures students == old(students) && words == old(words) && nextWordId == old(nextWordId)
      ensures progress == LazyInit(old(progress), code, ws)
      ensures toStudy == Surfaced(ws, old(progress), code, now)
    {
      toStudy := [];
      var i := 0;
      while i < |ws|
        invariant 0 <= i <= |ws|
        invariant students == old(students) && words == old(words) && nextWordId == old(nextWordId)
        invariant progress == LazyInit(old(progress), code, ws[..i])
        invariant toStudy == Surfaced(ws[..i], old(progress), code, now)
      {
        var w := ws[i];
        EntryAfterLazyInit(old(progress), code, ws[..i], w, now);
        LazyInitPrefix(old(progress), code, ws, i);
        var entry := VisitWord(code, w, now);
        toStudy := toStudy + OptionToSeq(entry);
        assert ws[..i + 1] == ws[..i] + [w];
        SurfacedStep(ws[..i], w, old(progress), code, now);
        i := i + 1;
      }
      assert ws[..i] == ws;
    }

    /** Today's study list for a student, creating a box-1 record for every class word
        that has none; an unknown student gets an empty list and changes nothing. */
    method StudyList(code: string, now: int) returns (r: seq<StudyItem>)
      requires Valid()
      modifies this
      ensures Valid()
      ensures students == old(students) && words == old(words) && nextWordId == old(nextWordId)
      ensures r == TodaysList(students, words, old(progress), code, now)
      ensures progress == AfterListing(students, words, old(progress), code)
    {
      if code !in students {
        return [];
      }
      var ws := ClassWords(words, students[code].classLevel);
      var toStudy := CollectDue(code, ws, now);
      LazyInitContents(old(progress), code, ws);
      var available := Filter(toStudy, BelowTop);
      var topBox := Filter(toStudy, AtTop);
      available := Sort(available, BoxOf, true);
      r := available + topBox;
    }

    /** The first word of today's list with the list's length, or Completed when it is empty. */
    method GetNextWord(code: string, now: int) returns (r: NextWord)
      requires Valid()
      modifies this
      ensures Valid()
      ensures students == old(students) && words == old(words) && nextWordId == old(nextWordId)
      ensures progress == AfterListing(students, words, old(progress), code)
      ensures var list := TodaysList(students, words, old(progress), code, now);
        r == if list == [] then Completed else Next(list[0].word.id, list[0].word.english, list[0].box, |list|)
    {
      var list := StudyList(code, now);
      if list == [] {
        return Completed;
      }
      r := Next(list[0].word.id, list[0].word.english, list[0].box, |list|);
    }

    /** Grades an answer, moves the word to its next box and stamps the record with now,
        creating it if missing; an unknown word id changes nothing. */
    method SubmitAnswer(code: string, wordId: WordId, answer: string, now: int) returns (r: Result<StudyResponse>)
      requires Valid()
      modifies this
      ensures Valid()
      ensures students == old(students) && words == old(words) && nextWordId == old(nextWordId)
      ensures FindWord(words, wordId).None? ==> r == Err(WordNotFound) && progress == old(progress)
      ensures FindWord(words, wordId).Some? ==>
        var w := FindWord(words, wordId).value;
        var current := CurrentBox(Lookup(old(progress), (code, wordId)));
        var correct := IsCorrect(answer, w.meanings);
        r == Ok(StudyResponse(wordId, w.english, correct, w.meanings, NextBox(current, correct), FeedbackFor(current, correct))) &&
        progress == old(progress)[(code, wordId) := Progress(NextBox(current, correct), Some(now))]
    {
      var found := FindWord(words, wordId);
      if found.None? {
        return Err(WordNotFound);
      }
      var w := found.value;
      var correct := IsCorrect(answer, w.meanings);
      var key := (code, wordId);
      var current := if key in progress then progress[key].box else 1;
      var newBox := current;
      var feedback: Feedback;
      if correct && current < TopBox {
        newBox := current + 1;
        feedback := Promoted(newBox);
      } else if correct && current == TopBox {
        newBox := TopBox;
        feedback := StayedAtTop;
      } else {
        feedback := StayedSame(current);
      }
      progress := progress[key := Progress(newBox, Some(now))];
      r := Ok(StudyResponse(wordId, w.english, correct, w.meanings, newBox, feedback));
    }

    /** The box distribution: boxes 1..TopBox filled with 0, then overwritten with the count
        of every box in use. */
    method BoxDistribution(code: string) returns (dist: map<int, nat>)
      ensures forall b :: b in dist <==> 1 <= b <= TopBox || RecordsInBox(progress, code, b) != {}
      ensures forall b :: b in dist ==> dist[b] == |RecordsInBox(progress, code, b)|
    {
      var stats := GroupByBox(progress, code);
      dist := map[];
      for b := 1 to TopBox + 1
        invariant forall c :: c in dist <==> 1 <= c < b
        invariant forall c :: c in dist ==> dist[c] == 0
      {
        dist := dist[b := 0];
      }
      var keys := stats.Keys;
      while keys != {}
        invariant keys <= stats.Keys
        invariant forall c :: c in dist <==> 1 <= c <= TopBox || c in stats.Keys - keys
        invariant forall c :: c in dist ==> dist[c] == if c in stats.Keys - keys then stats[c] else 0
        decreases keys
      {
        var b :| b in keys;
        dist := dist[b := stats[b]];
        keys := keys - {b};
      }
    }

    /** The statistics page: class size, box distribution and words studied today (both taken
        before the list is computed), and the length of today's list. */
    method GetStudentStats(code: string, now: int) returns (r: Result<StudentStats>)
      requires Valid()
      modifies this
      ensures Valid()
      ensures students == old(students) && words == old(words) && nextWordId == old(nextWordId)
      ensures progress == AfterListing(students, words, old(progress), code)
      ensures code !in students ==> r == Err(StudentNotFound)
      ensures code in students ==> r.Ok?
      ensures r.Ok? ==>
        var stats := r.value;
        stats.totalWords == |ClassWords(words, students[code].classLevel)| &&
        (forall b :: b in stats.boxDistribution <==> 1 <= b <= TopBox) &&
        (forall b :: b in stats.boxDistribution ==> stats.boxDistribution[b] == |RecordsInBox(old(progress), code, b)|) &&
        stats.studiedToday == |StudiedToday(old(progress), code, now)| &&
        stats.nextStudyWords == |TodaysList(students, words, old(progress), code, now)|
    {
      if code !in students {
        return Err(StudentNotFound);
      }
      var total := |ClassWords(words, students[code].classLevel)|;
      var dist := BoxDistribution(code);
      forall b | !(1 <= b <= TopBox) ensures b !in dist {
        NoRecordsOutsideBoxes(progress, code, b);
      }
      var today := |StudiedToday(progress, code, now)|;
      var list := StudyList(code, now);
      r := Ok(StudentStats(total, dist, today, |list|));
    }

    /** Every class word with its box and last date, ascending by box. */
    method GetStudentWords(code: string) returns (r: Result<seq<WordStatus>>)
      ensures code !in students ==> r == Err(StudentNotFound)
      ensures code in students ==>
        r == Ok(Sort(Statuses(ClassWords(words, students[code].classLevel), progress, code), StatusBox, false))
    {
      if code !in students {
        return Err(StudentNotFound);
      }
      var ws := ClassWords(words, students[code].classLevel);
      var result: seq<WordStatus> := [];
      var i := 0;
      while i < |ws|
        invariant 0 <= i <= |ws|
        invariant result == Statuses(ws[..i], progress, code)
      {
        var w := ws[i];
        var key := (code, w.id);
        var box := if key in progress then progress[key].box else 1;
        var last := if key in progress then progress[key].lastStudied else None;
        result := result + [WordStatus(w.id, w.english, w.meanings, box, last)];
        assert ws[..i + 1][..i] == ws[..i];
        i := i + 1;
      }
      assert ws[..i] == ws;
      r := Ok(Sort(result, StatusBox, false));
    }

    /** The student import: each three-field row adds or updates one student; other rows
        are skipped. */
    method UploadStudents(rows: seq<seq<string>>) returns (added: nat, updated: nat)
      requires Valid()
      modifies this
      ensures Valid()
      ensures words == old(words) && progress == old(progress) && nextWordId == old(nextWordId)
      ensures StudentImport(students, added, updated) == ImportStudents(StudentImport(old(students), 0, 0), rows)
    {
      added, updated := 0, 0;
      var i := 0;
      while i < |rows|
        invariant 0 <= i <= |rows|
        invariant words == old(words) && progress == old(progress) && nextWordId == old(nextWordId)
        invariant StudentImport(students, added, updated) == ImportStudents(StudentImport(old(students), 0, 0), rows[..i])
      {
        var row := rows[i];
        ghost var expected := ImportStudentRow(StudentImport(students, added, updated), row);
        if |row| == FieldsPerRow {
          var code, name, level := Strip(row[0]), Strip(row[1]), Strip(row[2]);
          if code in students {
            students := students[code := Student(code, name, level)];
            updated := updated + 1;
          } else {
            students := students[code := Student(code, name, level)];
            added := added + 1;
          }
        }
        assert StudentImport(students, added, updated) == expected;
        ImportStudentsPrefix(StudentImport(old(students), 0, 0), rows, i);
        i := i + 1;
      }
      assert rows[..i] == rows;
      ImportStudentsKeyedByCode(StudentImport(old(students), 0, 0), rows);
    }

    /** One row of the word import: appends a word with the next id unless the row is
        malformed or the duplicate test finds one; count is the running total. */
    method ImportWordRowInto(row: seq<string>, count: nat) returns (count': nat)
      modifies this
      ensures students == old(students) && progress == old(progress)
      ensures WordImport(words, nextWordId, count') == ImportWordRow(WordImport(old(words), old(nextWordId), count), row)
    {
      count' := count;
      if |row| == FieldsPerRow {
        var level, english, turkish := Strip(row[0]), Strip(row[1]), Strip(row[2]);
        var meanings := Meanings(turkish);
        if !HasStoredWord(words, level, english) {
          words := words + [Word(nextWordId, level, english, meanings)];
          nextWordId := nextWordId + 1;
          count' := count + 1;
        }
      }
    }

    /** The word import: each three-field row appends a word with the next id unless the
        duplicate test finds one in its class; other rows are skipped. */
    method UploadWords(rows: seq<seq<string>>) returns (added: nat)
      requires Valid()
      modifies this
      ensures Valid()
      ensures students == old(students) && progress == old(progress)
      ensures WordImport(words, nextWordId, added) == ImportWords(WordImport(old(words), old(nextWordId), 0), rows)
    {
      added := 0;
      var i := 0;
      while i < |rows|
        invariant 0 <= i <= |rows|
        invariant students == old(students) && progress == old(progress)
        invariant WordImport(words, nextWordId, added) == ImportWords(WordImport(old(words), old(nextWordId), 0), rows[..i])
      {
        added := ImportWordRowInto(rows[i], added);
        ImportWordsPrefix(WordImport(old(words), old(nextWordId), 0), rows, i);
        i := i + 1;
      }
      assert rows[..i] == rows;
      ImportWordsWellNumbered(WordImport(old(words), old(nextWordId), 0), rows);
    }
  }
}
