/** The 5-box Leitner scheduler: box transition on an answer, the once-per-day
    "midnight rule", answer grading, and the eligibility and order of the
    daily study list. */
module Leitner {
  import opened Text
  import opened StableSort

  datatype Option<T> = None | Some(value: T)

  /** The last (mastered) box; boxes run 1..TopBox. */
  const TopBox := 5
  const SecondsPerDay := 86400

  /** Word ids; the store hands them out from a counter. */
  type WordId = nat

  datatype Word = Word(id: WordId, classLevel: string, english: string, meanings: seq<string>)

  /** A progress record; lastStudied is a UTC timestamp in seconds, None until the first answer. */
  datatype Progress = Progress(box: int, lastStudied: Option<int>)

  /** Progress records are keyed by (student code, word id). */
  type ProgressKey = (string, WordId)

  /** One entry of the study list: the word and its current box. */
  datatype StudyItem = StudyItem(word: Word, box: int)

  // ---------------------------------------------------------------------------
  // Box transition

  /** The box after an answer: one up when correct (at most TopBox), unchanged when wrong. */
  function NextBox(current: int, correct: bool): (r: int)
    ensures 1 <= current <= TopBox ==> 1 <= r <= TopBox
    ensures current <= r <= current + 1
    ensures r == current + 1 <==> correct && current < TopBox
  {
    if correct && current < TopBox then current + 1
    else if correct && current == TopBox then TopBox
    else current
  }

  /** Which of the three feedback messages the answer gets. */
  datatype Feedback = Promoted(newBox: int) | StayedAtTop | StayedSame(box: int)

  function FeedbackFor(current: int, correct: bool): Feedback {
    if correct && current < TopBox then Promoted(current + 1)
    else if correct && current == TopBox then StayedAtTop
    else StayedSame(current)
  }

  /** The transition table of the five boxes. */
  lemma BoxTransitions(b: int)
    requires 1 <= b <= TopBox
    ensures b < TopBox ==> NextBox(b, true) == b + 1
    ensures NextBox(TopBox, true) == TopBox
    ensures NextBox(b, false) == b
  {
  }

  /** The message agrees with the transition: promoted exactly when the box went up. */
  lemma FeedbackMatchesTransition(b: int, correct: bool)
    requires 1 <= b <= TopBox
    ensures FeedbackFor(b, correct).Promoted? <==> NextBox(b, correct) > b
    ensures FeedbackFor(b, correct).Promoted? ==> FeedbackFor(b, correct).newBox == NextBox(b, correct)
    ensures FeedbackFor(b, correct).StayedAtTop? <==> correct && b == TopBox
    ensures FeedbackFor(b, correct).StayedSame? <==> !correct
    ensures FeedbackFor(b, correct).StayedSame? ==> FeedbackFor(b, correct).box == NextBox(b, correct)
  {
  }

  /** The box after k correct answers in a row. */
  function PromoteTimes(b: int, k: nat): int {
    if k == 0 then b else NextBox(PromoteTimes(b, k - 1), true)
  }

  /** k correct answers from box b lead to box min(b + k, TopBox). */
  lemma {:induction false} PromoteTimesCaps(b: int, k: nat)
    requires 1 <= b <= TopBox
    ensures PromoteTimes(b, k) == if b + k < TopBox then b + k else TopBox
  {
    if k > 0 {
      PromoteTimesCaps(b, k - 1);
    }
  }

  // ---------------------------------------------------------------------------
  // Midnight rule

  /** The UTC calendar day of a timestamp (floor division, as datetime truncation). */
  function Day(t: int): (r: int)
    ensures r * SecondsPerDay <= t < (r + 1) * SecondsPerDay
  {
    t / SecondsPerDay
  }

  /** The timestamp truncated to midnight of its day. */
  function Midnight(t: int): (r: int)
    ensures r <= t < r + SecondsPerDay
    ensures r % SecondsPerDay == 0
  {
    Day(t) * SecondsPerDay
  }

  lemma DayOf(d: int, s: int)
    requires 0 <= s < SecondsPerDay
    ensures Day(d * SecondsPerDay + s) == d
  {
  }

  lemma DayMonotone(t1: int, t2: int)
    requires t1 <= t2
    ensures Day(t1) <= Day(t2)
  {
  }

  /** True when there is no last date, or the calendar day of now is after that of last. */
  function MidnightPassed(last: Option<int>, now: int): (r: bool)
    ensures last.None? ==> r
    ensures last.Some? ==> (r <==> Day(now) > Day(last.value))
  {
    match last
    case None => true
    case Some(t) => Midnight(now) > Midnight(t)
  }

  /** Once midnight has passed it stays passed as the clock moves on. */
  lemma MidnightPassedStays(last: Option<int>, now: int, later: int)
    requires MidnightPassed(last, now) && now <= later
    ensures MidnightPassed(last, later)
  {
    DayMonotone(now, later);
  }

  /** Studied at 23:59 of day d: eligible again at 00:00 of day d + 1.
      Studied at 00:01 of day d: not again during day d, eligible at the next midnight. */
  lemma MidnightScenarios(d: int, now: int)
    ensures MidnightPassed(Some(d * SecondsPerDay + 86340), (d + 1) * SecondsPerDay)
    ensures d * SecondsPerDay + 60 <= now < (d + 1) * SecondsPerDay ==> !MidnightPassed(Some(d * SecondsPerDay + 60), now)
    ensures MidnightPassed(Some(d * SecondsPerDay + 60), (d + 1) * SecondsPerDay)
  {
    DayOf(d, 86340);
    DayOf(d, 60);
    DayOf(d + 1, 0);
    assert (d + 1) * SecondsPerDay + 0 == (d + 1) * SecondsPerDay;
    if d * SecondsPerDay + 60 <= now < (d + 1) * SecondsPerDay {
      DayOf(d, now - d * SecondsPerDay);
    }
  }

  // ---------------------------------------------------------------------------
  // Grading

  /** Correct iff the normalized answer equals some normalized acceptable meaning. */
  function IsCorrect(answer: string, meanings: seq<string>): (r: bool)
    ensures r <==> exists i :: 0 <= i < |meanings| && Normalize(meanings[i]) == Normalize(answer)
  {
    meanings != [] && (Normalize(meanings[0]) == Normalize(answer) || IsCorrect(answer, meanings[1..]))
  }

  /** Grading ignores whitespace around the answer and its letter case. */
  lemma GradingIgnoresPaddingAndCase(p1: string, a: string, p2: string, b: string, meanings: seq<string>)
    requires AllSpace(p1) && AllSpace(p2) && Lower(a) == Lower(b)
    ensures IsCorrect(p1 + a + p2, meanings) == IsCorrect(b, meanings)
  {
    NormalizeIgnoresPadding(p1, a, p2);
    NormalizeIgnoresCase(a, b);
  }

  /** Sample answers against the meaning "merhaba": exact, with a trailing
      space, and upper case with a leading space all match. */
  lemma MerhabaExact()
    ensures IsCorrect("merhaba", ["merhaba"])
  {
    assert ["merhaba"][0] == "merhaba";
  }

  lemma MerhabaTrailingSpace()
    ensures IsCorrect("Merhaba ", ["merhaba"])
  {
    assert Lower("Merhaba") == "merhaba";
    assert "Merhaba " == [] + "Merhaba" + " ";
    GradingIgnoresPaddingAndCase([], "Merhaba", " ", "merhaba", ["merhaba"]);
    MerhabaExact();
  }

  lemma MerhabaUpperCase()
    ensures IsCorrect(" MERHABA", ["merhaba"])
  {
    assert Lower("MERHABA") == "merhaba";
    assert " MERHABA" == " " + "MERHABA" + [];
    GradingIgnoresPaddingAndCase(" ", "MERHABA", [], "merhaba", ["merhaba"]);
    MerhabaExact();
  }

  lemma WrongLength()
    ensures |Normalize("wrong")| == 5
  {
    assert Strip("wrong") == "wrong";
  }

  lemma MerhabaLength()
    ensures |Normalize("merhaba")| == 7
  {
    assert Strip("merhaba") == "merhaba";
  }

  /** A wrong answer does not match. */
  lemma WrongDoesNotMatch()
    ensures !IsCorrect("wrong", ["merhaba"])
  {
    WrongLength();
    MerhabaLength();
    var ms := ["merhaba"];
    assert |ms| == 1 && ms[0] == "merhaba";
  }

  // ---------------------------------------------------------------------------
  // Eligibility

  function Lookup(prog: map<ProgressKey, Progress>, key: ProgressKey): Option<Progress> {
    if key in prog then Some(prog[key]) else None
  }

  /** The box of a word: that of its record, or 1 when it has none. */
  function CurrentBox(p: Option<Progress>): int {
    if p.Some? then p.value.box else 1
  }

  /** Whether a word enters today's list, and with which box. */
  function Entry(w: Word, p: Option<Progress>, now: int): (r: Option<StudyItem>)
    ensures r.Some? ==> r.value == StudyItem(w, CurrentBox(p))
    ensures p.None? ==> r.Some?
    ensures p.Some? && p.value.lastStudied.None? ==> r.Some?
    ensures p.Some? && p.value.lastStudied.Some? ==>
      (r.Some? <==> p.value.box != TopBox && Day(now) > Day(p.value.lastStudied.value))
  {
    match p
    case None => Some(StudyItem(w, 1))
    case Some(pr) =>
      var canStudy := MidnightPassed(pr.lastStudied, now);
      if pr.box == TopBox then
        if canStudy && pr.lastStudied.None? then Some(StudyItem(w, pr.box)) else None
      else if canStudy then Some(StudyItem(w, pr.box)) else None
  }

  /** A lazily created record (box 1, never studied) behaves as no record at all. */
  lemma FreshRecordLikeNone(w: Word, now: int)
    ensures Entry(w, Some(Progress(1, None)), now) == Entry(w, None, now)
  {
  }

  /** A word in the top box that has been studied is never listed again, whatever the clock. */
  lemma MasteredNeverEligible(w: Word, p: Progress, now: int)
    requires p.box == TopBox && p.lastStudied.Some?
    ensures Entry(w, Some(p), now) == None
  {
  }

  /** After an answer at time t the word is not listed again on the same day. */
  lemma AnsweredNotAgainToday(w: Word, current: int, correct: bool, t: int, now: int)
    requires now <= t || Day(now) == Day(t)
    ensures Entry(w, Some(Progress(NextBox(current, correct), Some(t))), now) == None
  {
    if now <= t { DayMonotone(now, t); }
  }

  /** From the next day on it is listed again with its new box, unless it reached the top box. */
  lemma AnsweredAgainLater(w: Word, current: int, correct: bool, t: int, now: int)
    requires Day(now) > Day(t) && NextBox(current, correct) != TopBox
    ensures Entry(w, Some(Progress(NextBox(current, correct), Some(t))), now) == Some(StudyItem(w, NextBox(current, correct)))
  {
  }

  /** A correct answer from box 4 or 5 retires the word from the study list for good. */
  lemma MasteryRetires(w: Word, current: int, t: int, now: int)
    requires TopBox - 1 <= current <= TopBox
    ensures Entry(w, Some(Progress(NextBox(current, true), Some(t))), now) == None
  {
  }

  function OptionToSeq<T>(o: Option<T>): seq<T> {
    if o.Some? then [o.value] else []
  }

  /** The entries of the class words, in catalog order, as the loop collects them. */
  function Surfaced(ws: seq<Word>, prog: map<ProgressKey, Progress>, code: string, now: int): seq<StudyItem> {
    if ws == [] then []
    else
      var w := ws[|ws| - 1];
      Surfaced(ws[..|ws| - 1], prog, code, now) + OptionToSeq(Entry(w, Lookup(prog, (code, w.id)), now))
  }

  lemma SurfacedStep(ws: seq<Word>, w: Word, prog: map<ProgressKey, Progress>, code: string, now: int)
    ensures Surfaced(ws + [w], prog, code, now) == Surfaced(ws, prog, code, now) + OptionToSeq(Entry(w, Lookup(prog, (code, w.id)), now))
  {
    assert (ws + [w])[..|ws|] == ws;
  }

  /** Every listed item is the entry of one of the words. */
  lemma {:induction false} SurfacedMembers(ws: seq<Word>, prog: map<ProgressKey, Progress>, code: string, now: int, x: StudyItem)
    ensures x in Surfaced(ws, prog, code, now) <==>
      exists i :: 0 <= i < |ws| && Entry(ws[i], Lookup(prog, (code, ws[i].id)), now) == Some(x)
    decreases |ws|
  {
    if ws != [] {
      var n := |ws| - 1;
      var front := ws[..n];
      SurfacedMembers(front, prog, code, now, x);
      assert forall i :: 0 <= i < n ==> front[i] == ws[i];
      var e := Entry(ws[n], Lookup(prog, (code, ws[n].id)), now);
      if x in Surfaced(ws, prog, code, now) && x !in Surfaced(front, prog, code, now) {
        assert x in OptionToSeq(e);
        assert e == Some(x);
      }
      if exists i :: 0 <= i < |ws| && Entry(ws[i], Lookup(prog, (code, ws[i].id)), now) == Some(x) {
        var i :| 0 <= i < |ws| && Entry(ws[i], Lookup(prog, (code, ws[i].id)), now) == Some(x);
        if i == n {
          assert x in OptionToSeq(e);
        } else {
          assert front[i] == ws[i];
        }
      }
    }
  }

  /** With boxes in 1..TopBox, every listed box is in 1..TopBox too. */
  lemma {:induction false} SurfacedBoxes(ws: seq<Word>, prog: map<ProgressKey, Progress>, code: string, now: int)
    requires forall k :: k in prog ==> 1 <= prog[k].box <= TopBox
    ensures forall i :: 0 <= i < |Surfaced(ws, prog, code, now)| ==> 1 <= Surfaced(ws, prog, code, now)[i].box <= TopBox
    decreases |ws|
  {
    if ws != [] {
      SurfacedBoxes(ws[..|ws| - 1], prog, code, now);
    }
  }

  /** The store after lazily creating a box-1, never-studied record for every word that has none. */
  function LazyInit(prog: map<ProgressKey, Progress>, code: string, ws: seq<Word>): map<ProgressKey, Progress> {
    map k | k in prog.Keys + (set i | 0 <= i < |ws| :: (code, ws[i].id)) :: if k in prog then prog[k] else Progress(1, None)
  }

  /** Existing records are kept unchanged, every word gets a record, a new record is
      box 1 and never studied, and no other record appears. */
  lemma LazyInitContents(prog: map<ProgressKey, Progress>, code: string, ws: seq<Word>)
    ensures var r := LazyInit(prog, code, ws);
      (forall k :: k in prog ==> k in r && r[k] == prog[k]) &&
      (forall i :: 0 <= i < |ws| ==> (code, ws[i].id) in r) &&
      (forall k :: k in r && k !in prog ==> r[k] == Progress(1, None)) &&
      (forall k :: k in r ==> k in prog || exists i :: 0 <= i < |ws| && k == (code, ws[i].id))
  {
  }

  /** One step of the list loop on the store: create the record if it is missing. */
  lemma LazyInitStep(prog: map<ProgressKey, Progress>, code: string, ws: seq<Word>, w: Word)
    ensures var m := LazyInit(prog, code, ws);
      LazyInit(prog, code, ws + [w]) == if (code, w.id) in m then m else m[(code, w.id) := Progress(1, None)]
  {
    var m := LazyInit(prog, code, ws);
    var m' := LazyInit(prog, code, ws + [w]);
    LazyInitContents(prog, code, ws);
    LazyInitContents(prog, code, ws + [w]);
    var e := if (code, w.id) in m then m else m[(code, w.id) := Progress(1, None)];
    assert (ws + [w])[|ws|] == w;
    forall k | k in m' ensures k in e {
      if k !in prog {
        var i :| 0 <= i < |ws + [w]| && k == (code, (ws + [w])[i].id);
        if i < |ws| { assert (ws + [w])[i] == ws[i]; }
      }
    }
    forall k | k in m ensures k in m' {
      if k !in prog {
        var i :| 0 <= i < |ws| && k == (code, ws[i].id);
        assert (ws + [w])[i] == ws[i];
      }
    }
    assert m'.Keys == e.Keys;
  }

  /** The records after the first i + 1 words: those after i words, plus word i's. */
  lemma LazyInitPrefix(prog: map<ProgressKey, Progress>, code: string, ws: seq<Word>, i: nat)
    requires i < |ws|
    ensures var m := LazyInit(prog, code, ws[..i]);
      LazyInit(prog, code, ws[..i + 1]) == if (code, ws[i].id) in m then m else m[(code, ws[i].id) := Progress(1, None)]
  {
    assert ws[..i + 1] == ws[..i] + [ws[i]];
    LazyInitStep(prog, code, ws[..i], ws[i]);
  }

  /** A lazily created record gives a word the same entry as no record. */
  lemma EntryAfterLazyInit(prog: map<ProgressKey, Progress>, code: string, ws: seq<Word>, w: Word, now: int)
    ensures Entry(w, Lookup(LazyInit(prog, code, ws), (code, w.id)), now) == Entry(w, Lookup(prog, (code, w.id)), now)
  {
    var key := (code, w.id);
    LazyInitContents(prog, code, ws);
    if key !in prog && key in LazyInit(prog, code, ws) {
      FreshRecordLikeNone(w, now);
    }
  }

  /** Computing the list again after the lazy creation gives the same list. */
  lemma {:induction false} SurfacedAfterLazyInit(ws: seq<Word>, prog: map<ProgressKey, Progress>, code: string, ws2: seq<Word>, now: int)
    ensures Surfaced(ws, LazyInit(prog, code, ws2), code, now) == Surfaced(ws, prog, code, now)
    decreases |ws|
  {
    if ws != [] {
      var w := ws[|ws| - 1];
      SurfacedAfterLazyInit(ws[..|ws| - 1], prog, code, ws2, now);
      var key := (code, w.id);
      var m := LazyInit(prog, code, ws2);
      LazyInitContents(prog, code, ws2);
      if key in m && key !in prog {
        FreshRecordLikeNone(w, now);
      }
    }
  }

  // ---------------------------------------------------------------------------
  // Ordering

  function BoxOf(x: StudyItem): int { x.box }
  function BelowTop(x: StudyItem): bool { x.box < TopBox }
  function AtTop(x: StudyItem): bool { x.box == TopBox }

  /** Boxes below the top sorted by box, highest first (stable), then the top-box entries. */
  function StudyOrder(s: seq<StudyItem>): seq<StudyItem> {
    Sort(Filter(s, BelowTop), BoxOf, true) + Filter(s, AtTop)
  }

  /** Below-top entries come first, in non-increasing box order; top-box entries come last;
      no entry is above the top box. */
  lemma StudyOrderLayout(s: seq<StudyItem>)
    ensures var r := StudyOrder(s);
      (forall i :: 0 <= i < |r| ==> r[i].box <= TopBox) &&
      (forall i, j :: 0 <= i < |r| && 0 <= j < |r| && r[i].box < TopBox && r[j].box == TopBox ==> i < j) &&
      (forall i, j :: 0 <= i < j < |r| && r[j].box < TopBox ==> r[i].box >= r[j].box)
  {
    var below := Filter(s, BelowTop);
    var a := Sort(below, BoxOf, true);
    var b := Filter(s, AtTop);
    var r := a + b;
    SortOrdered(below, BoxOf, true);
    SortPermutes(below, BoxOf, true);
    FilterMembers(s, BelowTop);
    FilterMembers(s, AtTop);
    forall i | 0 <= i < |a| ensures a[i].box < TopBox {
      assert a[i] in multiset(a);
      assert a[i] in below;
    }
    forall i | 0 <= i < |r| ensures (i < |a| <==> r[i].box < TopBox) && r[i].box <= TopBox {
      if i >= |a| {
        assert r[i] == b[i - |a|];
        assert b[i - |a|] in b;
      }
    }
  }

  /** Entries of each box keep their catalog order: the sort is stable and the top-box group is not sorted. */
  lemma StudyOrderStable(s: seq<StudyItem>, v: int)
    requires v <= TopBox
    ensures WithKey(StudyOrder(s), BoxOf, v) == WithKey(s, BoxOf, v)
  {
    var below := Filter(s, BelowTop);
    var b := Filter(s, AtTop);
    WithKeyAppend(Sort(below, BoxOf, true), b, BoxOf, v);
    SortStable(below, BoxOf, true, v);
    FilterMembers(s, BelowTop);
    FilterMembers(s, AtTop);
    if v < TopBox {
      WithKeyFilter(s, BelowTop, BoxOf, v);
      forall i | 0 <= i < |b| ensures BoxOf(b[i]) != v {
        assert b[i] in b;
      }
      WithKeyAbsent(b, BoxOf, v);
    } else {
      WithKeyFilter(s, AtTop, BoxOf, v);
      forall i | 0 <= i < |below| ensures BoxOf(below[i]) != v {
        assert below[i] in below;
      }
      WithKeyAbsent(below, BoxOf, v);
    }
  }

  /** With every box at most TopBox, the list is a permutation of the eligible entries. */
  lemma StudyOrderPermutation(s: seq<StudyItem>)
    requires forall i :: 0 <= i < |s| ==> s[i].box <= TopBox
    ensures multiset(StudyOrder(s)) == multiset(s)
  {
    forall x | x in s ensures BelowTop(x) != AtTop(x) {
      var i :| 0 <= i < |s| && s[i] == x;
    }
    FilterSplit(s, BelowTop, AtTop);
    SortPermutes(Filter(s, BelowTop), BoxOf, true);
  }

  lemma SortExample(i1: StudyItem, i2: StudyItem, i3: StudyItem, i4: StudyItem)
    requires i1.box == 1 && i2.box == 3 && i3.box == 2 && i4.box == 4
    ensures Sort([i1, i2, i3, i4], BoxOf, true) == [i4, i2, i3, i1]
  {
    SortCons(i4, [], BoxOf, true);
    assert [i3, i4] == [i3] + [i4];
    SortCons(i3, [i4], BoxOf, true);
    InsertCons(i3, i4, [], BoxOf, true);
    assert [i2, i3, i4] == [i2] + [i3, i4];
    SortCons(i2, [i3, i4], BoxOf, true);
    InsertCons(i2, i4, [i3], BoxOf, true);
    InsertCons(i2, i3, [], BoxOf, true);
    assert [i1, i2, i3, i4] == [i1] + [i2, i3, i4];
    SortCons(i1, [i2, i3, i4], BoxOf, true);
    InsertCons(i1, i4, [i2, i3], BoxOf, true);
    InsertCons(i1, i2, [i3], BoxOf, true);
    InsertCons(i1, i3, [], BoxOf, true);
  }

  lemma FilterExample(i1: StudyItem, i5: StudyItem, i2: StudyItem, i3: StudyItem, i4: StudyItem)
    requires i1.box == 1 && i2.box == 3 && i3.box == 2 && i4.box == 4 && i5.box == 5
    ensures Filter([i1, i5, i2, i3, i4], BelowTop) == [i1, i2, i3, i4]
    ensures Filter([i1, i5, i2, i3, i4], AtTop) == [i5]
  {
    FilterCons(i4, [], BelowTop);
    FilterCons(i4, [], AtTop);
    assert [i3, i4] == [i3] + [i4];
    FilterCons(i3, [i4], BelowTop);
    FilterCons(i3, [i4], AtTop);
    assert [i2, i3, i4] == [i2] + [i3, i4];
    FilterCons(i2, [i3, i4], BelowTop);
    FilterCons(i2, [i3, i4], AtTop);
    assert [i5, i2, i3, i4] == [i5] + [i2, i3, i4];
    FilterCons(i5, [i2, i3, i4], BelowTop);
    FilterCons(i5, [i2, i3, i4], AtTop);
    assert [i1, i5, i2, i3, i4] == [i1] + [i5, i2, i3, i4];
    FilterCons(i1, [i5, i2, i3, i4], BelowTop);
    FilterCons(i1, [i5, i2, i3, i4], AtTop);
  }

  /** The concrete case: boxes [1, 5, 3, 2, 4] are listed as [4, 3, 2, 1, 5]. */
  lemma StudyOrderExample(w1: Word, w2: Word, w3: Word, w4: Word, w5: Word)
    ensures StudyOrder([StudyItem(w1, 1), StudyItem(w5, 5), StudyItem(w2, 3), StudyItem(w3, 2), StudyItem(w4, 4)])
         == [StudyItem(w4, 4), StudyItem(w2, 3), StudyItem(w3, 2), StudyItem(w1, 1), StudyItem(w5, 5)]
  {
    var i1, i5, i2, i3, i4 := StudyItem(w1, 1), StudyItem(w5, 5), StudyItem(w2, 3), StudyItem(w3, 2), StudyItem(w4, 4);
    FilterExample(i1, i5, i2, i3, i4);
    SortExample(i1, i2, i3, i4);
  }

  /** The list computation the scheduler performs for a class's words. */
  function StudyListOf(ws: seq<Word>, prog: map<ProgressKey, Progress>, code: string, now: int): seq<StudyItem> {
    StudyOrder(Surfaced(ws, prog, code, now))
  }

  /** A word with no record is always listed, with box 1. */
  lemma NewWordListed(ws: seq<Word>, prog: map<ProgressKey, Progress>, code: string, now: int, i: int)
    requires 0 <= i < |ws| && (code, ws[i].id) !in prog
    ensures StudyItem(ws[i], 1) in StudyListOf(ws, prog, code, now)
  {
    var s := Surfaced(ws, prog, code, now);
    var x := StudyItem(ws[i], 1);
    SurfacedMembers(ws, prog, code, now, x);
    assert x in s;
    assert BelowTop(x);
    var below := Filter(s, BelowTop);
    FilterMembers(s, BelowTop);
    assert x in below;
    SortPermutes(below, BoxOf, true);
    assert x in multiset(Sort(below, BoxOf, true));
  }

  /** Every listed item is the entry of one of the class words. */
  lemma ListedHasEntry(ws: seq<Word>, prog: map<ProgressKey, Progress>, code: string, now: int, x: StudyItem)
    requires x in StudyListOf(ws, prog, code, now)
    ensures exists i :: 0 <= i < |ws| && Entry(ws[i], Lookup(prog, (code, ws[i].id)), now) == Some(x)
  {
    var s := Surfaced(ws, prog, code, now);
    var below := Filter(s, BelowTop);
    var sorted := Sort(below, BoxOf, true);
    FilterMembers(s, BelowTop);
    FilterMembers(s, AtTop);
    SortPermutes(below, BoxOf, true);
    if x in sorted {
      assert x in multiset(sorted);
      assert x in below;
    } else {
      assert x in Filter(s, AtTop);
    }
    SurfacedMembers(ws, prog, code, now, x);
  }

  /** A studied top-box word is never listed, whatever the clock says. */
  lemma MasteredNeverListed(ws: seq<Word>, prog: map<ProgressKey, Progress>, code: string, now: int, id: WordId)
    requires (code, id) in prog && prog[(code, id)].box == TopBox && prog[(code, id)].lastStudied.Some?
    ensures forall x :: x in StudyListOf(ws, prog, code, now) ==> x.word.id != id
  {
    forall x | x in StudyListOf(ws, prog, code, now) ensures x.word.id != id {
      ListedHasEntry(ws, prog, code, now, x);
      var i :| 0 <= i < |ws| && Entry(ws[i], Lookup(prog, (code, ws[i].id)), now) == Some(x);
      if ws[i].id == id {
        MasteredNeverEligible(ws[i], prog[(code, id)], now);
      }
    }
  }

  /** Once answered, a word leaves the list for the rest of that calendar day, whether or not
      the answer was correct. */
  lemma AnsweredNotListedToday(ws: seq<Word>, prog: map<ProgressKey, Progress>, code: string, id: WordId,
                               current: int, correct: bool, t: int, now: int)
    requires now <= t || Day(now) == Day(t)
    ensures var after := prog[(code, id) := Progress(NextBox(current, correct), Some(t))];
      forall x :: x in StudyListOf(ws, after, code, now) ==> x.word.id != id
  {
    var after := prog[(code, id) := Progress(NextBox(current, correct), Some(t))];
    forall x | x in StudyListOf(ws, after, code, now) ensures x.word.id != id {
      ListedHasEntry(ws, after, code, now, x);
      var i :| 0 <= i < |ws| && Entry(ws[i], Lookup(after, (code, ws[i].id)), now) == Some(x);
      if ws[i].id == id {
        AnsweredNotAgainToday(ws[i], current, correct, t, now);
      }
    }
  }

  /** Under the box invariant the list holds exactly the eligible entries, each once. */
  lemma StudyListPermutation(ws: seq<Word>, prog: map<ProgressKey, Progress>, code: string, now: int)
    requires forall k :: k in prog ==> 1 <= prog[k].box <= TopBox
    ensures multiset(StudyListOf(ws, prog, code, now)) == multiset(Surfaced(ws, prog, code, now))
  {
    SurfacedBoxes(ws, prog, code, now);
    StudyOrderPermutation(Surfaced(ws, prog, code, now));
  }
}
