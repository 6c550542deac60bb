# Leitner vocabulary scheduler — a Dafny model

This project models the scheduling core of a vocabulary-practice backend
(`backend/server.py`). Students of a class study that class's English words. The
server answers them in Turkish. Every (student, word) pair has a progress record
that places the word in one of five Leitner boxes.

- **Answers.** An answer is graded by exact comparison after trimming and
  lower-casing. A correct answer moves the word up one box, capped at box 5. A wrong
  answer leaves the box unchanged. Either way the record is stamped with the current
  time.
- **Today's list.** A word is due when it has no record, or when the calendar day of
  the clock is after that of its last answer (the "midnight rule"). A word in box 5
  that has ever been answered is never due again. Due words below box 5 come first,
  highest box first (stable). The box-5 words come after them in catalog order.
- **Lazy creation.** Computing the list creates a box-1, never-studied record for
  every class word that has none.
- **Around it:** the statistics (zero-filled box distribution, words studied today),
  the word list of a student ascending by box, and the CSV importers' per-row rules.

Layout:

- `text.dfy` (module `Text`): `str.strip()`, `str.lower()` and `str.split(sep)`.
- `stable_sort.dfy` (module `StableSort`): list comprehensions with a condition, and
  `list.sort(key=…, reverse=…)`, which is stable.
- `leitner.dfy` (module `Leitner`): the records, the box transition, the midnight
  rule, grading, eligibility, lazy creation and list order.
- `ingest.dfy` (module `Ingest`): the row rules of the two importers, as folds over
  the rows.
- `store.dfy` (module `Server`): the database as a class `Store`, which holds:
  - students by code;
  - the word catalog, in insertion order;
  - progress records by (student code, word id);
  - a counter for fresh word ids.

  The endpoint bodies are methods. Each is proved against the functions of the
  other modules.

The clock is a parameter `now`, an integer count of UTC seconds. The calendar day of
a timestamp is `t / 86400`; for a UTC timestamp this is the date that truncating to
midnight keeps. The database's own operations (`find`, `find_one`, `count_documents`,
the aggregation pipeline) and `list.sort` are library calls. They are modelled as
functions. The loops the source writes are `while` loops with invariants.

The word importer's duplicate test is modelled as the code writes it. It looks for a
stored word of the class whose `english` equals the lower-cased incoming `english`,
but it stores `english` without lower-casing it. So the test misses stored words that
have upper-case letters. The query lower-cases the incoming english
(backend/server.py:399), which suggests that case-insensitive de-duplication was meant,
but the english is stored as given (backend/server.py:405). The model follows the code and proves both sides
(`Ingest.ReimportLowercaseWordSkipped`, `Ingest.ReimportMixedCaseWordDuplicated`).

`GetStudentStats` reads the box distribution and the studied-today count before it
computes the list. On a student's first visit, the records that visit creates are
therefore not in that visit's distribution. The model keeps this order.

## Model

| member | source | states |
|---|---|---|
| Text.LowerChar | backend/server.py:221-222 | lower-casing leaves no upper-case letter, changes only upper-case letters and keeps whitespace whitespace |
| Text.IsSpace | backend/server.py:221 | the characters `strip()` removes: the ASCII ones `str.isspace()` accepts (space, \t \n \v \f \r and \x1c-\x1f); LowerChar keeps it and TrimStartShape, TrimEndShape and Strip are stated with it |
| Text.Lower | backend/server.py:221-222 | `lower()` keeps the length and lower-cases character by character |
| Text.TrimStart | backend/server.py:221 | `lstrip()`; its properties are stated by TrimStartShape, TrimStartSkipsPrefix and TrimStartKeepsSuffix |
| Text.TrimEnd | backend/server.py:221 | `rstrip()`; its properties are stated by TrimEndShape and TrimEndSkipsSuffix |
| Text.TrimStartShape | backend/server.py:221 | `lstrip()` leaves a suffix of the text that does not start with whitespace, and drops only whitespace |
| Text.TrimEndShape | backend/server.py:221 | `rstrip()` leaves a prefix of the text that does not end with whitespace, and drops only whitespace |
| Text.Strip | backend/server.py:221-222 | `strip()` is a slice of the text, neither end of it is whitespace, and everything cut off is whitespace |
| Text.StripIgnoresPadding | backend/server.py:221-222 | whitespace on either side never changes the stripped text |
| Text.StripUnpadded | backend/server.py:352 | text with no whitespace at either end is its own strip |
| Text.StripIdempotent | backend/server.py:391-394 | stripping twice is stripping once |
| Text.LowerIdempotent | backend/server.py:221-222 | lower-casing twice is lower-casing once |
| Text.LowerStripCommute | backend/server.py:221-222 | `strip().lower()` equals `lower().strip()` |
| Text.Normalize | backend/server.py:221-222 | `strip().lower()`, the form answers and meanings are compared in; see NormalizeIgnoresCase, NormalizeIgnoresPadding and NormalizeIdempotent |
| Text.NormalizeIgnoresCase | backend/server.py:221-222 | texts equal up to letter case have the same normal form |
| Text.NormalizeIgnoresPadding | backend/server.py:221-222 | surrounding whitespace never changes the normal form |
| Text.NormalizeIdempotent | backend/server.py:221-222 | normalizing a normal form changes nothing |
| Text.Split | backend/server.py:394 | `split(';')` always gives at least one piece and no piece holds the separator |
| Text.JoinSplit | backend/server.py:394 | joining the pieces with the separator gives back the cell |
| Text.SplitJoin | backend/server.py:394 | splitting a join of separator-free pieces gives back the pieces |
| StableSort.FilterMembers | backend/server.py:156-157 | a comprehension keeps exactly the elements that satisfy its condition, and is no longer than its input |
| StableSort.FilterSplit | backend/server.py:156-157 | two comprehensions with complementary conditions together keep every element once |
| StableSort.Filter | backend/server.py:156-157 | a list comprehension with a condition; see FilterMembers, FilterSplit and WithKeyFilter |
| StableSort.Sort | backend/server.py:160 | `list.sort(key=…, reverse=…)`, also used at 332; see SortPermutes, SortOrdered and SortStable |
| StableSort.SortPermutes | backend/server.py:160 | sorting is a permutation |
| StableSort.SortOrdered | backend/server.py:160 | the sorted list is ordered by the key, in either direction |
| StableSort.SortStable | backend/server.py:160 | elements with equal keys keep their relative order |
| StableSort.WithKeyFilter | backend/server.py:156-157 | a comprehension that passes every element of one key keeps that key's subsequence |
| Leitner.NextBox | backend/server.py:230-241 | the new box is the old one or one more, and one more exactly when the answer is correct and the box is below 5; boxes stay in 1..5 |
| Leitner.BoxTransitions | backend/server.py:234-241 | the transition table: correct from b < 5 gives b + 1, correct from 5 gives 5, wrong gives b |
| Leitner.FeedbackMatchesTransition | backend/server.py:234-241 | the three message cases agree with the transition: promoted iff the box went up, top-box iff correct at 5, same box iff wrong |
| Leitner.FeedbackFor | backend/server.py:234-241 | which of the three messages an answer gets; FeedbackMatchesTransition ties it to NextBox |
| Leitner.PromoteTimesCaps | backend/server.py:234-236 | k correct answers in a row from box b give box min(b + k, 5) |
| Leitner.Day | backend/server.py:98-99 | the UTC calendar day of a timestamp: the one day whose span of 86400 seconds contains it |
| Leitner.Midnight | backend/server.py:98-99 | `replace(hour=0, …)`: the midnight of the timestamp's day, at most one day before it and a whole number of days |
| Leitner.MidnightPassed | backend/server.py:92-101 | true with no date; otherwise true iff the calendar day of now is after that of the date |
| Leitner.MidnightPassedStays | backend/server.py:92-101 | once midnight has passed for a date it stays passed as the clock advances |
| Leitner.MidnightScenarios | backend/server.py:92-101 | a word studied at 23:59 is due at 00:00 the next day; one studied at 00:01 is not due again that day but is due at the next midnight |
| Leitner.IsCorrect | backend/server.py:220-222 | an answer is correct iff its normal form equals the normal form of some acceptable meaning |
| Leitner.GradingIgnoresPaddingAndCase | backend/server.py:220-222 | grading does not change with whitespace around the answer or with its letter case |
| Leitner.MerhabaExact | backend/server.py:220-222 | "merhaba" is accepted for the meaning "merhaba" |
| Leitner.MerhabaTrailingSpace | backend/server.py:220-222 | "Merhaba " is accepted for the meaning "merhaba" |
| Leitner.MerhabaUpperCase | backend/server.py:220-222 | " MERHABA" is accepted for the meaning "merhaba" |
| Leitner.WrongDoesNotMatch | backend/server.py:220-222 | "wrong" is rejected for the meaning "merhaba" |
| Leitner.Lookup | backend/server.py:116-119 | the progress `find_one` by (student code, word id): the record when there is one, None otherwise; EntryAfterLazyInit and VisitWord rely on it |
| Leitner.CurrentBox | backend/server.py:230 | the box of a word is that of its record, or 1 when it has none; used by Entry, SubmitAnswer and Statuses |
| Leitner.Entry | backend/server.py:121-153 | a word with no record, or with a record never studied, is collected; a studied word is collected iff it is not in box 5 and its day has passed (StudyOrder drops boxes above 5); a listed word carries its current box (1 with no record) |
| Leitner.FreshRecordLikeNone | backend/server.py:121-134 | a lazily created record (box 1, no date) lists the word exactly as no record does |
| Leitner.MasteredNeverEligible | backend/server.py:139-146 | a box-5 word with a date is never listed, whatever the clock |
| Leitner.AnsweredNotAgainToday | backend/server.py:243-254 | after an answer at time t the word is not listed again on t's day, right or wrong |
| Leitner.AnsweredAgainLater | backend/server.py:147-153 | from the next day on the answered word is listed again with its new box, unless that box is 5 |
| Leitner.MasteryRetires | backend/server.py:234-241 | a correct answer from box 4 or 5 retires the word from the list for good |
| Leitner.Surfaced | backend/server.py:112-153 | the entries the loop collects, in catalog order; see SurfacedMembers, SurfacedBoxes and SurfacedAfterLazyInit |
| Leitner.SurfacedMembers | backend/server.py:112-153 | the collected entries are exactly the entries of the class words that the rules let through |
| Leitner.SurfacedBoxes | backend/server.py:112-153 | with every record's box in 1..5, every collected entry's box is in 1..5 |
| Leitner.LazyInit | backend/server.py:121-131 | the records after lazy creation; see LazyInitContents and EntryAfterLazyInit |
| Leitner.LazyInitContents | backend/server.py:121-131 | lazy creation keeps every existing record, gives each class word a record, makes every new record box 1 with no date, and adds no other record |
| Leitner.EntryAfterLazyInit | backend/server.py:121-153 | creating records lazily before a word is looked at does not change its entry |
| Leitner.SurfacedAfterLazyInit | backend/server.py:121-153 | computing the list again after the lazy creation gives the same entries |
| Leitner.StudyOrder | backend/server.py:155-162 | the order of today's list; see StudyOrderLayout, StudyOrderStable, StudyOrderPermutation and StudyOrderExample |
| Leitner.StudyOrderLayout | backend/server.py:155-162 | every entry below box 5 precedes every box-5 entry, entries below box 5 are in non-increasing box order, and nothing is above box 5 |
| Leitner.StudyOrderStable | backend/server.py:155-162 | the entries of each box keep catalog order, including the box-5 group |
| Leitner.StudyOrderPermutation | backend/server.py:155-162 | with boxes at most 5 the ordered list is a permutation of the collected entries |
| Leitner.StudyOrderExample | backend/server.py:155-162 | collected boxes [1, 5, 3, 2, 4] are listed as [4, 3, 2, 1, 5] |
| Leitner.StudyListOf | backend/server.py:112-162 | the list of a known student: StudyOrder of the collected entries; see NewWordListed, ListedHasEntry, MasteredNeverListed, AnsweredNotListedToday and StudyListPermutation |
| Leitner.NewWordListed | backend/server.py:121-134 | a class word with no record is always on the list, with box 1 |
| Leitner.ListedHasEntry | backend/server.py:112-162 | every listed item is the entry of one of the class words |
| Leitner.MasteredNeverListed | backend/server.py:139-146 | no studied box-5 word is ever on the list |
| Leitner.AnsweredNotListedToday | backend/server.py:243-254 | after the upsert of an answer the word is off the list for the rest of that day |
| Leitner.StudyListPermutation | backend/server.py:103-162 | with boxes in 1..5 the list holds exactly the due entries, each once |
| Ingest.StripAll | backend/server.py:394 | every piece is stripped, and nothing is added or dropped |
| Ingest.Meanings | backend/server.py:394 | a meanings cell always gives at least one meaning |
| Ingest.ImportStudentRow | backend/server.py:348-368 | a row without three fields changes nothing; a well-formed row counts once, as an update iff its code is already stored, and stores the stripped student under its code |
| Ingest.ImportStudents | backend/server.py:348-368 | the student loop as a fold of ImportStudentRow over the rows; see ImportStudentsTotals and ImportStudentsKeyedByCode |
| Ingest.ImportStudentsTotals | backend/server.py:345-368 | added plus updated grows by the number of well-formed rows; each add is a new student; no student is removed |
| Ingest.ImportStudentsKeyedByCode | backend/server.py:352-368 | every student stays stored under its own code |
| Ingest.ReimportStudentUpdates | backend/server.py:355-363 | re-importing a row updates and never adds |
| Ingest.HasStoredWord | backend/server.py:397-400 | the duplicate query as written: a stored word of the class whose english equals the lower-cased incoming english; see ReimportLowercaseWordSkipped and ReimportMixedCaseWordDuplicated |
| Ingest.ImportWordRow | backend/server.py:387-409 | one row of the word loop; ImportWordRowEffect states its cases |
| Ingest.ImportWordRowEffect | backend/server.py:387-409 | a malformed row or a duplicate changes nothing; otherwise exactly one word is appended, with the next id and the stripped fields |
| Ingest.ImportWords | backend/server.py:387-409 | the word loop as a fold of ImportWordRow over the rows; see ImportWordsTotals and ImportWordsWellNumbered |
| Ingest.ImportWordsTotals | backend/server.py:385-409 | words are only appended, one per added row and at most one per well-formed row, each with the next id |
| Ingest.ImportWordRowWellNumbered | backend/server.py:403-408 | one row keeps word ids fresh and distinct |
| Ingest.ImportWordsWellNumbered | backend/server.py:387-409 | the import keeps word ids fresh and distinct |
| Ingest.ReimportLowercaseWordSkipped | backend/server.py:397-402 | re-importing a row whose english is already lower case adds nothing |
| Ingest.ReimportMixedCaseWordDuplicated | backend/server.py:397-408 | re-importing a row whose english has upper-case letters adds a second copy |
| Ingest.CapitalizedIsMixedCase | backend/server.py:391-399 | an english cell such as "Hello" falls in that case |
| Server.ClassWordsMembers | backend/server.py:110 | the class's words are exactly the catalog words of that class |
| Server.ClassWords | backend/server.py:110 | `db.words.find` by class level, in catalog order; ClassWordsMembers states its members |
| Server.FindWord | backend/server.py:215-217 | the lookup by id fails iff no word has that id, and otherwise gives the first word with it |
| Server.GroupByBox | backend/server.py:275-281 | the aggregation has an entry for exactly the boxes in use, each with its positive count |
| Server.StudiedToday | backend/server.py:289-293 | the student's records stamped at or after midnight of now; StudiedTodayMeansNotDue relates it to the midnight rule |
| Server.StudiedTodayMeansNotDue | backend/server.py:289-293 | on a clock that does not run backwards, a record is counted as studied today iff it has a date and is not due again before midnight |
| Server.DistributionCoversRecords | backend/server.py:275-286 | with boxes in 1..5 the five counts add up to the student's number of records |
| Server.NoRecordsOutsideBoxes | backend/server.py:283-286 | with boxes in 1..5 no other box has a record, so no key beyond box_1..box_5 appears |
| Server.NextWordPriority | backend/server.py:193-209 | the next word comes from the highest due box below 5; a box-5 word comes next only when nothing below 5 is due |
| Server.TodaysList | backend/server.py:103-162 | the list for a student code: empty for an unknown code (105-107), otherwise StudyListOf the class words; Store.StudyList is proved to return it |
| Server.AfterListing | backend/server.py:103-162 | the records after computing the list: unchanged for an unknown code, otherwise LazyInit over the class words; Store.StudyList is proved to leave it |
| Server.Statuses | backend/server.py:316-330 | one row per class word, in catalog order, showing box 1 and no date when the word has no record |
| Server.StatusOf | backend/server.py:323-329 | the row of one word: its id, english and meanings, CurrentBox of its record, and the record's date or none; Statuses builds the list from it |
| Server.StudentWordsOrder | backend/server.py:316-332 | the word list is ascending by box, stable, and a permutation holding every class word once |
| Server.Store.constructor | backend/server.py:21-23 | a fresh, empty database, which satisfies the store invariant; the invariant assumes every stored record was written by this code: boxes in 1..5, students keyed by their code and word ids distinct |
| Server.Store.VisitWord | backend/server.py:114-153 | a missing record is created at box 1 with no date, and nothing else changes; the word's entry is the one the rules give for its record |
| Server.Store.CollectDue | backend/server.py:112-153 | the loop leaves the records of the lazy creation and collects the entries of the class words in catalog order |
| Server.Store.StudyList | backend/server.py:103-162 | an unknown student gets an empty list and no change; otherwise the list is the ordered due entries and the records are those of the lazy creation; the store invariant is kept |
| Server.Store.GetNextWord | backend/server.py:193-209 | Completed iff today's list is empty, otherwise its first word, that word's box and the list's length |
| Server.Store.SubmitAnswer | backend/server.py:213-263 | an unknown word id gives WordNotFound and no change; otherwise the result has the grade, the meanings, the next box and the message case, and exactly one record changes: it gets the new box and the date now |
| Server.Store.BoxDistribution | backend/server.py:275-286 | the keys are boxes 1..5 plus any other box in use, and each key holds its number of records (0 for an empty box) |
| Server.Store.GetStudentStats | backend/server.py:267-304 | an unknown student gives StudentNotFound; otherwise the class size, a distribution over exactly boxes 1..5, the count studied since midnight (taken before the list) and the length of today's list |
| Server.Store.GetStudentWords | backend/server.py:308-333 | an unknown student gives StudentNotFound; otherwise the class words' rows sorted ascending by box |
| Server.Store.UploadStudents | backend/server.py:337-374 | the loop's counters and students are those of the row fold, and students stay keyed by code |
| Server.Store.ImportWordRowInto | backend/server.py:387-409 | one row of the word loop on the store, as the row rule says |
| Server.Store.UploadWords | backend/server.py:377-414 | the loop's counter, words and next id are those of the row fold, and word ids stay fresh and distinct |

## Left out

- HTTP routing, request and response models, error-to-status mapping, CORS, logging and shutdown hooks (backend/server.py:1-30, 416-435) are plumbing. Errors become a `Result` with `StudentNotFound` or `WordNotFound`.
- MongoDB and motor are replaced by maps and a sequence in `Server.Store`. The upsert is one map update; a concurrent interleaving of requests is not modelled.
- CSV decoding, `csv.reader` quoting and the `.csv` filename check (backend/server.py:338-343, 378-383) are library code and I/O. Rows arrive already split into fields.
- Admin authentication with SHA-256 (backend/server.py:89, 184-189) is a foreign cryptographic call and is not modelled.
- Student login (backend/server.py:168-180) is a plain lookup returning the stored student and is not modelled.
- Word ids come from a counter in the store instead of `uuid4`. Only their freshness and distinctness matter, and both are proved.
- `db.words.find` at backend/server.py:110 and 314 has no sort, and MongoDB does not promise any order for it. The model takes catalog order to be insertion order.
- Server.Store.constructor: stands for a fresh database. Attaching to an existing one (backend/server.py:21-23) is not modelled. `Valid()` assumes every stored record was written by this code: boxes in 1..5, students keyed by their code, word ids distinct and below the counter.
- `datetime.now` is the parameter `now`. The source reads the clock several times in one request: once per word (backend/server.py:97), at 249-250 and at 289. All the reads of one request are modelled as one instant, so a request that runs across midnight is not modelled.
- Timestamps are whole seconds and the microseconds are dropped.
- Leitner.MidnightPassed: compares the calendar days as intended. The motor client is created without `tz_aware` (backend/server.py:22), so by the driver's default a stored date is read back naive. Line 101 then compares an aware `today_midnight` with a naive `last_midnight`, which in Python raises TypeError, so listing would fail for any record that has a date.
- Text.Lower: lower-cases ASCII letters only, not Unicode `str.lower()`.
- Text.Strip: strips ASCII whitespace only (space, \t \n \v \f \r and \x1c-\x1f), not the other Unicode whitespace `str.strip()` removes.
- Leitner.FeedbackFor: gives only which of the three Turkish messages applies, not the text.
- The `created_at` and `updated_at` stamps are omitted, as are the student and word `id` fields of the records. The always-true `can_study` flag of the list items is omitted too.
- The client-sent `is_correct` field of an answer is omitted, since the server ignores it.
- backend_test.py is an HTTP client for a deployed server and is not part of this model.
