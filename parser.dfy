/** The parser for tab-separated text pasted from a spreadsheet. Lines that
    name CATALÀ or CASTELLÀ are header lines and set the subject columns;
    every later line whose first cell reads as an integer is a student row,
    whose truthy cells select the subjects of their columns. The result is
    the list of students and one record per subject with its students,
    largest first. */
module Parser {
  import opened Types
  import opened Strings
  import opened Seqs

  // ---------------------------------------------------------------------
  // Lines and cells

  predicate NonEmpty(s: string) {
    |s| > 0
  }

  /** The trimmed text split at line breaks, each piece trimmed. */
  function RawLines(rawData: string): (raw: seq<string>)
    ensures forall k :: 0 <= k < |raw| ==> Trim(raw[k]) == raw[k]
  {
    var pieces := SplitOn(Trim(rawData), '\n');
    TrimEach(pieces);
    seq(|pieces|, i requires 0 <= i < |pieces| => Trim(pieces[i]))
  }

  lemma TrimEach(pieces: seq<string>)
    ensures forall i :: 0 <= i < |pieces| ==> Trim(Trim(pieces[i])) == Trim(pieces[i])
  {
    forall i | 0 <= i < |pieces| {
      TrimIdempotent(pieces[i]);
    }
  }

  /** The trimmed pieces with the empty ones dropped: every line is trimmed
      and non-empty. */
  function Lines(rawData: string): (lines: seq<string>)
    ensures forall k :: 0 <= k < |lines| ==> |lines[k]| > 0 && Trim(lines[k]) == lines[k]
  {
    var raw := RawLines(rawData);
    TrimmedKept(raw);
    Filter(raw, NonEmpty)
  }

  lemma TrimmedKept(raw: seq<string>)
    requires forall k :: 0 <= k < |raw| ==> Trim(raw[k]) == raw[k]
    ensures forall k :: 0 <= k < |Filter(raw, NonEmpty)| ==> Trim(Filter(raw, NonEmpty)[k]) == Filter(raw, NonEmpty)[k]
  {
    var lines := Filter(raw, NonEmpty);
    forall k | 0 <= k < |lines| ensures Trim(lines[k]) == lines[k] {
      FilterMembers(raw, NonEmpty, lines[k]);
    }
  }

  /** The lines are exactly the non-empty trimmed pieces. */
  lemma LinesMembers(rawData: string, x: string)
    ensures x in Lines(rawData) <==> x in RawLines(rawData) && x != ""
  {
    FilterMembers(RawLines(rawData), NonEmpty, x);
  }

  /** Two non-empty pieces keep their order among the lines. */
  lemma LinesKeepOrder(rawData: string, i: nat, j: nat)
    requires var raw := RawLines(rawData); i < j < |raw| && raw[i] != "" && raw[j] != ""
    ensures var raw, lines := RawLines(rawData), Lines(rawData);
      exists k, l :: 0 <= k < l < |lines| && lines[k] == raw[i] && lines[l] == raw[j]
  {
    var raw := RawLines(rawData);
    assert NonEmpty(raw[i]) && NonEmpty(raw[j]);
    FilterKeepsOrder(raw, NonEmpty, i, j);
    assert Lines(rawData) == Filter(raw, NonEmpty);
  }

  /** The cells of a line: split at runs of tabs, each cell trimmed. */
  function Cells(line: string): (parts: seq<string>)
    ensures |parts| >= 1
  {
    var pieces := SplitTabRuns(line);
    seq(|pieces|, i requires 0 <= i < |pieces| => Trim(pieces[i]))
  }

  predicate IsHeader(upperLine: string) {
    Contains(upperLine, "CATALÀ") || Contains(upperLine, "CASTELLÀ")
  }

  /** A first cell that names a student: non-empty and read as an integer. */
  predicate IsStudentId(id: string) {
    id != "" && ParsesAsInt(id)
  }

  predicate Truthy(val: string) {
    val == "TRUE" || val == "VERITAT" || val == "1" || val == "SÍ"
  }

  // ---------------------------------------------------------------------
  // One student row

  /** The column after the last one read: the shorter of the row and the header. */
  function RowEnd(headers: seq<string>, parts: seq<string>): nat {
    if |headers| < |parts| then |headers| else |parts|
  }

  /** The upper-cased header names of the truthy cells among columns 1 to `k - 1`. */
  function Selected(headers: seq<string>, parts: seq<string>, k: nat): seq<string>
    requires k <= 1 || (k <= |headers| && k <= |parts|)
  {
    if k <= 1 then []
    else Selected(headers, parts, k - 1) + (if Truthy(Upper(parts[k - 1])) then [Upper(headers[k - 1])] else [])
  }

  lemma SelectedStep(headers: seq<string>, parts: seq<string>, i: nat)
    requires 1 <= i < |headers| && i < |parts|
    ensures Selected(headers, parts, i + 1) ==
      Selected(headers, parts, i) + (if Truthy(Upper(parts[i])) then [Upper(headers[i])] else [])
  {
  }

  /** Each subject's students in order of first selection, and the subjects
      in order of first appearance: an insertion-ordered map of sets. */
  datatype Tally = Tally(sets: map<string, seq<string>>, order: seq<string>)

  const EmptyTally := Tally(map[], [])

  /** `subjectMap[name] ??= new Set(); subjectMap[name].add(id)` */
  function AddTo(t: Tally, name: string, id: string): Tally {
    var t1 := if name in t.sets then t else Tally(t.sets[name := []], t.order + [name]);
    Tally(t1.sets[name := AddUnique(t1.sets[name], id)], t1.order)
  }

  function AddAll(t: Tally, names: seq<string>, id: string): Tally {
    if |names| == 0 then t else AddTo(AddAll(t, names[..|names| - 1], id), names[|names| - 1], id)
  }

  lemma AddAllSnoc(t: Tally, names: seq<string>, name: string, id: string)
    ensures AddAll(t, names + [name], id) == AddTo(AddAll(t, names, id), name, id)
  {
    assert (names + [name])[..|names|] == names;
  }

  // ---------------------------------------------------------------------
  // The whole text

  datatype ParseState = ParseState(headers: Option<seq<string>>, students: seq<Student>, tally: Tally)

  const Start := ParseState(None, [], EmptyTally)

  /** A student row under the columns `headers`: the student is listed when
      the row selects some subject, and each selection is tallied. */
  function StudentRow(st: ParseState, headers: seq<string>, parts: seq<string>): ParseState
    requires |parts| > 0
  {
    var selected := Selected(headers, parts, RowEnd(headers, parts));
    var students := if |selected| > 0 then st.students + [Student(parts[0], selected)] else st.students;
    ParseState(st.headers, students, AddAll(st.tally, selected, parts[0]))
  }

  /** What one line does to the parser's state. */
  function LineStep(st: ParseState, line: string): ParseState {
    var parts := Cells(line);
    if IsHeader(Upper(line)) then st.(headers := Some(parts))
    else if st.headers.None? then st
    else if !IsStudentId(parts[0]) then st
    else StudentRow(st, st.headers.value, parts)
  }

  function ParseUpTo(lines: seq<string>, n: nat): ParseState
    requires n <= |lines|
  {
    if n == 0 then Start else LineStep(ParseUpTo(lines, n - 1), lines[n - 1])
  }

  /** One record per name: the name, its students and their number. */
  function StatsFrom(t: Tally, names: seq<string>): (r: seq<SubjectStats>)
    ensures |r| == |names|
    ensures forall i :: 0 <= i < |r| ==>
      r[i].name == names[i] && r[i].count == |r[i].students| &&
      (names[i] in t.sets ==> r[i].students == t.sets[names[i]])
  {
    if |names| == 0 then []
    else
      var name := names[|names| - 1];
      var students := if name in t.sets then t.sets[name] else [];
      StatsFrom(t, names[..|names| - 1]) + [SubjectStats(name, |students|, students)]
  }

  /** The records of the subjects, in insertion order, sorted by size. */
  function SubjectStatsOf(t: Tally): seq<SubjectStats> {
    SortBy(StatsFrom(t, t.order), CountDescLe)
  }

  /** The state after every line of the text. */
  function Parsed(rawData: string): ParseState {
    var lines := Lines(rawData);
    ParseUpTo(lines, |lines|)
  }

  // ---------------------------------------------------------------------
  // The parser as the source runs it

  /** The column loop of one student row: the subjects the row selects,
      each one recorded in the tally under the student's id. */
  method ReadRow(headers: seq<string>, parts: seq<string>, studentId: string,
                 subjectMap0: map<string, seq<string>>, subjectOrder0: seq<string>)
    returns (studentSubjects: seq<string>, subjectMap: map<string, seq<string>>, subjectOrder: seq<string>)
    ensures studentSubjects == Selected(headers, parts, RowEnd(headers, parts))
    ensures Tally(subjectMap, subjectOrder) == AddAll(Tally(subjectMap0, subjectOrder0), studentSubjects, studentId)
  {
    ghost var before := Tally(subjectMap0, subjectOrder0);
    subjectMap, subjectOrder := subjectMap0, subjectOrder0;
    studentSubjects := [];
    var i := 1;
    while i < |parts|
      invariant 1 <= i <= RowEnd(headers, parts) || (i == 1 && RowEnd(headers, parts) <= 1)
      invariant studentSubjects == Selected(headers, parts, i)
      invariant Tally(subjectMap, subjectOrder) == AddAll(before, studentSubjects, studentId)
    {
      if i >= |headers| {
        break;
      }
      var val := Upper(parts[i]);
      var subjectName := Upper(headers[i]);
      SelectedStep(headers, parts, i);
      if Truthy(val) {
        AddAllSnoc(before, studentSubjects, subjectName, studentId);
        studentSubjects := studentSubjects + [subjectName];
        if subjectName !in subjectMap {
          subjectMap := subjectMap[subjectName := []];
          subjectOrder := subjectOrder + [subjectName];
        }
        subjectMap := subjectMap[subjectName := AddUnique(subjectMap[subjectName], studentId)];
      }
      i := i + 1;
    }
    if i != RowEnd(headers, parts) {
      assert i == 1 && RowEnd(headers, parts) <= 1;
    }
  }

  /** One line of the text, as the body of the source's line loop handles it;
      each early return is one of its `continue`s. */
  method ReadLine(currentHeaders0: Option<seq<string>>, students0: seq<Student>,
                  subjectMap0: map<string, seq<string>>, subjectOrder0: seq<string>, line: string)
    returns (currentHeaders: Option<seq<string>>, students: seq<Student>,
             subjectMap: map<string, seq<string>>, subjectOrder: seq<string>)
    ensures ParseState(currentHeaders, students, Tally(subjectMap, subjectOrder)) ==
      LineStep(ParseState(currentHeaders0, students0, Tally(subjectMap0, subjectOrder0)), line)
  {
    currentHeaders, students, subjectMap, subjectOrder := currentHeaders0, students0, subjectMap0, subjectOrder0;
    var parts := Cells(line);
    var upperLine := Upper(line);
    if IsHeader(upperLine) {
      currentHeaders := Some(parts);
      return;
    }
    if currentHeaders.None? {
      return;
    }
    var id := parts[0];
    if id == "" || !ParsesAsInt(id) {
      return;
    }
    var studentId := id;
    var studentSubjects;
    studentSubjects, subjectMap, subjectOrder := ReadRow(currentHeaders.value, parts, studentId, subjectMap, subjectOrder);
    if |studentSubjects| > 0 {
      students := students + [Student(studentId, studentSubjects)];
    }
  }

  method ParseRawData(rawData: string) returns (students: seq<Student>, subjectStats: seq<SubjectStats>)
    ensures students == Parsed(rawData).students
    ensures subjectStats == SubjectStatsOf(Parsed(rawData).tally)
  {
    var lines := Lines(rawData);
    students := [];
    var subjectMap: map<string, seq<string>> := map[];
    var subjectOrder: seq<string> := [];
    var currentHeaders: Option<seq<string>> := None;

    for n := 0 to |lines|
      invariant ParseState(currentHeaders, students, Tally(subjectMap, subjectOrder)) == ParseUpTo(lines, n)
    {
      currentHeaders, students, subjectMap, subjectOrder := ReadLine(currentHeaders, students, subjectMap, subjectOrder, lines[n]);
    }

    var entries := StatsFrom(Tally(subjectMap, subjectOrder), subjectOrder);
    subjectStats := SortBy(entries, CountDescLe);
  }

  // ---------------------------------------------------------------------
  // Properties of the parse

  /** The subjects a row selects are the upper-cased headers of its truthy cells. */
  lemma {:induction false} SelectedMembers(headers: seq<string>, parts: seq<string>, k: nat, x: string)
    requires k <= 1 || (k <= |headers| && k <= |parts|)
    ensures x in Selected(headers, parts, k) <==>
      exists i :: 1 <= i < k && Truthy(Upper(parts[i])) && x == Upper(headers[i])
  {
    if k > 1 {
      SelectedMembers(headers, parts, k - 1, x);
    }
  }

  /** The subjects are listed once each and are exactly the keys, and no
      subject lists a student twice. */
  ghost predicate TallyWellFormed(t: Tally) {
    NoDup(t.order) &&
    (forall name :: name in t.sets <==> name in t.order) &&
    (forall name :: name in t.sets ==> NoDup(t.sets[name]))
  }

  /** Student `x` is recorded under subject `name`. */
  ghost predicate Recorded(t: Tally, name: string, x: string) {
    name in t.sets && x in t.sets[name]
  }

  lemma AddToFacts(t: Tally, name: string, id: string)
    ensures TallyWellFormed(t) ==> TallyWellFormed(AddTo(t, name, id))
    ensures forall n, x :: Recorded(AddTo(t, name, id), n, x) <==> Recorded(t, n, x) || (n == name && x == id)
  {
  }

  lemma {:induction false} AddAllFacts(t: Tally, names: seq<string>, id: string)
    ensures TallyWellFormed(t) ==> TallyWellFormed(AddAll(t, names, id))
    ensures forall n, x :: Recorded(AddAll(t, names, id), n, x) <==> Recorded(t, n, x) || (n in names && x == id)
  {
    if |names| > 0 {
      var init := names[..|names| - 1];
      AddAllFacts(t, init, id);
      AddToFacts(AddAll(t, init, id), names[|names| - 1], id);
      InitLast(names);
    }
  }

  /** Every recorded student is a listed student who chose that subject, and
      the other way round; and every listed student has an integer id and at
      least one subject. */
  ghost predicate Agrees(st: ParseState) {
    (forall n, x :: Recorded(st.tally, n, x) <==>
       exists s :: s in st.students && s.id == x && n in s.subjects) &&
    (forall s :: s in st.students ==> IsStudentId(s.id) && |s.subjects| > 0)
  }

  ghost predicate Invariant(st: ParseState) {
    TallyWellFormed(st.tally) && Agrees(st)
  }

  lemma LineStepKeepsInvariant(st: ParseState, line: string)
    requires Invariant(st)
    ensures Invariant(LineStep(st, line))
  {
    var parts := Cells(line);
    if !IsHeader(Upper(line)) && st.headers.Some? && IsStudentId(parts[0]) {
      var headers := st.headers.value;
      var selected := Selected(headers, parts, RowEnd(headers, parts));
      var r := LineStep(st, line);
      AddAllFacts(st.tally, selected, parts[0]);
      forall n, x ensures Recorded(r.tally, n, x) <==> exists s :: s in r.students && s.id == x && n in s.subjects {
        if |selected| > 0 {
          var added := Student(parts[0], selected);
          assert r.students == st.students + [added];
          if n in selected && x == parts[0] {
            assert added in r.students;
          }
        }
      }
    }
  }

  lemma {:induction false} ParseUpToKeepsInvariant(lines: seq<string>, n: nat)
    requires n <= |lines|
    ensures Invariant(ParseUpTo(lines, n))
  {
    if n > 0 {
      ParseUpToKeepsInvariant(lines, n - 1);
      LineStepKeepsInvariant(ParseUpTo(lines, n - 1), lines[n - 1]);
    }
  }

  /** Lines before the first header line are ignored altogether. */
  lemma {:induction false} NothingBeforeHeader(lines: seq<string>, n: nat)
    requires n <= |lines|
    requires forall k :: 0 <= k < n ==> !IsHeader(Upper(lines[k]))
    ensures ParseUpTo(lines, n) == Start
  {
    if n > 0 {
      NothingBeforeHeader(lines, n - 1);
      IgnoredWithoutHeader(ParseUpTo(lines, n - 1), lines[n - 1]);
    }
  }

  /** Before any header, a line that is not one changes nothing. */
  lemma IgnoredWithoutHeader(st: ParseState, line: string)
    requires st.headers.None? && !IsHeader(Upper(line))
    ensures LineStep(st, line) == st
  {
  }

  /** A header line replaces the columns and records nothing; any other line
      keeps the students read so far and adds at most one, exactly when it is
      a student row under a header that selects some subject. */
  lemma LineStepStudents(st: ParseState, line: string)
    ensures IsHeader(Upper(line)) ==>
      LineStep(st, line) == ParseState(Some(Cells(line)), st.students, st.tally)
    ensures var r := LineStep(st, line);
      |st.students| <= |r.students| <= |st.students| + 1 &&
      r.students[..|st.students|] == st.students &&
      (|r.students| > |st.students| <==>
        !IsHeader(Upper(line)) && st.headers.Some? && IsStudentId(Cells(line)[0]) &&
        |Selected(st.headers.value, Cells(line), RowEnd(st.headers.value, Cells(line)))| > 0)
  {
  }

  /** The subject records of a well-formed tally: one per subject, with the
      subject's students, without repetition, and its size as the count. */
  lemma StatsFromFacts(t: Tally)
    requires TallyWellFormed(t)
    ensures var r := StatsFrom(t, t.order);
      NoDup(r) &&
      (forall e :: e in r ==> e.name in t.sets && e.students == t.sets[e.name] && e.count == |e.students|) &&
      (forall n :: n in t.sets ==> exists e :: e in r && e.name == n)
  {
    var r := StatsFrom(t, t.order);
    forall n | n in t.sets ensures exists e :: e in r && e.name == n {
      var i :| 0 <= i < |t.order| && t.order[i] == n;
      assert r[i] in r;
    }
  }

  /** The statistics are sorted by count, largest first, name each subject of
      the tally once, and hold each subject's students without repetition. */
  lemma SubjectStatsFacts(t: Tally)
    requires TallyWellFormed(t)
    ensures var r := SubjectStatsOf(t);
      Sorted(r, CountDescLe) &&
      multiset(r) == multiset(StatsFrom(t, t.order)) &&
      (forall i, j :: 0 <= i < j < |r| ==> r[i].name != r[j].name) &&
      (forall e :: e in r ==>
         e.name in t.sets && e.students == t.sets[e.name] && e.count == |e.students| && NoDup(e.students)) &&
      (forall n :: n in t.sets <==> exists e :: e in r && e.name == n)
  {
    var entries := StatsFrom(t, t.order);
    var r := SubjectStatsOf(t);
    CountDescLeIsPreorder();
    SortBySorted(entries, CountDescLe);
    StatsFromFacts(t);
    NoDupPermutation(entries, r);
    forall e | e in r ensures e in entries {
      assert e in multiset(r);
    }
    forall n | n in t.sets ensures exists e :: e in r && e.name == n {
      var e :| e in entries && e.name == n;
      assert e in multiset(entries);
      assert e in r;
    }
    DistinctNames(r, t);
  }

  /** Records determined by their name are distinct by name. */
  lemma DistinctNames(r: seq<SubjectStats>, t: Tally)
    requires NoDup(r)
    requires forall e :: e in r ==> e.name in t.sets && e.students == t.sets[e.name] && e.count == |e.students|
    ensures forall i, j :: 0 <= i < j < |r| ==> r[i].name != r[j].name
  {
    forall i, j | 0 <= i < j < |r| ensures r[i].name != r[j].name {
      assert r[i] in r && r[j] in r;
    }
  }

  /** What the parse returns: students with integer ids and some subject each;
      subject records sorted largest first, one per subject, each listing
      without repetition exactly the students who chose it; and every subject
      a student chose has its record. */
  lemma ParseRawDataFacts(rawData: string)
    ensures var st := Parsed(rawData);
      var stats := SubjectStatsOf(st.tally);
      (forall s :: s in st.students ==> IsStudentId(s.id) && |s.subjects| > 0) &&
      Sorted(stats, CountDescLe) &&
      (forall i, j :: 0 <= i < j < |stats| ==> stats[i].name != stats[j].name) &&
      (forall e, x :: e in stats ==>
         e.count == |e.students| && NoDup(e.students) &&
         (x in e.students <==> exists s :: s in st.students && s.id == x && e.name in s.subjects)) &&
      (forall s, n :: s in st.students && n in s.subjects ==> exists e :: e in stats && e.name == n)
  {
    var lines := Lines(rawData);
    var st := Parsed(rawData);
    ParseUpToKeepsInvariant(lines, |lines|);
    SubjectStatsFacts(st.tally);
    var stats := SubjectStatsOf(st.tally);
    forall e, x | e in stats
      ensures x in e.students <==> exists s :: s in st.students && s.id == x && e.name in s.subjects
    {
      assert Recorded(st.tally, e.name, x) <==> x in e.students;
    }
    forall s, n | s in st.students && n in s.subjects ensures exists e :: e in stats && e.name == n {
      assert Recorded(st.tally, n, s.id);
    }
  }
}
