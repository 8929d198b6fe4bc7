/** What one scheduling attempt guarantees: every subject is either placed
    at its first fitting index or recorded as unassignable, in input order;
    the placed exams respect the three hard constraints; the used slots are
    listed once each, in increasing order; and a subject that fits nowhere
    leaves the placement of the others unchanged. */
module AttemptProperties {
  import opened Types
  import opened Seqs
  import opened SlotCalendar
  import opened ConflictRules
  import opened GreedyAssigner

  // ---------------------------------------------------------------------
  // Hard constraints

  predicate Disjoint(a: seq<string>, b: seq<string>) {
    forall x :: x in a ==> x !in b
  }

  /** Exams in the same slot have no student in common. */
  ghost predicate NoDoubleBooking(s: seq<ScheduledExam>) {
    forall i, j :: 0 <= i < |s| && 0 <= j < |s| && i != j && s[i].slotId == s[j].slotId ==>
      Disjoint(s[i].students, s[j].students)
  }

  /** No student sits more than two exams on one calendar day. */
  ghost predicate WithinDailyLimit(s: seq<ScheduledExam>, duration: Duration) {
    forall student, day :: ExamsOnDay(s, student, day, duration) <= DailyLimit
  }

  /** No two exams on the same calendar day are incompatible. */
  ghost predicate CategorySafe(s: seq<ScheduledExam>, duration: Duration) {
    forall i, j :: 0 <= i < |s| && 0 <= j < |s| && i != j && DayOf(s[i].slotId, duration) == DayOf(s[j].slotId, duration) ==>
      !IsDayIncompatible(s[i].subject, s[j].subject)
  }

  ghost predicate HardConstraints(s: seq<ScheduledExam>, duration: Duration) {
    NoDoubleBooking(s) && WithinDailyLimit(s, duration) && CategorySafe(s, duration)
  }

  lemma ExamsOnDaySnoc(s: seq<ScheduledExam>, e: ScheduledExam, student: string, day: DayKey, duration: Duration)
    ensures ExamsOnDay(s + [e], student, day, duration) ==
      ExamsOnDay(s, student, day, duration) + (if student in e.students && DayOf(e.slotId, duration) == day then 1 else 0)
  {
    assert (s + [e])[..|s|] == s;
  }

  /** Appending an exam at an index where its subject fits keeps the constraints. */
  lemma AppendFittingExam(s: seq<ScheduledExam>, subject: SubjectStats, slotId: nat, duration: Duration)
    requires HardConstraints(s, duration)
    requires Fits(s, subject, slotId, duration)
    ensures HardConstraints(s + [ScheduledExam(subject.name, slotId, subject.students)], duration)
  {
    var e := ScheduledExam(subject.name, slotId, subject.students);
    var t := s + [e];
    forall i, j | 0 <= i < |t| && 0 <= j < |t| && i != j && t[i].slotId == t[j].slotId
      ensures Disjoint(t[i].students, t[j].students)
    {
      if i == |s| {
        assert forall k :: 0 <= k < |subject.students| ==> subject.students[k] !in s[j].students;
      } else if j == |s| {
        assert forall k :: 0 <= k < |subject.students| ==> subject.students[k] !in s[i].students;
      }
    }
    forall student, day ensures ExamsOnDay(t, student, day, duration) <= DailyLimit {
      ExamsOnDaySnoc(s, e, student, day, duration);
      if student in e.students && DayOf(slotId, duration) == day {
        var k :| 0 <= k < |subject.students| && subject.students[k] == student;
        assert ExamsOnDay(s, subject.students[k], day, duration) < DailyLimit;
      }
    }
    forall i, j | 0 <= i < |t| && 0 <= j < |t| && i != j && DayOf(t[i].slotId, duration) == DayOf(t[j].slotId, duration)
      ensures !IsDayIncompatible(t[i].subject, t[j].subject)
    {
      if i == |s| {
        assert !IsDayIncompatible(subject.name, s[j].subject);
      } else if j == |s| {
        assert !IsDayIncompatible(subject.name, s[i].subject);
        IncompatibleSymmetric(subject.name, s[i].subject);
      }
    }
  }

  lemma {:induction false} PlaceFromKeepsConstraints(start: Attempt, subjects: seq<SubjectStats>, duration: Duration)
    requires HardConstraints(start.schedule, duration)
    ensures HardConstraints(PlaceFrom(start, subjects, duration).schedule, duration)
    decreases |subjects|
  {
    if |subjects| > 0 {
      var st := PlaceFrom(start, subjects[..|subjects| - 1], duration);
      var x := subjects[|subjects| - 1];
      PlaceFromKeepsConstraints(start, subjects[..|subjects| - 1], duration);
      FirstFitIsLeast(st.schedule, x, duration, 0);
      match FirstFit(st.schedule, x, duration, 0)
      case Some(i) => AppendFittingExam(st.schedule, x, i, duration);
      case None =>
    }
  }

  /** Every attempt respects the three hard constraints. */
  lemma AttemptRespectsConstraints(subjects: seq<SubjectStats>, duration: Duration)
    ensures HardConstraints(AttemptResult(subjects, duration).schedule, duration)
  {
    assert HardConstraints([], duration);
    PlaceFromKeepsConstraints(EmptyAttempt, subjects, duration);
  }

  // ---------------------------------------------------------------------
  // First fit, in input order

  /** The greedy rule stated on the outputs alone: the last subject was
      either appended to the schedule at the least index below the bound at
      which it fits against the exams placed before it, or appended to the
      unassignable names when no index below the bound fits. */
  ghost predicate GreedyTrace(subjects: seq<SubjectStats>, schedule: seq<ScheduledExam>, unassignable: seq<string>, duration: Duration)
    decreases |subjects|
  {
    if |subjects| == 0 then schedule == [] && unassignable == []
    else
      var x, rest := subjects[|subjects| - 1], subjects[..|subjects| - 1];
      (PlacedLast(x, schedule, duration) && GreedyTrace(rest, schedule[..|schedule| - 1], unassignable, duration))
      ||
      (UnassignedLast(x, schedule, unassignable, duration) &&
        GreedyTrace(rest, schedule, unassignable[..|unassignable| - 1], duration))
  }

  /** `slotId` is the least index below the bound at which `x` fits. */
  ghost predicate LeastFit(schedule: seq<ScheduledExam>, x: SubjectStats, slotId: nat, duration: Duration) {
    slotId < SearchBound && Fits(schedule, x, slotId, duration) &&
    forall i :: 0 <= i < slotId ==> !Fits(schedule, x, i, duration)
  }

  ghost predicate FitsNowhere(schedule: seq<ScheduledExam>, x: SubjectStats, duration: Duration) {
    forall i :: 0 <= i < SearchBound ==> !Fits(schedule, x, i, duration)
  }

  /** The last exam is `x`, placed at its least fitting index against the exams before it. */
  ghost predicate PlacedLast(x: SubjectStats, schedule: seq<ScheduledExam>, duration: Duration) {
    |schedule| > 0 &&
    var e := schedule[|schedule| - 1];
    e.subject == x.name && e.students == x.students && LeastFit(schedule[..|schedule| - 1], x, e.slotId, duration)
  }

  /** The last unassignable name is `x`'s, and `x` fits nowhere against the schedule. */
  ghost predicate UnassignedLast(x: SubjectStats, schedule: seq<ScheduledExam>, unassignable: seq<string>, duration: Duration) {
    |unassignable| > 0 && unassignable[|unassignable| - 1] == x.name && FitsNowhere(schedule, x, duration)
  }

  /** The attempt follows the greedy rule. */
  lemma {:induction false} AttemptFollowsGreedyTrace(subjects: seq<SubjectStats>, duration: Duration)
    ensures GreedyTrace(subjects, PlaceAll(subjects, duration).schedule, PlaceAll(subjects, duration).unassignable, duration)
    decreases |subjects|
  {
    if |subjects| > 0 {
      var x, rest := subjects[|subjects| - 1], subjects[..|subjects| - 1];
      var st := PlaceAll(rest, duration);
      AttemptFollowsGreedyTrace(rest, duration);
      FirstFitIsLeast(st.schedule, x, duration, 0);
      var r := PlaceAll(subjects, duration);
      match FirstFit(st.schedule, x, duration, 0)
      case Some(i) =>
        assert r.schedule[..|r.schedule| - 1] == st.schedule;
        assert PlacedLast(x, r.schedule, duration);
      case None =>
        assert r.unassignable[..|r.unassignable| - 1] == st.unassignable;
        assert UnassignedLast(x, r.schedule, r.unassignable, duration);
    }
  }

  /** The greedy rule admits no other outputs than the attempt's. */
  lemma {:induction false} GreedyTraceDeterminesAttempt(subjects: seq<SubjectStats>, schedule: seq<ScheduledExam>, unassignable: seq<string>, duration: Duration)
    requires GreedyTrace(subjects, schedule, unassignable, duration)
    ensures schedule == PlaceAll(subjects, duration).schedule
    ensures unassignable == PlaceAll(subjects, duration).unassignable
    decreases |subjects|
  {
    if |subjects| > 0 {
      var x, rest := subjects[|subjects| - 1], subjects[..|subjects| - 1];
      var st := PlaceAll(rest, duration);
      if PlacedLast(x, schedule, duration) && GreedyTrace(rest, schedule[..|schedule| - 1], unassignable, duration) {
        var e, before := schedule[|schedule| - 1], schedule[..|schedule| - 1];
        GreedyTraceDeterminesAttempt(rest, before, unassignable, duration);
        FirstFitOfLeast(before, x, duration, 0, e.slotId);
        InitLast(schedule);
      } else {
        var init := unassignable[..|unassignable| - 1];
        GreedyTraceDeterminesAttempt(rest, schedule, init, duration);
        NoFitMeansNone(schedule, x, duration, 0);
        InitLast(unassignable);
      }
    }
  }

  function ExamNames(s: seq<ScheduledExam>): seq<string> {
    if |s| == 0 then [] else ExamNames(s[..|s| - 1]) + [s[|s| - 1].subject]
  }

  function SubjectNames(s: seq<SubjectStats>): seq<string> {
    if |s| == 0 then [] else SubjectNames(s[..|s| - 1]) + [s[|s| - 1].name]
  }

  function NameOf(s: SubjectStats): string {
    s.name
  }

  lemma {:induction false} SubjectNamesMap(s: seq<SubjectStats>)
    ensures SubjectNames(s) == Map(s, NameOf)
  {
    if |s| > 0 {
      SubjectNamesMap(s[..|s| - 1]);
    }
  }

  /** Two orders of the same subjects list the same names, as many times each. */
  lemma SubjectNamesPermutation(a: seq<SubjectStats>, b: seq<SubjectStats>)
    requires multiset(a) == multiset(b)
    ensures multiset(SubjectNames(a)) == multiset(SubjectNames(b))
  {
    SubjectNamesMap(a);
    SubjectNamesMap(b);
    MapPermutation(a, b, NameOf);
  }

  /** Placing one subject adds it once: to the schedule or to the unassignable list. */
  lemma PlaceCoverage(st: Attempt, x: SubjectStats, duration: Duration)
    ensures var r := Place(st, x, duration);
      |r.schedule| + |r.unassignable| == |st.schedule| + |st.unassignable| + 1 &&
      multiset(ExamNames(r.schedule)) + multiset(r.unassignable) ==
        multiset(ExamNames(st.schedule)) + multiset(st.unassignable) + multiset{x.name}
  {
    var r := Place(st, x, duration);
    match FirstFit(st.schedule, x, duration, 0)
    case Some(i) =>
      var e := ScheduledExam(x.name, i, x.students);
      PlaceAtFirstFit(st, x, duration, i);
      assert r.schedule == st.schedule + [e] && r.unassignable == st.unassignable;
      ExamNamesSnoc(st.schedule, e);
    case None =>
      assert r.schedule == st.schedule && r.unassignable == st.unassignable + [x.name];
  }

  lemma ExamNamesSnoc(s: seq<ScheduledExam>, e: ScheduledExam)
    ensures multiset(ExamNames(s + [e])) == multiset(ExamNames(s)) + multiset{e.subject}
  {
    assert (s + [e])[..|s|] == s;
    assert ExamNames(s + [e]) == ExamNames(s) + [e.subject];
  }

  lemma {:induction false} PlaceFromCoverage(subjects: seq<SubjectStats>, duration: Duration)
    ensures var st := PlaceAll(subjects, duration);
      |st.schedule| + |st.unassignable| == |subjects| &&
      multiset(ExamNames(st.schedule)) + multiset(st.unassignable) == multiset(SubjectNames(subjects))
  {
    if |subjects| > 0 {
      var rest := subjects[..|subjects| - 1];
      PlaceFromCoverage(rest, duration);
      PlaceCoverage(PlaceAll(rest, duration), subjects[|subjects| - 1], duration);
      assert SubjectNames(subjects) == SubjectNames(rest) + [subjects[|subjects| - 1].name];
    }
  }

  /** Every subject ends up exactly once, placed or unassignable. */
  lemma AttemptCoverage(subjects: seq<SubjectStats>, duration: Duration)
    ensures var r := AttemptResult(subjects, duration);
      |r.schedule| + |r.unassignable| == |subjects| &&
      multiset(ExamNames(r.schedule)) + multiset(r.unassignable) == multiset(SubjectNames(subjects))
  {
    PlaceFromCoverage(subjects, duration);
  }


  /** With distinct subject names, no name is both placed and unassignable. */
  lemma PlacedOrUnassignable(subjects: seq<SubjectStats>, duration: Duration, name: string)
    requires NoDup(SubjectNames(subjects))
    ensures var r := AttemptResult(subjects, duration);
      !(name in ExamNames(r.schedule) && name in r.unassignable)
  {
    AttemptCoverage(subjects, duration);
    NoDupCount(SubjectNames(subjects), name);
  }

  // ---------------------------------------------------------------------
  // An unassignable subject does not disturb the others

  lemma {:induction false} PlaceFromAppend(start: Attempt, xs: seq<SubjectStats>, ys: seq<SubjectStats>, duration: Duration)
    ensures PlaceFrom(start, xs + ys, duration) == PlaceFrom(PlaceFrom(start, xs, duration), ys, duration)
    decreases |ys|
  {
    if |ys| == 0 {
      assert xs + ys == xs;
    } else {
      assert (xs + ys)[..|xs + ys| - 1] == xs + ys[..|ys| - 1];
      PlaceFromAppend(start, xs, ys[..|ys| - 1], duration);
    }
  }

  lemma {:induction false} PlaceFromDependsOnSchedule(a: Attempt, b: Attempt, ys: seq<SubjectStats>, duration: Duration)
    requires a.schedule == b.schedule
    ensures PlaceFrom(a, ys, duration).schedule == PlaceFrom(b, ys, duration).schedule
    decreases |ys|
  {
    if |ys| > 0 {
      PlaceFromDependsOnSchedule(a, b, ys[..|ys| - 1], duration);
    }
  }

  /** Removing a subject that fits nowhere leaves every other placement as it was. */
  lemma UnassignableLeavesOthersAlone(xs: seq<SubjectStats>, x: SubjectStats, ys: seq<SubjectStats>, duration: Duration)
    requires forall i :: 0 <= i < SearchBound ==> !Fits(PlaceAll(xs, duration).schedule, x, i, duration)
    ensures PlaceAll(xs + [x] + ys, duration).schedule == PlaceAll(xs + ys, duration).schedule
  {
    var st := PlaceAll(xs, duration);
    NoFitMeansNone(st.schedule, x, duration, 0);
    PlaceFromAppend(EmptyAttempt, xs, [x], duration);
    assert PlaceFrom(st, [x], duration) == Place(st, x, duration);
    PlaceFromAppend(EmptyAttempt, xs + [x], ys, duration);
    PlaceFromAppend(EmptyAttempt, xs, ys, duration);
    PlaceFromDependsOnSchedule(PlaceAll(xs + [x], duration), st, ys, duration);
  }

  // ---------------------------------------------------------------------
  // Used slots and days

  predicate ScheduleUses(schedule: seq<ScheduledExam>, id: nat) {
    exists e :: 0 <= e < |schedule| && schedule[e].slotId == id
  }

  /** What the attempt keeps true of its used slots: each is the generated
      slot of its id, no id is listed twice, exactly the ids of placed exams
      are listed, and there are no more slots than exams. */
  ghost predicate SlotsAgree(st: Attempt, duration: Duration) {
    (forall k :: 0 <= k < |st.usedSlots| ==> st.usedSlots[k] == GenerateSlot(st.usedSlots[k].id, duration)) &&
    (forall i, j :: 0 <= i < j < |st.usedSlots| ==> st.usedSlots[i].id != st.usedSlots[j].id) &&
    (forall id :: HasSlot(st.usedSlots, id) <==> ScheduleUses(st.schedule, id)) &&
    |st.usedSlots| <= |st.schedule|
  }

  lemma AppendKeepsSlotsAgree(st: Attempt, e: ScheduledExam, duration: Duration)
    requires SlotsAgree(st, duration)
    ensures SlotsAgree(Attempt(st.schedule + [e], st.unassignable,
      if HasSlot(st.usedSlots, e.slotId) then st.usedSlots else st.usedSlots + [GenerateSlot(e.slotId, duration)]), duration)
  {
    var s, u := st.schedule, st.usedSlots;
    var s2 := s + [e];
    var u2 := if HasSlot(u, e.slotId) then u else u + [GenerateSlot(e.slotId, duration)];
    assert forall k :: 0 <= k < |u| ==> u2[k] == u[k];
    assert forall k :: 0 <= k < |s| ==> s2[k] == s[k];
    forall id ensures HasSlot(u2, id) <==> ScheduleUses(s2, id) {
      if HasSlot(u2, id) && id != e.slotId {
        var k :| 0 <= k < |u2| && u2[k].id == id;
        assert HasSlot(u, id);
      }
      if ScheduleUses(s2, id) && id != e.slotId {
        var j :| 0 <= j < |s2| && s2[j].slotId == id;
        assert ScheduleUses(s, id);
      }
      if id == e.slotId {
        assert s2[|s|].slotId == id;
        if !HasSlot(u, id) {
          assert u2[|u|].id == id;
        }
      }
    }
  }

  lemma PlaceKeepsSlotsAgree(st: Attempt, subject: SubjectStats, duration: Duration)
    requires SlotsAgree(st, duration)
    ensures SlotsAgree(Place(st, subject, duration), duration)
  {
    match FirstFit(st.schedule, subject, duration, 0)
    case Some(i) => AppendKeepsSlotsAgree(st, ScheduledExam(subject.name, i, subject.students), duration);
    case None =>
  }

  lemma {:induction false} PlaceFromKeepsSlotsAgree(start: Attempt, subjects: seq<SubjectStats>, duration: Duration)
    requires SlotsAgree(start, duration)
    ensures SlotsAgree(PlaceFrom(start, subjects, duration), duration)
    decreases |subjects|
  {
    if |subjects| > 0 {
      PlaceFromKeepsSlotsAgree(start, subjects[..|subjects| - 1], duration);
      PlaceKeepsSlotsAgree(PlaceFrom(start, subjects[..|subjects| - 1], duration), subjects[|subjects| - 1], duration);
    }
  }

  lemma SlotIdLeIsPreorder()
    ensures TotalPreorder(SlotIdLe)
  {
  }

  /** The slots of a result are listed in strictly increasing order of id,
      each is the generated slot of its id, and they are exactly the slots in
      which an exam was placed. */
  lemma AttemptSlots(subjects: seq<SubjectStats>, duration: Duration)
    ensures var r := AttemptResult(subjects, duration);
      (forall i, j :: 0 <= i < j < |r.slots| ==> r.slots[i].id < r.slots[j].id) &&
      (forall k :: 0 <= k < |r.slots| ==> r.slots[k] == GenerateSlot(r.slots[k].id, duration)) &&
      (forall id :: HasSlot(r.slots, id) <==> ScheduleUses(r.schedule, id)) &&
      |r.slots| <= |r.schedule|
  {
    var st := PlaceAll(subjects, duration);
    assert SlotsAgree(EmptyAttempt, duration);
    PlaceFromKeepsSlotsAgree(EmptyAttempt, subjects, duration);
    var u := st.usedSlots;
    var slots := SortBy(u, SlotIdLe);
    SlotIdLeIsPreorder();
    SortBySorted(u, SlotIdLe);
    assert multiset(slots) == multiset(u);
    forall k | 0 <= k < |slots| ensures slots[k] == GenerateSlot(slots[k].id, duration) && HasSlot(u, slots[k].id) {
      assert slots[k] in multiset(u);
    }
    forall k | 0 <= k < |u| ensures HasSlot(slots, u[k].id) {
      assert u[k] in multiset(slots);
    }
    assert NoDup(u);
    NoDupPermutation(u, slots);
    forall i, j | 0 <= i < j < |slots| ensures slots[i].id < slots[j].id {
      assert SlotIdLe(slots[i], slots[j]);
    }
    forall id ensures HasSlot(slots, id) <==> HasSlot(u, id) {
      if HasSlot(slots, id) {
        var k :| 0 <= k < |slots| && slots[k].id == id;
      }
      if HasSlot(u, id) {
        var k :| 0 <= k < |u| && u[k].id == id;
      }
    }
  }

  /** The days of a schedule are the days of the slots it uses. */
  lemma DaysWithinSlots(schedule: seq<ScheduledExam>, slots: seq<ScheduleSlot>, duration: Duration)
    requires forall id :: HasSlot(slots, id) <==> ScheduleUses(schedule, id)
    ensures |DaysUsed(schedule, duration)| <= |slots|
    ensures |DaysUsed(schedule, duration)| == 0 <==> |schedule| == 0
  {
    var f := (s: ScheduleSlot) => DayOf(s.id, duration);
    ImageCard(slots, f);
    var image := Image(slots, f);
    forall day | day in DaysUsed(schedule, duration) ensures day in image {
      var e :| e in schedule && DayOf(e.slotId, duration) == day;
      var ei :| 0 <= ei < |schedule| && schedule[ei] == e;
      assert ScheduleUses(schedule, e.slotId);
      var k :| 0 <= k < |slots| && slots[k].id == e.slotId;
      assert f(slots[k]) == day;
    }
    SubsetCard(DaysUsed(schedule, duration), image);
    if |schedule| > 0 {
      assert DayOf(schedule[0].slotId, duration) in DaysUsed(schedule, duration);
    }
  }

  /** The number of calendar days used is at most the number of slots, and
      it is zero exactly when nothing was placed. */
  lemma AttemptDays(subjects: seq<SubjectStats>, duration: Duration)
    ensures var r := AttemptResult(subjects, duration);
      r.totalDays <= |r.slots| <= |r.schedule| &&
      (r.totalDays == 0 <==> |r.schedule| == 0)
  {
    var r := AttemptResult(subjects, duration);
    AttemptSlots(subjects, duration);
    DaysWithinSlots(r.schedule, r.slots, duration);
  }

  // ---------------------------------------------------------------------
  // A worked case

  lemma PlaceAtFirstFit(st: Attempt, subject: SubjectStats, duration: Duration, i: nat)
    requires FirstFit(st.schedule, subject, duration, 0) == Some(i)
    ensures Place(st, subject, duration) ==
      Attempt(st.schedule + [ScheduledExam(subject.name, i, subject.students)], st.unassignable,
              if HasSlot(st.usedSlots, i) then st.usedSlots else st.usedSlots + [GenerateSlot(i, duration)])
  {
  }

  lemma FitsEmpty(x: SubjectStats, slotId: nat, duration: Duration)
    ensures Fits([], x, slotId, duration)
  {
  }

  /** Next to a single exam on another day, every subject fits. */
  lemma FitsBesideOtherDay(e: ScheduledExam, x: SubjectStats, slotId: nat, duration: Duration)
    requires DayOf(e.slotId, duration) != DayOf(slotId, duration)
    ensures Fits([e], x, slotId, duration)
  {
    forall student ensures ExamsOnDay([e], student, DayOf(slotId, duration), duration) == 0 {
      assert [e][..0] == [];
    }
  }

  lemma FirstSubjectAtZero(x: SubjectStats)
    ensures PlaceAll([x], Ninety) == Attempt([ScheduledExam(x.name, 0, x.students)], [], [GenerateSlot(0, Ninety)])
  {
    FitsEmpty(x, 0, Ninety);
    FirstFitOfLeast([], x, Ninety, 0, 0);
    assert [x][..0] == [];
    assert PlaceFrom(EmptyAttempt, [x][..0], Ninety) == EmptyAttempt;
    assert !HasSlot([], 0);
    PlaceAtFirstFit(EmptyAttempt, x, Ninety, 0);
  }

  /** Beside `x` in slot 0, a subject sharing a student with `x` first fits at slot 1. */
  lemma SecondFitsAtOne(x: SubjectStats, y: SubjectStats)
    requires |y.students| > 0 && y.students[0] in x.students
    ensures FirstFit([ScheduledExam(x.name, 0, x.students)], y, Ninety, 0) == Some(1)
  {
    var e0 := ScheduledExam(x.name, 0, x.students);
    assert StudentConflict([e0], y, 0) by {
      assert y.students[0] in [e0][0].students;
    }
    assert DayOf(1, Ninety) == (0, 1) && DayOf(0, Ninety) == (0, 0);
    FitsBesideOtherDay(e0, y, 1, Ninety);
    FirstFitOfLeast([e0], y, Ninety, 0, 1);
  }

  lemma SecondSubjectAtOne(x: SubjectStats, y: SubjectStats)
    requires |y.students| > 0 && y.students[0] in x.students
    ensures var e0, e1 := ScheduledExam(x.name, 0, x.students), ScheduledExam(y.name, 1, y.students);
      PlaceAll([x, y], Ninety) == Attempt([e0, e1], [], [GenerateSlot(0, Ninety), GenerateSlot(1, Ninety)])
  {
    var subjects := [x, y];
    var st1 := PlaceAll([x], Ninety);
    FirstSubjectAtZero(x);
    SecondFitsAtOne(x, y);
    assert !HasSlot([GenerateSlot(0, Ninety)], 1);
    PlaceAllSnoc(subjects, 1, Ninety);
    PlaceAtFirstFit(st1, y, Ninety, 1);
    assert subjects[..2] == subjects;
    assert subjects[..1] == [x];
  }

  /** Ninety-minute exams, a first subject `x` and a second subject `y` that
      shares a student with `x`: `x` takes Monday's slot 0, `y` cannot share
      slot 0 and takes Tuesday's slot 1, the first slot on another day. */
  lemma SharedStudentMovesToNextDay(x: SubjectStats, y: SubjectStats)
    requires |y.students| > 0 && y.students[0] in x.students
    ensures var r := AttemptResult([x, y], Ninety);
      r.schedule == [ScheduledExam(x.name, 0, x.students), ScheduledExam(y.name, 1, y.students)] &&
      r.unassignable == [] &&
      r.totalDays == 2 &&
      r.slots == [GenerateSlot(0, Ninety), GenerateSlot(1, Ninety)]
  {
    SecondSubjectAtOne(x, y);
    TwoDayOutcome(ScheduledExam(x.name, 0, x.students), ScheduledExam(y.name, 1, y.students));
  }

  /** The result record of exams in slots 0 and 1 of the ninety-minute pattern. */
  lemma TwoDayOutcome(e0: ScheduledExam, e1: ScheduledExam)
    requires e0.slotId == 0 && e1.slotId == 1
    ensures Outcome(Attempt([e0, e1], [], [GenerateSlot(0, Ninety), GenerateSlot(1, Ninety)]), Ninety) ==
      ScheduleResult([e0, e1], 2, [GenerateSlot(0, Ninety), GenerateSlot(1, Ninety)], [])
  {
    TwoDaysUsed(e0, e1);
    TwoSlotsSorted();
  }

  lemma TwoDaysUsed(e0: ScheduledExam, e1: ScheduledExam)
    requires e0.slotId == 0 && e1.slotId == 1
    ensures |DaysUsed([e0, e1], Ninety)| == 2
  {
    var days := DaysUsed([e0, e1], Ninety);
    assert DayOf(0, Ninety) == (0, 0) && DayOf(1, Ninety) == (0, 1);
    assert (0, 0) in days by { assert e0 in [e0, e1]; }
    assert (0, 1) in days by { assert e1 in [e0, e1]; }
    assert days == {(0, 0), (0, 1)};
  }

  lemma TwoSlotsSorted()
    ensures SortBy([GenerateSlot(0, Ninety), GenerateSlot(1, Ninety)], SlotIdLe) == [GenerateSlot(0, Ninety), GenerateSlot(1, Ninety)]
  {
    var u := [GenerateSlot(0, Ninety), GenerateSlot(1, Ninety)];
    assert SortBy(u[1..], SlotIdLe) == [u[1]];
  }

  lemma MondayThenTuesday()
    ensures GenerateSlot(0, Ninety).dayName == "Dilluns" && GenerateSlot(1, Ninety).dayName == "Dimarts"
  {
    assert GenerateSlot(0, Ninety).dayIndex == 0;
    assert GenerateSlot(1, Ninety).dayIndex == 1;
  }

  /** MATES for students `a` and `b`, then CASTELLÀ for `a`. */
  lemma MathThenSpanish(a: string, b: string)
    ensures var r := AttemptResult([SubjectStats("MATES", 2, [a, b]), SubjectStats("CASTELLÀ", 1, [a])], Ninety);
      r.schedule == [ScheduledExam("MATES", 0, [a, b]), ScheduledExam("CASTELLÀ", 1, [a])] &&
      r.unassignable == [] && r.totalDays == 2 &&
      |r.slots| == 2 && r.slots[0].dayName == "Dilluns" && r.slots[1].dayName == "Dimarts"
  {
    var mates, castella := SubjectStats("MATES", 2, [a, b]), SubjectStats("CASTELLÀ", 1, [a]);
    SharedStudentMovesToNextDay(mates, castella);
    var r := AttemptResult([mates, castella], Ninety);
    assert r.slots == [GenerateSlot(0, Ninety), GenerateSlot(1, Ninety)];
    MondayThenTuesday();
  }
}
