/** One scheduling attempt: the subjects are taken in the given order and
    each is placed in the first slot index below the search bound that
    passes the three hard checks (no shared student in the slot, at most two
    exams per student and day, no incompatible subject on the same day).
    A subject that fits nowhere is recorded as unassignable. */
module GreedyAssigner {
  import opened Types
  import opened Seqs
  import opened SlotCalendar
  import opened ConflictRules

  /** Slot indices tried per subject. */
  const SearchBound: nat := 150
  /** Exams a student may sit on one calendar day. */
  const DailyLimit: nat := 2

  // ---------------------------------------------------------------------
  // The three checks

  /** Check 1: an exam already in slot `slotId` shares a student with `subject`. */
  predicate StudentConflict(schedule: seq<ScheduledExam>, subject: SubjectStats, slotId: nat) {
    exists k, e :: 0 <= k < |subject.students| && 0 <= e < |schedule| &&
      schedule[e].slotId == slotId && subject.students[k] in schedule[e].students
  }

  /** How many exams of `schedule` that `student` sits fall on `day`. */
  function ExamsOnDay(schedule: seq<ScheduledExam>, student: string, day: DayKey, duration: Duration): nat
  {
    if |schedule| == 0 then 0
    else
      var last := schedule[|schedule| - 1];
      ExamsOnDay(schedule[..|schedule| - 1], student, day, duration) +
      (if student in last.students && DayOf(last.slotId, duration) == day then 1 else 0)
  }

  /** Check 2: one of the subject's students already sits two exams on `day`. */
  predicate DailyLimitExceeded(schedule: seq<ScheduledExam>, subject: SubjectStats, day: DayKey, duration: Duration) {
    exists k :: 0 <= k < |subject.students| &&
      ExamsOnDay(schedule, subject.students[k], day, duration) >= DailyLimit
  }

  /** Check 3: an exam already on the day of `slotId` is incompatible with `subject`. */
  predicate DayConflict(schedule: seq<ScheduledExam>, subject: SubjectStats, slotId: nat, duration: Duration) {
    exists e :: 0 <= e < |schedule| && DayOf(schedule[e].slotId, duration) == DayOf(slotId, duration) &&
      IsDayIncompatible(subject.name, schedule[e].subject)
  }

  predicate Fits(schedule: seq<ScheduledExam>, subject: SubjectStats, slotId: nat, duration: Duration) {
    !StudentConflict(schedule, subject, slotId) &&
    !DailyLimitExceeded(schedule, subject, DayOf(slotId, duration), duration) &&
    !DayConflict(schedule, subject, slotId, duration)
  }

  /** The first index from `from` on, below the search bound, that satisfies `p`. */
  function FirstIndex(p: nat -> bool, from: nat): Option<nat>
    decreases SearchBound - from
  {
    if from >= SearchBound then None
    else if p(from) then Some(from)
    else FirstIndex(p, from + 1)
  }

  /** `FirstIndex` finds the least index below the bound that satisfies `p`,
      and finds none exactly when no index from `from` up to the bound does. */
  lemma {:induction false} FirstIndexIsLeast(p: nat -> bool, from: nat)
    ensures var r := FirstIndex(p, from);
      (r.Some? ==> from <= r.value < SearchBound && p(r.value)) &&
      (r.Some? ==> forall i :: from <= i < r.value ==> !p(i)) &&
      (r.None? <==> forall i :: from <= i < SearchBound ==> !p(i))
    decreases SearchBound - from
  {
    if from < SearchBound && !p(from) {
      FirstIndexIsLeast(p, from + 1);
    }
  }

  /** The least index that satisfies `p` is the one `FirstIndex` finds. */
  lemma {:induction false} FirstIndexOfLeast(p: nat -> bool, from: nat, k: nat)
    requires from <= k < SearchBound && p(k)
    requires forall i :: from <= i < k ==> !p(i)
    ensures FirstIndex(p, from) == Some(k)
    decreases k - from
  {
    if from < k {
      FirstIndexOfLeast(p, from + 1, k);
    }
  }

  /** Whether `subject` fits at each slot index. */
  function FitsAt(schedule: seq<ScheduledExam>, subject: SubjectStats, duration: Duration): nat -> bool {
    (i: nat) => Fits(schedule, subject, i, duration)
  }

  /** The first index from `from` on, below the search bound, where `subject` fits. */
  function FirstFit(schedule: seq<ScheduledExam>, subject: SubjectStats, duration: Duration, from: nat): Option<nat> {
    FirstIndex(FitsAt(schedule, subject, duration), from)
  }

  /** `FirstFit` finds the least fitting index below the bound, and finds
      none exactly when no index from `from` up to the bound fits. */
  lemma FirstFitIsLeast(schedule: seq<ScheduledExam>, subject: SubjectStats, duration: Duration, from: nat)
    ensures var r := FirstFit(schedule, subject, duration, from);
      (r.Some? ==> from <= r.value < SearchBound && Fits(schedule, subject, r.value, duration)) &&
      (r.Some? ==> forall i :: from <= i < r.value ==> !Fits(schedule, subject, i, duration)) &&
      (r.None? <==> forall i :: from <= i < SearchBound ==> !Fits(schedule, subject, i, duration))
  {
    var p := FitsAt(schedule, subject, duration);
    FirstIndexIsLeast(p, from);
    assert forall i :: p(i) == Fits(schedule, subject, i, duration);
  }

  /** The least fitting index is the one `FirstFit` finds. */
  lemma FirstFitOfLeast(schedule: seq<ScheduledExam>, subject: SubjectStats, duration: Duration, from: nat, slotId: nat)
    requires from <= slotId < SearchBound && Fits(schedule, subject, slotId, duration)
    requires forall i :: from <= i < slotId ==> !Fits(schedule, subject, i, duration)
    ensures FirstFit(schedule, subject, duration, from) == Some(slotId)
  {
    var p := FitsAt(schedule, subject, duration);
    assert forall i :: p(i) == Fits(schedule, subject, i, duration);
    FirstIndexOfLeast(p, from, slotId);
  }

  /** Where no index fits, `FirstFit` finds none. */
  lemma NoFitMeansNone(schedule: seq<ScheduledExam>, subject: SubjectStats, duration: Duration, from: nat)
    requires forall i :: from <= i < SearchBound ==> !Fits(schedule, subject, i, duration)
    ensures FirstFit(schedule, subject, duration, from) == None
  {
    FirstFitIsLeast(schedule, subject, duration, from);
  }

  // ---------------------------------------------------------------------
  // The attempt as a function of the subject order

  /** The three arrays an attempt builds up. */
  datatype Attempt = Attempt(schedule: seq<ScheduledExam>, unassignable: seq<string>, usedSlots: seq<ScheduleSlot>)

  const EmptyAttempt := Attempt([], [], [])

  predicate HasSlot(slots: seq<ScheduleSlot>, id: nat) {
    exists k :: 0 <= k < |slots| && slots[k].id == id
  }

  /** Place one subject at its first fitting index, or record it as unassignable:
      the existing exams and unassignable names stay as they are, and exactly
      one entry is added to one of the two. */
  function Place(st: Attempt, subject: SubjectStats, duration: Duration): (r: Attempt)
    ensures st.schedule <= r.schedule && st.unassignable <= r.unassignable
    ensures |r.schedule| + |r.unassignable| == |st.schedule| + |st.unassignable| + 1
    ensures r.schedule == st.schedule <==> r.unassignable == st.unassignable + [subject.name]
  {
    match FirstFit(st.schedule, subject, duration, 0)
    case Some(i) =>
      Attempt(st.schedule + [ScheduledExam(subject.name, i, subject.students)],
              st.unassignable,
              if HasSlot(st.usedSlots, i) then st.usedSlots else st.usedSlots + [GenerateSlot(i, duration)])
    case None =>
      Attempt(st.schedule, st.unassignable + [subject.name], st.usedSlots)
  }

  function PlaceFrom(start: Attempt, subjects: seq<SubjectStats>, duration: Duration): Attempt
    decreases |subjects|
  {
    if |subjects| == 0 then start
    else Place(PlaceFrom(start, subjects[..|subjects| - 1], duration), subjects[|subjects| - 1], duration)
  }

  function PlaceAll(subjects: seq<SubjectStats>, duration: Duration): Attempt {
    PlaceFrom(EmptyAttempt, subjects, duration)
  }

  predicate SlotIdLe(a: ScheduleSlot, b: ScheduleSlot) {
    a.id <= b.id
  }

  function DaysUsed(schedule: seq<ScheduledExam>, duration: Duration): set<DayKey> {
    set e | e in schedule :: DayOf(e.slotId, duration)
  }

  /** The result record of an attempt: the used slots sorted by id and the
      number of distinct calendar days used. */
  function Outcome(st: Attempt, duration: Duration): ScheduleResult {
    ScheduleResult(st.schedule, |DaysUsed(st.schedule, duration)|, SortBy(st.usedSlots, SlotIdLe), st.unassignable)
  }

  function AttemptResult(subjects: seq<SubjectStats>, duration: Duration): ScheduleResult {
    Outcome(PlaceAll(subjects, duration), duration)
  }

  lemma PlaceAllSnoc(subjects: seq<SubjectStats>, n: nat, duration: Duration)
    requires n < |subjects|
    ensures PlaceAll(subjects[..n + 1], duration) == Place(PlaceAll(subjects[..n], duration), subjects[n], duration)
  {
    assert subjects[..n + 1][..n] == subjects[..n];
  }

  lemma PlacedAt(st: Attempt, subject: SubjectStats, duration: Duration, slotIndex: nat)
    requires slotIndex < SearchBound && Fits(st.schedule, subject, slotIndex, duration)
    requires forall i :: 0 <= i < slotIndex ==> !Fits(st.schedule, subject, i, duration)
    ensures Place(st, subject, duration) ==
      Attempt(st.schedule + [ScheduledExam(subject.name, slotIndex, subject.students)],
              st.unassignable,
              if HasSlot(st.usedSlots, slotIndex) then st.usedSlots else st.usedSlots + [GenerateSlot(slotIndex, duration)])
  {
    FirstFitOfLeast(st.schedule, subject, duration, 0, slotIndex);
  }

  lemma NotPlaced(st: Attempt, subject: SubjectStats, duration: Duration)
    requires forall i :: 0 <= i < SearchBound ==> !Fits(st.schedule, subject, i, duration)
    ensures Place(st, subject, duration) == Attempt(st.schedule, st.unassignable + [subject.name], st.usedSlots)
  {
    NoFitMeansNone(st.schedule, subject, duration, 0);
  }

  // ---------------------------------------------------------------------
  // The attempt as the source runs it

  /** The inner counting loop of the daily-limit check. */
  method CountExamsToday(schedule: seq<ScheduledExam>, studentId: string, currentDayId: DayKey, duration: Duration)
    returns (examsToday: nat)
    ensures examsToday == ExamsOnDay(schedule, studentId, currentDayId, duration)
  {
    examsToday := 0;
    for e := 0 to |schedule|
      invariant examsToday == ExamsOnDay(schedule[..e], studentId, currentDayId, duration)
    {
      var existingExam := schedule[e];
      assert schedule[..e + 1][..e] == schedule[..e];
      if studentId in existingExam.students {
        var existingExamSlot := GenerateSlot(existingExam.slotId, duration);
        if (existingExamSlot.weekIndex, existingExamSlot.dayIndex) == currentDayId {
          examsToday := examsToday + 1;
        }
      }
    }
    assert schedule[..|schedule|] == schedule;
  }

  /** Check 2 as the source runs it: stops at the first student over the limit. */
  method CheckDailyLimit(schedule: seq<ScheduledExam>, subject: SubjectStats, currentDayId: DayKey, duration: Duration)
    returns (exceeded: bool)
    ensures exceeded == DailyLimitExceeded(schedule, subject, currentDayId, duration)
  {
    exceeded := false;
    var k := 0;
    while k < |subject.students| && !exceeded
      invariant 0 <= k <= |subject.students|
      invariant exceeded <==> exists j :: 0 <= j < k && ExamsOnDay(schedule, subject.students[j], currentDayId, duration) >= DailyLimit
    {
      var examsToday := CountExamsToday(schedule, subject.students[k], currentDayId, duration);
      exceeded := examsToday >= DailyLimit;
      k := k + 1;
    }
  }

  /** The three checks in the source's order for the slot `currentSlot`,
      each one skipping the rest once it fails. */
  method CheckSlot(schedule: seq<ScheduledExam>, subject: SubjectStats, currentSlot: ScheduleSlot, duration: Duration)
    returns (fits: bool)
    requires currentSlot == GenerateSlot(currentSlot.id, duration)
    ensures fits == Fits(schedule, subject, currentSlot.id, duration)
  {
    var studentConflict := StudentConflict(schedule, subject, currentSlot.id);
    if studentConflict {
      return false;
    }
    var currentDayId := (currentSlot.weekIndex, currentSlot.dayIndex);
    assert currentDayId == DayOf(currentSlot.id, duration);
    var dailyLimitExceeded := CheckDailyLimit(schedule, subject, currentDayId, duration);
    if dailyLimitExceeded {
      return false;
    }
    var dayConflict := DayConflict(schedule, subject, currentSlot.id, duration);
    fits := !dayConflict;
  }

  /** One subject of the attempt: the slot search from slot 0, stopping at
      the first slot where the exam fits, or the subject left unassignable. */
  method PlaceSubject(schedule0: seq<ScheduledExam>, unassignable0: seq<string>, usedSlots0: seq<ScheduleSlot>,
                      subject: SubjectStats, duration: Duration)
    returns (schedule: seq<ScheduledExam>, unassignable: seq<string>, usedSlots: seq<ScheduleSlot>)
    ensures Attempt(schedule, unassignable, usedSlots) == Place(Attempt(schedule0, unassignable0, usedSlots0), subject, duration)
  {
    schedule, unassignable, usedSlots := schedule0, unassignable0, usedSlots0;
    ghost var before := Attempt(schedule, unassignable, usedSlots);
    var isAssigned := false;
    var slotIndex := 0;

    while !isAssigned && slotIndex < SearchBound
      invariant slotIndex <= SearchBound
      invariant forall i :: 0 <= i < slotIndex ==> !Fits(before.schedule, subject, i, duration)
      invariant !isAssigned ==> schedule == before.schedule && usedSlots == before.usedSlots
      invariant isAssigned ==> slotIndex < SearchBound && Fits(before.schedule, subject, slotIndex, duration)
      invariant isAssigned ==> schedule == before.schedule + [ScheduledExam(subject.name, slotIndex, subject.students)]
      invariant isAssigned ==>
        usedSlots == if HasSlot(before.usedSlots, slotIndex) then before.usedSlots else before.usedSlots + [GenerateSlot(slotIndex, duration)]
      decreases if isAssigned then 0 else SearchBound - slotIndex + 1
    {
      var currentSlot := GenerateSlot(slotIndex, duration);
      var fits := CheckSlot(schedule, subject, currentSlot, duration);
      if !fits {
        slotIndex := slotIndex + 1;
        continue;
      }

      schedule := schedule + [ScheduledExam(subject.name, currentSlot.id, subject.students)];
      if !HasSlot(usedSlots, currentSlot.id) {
        usedSlots := usedSlots + [currentSlot];
      }
      isAssigned := true;
    }

    if !isAssigned {
      NotPlaced(before, subject, duration);
      unassignable := unassignable + [subject.name];
    } else {
      PlacedAt(before, subject, duration, slotIndex);
    }
  }

  method RunSchedulerAttempt(orderedSubjects: seq<SubjectStats>, duration: Duration) returns (result: ScheduleResult)
    ensures result == AttemptResult(orderedSubjects, duration)
  {
    var schedule: seq<ScheduledExam> := [];
    var unassignable: seq<string> := [];
    var usedSlots: seq<ScheduleSlot> := [];

    for n := 0 to |orderedSubjects|
      invariant Attempt(schedule, unassignable, usedSlots) == PlaceAll(orderedSubjects[..n], duration)
    {
      PlaceAllSnoc(orderedSubjects, n, duration);
      schedule, unassignable, usedSlots := PlaceSubject(schedule, unassignable, usedSlots, orderedSubjects[n], duration);
    }
    assert orderedSubjects[..|orderedSubjects|] == orderedSubjects;

    var uniqueDays := set e | e in schedule :: DayOf(e.slotId, duration);
    usedSlots := SortBy(usedSlots, SlotIdLe);
    result := ScheduleResult(schedule, |uniqueDays|, usedSlots, unassignable);
  }
}
