/** The record shapes shared by the parser and the scheduler. */
module Types {
  import opened Seqs

  datatype Option<T> = None | Some(value: T)

  /** Exam length in minutes: `60 | 90`. */
  datatype Duration = Sixty | Ninety

  /** One parsed spreadsheet row: a student id and the subjects selected for it. */
  datatype Student = Student(id: string, subjects: seq<string>)

  /** A subject to examine, with the students who must sit it. */
  datatype SubjectStats = SubjectStats(name: string, count: int, students: seq<string>)

  /** The order both sorts by size use, larger subjects first: the
      comparator `b.count - a.count` is at most zero. */
  predicate CountDescLe(a: SubjectStats, b: SubjectStats) {
    a.count >= b.count
  }

  lemma CountDescLeIsPreorder()
    ensures TotalPreorder(CountDescLe)
  {
  }

  /** One bookable time window. */
  datatype ScheduleSlot = ScheduleSlot(
    id: nat,
    dayName: string,
    timeRange: string,
    weekIndex: nat,
    dayIndex: nat,
    slotInDay: nat)

  /** A subject placed in a slot. */
  datatype ScheduledExam = ScheduledExam(subject: string, slotId: nat, students: seq<string>)

  /** The outcome of one scheduling attempt. */
  datatype ScheduleResult = ScheduleResult(
    schedule: seq<ScheduledExam>,
    totalDays: nat,
    slots: seq<ScheduleSlot>,
    unassignable: seq<string>)
}
