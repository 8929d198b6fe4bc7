/** The weekly slot pattern: a slot index and an exam length determine the
    week, the teaching day (Monday, Tuesday or Thursday) and the position of
    the slot within that day. */
module SlotCalendar {
  import opened Types

  /** Slots per week: Mon(1) Tue(2) Thu(1) for 90 minutes, Mon(2) Tue(3) Thu(2) for 60. */
  function SlotsPerWeek(duration: Duration): nat {
    if duration == Ninety then 4 else 7
  }

  /** How many slots the teaching day `dayIndex` (0 = Monday, 1 = Tuesday,
      2 = Thursday) holds. */
  function SlotsInDay(duration: Duration, dayIndex: nat): nat {
    if duration == Ninety then (if dayIndex == 1 then 2 else 1)
    else (if dayIndex == 1 then 3 else 2)
  }

  /** Position within the week of the first slot of a teaching day. */
  function FirstSlotOfDay(duration: Duration, dayIndex: nat): nat {
    if dayIndex == 0 then 0
    else if dayIndex == 1 then SlotsInDay(duration, 0)
    else SlotsInDay(duration, 0) + SlotsInDay(duration, 1)
  }

  function DayName(dayIndex: nat): string {
    if dayIndex == 0 then "Dilluns" else if dayIndex == 1 then "Dimarts" else "Dijous"
  }

  /** The slot with index `globalIndex`, on a teaching day, named after it. */
  function GenerateSlot(globalIndex: nat, duration: Duration): (s: ScheduleSlot)
    ensures s.id == globalIndex
    ensures s.dayIndex <= 2 && s.slotInDay < SlotsInDay(duration, s.dayIndex)
    ensures s.dayName == DayName(s.dayIndex)
  {
    if duration == Ninety then
      var weekIndex := globalIndex / 4;
      var slotInWeek := globalIndex % 4;
      if slotInWeek == 0 then ScheduleSlot(globalIndex, "Dilluns", "15:00 - 16:30", weekIndex, 0, 0)
      else if slotInWeek == 1 then ScheduleSlot(globalIndex, "Dimarts", "15:00 - 16:30", weekIndex, 1, 0)
      else if slotInWeek == 2 then ScheduleSlot(globalIndex, "Dimarts", "16:30 - 18:00", weekIndex, 1, 1)
      else ScheduleSlot(globalIndex, "Dijous", "15:00 - 16:30", weekIndex, 2, 0)
    else
      var weekIndex := globalIndex / 7;
      var slotInWeek := globalIndex % 7;
      if slotInWeek == 0 then ScheduleSlot(globalIndex, "Dilluns", "15:00 - 16:00", weekIndex, 0, 0)
      else if slotInWeek == 1 then ScheduleSlot(globalIndex, "Dilluns", "16:00 - 17:00", weekIndex, 0, 1)
      else if slotInWeek == 2 then ScheduleSlot(globalIndex, "Dimarts", "15:00 - 16:00", weekIndex, 1, 0)
      else if slotInWeek == 3 then ScheduleSlot(globalIndex, "Dimarts", "16:00 - 17:00", weekIndex, 1, 1)
      else if slotInWeek == 4 then ScheduleSlot(globalIndex, "Dimarts", "17:00 - 18:00", weekIndex, 1, 2)
      else if slotInWeek == 5 then ScheduleSlot(globalIndex, "Dijous", "15:00 - 16:00", weekIndex, 2, 0)
      else ScheduleSlot(globalIndex, "Dijous", "16:00 - 17:00", weekIndex, 2, 1)
  }

  /** The coordinates of a slot follow the weekly pattern: the week is the
      index divided by the slots per week, and the index is recovered from the
      week, the first slot of the day and the position within the day. */
  lemma SlotLayout(globalIndex: nat, duration: Duration)
    ensures var s := GenerateSlot(globalIndex, duration);
      s.weekIndex == globalIndex / SlotsPerWeek(duration) &&
      globalIndex == s.weekIndex * SlotsPerWeek(duration) + FirstSlotOfDay(duration, s.dayIndex) + s.slotInDay
  {
  }

  /** "The same calendar day": the `${weekIndex}-${dayIndex}` key. */
  type DayKey = (nat, nat)

  function DayOf(slotId: nat, duration: Duration): DayKey {
    var s := GenerateSlot(slotId, duration);
    (s.weekIndex, s.dayIndex)
  }

  /** Different slot indices never share a calendar position. */
  lemma SlotPositionsDistinct(i: nat, j: nat, duration: Duration)
    requires i != j
    ensures var a, b := GenerateSlot(i, duration), GenerateSlot(j, duration);
      (a.weekIndex, a.dayIndex, a.slotInDay) != (b.weekIndex, b.dayIndex, b.slotInDay)
  {
    SlotLayout(i, duration);
    SlotLayout(j, duration);
  }

  /** Every position of the weekly pattern is the position of exactly one index. */
  lemma SlotPositionReached(weekIndex: nat, dayIndex: nat, slotInDay: nat, duration: Duration)
    requires dayIndex <= 2 && slotInDay < SlotsInDay(duration, dayIndex)
    ensures var i := weekIndex * SlotsPerWeek(duration) + FirstSlotOfDay(duration, dayIndex) + slotInDay;
      var s := GenerateSlot(i, duration);
      s.weekIndex == weekIndex && s.dayIndex == dayIndex && s.slotInDay == slotInDay
  {
    var r := FirstSlotOfDay(duration, dayIndex) + slotInDay;
    if duration == Ninety {
      assert (weekIndex * 4 + r) / 4 == weekIndex && (weekIndex * 4 + r) % 4 == r;
    } else {
      assert (weekIndex * 7 + r) / 7 == weekIndex && (weekIndex * 7 + r) % 7 == r;
    }
  }
}
