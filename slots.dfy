/** Slot generation of the availability handler: walk the days from the start date-time to
    the end date-time, skip closed weekdays, and on open weekdays offer every whole hour of
    the opening hours that no active appointment occupies. */
module Slots {
  import opened Wrappers
  import opened Calendar
  import opened BusinessHours
  import opened Appointments

  /** An offered slot: a calendar day and the whole hour it starts at. */
  datatype Slot = Slot(day: int, hour: int)

  /** The slot's date-time (`slotTime`, its `datetime` in the response). */
  function Datetime(s: Slot): int
  {
    At(s.day, s.hour)
  }

  // ---------------------------------------------------------------------------------------
  // Reference definition: which slots are available, independent of the order of the walk.

  /** The walk `date = start; date <= end; date += one day` reaches calendar day `d`:
      `d` is not before the start day, and `d` at the start's time of day is not after `end`. */
  predicate VisitedDay(start: DateTime, end: DateTime, d: int)
  {
    start.day <= d && NotAfter(DateTime(d, start.time), end)
  }

  /** The slot's hour lies in the opening hours of its weekday. */
  predicate InBusinessHours(s: Slot)
  {
    var h := HoursOn(Weekday(s.day));
    h.Some? && h.value.openHour <= s.hour < h.value.closeHour
  }

  /** A slot is offered for the range iff its day is walked, its hour is open and no active
      appointment is scheduled at its date-time. */
  predicate Available(start: DateTime, end: DateTime, appts: seq<Appointment>, s: Slot)
  {
    VisitedDay(start, end, s.day) && InBusinessHours(s) && !IsBooked(Datetime(s), appts)
  }

  predicate StrictlyIncreasing(ss: seq<Slot>)
  {
    forall i, j :: 0 <= i < j < |ss| ==> Datetime(ss[i]) < Datetime(ss[j])
  }

  // ---------------------------------------------------------------------------------------
  // The walk itself, as the loops produce it.

  /** The inner loop from `hour` up to (excluding) `closeHour` on one day. */
  function HourSlots(day: int, hour: int, closeHour: int, appts: seq<Appointment>): seq<Slot>
    decreases closeHour - hour
  {
    if hour >= closeHour then []
    else
      (if IsBooked(At(day, hour), appts) then [] else [Slot(day, hour)])
      + HourSlots(day, hour + 1, closeHour, appts)
  }

  /** One day of the outer loop: nothing on a closed weekday. */
  function DaySlots(day: int, appts: seq<Appointment>): seq<Slot>
  {
    match HoursOn(Weekday(day))
    case None => []
    case Some(h) => HourSlots(day, h.openHour, h.closeHour, appts)
  }

  /** The outer loop from the date-time `date` while `date <= end`. */
  function RangeSlots(date: DateTime, end: DateTime, appts: seq<Appointment>): seq<Slot>
    decreases end.day - date.day
  {
    if !NotAfter(date, end) then []
    else DaySlots(date.day, appts) + RangeSlots(NextDay(date), end, appts)
  }

  /** The outer loop of the handler: walk the days, skip closed weekdays, and append what
      the inner loop finds on each open day (`availableSlots.push`). */
  method GenerateSlots(start: DateTime, end: DateTime, appts: seq<Appointment>) returns (slots: seq<Slot>)
    ensures slots == RangeSlots(start, end, appts)
    ensures forall s :: s in slots <==> Available(start, end, appts, s)
    ensures StrictlyIncreasing(slots)
  {
    slots := [];
    var date := start;
    while NotAfter(date, end)
      invariant slots + RangeSlots(date, end, appts) == RangeSlots(start, end, appts)
      decreases end.day - date.day
    {
      var day := date.day;
      var hours := HoursOn(Weekday(day));
      ghost var before := slots;
      DayHours(day, appts);
      if hours.Some? {
        var found := OpenDaySlots(day, hours.value, appts);
        slots := slots + found;
      } else {
        assert slots == before + [];
      }
      RangeStep(before, date, end, appts);
      date := NextDay(date);
    }
    RangeSlotsCorrect(start, end, appts);
  }

  /** The inner loop of the handler on one open day: one conflict query per whole hour of
      the opening hours, keeping the hours the query finds no row for. */
  method OpenDaySlots(day: int, hours: Hours, appts: seq<Appointment>) returns (slots: seq<Slot>)
    ensures slots == HourSlots(day, hours.openHour, hours.closeHour, appts)
    ensures forall s :: s in slots <==>
      s.day == day && hours.openHour <= s.hour < hours.closeHour && !IsBooked(Datetime(s), appts)
  {
    slots := [];
    var hour: int := hours.openHour;
    while hour < hours.closeHour
      invariant slots + HourSlots(day, hour, hours.closeHour, appts)
        == HourSlots(day, hours.openHour, hours.closeHour, appts)
      decreases hours.closeHour - hour
    {
      var rows := BookedIds(At(day, hour), appts);
      NoRowsIffFree(At(day, hour), appts);
      HourStep(slots, day, hour, hours.closeHour, appts);
      if |rows| == 0 {
        slots := slots + [Slot(day, hour)];
      }
      hour := hour + 1;
    }
    forall s ensures s in slots <==>
      s.day == day && hours.openHour <= s.hour < hours.closeHour && !IsBooked(Datetime(s), appts)
    {
      HourSlotsMembers(day, hours.openHour, hours.closeHour, appts, s);
    }
  }

  /** A day's slots are those of its weekday's opening hours, none on a closed weekday. */
  lemma DayHours(day: int, appts: seq<Appointment>)
    ensures HoursOn(Weekday(day)).None? ==> DaySlots(day, appts) == []
    ensures HoursOn(Weekday(day)).Some? ==>
      (DaySlots(day, appts) == HourSlots(day, HoursOn(Weekday(day)).value.openHour,
                                         HoursOn(Weekday(day)).value.closeHour, appts))
  {
  }

  /** One step of the outer loop: a walked day contributes its own slots, then the walk
      continues from the next day. */
  lemma RangeStep(done: seq<Slot>, date: DateTime, end: DateTime, appts: seq<Appointment>)
    requires NotAfter(date, end)
    ensures (done + DaySlots(date.day, appts)) + RangeSlots(NextDay(date), end, appts)
      == done + RangeSlots(date, end, appts)
  {
  }

  /** One step of the inner loop: the hour is offered iff it is not booked. */
  lemma HourStep(done: seq<Slot>, day: int, hour: int, closeHour: int, appts: seq<Appointment>)
    requires hour < closeHour
    ensures !IsBooked(At(day, hour), appts) ==>
      (done + [Slot(day, hour)]) + HourSlots(day, hour + 1, closeHour, appts)
        == done + HourSlots(day, hour, closeHour, appts)
    ensures IsBooked(At(day, hour), appts) ==>
      done + HourSlots(day, hour + 1, closeHour, appts) == done + HourSlots(day, hour, closeHour, appts)
  {
    var later := HourSlots(day, hour + 1, closeHour, appts);
    if IsBooked(At(day, hour), appts) {
      assert HourSlots(day, hour, closeHour, appts) == [] + later;
    } else {
      assert HourSlots(day, hour, closeHour, appts) == [Slot(day, hour)] + later;
      assert (done + [Slot(day, hour)]) + later == done + ([Slot(day, hour)] + later);
    }
  }

  // ---------------------------------------------------------------------------------------
  // The walk agrees with the reference definition.

  lemma {:induction false} HourSlotsMembers(day: int, hour: int, closeHour: int, appts: seq<Appointment>, s: Slot)
    ensures s in HourSlots(day, hour, closeHour, appts) <==>
      s.day == day && hour <= s.hour < closeHour && !IsBooked(At(day, s.hour), appts)
    decreases closeHour - hour
  {
    if hour < closeHour {
      HourSlotsMembers(day, hour + 1, closeHour, appts, s);
    }
  }

  lemma DaySlotsMembers(day: int, appts: seq<Appointment>, s: Slot)
    ensures s in DaySlots(day, appts) <==>
      s.day == day && InBusinessHours(s) && !IsBooked(Datetime(s), appts)
  {
    match HoursOn(Weekday(day))
    case None =>
    case Some(h) => HourSlotsMembers(day, h.openHour, h.closeHour, appts, s);
  }

  /** The walk from `date` reaches day `d` iff `d` is the day of `date` (and `date` is not past
      `end`) or the walk from the next day reaches it. */
  lemma VisitedStep(date: DateTime, end: DateTime, d: int)
    ensures VisitedDay(date, end, d) <==>
      (d == date.day && NotAfter(date, end)) || VisitedDay(NextDay(date), end, d)
  {
  }

  lemma {:induction false} RangeSlotsMembers(date: DateTime, end: DateTime, appts: seq<Appointment>, s: Slot)
    ensures s in RangeSlots(date, end, appts) <==> Available(date, end, appts, s)
    decreases end.day - date.day
  {
    VisitedStep(date, end, s.day);
    if NotAfter(date, end) {
      RangeSlotsMembers(NextDay(date), end, appts, s);
      DaySlotsMembers(date.day, appts, s);
    }
  }

  /** The walk offers exactly the available slots, in strictly increasing date-time order. */
  lemma RangeSlotsCorrect(start: DateTime, end: DateTime, appts: seq<Appointment>)
    ensures forall s :: s in RangeSlots(start, end, appts) <==> Available(start, end, appts, s)
    ensures StrictlyIncreasing(RangeSlots(start, end, appts))
  {
    forall s ensures s in RangeSlots(start, end, appts) <==> Available(start, end, appts, s) {
      RangeSlotsMembers(start, end, appts, s);
    }
    RangeSlotsIncreasing(start, end, appts);
  }

  // ---------------------------------------------------------------------------------------
  // Order: days ascend, hours ascend within a day, no slot twice.

  lemma ConcatIncreasing(a: seq<Slot>, b: seq<Slot>)
    requires StrictlyIncreasing(a) && StrictlyIncreasing(b)
    requires forall i, j :: 0 <= i < |a| && 0 <= j < |b| ==> Datetime(a[i]) < Datetime(b[j])
    ensures StrictlyIncreasing(a + b)
  {
    var c := a + b;
    forall i, j | 0 <= i < j < |c| ensures Datetime(c[i]) < Datetime(c[j]) {
      if j < |a| {
        assert c[i] == a[i] && c[j] == a[j];
      } else if i < |a| {
        assert c[i] == a[i] && c[j] == b[j - |a|];
      } else {
        assert c[i] == b[i - |a|] && c[j] == b[j - |a|];
      }
    }
  }

  lemma {:induction false} HourSlotsIncreasing(day: int, hour: int, closeHour: int, appts: seq<Appointment>)
    requires 0 <= hour && closeHour <= HOURS_PER_DAY
    ensures StrictlyIncreasing(HourSlots(day, hour, closeHour, appts))
    decreases closeHour - hour
  {
    if hour < closeHour {
      var head := if IsBooked(At(day, hour), appts) then [] else [Slot(day, hour)];
      var rest := HourSlots(day, hour + 1, closeHour, appts);
      HourSlotsIncreasing(day, hour + 1, closeHour, appts);
      forall i, j | 0 <= i < |head| && 0 <= j < |rest| ensures Datetime(head[i]) < Datetime(rest[j]) {
        HourSlotsMembers(day, hour + 1, closeHour, appts, rest[j]);
        AtOrder(day, hour, day, rest[j].hour);
      }
      ConcatIncreasing(head, rest);
    }
  }

  lemma DaySlotsIncreasing(day: int, appts: seq<Appointment>)
    ensures StrictlyIncreasing(DaySlots(day, appts))
  {
    HoursWithinDay(Weekday(day));
    match HoursOn(Weekday(day))
    case None =>
    case Some(h) => HourSlotsIncreasing(day, h.openHour, h.closeHour, appts);
  }

  lemma {:induction false} RangeSlotsIncreasing(date: DateTime, end: DateTime, appts: seq<Appointment>)
    ensures StrictlyIncreasing(RangeSlots(date, end, appts))
    decreases end.day - date.day
  {
    if NotAfter(date, end) {
      var first := DaySlots(date.day, appts);
      var rest := RangeSlots(NextDay(date), end, appts);
      DaySlotsIncreasing(date.day, appts);
      RangeSlotsIncreasing(NextDay(date), end, appts);
      forall i, j | 0 <= i < |first| && 0 <= j < |rest| ensures Datetime(first[i]) < Datetime(rest[j]) {
        var a, b := first[i], rest[j];
        DaySlotsMembers(date.day, appts, a);
        RangeSlotsMembers(NextDay(date), end, appts, b);
        HoursWithinDay(Weekday(a.day));
        HoursWithinDay(Weekday(b.day));
        AtOrder(a.day, a.hour, b.day, b.hour);
      }
      ConcatIncreasing(first, rest);
    }
  }
}
