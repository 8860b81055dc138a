/** What the availability walk promises its callers, stated over the walk `RangeSlots`
    that `GenerateSlots` is proved to compute. */
module SlotProperties {
  import opened Wrappers
  import opened Calendar
  import opened BusinessHours
  import opened Appointments
  import opened Slots

  /** Sunday and Saturday are closed: no slot from any range falls on them. */
  lemma ClosedDaysHaveNoSlots(start: DateTime, end: DateTime, appts: seq<Appointment>, s: Slot)
    requires Weekday(s.day) == 0 || Weekday(s.day) == 6
    ensures s !in RangeSlots(start, end, appts)
  {
    RangeSlotsMembers(start, end, appts, s);
  }

  /** Every slot lies on a walked day, starts at a whole hour of its weekday's opening hours
      (8 to 16 o'clock, Monday to Friday) and has zero minutes, seconds and milliseconds. */
  lemma SlotShape(start: DateTime, end: DateTime, appts: seq<Appointment>, s: Slot)
    requires s in RangeSlots(start, end, appts)
    ensures 1 <= Weekday(s.day) <= 5
    ensures 8 <= s.hour < 17
    ensures start.day <= s.day <= end.day
    ensures FromMillis(Datetime(s)) == DateTime(s.day, s.hour * MS_PER_HOUR)
    ensures Datetime(s) % MS_PER_HOUR == 0
  {
    RangeSlotsMembers(start, end, appts, s);
    AtOnHour(s.day, s.hour);
  }

  /** The walk covers every day from the start day up to the end day: all days strictly
      before the end day, and the end day itself iff the end's time of day is not before
      the start's. */
  lemma VisitedDays(start: DateTime, end: DateTime, d: int)
    ensures VisitedDay(start, end, d) <==>
      start.day <= d && (d < end.day || (d == end.day && start.time <= end.time))
  {
  }

  /** With no active appointment during the opening hours of an open day, the day offers
      exactly the nine slots 8:00, 9:00, ..., 16:00. */
  lemma {:induction false} HourSlotsAllFree(day: int, hour: int, closeHour: int, appts: seq<Appointment>)
    requires hour <= closeHour
    requires forall h :: hour <= h < closeHour ==> !IsBooked(At(day, h), appts)
    ensures HourSlots(day, hour, closeHour, appts) == seq(closeHour - hour, i => Slot(day, hour + i))
    decreases closeHour - hour
  {
    if hour < closeHour {
      HourSlotsAllFree(day, hour + 1, closeHour, appts);
      var rest := seq(closeHour - hour - 1, i => Slot(day, hour + 1 + i));
      assert HourSlots(day, hour, closeHour, appts) == [Slot(day, hour)] + rest;
      assert [Slot(day, hour)] + rest == seq(closeHour - hour, i => Slot(day, hour + i));
    }
  }

  lemma OpenDayUnbooked(day: int, appts: seq<Appointment>)
    requires 1 <= Weekday(day) <= 5
    requires forall h :: 8 <= h < 17 ==> !IsBooked(At(day, h), appts)
    ensures DaySlots(day, appts) == seq(9, i => Slot(day, 8 + i))
    ensures |DaySlots(day, appts)| == 9
  {
    HourSlotsAllFree(day, 8, 17, appts);
  }

  /** A range that starts and ends at the same date-time offers only that day's slots; on an
      open, unbooked day that is nine slots. */
  lemma SingleDay(t: DateTime, appts: seq<Appointment>)
    ensures RangeSlots(t, t, appts) == DaySlots(t.day, appts)
    ensures 1 <= Weekday(t.day) <= 5 && (forall h :: 8 <= h < 17 ==> !IsBooked(At(t.day, h), appts))
      ==> |RangeSlots(t, t, appts)| == 9
  {
    assert RangeSlots(NextDay(t), t, appts) == [];
    if 1 <= Weekday(t.day) <= 5 && (forall h :: 8 <= h < 17 ==> !IsBooked(At(t.day, h), appts)) {
      OpenDayUnbooked(t.day, appts);
    }
  }

  /** The walk depends on the appointments only through which date-times are booked. */
  lemma {:induction false} SameBookingsSameHours(day: int, hour: int, closeHour: int, a1: seq<Appointment>, a2: seq<Appointment>)
    requires forall t :: IsBooked(t, a1) <==> IsBooked(t, a2)
    ensures HourSlots(day, hour, closeHour, a1) == HourSlots(day, hour, closeHour, a2)
    decreases closeHour - hour
  {
    if hour < closeHour {
      SameBookingsSameHours(day, hour + 1, closeHour, a1, a2);
    }
  }

  lemma {:induction false} SameBookingsSameSlots(date: DateTime, end: DateTime, a1: seq<Appointment>, a2: seq<Appointment>)
    requires forall t :: IsBooked(t, a1) <==> IsBooked(t, a2)
    ensures RangeSlots(date, end, a1) == RangeSlots(date, end, a2)
    decreases end.day - date.day
  {
    if NotAfter(date, end) {
      SameBookingsSameSlots(NextDay(date), end, a1, a2);
      match HoursOn(Weekday(date.day))
      case None =>
      case Some(h) => SameBookingsSameHours(date.day, h.openHour, h.closeHour, a1, a2);
    }
  }

  /** A cancelled or completed appointment blocks nothing: adding one leaves every range's
      slots as they were. */
  lemma InactiveAppointmentBlocksNothing(start: DateTime, end: DateTime, appts: seq<Appointment>, a: Appointment)
    requires !IsActive(a.status)
    ensures RangeSlots(start, end, appts + [a]) == RangeSlots(start, end, appts)
  {
    forall t ensures IsBooked(t, appts + [a]) <==> IsBooked(t, appts) {
      AddAppointment(t, appts, a);
    }
    SameBookingsSameSlots(start, end, appts + [a], appts);
  }

  /** Booking an offered slot with an active status removes exactly that slot from the
      range's availability and leaves every other slot as it was. */
  lemma BookingRemovesOnlyThatSlot(start: DateTime, end: DateTime, appts: seq<Appointment>, s: Slot, id: nat, status: Status)
    requires s in RangeSlots(start, end, appts)
    requires IsActive(status)
    ensures forall s' :: s' in RangeSlots(start, end, appts + [Appointment(id, Datetime(s), status)]) <==>
      s' in RangeSlots(start, end, appts) && s' != s
  {
    var booked := appts + [Appointment(id, Datetime(s), status)];
    RangeSlotsCorrect(start, end, appts);
    RangeSlotsCorrect(start, end, booked);
    HoursWithinDay(Weekday(s.day));
    forall s' ensures s' in RangeSlots(start, end, booked) <==> s' in RangeSlots(start, end, appts) && s' != s {
      AddAppointment(Datetime(s'), appts, Appointment(id, Datetime(s), status));
      HoursWithinDay(Weekday(s'.day));
      if InBusinessHours(s') {
        AtOrder(s'.day, s'.hour, s.day, s.hour);
      }
    }
  }

  /** The conflict check on Monday 2024-06-10 (day 19884 of the epoch): an appointment at
      10:00 that is scheduled takes the 10:00 slot away; the same appointment cancelled
      does not. */
  lemma MondayTenOClock(start: DateTime, end: DateTime)
    requires start.day <= 19884 && NotAfter(DateTime(19884, start.time), end)
    ensures Weekday(19884) == 1
    ensures Slot(19884, 10) !in RangeSlots(start, end, [Appointment(1, At(19884, 10), Scheduled)])
    ensures Slot(19884, 10) in RangeSlots(start, end, [Appointment(1, At(19884, 10), Cancelled)])
  {
    assert Weekday(19884) == 1 by {
      assert 19884 + EPOCH_WEEKDAY == 7 * 2841 + 1;
    }
    var monday := Slot(19884, 10);
    var scheduled := [Appointment(1, At(19884, 10), Scheduled)];
    var cancelled := [Appointment(1, At(19884, 10), Cancelled)];
    assert IsBooked(Datetime(monday), scheduled) by {
      assert scheduled[0].scheduledDate == Datetime(monday);
    }
    assert !IsBooked(Datetime(monday), cancelled);
    assert InBusinessHours(monday);
    assert VisitedDay(start, end, monday.day);
    RangeSlotsMembers(start, end, scheduled, monday);
    RangeSlotsMembers(start, end, cancelled, monday);
  }
}
