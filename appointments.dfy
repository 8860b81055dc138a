/** The stored appointments as far as the availability conflict check reads them:
    the `id`, `scheduled_date` and `status` columns of the `appointments` table. */
module Appointments {

  datatype Status = Scheduled | Confirmed | Cancelled | Completed

  datatype Appointment = Appointment(id: nat, scheduledDate: int, status: Status)

  /** A status outside {cancelled, completed} still occupies its time. */
  predicate IsActive(s: Status)
  {
    s != Cancelled && s != Completed
  }

  /** `SELECT id FROM appointments WHERE scheduled_date = t AND status NOT IN
      ('cancelled', 'completed')`, rows in table order. */
  function BookedIds(t: int, appts: seq<Appointment>): (rows: seq<nat>)
    ensures |rows| <= |appts|
  {
    if appts == [] then []
    else
      (if appts[0].scheduledDate == t && IsActive(appts[0].status) then [appts[0].id] else [])
      + BookedIds(t, appts[1..])
  }

  /** Some active appointment is scheduled at exactly `t`. */
  predicate IsBooked(t: int, appts: seq<Appointment>)
  {
    exists i :: 0 <= i < |appts| && appts[i].scheduledDate == t && IsActive(appts[i].status)
  }

  /** The query returns no row exactly when no active appointment is scheduled at `t`. */
  lemma {:induction false} NoRowsIffFree(t: int, appts: seq<Appointment>)
    ensures |BookedIds(t, appts)| == 0 <==> !IsBooked(t, appts)
  {
    if appts != [] {
      NoRowsIffFree(t, appts[1..]);
      if IsBooked(t, appts[1..]) {
        var i :| 0 <= i < |appts[1..]| && appts[1..][i].scheduledDate == t && IsActive(appts[1..][i].status);
        assert appts[i + 1] == appts[1..][i];
      }
      if IsBooked(t, appts) && !(appts[0].scheduledDate == t && IsActive(appts[0].status)) {
        var i :| 0 <= i < |appts| && appts[i].scheduledDate == t && IsActive(appts[i].status);
        assert i > 0 && appts[1..][i - 1] == appts[i];
      }
    }
  }

  /** The rows are exactly the ids of the active appointments at `t`. */
  lemma {:induction false} BookedIdsExact(t: int, appts: seq<Appointment>, x: nat)
    ensures x in BookedIds(t, appts) <==>
      exists i :: 0 <= i < |appts| && appts[i].id == x && appts[i].scheduledDate == t && IsActive(appts[i].status)
  {
    if appts != [] {
      BookedIdsExact(t, appts[1..], x);
      if exists i :: 0 <= i < |appts[1..]| && appts[1..][i].id == x && appts[1..][i].scheduledDate == t && IsActive(appts[1..][i].status) {
        var i :| 0 <= i < |appts[1..]| && appts[1..][i].id == x && appts[1..][i].scheduledDate == t && IsActive(appts[1..][i].status);
        assert appts[i + 1] == appts[1..][i];
      }
      if exists i :: 0 <= i < |appts| && appts[i].id == x && appts[i].scheduledDate == t && IsActive(appts[i].status) {
        var i :| 0 <= i < |appts| && appts[i].id == x && appts[i].scheduledDate == t && IsActive(appts[i].status);
        if i > 0 { assert appts[1..][i - 1] == appts[i]; }
      }
    }
  }

  /** Adding a cancelled or completed appointment changes no conflict; adding an active one
      books exactly its own time. */
  lemma AddAppointment(t: int, appts: seq<Appointment>, a: Appointment)
    ensures IsBooked(t, appts + [a]) <==> IsBooked(t, appts) || (a.scheduledDate == t && IsActive(a.status))
  {
    var all := appts + [a];
    if IsBooked(t, all) && !(a.scheduledDate == t && IsActive(a.status)) {
      var i :| 0 <= i < |all| && all[i].scheduledDate == t && IsActive(all[i].status);
      assert i < |appts| && all[i] == appts[i];
    }
    if IsBooked(t, appts) {
      var i :| 0 <= i < |appts| && appts[i].scheduledDate == t && IsActive(appts[i].status);
      assert all[i] == appts[i];
    }
    if a.scheduledDate == t && IsActive(a.status) {
      assert all[|appts|] == a;
    }
  }
}
