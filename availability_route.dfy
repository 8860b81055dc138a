/** The `GET /api/availability` handler: validate the query, walk the requested range,
    and answer with the echoed time zone and the free slots. */
module AvailabilityRoute {
  import opened Wrappers
  import opened Calendar
  import opened Appointments
  import opened Slots

  const DEFAULT_TIMEZONE: string := "America/New_York"
  const MISSING_DATES: string := "startDate and endDate are required"

  /** What the handler sends: a 400 with an error message, or the success body
      `{success: true, timezone, slots}`. */
  datatype Response = BadRequest(error: string) | Success(timezone: string, slots: seq<Slot>)

  /** A query parameter fails `!param`: it is absent or the empty string. */
  predicate Missing(param: Option<string>)
  {
    param.None? || param.value == ""
  }

  /** The slots for two parsed dates. A date that does not parse (`Invalid Date`) compares
      false with everything, so the walk does not start and no slot is offered. */
  function SlotsBetween(start: Option<DateTime>, end: Option<DateTime>, appts: seq<Appointment>): (r: seq<Slot>)
    ensures start.None? || end.None? ==> r == []
    ensures StrictlyIncreasing(r)
    ensures forall s :: s in r <==> start.Some? && end.Some? && Available(start.value, end.value, appts, s)
  {
    if start.Some? && end.Some? then
      RangeSlotsCorrect(start.value, end.value, appts);
      RangeSlots(start.value, end.value, appts)
    else
      []
  }

  /** The handler. `parse` stands for `new Date(string)` (`None` for `Invalid Date`);
      `appts` is the `appointments` table, which the handler only reads. */
  method Availability(startDate: Option<string>, endDate: Option<string>, timezone: Option<string>,
                      parse: string -> Option<DateTime>, appts: seq<Appointment>) returns (r: Response)
    ensures r.BadRequest? <==> Missing(startDate) || Missing(endDate)
    ensures r.BadRequest? ==> r.error == MISSING_DATES
    ensures r.Success? ==> r.timezone == (if timezone.Some? then timezone.value else DEFAULT_TIMEZONE)
    ensures r.Success? ==> r.slots == SlotsBetween(parse(startDate.value), parse(endDate.value), appts)
  {
    if Missing(startDate) || Missing(endDate) {
      return BadRequest(MISSING_DATES);
    }
    var tz := if timezone.Some? then timezone.value else DEFAULT_TIMEZONE;
    var start := parse(startDate.value);
    var end := parse(endDate.value);
    var slots: seq<Slot> := [];
    if start.Some? && end.Some? {
      slots := GenerateSlots(start.value, end.value, appts);
    }
    r := Success(tz, slots);
  }

  /** Two identical requests against the same appointments get identical answers. */
  method RepeatedRequest(startDate: Option<string>, endDate: Option<string>, timezone: Option<string>,
                         parse: string -> Option<DateTime>, appts: seq<Appointment>) returns (r1: Response, r2: Response)
    ensures r1 == r2
  {
    r1 := Availability(startDate, endDate, timezone, parse, appts);
    r2 := Availability(startDate, endDate, timezone, parse, appts);
  }
}
