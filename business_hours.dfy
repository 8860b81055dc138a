/** The fixed weekly opening-hours table of the availability handler. */
module BusinessHours {
  import opened Wrappers

  /** Opening hours of one weekday: slots start at every whole hour in [openHour, closeHour). */
  datatype Hours = Hours(openHour: nat, closeHour: nat)

  /** Keyed by weekday, Sunday = 0; `None` is a closed day. */
  const BUSINESS_HOURS: map<int, Option<Hours>> := map[
    0 := None,
    1 := Some(Hours(8, 17)),
    2 := Some(Hours(8, 17)),
    3 := Some(Hours(8, 17)),
    4 := Some(Hours(8, 17)),
    5 := Some(Hours(8, 17)),
    6 := None
  ]

  /** `BUSINESS_HOURS[dayOfWeek]` for a weekday as `getDay` returns it. */
  function HoursOn(weekday: int): (h: Option<Hours>)
    requires 0 <= weekday < 7
    ensures h.None? <==> weekday == 0 || weekday == 6
    ensures h.Some? ==> h.value == Hours(8, 17)
  {
    BUSINESS_HOURS[weekday]
  }

  /** Every open day opens and closes within one calendar day. */
  lemma HoursWithinDay(weekday: int)
    requires 0 <= weekday < 7
    ensures HoursOn(weekday).Some? ==>
      HoursOn(weekday).value.openHour <= HoursOn(weekday).value.closeHour <= 24
  {
  }
}
