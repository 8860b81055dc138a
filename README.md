# Availability engine of the scheduling server

This project models the free-slot computation behind `GET /api/availability` in `server.js`, and proves properties of that model in Dafny.

The handler reads `startDate`, `endDate` and an optional `timezone` from the query. If either date is missing or empty, it answers 400. Otherwise it walks the calendar days from the start date-time while the date-time is not after the end. Each day it looks up a fixed weekly business-hours table: Sunday and Saturday are closed, Monday to Friday run from 8 to 17. On an open day it tries every whole hour from opening up to closing. For each hour it asks the `appointments` table whether an appointment is scheduled at exactly that date-time with a status other than cancelled or completed. It keeps the hour only if no such row exists. The answer echoes the time zone and lists the kept slots.

Modules, one per component of the handler:

- `Calendar` (`calendar.dfy`): a JavaScript `Date` as local wall-clock milliseconds. It is split into a calendar day (day 0 is 1970-01-01, a Thursday) and the milliseconds since that day's midnight. It defines `getDay`, `setDate(getDate() + 1)`, `setHours(hour, 0, 0, 0)` and the `<=` comparison of two dates.
- `BusinessHours` (`business_hours.dfy`): the `BUSINESS_HOURS` table.
- `Appointments` (`appointments.dfy`): statuses, the three columns the conflict query reads, and the query itself.
- `Slots` (`slots.dfy`): the walk. `HourSlots`, `DaySlots` and `RangeSlots` follow the loops day by day and hour by hour. `Available` is an order-independent reference definition of which slots are free. The methods `GenerateSlots` (the day loop) and `OpenDaySlots` (the hour loop of one open day, in its own method) are proved to compute the walk. The walk is proved to offer exactly the `Available` slots, in strictly increasing date-time order.
- `SlotProperties` (`properties.dfy`): what the walk promises callers.
- `AvailabilityRoute` (`availability_route.dfy`): validation, the time-zone default, the `Invalid Date` case and the response.

Three behaviours of the handler worth knowing:

- The walk starts at the start date-time, not at its midnight, and stops when the date-time passes `endDate`. So the end day is offered only if the end's time of day is not earlier than the start's (`SlotProperties.VisitedDays`).
- A slot in the response is `{date, time, datetime}`: one start time, with no end time.
- The conflict query is a test for exact equality. An appointment at 10:30 blocks no slot.

## Model

| member | source | states |
|---|---|---|
| `Calendar.FromMillis` | server.js:74-75 | every millisecond value of a `Date` is exactly one (day, time of day) pair, so the split loses nothing |
| `Calendar.MillisInjective` | server.js:74-75 | two (day, time of day) pairs are the same `Date` iff they are equal |
| `Calendar.NotAfterIsMillisOrder` | server.js:79 | the loop test `date <= end`, modelled as `NotAfter` on (day, time of day), agrees with comparing milliseconds |
| `Calendar.NextDay` | server.js:79 | `setDate(getDate() + 1)` adds exactly one day of milliseconds and keeps the time of day |
| `Calendar.Weekday` | server.js:80 | `getDay()` is a weekday number from 0 (Sunday) to 6 (Saturday) |
| `Calendar.WeekdayOfNextDay` | server.js:79-80 | stepping one day moves the weekday one forward, wrapping Saturday to Sunday |
| `Calendar.AtOnHour` | server.js:86-87 | `setHours(hour, 0, 0, 0)`, modelled as `At(day, hour)`, gives a date-time on that same day at `hour * 3600000` ms, with zero minutes, seconds and milliseconds |
| `Calendar.AtOrder` | server.js:85-87 | whole-hour date-times on hours 0..23 are ordered by day first and hour second, and they are equal only for the same day and hour |
| `BusinessHours.HoursOn` | server.js:64-72 | the lookup `BUSINESS_HOURS[dayOfWeek]` is closed exactly on Sunday (0) and Saturday (6), and otherwise gives opening hours 8 to 17 |
| `BusinessHours.HoursWithinDay` | server.js:64-72 | every open day opens and closes within one calendar day (0 <= open <= close <= 24) |
| `Appointments.BookedIds` | server.js:90-95 | the query returns at most one row per stored appointment (its exact rows are given by `BookedIdsExact`) |
| `Appointments.NoRowsIffFree` | server.js:90-97 | the query returns no row (`isBooked.rows.length === 0`) iff `IsBooked` is false: no appointment with a status outside {cancelled, completed} is scheduled at exactly that date-time |
| `Appointments.BookedIdsExact` | server.js:90-95 | an id is among the rows iff some appointment with that id is scheduled at exactly that date-time with an active status |
| `Appointments.AddAppointment` | server.js:92-93 | adding an appointment books a date-time iff it was booked before or the new one is active at exactly that time; a cancelled or completed one books nothing |
| `Slots.GenerateSlots` | server.js:76-105 | the day loop with its hour loop returns the walk `RangeSlots` (the day loop as a recursive function, with `DaySlots` for one day): exactly the available slots of the range, strictly increasing in date-time |
| `Slots.OpenDaySlots` | server.js:85-104 | the hour loop of an open day returns `HourSlots` (the hour loop as a recursive function) and keeps exactly the hours in [open, close) whose date-time no active appointment occupies, in hour order |
| `Slots.HourSlotsMembers` | server.js:85-98 | a slot comes out of `HourSlots`, the hour loop, iff it is on that day, its hour is in [hour, close), and it is not booked |
| `Slots.DaySlotsMembers` | server.js:80-98 | a slot comes out of `DaySlots`, one day of the walk, iff it is on that day, in its weekday's opening hours, and not booked |
| `Slots.VisitedStep` | server.js:79 | the walk from `date` reaches day `d` iff `d` is `date`'s own day (and `date <= end`) or the walk from the next day reaches it |
| `Slots.RangeSlotsMembers` | server.js:79-103 | a slot is in `RangeSlots`, the day loop, iff its day is walked, its hour is open, and no active appointment is at its date-time |
| `Slots.RangeSlotsCorrect` | server.js:79-105 | the walk offers exactly the `Available` slots, in strictly increasing date-time order |
| `Slots.HourSlotsIncreasing` | server.js:85 | the hour loop's output ascends strictly in date-time |
| `Slots.DaySlotsIncreasing` | server.js:80-87 | one day's output ascends strictly in date-time |
| `Slots.RangeSlotsIncreasing` | server.js:79-98 | the whole output ascends strictly in date-time: days ascend, hours ascend within a day, and no slot appears twice |
| `SlotProperties.ClosedDaysHaveNoSlots` | server.js:64-72 | for every range, no slot falls on a Sunday or a Saturday |
| `SlotProperties.SlotShape` | server.js:79-87 | every offered slot is on a weekday from Monday to Friday, at an hour from 8 to 16, on a day between the start day and the end day, with zero minutes, seconds and milliseconds |
| `SlotProperties.VisitedDays` | server.js:79 | the walked days are all days from the start day to before the end day, plus the end day iff the end's time of day is not before the start's |
| `SlotProperties.HourSlotsAllFree` | server.js:85-87 | with no active booking in [hour, close), the hour loop yields one slot per hour, `close - hour` of them, in order |
| `SlotProperties.OpenDayUnbooked` | server.js:66-70 | an open weekday with no active booking during its hours offers exactly the nine slots 8:00 to 16:00 |
| `SlotProperties.SingleDay` | server.js:79 | a range whose start equals its end offers only that day's slots: nine on an open, unbooked day |
| `SlotProperties.SameBookingsSameHours` | server.js:90-97 | the hour loop depends on the appointments only through which date-times are booked |
| `SlotProperties.SameBookingsSameSlots` | server.js:90-97 | the whole walk depends on the appointments only through which date-times are booked |
| `SlotProperties.InactiveAppointmentBlocksNothing` | server.js:92-93 | adding a cancelled or completed appointment leaves every range's slots unchanged |
| `SlotProperties.BookingRemovesOnlyThatSlot` | server.js:90-98 | once an offered slot is booked with an active status, the slot is no longer offered and every other slot is unaffected |
| `SlotProperties.MondayTenOClock` | server.js:90-97 | on Monday 2024-06-10, a scheduled appointment at 10:00 takes the 10:00 slot away, and the same appointment cancelled does not |
| `AvailabilityRoute.SlotsBetween` | server.js:74-79 | if either date fails to parse (`Invalid Date`), no slot is offered; otherwise the result is exactly the available slots, strictly increasing |
| `AvailabilityRoute.Availability` | server.js:55-111 | 400 with "startDate and endDate are required" iff a date parameter fails `!param` (`Missing`: absent or empty); otherwise success, with the given time zone or "America/New_York" when none was given, and the slots of the parsed range |
| `AvailabilityRoute.RepeatedRequest` | server.js:90-111 | two identical requests against the same appointments get identical responses; the handler only reads the appointments |

## Left out

- Express setup, middleware, static files, route mounting, `/health` and the listener (server.js:1-53, 119-131): HTTP plumbing with no logic.
- The `pg` pool, its startup connection test, and the 500 answer when a query throws (server.js:14-29, 113-116). The appointments table is a sequence the handler reads, and the query is a pure function over it, so a failing database is not modelled.
- Date parsing, time zones and daylight saving. `new Date(string)` is the parameter `parse`. The model takes a `Date` as local wall-clock time, where every day has 24 hours. Date-only strings that JavaScript reads as UTC midnight, `getDay` in the server's zone, and DST days of 23 or 25 hours are not modelled. The `timezone` parameter is only echoed, as in the code.
- String formatting of a slot (`toISOString`, `toTimeString`, server.js:99-101). A slot is its day and hour, and `Datetime` is its `datetime` value in milliseconds.
- Status values other than the four named ones, and a NULL status. A status string outside the four (such as 'pending') passes `NOT IN ('cancelled', 'completed')` and blocks the slot, as an active status does here. A NULL status makes `NOT IN` unknown, so the row is not returned and blocks nothing; the model has no NULL status, and the table schema is not part of this model.
- The appointment columns the query does not read (customer name, contact details, service type, notes).
- A repeated query parameter (`?startDate=a&startDate=b`), which Express delivers as an array.
- The booking route and the read-then-write race between availability and booking. `routes/appointments` is not part of this model, and the race is a concurrency matter.
- `utils/sms.js`: network calls through the Twilio client, and constant message templates.
- `public/BookingModal.jsx`: the React user interface, its fetch calls and its locale formatting.
- The hour loop is its own method, `OpenDaySlots`, called from the day loop in `GenerateSlots`, rather than nested inline. The behaviour is the same; the split keeps each proof small.
