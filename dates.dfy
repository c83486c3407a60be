/** JavaScript `Date` as the handlers use it, reduced to integer arithmetic.
    An instant is a count of milliseconds in local time; a calendar day is
    the floor of the instant divided by the length of a day. Time zones and
    daylight-saving shifts are not modelled. */
module Dates {
  import opened JsValues

  const MsPerDay: int := 86_400_000

  /** A `Date` object: a valid instant or the Invalid Date (time value NaN). */
  datatype JsDate = Valid(ms: int) | Invalid

  /** The result of `toDateString()`: the text of a calendar day, or "Invalid Date". */
  datatype DateText = DayText(day: int) | InvalidDate

  /** The calendar day an instant falls on. */
  function DayOf(t: int): int { t / MsPerDay }

  /** The instant `new Date(text)` gives for the `toDateString` text of day `d`: its local midnight. */
  function MidnightOf(d: int): int { d * MsPerDay }

  /** `new Date(p)`: a valid instant only for a parsed field; `new Date("")` and `new Date(undefined)` are invalid. */
  function NewDate(p: DateParam): JsDate {
    if p.Parsed? then Valid(p.instant) else Invalid
  }

  function ToDateString(d: JsDate): (r: DateText)
    ensures r.InvalidDate? <==> d.Invalid?
    ensures d.Valid? ==> MidnightOf(r.day) <= d.ms < MidnightOf(r.day) + MsPerDay
  {
    match d
    case Valid(t) => DayText(DayOf(t))
    case Invalid => InvalidDate
  }

  /** `setHours(0, 0, 0, 0)`: the first millisecond of the instant's day. */
  function SetStartOfDay(d: JsDate): (r: JsDate)
    ensures r.Invalid? <==> d.Invalid?
    ensures d.Valid? ==> r.ms <= d.ms && DayOf(r.ms) == DayOf(d.ms) && r.ms == MidnightOf(DayOf(d.ms))
  {
    match d
    case Valid(t) => Valid(MidnightOf(DayOf(t)))
    case Invalid => Invalid
  }

  /** `setHours(23, 59, 59, 999)`: the last millisecond of the instant's day. */
  function SetEndOfDay(d: JsDate): (r: JsDate)
    ensures r.Invalid? <==> d.Invalid?
    ensures d.Valid? ==> d.ms <= r.ms && DayOf(r.ms) == DayOf(d.ms) && r.ms + 1 == MidnightOf(DayOf(d.ms) + 1)
  {
    match d
    case Valid(t) => Valid(MidnightOf(DayOf(t)) + MsPerDay - 1)
    case Invalid => Invalid
  }

  /** `a >= b` on two `Date` objects: false as soon as either is invalid. */
  predicate AtLeast(a: JsDate, b: JsDate) {
    a.Valid? && b.Valid? && a.ms >= b.ms
  }

  /** `a <= b` on two `Date` objects. */
  predicate AtMost(a: JsDate, b: JsDate) {
    a.Valid? && b.Valid? && a.ms <= b.ms
  }

  /** Re-reading a stored day text gives back the same day: normalising is idempotent. */
  lemma DayOfMidnight(d: int)
    ensures DayOf(MidnightOf(d)) == d
    ensures ToDateString(Valid(MidnightOf(d))) == DayText(d)
  {
  }

  /** A stored day's midnight is at or after the start of the day of `t` exactly when the day is not earlier. */
  lemma MidnightFromStart(d: int, t: int)
    ensures MidnightOf(d) >= MidnightOf(DayOf(t)) <==> d >= DayOf(t)
  {
  }

  /** A stored day's midnight is at or before 23:59:59.999 of the day of `t` exactly when the day is not later. */
  lemma MidnightBeforeEnd(d: int, t: int)
    ensures MidnightOf(d) <= MidnightOf(DayOf(t)) + MsPerDay - 1 <==> d <= DayOf(t)
  {
  }
}
