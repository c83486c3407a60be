/** `POST /api/users/:_id/exercises`: the date and duration a new exercise is
    stored with, and the two callbacks of the handler. The route file under
    routes/ checks the date with `Date.parse`; index.js and the router under
    middlewares/ do not. */
module Exercises {
  import opened JsValues
  import opened Dates
  import opened Records

  const InsertExercise := "INSERT INTO exercises (user_id, description, duration, date) VALUES (?, ?, ?, ?)"

  /** `date && !isNaN(Date.parse(date)) ? new Date(date) : new Date()`, with `now` the current instant. */
  function CheckedExerciseDate(date: DateParam, now: int): JsDate {
    if Truthy(date) && date.Parsed? then Valid(date.instant) else Valid(now)
  }

  /** `date ? new Date(date) : new Date()`: a non-empty but unparseable date is kept as the Invalid Date. */
  function UncheckedExerciseDate(date: DateParam, now: int): JsDate {
    if Truthy(date) then NewDate(date) else Valid(now)
  }

  /** With the check, the stored text is always a real day: the given one when it parses, today's otherwise. */
  lemma CheckedDateIsDay(date: DateParam, now: int)
    ensures ToDateString(CheckedExerciseDate(date, now)) ==
      if date.Parsed? then DayText(DayOf(date.instant)) else DayText(DayOf(now))
    ensures !ToDateString(CheckedExerciseDate(date, now)).InvalidDate?
  {
  }

  /** Without the check, "Invalid Date" is stored exactly when a non-empty date fails to parse. */
  lemma UncheckedDateText(date: DateParam, now: int)
    ensures ToDateString(UncheckedExerciseDate(date, now)).InvalidDate? <==> date.Unparseable?
    ensures date.Parsed? ==> ToDateString(UncheckedExerciseDate(date, now)) == DayText(DayOf(date.instant))
    ensures date.Absent? ==> ToDateString(UncheckedExerciseDate(date, now)) == DayText(DayOf(now))
  {
  }

  /** The two date rules agree except on a non-empty date that does not parse. */
  lemma DateRulesAgreeUnlessUnparseable(date: DateParam, now: int)
    ensures CheckedExerciseDate(date, now) == UncheckedExerciseDate(date, now) <==> !date.Unparseable?
  {
  }

  /** The callback of the user lookup: 500 or 404 without an insert, otherwise the insert of the exercise
      with the parsed duration and the formatted date. */
  function PostExerciseOnUser(userId: string, description: string, duration: JsInt, date: DateText,
                              user: DbResult<Option<string>>): (step: Step)
    ensures step.Query? <==> user.DbOk? && user.value.Some?
    ensures user.DbError? ==> step == Respond(ServerError())
    ensures user == DbOk(None) ==> step == Respond(Response(404, Error(UserNotFound)))
    ensures step.Query? ==>
      step.sql == InsertExercise && step.params == [Text(userId), Text(description), Number(duration), DateValue(date)]
  {
    OnUserLookup(user, Query(InsertExercise, [Text(userId), Text(description), Number(duration), DateValue(date)]))
  }

  /** The callback of the insert: 500 on an error, otherwise the stored exercise echoed back. */
  function PostExerciseOnInsert(userId: string, username: string, description: string, duration: JsInt,
                                date: DateText, err: bool): (r: Response)
    ensures err ==> r == ServerError()
    ensures !err ==> r.status == 200 && r.body.ExerciseAdded?
    ensures !err ==> r.body.userId == userId && r.body.username == username && r.body.description == description
    ensures !err ==> r.body.duration == duration && r.body.date == date
  {
    if err then ServerError() else Response(200, ExerciseAdded(userId, username, description, duration, date))
  }

  /** The insert and the echoed body carry the same date and the same `parseInt(duration)`,
      and the date is `toDateString` of the chosen `Date`. */
  lemma StoredMatchesEchoed(userId: string, username: string, description: string,
                            duration: JsInt, date: DateParam, now: int, checked: bool)
    ensures var d := if checked then CheckedExerciseDate(date, now) else UncheckedExerciseDate(date, now);
      var text := ToDateString(d);
      var step := PostExerciseOnUser(userId, description, duration, text, DbOk(Some(username)));
      var r := PostExerciseOnInsert(userId, username, description, duration, text, false);
      step.Query? && step.params[2] == Number(r.body.duration) && step.params[3] == DateValue(r.body.date)
  {
  }
}
