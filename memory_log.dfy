/** `GET /api/users/:_id/logs` as routes/userRoutes.js writes it: all of the
    user's rows are fetched, sorted in place by date, narrowed to an
    inclusive day window, counted, capped with `slice(0, parseInt(limit))`
    and projected. */
module MemoryLog {
  import opened JsValues
  import opened Dates
  import opened Records

  // ---------------------------------------------------------------------
  // Sorting: `logs.sort((a, b) => new Date(a.date) - new Date(b.date))`
  // ---------------------------------------------------------------------

  /** The comparator: positive when `a` must come after `b`. */
  function Compare(a: Exercise, b: Exercise): int {
    MidnightOf(a.date) - MidnightOf(b.date)
  }

  lemma CompareIsByDay(a: Exercise, b: Exercise)
    ensures Compare(a, b) > 0 <==> a.date > b.date
    ensures Compare(a, b) == 0 <==> a.date == b.date
  {
  }

  predicate SortedByDate(s: seq<Exercise>) {
    forall i, j :: 0 <= i < j < |s| ==> s[i].date <= s[j].date
  }

  /** The rows of `s` that fall on day `d`, in their order in `s`. */
  function OnDay(s: seq<Exercise>, d: int): seq<Exercise> {
    if s == [] then [] else (if s[0].date == d then [s[0]] else []) + OnDay(s[1..], d)
  }

  /** Places `x` after every element of the sorted `s` that the comparator does not put after it. */
  function Insert(s: seq<Exercise>, x: Exercise): seq<Exercise>
    decreases |s|
  {
    if s == [] || Compare(s[|s| - 1], x) <= 0 then s + [x]
    else Insert(s[..|s| - 1], x) + [s[|s| - 1]]
  }

  /** The stable sort by date, as an insertion sort from the left. */
  function SortByDate(s: seq<Exercise>): seq<Exercise>
    decreases |s|
  {
    if s == [] then [] else Insert(SortByDate(s[..|s| - 1]), s[|s| - 1])
  }

  lemma {:induction false} OnDayAppend(a: seq<Exercise>, b: seq<Exercise>, d: int)
    ensures OnDay(a + b, d) == OnDay(a, d) + OnDay(b, d)
    decreases |a|
  {
    if a == [] {
      assert a + b == b;
    } else {
      var h := if a[0].date == d then [a[0]] else [];
      assert (a + b)[0] == a[0] && (a + b)[1..] == a[1..] + b;
      OnDayAppend(a[1..], b, d);
      AppendAssoc(h, OnDay(a[1..], d), OnDay(b, d));
    }
  }

  lemma AppendAssoc(x: seq<Exercise>, y: seq<Exercise>, z: seq<Exercise>)
    ensures x + (y + z) == (x + y) + z
  {
  }

  lemma {:induction false} OnDayMissing(s: seq<Exercise>, d: int)
    requires forall i :: 0 <= i < |s| ==> s[i].date != d
    ensures OnDay(s, d) == []
    decreases |s|
  {
    if s != [] {
      OnDayMissing(s[1..], d);
    }
  }

  lemma {:induction false} InsertMultiset(s: seq<Exercise>, x: Exercise)
    ensures multiset(Insert(s, x)) == multiset(s) + multiset{x}
    decreases |s|
  {
    if !(s == [] || Compare(s[|s| - 1], x) <= 0) {
      var init, last := s[..|s| - 1], s[|s| - 1];
      assert s == init + [last];
      InsertMultiset(init, x);
    }
  }

  lemma {:induction false} InsertOnDay(s: seq<Exercise>, x: Exercise, d: int)
    ensures OnDay(Insert(s, x), d) == OnDay(s, d) + OnDay([x], d)
    decreases |s|
  {
    if s == [] || Compare(s[|s| - 1], x) <= 0 {
      OnDayAppend(s, [x], d);
    } else {
      var init, last := s[..|s| - 1], s[|s| - 1];
      assert s == init + [last];
      CompareIsByDay(last, x);
      InsertOnDay(init, x, d);
      OnDayAppend(Insert(init, x), [last], d);
      OnDayAppend(init, [last], d);
      if x.date == d {
        assert OnDay([last], d) == [];
      } else {
        assert OnDay([x], d) == [];
      }
    }
  }

  lemma {:induction false} InsertSorted(s: seq<Exercise>, x: Exercise)
    requires SortedByDate(s)
    ensures SortedByDate(Insert(s, x))
    decreases |s|
  {
    if s == [] || Compare(s[|s| - 1], x) <= 0 {
      if s != [] {
        CompareIsByDay(s[|s| - 1], x);
      }
    } else {
      var init, last := s[..|s| - 1], s[|s| - 1];
      CompareIsByDay(last, x);
      InsertSorted(init, x);
      InsertMultiset(init, x);
      var t := Insert(init, x);
      forall i | 0 <= i < |t| ensures t[i].date <= last.date {
        assert t[i] in multiset(t);
        assert t[i] in multiset(init) || t[i] == x;
      }
    }
  }

  /** The sort's result is ordered, is a permutation of its input, and keeps
      the rows of each day in their input order (stability). */
  lemma {:induction false} SortByDateFacts(s: seq<Exercise>)
    ensures SortedByDate(SortByDate(s))
    ensures multiset(SortByDate(s)) == multiset(s)
    ensures forall d :: OnDay(SortByDate(s), d) == OnDay(s, d)
    decreases |s|
  {
    if s != [] {
      var init, last := s[..|s| - 1], s[|s| - 1];
      assert s == init + [last];
      SortByDateFacts(init);
      InsertSorted(SortByDate(init), last);
      InsertMultiset(SortByDate(init), last);
      forall d ensures OnDay(SortByDate(s), d) == OnDay(s, d) {
        InsertOnDay(SortByDate(init), last, d);
        OnDayAppend(init, [last], d);
      }
    }
  }

  /** Two date-ordered sequences that agree on the rows of every day are equal. */
  lemma {:induction false} SortedUnique(a: seq<Exercise>, b: seq<Exercise>)
    requires SortedByDate(a) && SortedByDate(b)
    requires forall d :: OnDay(a, d) == OnDay(b, d)
    ensures a == b
    decreases |a|
  {
    if a != [] {
      OnDayHead(a);
    }
    if b != [] {
      OnDayHead(b);
    }
    if a != [] && b != [] {
      var m, n := a[0].date, b[0].date;
      if m < n {
        OnDayMissing(b, m);
      } else if n < m {
        OnDayMissing(a, n);
      }
      assert OnDay(a, m)[0] == a[0] && OnDay(b, m)[0] == b[0];
      forall d ensures OnDay(a[1..], d) == OnDay(b[1..], d) {
        var h := if m == d then [a[0]] else [];
        assert OnDay(a, d) == h + OnDay(a[1..], d);
        assert OnDay(b, d) == h + OnDay(b[1..], d);
        assert (h + OnDay(a[1..], d))[|h|..] == OnDay(a[1..], d);
        assert (h + OnDay(b[1..], d))[|h|..] == OnDay(b[1..], d);
      }
      SortedTail(a);
      SortedTail(b);
      SortedUnique(a[1..], b[1..]);
      assert a == [a[0]] + a[1..] && b == [b[0]] + b[1..];
    }
  }

  lemma OnDayHead(s: seq<Exercise>)
    requires s != []
    ensures OnDay(s, s[0].date) != []
  {
  }

  lemma SortedTail(s: seq<Exercise>)
    requires s != [] && SortedByDate(s)
    ensures SortedByDate(s[1..])
  {
    forall i, j | 0 <= i < j < |s| - 1 ensures s[1..][i].date <= s[1..][j].date {
      assert s[1..][i] == s[i + 1] && s[1..][j] == s[j + 1];
    }
  }

  /** Every stable sort by date gives the same order as SortByDate: whatever algorithm the
      JavaScript engine uses, the order it must produce is this one. */
  lemma StableSortIsSortByDate(s: seq<Exercise>, t: seq<Exercise>)
    requires SortedByDate(t)
    requires forall d :: OnDay(t, d) == OnDay(s, d)
    ensures t == SortByDate(s)
  {
    SortByDateFacts(s);
    SortedUnique(t, SortByDate(s));
  }

  /** Where the inner loop stops, `x` goes: after `p[..j]`, whose last element the comparator does not
      put after `x`, and before `p[j..]`, all of which it does. */
  lemma {:induction false} InsertSplit(p: seq<Exercise>, j: nat, x: Exercise)
    requires j <= |p|
    requires j == 0 || Compare(p[j - 1], x) <= 0
    requires forall k :: j <= k < |p| ==> Compare(p[k], x) > 0
    ensures Insert(p, x) == p[..j] + [x] + p[j..]
    decreases |p|
  {
    if j == |p| {
      assert p[..j] == p && p[j..] == [];
    } else {
      var init, last := p[..|p| - 1], p[|p| - 1];
      InsertSplit(init, j, x);
      assert init[..j] == p[..j];
      assert p[j..] == init[j..] + [last];
    }
  }

  /** The in-place sort of the fetched rows: a stable insertion sort. */
  method SortInPlace(a: array<Exercise>)
    modifies a
    ensures a[..] == SortByDate(old(a[..]))
  {
    ghost var orig := a[..];
    var i := 0;
    while i < a.Length
      invariant 0 <= i <= a.Length
      invariant a[..i] == SortByDate(orig[..i])
      invariant forall k :: i <= k < a.Length ==> a[k] == orig[k]
    {
      SortStep(orig, i);
      InsertAt(a, i);
      i := i + 1;
    }
    assert a[..] == a[..a.Length] && orig == orig[..a.Length];
  }

  /** Inserts `a[i]` into the sorted run `a[..i]`, shifting the larger rows one place right. */
  method InsertAt(a: array<Exercise>, i: nat)
    requires i < a.Length
    modifies a
    ensures a[..i + 1] == Insert(old(a[..i]), old(a[i]))
    ensures forall k :: i < k < a.Length ==> a[k] == old(a[k])
  {
    var key := a[i];
    ghost var prefix := a[..i];
    var j := i;
    while j > 0 && Compare(a[j - 1], key) > 0
      invariant 0 <= j <= i
      invariant forall k :: 0 <= k < j ==> a[k] == prefix[k]
      invariant forall k :: j < k <= i ==> a[k] == prefix[k - 1]
      invariant forall k :: i < k < a.Length ==> a[k] == old(a[k])
      invariant forall k :: j <= k < i ==> Compare(prefix[k], key) > 0
    {
      a[j] := a[j - 1];
      j := j - 1;
    }
    InsertSplit(prefix, j, key);
    a[j] := key;
    Placed(a[..i + 1], prefix, j, key);
  }

  /** After the shifts, the run reads as the old run with `x` placed at `j`. */
  lemma Placed(r: seq<Exercise>, p: seq<Exercise>, j: nat, x: Exercise)
    requires |r| == |p| + 1 && j <= |p| && r[j] == x
    requires forall k :: 0 <= k < j ==> r[k] == p[k]
    requires forall k :: j < k < |r| ==> r[k] == p[k - 1]
    ensures r == p[..j] + [x] + p[j..]
  {
  }

  lemma SortStep(s: seq<Exercise>, i: nat)
    requires i < |s|
    ensures SortByDate(s[..i + 1]) == Insert(SortByDate(s[..i]), s[i])
  {
    assert s[..i + 1][..i] == s[..i];
  }

  // ---------------------------------------------------------------------
  // Day window: `fromDate`, `toDate` and `logs.filter(...)`
  // ---------------------------------------------------------------------

  /** `from ? new Date(new Date(from).setHours(0, 0, 0, 0)) : null`. */
  function FromBound(from: DateParam): Option<JsDate> {
    if Truthy(from) then Some(SetStartOfDay(NewDate(from))) else None
  }

  /** `to ? new Date(new Date(to).setHours(23, 59, 59, 999)) : null`. */
  function ToBound(to: DateParam): Option<JsDate> {
    if Truthy(to) then Some(SetEndOfDay(NewDate(to))) else None
  }

  /** The filter callback on a row dated `day`:
      `(!fromDate || logDate >= fromDate) && (!toDate || logDate <= toDate)`. */
  predicate KeepDay(day: int, fromDate: Option<JsDate>, toDate: Option<JsDate>) {
    var logDate := Valid(MidnightOf(day));
    (fromDate.None? || AtLeast(logDate, fromDate.value)) && (toDate.None? || AtMost(logDate, toDate.value))
  }

  /** `logs.filter(...)`. */
  function Filter(rows: seq<Exercise>, fromDate: Option<JsDate>, toDate: Option<JsDate>): seq<Exercise> {
    if rows == [] then []
    else (if KeepDay(rows[0].date, fromDate, toDate) then [rows[0]] else []) + Filter(rows[1..], fromDate, toDate)
  }

  /** The day-level reading of the bounds: no `from` or a day not before `from`'s day, and
      no `to` or a day not after `to`'s day; a non-empty bound that does not parse admits no day. */
  predicate InDayWindow(day: int, from: DateParam, to: DateParam) {
    && (from.Absent? || (from.Parsed? && DayOf(from.instant) <= day))
    && (to.Absent? || (to.Parsed? && day <= DayOf(to.instant)))
  }

  /** The millisecond bounds select exactly the days of the inclusive window. */
  lemma KeepIffInDayWindow(day: int, from: DateParam, to: DateParam)
    ensures KeepDay(day, FromBound(from), ToBound(to)) <==> InDayWindow(day, from, to)
  {
    if from.Parsed? {
      MidnightFromStart(day, from.instant);
    }
    if to.Parsed? {
      MidnightBeforeEnd(day, to.instant);
    }
  }

  /** Order-preserving subsequence. */
  predicate IsSubsequence(a: seq<Exercise>, b: seq<Exercise>)
    decreases |b|
  {
    if a == [] then true
    else if b == [] then false
    else if a[0] == b[0] then IsSubsequence(a[1..], b[1..])
    else IsSubsequence(a, b[1..])
  }

  /** The filter keeps exactly the rows whose day passes the callback. */
  lemma {:induction false} FilterMembers(rows: seq<Exercise>, fromDate: Option<JsDate>, toDate: Option<JsDate>)
    ensures forall x :: x in Filter(rows, fromDate, toDate) <==> x in rows && KeepDay(x.date, fromDate, toDate)
    decreases |rows|
  {
    if rows != [] {
      FilterMembers(rows[1..], fromDate, toDate);
      assert rows == [rows[0]] + rows[1..];
    }
  }

  /** The filter is an order-preserving subsequence of its input. */
  lemma {:induction false} FilterSubsequence(rows: seq<Exercise>, fromDate: Option<JsDate>, toDate: Option<JsDate>)
    ensures IsSubsequence(Filter(rows, fromDate, toDate), rows)
    decreases |rows|
  {
    if rows != [] {
      var ft := Filter(rows[1..], fromDate, toDate);
      FilterSubsequence(rows[1..], fromDate, toDate);
      if KeepDay(rows[0].date, fromDate, toDate) {
        assert Filter(rows, fromDate, toDate) == [rows[0]] + ft;
      } else if ft != [] {
        FilterMembers(rows[1..], fromDate, toDate);
        assert ft[0] in ft && ft[0] != rows[0];
        assert Filter(rows, fromDate, toDate) == ft;
      }
    }
  }

  /** A day's rows are all kept or all dropped, in their input order. */
  lemma {:induction false} FilterOnDay(rows: seq<Exercise>, fromDate: Option<JsDate>, toDate: Option<JsDate>, d: int)
    ensures OnDay(Filter(rows, fromDate, toDate), d) == if KeepDay(d, fromDate, toDate) then OnDay(rows, d) else []
    decreases |rows|
  {
    if rows != [] {
      var head := if KeepDay(rows[0].date, fromDate, toDate) then [rows[0]] else [];
      FilterOnDay(rows[1..], fromDate, toDate, d);
      OnDayAppend(head, Filter(rows[1..], fromDate, toDate), d);
    }
  }

  /** Filtering a date-ordered sequence leaves it date-ordered. */
  lemma {:induction false} FilterSorted(rows: seq<Exercise>, fromDate: Option<JsDate>, toDate: Option<JsDate>)
    requires SortedByDate(rows)
    ensures SortedByDate(Filter(rows, fromDate, toDate))
    decreases |rows|
  {
    if rows != [] {
      SortedTail(rows);
      FilterSorted(rows[1..], fromDate, toDate);
      FilterMembers(rows[1..], fromDate, toDate);
      var ft := Filter(rows[1..], fromDate, toDate);
      forall j | 0 <= j < |ft| ensures rows[0].date <= ft[j].date {
        assert ft[j] in rows[1..];
      }
    }
  }

  /** Without `from` and `to` the filter keeps every row, in order. */
  lemma {:induction false} FilterWithoutBounds(rows: seq<Exercise>)
    ensures Filter(rows, FromBound(Absent), ToBound(Absent)) == rows
    decreases |rows|
  {
    if rows != [] {
      FilterWithoutBounds(rows[1..]);
      assert rows == [rows[0]] + rows[1..];
    }
  }

  /** A window whose `from` day is after its `to` day keeps nothing; so does a non-empty bound
      that does not parse, since every comparison with the Invalid Date is false. */
  lemma EmptyWindows(rows: seq<Exercise>, from: DateParam, to: DateParam)
    requires (from.Parsed? && to.Parsed? && DayOf(from.instant) > DayOf(to.instant))
          || from.Unparseable? || to.Unparseable?
    ensures Filter(rows, FromBound(from), ToBound(to)) == []
  {
    var f := Filter(rows, FromBound(from), ToBound(to));
    FilterMembers(rows, FromBound(from), ToBound(to));
    if f != [] {
      KeepIffInDayWindow(f[0].date, from, to);
      assert false;
    }
  }

  // ---------------------------------------------------------------------
  // Count, cap and response
  // ---------------------------------------------------------------------

  /** `limit ? filtered.slice(0, parseInt(limit)) : filtered`. */
  function Cap(filtered: seq<Exercise>, limit: LimitParam): seq<Exercise> {
    match limit
    case NoLimit => filtered
    case Limit(n) => SliceFromStart(filtered, n)
  }

  /** The cap only ever takes a prefix: all of it without `limit`, the first min(n, count) rows for
      a limit that parses to n >= 0, nothing for one that does not parse, and all but the last -n
      rows for a negative one. */
  lemma CapFacts(filtered: seq<Exercise>, limit: LimitParam)
    ensures var r := Cap(filtered, limit);
      && |r| <= |filtered| && r == filtered[..|r|]
      && (limit.NoLimit? ==> r == filtered)
      && (limit.Limit? && limit.parsed.Int? && 0 <= limit.parsed.value ==>
            r == filtered[..Min(limit.parsed.value, |filtered|)])
      && (limit == Limit(NaN) ==> r == [])
      && (limit.Limit? && limit.parsed.Int? && limit.parsed.value < 0 ==>
            r == filtered[..Max(|filtered| + limit.parsed.value, 0)])
  {
  }

  /** The sorted rows inside the window, before the cap. */
  function Windowed(rows: seq<Exercise>, from: DateParam, to: DateParam): seq<Exercise> {
    Filter(SortByDate(rows), FromBound(from), ToBound(to))
  }

  /** The body of a successful logs response. */
  function LogBody(userId: string, username: string, rows: seq<Exercise>,
                   from: DateParam, to: DateParam, limit: LimitParam): Body {
    var filtered := Windowed(rows, from, to);
    Log(userId, username, |filtered|, Project(Cap(filtered, limit)))
  }

  /** The first callback: after the user lookup, the query for all of the user's rows, with no
      date condition and no order. */
  function LogsOnUser(userId: string, user: DbResult<Option<string>>): (step: Step)
    ensures step.Query? <==> user.DbOk? && user.value.Some?
    ensures user.DbError? ==> step == Respond(ServerError())
    ensures user == DbOk(None) ==> step == Respond(Response(404, Error(UserNotFound)))
    ensures step.Query? ==> step.sql == ExerciseRowsQuery && step.params == [Text(userId)]
  {
    OnUserLookup(user, Query(ExerciseRowsQuery, [Text(userId)]))
  }

  /** The second callback: sorts the fetched rows in place and answers with the count of the
      window and the capped, projected log. */
  method LogsOnRows(userId: string, username: string, fetched: DbResult<seq<Exercise>>,
                    from: DateParam, to: DateParam, limit: LimitParam) returns (r: Response)
    ensures fetched.DbError? ==> r == ServerError()
    ensures fetched.DbOk? ==> r == Response(200, LogBody(userId, username, fetched.value, from, to, limit))
  {
    match fetched
    case DbError =>
      r := ServerError();
    case DbOk(rows) =>
      var logs := new Exercise[|rows|](i requires 0 <= i < |rows| => rows[i]);
      assert logs[..] == rows;
      SortInPlace(logs);
      var filtered := Filter(logs[..], FromBound(from), ToBound(to));
      var totalCount := |filtered|;
      var limited := Cap(filtered, limit);
      r := Response(200, Log(userId, username, totalCount, Project(limited)));
  }

  // ---------------------------------------------------------------------
  // Properties of the whole pipeline
  // ---------------------------------------------------------------------

  /** `count` is the size of the window and does not depend on `limit`; the log is never longer,
      is the whole window without `limit`, and is cut to the limit when one is given. */
  lemma CountIsBeforeCap(userId: string, username: string, rows: seq<Exercise>,
                         from: DateParam, to: DateParam, limit: LimitParam, other: LimitParam)
    ensures var b := LogBody(userId, username, rows, from, to, limit);
      && b.count == |Windowed(rows, from, to)|
      && b.count == LogBody(userId, username, rows, from, to, other).count
      && |b.log| <= b.count
      && (limit.NoLimit? ==> |b.log| == b.count)
      && (limit.Limit? && limit.parsed.Int? && 0 <= limit.parsed.value ==>
            |b.log| == Min(limit.parsed.value, b.count))
  {
    CapFacts(Windowed(rows, from, to), limit);
  }

  /** The window holds, in date order, exactly the fetched rows whose day is in range, the rows of
      each day in store order; it is a subsequence of the sorted rows, and all of them when neither
      `from` nor `to` is given. */
  lemma WindowFacts(rows: seq<Exercise>, from: DateParam, to: DateParam)
    ensures var w := Windowed(rows, from, to);
      && SortedByDate(w)
      && IsSubsequence(w, SortByDate(rows))
      && (forall x :: x in w <==> x in rows && InDayWindow(x.date, from, to))
      && (forall d :: OnDay(w, d) == if InDayWindow(d, from, to) then OnDay(rows, d) else [])
      && (from.Absent? && to.Absent? ==> w == SortByDate(rows))
  {
    var s := SortByDate(rows);
    var fb, tb := FromBound(from), ToBound(to);
    var w := Windowed(rows, from, to);
    SortByDateFacts(rows);
    FilterSorted(s, fb, tb);
    FilterSubsequence(s, fb, tb);
    FilterMembers(s, fb, tb);
    forall x ensures x in w <==> x in rows && InDayWindow(x.date, from, to) {
      assert x in s <==> x in multiset(s);
      KeepIffInDayWindow(x.date, from, to);
    }
    forall d ensures OnDay(w, d) == if InDayWindow(d, from, to) then OnDay(rows, d) else [] {
      FilterOnDay(s, fb, tb, d);
      KeepIffInDayWindow(d, from, to);
    }
    if from.Absent? && to.Absent? {
      FilterWithoutBounds(s);
    }
  }

  /** The log is the projection of a prefix of the window. */
  lemma LogIsPrefixOfWindow(userId: string, username: string, rows: seq<Exercise>,
                            from: DateParam, to: DateParam, limit: LimitParam)
    ensures var w := Windowed(rows, from, to);
      var b := LogBody(userId, username, rows, from, to, limit);
      |b.log| <= |w| && b.log == Project(w)[..|b.log|]
  {
    var w := Windowed(rows, from, to);
    CapFacts(w, limit);
    ProjectPrefix(w, |Cap(w, limit)|);
  }

  /** A worked case: rows dated April 1, 3 and 2 (in store order), `from` April 1, `to` April 2,
      `limit=1`: the window holds April 1 and 2, `count` is 2 and the log holds April 1 only. */
  lemma CountedBeforeCapExample()
    ensures var apr1 := 19814;
      var rows := [Exercise(1, "a", 30, apr1), Exercise(2, "b", 30, apr1 + 2), Exercise(3, "c", 30, apr1 + 1)];
      var b := LogBody("1", "u", rows, Parsed(MidnightOf(apr1)), Parsed(MidnightOf(apr1 + 1)), Limit(Int(1)));
      b.count == 2 && b.log == [LogEntry("a", 30, DayText(apr1))]
  {
    var apr1 := 19814;
    var e1, e2, e3 := Exercise(1, "a", 30, apr1), Exercise(2, "b", 30, apr1 + 2), Exercise(3, "c", 30, apr1 + 1);
    var rows := [e1, e2, e3];
    assert rows[..2] == [e1, e2] && rows[..2][..1] == [e1];
    assert SortByDate([e1]) == [e1];
    assert SortByDate([e1, e2]) == [e1, e2];
    assert Insert([e1, e2], e3) == [e1, e3, e2];
    assert SortByDate(rows) == [e1, e3, e2];
    var from, to := Parsed(MidnightOf(apr1)), Parsed(MidnightOf(apr1 + 1));
    var fb, tb := FromBound(from), ToBound(to);
    DayOfMidnight(apr1);
    DayOfMidnight(apr1 + 1);
    KeepIffInDayWindow(e1.date, from, to);
    KeepIffInDayWindow(e2.date, from, to);
    KeepIffInDayWindow(e3.date, from, to);
    assert Filter([e2], fb, tb) == [];
    assert Filter([e3, e2], fb, tb) == [e3];
    assert Windowed(rows, from, to) == [e1, e3];
  }
}
