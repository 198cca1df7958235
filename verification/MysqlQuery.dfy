/** One asynchronous query on a connection: started, suspended and resumed at any of its calls into
    the client library, and reported through the `work`, `done` and `error` callbacks. */
module MysqlQuery {
  import opened Common

  datatype State = Init | Connect | Query | Fetch | Reconnect | Free

  /** One call of a callback. */
  datatype Event<Row> = Work(row: Row) | Done | Error

  /** What the server holds for the query: a refusal with its non-zero code, no result set, or the
      rows that the library hands out before it answers that there is no more. */
  datatype Outcome<Row> = Refused(ret: int) | NoResult | Rows(rows: seq<Row>)

  /** What the caller sees of the query: nothing but the return code, an error, or rows and a `done`. */
  datatype Course<Row> = Dropped | Failing | Empty | Streaming(rows: seq<Row>)

  /** A schedule lists, for each call into the library in turn, whether it completes; a call that
      does not is suspended, and one past the end of the schedule stays suspended.
      Only a query that the server refuses depends on it: the start of a query looks for negative
      codes only, its continuation for any code but zero. */
  ghost function CourseOf<Row>(o: Outcome<Row>, schedule: seq<bool>): Course<Row> {
    match o
    case Rows(rows) => Streaming(rows)
    case NoResult => Empty
    case Refused(ret) =>
      if schedule == [] || !schedule[0] then Failing
      else if ret < 0 then Dropped
      else Empty
  }

  ghost function Works<Row>(rows: seq<Row>): seq<Event<Row>> {
    if rows == [] then [] else Works(rows[..|rows| - 1]) + [Work(rows[|rows| - 1])]
  }

  /** The callbacks of the whole course: one `work` a row in order, then exactly one `done`. */
  ghost function FullTrace<Row>(c: Course<Row>): seq<Event<Row>> {
    match c
    case Dropped => []
    case Failing => [Error]
    case Empty => [Done]
    case Streaming(rows) => Works(rows) + [Done]
  }

  /** How many calls have to complete: the query, one fetch a row, the fetch that finds no more, and
      the freeing of the result. */
  ghost function CallsNeeded<Row>(c: Course<Row>): nat {
    match c
    case Dropped => 1
    case Failing => 1
    case Empty => 2
    case Streaming(rows) => |rows| + 3
  }

  ghost function StateAfter<Row>(c: Course<Row>, n: nat): State {
    if n == 0 || c.Failing? then Query
    else if c.Streaming? && n <= |c.rows| + 1 then Fetch
    else if n < CallsNeeded(c) then Free
    else Init
  }

  ghost function RowsAfter<Row>(c: Course<Row>, n: nat): nat {
    if !c.Streaming? || n == 0 then 0 else if n - 1 <= |c.rows| then n - 1 else |c.rows|
  }

  /** The callbacks made once `n` calls have completed. */
  ghost function TraceAfter<Row>(c: Course<Row>, n: nat): seq<Event<Row>> {
    if n >= CallsNeeded(c) then FullTrace(c)
    else if c.Streaming? then Works(c.rows[..RowsAfter(c, n)])
    else []
  }

  ghost function Completions(schedule: seq<bool>): nat {
    if schedule == [] then 0 else (if schedule[0] then 1 else 0) + Completions(schedule[1..])
  }

  /** What a run of the whole schedule shows. */
  ghost function TraceOf<Row>(o: Outcome<Row>, schedule: seq<bool>): seq<Event<Row>> {
    TraceAfter(CourseOf(o, schedule), Completions(schedule))
  }

  ghost predicate Completes<Row>(o: Outcome<Row>, schedule: seq<bool>) {
    CallsNeeded(CourseOf(o, schedule)) <= Completions(schedule)
  }

  /** No suspension at all. */
  ghost function Synchronous(n: nat): (s: seq<bool>)
    ensures |s| == n && Completions(s) == n && (n > 0 ==> s[0])
  {
    if n == 0 then [] else [true] + Synchronous(n - 1)
  }

  /** Every schedule under which a query completes shows the same callbacks, exactly when the server
      does not refuse the query. */
  lemma SuspensionDoesNotMatter<Row(!new)>(o: Outcome<Row>)
    ensures !o.Refused? <==>
      forall s, t :: Completes(o, s) && Completes(o, t) ==> TraceOf(o, s) == TraceOf(o, t)
  {
    if o.Refused? {
      var s, t := Synchronous(2), [false] + Synchronous(2);
      assert t[1..] == Synchronous(2);
      assert Completes(o, s) && Completes(o, t);
      assert TraceOf(o, t) == [Error] && Error !in TraceOf(o, s);
    }
  }

  /** One `work` a row, in the order of the rows, and then one `done`. */
  lemma {:induction false} WorksInOrder<Row>(rows: seq<Row>)
    ensures |Works(rows)| == |rows|
    ensures forall k :: 0 <= k < |rows| ==> Works(rows)[k] == Work(rows[k])
  {
    if rows != [] {
      WorksInOrder(rows[..|rows| - 1]);
    }
  }

  /** What every schedule shows of every query. A refused one: an error when the start of the query was
      suspended; otherwise nothing at all for a negative code, and for a positive one a `done` when the
      freeing has completed too, as for a query that has no result. Rows: one `work` for each that has
      been fetched, and a `done` last, when all calls are through. */
  lemma CallbacksExactly<Row>(o: Outcome<Row>, schedule: seq<bool>)
    ensures var n, atOnce, trace := Completions(schedule), schedule != [] && schedule[0], TraceOf(o, schedule);
      match o
      case Refused(ret) =>
        if !atOnce then trace == if n > 0 then [Error] else []
        else if ret < 0 then trace == []
        else trace == if n > 1 then [Done] else []
      case NoResult => trace == if n > 1 then [Done] else []
      case Rows(rows) =>
        var told := if n == 0 then 0 else if n - 1 < |rows| then n - 1 else |rows|;
        trace == seq(told, i requires 0 <= i < told => Work(rows[i])) + if n > |rows| + 2 then [Done] else []
  {
    if o.Rows? {
      var n := Completions(schedule);
      var told := if n == 0 then 0 else if n - 1 < |o.rows| then n - 1 else |o.rows|;
      WorksInOrder(o.rows[..told]);
      WorksInOrder(o.rows);
      hide Works;
      var works := seq(told, i requires 0 <= i < told => Work(o.rows[i]));
      assert Works(o.rows[..told]) == works;
      assert told == |o.rows| ==> Works(o.rows) == works;
      assert works + [] == works;
    }
  }

  /** The start of a query returns -1 exactly when the server refuses it at once with a negative code.
      A query that is through is back where the next one can start, unless an error was reported. */
  lemma EndsWhere<Row>(o: Outcome<Row>, schedule: seq<bool>)
    requires Completes(o, schedule)
    ensures CourseOf(o, schedule).Dropped? <==> o.Refused? && o.ret < 0 && schedule[0]
    ensures var s := StateAfter(CourseOf(o, schedule), Completions(schedule));
      if TraceOf(o, schedule) == [Error] then s == Query else s == Init
    ensures RowsAfter(CourseOf(o, schedule), Completions(schedule)) == if o.Rows? then |o.rows| else 0
  {
    if o.Rows? {
      assert TraceOf(o, schedule)[|Works(o.rows)|] == Done;
    }
  }

  lemma NextRow<Row>(c: Course<Row>, n: nat)
    requires c.Streaming? && 1 <= n <= |c.rows|
    ensures TraceAfter(c, n + 1) == TraceAfter(c, n) + [Work(c.rows[n - 1])]
  {
    var s := c.rows[..n];
    assert s[..|s| - 1] == c.rows[..n - 1];
  }

  /** The fetch that finds no more rows calls nothing back. */
  lemma NoMoreRows<Row>(c: Course<Row>, n: nat)
    requires c.Streaming? && n == |c.rows| + 1
    ensures TraceAfter(c, n + 1) == TraceAfter(c, n)
  {
  }

  lemma LastCall<Row>(c: Course<Row>, n: nat)
    requires c.Streaming? || c.Empty?
    requires n + 1 == CallsNeeded(c)
    ensures TraceAfter(c, n + 1) == TraceAfter(c, n) + [Done]
  {
    if c.Streaming? {
      assert c.rows[..|c.rows|] == c.rows;
    }
  }

  class Mysql<Row> {
    const outcome: Outcome<Row>
    /** What the library calls to come answer. */
    var schedule: seq<bool>
    /** How many rows the library has handed out. */
    var cursor: nat

    var state: State
    /** The call in flight is suspended. */
    var status: bool
    var res: bool
    var row: Option<Row>
    var rownum: nat
    ghost var trace: seq<Event<Row>>
    /** How many library calls of this query have completed. */
    ghost var completed: nat
    ghost var course: Course<Row>

    constructor (outcome: Outcome<Row>, schedule: seq<bool>)
      ensures this.outcome == outcome && this.schedule == schedule
      ensures trace == [] && completed == 0 && cursor == 0 && state == Init && !status
    {
      this.outcome, this.schedule := outcome, schedule;
      cursor, state, status, res, row, rownum := 0, Init, false, false, None, 0;
      trace, completed, course := [], 0, Empty;
    }

    /** The callbacks and the row count stand as `completed` calls leave them. */
    ghost predicate Told()
      reads this
    {
      completed <= CallsNeeded(course) && trace == TraceAfter(course, completed) &&
      rownum == RowsAfter(course, completed) && (course.Streaming? ==> outcome == Rows(course.rows))
    }

    /** In the middle of a query: about to make the call after the `completed` ones. */
    ghost predicate Between(s: State)
      reads this
    {
      Told() && 0 < completed < CallsNeeded(course) && StateAfter(course, completed) == s && cursor == rownum
    }

    /** Back in the event loop: suspended in the call that is due, or over. */
    ghost predicate Resting()
      reads this
    {
      Told() && state == StateAfter(course, completed) && cursor == rownum &&
      (status <==> completed < CallsNeeded(course)) &&
      (completed == 0 ==> course == CourseOf(outcome, []))
    }

    ghost function Budget(): nat
      reads this
    {
      completed + Completions(schedule)
    }

    /** One call into the library, started or continued. */
    method Call() returns (suspended: bool)
      modifies this`schedule, this`completed
      ensures Budget() == old(Budget())
      ensures suspended == (old(schedule) == [] || !old(schedule)[0])
      ensures completed == old(completed) + if suspended then 0 else 1
      ensures schedule == if old(schedule) == [] then [] else old(schedule)[1..]
    {
      suspended := true;
      if schedule != [] {
        suspended := !schedule[0];
        schedule := schedule[1..];
        if !suspended {
          completed := completed + 1;
        }
      }
    }

    /** A fetch, started or continued: the next row, or none when they are used up. */
    method FetchCall()
      requires outcome.Rows? && cursor <= |outcome.rows|
      modifies this`schedule, this`completed, this`status, this`row, this`cursor
      ensures Budget() == old(Budget())
      ensures status == (old(schedule) == [] || !old(schedule)[0])
      ensures completed == old(completed) + if status then 0 else 1
      ensures schedule == if old(schedule) == [] then [] else old(schedule)[1..]
      ensures status || old(cursor) == |outcome.rows| ==> cursor == old(cursor)
      ensures !status && old(cursor) == |outcome.rows| ==> row == None
      ensures !status && old(cursor) < |outcome.rows| ==> cursor == old(cursor) + 1 && row == Some(outcome.rows[old(cursor)])
    {
      status := Call();
      if !status {
        if cursor < |outcome.rows| {
          row := Some(outcome.rows[cursor]);
          cursor := cursor + 1;
        } else {
          row := None;
        }
      }
    }

    /** A query runs to its next suspension, or to its end; the schedule decides where.
        The code is -1 exactly when the start of the query is refused at once. */
    method Query() returns (code: int)
      requires state == Init && cursor == 0 && completed == 0 && trace == []
      requires outcome.Refused? ==> outcome.ret != 0
      modifies this
      ensures course == CourseOf(outcome, old(schedule))
      ensures Resting() && Budget() == old(Budget())
      ensures code == if course.Dropped? then -1 else 0
      ensures |schedule| <= |old(schedule)|
    {
      course := CourseOf(outcome, schedule);
      rownum := 0;
      status := Call();
      if !status && outcome.Refused? && outcome.ret < 0 {
        return -1;
      }
      state := State.Query;
      if !status {
        state := Init;
        res := outcome.Rows?;
        if res {
          FetchRows();
        } else {
          FreeResult();
        }
      }
      code := 0;
    }

    method QueryCont()
      requires Resting() && status && state == State.Query && schedule != []
      requires outcome.Refused? ==> outcome.ret != 0
      modifies this
      ensures Resting() && Budget() == old(Budget()) && |schedule| < |old(schedule)| && course == old(course)
    {
      status := Call();
      var ret := if !status && outcome.Refused? then outcome.ret else 0;
      if ret != 0 {
        trace := trace + [Error];
        return;
      }
      if !status {
        res := outcome.Rows?;
        if res {
          FetchRows();
        } else {
          FreeResult();
        }
      }
    }

    method FetchRows()
      requires Between(Fetch)
      modifies this
      ensures Resting() && Budget() == old(Budget()) && |schedule| <= |old(schedule)| && course == old(course)
    {
      hide Works, FullTrace, TraceAfter;
      while true
        invariant Between(Fetch)
        invariant Budget() == old(Budget()) && |schedule| <= |old(schedule)| && course == old(course)
        decreases |schedule|
      {
        label Start:
        FetchCall();
        state := Fetch;
        if status {
          return;
        }
        if row.None? {
          NoMoreRows(course, old@Start(completed));
          FreeResult();
          return;
        }
        rownum := rownum + 1;
        trace := trace + [Work(row.value)];
        NextRow(course, old@Start(completed));
      }
    }

    method FetchCont()
      requires Resting() && status && state == Fetch && schedule != []
      modifies this
      ensures Resting() && Budget() == old(Budget()) && |schedule| < |old(schedule)| && course == old(course)
    {
      FetchCall();
      if !status {
        if row.Some? {
          rownum := rownum + 1;
          trace := trace + [Work(row.value)];
          NextRow(course, old(completed));
          FetchRows();
        } else {
          FreeResult();
        }
      }
    }

    method FreeResult()
      requires Between(Free)
      modifies this
      ensures Resting() && Budget() == old(Budget()) && |schedule| <= |old(schedule)| && course == old(course)
    {
      state := Free;
      status := Call();
      if !status {
        state := Init;
        trace := trace + [Done];
        LastCall(course, old(completed));
      }
    }

    method FreeCont()
      requires Resting() && status && state == Free && schedule != []
      modifies this
      ensures Resting() && Budget() == old(Budget()) && |schedule| < |old(schedule)| && course == old(course)
    {
      status := Call();
      if !status {
        state := Init;
        trace := trace + [Done];
        LastCall(course, old(completed));
      }
    }

    /** The event loop found the connection ready: the state says which call to continue. */
    method Resume()
      requires Resting() && status && schedule != []
      requires outcome.Refused? ==> outcome.ret != 0
      modifies this
      ensures Resting() && Budget() == old(Budget()) && |schedule| < |old(schedule)| && course == old(course)
    {
      match state
      case Query => QueryCont();
      case Fetch => FetchCont();
      case Free => FreeCont();
    }

    /** A query under any schedule: the callbacks, the row count and the state depend only on how
        many calls the schedule completes, and not on where it suspends them. */
    method Run() returns (code: int)
      requires state == Init && cursor == 0 && completed == 0 && trace == []
      requires outcome.Refused? ==> outcome.ret != 0
      modifies this
      ensures trace == TraceOf(outcome, old(schedule))
      ensures course == CourseOf(outcome, old(schedule)) && code == if course.Dropped? then -1 else 0
      ensures state == StateAfter(course, Completions(old(schedule)))
      ensures rownum == RowsAfter(course, Completions(old(schedule)))
      ensures Completes(outcome, old(schedule)) && !outcome.Refused? ==>
        trace == FullTrace(course) && state == Init && rownum == if outcome.Rows? then |outcome.rows| else 0
    {
      hide Works;
      code := Query();
      while status && schedule != []
        invariant Resting() && Budget() == old(Completions(schedule)) && course == CourseOf(outcome, old(schedule))
        decreases |schedule|
      {
        Resume();
      }
    }
  }
}
