/** One request that fans out into three levels of queries on pooled connections: a query for the
    set-top boxes of a user, one for the phones of each box, one for the marks of each phone. */
module FanOut {
  import opened Common
  import opened ListHead

  /** A connection, known by the link it embeds. */
  type Conn = Link

  datatype Level = Stb | Phone | Mark

  datatype Response<Row> = BadRequest | Marks(rows: seq<Row>, pagecount: nat, totalcount: nat)

  /** What can happen next: a query in flight delivers a row, which may not parse; it ends or fails;
      other requests take connections from the pool and give them back.
      `starts` tells whether the query that a row asks for can be started. */
  datatype Event<Row> =
    | StbRow(conn: Conn, parsed: bool, starts: bool)
    | PhoneRow(conn: Conn, parsed: bool, starts: bool)
    | MarkRow(conn: Conn, row: Option<Row>)
    | Ends(conn: Conn, level: Level)
    | Fails(conn: Conn)
    | Lend
    | Restore(conn: Conn)

  /** The request without its counter: the queries in flight, and how many could not be started. */
  datatype Request<Row> = Request(idle: seq<Conn>, lent: set<Conn>, open: map<Conn, Level>,
                                  failed: nat, rows: seq<Row>, answers: seq<Response<Row>>)

  ghost function Start<Row>(r: Request<Row>, starts: bool): Request<Row> {
    if r.idle == [] then r.(answers := r.answers + [BadRequest])
    else if !starts then r.(idle := r.idle[1..] + [r.idle[0]], answers := r.answers + [BadRequest])
    else r.(idle := r.idle[1..], open := r.open[r.idle[0] := Stb])
  }

  ghost predicate Enabled<Row>(r: Request<Row>, e: Event<Row>) {
    match e
    case StbRow(c, _, _) => c in r.open && r.open[c] == Stb
    case PhoneRow(c, _, _) => c in r.open && r.open[c] == Phone
    case MarkRow(c, _) => c in r.open && r.open[c] == Mark
    case Ends(c, level) => c in r.open && r.open[c] == level
    case Fails(c) => c in r.open
    case Lend => r.idle != []
    case Restore(c) => c in r.lent
  }

  ghost function Nest<Row>(r: Request<Row>, starts: bool, level: Level): Request<Row> {
    if r.idle == [] then r
    else if !starts then r.(idle := r.idle[1..] + [r.idle[0]], failed := r.failed + 1)
    else r.(idle := r.idle[1..], open := r.open[r.idle[0] := level])
  }

  /** A query leaves; the last to leave has the request answered, unless one could not be started. */
  ghost function Close<Row>(r: Request<Row>, c: Conn, answer: Response<Row>): Request<Row> {
    var s := r.(open := r.open - {c}, idle := r.idle + [c]);
    if s.open == map[] && s.failed == 0 then s.(answers := s.answers + [answer]) else s
  }

  ghost function Step<Row>(r: Request<Row>, e: Event<Row>): Request<Row>
    requires Enabled(r, e)
  {
    match e
    case StbRow(_, parsed, starts) => if parsed then Nest(r, starts, Phone) else r
    case PhoneRow(_, parsed, starts) => if parsed then Nest(r, starts, Mark) else r
    case MarkRow(_, row) => if row.Some? then r.(rows := r.rows + [row.value]) else r
    case Ends(c, level) => Close(r, c, if level == Mark then Marks(r.rows, |r.rows|, |r.rows|) else BadRequest)
    case Fails(c) => Close(r, c, BadRequest)
    case Lend => r.(idle := r.idle[1..], lent := r.lent + {r.idle[0]})
    case Restore(c) => r.(idle := r.idle + [c], lent := r.lent - {c})
  }

  /** An interleaving: each event is possible where it stands. */
  ghost predicate Feasible<Row>(r: Request<Row>, events: seq<Event<Row>>)
    decreases |events|, 0
  {
    events == [] ||
    (Feasible(r, events[..|events| - 1]) && Enabled(After(r, events[..|events| - 1]), events[|events| - 1]))
  }

  ghost function After<Row>(r: Request<Row>, events: seq<Event<Row>>): Request<Row>
    requires Feasible(r, events)
    decreases |events|, 1
  {
    if events == [] then r else Step(After(r, events[..|events| - 1]), events[|events| - 1])
  }

  /** The rows that the queries of the last level deliver, in the order they deliver them. */
  ghost function MarkRows<Row>(events: seq<Event<Row>>): seq<Row> {
    if events == [] then []
    else
      var e := events[|events| - 1];
      MarkRows(events[..|events| - 1]) + if e.MarkRow? && e.row.Some? then [e.row.value] else []
  }

  ghost function Conns<Row>(r: Request<Row>): multiset<Conn> {
    multiset(r.idle) + multiset(r.lent) + multiset(r.open.Keys)
  }

  /** Nobody holds a connection twice. */
  ghost predicate OnceEach<Row>(r: Request<Row>) {
    forall c :: c in Conns(r) ==> Conns(r)[c] == 1
  }

  ghost predicate Idle<Row>(r: Request<Row>) {
    r.open == map[] && r.failed == 0 && r.rows == [] && r.answers == [] && OnceEach(r)
  }

  /** Answered, once, exactly when no query is in flight and none could not be started. */
  ghost predicate AnsweredOnce<Row>(r: Request<Row>) {
    |r.answers| <= 1 && (r.answers != [] <==> r.open == map[] && r.failed == 0)
  }

  lemma NestConserves<Row>(r: Request<Row>, starts: bool, level: Level)
    requires OnceEach(r)
    ensures Conns(Nest(r, starts, level)) == Conns(r)
  {
    var s := Nest(r, starts, level);
    if r.idle != [] {
      var c := r.idle[0];
      assert r.idle == [c] + r.idle[1..];
      assert Conns(r)[c] == 1;
      assert starts ==> s.open.Keys == r.open.Keys + {c};
    }
  }

  lemma CloseConserves<Row>(r: Request<Row>, c: Conn, answer: Response<Row>)
    requires c in r.open
    ensures Conns(Close(r, c, answer)) == Conns(r)
  {
    var s := Close(r, c, answer);
    assert s.open.Keys == r.open.Keys - {c};
    assert multiset(s.open.Keys) == multiset(r.open.Keys) - multiset{c};
  }

  lemma LendConserves<Row>(r: Request<Row>)
    requires r.idle != [] && OnceEach(r)
    ensures Conns(Step(r, Lend)) == Conns(r)
  {
    var c := r.idle[0];
    assert r.idle == [c] + r.idle[1..];
    assert Conns(r)[c] == 1;
    assert multiset(r.lent + {c}) == multiset(r.lent) + multiset{c};
  }

  lemma RestoreConserves<Row>(r: Request<Row>, c: Conn)
    requires c in r.lent
    ensures Conns(Step(r, Restore(c))) == Conns(r)
  {
    assert multiset(r.lent - {c}) == multiset(r.lent) - multiset{c};
  }

  lemma StepConserves<Row>(r: Request<Row>, e: Event<Row>)
    requires Enabled(r, e) && OnceEach(r)
    ensures Conns(Step(r, e)) == Conns(r)
  {
    match e
    case StbRow(_, parsed, starts) => NestConserves(r, starts, Phone);
    case PhoneRow(_, parsed, starts) => NestConserves(r, starts, Mark);
    case MarkRow(_, _) =>
    case Ends(c, level) => CloseConserves(r, c, if level == Mark then Marks(r.rows, |r.rows|, |r.rows|) else BadRequest);
    case Fails(c) => CloseConserves(r, c, BadRequest);
    case Lend => LendConserves(r);
    case Restore(c) => RestoreConserves(r, c);
  }

  lemma StepAnswers<Row>(r: Request<Row>, e: Event<Row>)
    requires Enabled(r, e) && AnsweredOnce(r)
    ensures AnsweredOnce(Step(r, e))
  {
    var s := Step(r, e);
    if s.open != r.open && !e.Ends? && !e.Fails? {
      assert r.idle[0] in s.open;
    }
  }

  /** Over every interleaving there is at most one answer, it is there exactly when all queries have
      ended and none could not be started, and no connection is lost or doubled. */
  lemma {:induction false} EveryRun<Row>(r: Request<Row>, starts: bool, events: seq<Event<Row>>)
    requires Idle(r) && Feasible(Start(r, starts), events)
    ensures AnsweredOnce(After(Start(r, starts), events))
    ensures Conns(After(Start(r, starts), events)) == Conns(r)
    ensures After(Start(r, starts), events).rows == MarkRows(events)
    decreases |events|
  {
    var s := Start(r, starts);
    if events == [] {
      NestConserves(r, starts, Stb);
      assert r.idle != [] && starts ==> r.idle[0] in s.open;
    } else {
      var before := events[..|events| - 1];
      EveryRun(r, starts, before);
      StepConserves(After(s, before), events[|events| - 1]);
      StepAnswers(After(s, before), events[|events| - 1]);
    }
  }

  lemma OnlyOne(m: map<Conn, Level>, c: Conn)
    requires c in m
    ensures |m - {c}| == |m| - 1
    ensures m - {c} == map[] ==> m.Keys == {c}
  {
    assert m.Keys == (m - {c}).Keys + {c};
    assert |m| == |m.Keys| && |m - {c}| == |(m - {c}).Keys|;
  }

  /** The event that brings the answer is the end of the last query in flight: a query of the last
      level that ends answers with every row delivered, once each and in order; any other end, or a
      failure, answers with an error. */
  lemma AnswerCarriesEveryRow<Row>(r: Request<Row>, starts: bool, events: seq<Event<Row>>, e: Event<Row>)
    requires Idle(r) && Feasible(Start(r, starts), events)
    requires var s := After(Start(r, starts), events); Enabled(s, e) && s.answers == [] && Step(s, e).answers != []
    ensures var s := After(Start(r, starts), events);
      && (e.Ends? || e.Fails?) && s.open.Keys == {e.conn}
      && Step(s, e).answers == [
        if e.Ends? && e.level == Mark
        then Marks(MarkRows(events), |MarkRows(events)|, |MarkRows(events)|)
        else BadRequest]
  {
    EveryRun(r, starts, events);
    var s := After(Start(r, starts), events);
    OnlyOne(s.open, e.conn);
  }

  /** Once answered, only the pool's other users go on: nothing of the request is touched again. */
  lemma NothingAfterTheAnswer<Row>(r: Request<Row>, starts: bool, events: seq<Event<Row>>, e: Event<Row>)
    requires Idle(r) && Feasible(Start(r, starts), events)
    requires var s := After(Start(r, starts), events); Enabled(s, e) && s.answers != []
    ensures e.Lend? || e.Restore?
  {
    EveryRun(r, starts, events);
  }

  /** A row that parses asks for a query, a connection is there for it, and the query cannot start. */
  ghost predicate StartFails<Row>(r: Request<Row>, e: Event<Row>) {
    (e.StbRow? || e.PhoneRow?) && e.parsed && !e.starts && r.idle != []
  }

  ghost predicate AnyStartFails<Row>(r: Request<Row>, events: seq<Event<Row>>)
    requires Feasible(r, events)
  {
    events != [] &&
    var before := events[..|events| - 1];
    AnyStartFails(r, before) || StartFails(After(r, before), events[|events| - 1])
  }

  lemma {:induction false} FailedIsAnyStart<Row>(r: Request<Row>, events: seq<Event<Row>>)
    requires Feasible(r, events) && r.failed == 0
    ensures After(r, events).failed > 0 <==> AnyStartFails(r, events)
    decreases |events|
  {
    if events != [] {
      FailedIsAnyStart(r, events[..|events| - 1]);
    }
  }

  /** A request is answered exactly when all its queries have ended and every query that a row asked
      for, with a connection there for it, could be started. */
  lemma AnsweredExactly<Row>(r: Request<Row>, starts: bool, events: seq<Event<Row>>)
    requires Idle(r) && Feasible(Start(r, starts), events)
    ensures var s := After(Start(r, starts), events);
      s.answers != [] <==> s.open == map[] && !AnyStartFails(Start(r, starts), events)
  {
    EveryRun(r, starts, events);
    FailedIsAnyStart(Start(r, starts), events);
  }

  /** A nested query that cannot be started leaves the request without an answer, whatever follows. */
  lemma FailedStartHangs<Row>(r: Request<Row>, starts: bool, events: seq<Event<Row>>, n: nat)
    requires Idle(r) && Feasible(Start(r, starts), events) && n < |events|
    requires Feasible(Start(r, starts), events[..n]) && StartFails(After(Start(r, starts), events[..n]), events[n])
    ensures After(Start(r, starts), events).answers == []
  {
    AnsweredExactly(r, starts, events);
    FailsForGood(Start(r, starts), events, n);
  }

  lemma {:induction false} FailsForGood<Row>(r: Request<Row>, events: seq<Event<Row>>, n: nat)
    requires Feasible(r, events) && n < |events|
    requires Feasible(r, events[..n]) && StartFails(After(r, events[..n]), events[n])
    ensures AnyStartFails(r, events)
    decreases |events|
  {
    var before := events[..|events| - 1];
    if n + 1 < |events| {
      assert before[..n] == events[..n];
      FailsForGood(r, before, n);
    } else {
      assert before == events[..n];
    }
  }

  /** The set-top box's row asks for its phones, that query cannot start, and the first one ends: no
      query is left in flight, and no answer comes. */
  lemma HangsWithoutQueries<Row>(c0: Conn, c1: Conn)
    requires c0 != c1
    ensures var r: Request<Row> := Request([c0, c1], {}, map[], 0, [], []);
      var events := [StbRow(c0, true, false), Ends(c0, Stb)];
      && Idle(r) && Feasible(Start(r, true), events) && AnyStartFails(Start(r, true), events)
      && After(Start(r, true), events).open == map[] && After(Start(r, true), events).answers == []
  {
    var r: Request<Row> := Request([c0, c1], {}, map[], 0, [], []);
    var first, events := [StbRow(c0, true, false)], [StbRow(c0, true, false), Ends(c0, Stb)];
    var s := Start(r, true);
    Nothing(s);
    assert first[..0] == [] && events[..1] == first;
    assert s.open == map[c0 := Stb] && s.idle == [c1];
    assert Feasible(s, first) && After(s, first) == s.(idle := [c1], failed := 1);
    assert map[c0 := Stb] - {c0} == map[];
    assert After(s, events) == Step(After(s, first), Ends(c0, Stb));
  }

  // ---------- which queries there are ----------

  /** The queries of a level that are in flight. */
  ghost function InFlight<Row>(r: Request<Row>, level: Level): set<Conn>
  {
    set c | c in r.open && r.open[c] == level
  }

  /** The level that a row of this event asks a query for. */
  ghost function AskedLevel<Row>(e: Event<Row>): Level
    requires e.StbRow? || e.PhoneRow?
  {
    if e.StbRow? then Phone else Mark
  }

  /** The event is a row that parses, there is a connection for the query it asks for, and that query
      can be started. */
  ghost predicate Asks<Row>(r: Request<Row>, e: Event<Row>, level: Level) {
    (e.StbRow? || e.PhoneRow?) && e.parsed && e.starts && r.idle != [] && AskedLevel(e) == level
  }

  /** The event is the end, or the failure, of a query of this level. */
  ghost predicate Leaves<Row>(r: Request<Row>, e: Event<Row>, level: Level) {
    (e.Ends? || e.Fails?) && e.conn in r.open && r.open[e.conn] == level
  }

  /** A row that asks opens exactly one query, of the next level and on the connection idle for longest;
      an end or a failure takes its own query away; no other event changes which queries there are. */
  lemma StepOpens<Row>(r: Request<Row>, e: Event<Row>, level: Level)
    requires Enabled(r, e) && OnceEach(r)
    ensures Asks(r, e, level) ==>
      && r.idle[0] !in r.open && InFlight(Step(r, e), level) == InFlight(r, level) + {r.idle[0]}
      && Step(r, e).idle == r.idle[1..]
    ensures Leaves(r, e, level) ==>
      && e.conn in InFlight(r, level) && InFlight(Step(r, e), level) == InFlight(r, level) - {e.conn}
    ensures !Asks(r, e, level) && !Leaves(r, e, level) ==> InFlight(Step(r, e), level) == InFlight(r, level)
  {
    if r.idle != [] {
      var c := r.idle[0];
      assert c in Conns(r) && Conns(r)[c] == 1;
      assert c in r.idle && c !in r.open;
    }
  }

  /** How many rows of a run asked for a query of the level, and how many of its queries left. */
  ghost function Asked<Row>(r: Request<Row>, events: seq<Event<Row>>, level: Level): nat
    requires Feasible(r, events)
  {
    if events == [] then 0
    else
      var before := events[..|events| - 1];
      Asked(r, before, level) + if Asks(After(r, before), events[|events| - 1], level) then 1 else 0
  }

  ghost function Left<Row>(r: Request<Row>, events: seq<Event<Row>>, level: Level): nat
    requires Feasible(r, events)
  {
    if events == [] then 0
    else
      var before := events[..|events| - 1];
      Left(r, before, level) + if Leaves(After(r, before), events[|events| - 1], level) then 1 else 0
  }

  /** Over every run, the queries of a level in flight are those that rows asked for, and the first one,
      without those that ended or failed. */
  lemma {:induction false} InFlightExactly<Row>(r: Request<Row>, starts: bool, events: seq<Event<Row>>, level: Level)
    requires Idle(r) && Feasible(Start(r, starts), events)
    ensures var s := Start(r, starts);
      |InFlight(After(s, events), level)| + Left(s, events, level) ==
      Asked(s, events, level) + if level == Stb && r.idle != [] && starts then 1 else 0
    decreases |events|
  {
    var s := Start(r, starts);
    if events == [] {
      FirstQuery(r, starts, level);
    } else {
      var before, e := events[..|events| - 1], events[|events| - 1];
      InFlightExactly(r, starts, before, level);
      EveryRun(r, starts, before);
      OnceInRun(r, After(s, before));
      StepOpens(After(s, before), e, level);
      OneLevel(After(s, before), e, level);
    }
  }

  lemma OnceInRun<Row>(r: Request<Row>, s: Request<Row>)
    requires OnceEach(r) && Conns(s) == Conns(r)
    ensures OnceEach(s)
  {
  }

  lemma OneLevel<Row>(r: Request<Row>, e: Event<Row>, level: Level)
    ensures !(Asks(r, e, level) && Leaves(r, e, level))
  {
  }

  /** The first query is started on the connection idle for longest, or the request is refused. */
  lemma FirstQuery<Row>(r: Request<Row>, starts: bool, level: Level)
    requires Idle(r)
    ensures InFlight(Start(r, starts), level) == if level == Stb && r.idle != [] && starts then {r.idle[0]} else {}
    ensures Start(r, starts).answers == if r.idle != [] && starts then [] else [BadRequest]
  {
  }

  lemma Nothing<Row>(r: Request<Row>)
    ensures Feasible(r, []) && After(r, []) == r
  {
  }

  lemma {:induction false} Prefix<Row>(r: Request<Row>, events: seq<Event<Row>>, n: nat)
    requires Feasible(r, events) && n <= |events|
    ensures Feasible(r, events[..n])
    ensures n < |events| ==> Enabled(After(r, events[..n]), events[n])
    ensures n < |events| ==> Feasible(r, events[..n + 1]) && After(r, events[..n + 1]) == Step(After(r, events[..n]), events[n])
    decreases |events|
  {
    if n == |events| {
      assert events[..n] == events;
    } else {
      var before := events[..|events| - 1];
      assert before[..n] == events[..n];
      Prefix(r, before, n);
      if n + 1 == |events| {
        assert events[..n + 1] == events && before == events[..n];
      } else {
        assert before[..n + 1] == events[..n + 1];
      }
    }
  }

  /** What the callbacks of one request share, through the counter that all of them hold. */
  class Context<Row> {
    var number: nat
    var marks: seq<Row>

    constructor ()
      ensures number == 0 && marks == []
    {
      number, marks := 0, [];
    }
  }

  /** The idle connections in the order they were freed, and those in use. */
  class DbPool {
    const mysqls: List
    ghost var idle: seq<Conn>
    ghost var taken: set<Conn>
    ghost const repr: set<object>

    ghost predicate Valid()
      reads this, repr
    {
      forall u: bool {:trigger Unfold(u)} :: Unfold(u) ==>
        mysqls in repr && mysqls.head in repr && (forall c :: c in mysqls.items ==> c in repr) &&
        mysqls.Valid() && idle == mysqls.items && mysqls.head !in taken &&
        (forall c :: c in taken ==> c in repr && c !in idle && c.Free())
    }

    constructor (mysqls: List)
      requires mysqls.Valid()
      ensures Valid() && idle == mysqls.items && taken == {}
      ensures repr == {mysqls, mysqls.head} + set c | c in mysqls.items
    {
      this.mysqls := mysqls;
      idle, taken := mysqls.items, {};
      repr := {mysqls, mysqls.head} + set c | c in mysqls.items;
    }

    /** `rns_dbpool_get`: the connection idle for longest, or none. */
    method Get() returns (conn: Link?)
      requires Valid()
      modifies this, repr
      ensures Valid() && (conn == null <==> old(idle) == [])
      ensures conn == null ==> idle == old(idle) && taken == old(taken)
      ensures conn != null ==> conn == old(idle)[0] && idle == old(idle)[1..]
      ensures conn != null ==> conn !in old(taken) && taken == old(taken) + {conn}
    {
      assert Unfold(true);
      conn := mysqls.First();
      if conn != null {
        mysqls.Delete(conn, 0);
        idle, taken := idle[1..], taken + {conn};
      }
    }

    /** `rns_dbpool_free`: to the end of the idle ones. */
    method Free(conn: Conn)
      requires Valid() && conn in taken
      modifies this, repr
      ensures Valid() && idle == old(idle) + [conn] && taken == old(taken) - {conn}
    {
      assert Unfold(true);
      mysqls.AddSafe(conn, null, 0);
      idle, taken := idle + [conn], taken - {conn};
    }
  }

  /** The connections in use, by this request and by others. */
  ghost predicate Shared(taken: set<Conn>, mine: set<Conn>, others: set<Conn>) {
    taken == mine + others && mine !! others
  }

  lemma Taken(taken: set<Conn>, open: map<Conn, Level>, others: set<Conn>, c: Conn, level: Level)
    requires Shared(taken, open.Keys, others) && c !in taken
    ensures Shared(taken + {c}, open[c := level].Keys, others) && Shared(taken + {c}, open.Keys, others + {c})
    ensures |open[c := level]| == |open| + 1 && open[c := level] != map[]
    ensures taken + {c} - {c} == taken
  {
    var more := open[c := level];
    assert more.Keys == open.Keys + {c};
    assert taken + {c} == more.Keys + others;
    assert taken + {c} == open.Keys + (others + {c});
    assert |more| == |more.Keys| && |open| == |open.Keys|;
  }

  lemma Returned(taken: set<Conn>, open: map<Conn, Level>, others: set<Conn>, c: Conn)
    requires Shared(taken, open.Keys, others)
    ensures c in open ==> Shared(taken - {c}, (open - {c}).Keys, others)
    ensures c in others ==> Shared(taken - {c}, open.Keys, others - {c})
  {
  }

  class Server<Row> {
    const dbpool: DbPool
    /** Null once destroyed. */
    var ctx: Context?<Row>
    var answers: seq<Response<Row>>
    ghost var lent: set<Conn>
    ghost var open: map<Conn, Level>
    ghost var failed: nat
    ghost var rows: seq<Row>

    ghost function View(): Request<Row>
      reads this, dbpool
    {
      Request(dbpool.idle, lent, open, failed, rows, answers)
    }

    /** While the context lives, the counter counts the queries in flight and those that could not be
        started; it is destroyed when there are none of either. */
    ghost predicate Counted()
      reads this, ctx
    {
      && (ctx == null <==> open == map[] && failed == 0)
      && (ctx != null ==> ctx.number == |open| + failed && ctx.marks == rows)
    }

    ghost predicate Apart()
      reads this, dbpool, ctx
    {
      Placed() && Shared(dbpool.taken, open.Keys, lent) && (ctx != null ==> ctx !in dbpool.repr)
    }

    ghost predicate Placed() {
      this !in dbpool.repr && dbpool !in dbpool.repr
    }

    ghost predicate Valid()
      reads this, ctx, dbpool, dbpool.repr
    {
      Counted() && Apart() && dbpool.Valid()
    }

    constructor (dbpool: DbPool)
      requires dbpool.Valid() && dbpool.taken == {} && dbpool !in dbpool.repr
      ensures this.dbpool == dbpool && Valid() && View() == Request(dbpool.idle, {}, map[], 0, [], [])
    {
      this.dbpool := dbpool;
      ctx, answers := null, [];
      lent, open, failed, rows := {}, map[], 0, [];
    }

    /** The start of `phone_mark_get`, `stb_get` and `phone_get` alike: a connection from the pool, the
        counter raised, the search started, and the connection back if that fails. */
    method Search(c: Context<Row>, starts: bool, ghost level: Level) returns (conn: Link?)
      requires Apart() && dbpool.Valid() && ctx == c
      modifies this`open, c`number, dbpool, dbpool.repr
      ensures Apart() && dbpool.Valid()
      ensures conn == null <==> old(dbpool.idle) == []
      ensures conn == null ==> dbpool.idle == old(dbpool.idle) && c.number == old(c.number) && open == old(open)
      ensures conn != null ==> c.number == old(c.number) + 1 && old(dbpool.idle)[0] == conn
      ensures conn != null && starts ==> dbpool.idle == old(dbpool.idle)[1..] && open == old(open)[conn := level]
      ensures |open| == old(|open|) + if conn != null && starts then 1 else 0
      ensures conn != null && !starts ==> dbpool.idle == old(dbpool.idle)[1..] + [conn] && open == old(open)
    {
      ghost var taken, mine := dbpool.taken, open;
      conn := dbpool.Get();
      if conn != null {
        Taken(taken, mine, lent, conn, level);
        c.number := c.number + 1;
        Settle(conn, starts, level);
      }
    }

    /** The search starts, or the connection goes back. */
    method Settle(conn: Conn, starts: bool, ghost level: Level)
      requires Placed() && dbpool.Valid() && (ctx != null ==> ctx !in dbpool.repr) && conn in dbpool.taken
      requires Shared(dbpool.taken, open[conn := level].Keys, lent) && Shared(dbpool.taken - {conn}, open.Keys, lent)
      modifies this`open, dbpool, dbpool.repr
      ensures Apart() && dbpool.Valid()
      ensures open == if starts then old(open)[conn := level] else old(open)
      ensures dbpool.idle == if starts then old(dbpool.idle) else old(dbpool.idle) + [conn]
    {
      if starts {
        open := open[conn := level];
      } else {
        dbpool.Free(conn);
      }
    }

    method PhoneMarkGet(starts: bool)
      requires Valid() && open == map[] && failed == 0 && answers == [] && rows == []
      modifies this, dbpool, dbpool.repr
      ensures Valid() && View() == Start(old(View()), starts)
      ensures ctx == null || fresh(ctx)
    {
      ghost var r := View();
      assert |open| == 0;
      var c := new Context();
      ctx := c;
      var conn := Search(c, starts, Stb);
      assert r.idle == [] ==> conn == null;
      if conn == null || !starts {
        ctx := null;
        answers := answers + [BadRequest];
      }
      assert View() == Start(r, starts);
    }

    method StbGet(mysql: Conn, parsed: bool, starts: bool)
      requires Valid() && mysql in open && open[mysql] == Stb
      modifies this`open, this`failed, ctx, dbpool, dbpool.repr
      ensures Valid() && View() == Step(old(View()), StbRow(mysql, parsed, starts))
    {
      var c: Context<Row> := ctx;
      if parsed {
        var m := Search(c, starts, Phone);
        if m != null && !starts {
          failed := failed + 1;
        }
      }
    }

    method PhoneGet(mysql: Conn, parsed: bool, starts: bool)
      requires Valid() && mysql in open && open[mysql] == Phone
      modifies this`open, this`failed, ctx, dbpool, dbpool.repr
      ensures Valid() && View() == Step(old(View()), PhoneRow(mysql, parsed, starts))
    {
      var c: Context<Row> := ctx;
      if parsed {
        var m := Search(c, starts, Mark);
        if m != null && !starts {
          failed := failed + 1;
        }
      }
    }

    method PhoneMarkGetWork(mysql: Conn, row: Option<Row>)
      requires Valid() && mysql in open && open[mysql] == Mark
      modifies this`rows, ctx
      ensures Valid() && View() == Step(old(View()), MarkRow(mysql, row))
    {
      var c: Context<Row> := ctx;
      if row.Some? {
        c.marks := c.marks + [row.value];
        rows := rows + [row.value];
      }
    }

    /** The connection goes back and the counter down. */
    method Leave(c: Context<Row>, mysql: Conn)
      requires Apart() && dbpool.Valid() && ctx == c && mysql in open && c.number > 0
      modifies this`open, c`number, dbpool, dbpool.repr
      ensures Apart() && dbpool.Valid() && dbpool.idle == old(dbpool.idle) + [mysql]
      ensures open == old(open) - {mysql} && |open| == old(|open|) - 1
      ensures c.number == old(c.number) - 1
    {
      OnlyOne(open, mysql);
      Returned(dbpool.taken, open, lent, mysql);
      dbpool.Free(mysql);
      open := open - {mysql};
      c.number := c.number - 1;
    }

    /** `mstb_get_done` and `phone_get_done`. */
    method GetDone(mysql: Conn, ghost level: Level)
      requires Valid() && mysql in open && open[mysql] == level && level != Mark
      modifies this`open, this`ctx, this`answers, ctx, dbpool, dbpool.repr
      ensures Valid() && View() == Step(old(View()), Ends(mysql, level))
      ensures ctx == null || ctx == old(ctx)
    {
      ghost var r := View();
      var c: Context<Row> := ctx;
      OnlyOne(open, mysql);
      Leave(c, mysql);
      if c.number == 0 {
        answers := answers + [BadRequest];
        ctx := null;
      }
      assert View() == Close(r, mysql, BadRequest);
    }

    method PhoneMarkGetDone(mysql: Conn)
      requires Valid() && mysql in open && open[mysql] == Mark
      modifies this`open, this`ctx, this`answers, ctx, dbpool, dbpool.repr
      ensures Valid() && View() == Step(old(View()), Ends(mysql, Mark))
      ensures ctx == null || ctx == old(ctx)
    {
      ghost var r := View();
      var c: Context<Row> := ctx;
      OnlyOne(open, mysql);
      Leave(c, mysql);
      if c.number == 0 {
        answers := answers + [Marks(c.marks, |c.marks|, |c.marks|)];
        ctx := null;
      }
      assert View() == Close(r, mysql, Marks(r.rows, |r.rows|, |r.rows|));
    }

    method ThirdError(mysql: Conn)
      requires Valid() && mysql in open
      modifies this`open, this`ctx, this`answers, ctx, dbpool, dbpool.repr
      ensures Valid() && View() == Step(old(View()), Fails(mysql))
      ensures ctx == null || ctx == old(ctx)
    {
      ghost var r := View();
      var c: Context<Row> := ctx;
      OnlyOne(open, mysql);
      Leave(c, mysql);
      if c.number == 0 {
        ctx := null;
        answers := answers + [BadRequest];
      }
      assert View() == Close(r, mysql, BadRequest);
    }

    /** Another request takes a connection. */
    method LendOne()
      requires Valid() && dbpool.idle != []
      modifies this`lent, dbpool, dbpool.repr
      ensures Valid() && View() == Step(old(View()), Lend)
    {
      ghost var r, taken, mine := View(), dbpool.taken, open;
      var conn := dbpool.Get();
      Taken(taken, mine, lent, conn, Stb);
      lent := lent + {conn};
      assert View() == r.(idle := r.idle[1..], lent := r.lent + {r.idle[0]});
    }

    method RestoreOne(conn: Conn)
      requires Valid() && conn in lent
      modifies this`lent, dbpool, dbpool.repr
      ensures Valid() && View() == Step(old(View()), Restore(conn))
    {
      ghost var r := View();
      Returned(dbpool.taken, open, lent, conn);
      dbpool.Free(conn);
      lent := lent - {conn};
      assert View() == r.(idle := r.idle + [conn], lent := r.lent - {conn});
    }

    /** The event loop runs the callback that belongs to the event. */
    method Dispatch(e: Event<Row>)
      requires Valid() && Enabled(View(), e)
      modifies this, ctx, dbpool, dbpool.repr
      ensures Valid() && View() == Step(old(View()), e)
      ensures ctx == null || ctx == old(ctx)
    {
      match e
      case StbRow(c, parsed, starts) => StbGet(c, parsed, starts);
      case PhoneRow(c, parsed, starts) => PhoneGet(c, parsed, starts);
      case MarkRow(c, row) => PhoneMarkGetWork(c, row);
      case Fails(c) => ThirdError(c);
      case Lend => LendOne();
      case Restore(c) => RestoreOne(c);
      case Ends(c, level) =>
        if level == Mark {
          PhoneMarkGetDone(c);
        } else {
          GetDone(c, level);
        }
    }

    /** A whole request, under any interleaving of what its queries and the pool's other users do. */
    method Serve(starts: bool, events: seq<Event<Row>>)
      requires Valid() && Idle(View()) && Feasible(Start(View(), starts), events)
      modifies this, dbpool, dbpool.repr
      ensures Valid() && View() == After(Start(old(View()), starts), events)
      ensures AnsweredOnce(View()) && Conns(View()) == Conns(old(View()))
    {
      hide After, Feasible, Step, Enabled, Start, Conns;
      ghost var r := View();
      PhoneMarkGet(starts);
      var i := 0;
      assert events[..0] == [];
      Nothing(Start(r, starts));
      while i < |events|
        invariant 0 <= i <= |events| && Valid() && Feasible(Start(r, starts), events[..i])
        invariant View() == After(Start(r, starts), events[..i])
        invariant ctx == null || fresh(ctx)
      {
        Prefix(Start(r, starts), events, i);
        Dispatch(events[i]);
        i := i + 1;
      }
      assert events[..i] == events;
      EveryRun(r, starts, events);
    }
  }
}
