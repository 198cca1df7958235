/** What the timer queue means: a sequence of deadlines, ties in order of arming, and what the
    callbacks of an expiry run do to it. */
module TimerQueue {

  datatype Entry = Entry(id: nat, deadline: nat)

  /** One call of the timer interface, with the clock reading it took. The id of a new timer is its
      address; an address still in use stands for an allocation that failed. */
  datatype Op =
    | Add(id: nat, delay: nat, at: nat)
    | Delete(id: nat)
    | Delay(id: nat, delay: nat, at: nat)

  ghost predicate Ordered(q: seq<Entry>) {
    forall i, j :: 0 <= i < j < |q| ==> q[i].deadline <= q[j].deadline
  }

  ghost predicate Armed(q: seq<Entry>, id: nat) {
    exists i :: 0 <= i < |q| && q[i].id == id
  }

  ghost predicate UniqueIds(q: seq<Entry>) {
    forall i, j :: 0 <= i < j < |q| ==> q[i].id != q[j].id
  }

  /** Arms `e` after every entry whose deadline is not later. */
  ghost function Insert(q: seq<Entry>, e: Entry): seq<Entry> {
    if q == [] || e.deadline < q[0].deadline then [e] + q else [q[0]] + Insert(q[1..], e)
  }

  ghost function Remove(q: seq<Entry>, id: nat): seq<Entry> {
    if q == [] then [] else if q[0].id == id then q[1..] else [q[0]] + Remove(q[1..], id)
  }

  ghost function Apply(q: seq<Entry>, op: Op): seq<Entry> {
    match op
    case Add(id, delay, at) => if delay == 0 || Armed(q, id) then q else Insert(q, Entry(id, at + delay))
    case Delete(id) => Remove(q, id)
    case Delay(id, delay, at) =>
      if delay == 0 || !Armed(q, id) then q else Insert(Remove(q, id), Entry(id, at + delay))
  }

  ghost function ApplyAll(q: seq<Entry>, ops: seq<Op>): seq<Entry>
    decreases |ops|
  {
    if ops == [] then q else ApplyAll(Apply(q, ops[0]), ops[1..])
  }

  // ---------- shape of the two updates ----------

  lemma {:induction false} InsertSplit(a: seq<Entry>, e: Entry, b: seq<Entry>)
    requires forall i :: 0 <= i < |a| ==> a[i].deadline <= e.deadline
    requires forall i :: 0 <= i < |b| ==> e.deadline < b[i].deadline
    ensures Insert(a + b, e) == a + [e] + b
  {
    if a == [] {
      assert a + b == b;
      if b == [] {
      } else {
        assert e.deadline < b[0].deadline;
      }
      assert [e] + b == a + [e] + b;
    } else {
      assert (a + b)[1..] == a[1..] + b;
      InsertSplit(a[1..], e, b);
      assert [a[0]] + (a[1..] + [e] + b) == a + [e] + b;
    }
  }

  lemma {:induction false} RemoveSplit(a: seq<Entry>, e: Entry, b: seq<Entry>)
    requires forall i :: 0 <= i < |a| ==> a[i].id != e.id
    ensures Remove(a + [e] + b, e.id) == a + b
  {
    if a == [] {
      assert (a + [e] + b)[1..] == b == a + b;
    } else {
      assert (a + [e] + b)[1..] == a[1..] + [e] + b;
      RemoveSplit(a[1..], e, b);
      assert [a[0]] + (a[1..] + b) == a + b;
    }
  }

  lemma {:induction false} RemoveAbsent(q: seq<Entry>, id: nat)
    requires !Armed(q, id)
    ensures Remove(q, id) == q
  {
    if q != [] {
      assert q[0].id != id;
      assert forall i :: 0 <= i < |q[1..]| ==> q[1..][i] == q[i + 1];
      RemoveAbsent(q[1..], id);
    }
  }

  // ---------- the expiry run ----------

  /** How many timers are due at `now`. */
  ghost function Due(q: seq<Entry>, now: nat): nat {
    if q == [] then 0 else (if q[0].deadline <= now then 1 else 0) + Due(q[1..], now)
  }

  ghost predicate DueTimer(q: seq<Entry>, id: nat, now: nat) {
    exists i :: 0 <= i < |q| && q[i].id == id && q[i].deadline <= now
  }

  /** No call reads the clock before `now`. */
  ghost predicate NotBefore(ops: seq<Op>, now: nat) {
    forall i :: 0 <= i < |ops| ==> ops[i].Delete? || now <= ops[i].at
  }

  ghost predicate Settles(op: Op, id: nat) {
    op.id == id && (op.Delete? || (op.Delay? && op.delay > 0))
  }

  /** A callback serves the timer it was called for when it deletes it or really delays it. */
  ghost predicate Serves(ops: seq<Op>, id: nat, now: nat) {
    NotBefore(ops, now) && exists i :: 0 <= i < |ops| && Settles(ops[i], id)
  }

  lemma {:induction false} DueInsert(q: seq<Entry>, e: Entry, now: nat)
    ensures Due(Insert(q, e), now) == Due(q, now) + if e.deadline <= now then 1 else 0
  {
    if q == [] || e.deadline < q[0].deadline {
      assert ([e] + q)[1..] == q;
    } else {
      DueInsert(q[1..], e, now);
      assert ([q[0]] + Insert(q[1..], e))[1..] == Insert(q[1..], e);
    }
  }

  lemma {:induction false} DueRemove(q: seq<Entry>, id: nat, now: nat)
    requires UniqueIds(q)
    ensures Due(Remove(q, id), now) == Due(q, now) - if DueTimer(q, id, now) then 1 else 0
  {
    if q != [] {
      assert forall i :: 0 <= i < |q[1..]| ==> q[1..][i] == q[i + 1];
      if q[0].id == id {
        assert DueTimer(q, id, now) <==> q[0].deadline <= now;
      } else {
        DueRemove(q[1..], id, now);
        assert ([q[0]] + Remove(q[1..], id))[1..] == Remove(q[1..], id);
        if DueTimer(q, id, now) {
          var i :| 0 <= i < |q| && q[i].id == id && q[i].deadline <= now;
          assert q[1..][i - 1] == q[i];
        }
      }
    }
  }

  // ---------- what every call keeps ----------

  lemma {:induction false} ArmedInsert(q: seq<Entry>, e: Entry, x: nat)
    ensures Armed(Insert(q, e), x) <==> Armed(q, x) || x == e.id
  {
    if q == [] || e.deadline < q[0].deadline {
      ArmedCons(e, q, x);
    } else {
      ArmedInsert(q[1..], e, x);
      ArmedCons(q[0], Insert(q[1..], e), x);
      ArmedCons(q[0], q[1..], x);
      assert q == [q[0]] + q[1..];
    }
  }

  lemma ArmedCons(e: Entry, q: seq<Entry>, x: nat)
    ensures Armed([e] + q, x) <==> e.id == x || Armed(q, x)
  {
    if Armed(q, x) {
      var i :| 0 <= i < |q| && q[i].id == x;
      assert ([e] + q)[i + 1].id == x;
    }
    if Armed([e] + q, x) && e.id != x {
      var i :| 0 <= i < |[e] + q| && ([e] + q)[i].id == x;
      assert q[i - 1].id == x;
    }
    assert ([e] + q)[0] == e;
  }

  lemma UniqueCons(e: Entry, q: seq<Entry>)
    ensures UniqueIds([e] + q) <==> UniqueIds(q) && !Armed(q, e.id)
  {
    var s := [e] + q;
    if UniqueIds(s) {
      forall i, j | 0 <= i < j < |q| ensures q[i].id != q[j].id {
        assert s[i + 1] == q[i] && s[j + 1] == q[j];
      }
      forall i | 0 <= i < |q| ensures q[i].id != e.id {
        assert s[0] == e && s[i + 1] == q[i];
      }
    } else {
      var i, j :| 0 <= i < j < |s| && s[i].id == s[j].id;
      assert s[j] == q[j - 1];
      assert i > 0 ==> s[i] == q[i - 1];
    }
  }

  lemma {:induction false} UniqueInsert(q: seq<Entry>, e: Entry)
    requires UniqueIds(q) && !Armed(q, e.id)
    ensures UniqueIds(Insert(q, e))
  {
    if q == [] || e.deadline < q[0].deadline {
      UniqueCons(e, q);
    } else {
      assert q == [q[0]] + q[1..];
      UniqueCons(q[0], q[1..]);
      ArmedCons(q[0], q[1..], e.id);
      UniqueInsert(q[1..], e);
      ArmedInsert(q[1..], e, q[0].id);
      UniqueCons(q[0], Insert(q[1..], e));
    }
  }

  lemma {:induction false} UniqueRemove(q: seq<Entry>, id: nat)
    requires UniqueIds(q)
    ensures UniqueIds(Remove(q, id))
    ensures forall x :: Armed(Remove(q, id), x) <==> Armed(q, x) && x != id
  {
    if q != [] {
      assert q == [q[0]] + q[1..];
      UniqueCons(q[0], q[1..]);
      if q[0].id == id {
        forall x ensures Armed(q[1..], x) <==> Armed(q, x) && x != id {
          ArmedCons(q[0], q[1..], x);
        }
      } else {
        UniqueRemove(q[1..], id);
        UniqueCons(q[0], Remove(q[1..], id));
        forall x ensures Armed(Remove(q, id), x) <==> Armed(q, x) && x != id {
          ArmedCons(q[0], q[1..], x);
          ArmedCons(q[0], Remove(q[1..], id), x);
        }
      }
    }
  }

  lemma OrderedCons(e: Entry, q: seq<Entry>)
    ensures Ordered([e] + q) <==> Ordered(q) && (q != [] ==> e.deadline <= q[0].deadline)
  {
    var s := [e] + q;
    if Ordered(s) {
      forall i, j | 0 <= i < j < |q| ensures q[i].deadline <= q[j].deadline {
        assert s[i + 1] == q[i];
        assert s[j + 1] == q[j];
        assert s[i + 1].deadline <= s[j + 1].deadline;
      }
      assert q != [] ==> s[0].deadline <= s[1].deadline && s[1] == q[0];
    } else {
      var i, j :| 0 <= i < j < |s| && s[j].deadline < s[i].deadline;
      assert s[j] == q[j - 1];
      if i > 0 {
        assert s[i] == q[i - 1];
      } else if j > 1 {
        assert Ordered(q) ==> q[0].deadline <= q[j - 1].deadline;
      }
    }
  }

  lemma {:induction false} OrderedInsert(q: seq<Entry>, e: Entry)
    requires Ordered(q)
    ensures Ordered(Insert(q, e))
  {
    if q == [] || e.deadline < q[0].deadline {
      OrderedCons(e, q);
    } else {
      assert q == [q[0]] + q[1..];
      OrderedCons(q[0], q[1..]);
      OrderedInsert(q[1..], e);
      OrderedCons(q[0], Insert(q[1..], e));
    }
  }

  lemma {:induction false} OrderedRemove(q: seq<Entry>, id: nat)
    requires Ordered(q)
    ensures Ordered(Remove(q, id))
    ensures q != [] && Remove(q, id) != [] ==> q[0].deadline <= Remove(q, id)[0].deadline
  {
    if q != [] {
      assert q == [q[0]] + q[1..];
      OrderedCons(q[0], q[1..]);
      if q[0].id != id {
        OrderedRemove(q[1..], id);
        OrderedCons(q[0], Remove(q[1..], id));
      }
    }
  }

  ghost predicate Good(q: seq<Entry>) {
    Ordered(q) && UniqueIds(q)
  }

  /** Every call keeps the queue in deadline order with one entry per timer. */
  lemma ApplyGood(q: seq<Entry>, op: Op)
    requires Good(q)
    ensures Good(Apply(q, op))
  {
    match op
    case Add(id, delay, at) =>
      var e := Entry(id, at + delay);
      OrderedInsert(q, e);
      if !Armed(q, id) {
        UniqueInsert(q, e);
      }
    case Delete(id) =>
      OrderedRemove(q, id);
      UniqueRemove(q, id);
    case Delay(id, delay, at) =>
      OrderedRemove(q, id);
      UniqueRemove(q, id);
      OrderedInsert(Remove(q, id), Entry(id, at + delay));
      UniqueInsert(Remove(q, id), Entry(id, at + delay));
  }

  lemma {:induction false} ApplyAllGood(q: seq<Entry>, ops: seq<Op>)
    requires Good(q)
    ensures Good(ApplyAll(q, ops))
    decreases |ops|
  {
    if ops != [] {
      ApplyGood(q, ops[0]);
      ApplyAllGood(Apply(q, ops[0]), ops[1..]);
    }
  }

  // ---------- what each call does to its own timer, and to the others ----------

  /** The timers of all other ids, in their order. */
  ghost function Others(q: seq<Entry>, id: nat): (r: seq<Entry>) {
    if q == [] then [] else (if q[0].id == id then [] else [q[0]]) + Others(q[1..], id)
  }

  lemma {:induction false} OthersInsert(q: seq<Entry>, e: Entry)
    ensures Others(Insert(q, e), e.id) == Others(q, e.id)
  {
    if q == [] || e.deadline < q[0].deadline {
      assert ([e] + q)[1..] == q;
    } else {
      OthersInsert(q[1..], e);
      assert ([q[0]] + Insert(q[1..], e))[1..] == Insert(q[1..], e);
    }
  }

  lemma {:induction false} OthersAbsent(q: seq<Entry>, id: nat)
    requires !Armed(q, id)
    ensures Others(q, id) == q
  {
    if q != [] {
      assert q[0].id != id;
      assert forall i :: 0 <= i < |q[1..]| ==> q[1..][i] == q[i + 1];
      OthersAbsent(q[1..], id);
    }
  }

  /** Removing a timer leaves the others as they are. */
  lemma {:induction false} RemoveIsOthers(q: seq<Entry>, id: nat)
    requires UniqueIds(q)
    ensures Remove(q, id) == Others(q, id)
  {
    if q != [] {
      assert forall i :: 0 <= i < |q[1..]| ==> q[1..][i] == q[i + 1];
      if q[0].id == id {
        OthersAbsent(q[1..], id);
      } else {
        RemoveIsOthers(q[1..], id);
      }
    }
  }

  /** Where an entry is armed: it stands behind all deadlines that are not later. */
  lemma {:induction false} InsertedLast(q: seq<Entry>, e: Entry) returns (k: nat)
    requires Ordered(q)
    ensures var r := Insert(q, e); k < |r| && r[k] == e && forall i :: k < i < |r| ==> e.deadline < r[i].deadline
  {
    if q == [] || e.deadline < q[0].deadline {
      k := 0;
    } else {
      assert forall i :: 0 <= i < |q[1..]| ==> q[1..][i] == q[i + 1];
      var j := InsertedLast(q[1..], e);
      k := j + 1;
      var r, rest := Insert(q, e), Insert(q[1..], e);
      assert forall i :: 0 < i < |r| ==> r[i] == rest[i - 1];
    }
  }

  /** The timer is armed with this deadline, behind all that are not due later. */
  ghost predicate DueLast(q: seq<Entry>, id: nat, deadline: nat) {
    && (forall e :: e in q && e.id == id ==> e.deadline == deadline)
    && exists k :: 0 <= k < |q| && q[k].id == id && forall i :: k < i < |q| ==> deadline < q[i].deadline
  }

  /** Arming under a free id: the timer is due `delay` after the clock reading, behind all that are not
      due later; with no delay, or under an id in use, nothing changes. */
  lemma AddLaw(q: seq<Entry>, id: nat, delay: nat, at: nat)
    requires Good(q)
    ensures var r := Apply(q, Add(id, delay, at));
      if delay == 0 || Armed(q, id) then r == q
      else
        Others(r, id) == q && DueLast(r, id, at + delay)
  {
    if delay > 0 && !Armed(q, id) {
      ArmedLaw(q, Entry(id, at + delay));
    }
  }

  lemma ArmedLaw(q: seq<Entry>, e: Entry)
    requires Ordered(q) && !Armed(q, e.id)
    ensures Others(Insert(q, e), e.id) == q && DueLast(Insert(q, e), e.id, e.deadline)
  {
    OthersInsert(q, e);
    OthersAbsent(q, e.id);
    OnlyEntry(q, e);
    var k := InsertedLast(q, e);
    hide Others, Insert, Ordered, Armed;
  }

  lemma {:induction false} OnlyEntry(q: seq<Entry>, e: Entry)
    requires !Armed(q, e.id)
    ensures forall x :: x in Insert(q, e) && x.id == e.id ==> x == e
  {
    if q != [] {
      assert q[0].id != e.id;
      assert forall i :: 0 <= i < |q[1..]| ==> q[1..][i] == q[i + 1];
      OnlyEntry(q[1..], e);
    }
  }

  /** A timer deleted is armed no more; the others stay as they are. */
  lemma DeleteLaw(q: seq<Entry>, id: nat)
    requires Good(q)
    ensures var r := Apply(q, Delete(id)); r == Others(q, id) && !Armed(r, id)
  {
    RemoveIsOthers(q, id);
    UniqueRemove(q, id);
  }

  /** A timer delayed is due `delay` after the clock reading, behind all that are not due later, and the
      others stay as they are; with no delay, or with an unknown id, nothing changes. */
  lemma DelayLaw(q: seq<Entry>, id: nat, delay: nat, at: nat)
    requires Good(q)
    ensures var r := Apply(q, Delay(id, delay, at));
      if delay == 0 || !Armed(q, id) then r == q
      else
        Others(r, id) == Others(q, id) && DueLast(r, id, at + delay)
  {
    hide Insert, Remove, Others, Ordered, UniqueIds, DueLast, Armed;
    if delay > 0 && Armed(q, id) {
      RemoveIsOthers(q, id);
      OrderedRemove(q, id);
      UniqueRemove(q, id);
      ArmedLaw(Remove(q, id), Entry(id, at + delay));
    }
  }

  // ---------- an expiry run ends ----------

  /** A timer due stays due until some call settles it, and no call makes another one due. */
  lemma ApplyDue(q: seq<Entry>, op: Op, id: nat, now: nat)
    requires UniqueIds(q) && (op.Delete? || now <= op.at)
    ensures Due(Apply(q, op), now) <= Due(q, now)
    ensures DueTimer(q, id, now) && !DueTimer(Apply(q, op), id, now) ==> Due(Apply(q, op), now) < Due(q, now)
    ensures DueTimer(q, id, now) && Settles(op, id) ==> Due(Apply(q, op), now) < Due(q, now)
  {
    match op
    case Add(a, delay, at) =>
      if delay > 0 {
        InsertDue(q, Entry(a, at + delay), id, now);
      }
    case Delete(a) => RemoveDue(q, a, id, now);
    case Delay(a, delay, at) =>
      if delay > 0 && Armed(q, a) {
        RemoveDue(q, a, id, now);
        InsertDue(Remove(q, a), Entry(a, at + delay), id, now);
      } else if delay > 0 {
        assert !DueTimer(q, a, now);
      }
  }

  lemma InsertDue(q: seq<Entry>, e: Entry, id: nat, now: nat)
    requires now < e.deadline
    ensures Due(Insert(q, e), now) == Due(q, now) && (DueTimer(q, id, now) ==> DueTimer(Insert(q, e), id, now))
  {
    DueInsert(q, e, now);
    InsertKeepsDue(q, e, id, now);
  }

  lemma RemoveDue(q: seq<Entry>, a: nat, id: nat, now: nat)
    requires UniqueIds(q)
    ensures Due(Remove(q, a), now) == Due(q, now) - if DueTimer(q, a, now) then 1 else 0
    ensures DueTimer(q, id, now) && a != id ==> DueTimer(Remove(q, a), id, now)
  {
    DueRemove(q, a, now);
    RemoveKeepsDue(q, a, id, now);
  }

  lemma DueTimerCons(e: Entry, q: seq<Entry>, id: nat, now: nat)
    ensures DueTimer([e] + q, id, now) <==> (e.id == id && e.deadline <= now) || DueTimer(q, id, now)
  {
    var s := [e] + q;
    assert s[0] == e;
    if DueTimer(q, id, now) {
      var i :| 0 <= i < |q| && q[i].id == id && q[i].deadline <= now;
      assert s[i + 1] == q[i];
    }
    if DueTimer(s, id, now) && !(e.id == id && e.deadline <= now) {
      var i :| 0 <= i < |s| && s[i].id == id && s[i].deadline <= now;
      assert q[i - 1] == s[i];
    }
  }

  lemma {:induction false} InsertKeepsDue(q: seq<Entry>, e: Entry, id: nat, now: nat)
    ensures DueTimer(q, id, now) ==> DueTimer(Insert(q, e), id, now)
  {
    if q == [] || e.deadline < q[0].deadline {
      DueTimerCons(e, q, id, now);
    } else {
      assert q == [q[0]] + q[1..];
      DueTimerCons(q[0], q[1..], id, now);
      DueTimerCons(q[0], Insert(q[1..], e), id, now);
      InsertKeepsDue(q[1..], e, id, now);
    }
  }

  lemma {:induction false} RemoveKeepsDue(q: seq<Entry>, a: nat, id: nat, now: nat)
    ensures DueTimer(q, id, now) && a != id ==> DueTimer(Remove(q, a), id, now)
  {
    if q != [] {
      assert q == [q[0]] + q[1..];
      DueTimerCons(q[0], q[1..], id, now);
      if q[0].id != a {
        DueTimerCons(q[0], Remove(q[1..], a), id, now);
        RemoveKeepsDue(q[1..], a, id, now);
      }
    }
  }

  /** Serving a due timer leaves fewer timers due, whatever else the callback does. */
  lemma {:induction false} ServedDue(q: seq<Entry>, ops: seq<Op>, id: nat, now: nat)
    requires Good(q) && NotBefore(ops, now)
    ensures Due(ApplyAll(q, ops), now) <= Due(q, now)
    ensures DueTimer(q, id, now) && Serves(ops, id, now) ==> Due(ApplyAll(q, ops), now) < Due(q, now)
    decreases |ops|
  {
    if ops != [] {
      var op, rest := ops[0], ops[1..];
      assert forall i :: 0 <= i < |rest| ==> rest[i] == ops[i + 1];
      ApplyDue(q, op, id, now);
      ApplyGood(q, op);
      ServedDue(Apply(q, op), rest, id, now);
      if Serves(ops, id, now) && !Settles(op, id) {
        var i :| 0 <= i < |ops| && Settles(ops[i], id);
        assert Settles(rest[i - 1], id);
      }
    }
  }

  /** What the callbacks of a run do: the n-th one, fired for timer `id`, makes the calls `script(n, id)`. */
  type Script = (nat, nat) -> seq<Op>

  ghost predicate Diligent(script: Script, now: nat) {
    forall n: nat, id: nat :: Serves(script(n, id), id, now)
  }

  /** The run: fire the first timer while it is due. The log and the queue left over. */
  ghost function Expire(q: seq<Entry>, now: nat, script: Script, n: nat): (r: (seq<Entry>, seq<Entry>))
    requires Good(q) && Diligent(script, now)
    decreases Due(q, now)
  {
    if q == [] || now < q[0].deadline then ([], q) else
      var ops := script(n, q[0].id);
      ApplyAllGood(q, ops);
      ServedDue(q, ops, q[0].id, now);
      var r := Expire(ApplyAll(q, ops), now, script, n + 1);
      ([q[0]] + r.0, r.1)
  }

  /** A run that has fired `log` and stands at `q` before callback `n` will end as `goal` says. */
  ghost predicate OnCourse(log: seq<Entry>, q: seq<Entry>, now: nat, script: Script, n: nat, goal: (seq<Entry>, seq<Entry>)) {
    Good(q) && Diligent(script, now) && Continued(log, Expire(q, now, script, n)) == goal
  }

  ghost function Continued(log: seq<Entry>, r: (seq<Entry>, seq<Entry>)): (seq<Entry>, seq<Entry>) {
    (log + r.0, r.1)
  }

  lemma CourseStart(q: seq<Entry>, now: nat, script: Script)
    requires Good(q) && Diligent(script, now)
    ensures OnCourse([], q, now, script, 0, Expire(q, now, script, 0))
  {
    var r := Expire(q, now, script, 0);
    assert [] + r.0 == r.0;
  }

  lemma CourseStep(log: seq<Entry>, q: seq<Entry>, now: nat, script: Script, n: nat, goal: (seq<Entry>, seq<Entry>))
    requires OnCourse(log, q, now, script, n, goal) && q != [] && q[0].deadline <= now
    ensures OnCourse(log + [q[0]], ApplyAll(q, script(n, q[0].id)), now, script, n + 1, goal)
    ensures Due(ApplyAll(q, script(n, q[0].id)), now) < Due(q, now)
  {
    var ops := script(n, q[0].id);
    ApplyAllGood(q, ops);
    assert Serves(ops, q[0].id, now) && DueTimer(q, q[0].id, now);
    ServedDue(q, ops, q[0].id, now);
    var rest := Expire(ApplyAll(q, ops), now, script, n + 1).0;
    assert Expire(q, now, script, n).0 == [q[0]] + rest;
    hide ApplyAll, Due, Good, Diligent, Serves, DueTimer;
    assert log + ([q[0]] + rest) == (log + [q[0]]) + rest;
  }

  lemma CourseEnd(log: seq<Entry>, q: seq<Entry>, now: nat, script: Script, n: nat, goal: (seq<Entry>, seq<Entry>))
    requires OnCourse(log, q, now, script, n, goal) && (q == [] || now < q[0].deadline)
    ensures (log, q) == goal
  {
    assert log + [] == log;
  }

  lemma NothingDue(q: seq<Entry>, now: nat)
    requires Good(q) && (q == [] || now < q[0].deadline)
    ensures forall i :: 0 <= i < |q| ==> now < q[i].deadline
  {
  }

  lemma {:induction false} ExpireLeavesNoneDue(q: seq<Entry>, now: nat, script: Script, n: nat)
    requires Good(q) && Diligent(script, now)
    ensures Good(Expire(q, now, script, n).1)
    ensures forall i :: 0 <= i < |Expire(q, now, script, n).1| ==> now < Expire(q, now, script, n).1[i].deadline
    ensures |Expire(q, now, script, n).0| <= Due(q, now)
    decreases Due(q, now)
  {
    if q == [] || now < q[0].deadline {
      NothingDue(q, now);
    } else {
      var ops := script(n, q[0].id);
      assert Serves(ops, q[0].id, now) && DueTimer(q, q[0].id, now);
      hide ApplyAll, Due, Good, Diligent, Serves, DueTimer;
      ApplyAllGood(q, ops);
      ServedDue(q, ops, q[0].id, now);
      ExpireLeavesNoneDue(ApplyAll(q, ops), now, script, n + 1);
    }
  }

  // ---------- and fires in order ----------

  ghost function DuePart(q: seq<Entry>, now: nat): seq<Entry> {
    if q == [] then [] else (if q[0].deadline <= now then [q[0]] else []) + DuePart(q[1..], now)
  }

  /** `a` is `b` with some entries left out. */
  ghost predicate Sub(a: seq<Entry>, b: seq<Entry>) {
    a == [] || (b != [] && ((a[0] == b[0] && Sub(a[1..], b[1..])) || Sub(a, b[1..])))
  }

  lemma {:induction false} SubSelf(a: seq<Entry>)
    ensures Sub(a, a)
  {
    if a != [] {
      SubSelf(a[1..]);
    }
  }

  lemma {:induction false} SubTrans(a: seq<Entry>, b: seq<Entry>, c: seq<Entry>)
    requires Sub(a, b) && Sub(b, c)
    ensures Sub(a, c)
    decreases |c|
  {
    if a != [] {
      if b[0] == c[0] && Sub(b[1..], c[1..]) {
        if a[0] == b[0] && Sub(a[1..], b[1..]) {
          SubTrans(a[1..], b[1..], c[1..]);
        } else {
          SubTrans(a, b[1..], c[1..]);
        }
      } else {
        SubTrans(a, b, c[1..]);
      }
    }
  }

  lemma {:induction false} DuePartInsert(q: seq<Entry>, e: Entry, now: nat)
    requires now < e.deadline
    ensures DuePart(Insert(q, e), now) == DuePart(q, now)
  {
    if q == [] || e.deadline < q[0].deadline {
      assert ([e] + q)[1..] == q;
    } else {
      DuePartInsert(q[1..], e, now);
      assert ([q[0]] + Insert(q[1..], e))[1..] == Insert(q[1..], e);
    }
  }

  lemma {:induction false} DuePartRemove(q: seq<Entry>, id: nat, now: nat)
    ensures Sub(DuePart(Remove(q, id), now), DuePart(q, now))
  {
    if q != [] {
      var d := DuePart(q[1..], now);
      SubSelf(d);
      if q[0].id == id {
        var whole := DuePart(q, now);
        assert if q[0].deadline <= now then whole[1..] == d else whole == d;
      } else {
        DuePartRemove(q[1..], id, now);
        var r := Remove(q[1..], id);
        assert ([q[0]] + r)[1..] == r;
        var rest, less, whole := DuePart(r, now), DuePart(Remove(q, id), now), DuePart(q, now);
        if q[0].deadline <= now {
          assert less[0] == whole[0] && less[1..] == rest && whole[1..] == d;
        } else {
          assert less == rest && whole == d;
        }
      }
    }
  }

  lemma DuePartApply(q: seq<Entry>, op: Op, now: nat)
    requires op.Delete? || now <= op.at
    ensures Sub(DuePart(Apply(q, op), now), DuePart(q, now))
  {
    SubSelf(DuePart(q, now));
    hide Sub, DuePart, Insert, Remove;
    match op
    case Add(id, delay, at) => if delay > 0 { DuePartInsert(q, Entry(id, at + delay), now); }
    case Delete(id) => DuePartRemove(q, id, now);
    case Delay(id, delay, at) =>
      if delay > 0 {
        DuePartRemove(q, id, now);
        DuePartInsert(Remove(q, id), Entry(id, at + delay), now);
      }
  }

  lemma {:induction false} DuePartApplyAll(q: seq<Entry>, ops: seq<Op>, now: nat)
    requires NotBefore(ops, now)
    ensures Sub(DuePart(ApplyAll(q, ops), now), DuePart(q, now))
    decreases |ops|
  {
    if ops == [] {
      SubSelf(DuePart(q, now));
    } else {
      var op, rest := ops[0], ops[1..];
      assert forall i :: 0 <= i < |rest| ==> rest[i] == ops[i + 1];
      DuePartApplyAll(Apply(q, op), rest, now);
      DuePartApply(q, op, now);
      SubTrans(DuePart(ApplyAll(q, ops), now), DuePart(Apply(q, op), now), DuePart(q, now));
    }
  }

  lemma {:induction false} DuePartMember(q: seq<Entry>, now: nat, i: nat)
    requires i < |DuePart(q, now)|
    ensures DueTimer(q, DuePart(q, now)[i].id, now)
  {
    assert q == [q[0]] + q[1..];
    var d, k := DuePart(q[1..], now), if q[0].deadline <= now then 1 else 0;
    DueTimerCons(q[0], q[1..], DuePart(q, now)[i].id, now);
    if i >= k {
      assert DuePart(q, now)[i] == d[i - k];
      DuePartMember(q[1..], now, i - k);
    }
  }

  lemma {:induction false} InsertNotDue(q: seq<Entry>, e: Entry, id: nat, now: nat)
    requires now < e.deadline
    ensures DueTimer(Insert(q, e), id, now) ==> DueTimer(q, id, now)
  {
    if q == [] || e.deadline < q[0].deadline {
      DueTimerCons(e, q, id, now);
    } else {
      assert q == [q[0]] + q[1..];
      DueTimerCons(q[0], q[1..], id, now);
      DueTimerCons(q[0], Insert(q[1..], e), id, now);
      InsertNotDue(q[1..], e, id, now);
    }
  }

  lemma {:induction false} RemoveNotDue(q: seq<Entry>, a: nat, id: nat, now: nat)
    requires UniqueIds(q)
    ensures DueTimer(Remove(q, a), id, now) ==> DueTimer(q, id, now) && id != a
  {
    UniqueRemove(q, a);
    if DueTimer(Remove(q, a), id, now) {
      assert Armed(Remove(q, a), id);
    }
    if q != [] {
      assert q == [q[0]] + q[1..];
      DueTimerCons(q[0], q[1..], id, now);
      if q[0].id != a {
        UniqueCons(q[0], q[1..]);
        DueTimerCons(q[0], Remove(q[1..], a), id, now);
        RemoveNotDue(q[1..], a, id, now);
      }
    }
  }

  lemma ApplyNotDue(q: seq<Entry>, op: Op, id: nat, now: nat)
    requires UniqueIds(q) && (op.Delete? || now <= op.at)
    requires !DueTimer(q, id, now) || Settles(op, id)
    ensures !DueTimer(Apply(q, op), id, now)
  {
    match op
    case Add(a, delay, at) =>
      if delay > 0 {
        InsertNotDue(q, Entry(a, at + delay), id, now);
      }
    case Delete(a) => RemoveNotDue(q, a, id, now);
    case Delay(a, delay, at) =>
      RemoveNotDue(q, a, id, now);
      if delay > 0 {
        InsertNotDue(Remove(q, a), Entry(a, at + delay), id, now);
      }
      assert !Armed(q, id) ==> !DueTimer(q, id, now);
  }

  lemma {:induction false} ServedNotDue(q: seq<Entry>, ops: seq<Op>, id: nat, now: nat)
    requires Good(q) && NotBefore(ops, now)
    requires !DueTimer(q, id, now) || Serves(ops, id, now)
    ensures !DueTimer(ApplyAll(q, ops), id, now)
    decreases |ops|
  {
    if ops != [] {
      var op, rest := ops[0], ops[1..];
      assert forall i :: 0 <= i < |rest| ==> rest[i] == ops[i + 1];
      ApplyGood(q, op);
      if !DueTimer(q, id, now) || Settles(op, id) {
        ApplyNotDue(q, op, id, now);
      } else {
        var i :| 0 <= i < |ops| && Settles(ops[i], id);
        assert Settles(rest[i - 1], id);
      }
      ServedNotDue(Apply(q, op), rest, id, now);
    }
  }

  /** Only timers that were due when the run began fire, each at most once, the earliest deadline
      first and equal deadlines in the order they were armed. */
  lemma {:induction false} ExpireInOrder(q: seq<Entry>, now: nat, script: Script, n: nat)
    requires Good(q) && Diligent(script, now)
    ensures Sub(Expire(q, now, script, n).0, DuePart(q, now))
    decreases Due(q, now)
  {
    if q != [] && q[0].deadline <= now {
      var ops := script(n, q[0].id);
      var q' := ApplyAll(q, ops);
      ApplyAllGood(q, ops);
      ServedDue(q, ops, q[0].id, now);
      ServedNotDue(q, ops, q[0].id, now);
      ExpireInOrder(q', now, script, n + 1);
      DuePartApplyAll(q, ops, now);
      var a, b, log := DuePart(q', now), DuePart(q, now), Expire(q', now, script, n + 1).0;
      assert b[0] == q[0];
      if a != [] {
        DuePartMember(q', now, 0);
        assert a[0] != b[0];
      }
      SubTrans(log, a, b[1..]);
      assert ([q[0]] + log)[1..] == log;
    }
  }

  ghost predicate Fired(log: seq<Entry>, id: nat) {
    exists k :: 0 <= k < |log| && log[k].id == id
  }

  ghost predicate SettledIn(ops: seq<Op>, id: nat) {
    exists i :: 0 <= i < |ops| && Settles(ops[i], id)
  }

  /** One of the callbacks of the run deleted or delayed the timer before it could fire. */
  ghost predicate SettledBefore(log: seq<Entry>, script: Script, n: nat, id: nat) {
    exists j :: 0 <= j < |log| && SettledAt(log, script, n, id, j)
  }

  ghost predicate SettledAt(log: seq<Entry>, script: Script, n: nat, id: nat, j: nat)
    requires j < |log|
  {
    SettledIn(script(n + j, log[j].id), id) && !Fired(log[..j + 1], id)
  }

  /** A timer due that no call settles stays due. */
  lemma {:induction false} UnsettledStaysDue(q: seq<Entry>, ops: seq<Op>, id: nat, now: nat)
    requires Good(q) && DueTimer(q, id, now) && !SettledIn(ops, id)
    ensures DueTimer(ApplyAll(q, ops), id, now)
    decreases |ops|
  {
    if ops != [] {
      var op, rest := ops[0], ops[1..];
      assert !Settles(op, id) && forall i :: 0 <= i < |rest| ==> rest[i] == ops[i + 1];
      match op {
        case Add(a, delay, at) => InsertKeepsDue(q, Entry(a, at + delay), id, now);
        case Delete(a) => RemoveKeepsDue(q, a, id, now);
        case Delay(a, delay, at) =>
          RemoveKeepsDue(q, a, id, now);
          InsertKeepsDue(Remove(q, a), Entry(a, at + delay), id, now);
      }
      ApplyGood(q, op);
      UnsettledStaysDue(Apply(q, op), rest, id, now);
    }
  }

  lemma FiredCons(e: Entry, log: seq<Entry>, id: nat)
    ensures Fired([e] + log, id) <==> e.id == id || Fired(log, id)
  {
    var whole := [e] + log;
    assert whole[0] == e;
    if Fired(log, id) {
      var k :| 0 <= k < |log| && log[k].id == id;
      assert whole[k + 1].id == id;
    }
    if Fired(whole, id) && e.id != id {
      var k :| 0 <= k < |whole| && whole[k].id == id;
      assert log[k - 1].id == id;
    }
  }

  lemma SettledCons(e: Entry, log: seq<Entry>, script: Script, n: nat, id: nat)
    requires e.id != id
    ensures SettledBefore([e] + log, script, n, id) <==>
      SettledIn(script(n, e.id), id) || SettledBefore(log, script, n + 1, id)
  {
    var whole := [e] + log;
    assert whole[..1] == [e] + [];
    FiredCons(e, [], id);
    assert SettledAt(whole, script, n, id, 0) <==> SettledIn(script(n, e.id), id);
    if SettledBefore(whole, script, n, id) {
      var j :| 0 <= j < |whole| && SettledAt(whole, script, n, id, j);
      if j > 0 {
        SettledShift(e, log, script, n, id, j - 1);
      }
    }
    if SettledBefore(log, script, n + 1, id) {
      var j :| 0 <= j < |log| && SettledAt(log, script, n + 1, id, j);
      SettledShift(e, log, script, n, id, j);
    }
  }

  lemma SettledShift(e: Entry, log: seq<Entry>, script: Script, n: nat, id: nat, j: nat)
    requires e.id != id && j < |log|
    ensures SettledAt([e] + log, script, n, id, j + 1) <==> SettledAt(log, script, n + 1, id, j)
  {
    var whole := [e] + log;
    assert whole[..j + 2] == [e] + log[..j + 1];
    FiredCons(e, log[..j + 1], id);
    assert n + (j + 1) == n + 1 + j && whole[j + 1] == log[j];
  }

  /** A timer fires exactly when it was due as the run began, and no callback that ran before it deleted
      or delayed it. */
  lemma {:induction false} FiresExactly(q: seq<Entry>, now: nat, script: Script, n: nat, id: nat)
    requires Good(q) && Diligent(script, now)
    ensures var log := Expire(q, now, script, n).0;
      Fired(log, id) <==> DueTimer(q, id, now) && !SettledBefore(log, script, n, id)
    decreases Due(q, now)
  {
    if q == [] || now < q[0].deadline {
      NothingDue(q, now);
    } else {
      var first := q[0];
      var ops := script(n, first.id);
      ApplyAllGood(q, ops);
      assert Serves(ops, first.id, now) && DueTimer(q, first.id, now);
      ServedDue(q, ops, first.id, now);
      var log := Expire(ApplyAll(q, ops), now, script, n + 1).0;
      FiresExactly(ApplyAll(q, ops), now, script, n + 1, id);
      assert Expire(q, now, script, n).0 == [first] + log;
      hide Expire, ApplyAll, Due, Diligent;
      FiredCons(first, log, id);
      if first.id == id {
        FirstFires(first, log, script, n);
      } else {
        SettledCons(first, log, script, n, id);
        DueExactly(q, ops, id, now);
      }
    }
  }

  lemma FirstFires(e: Entry, log: seq<Entry>, script: Script, n: nat)
    ensures !SettledBefore([e] + log, script, n, e.id)
  {
    forall j | 0 <= j < |[e] + log| ensures !SettledAt([e] + log, script, n, e.id, j) {
      assert ([e] + log)[..j + 1][0] == e;
    }
  }

  /** After the calls of a callback a timer is due exactly when it was and none of them settled it. */
  lemma DueExactly(q: seq<Entry>, ops: seq<Op>, id: nat, now: nat)
    requires Good(q) && NotBefore(ops, now)
    ensures DueTimer(ApplyAll(q, ops), id, now) <==> DueTimer(q, id, now) && !SettledIn(ops, id)
  {
    if SettledIn(ops, id) || !DueTimer(q, id, now) {
      ServedNotDue(q, ops, id, now);
    } else {
      UnsettledStaysDue(q, ops, id, now);
    }
  }

  lemma {:induction false} NoneDue(q: seq<Entry>, now: nat)
    requires Ordered(q) && (q != [] ==> now < q[0].deadline)
    ensures DuePart(q, now) == []
  {
    if q != [] {
      assert q == [q[0]] + q[1..];
      OrderedCons(q[0], q[1..]);
      NoneDue(q[1..], now);
    }
  }

  lemma DeleteHead(q: seq<Entry>, ops: seq<Op>)
    requires q != [] && ops == [Delete(q[0].id)]
    ensures ApplyAll(q, ops) == q[1..]
  {
    assert ops[1..] == [];
    assert ApplyAll(q, ops) == ApplyAll(Apply(q, ops[0]), ops[1..]);
  }

  ghost predicate OneShot(script: Script) {
    forall k: nat, id: nat :: script(k, id) == [Delete(id)]
  }

  lemma OneShotStep(q: seq<Entry>, now: nat, script: Script, n: nat)
    requires Good(q) && Diligent(script, now) && q != [] && q[0].deadline <= now
    requires OneShot(script)
    ensures Good(q[1..]) && Due(q[1..], now) < Due(q, now)
    ensures Expire(q, now, script, n).0 == [q[0]] + Expire(q[1..], now, script, n + 1).0
    ensures Expire(q, now, script, n).1 == Expire(q[1..], now, script, n + 1).1
  {
    var ops := script(n, q[0].id);
    DeleteHead(q, ops);
    ApplyAllGood(q, ops);
    ServedDue(q, ops, q[0].id, now);
  }

  lemma Reassemble(q: seq<Entry>, d: seq<Entry>, rest: seq<Entry>)
    requires q != [] && d + rest == q[1..]
    ensures [q[0]] + d + rest == q
  {
  }

  /** When every callback just deletes its timer, the run fires exactly the timers due, in order. */
  lemma {:induction false} OneShotExpiry(q: seq<Entry>, now: nat, script: Script, n: nat)
    requires Good(q) && Diligent(script, now)
    requires OneShot(script)
    ensures Expire(q, now, script, n).0 == DuePart(q, now)
    ensures DuePart(q, now) + Expire(q, now, script, n).1 == q
    decreases |q|
  {
    if q == [] || now < q[0].deadline {
      NoneDue(q, now);
    } else {
      OneShotStep(q, now, script, n);
      OneShotExpiry(q[1..], now, script, n + 1);
      Reassemble(q, DuePart(q[1..], now), Expire(q[1..], now, script, n + 1).1);
    }
  }
}
