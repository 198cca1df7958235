/** The timers of the event loop: one tree by deadline and one by id over the same timer records. */
module Timers {
  import opened Common
  import opened RbtShape
  import opened RbtHeap
  import opened TimerQueue
  import RbtAdd
  import RbtSearch
  import RbtWalk

  /** A timer record with its two embedded tree nodes; `id` is its address. */
  class Timer {
    const id: nat
    const t: Node
    const i: Node

    constructor (id: nat, deadline: nat)
      ensures fresh(t) && fresh(i) && t != i
      ensures this.id == id && t.key == deadline && i.key == id
    {
      this.id := id;
      t := new Node(deadline);
      i := new Node(id);
    }
  }

  ghost predicate Owned(s: seq<Node>, owner: map<Node, Timer>) {
    forall k :: 0 <= k < |s| ==> s[k] in owner
  }

  ghost function EntriesOf(s: seq<Node>, owner: map<Node, Timer>): (q: seq<Entry>)
    requires Owned(s, owner)
    reads s`key
    ensures |q| == |s| && forall k :: 0 <= k < |s| ==> q[k] == Entry(owner[s[k]].id, s[k].key)
  {
    if s == [] then [] else [Entry(owner[s[0]].id, s[0].key)] + EntriesOf(s[1..], owner)
  }

  lemma EntriesConcat(a: seq<Node>, b: seq<Node>, owner: map<Node, Timer>)
    requires Owned(a, owner) && Owned(b, owner)
    ensures Owned(a + b, owner) && EntriesOf(a + b, owner) == EntriesOf(a, owner) + EntriesOf(b, owner)
  {
  }

  lemma InsertEntries(a: seq<Node>, n: Node, b: seq<Node>, owner: map<Node, Timer>)
    requires Owned(a, owner) && Owned(b, owner) && n in owner
    requires RbtAdd.LastOfEquals(KeysOf(a + [n] + b), |a|)
    ensures Owned(a + b, owner) && Owned(a + [n] + b, owner)
    ensures EntriesOf(a + [n] + b, owner) == Insert(EntriesOf(a + b, owner), Entry(owner[n].id, n.key))
  {
    EntriesConcat(a, b, owner);
    EntriesConcat(a, [n], owner);
    EntriesConcat(a + [n], b, owner);
    var keys, k := KeysOf(a + [n] + b), |a|;
    assert forall j :: 0 <= j < k ==> a[j].key == keys[j];
    forall j | 0 <= j < |b| ensures n.key < b[j].key {
      assert keys[k] < keys[k + 1 + j];
    }
    assert EntriesOf([n], owner) == [Entry(owner[n].id, n.key)];
    InsertSplit(EntriesOf(a, owner), Entry(owner[n].id, n.key), EntriesOf(b, owner));
  }

  lemma RemoveEntries(a: seq<Node>, n: Node, b: seq<Node>, owner: map<Node, Timer>)
    requires Owned(a, owner) && Owned(b, owner) && n in owner
    requires forall j :: 0 <= j < |a| ==> owner[a[j]].id != owner[n].id
    ensures Owned(a + b, owner) && Owned(a + [n] + b, owner)
    ensures EntriesOf(a + b, owner) == Remove(EntriesOf(a + [n] + b, owner), owner[n].id)
  {
    EntriesConcat(a, b, owner);
    EntriesConcat(a, [n], owner);
    EntriesConcat(a + [n], b, owner);
    assert EntriesOf([n], owner) == [Entry(owner[n].id, n.key)];
    RemoveSplit(EntriesOf(a, owner), Entry(owner[n].id, n.key), EntriesOf(b, owner));
  }

  /** `owner` pairs the nodes of the two trees, record by record; ids tell records apart. */
  ghost predicate Paired(owner: map<Node, Timer>, byTime: set<Node>, byId: set<Node>) {
    forall u: bool {:trigger Unfold(u)} :: Unfold(u) ==>
      byTime !! byId && owner.Keys == byTime + byId &&
      (forall n :: n in byTime ==> owner[n].t == n && owner[n].i in byId && owner[owner[n].i] == owner[n]) &&
      (forall n :: n in byId ==> owner[n].i == n && owner[n].t in byTime && owner[owner[n].t] == owner[n]) &&
      (forall m, n :: m in byId && n in byId && owner[m].id == owner[n].id ==> m == n)
  }

  lemma PairedAdd(owner: map<Node, Timer>, byTime: set<Node>, byId: set<Node>, tm: Timer)
    requires Paired(owner, byTime, byId) && tm.t != tm.i && tm.t !in byTime + byId && tm.i !in byTime + byId
    requires owner.Keys == byTime + byId && forall n :: n in byId ==> owner[n].id != tm.id
    ensures Paired(owner[tm.t := tm][tm.i := tm], byTime + {tm.t}, byId + {tm.i})
  {
    assert Unfold(true);
  }

  lemma PairedRemove(owner: map<Node, Timer>, byTime: set<Node>, byId: set<Node>, tm: Timer)
    requires Paired(owner, byTime, byId) && tm.i in byId && tm.i in owner && owner[tm.i] == tm
    ensures Paired(owner - {tm.t, tm.i}, byTime - {tm.t}, byId - {tm.i})
  {
    assert Unfold(true);
  }

  /** The deadline tree alone: a new node, read as an entry of the queue. */
  method InsertTimer(t: Root, n: Node, ghost owner: map<Node, Timer>)
    requires t.Valid() && n !in t.repr && Owned(t.contents, owner) && n in owner
    modifies t, t.repr`left, t.repr`right, t.repr`pc, n`left, n`right, n`pc
    ensures t.Valid() && t.repr == old(t.repr) + {n} && Owned(t.contents, owner)
    ensures EntriesOf(t.contents, owner) == Insert(old(EntriesOf(t.contents, owner)), Entry(owner[n].id, n.key))
  {
    ghost var s, q := t.contents, EntriesOf(t.contents, owner);
    ghost var k := RbtAdd.InsertInt(t, n);
    assert s == s[..k] + s[k..];
    assert EntriesOf(s, owner) == q;
    InsertEntries(s[..k], n, s[k..], owner);
  }

  method RemoveTimer(t: Root, n: Node, ghost owner: map<Node, Timer>)
    requires t.Valid() && n in t.repr && Owned(t.contents, owner) && n in owner
    requires forall m :: m in t.repr && m in owner && owner[m].id == owner[n].id ==> m == n
    modifies t, t.repr`left, t.repr`right, t.repr`pc
    ensures t.Valid() && t.repr == old(t.repr) - {n} && Owned(t.contents, owner)
    ensures EntriesOf(t.contents, owner) == Remove(old(EntriesOf(t.contents, owner)), owner[n].id)
  {
    ghost var s, q := t.contents, EntriesOf(t.contents, owner);
    t.Open();
    t.NoRepeats();
    ghost var k;
    var next;
    next, k := RbtWalk.Delete(t, n);
    assert s == s[..k] + [n] + s[k + 1..];
    assert EntriesOf(s, owner) == q;
    RemoveEntries(s[..k], n, s[k + 1..], owner);
  }

  /** Off the deadline tree, a new key, and back on. */
  method RearmTimer(t: Root, n: Node, deadline: nat, ghost owner: map<Node, Timer>)
    requires t.Valid() && n in t.repr && Owned(t.contents, owner) && n in owner
    requires forall m :: m in t.repr && m in owner && owner[m].id == owner[n].id ==> m == n
    modifies t, t.repr`left, t.repr`right, t.repr`pc, n`key
    ensures t.Valid() && t.repr == old(t.repr) && Owned(t.contents, owner)
    ensures EntriesOf(t.contents, owner)
         == Insert(Remove(old(EntriesOf(t.contents, owner)), owner[n].id), Entry(owner[n].id, deadline))
  {
    RemoveTimer(t, n, owner);
    ghost var q := EntriesOf(t.contents, owner);
    t.Member(n);
    n.key := deadline;
    assert EntriesOf(t.contents, owner) == q;
    InsertTimer(t, n, owner);
  }

  method RearmIn(t: Root, i: Root, n: Node, deadline: nat, ghost owner: map<Node, Timer>)
    requires t != i && t.Valid() && i.Valid() && t.repr !! i.repr && n in t.repr && n in owner
    requires Owned(t.contents, owner) && KeyedById(i.contents, owner)
    requires forall m :: m in t.repr && m in owner && owner[m].id == owner[n].id ==> m == n
    modifies t, t.repr`left, t.repr`right, t.repr`pc, n`key
    ensures t.Valid() && t.repr == old(t.repr) && Owned(t.contents, owner)
    ensures i.Valid() && KeyedById(i.contents, owner)
    ensures EntriesOf(t.contents, owner)
         == Insert(Remove(old(EntriesOf(t.contents, owner)), owner[n].id), Entry(owner[n].id, deadline))
  {
    i.Member(n);
    RearmTimer(t, n, deadline, owner);
  }

  method RemoveBoth(t: Root, i: Root, cbs: Timer, ghost owner: map<Node, Timer>)
    requires t != i && t.Valid() && i.Valid() && t.repr !! i.repr
    requires Owned(t.contents, owner) && KeyedById(i.contents, owner)
    requires cbs.t in t.repr && cbs.i in i.repr && cbs.t in owner && owner[cbs.t] == cbs
    requires forall m :: m in t.repr && m in owner && owner[m].id == cbs.id ==> m == cbs.t
    modifies t, t.repr`left, t.repr`right, t.repr`pc, i, i.repr`left, i.repr`right, i.repr`pc
    ensures t.Valid() && t.repr == old(t.repr) - {cbs.t} && Owned(t.contents, owner)
    ensures i.Valid() && i.repr == old(i.repr) - {cbs.i} && KeyedById(i.contents, owner)
    ensures EntriesOf(t.contents, owner) == Remove(old(EntriesOf(t.contents, owner)), cbs.id)
  {
    ghost var q := EntriesOf(t.contents, owner);
    RemoveId(i, cbs.i, owner);
    assert EntriesOf(t.contents, owner) == q;
    RemoveTimer(t, cbs.t, owner);
  }

  ghost function IdsOf(s: seq<Node>, owner: map<Node, Timer>): (ids: seq<nat>)
    requires Owned(s, owner)
    ensures |ids| == |s| && forall k :: 0 <= k < |s| ==> ids[k] == owner[s[k]].id
  {
    if s == [] then [] else [owner[s[0]].id] + IdsOf(s[1..], owner)
  }

  /** The nodes of the id tree are keyed by the ids of their records. */
  ghost predicate KeyedById(s: seq<Node>, owner: map<Node, Timer>)
    reads s`key
  {
    Owned(s, owner) && KeysOf(s) == IdsOf(s, owner)
  }

  /** The id tree alone. */
  method InsertId(i: Root, n: Node, ghost owner: map<Node, Timer>)
    requires i.Valid() && n !in i.repr && KeyedById(i.contents, owner) && n in owner && n.key == owner[n].id
    modifies i, i.repr`left, i.repr`right, i.repr`pc, n`left, n`right, n`pc
    ensures i.Valid() && i.repr == old(i.repr) + {n} && KeyedById(i.contents, owner)
  {
    ghost var s, keys := i.contents, KeysOf(i.contents);
    ghost var k := RbtAdd.InsertInt(i, n);
    assert KeysOf(s) == keys;
    ghost var u := i.contents;
    forall j | 0 <= j < |u| ensures u[j] in owner && KeysOf(u)[j] == owner[u[j]].id {
      if j != k {
        assert u[j] == s[if j < k then j else j - 1];
      }
    }
    assert KeysOf(u) == IdsOf(u, owner);
  }

  method RemoveId(i: Root, n: Node, ghost owner: map<Node, Timer>)
    requires i.Valid() && n in i.repr && KeyedById(i.contents, owner)
    modifies i, i.repr`left, i.repr`right, i.repr`pc
    ensures i.Valid() && i.repr == old(i.repr) - {n} && KeyedById(i.contents, owner)
  {
    ghost var s, keys := i.contents, KeysOf(i.contents);
    ghost var k;
    var next;
    next, k := RbtWalk.Delete(i, n);
    assert KeysOf(s) == keys;
    ghost var u := i.contents;
    forall j | 0 <= j < |u| ensures u[j] in owner && KeysOf(u)[j] == owner[u[j]].id {
      assert u[j] == s[if j < k then j else j + 1];
    }
    assert KeysOf(u) == IdsOf(u, owner);
  }

  method InsertBoth(t: Root, i: Root, cbs: Timer, ghost owner: map<Node, Timer>)
    requires t != i && t.Valid() && i.Valid() && t.repr !! i.repr
    requires Owned(t.contents, owner) && KeyedById(i.contents, owner)
    requires cbs.t != cbs.i && cbs.t !in t.repr + i.repr && cbs.i !in t.repr + i.repr
    requires cbs.t in owner && owner[cbs.t] == cbs && cbs.i in owner && owner[cbs.i] == cbs && cbs.i.key == cbs.id
    modifies t, t.repr`left, t.repr`right, t.repr`pc, i, i.repr`left, i.repr`right, i.repr`pc,
             {cbs.t, cbs.i}`left, {cbs.t, cbs.i}`right, {cbs.t, cbs.i}`pc
    ensures t.Valid() && t.repr == old(t.repr) + {cbs.t} && Owned(t.contents, owner)
    ensures i.Valid() && i.repr == old(i.repr) + {cbs.i} && KeyedById(i.contents, owner)
    ensures EntriesOf(t.contents, owner) == Insert(old(EntriesOf(t.contents, owner)), Entry(cbs.id, cbs.t.key))
  {
    InsertTimer(t, cbs.t, owner);
    ghost var q := EntriesOf(t.contents, owner);
    InsertId(i, cbs.i, owner);
    assert EntriesOf(t.contents, owner) == q;
  }

  lemma ForgottenOwner(t: Root, i: Root, cbs: Timer, owner: map<Node, Timer>)
    requires t.Valid() && i.Valid() && Owned(t.contents, owner) && KeyedById(i.contents, owner)
    requires cbs.t !in t.repr && cbs.i !in i.repr && cbs.t !in i.repr && cbs.i !in t.repr
    ensures Owned(t.contents, owner - {cbs.t, cbs.i}) && KeyedById(i.contents, owner - {cbs.t, cbs.i})
    ensures EntriesOf(t.contents, owner - {cbs.t, cbs.i}) == EntriesOf(t.contents, owner)
  {
    t.Open();
    i.Open();
    var owner1 := owner - {cbs.t, cbs.i};
    assert Owned(i.contents, owner1) && IdsOf(i.contents, owner1) == IdsOf(i.contents, owner);
  }

  class Epoll {
    const t: Root
    const i: Root
    /** From an embedded node to its record. */
    var owner: map<Node, Timer>

    /** Both trees are sound and hold the two nodes of the same records; ids tell records apart. */
    ghost predicate Valid()
      reads this, t, i, t.repr, i.repr, t.contents`key, i.contents`key
    {
      t != i && t.Valid() && i.Valid() && t.repr !! i.repr && owner.Keys == t.repr + i.repr &&
      Paired(owner, t.repr, i.repr) &&
      Owned(t.contents, owner) && KeyedById(i.contents, owner)
    }

    /** The abstract value: the timers in the order they are to fire. */
    ghost function Queue(): seq<Entry>
      requires Valid()
      reads this, t, i, t.repr, i.repr, t.contents`key, i.contents`key
    {
      EntriesOf(t.contents, owner)
    }

    constructor ()
      ensures Valid() && Queue() == []
      ensures fresh(t) && fresh(i)
    {
      t := new Root();
      i := new Root();
      owner := map[];
    }

    lemma QueueGood()
      requires Valid()
      ensures Good(Queue())
    {
      t.Open();
      t.NoRepeats();
      assert Unfold(true);
      var q, s := Queue(), t.contents;
      forall j, k | 0 <= j < k < |q| ensures q[j].id != q[k].id && q[j].deadline <= q[k].deadline {
        assert KeysOf(s)[j] <= KeysOf(s)[k];
        assert s[j] != s[k] && owner[s[j]].i != owner[s[k]].i;
      }
    }

    /** A record is found by its id in one tree exactly when its deadline stands in the other. */
    lemma TreesAgree(id: nat)
      requires Valid()
      ensures Armed(Queue(), id) <==> exists k :: 0 <= k < |i.contents| && i.contents[k].key == id
    {
      t.Open();
      i.Open();
      assert Unfold(true);
      if Armed(Queue(), id) {
        var k :| 0 <= k < |Queue()| && Queue()[k].id == id;
        var n := owner[t.contents[k]].i;
        i.Member(n);
        assert n.key == id;
      }
      if exists k :: 0 <= k < |i.contents| && i.contents[k].key == id {
        var k :| 0 <= k < |i.contents| && i.contents[k].key == id;
        var n := owner[i.contents[k]].t;
        t.Member(n);
        var j :| 0 <= j < |t.contents| && t.contents[j] == n;
        assert Queue()[j].id == id;
      }
    }

    method SetOwner(owner1: map<Node, Timer>, ghost q: seq<Entry>)
      requires t != i && t.Valid() && i.Valid() && t.repr !! i.repr && owner1.Keys == t.repr + i.repr
      requires Paired(owner1, t.repr, i.repr)
      requires Owned(t.contents, owner1) && KeyedById(i.contents, owner1) && EntriesOf(t.contents, owner1) == q
      modifies this
      ensures Valid() && Queue() == q
    {
      owner := owner1;
    }

    /** Enters a record in both trees. */
    method Enroll(cbs: Timer)
      requires Valid() && cbs.t != cbs.i && cbs.t !in t.repr + i.repr && cbs.i !in t.repr + i.repr
      requires cbs.i.key == cbs.id && !Armed(Queue(), cbs.id)
      modifies this, t, i, t.repr, i.repr, cbs.t, cbs.i
      ensures Valid() && t.repr == old(t.repr) + {cbs.t} && i.repr == old(i.repr) + {cbs.i}
      ensures Queue() == Insert(old(Queue()), Entry(cbs.id, old(cbs.t.key)))
    {
      FreshId(cbs.id);
      PairedAdd(owner, t.repr, i.repr, cbs);
      ghost var q, owner1 := Queue(), owner[cbs.t := cbs][cbs.i := cbs];
      assert EntriesOf(t.contents, owner1) == q;
      assert IdsOf(i.contents, owner1) == IdsOf(i.contents, owner);
      InsertBoth(t, i, cbs, owner1);
      SetOwner(owner[cbs.t := cbs][cbs.i := cbs], Insert(q, Entry(cbs.id, cbs.t.key)));
    }

    lemma FreshId(id: nat)
      requires Valid() && !Armed(Queue(), id)
      ensures forall n :: n in i.repr ==> owner[n].id != id
    {
      TreesAgree(id);
      forall n | n in i.repr ensures owner[n].id != id {
        i.Member(n);
      }
    }

    /** The allocation of a record leaves the timers as they are. */
    method NewTimer(address: nat, deadline: nat) returns (cbs: Timer)
      requires Valid()
      ensures Valid() && Queue() == old(Queue())
      ensures fresh(cbs) && fresh(cbs.t) && fresh(cbs.i) && cbs.t != cbs.i
      ensures cbs.id == address && cbs.t.key == deadline && cbs.i.key == address
    {
      ghost var q := Queue();
      cbs := new Timer(address, deadline);
      assert EntriesOf(t.contents, owner) == q;
    }

    method Find(id: nat) returns (node: Node?)
      requires Valid()
      ensures Valid() && Queue() == old(Queue())
      ensures node == null <==> !Armed(Queue(), id)
      ensures node != null ==> node in i.repr && node in owner && owner[node].id == id
    {
      TreesAgree(id);
      ghost var q, k, steps := Queue(), 0, 0;
      node, k, steps := RbtSearch.SearchInt(i, id);
      assert EntriesOf(t.contents, owner) == q;
      if node != null {
        i.Open();
        assert IdsOf(i.contents, owner)[k] == KeysOf(i.contents)[k];
      }
    }

    method Arm(address: nat, deadline: nat) returns (cbs: Timer)
      requires Valid() && !Armed(Queue(), address)
      modifies this, t, i, t.repr, i.repr
      ensures Valid() && Queue() == Insert(old(Queue()), Entry(address, deadline))
      ensures fresh(t.repr - old(t.repr)) && fresh(i.repr - old(i.repr)) && cbs.id == address
    {
      ghost var q := Queue();
      cbs := NewTimer(address, deadline);
      assert Queue() == q;
      Enroll(cbs);
    }

    /** Arms a new record at the address the allocator gave out; an address in use stands for an
        allocation that failed. */
    method TimerAdd(delay: nat, at: nat, address: nat) returns (cbs: Timer?)
      requires Valid()
      modifies this, t, i, t.repr, i.repr
      ensures Valid() && Queue() == Apply(old(Queue()), TimerQueue.Add(address, delay, at))
      ensures fresh(t.repr - old(t.repr)) && fresh(i.repr - old(i.repr))
      ensures cbs != null <==> delay > 0 && !Armed(old(Queue()), address)
      ensures cbs != null ==> cbs.id == address
    {
      cbs := null;
      if delay > 0 {
        var used := Find(address);
        if used == null {
          cbs := Arm(address, at + delay);
        }
      }
    }

    /** The record behind an id-tree node, and why its deadline node is the only one with its id. */
    lemma RecordOf(node: Node)
      requires Valid() && node in i.repr
      ensures node in owner && owner[node].i == node && owner[node].t in t.repr && owner[owner[node].t] == owner[node]
      ensures forall m :: m in t.repr && m in owner && owner[m].id == owner[node].id ==> m == owner[node].t
    {
      assert Unfold(true);
      forall m | m in t.repr && m in owner && owner[m].id == owner[node].id ensures m == owner[node].t {
        assert owner[m].i == node;
      }
    }

    method TimerDelete(id: nat)
      requires Valid()
      modifies this, t, i, t.repr, i.repr
      ensures Valid() && Queue() == Apply(old(Queue()), TimerQueue.Delete(id))
      ensures t.repr <= old(t.repr) && i.repr <= old(i.repr)
    {
      ghost var q := Queue();
      var node := Find(id);
      assert Queue() == q;
      if node == null {
        RemoveAbsent(q, id);
        return;
      }
      RecordOf(node);
      var cbs := owner[node];
      PairedRemove(owner, t.repr, i.repr, cbs);
      RemoveBoth(t, i, cbs, owner);
      ForgottenOwner(t, i, cbs, owner);
      SetOwner(owner - {cbs.t, cbs.i}, Remove(q, id));
    }

    method TimerDelay(id: nat, delay: nat, at: nat)
      requires Valid()
      modifies t, t.repr
      ensures Valid() && Queue() == Apply(old(Queue()), TimerQueue.Delay(id, delay, at))
      ensures t.repr == old(t.repr) && i.repr == old(i.repr)
    {
      ghost var q := Queue();
      if delay == 0 {
        return;
      }
      var node := Find(id);
      assert Queue() == q;
      if node == null {
        return;
      }
      RecordOf(node);
      var cbs := owner[node];
      RearmIn(t, i, cbs.t, at + delay, owner);
    }

    method Perform(op: Op)
      requires Valid()
      modifies this, t, i, t.repr, i.repr
      ensures Valid() && Queue() == Apply(old(Queue()), op)
      ensures fresh(t.repr - old(t.repr)) && fresh(i.repr - old(i.repr))
    {
      match op
      case Add(id, delay, at) => var _ := TimerAdd(delay, at, id);
      case Delete(id) => TimerDelete(id);
      case Delay(id, delay, at) => TimerDelay(id, delay, at);
    }

    /** A callback, as the calls it makes. */
    method Callback(ops: seq<Op>)
      requires Valid()
      modifies this, t, i, t.repr, i.repr
      ensures Valid() && Queue() == ApplyAll(old(Queue()), ops)
      ensures fresh(t.repr - old(t.repr)) && fresh(i.repr - old(i.repr))
      decreases |ops|
    {
      if ops != [] {
        Perform(ops[0]);
        Callback(ops[1..]);
      }
    }

    /** The first timer to fire, if any. */
    method Head() returns (cbs: Timer?)
      requires Valid()
      ensures Valid() && Queue() == old(Queue())
      ensures cbs == null <==> Queue() == []
      ensures cbs != null ==> cbs.t in t.repr && Queue()[0] == Entry(cbs.id, cbs.t.key)
    {
      ghost var q := Queue();
      var n := RbtWalk.First(t);
      assert EntriesOf(t.contents, owner) == q;
      cbs := null;
      if n != null {
        t.Open();
        assert Unfold(true);
        cbs := owner[n];
      }
    }

    /** Fires the first timer if it is due. */
    method FireFirst(now: nat, script: Script, k: nat) returns (fired: bool)
      requires Valid()
      modifies this, t, i, t.repr, i.repr
      ensures Valid() && fresh(t.repr - old(t.repr)) && fresh(i.repr - old(i.repr))
      ensures fired <==> old(Queue()) != [] && old(Queue())[0].deadline <= now
      ensures Queue() == if fired then ApplyAll(old(Queue()), script(k, old(Queue())[0].id)) else old(Queue())
    {
      ghost var q := Queue();
      var cbs := Head();
      assert Queue() == q;
      if cbs == null || now < cbs.t.key {
        fired := false;
      } else {
        Callback(script(k, cbs.id));
        fired := true;
      }
    }

    method ExpiryTurn(now: nat, script: Script, k: nat, ghost log: seq<Entry>, ghost goal: (seq<Entry>, seq<Entry>))
      returns (fired: bool, ghost log1: seq<Entry>)
      requires Valid() && OnCourse(log, Queue(), now, script, k, goal)
      modifies this, t, i, t.repr, i.repr
      ensures Valid() && fresh(t.repr - old(t.repr)) && fresh(i.repr - old(i.repr))
      ensures fired ==> OnCourse(log1, Queue(), now, script, k + 1, goal) && Due(Queue(), now) < Due(old(Queue()), now)
      ensures !fired ==> (log1, Queue()) == goal
    {
      ghost var q := Queue();
      fired := FireFirst(now, script, k);
      if fired {
        CourseStep(log, q, now, script, k, goal);
        log1 := log + [q[0]];
      } else {
        CourseEnd(log, q, now, script, k, goal);
        log1 := log;
      }
    }

    /** The expiry loop of the event loop at the clock reading `now`. Its callbacks are any calls that
        serve the timer fired; the log lists the timers fired. */
    method RunExpired(now: nat, script: Script) returns (ghost log: seq<Entry>)
      requires Valid() && Diligent(script, now)
      modifies this, t, i, t.repr, i.repr
      ensures Valid() && Good(old(Queue()))
      ensures (log, Queue()) == Expire(old(Queue()), now, script, 0)
    {
      QueueGood();
      CourseStart(Queue(), now, script);
      ghost var goal := Expire(Queue(), now, script, 0);
      var k, fired := 0, true;
      log := [];
      while fired
        invariant Valid() && fresh(t.repr - old(t.repr)) && fresh(i.repr - old(i.repr))
        invariant if fired then OnCourse(log, Queue(), now, script, k, goal) else (log, Queue()) == goal
        decreases fired, Due(Queue(), now)
      {
        fired, log := ExpiryTurn(now, script, k, log, goal);
        k := k + 1;
      }
    }
  }
}
