/** The circular intrusive list. Its readers walk it along the `prev` links, so a link added next to
    the head on the `next` side comes last. */
module ListHead {
  import opened Common

  class Link {
    var next: Link?
    var prev: Link?

    constructor ()
      ensures Free()
    {
      next, prev := null, null;
    }

    /** In no list. */
    predicate Free()
      reads this
    {
      next == null && prev == null
    }
  }

  /** The way round the list: from the head along `prev`, through the items, to the head again. */
  ghost function Ring(head: Link, items: seq<Link>): (s: seq<Link>) { [head] + items + [head] }

  ghost predicate Distinct(s: seq<Link>) {
    forall i, j :: 0 <= i < j < |s| ==> s[i] != s[j]
  }

  lemma DistinctWith(a: seq<Link>, x: Link, b: seq<Link>)
    requires Distinct(a + b) && x !in a + b
    ensures Distinct(a + [x] + b)
  {
    var s, t := a + b, a + [x] + b;
    forall i, j | 0 <= i < j < |t| ensures t[i] != t[j] {
      assert i == |a| || t[i] == s[if i < |a| then i else i - 1];
      assert j == |a| || t[j] == s[if j < |a| then j else j - 1];
    }
  }

  lemma DistinctWithout(a: seq<Link>, x: Link, b: seq<Link>)
    requires Distinct(a + [x] + b)
    ensures Distinct(a + b) && x !in a + b
  {
    var s, t := a + [x] + b, a + b;
    forall i | 0 <= i < |t| ensures t[i] != x {
      assert t[i] == s[if i < |a| then i else i + 1] && s[|a|] == x;
    }
    forall i, j | 0 <= i < j < |t| ensures t[i] != t[j] {
      assert t[i] == s[if i < |a| then i else i + 1];
      assert t[j] == s[if j < |a| then j else j + 1];
    }
  }

  /** Only the head comes round again. */
  lemma RingDistinct(head: Link, items: seq<Link>)
    requires Distinct([head] + items)
    ensures forall i, j :: 0 <= i < j < |Ring(head, items)| && (i > 0 || j <= |items|) ==>
      Ring(head, items)[i] != Ring(head, items)[j]
    ensures head !in items
  {
    assert ([head] + items)[0] == head;
    assert forall k :: 0 <= k < |items| ==> items[k] == ([head] + items)[k + 1];
    var s, d := Ring(head, items), [head] + items;
    forall i, j | 0 <= i < j < |s| && (i > 0 || j <= |items|) ensures s[i] != s[j] {
      assert s[i] == d[i] && s[j] == d[if j <= |items| then j else 0];
    }
  }

  lemma Members(head: Link, items: seq<Link>)
    ensures forall l :: l in Ring(head, items) <==> l == head || l in items
  {
    assert Ring(head, items)[0] == head;
    assert forall i :: 0 <= i < |items| ==> Ring(head, items)[i + 1] == items[i];
  }

  ghost predicate Joined(s: seq<Link>, i: nat)
    requires i + 1 < |s|
    reads s
  {
    s[i].prev == s[i + 1] && s[i + 1].next == s[i]
  }

  ghost predicate Chained(s: seq<Link>)
    reads s
  {
    forall i {:trigger Joined(s, i)} :: 0 <= i < |s| - 1 ==> Joined(s, i)
  }

  ghost function Without<T>(s: seq<T>, i: nat): (r: seq<T>)
    requires i < |s|
  {
    s[..i] + s[i + 1..]
  }

  /** A list, by its head; `items` are the links in reading order. */
  class List {
    const head: Link
    ghost var items: seq<Link>

    ghost predicate Valid()
      reads this, head, items
    {
      forall u: bool {:trigger Unfold(u)} :: Unfold(u) ==> Distinct([head] + items) && Chained(Ring(head, items))
    }

    lemma Open()
      requires Valid()
      ensures Distinct([head] + items) && Chained(Ring(head, items))
    {
      assert Unfold(true);
    }

    constructor (head: Link)
      modifies head
      ensures this.head == head && items == [] && Valid()
    {
      this.head := head;
      items := [];
      new;
      head.next := head;
      head.prev := head;
    }

    /** `__rns_list_add`: between two neighbours, after `k` items. */
    method InsertBetween(added: Link, prev: Link, next: Link, ghost k: nat)
      requires Valid() && k <= |items| && added !in Ring(head, items)
      requires next == Ring(head, items)[k] && prev == Ring(head, items)[k + 1]
      modifies this`items, added, prev, next
      ensures items == old(items)[..k] + [added] + old(items)[k..]
      ensures Valid()
      ensures !added.Free()
    {
      Open();
      ghost var s := Ring(head, items);
      RingDistinct(head, items);
      assert [head] + items == ([head] + items[..k]) + items[k..];
      DistinctWith([head] + items[..k], added, items[k..]);
      next.prev := added;
      added.next := next;
      added.prev := prev;
      prev.next := added;
      items := items[..k] + [added] + items[k..];
      ghost var t := Ring(head, items);
      assert t == s[..k + 1] + [added] + s[k + 1..];
      assert [head] + items == [head] + old(items)[..k] + [added] + old(items)[k..];
      forall i | 0 <= i < |t| - 1 ensures Joined(t, i) {
        if i < k {
          assert old(Joined(s, i));
          assert t[i] == s[i] && t[i + 1] == s[i + 1];
        } else if i > k + 1 {
          assert old(Joined(s, i - 1));
          assert t[i] == s[i - 1] && t[i + 1] == s[i];
        }
      }
    }

    /** `rns_list_add`: at the end. */
    method Add(added: Link)
      requires Valid() && added !in Ring(head, items)
      modifies this`items, added, head, items
      ensures Valid() && items == old(items) + [added]
      ensures !added.Free()
    {
      Open();
      ghost var k := |items|;
      assert Joined(Ring(head, items), k);
      InsertBetween(added, head, head.next, k);
    }

    /** `rns_list_add_first`. */
    method AddFirst(added: Link)
      requires Valid() && added !in Ring(head, items)
      modifies this`items, added, head, items
      ensures Valid() && items == [added] + old(items)
      ensures !added.Free()
    {
      Open();
      assert Joined(Ring(head, items), 0);
      InsertBetween(added, head.prev, head, 0);
    }

    /** `rns_list_del` of an item of this list. */
    method Delete(entry: Link, ghost k: nat)
      requires Valid() && k < |items| && items[k] == entry
      modifies this`items, head, items
      ensures Valid() && items == Without(old(items), k) && entry !in Ring(head, items)
      ensures entry.Free()
    {
      Unlink(entry, this, k);
    }

    /** `rns_list_del`, which is not told of the list: the neighbours close up around the entry. */
    static method Unlink(entry: Link, ghost list: List, ghost k: nat)
      requires list.Valid() && k < |list.items| && list.items[k] == entry
      modifies list`items, list.head, list.items
      ensures list.Valid() && list.items == Without(old(list.items), k) && entry !in Ring(list.head, list.items)
      ensures entry.Free()
    {
      list.Open();
      ghost var head, items := list.head, list.items;
      ghost var s := Ring(head, items);
      RingDistinct(head, items);
      assert [head] + items == ([head] + items[..k]) + [entry] + items[k + 1..];
      DistinctWithout([head] + items[..k], entry, items[k + 1..]);
      assert Joined(s, k) && Joined(s, k + 1);
      entry.next.prev := entry.prev;
      entry.prev.next := entry.next;
      entry.next := null;
      entry.prev := null;
      list.items := Without(items, k);
      ghost var t := Ring(head, list.items);
      assert t == s[..k + 1] + s[k + 2..];
      assert [head] + list.items == [head] + items[..k] + items[k + 1..];
      forall i | 0 <= i < |t| - 1 ensures Joined(t, i) {
        if i < k {
          assert old(Joined(s, i));
          assert t[i] == s[i] && t[i + 1] == s[i + 1];
        } else if i > k {
          assert old(Joined(s, i + 1));
          assert t[i] == s[i + 1] && t[i + 1] == s[i + 2];
        }
      }
    }

    /** `rns_list_del_safe`: a link in no list is left alone. */
    method DeleteSafe(entry: Link, ghost k: nat)
      requires Valid()
      requires !entry.Free() ==> k < |items| && items[k] == entry
      modifies this`items, head, items
      ensures Valid() && entry.Free()
      ensures items == if old(entry.Free()) then old(items) else Without(old(items), k)
    {
      if !(entry.prev == null && entry.next == null) {
        Delete(entry, k);
      }
    }

    /** `rns_list_add_safe`: to the end of this list, from wherever the link was: in no list, in this
        one or in another, `from`. */
    method AddSafe(entry: Link, ghost from: List?, ghost k: nat)
      requires Valid() && (entry.Free() <==> from == null)
      requires from != null ==> from.Valid() && k < |from.items| && from.items[k] == entry
      requires from != null && from != this ==> ApartFrom(from)
      modifies this`items, head, items, entry
      modifies if from == null then {} else {from, from.head} + set l | l in from.items
      ensures Valid() && !entry.Free()
      ensures items == (if from == this then Without(old(items), k) else old(items)) + [entry]
      ensures from != null && from != this ==> from.Valid() && from.items == Without(old(from.items), k)
    {
      InRing();
      if !(entry.prev == null && entry.next == null) {
        LeaveFrom(entry, from, k);
      }
      AddApart(entry, from);
    }

    /** Nothing but this list changes. */
    method AddApart(entry: Link, ghost from: List?)
      requires Valid() && entry !in Ring(head, items)
      requires from != null && from != this ==> from.Valid() && ApartFrom(from) && entry !in Ring(from.head, from.items)
      modifies this`items, head, items, entry
      ensures Valid() && !entry.Free() && items == old(items) + [entry]
      ensures from != null && from != this ==> from.Valid() && from.items == old(from.items)
    {
      Members(head, items);
      Add(entry);
      if from != null && from != this {
        from.StillValid();
      }
    }

    /** An item leaves its list, be it this one or another. */
    method LeaveFrom(entry: Link, ghost from: List, ghost k: nat)
      requires Valid() && from.Valid() && k < |from.items| && from.items[k] == entry
      requires from != this ==> ApartFrom(from)
      modifies from`items, from.head, from.items
      ensures Valid() && from.Valid() && from.items == Without(old(from.items), k)
      ensures from != this ==> ApartFrom(from) && items == old(items)
      ensures entry.Free() && entry !in Ring(head, items) && entry !in Ring(from.head, from.items)
    {
      hide Distinct, Chained;
      Members(head, items);
      Members(from.head, from.items);
      Unlink(entry, from, k);
      Members(from.head, from.items);
      if from != this {
        StillValid();
      }
    }

    twostate lemma StillValid()
      requires old(Valid()) && items == old(items)
      requires forall l :: l in Ring(head, items) ==> l.next == old(l.next) && l.prev == old(l.prev)
      ensures Valid()
    {
      assert Unfold(true);
      var s := Ring(head, items);
      forall i | 0 <= i < |s| - 1 ensures Joined(s, i) {
        assert old(Joined(s, i));
        assert s[i] in s && s[i + 1] in s;
      }
    }

    /** Two lists share no link. */
    ghost predicate ApartFrom(other: List)
      reads this, other
    {
      forall l :: l in Ring(other.head, other.items) ==> l !in Ring(head, items)
    }

    /** Links in the list are not free. */
    lemma InRing()
      requires Valid()
      ensures forall l :: l in Ring(head, items) ==> !l.Free()
    {
      Open();
      forall l | l in Ring(head, items) ensures !l.Free() {
        var i :| 0 <= i < |items| + 1 && Ring(head, items)[i] == l;
        assert Joined(Ring(head, items), i);
      }
    }

    /** `rns_list_first`. */
    method First() returns (l: Link?)
      requires Valid()
      ensures l == if items == [] then null else items[0]
    {
      Open();
      assert Joined(Ring(head, items), 0);
      RingDistinct(head, items);
      l := if head.prev == head then null else head.prev;
    }

    /** `rns_list_last`. */
    method Last() returns (l: Link?)
      requires Valid()
      ensures l == if items == [] then null else items[|items| - 1]
    {
      Open();
      assert Joined(Ring(head, items), |items|);
      RingDistinct(head, items);
      l := if head.next == head then null else head.next;
    }

    /** `rns_list_next`. */
    method Next(entry: Link, ghost k: nat) returns (l: Link?)
      requires Valid() && k < |items| && items[k] == entry
      ensures l == if k + 1 == |items| then null else items[k + 1]
    {
      Open();
      ghost var s := Ring(head, items);
      assert Joined(s, k + 1) && s[k + 1] == items[k] && s[k + 2] == if k + 1 == |items| then head else items[k + 1];
      RingDistinct(head, items);
      l := if entry.prev == head then null else entry.prev;
    }

    /** `rns_list_prev`: undoes `rns_list_next`. */
    method Prev(entry: Link, ghost k: nat) returns (l: Link?)
      requires Valid() && k < |items| && items[k] == entry
      ensures l == if k == 0 then null else items[k - 1]
    {
      Open();
      ghost var s := Ring(head, items);
      assert Joined(s, k) && s[k + 1] == items[k] && s[k] == if k == 0 then head else items[k - 1];
      RingDistinct(head, items);
      l := if entry.next == head then null else entry.next;
    }

    /** `rns_list_for_each_safe` with a body that unlinks each item: every item once, in order. */
    method Drain() returns (visited: seq<Link>)
      requires Valid()
      modifies this`items, head, items
      ensures visited == old(items)
      ensures Valid() && items == []
      ensures forall l :: l in old(items) ==> l.Free()
    {
      visited := [];
      Open();
      assert Joined(Ring(head, items), 0);
      var pos := head.prev;
      while pos != head
        invariant Valid()
        invariant visited + items == old(items) && forall i :: 0 <= i < |items| ==> items[i] in old(items)
        invariant forall l :: l in visited ==> l.Free() && l !in items && l != head
        invariant pos == Ring(head, items)[1]
        decreases |items|
      {
        hide Distinct, Chained;
        Open();
        RingDistinct(head, items);
        Popped(visited, items);
        var n := DrainOne(pos);
        visited := visited + [pos];
        pos := n;
      }
      Open();
      RingDistinct(head, items);
    }

    lemma Popped(visited: seq<Link>, items: seq<Link>)
      requires items != []
      ensures visited + [items[0]] + items[1..] == visited + items
    {
    }

    method DrainOne(pos: Link) returns (n: Link)
      requires Valid() && items != [] && pos == items[0]
      modifies this`items, head, items
      ensures Valid() && items == old(items)[1..] && pos.Free() && pos !in items && pos != head
      ensures n == Ring(head, items)[1]
    {
      Open();
      assert Joined(Ring(head, items), 1);
      n := pos.prev;
      Delete(pos, 0);
    }
  }
}
