// The linked structures behind the connection hand-off: items chained through their next fields, in
// one queue per worker thread and a shared free list that is refilled 64 items at a time.
module ConnQueue {
  import opened Machine

  const ITEMS_PER_ALLOC: nat := 64

  class CqItem {
    var sfd: int
    var id: int
    var next: CqItem?

    constructor ()
      ensures fresh(this)
    {
      sfd, id, next := 0, 0, null;
    }
  }

  function ItemAt(s: seq<CqItem>, i: nat): CqItem? {
    if i < |s| then s[i] else null
  }

  ghost predicate Distinct(s: seq<CqItem>) {
    forall i, j | 0 <= i < j < |s| :: s[i] != s[j]
  }

  /** The next fields spell out the sequence and end in null. So the list is acyclic. */
  ghost predicate Chained(s: seq<CqItem>)
    reads s
  {
    Distinct(s) && forall i | 0 <= i < |s| :: s[i].next == ItemAt(s, i + 1)
  }

  /** All but the last of a chain link to the next, and none is the last. */
  lemma LastLinks(s: seq<CqItem>)
    requires Chained(s)
    ensures Distinct(s)
    ensures forall i | 0 <= i < |s| - 1 :: s[i].next == s[i + 1] && s[i] != s[|s| - 1]
  {
  }

  /** A chain whose last item is linked to one behind it that links to nothing. */
  lemma ChainAppended(s: seq<CqItem>, item: CqItem)
    requires Distinct(s) && item !in s && item.next == null
    requires forall i | 0 <= i < |s| - 1 :: s[i].next == s[i + 1]
    requires s != [] ==> s[|s| - 1].next == item
    ensures Chained(s + [item])
  {
    var t := s + [item];
    forall i, j | 0 <= i < j < |t|
      ensures t[i] != t[j]
    {
      if j == |s| {
        assert t[i] in s;
      }
    }
  }

  class Queue {
    var head: CqItem?
    var tail: CqItem?
    ghost var items: seq<CqItem>

    ghost predicate Valid()
      reads this, items
    {
      && Chained(items)
      && head == ItemAt(items, 0)
      && tail == (if items == [] then null else items[|items| - 1])
    }

    constructor ()
      ensures Valid() && items == []
    {
      head, tail, items := null, null, [];
    }

    /** The item whose link is set besides the pushed one's own: the last one, if there is any. */
    function Linked(item: CqItem): CqItem
      reads this
    {
      if tail == null then item else tail
    }

    method Push(item: CqItem)
      requires Valid() && item !in items
      modifies this, item`next, Linked(item)`next
      ensures Valid() && items == old(items) + [item]
      ensures item.sfd == old(item.sfd) && item.id == old(item.id)
      ensures forall x | x in old(items) :: x.sfd == old(x.sfd) && x.id == old(x.id)
    {
      hide Chained;
      LastLinks(items);
      item.next := null;
      if tail == null {
        head := item;
      } else {
        tail.next := item;
      }
      tail := item;
      ChainAppended(items, item);
      items := items + [item];
    }

    method Pop() returns (item: CqItem?)
      requires Valid()
      modifies this
      ensures Valid()
      ensures old(items) == [] ==> item == null && items == []
      ensures old(items) != [] ==> item == old(items)[0] && items == old(items)[1..] && item !in items
    {
      item := head;
      if item != null {
        head := item.next;
        if head == null {
          tail := null;
        }
        items := items[1..];
      }
    }
  }

  /** A batch of new items, the second to the last of them chained. */
  method NewBatch() returns (batch: seq<CqItem>)
    ensures |batch| == ITEMS_PER_ALLOC == 64 && Distinct(batch) && forall x | x in batch :: fresh(x)
    ensures forall i | 1 <= i < ITEMS_PER_ALLOC - 1 :: batch[i].next == batch[i + 1]
  {
    batch := [];
    for k := 0 to ITEMS_PER_ALLOC
      invariant |batch| == k && Distinct(batch) && forall x | x in batch :: fresh(x)
    {
      var x := new CqItem();
      batch := batch + [x];
    }
    for i := 2 to ITEMS_PER_ALLOC
      invariant forall x | x in batch :: fresh(x)
      invariant forall j | 1 <= j < i - 1 :: batch[j].next == batch[j + 1]
    {
      assert batch[i - 1] in batch;
      batch[i - 1].next := batch[i];
    }
  }

  class FreeList {
    var head: CqItem?
    ghost var items: seq<CqItem>

    ghost predicate Valid()
      reads this, items
    {
      Chained(items) && head == ItemAt(items, 0)
    }

    constructor ()
      ensures Valid() && items == []
    {
      head, items := null, [];
    }

    /** The first stretch of ConnQueueItemNew under the lock: the head, or null. */
    method Take() returns (item: CqItem?)
      requires Valid()
      modifies this
      ensures Valid()
      ensures old(items) == [] ==> item == null && items == []
      ensures old(items) != [] ==> item == old(items)[0] && items == old(items)[1..] && item !in items
    {
      item := head;
      if item != null {
        head := item.next;
        items := items[1..];
      }
    }

    /** ConnQueueItemFree. */
    method Put(item: CqItem)
      requires Valid() && item !in items
      modifies this, item`next
      ensures Valid() && items == [item] + old(items)
    {
      item.next := head;
      head := item;
      items := [item] + items;
    }

    /**
     * The second stretch of ConnQueueItemNew: a batch but for its first item goes in front of the
     * list, which other threads may meanwhile have refilled.
     */
    method AddBatch() returns (item: CqItem, ghost added: seq<CqItem>)
      requires Valid()
      modifies this
      ensures Valid() && items == added + old(items) && |added| == ITEMS_PER_ALLOC - 1
      ensures fresh(item) && item !in added && forall x | x in added :: fresh(x)
    {
      var batch := NewBatch();
      item, added := batch[0], batch[1..];
      assert item in batch && batch[ITEMS_PER_ALLOC - 1] in batch;
      assert forall k | 0 <= k < |added| :: added[k] == batch[k + 1];
      assert forall x | x in added :: x in batch && x != item;
      batch[ITEMS_PER_ALLOC - 1].next := head;
      ChainedInFront(added, items);
      head := batch[1];
      items := added + items;
    }
  }

  // ----- All the lists together

  /** Where an item is: on the free list, held by a thread, or in the queue of a worker. */
  datatype Place = Free | Held | InQueue(w: nat)

  twostate lemma ChainKept(s: seq<CqItem>)
    requires old(Chained(s)) && forall x | x in s :: unchanged(x)
    ensures Chained(s)
  {
    forall i | 0 <= i < |s|
      ensures s[i].next == old(s[i].next)
    {
      assert s[i] in s;
    }
  }

  twostate lemma QueueKept(q: Queue)
    requires old(q.Valid()) && unchanged(q) && forall x | x in q.items :: unchanged(x)
    ensures q.Valid()
  {
    hide Chained;
    ChainKept(q.items);
  }

  twostate lemma FreeListKept(f: FreeList)
    requires old(f.Valid()) && unchanged(f) && forall x | x in f.items :: unchanged(x)
    ensures f.Valid()
  {
    hide Chained;
    ChainKept(f.items);
  }

  lemma TailInside(q: Queue)
    requires q.Valid()
    ensures q.tail != null ==> q.tail in q.items
  {
  }

  /** The connections that a list of items carries. */
  ghost function Conns(s: seq<CqItem>): (r: seq<(int, int)>)
    reads s
    ensures |r| == |s| && forall i | 0 <= i < |s| :: r[i] == (s[i].sfd, s[i].id)
  {
    seq(|s|, i reads s requires 0 <= i < |s| => (s[i].sfd, s[i].id))
  }

  twostate lemma ConnsKept(s: seq<CqItem>)
    requires forall i | 0 <= i < |s| :: s[i].sfd == old(s[i].sfd) && s[i].id == old(s[i].id)
    ensures Conns(s) == old(Conns(s))
  {
    var before, now := old(Conns(s)), Conns(s);
    assert |before| == |s| == |now|;
    assert forall i | 0 <= i < |s| :: now[i] == (s[i].sfd, s[i].id) && before[i] == (old(s[i].sfd), old(s[i].id));
    assert now == before;
  }

  /** Every item is in exactly one place: the lists hold what place says, and nothing else. */
  ghost predicate PlacesOk(place: map<CqItem, Place>, free: seq<CqItem>, qs: seq<seq<CqItem>>) {
    && (forall x | x in free :: x in place && place[x] == Free)
    && (forall x | x in place && place[x] == Free :: x in free)
    && (forall i, x | 0 <= i < |qs| && x in qs[i] :: x in place && place[x] == InQueue(i))
    && (forall x | x in place && place[x].InQueue? :: place[x].w < |qs| && x in qs[place[x].w])
  }

  lemma InPlace(place: map<CqItem, Place>, free: seq<CqItem>, qs: seq<seq<CqItem>>)
    requires PlacesOk(place, free, qs)
    ensures forall x | x in free :: x in place.Keys
    ensures forall i, x | 0 <= i < |qs| && x in qs[i] :: x in place.Keys
  {
  }

  lemma TookFree(place: map<CqItem, Place>, free: seq<CqItem>, qs: seq<seq<CqItem>>)
    requires PlacesOk(place, free, qs) && free != [] && free[0] !in free[1..]
    ensures PlacesOk(place[free[0] := Held], free[1..], qs) && free[0] in place && place[free[0]] == Free
  {
  }

  lemma PutFree(place: map<CqItem, Place>, free: seq<CqItem>, qs: seq<seq<CqItem>>, item: CqItem)
    requires PlacesOk(place, free, qs) && item in place && place[item] == Held
    ensures PlacesOk(place[item := Free], [item] + free, qs) && item !in free
  {
  }

  lemma BatchAdded(place: map<CqItem, Place>, free: seq<CqItem>, qs: seq<seq<CqItem>>, item: CqItem, added: seq<CqItem>)
    requires PlacesOk(place, free, qs) && item !in place && item !in added && forall x | x in added :: x !in place
    ensures PlacesOk(place[item := Held] + map x | x in added :: Free, added + free, qs)
  {
  }

  lemma Enqueued(place: map<CqItem, Place>, free: seq<CqItem>, qs: seq<seq<CqItem>>, w: nat, item: CqItem)
    requires PlacesOk(place, free, qs) && w < |qs| && item in place && place[item] == Held
    ensures PlacesOk(place[item := InQueue(w)], free, qs[w := qs[w] + [item]]) && item !in qs[w]
    ensures forall i, x | 0 <= i < |qs| && i != w && x in qs[i] :: x != item && x !in qs[w]
    ensures forall x | x in free :: x != item && x !in qs[w]
  {
    forall i, x | 0 <= i < |qs| && i != w && x in qs[i]
      ensures x != item && x !in qs[w]
    {
      assert place[x] == InQueue(i);
    }
  }

  lemma Dequeued(place: map<CqItem, Place>, free: seq<CqItem>, qs: seq<seq<CqItem>>, w: nat)
    requires PlacesOk(place, free, qs) && w < |qs| && qs[w] != [] && qs[w][0] !in qs[w][1..]
    ensures PlacesOk(place[qs[w][0] := Held], free, qs[w := qs[w][1..]])
  {
    var first := qs[w][0];
    assert qs[w] == [first] + qs[w][1..];
    assert forall x | x in qs[w] :: x == first || x in qs[w][1..];
    assert first in qs[w] && place[first] == InQueue(w);
    assert forall i | 0 <= i < |qs| :: first in qs[i] ==> place[first] == InQueue(i);
  }

  /** The worker threads' queues, the shared free list, and the place of every item allocated so far. */
  class Items {
    const queues: seq<Queue>
    const freeList: FreeList
    ghost var place: map<CqItem, Place>

    ghost function Contents(): (qs: seq<seq<CqItem>>)
      reads queues
      ensures |qs| == |queues| && forall i | 0 <= i < |queues| :: qs[i] == queues[i].items
    {
      seq(|queues|, i reads queues requires 0 <= i < |queues| => queues[i].items)
    }

    ghost predicate QueuesApart() {
      forall i, j | 0 <= i < j < |queues| :: queues[i] != queues[j]
    }

    ghost predicate Valid()
      reads this, queues, freeList, place.Keys
    {
      && QueuesApart() && PlacesOk(place, freeList.items, Contents())
      && (InPlace(place, freeList.items, Contents());
          freeList.Valid() && forall i | 0 <= i < |queues| :: queues[i].items == Contents()[i] && queues[i].Valid())
    }

    constructor (threads: nat)
      ensures Valid() && place == map[] && |queues| == threads
      ensures forall i | 0 <= i < threads :: queues[i].items == []
    {
      var qs: seq<Queue> := [];
      for k := 0 to threads
        invariant |qs| == k && (forall q | q in qs :: fresh(q) && q.Valid() && q.items == [])
        invariant forall i, j | 0 <= i < j < k :: qs[i] != qs[j]
      {
        var q := new Queue();
        qs := qs + [q];
      }
      queues := qs;
      var f := new FreeList();
      freeList, place := f, map[];
    }

    /** The rest of the structure is untouched by a change to one queue, the free list or items elsewhere. */
    twostate lemma OthersKept(w: int)
      requires old(Valid())
      requires forall i | 0 <= i < |queues| && i != w ::
        unchanged(queues[i]) && forall x | x in queues[i].items :: unchanged(x)
      ensures forall i | 0 <= i < |queues| && i != w :: queues[i].Valid()
    {
      hide Chained, Queue.Valid, FreeList.Valid;
      forall i | 0 <= i < |queues| && i != w
        ensures queues[i].Valid()
      {
        QueueKept(queues[i]);
      }
    }

    method TakeFree() returns (item: CqItem?)
      requires Valid()
      modifies this, freeList
      ensures Valid() && Contents() == old(Contents())
      ensures old(freeList.items) == [] ==> item == null && freeList.items == [] && place == old(place)
      ensures old(freeList.items) != [] ==>
        && item == old(freeList.items)[0] && freeList.items == old(freeList.items)[1..]
        && item in old(place) && old(place[item]) == Free && place == old(place)[item := Held]
    {
      hide Chained, Queue.Valid, FreeList.Valid, PlacesOk;
      item := freeList.Take();
      if item != null {
        TookFree(place, old(freeList.items), old(Contents()));
        place := place[item := Held];
      }
      OthersKept(-1);
      assert Contents() == old(Contents());
    }

    method AddBatch() returns (item: CqItem, ghost added: seq<CqItem>)
      requires Valid()
      modifies this, freeList
      ensures Valid() && |added| == ITEMS_PER_ALLOC - 1 && freeList.items == added + old(freeList.items)
      ensures Contents() == old(Contents())
      ensures fresh(item) && item !in added && forall x | x in added :: fresh(x)
      ensures place == old(place)[item := Held] + map x | x in added :: Free
    {
      hide Chained, Queue.Valid, FreeList.Valid, PlacesOk;
      item, added := freeList.AddBatch();
      BatchAdded(place, old(freeList.items), old(Contents()), item, added);
      place := place[item := Held] + map x | x in added :: Free;
      OthersKept(-1);
      assert Contents() == old(Contents());
    }

    /** ConnQueueItemNew: the head of the free list, or the first of a new batch. */
    method ItemNew() returns (item: CqItem)
      requires Valid()
      modifies this, freeList
      ensures Valid() && item in place && place[item] == Held && Contents() == old(Contents())
      ensures item in old(place) ==> old(place[item]) == Free
      ensures forall x | x in old(place) && x != item :: x in place && place[x] == old(place[x])
      ensures old(freeList.items) != [] ==> place.Keys == old(place.Keys)
      ensures old(freeList.items) == [] ==> fresh(item) && |freeList.items| == 63
      ensures old(freeList.items) != [] ==> item == old(freeList.items)[0] && freeList.items == old(freeList.items)[1..]
    {
      hide Chained, Queue.Valid, FreeList.Valid;
      var taken := TakeFree();
      if taken == null {
        ghost var added;
        item, added := AddBatch();
      } else {
        item := taken;
      }
    }

    /** ConnQueueItemFree. */
    method ItemFree(item: CqItem)
      requires Valid() && item in place && place[item] == Held
      modifies this, freeList, item
      ensures Valid() && Contents() == old(Contents())
      ensures freeList.items == [item] + old(freeList.items) && place == old(place)[item := Free]
      ensures item.sfd == old(item.sfd) && item.id == old(item.id)
    {
      hide Chained, Queue.Valid, FreeList.Valid;
      PutFree(place, freeList.items, Contents(), item);
      freeList.Put(item);
      OthersKept(-1);
      assert Contents() == old(Contents());
      place := place[item := Free];
    }

    method PushTo(w: nat, item: CqItem)
      requires w < |queues| && QueuesApart() && freeList.Valid() && forall i | 0 <= i < |queues| :: queues[i].Valid()
      requires item !in queues[w].items && forall x | x in freeList.items :: x != item && x !in queues[w].items
      requires forall i, x | 0 <= i < |queues| && i != w && x in queues[i].items :: x != item && x !in queues[w].items
      modifies queues[w], item`next, queues[w].Linked(item)`next
      ensures freeList.Valid() && forall i | 0 <= i < |queues| :: queues[i].Valid()
      ensures queues[w].items == old(queues[w].items) + [item]
      ensures forall i | 0 <= i < |queues| && i != w :: queues[i].items == old(queues[i].items)
      ensures item.sfd == old(item.sfd) && item.id == old(item.id)
      ensures forall x | x in old(queues[w].items) :: x.sfd == old(x.sfd) && x.id == old(x.id)
    {
      hide Chained, FreeList.Valid, Queue.Valid;
      TailInside(queues[w]);
      queues[w].Push(item);
      forall i | 0 <= i < |queues| && i != w
        ensures queues[i].Valid() && queues[i].items == old(queues[i].items)
      {
        assert queues[i] != queues[w];
        QueueKept(queues[i]);
      }
      FreeListKept(freeList);
    }

    /** A held item may be pushed: it is in no list, and the lists share no items. */
    lemma ReadyToPush(w: nat, item: CqItem)
      requires Valid() && w < |queues| && item in place && place[item] == Held
      ensures queues[w].tail != null ==> queues[w].tail in queues[w].items
      ensures PlacesOk(place[item := InQueue(w)], freeList.items, Contents()[w := queues[w].items + [item]])
      ensures item !in queues[w].items && forall x | x in freeList.items :: x != item && x !in queues[w].items
      ensures forall i, x | 0 <= i < |queues| && i != w && x in queues[i].items :: x != item && x !in queues[w].items
    {
      hide Chained, FreeList.Valid, PlacesOk;
      TailInside(queues[w]);
      Enqueued(place, freeList.items, Contents(), w, item);
      var qs := Contents();
      assert forall i | 0 <= i < |queues| :: qs[i] == queues[i].items;
    }

    twostate lemma ContentsChanged(w: nat)
      requires w < |queues| && forall i | 0 <= i < |queues| && i != w :: queues[i].items == old(queues[i].items)
      ensures Contents() == old(Contents())[w := queues[w].items]
    {
      var now, before := Contents(), old(Contents());
      assert forall i | 0 <= i < |queues| :: now[i] == queues[i].items && before[i] == old(queues[i].items);
      assert now == before[w := queues[w].items];
    }

    /** The queue part of DispatchSfdToWorker. */
    method Enqueue(w: nat, item: CqItem)
      requires Valid() && w < |queues| && item in place && place[item] == Held
      modifies this, queues[w], item`next, queues[w].Linked(item)`next
      ensures Valid() && freeList.items == old(freeList.items) && place == old(place)[item := InQueue(w)]
      ensures Contents() == old(Contents())[w := old(queues[w].items) + [item]]
      ensures forall x | x in place :: x.sfd == old(x.sfd) && x.id == old(x.id)
    {
      hide Chained, FreeList.Valid, Queue.Valid, PlacesOk;
      ReadyToPush(w, item);
      hide Contents, QueuesApart;
      PushTo(w, item);
      ContentsChanged(w);
      place := place[item := InQueue(w)];
    }

    method PopFrom(w: nat) returns (item: CqItem?)
      requires w < |queues| && QueuesApart() && freeList.Valid() && forall i | 0 <= i < |queues| :: queues[i].Valid()
      modifies queues[w]
      ensures freeList.Valid() && forall i | 0 <= i < |queues| :: queues[i].Valid()
      ensures forall i | 0 <= i < |queues| && i != w :: queues[i].items == old(queues[i].items)
      ensures old(queues[w].items) == [] ==> item == null && queues[w].items == []
      ensures old(queues[w].items) != [] ==>
        item == old(queues[w].items)[0] && queues[w].items == old(queues[w].items)[1..] && item !in queues[w].items
    {
      hide Chained, FreeList.Valid, Queue.Valid;
      item := queues[w].Pop();
      forall i | 0 <= i < |queues| && i != w
        ensures queues[i].Valid() && queues[i].items == old(queues[i].items)
      {
        assert queues[i] != queues[w];
        QueueKept(queues[i]);
      }
      FreeListKept(freeList);
    }

    /** The queue part of ThreadLibeventProcess. */
    method Dequeue(w: nat) returns (item: CqItem?)
      requires Valid() && w < |queues|
      modifies this, queues[w]
      ensures Valid() && freeList.items == old(freeList.items)
      ensures old(queues[w].items) == [] ==> item == null && Contents() == old(Contents()) && place == old(place)
      ensures old(queues[w].items) != [] ==>
        && item == old(queues[w].items)[0] && place == old(place)[item := Held]
        && Contents() == old(Contents())[w := old(queues[w].items)[1..]]
    {
      hide Chained, FreeList.Valid, Queue.Valid, PlacesOk;
      ghost var qs := Contents();
      item := PopFrom(w);
      assert Contents() == qs[w := queues[w].items];
      if item != null {
        Dequeued(place, freeList.items, qs, w);
        place := place[item := Held];
      } else {
        assert Contents() == qs;
      }
    }

    /** The same on the items: the next worker's queue has one more at its end, free or new before. */
    method DispatchItem(sfd: int, id: int, lastThread: int) returns (tid: nat, ghost item: CqItem)
      requires Valid() && |queues| > 0 && lastThread >= -1
      modifies this, freeList, queues, place.Keys
      ensures Valid() && tid == (lastThread + 1) % |queues|
      ensures Contents() == old(Contents())[tid := old(Contents())[tid] + [item]]
      ensures item.sfd == sfd && item.id == id && (item in old(place) ==> old(place[item]) == Free)
      ensures forall x | x in old(place) && x != item :: x.sfd == old(x.sfd) && x.id == old(x.id)
    {
      hide Chained, FreeList.Valid, Queue.Valid, PlacesOk;
      tid := (lastThread + 1) % |queues|;
      QueueInPlace(tid);
      var x := ItemNew();
      item := x;
      SetItem(x, sfd, id);
      Enqueue(tid, x);
    }

    /**
     * DispatchSfdToWorker up to the notification: round robin from the thread chosen last. The
     * connection waits behind the others of its worker; those of all workers wait as before.
     */
    method Dispatch(sfd: int, id: int, lastThread: int) returns (tid: nat, ghost item: CqItem)
      requires Valid() && |queues| > 0 && lastThread >= -1
      modifies this, freeList, queues, place.Keys
      ensures Valid() && tid == (lastThread + 1) % |queues|
      ensures Contents() == old(Contents())[tid := old(Contents())[tid] + [item]]
      ensures item.sfd == sfd && item.id == id && (item in old(place) ==> old(place[item]) == Free)
      ensures forall x | x in old(place) && x != item :: x.sfd == old(x.sfd) && x.id == old(x.id)
      ensures forall w | 0 <= w < |queues| ::
        Conns(queues[w].items) == old(Conns(queues[w].items)) + if w == tid then [(sfd, id)] else []
    {
      hide Valid, Conns;
      QueuedInPlace();
      tid, item := DispatchItem(sfd, id, lastThread);
      assert forall w | 0 <= w < |queues| :: Contents()[w] == queues[w].items;
      WaitingAppended(tid, item);
    }

    /** The queues' items are in place, and the item of a dispatch is not among them. */
    lemma QueuedInPlace()
      requires Valid()
      ensures forall w, x | 0 <= w < |queues| && x in queues[w].items :: x in place && place[x] == InQueue(w)
    {
      forall w, x | 0 <= w < |queues| && x in queues[w].items
        ensures x in place && place[x] == InQueue(w)
      {
        assert x in Contents()[w];
      }
    }

    twostate lemma WaitingAppended(tid: nat, new item: CqItem)
      requires tid < |queues|
      requires forall w, x | 0 <= w < |queues| && x in old(queues[w].items) :: x.sfd == old(x.sfd) && x.id == old(x.id)
      requires forall w | 0 <= w < |queues| :: queues[w].items == old(queues[w].items) + if w == tid then [item] else []
      ensures forall w | 0 <= w < |queues| ::
        Conns(queues[w].items) == old(Conns(queues[w].items)) + if w == tid then [(item.sfd, item.id)] else []
    {
      forall w | 0 <= w < |queues|
        ensures Conns(queues[w].items) == old(Conns(queues[w].items)) + if w == tid then [(item.sfd, item.id)] else []
      {
        var s := old(queues[w].items);
        ConnsKept(s);
        assert Conns(s + [item]) == Conns(s) + [(item.sfd, item.id)];
      }
    }

    twostate lemma WaitingTaken(w: nat)
      requires w < |queues|
      requires forall v, x | 0 <= v < |queues| && x in old(queues[v].items) :: x.sfd == old(x.sfd) && x.id == old(x.id)
      requires queues[w].items == old(if queues[w].items == [] then [] else queues[w].items[1..])
      requires forall v | 0 <= v < |queues| && v != w :: queues[v].items == old(queues[v].items)
      ensures Conns(queues[w].items) == old(if queues[w].items == [] then [] else Conns(queues[w].items)[1..])
      ensures forall v | 0 <= v < |queues| && v != w :: Conns(queues[v].items) == old(Conns(queues[v].items))
    {
      forall v | 0 <= v < |queues|
        ensures Conns(old(queues[v].items)) == old(Conns(queues[v].items))
      {
        ConnsKept(old(queues[v].items));
      }
      var s := old(queues[w].items);
      assert s != [] ==> Conns(s[1..]) == Conns(s)[1..];
    }

    /** A held item is written; no list holds it. */
    method SetItem(item: CqItem, sfd: int, id: int)
      requires Valid() && item in place && place[item] == Held
      modifies item`sfd, item`id
      ensures Valid() && Contents() == old(Contents()) && item.sfd == sfd && item.id == id
    {
      item.sfd := sfd;
      item.id := id;
    }

    lemma QueueInPlace(w: nat)
      requires Valid() && w < |queues|
      ensures queues[w].tail != null ==> queues[w].tail in place
      ensures forall x | x in queues[w].items :: x in place
    {
      assert queues[w].items == Contents()[w];
    }

    /** ThreadLibeventProcess after its read: the first connection that waits for the worker, if any, is taken. */
    method Process(w: nat) returns (conn: Option<(int, int)>)
      requires Valid() && w < |queues|
      modifies this, freeList, queues[w], place.Keys
      ensures Valid()
      ensures forall x | x in old(place) :: x.sfd == old(x.sfd) && x.id == old(x.id)
      ensures Contents() == old(if Contents()[w] == [] then Contents() else Contents()[w := Contents()[w][1..]])
      ensures old(Contents())[w] != [] ==> freeList.items == [old(Contents())[w][0]] + old(freeList.items)
      ensures var waiting := old(Conns(queues[w].items));
        && conn == (if waiting == [] then None else Some(waiting[0]))
        && Conns(queues[w].items) == if waiting == [] then [] else waiting[1..]
      ensures forall v | 0 <= v < |queues| && v != w :: Conns(queues[v].items) == old(Conns(queues[v].items))
    {
      hide Chained, FreeList.Valid, Queue.Valid, PlacesOk, Conns;
      QueuedInPlace();
      QueueInPlace(w);
      var item := Dequeue(w);
      if item == null {
        conn := None;
      } else {
        conn := Some((item.sfd, item.id));
        ItemFree(item);
      }
      WaitingTaken(w);
    }
  }

  lemma ChainedInFront(added: seq<CqItem>, free: seq<CqItem>)
    requires Distinct(added) && Chained(free) && added != [] && forall x | x in added :: x !in free
    requires forall i | 0 <= i < |added| - 1 :: added[i].next == added[i + 1]
    requires added[|added| - 1].next == ItemAt(free, 0)
    ensures Chained(added + free)
  {
    var s := added + free;
    forall i, j | 0 <= i < j < |s|
      ensures s[i] != s[j]
    {
      if i < |added| <= j {
        assert s[i] in added && s[j] in free;
      }
    }
    forall i | 0 <= i < |s|
      ensures s[i].next == ItemAt(s, i + 1)
    {
      if i >= |added| {
        assert s[i] == free[i - |added|];
      }
    }
  }
}
