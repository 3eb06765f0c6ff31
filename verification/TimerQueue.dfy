// The push-message timer queue: a multimap from deadlines to contexts, and an index from message
// ids to iterators into it.
module TimerQueue {
  import opened Machine
  import opened UTimes

  /** The context allocated for one forwarded request; id is its address. */
  datatype Context = Context(id: nat, recvMid: uint32, recvCfd: int, pushMid: uint32, responseType: uint32)

  /** A node of the multimap. Iterators name nodes, so they outlive insertions and other erasures. */
  datatype Entry = Entry(node: nat, when: UTime, ct: Context)

  datatype Queue = Queue(schedule: seq<Entry>, events: map<uint32, nat>, nextNode: nat)

  const EMPTY: Queue := Queue([], map[], 0)

  // ----- What the two containers must agree on

  ghost predicate Sorted(s: seq<Entry>) {
    forall i, j | 0 <= i < j < |s| :: AtMost(s[i].when, s[j].when)
  }

  ghost predicate NodesOk(q: Queue) {
    && (forall i | 0 <= i < |q.schedule| :: q.schedule[i].node < q.nextNode)
    && (forall i, j | 0 <= i < j < |q.schedule| :: q.schedule[i].node != q.schedule[j].node)
  }

  /** Every scheduled context is indexed by its own message id. */
  ghost predicate ScheduleIndexed(q: Queue) {
    forall i | 0 <= i < |q.schedule| ::
      q.schedule[i].ct.pushMid in q.events && q.events[q.schedule[i].ct.pushMid] == q.schedule[i].node
  }

  ghost predicate PointsTo(q: Queue, mid: uint32, i: nat) {
    i < |q.schedule| && mid in q.events && q.schedule[i].node == q.events[mid] && q.schedule[i].ct.pushMid == mid
  }

  /** Every index entry points at a scheduled context with that message id. */
  ghost predicate IndexScheduled(q: Queue) {
    forall mid | mid in q.events :: exists i: nat :: PointsTo(q, mid, i)
  }

  /** schedule_ and events_ correspond one to one, by message id, and the schedule is in deadline order. */
  ghost predicate Valid(q: Queue) {
    Sorted(q.schedule) && NodesOk(q) && ScheduleIndexed(q) && IndexScheduled(q)
  }

  /** The queue holds ct with this deadline. */
  ghost predicate Holds(q: Queue, ct: Context, when: UTime) {
    exists i :: 0 <= i < |q.schedule| && q.schedule[i].ct == ct && q.schedule[i].when == when
  }

  // ----- The operations of the two containers

  /** Where a multimap inserts: in front of the first entry, from i on, whose key is greater. */
  function UpperBound(s: seq<Entry>, when: UTime, i: nat): (r: nat)
    requires i <= |s|
    ensures i <= r <= |s|
    ensures forall j | i <= j < r :: AtMost(s[j].when, when)
    ensures r < |s| ==> Less(when, s[r].when)
    decreases |s| - i
  {
    if i == |s| || Less(when, s[i].when) then i else UpperBound(s, when, i + 1)
  }

  /** The position of a node, or the length if there is none. */
  function IndexOf(s: seq<Entry>, node: nat): (r: nat)
    ensures r <= |s|
    ensures r < |s| ==> s[r].node == node
    ensures forall j | 0 <= j < r :: s[j].node != node
  {
    if s == [] || s[0].node == node then 0 else 1 + IndexOf(s[1..], node)
  }

  function InsertAt(s: seq<Entry>, pos: nat, e: Entry): seq<Entry>
    requires pos <= |s|
  {
    s[..pos] + [e] + s[pos..]
  }

  function EraseAt(s: seq<Entry>, i: nat): seq<Entry> {
    if i < |s| then s[..i] + s[i + 1..] else s
  }

  /** Inserting into the schedule, and into the index unless the id is already there. */
  function Add(q: Queue, when: UTime, mid: uint32, ct: Context): Queue {
    var pos := UpperBound(q.schedule, when, 0);
    Queue(InsertAt(q.schedule, pos, Entry(q.nextNode, when, ct)),
          if mid in q.events then q.events else q.events[mid := q.nextNode],
          q.nextNode + 1)
  }

  function Cancel(q: Queue, mid: uint32): Queue {
    if mid in q.events then
      Queue(EraseAt(q.schedule, IndexOf(q.schedule, q.events[mid])), q.events - {mid}, q.nextNode)
    else q
  }

  function Lookup(q: Queue, mid: uint32): Option<Context> {
    if mid in q.events && IndexOf(q.schedule, q.events[mid]) < |q.schedule| then
      Some(q.schedule[IndexOf(q.schedule, q.events[mid])].ct)
    else None
  }

  predicate Due(q: Queue, now: UTime) {
    q.schedule != [] && !Less(now, q.schedule[0].when)
  }

  function PopFirst(q: Queue): Queue
    requires q.schedule != []
  {
    Queue(q.schedule[1..], q.events - {q.schedule[0].ct.pushMid}, q.nextNode)
  }

  // ----- What the operations do to the set of held contexts

  lemma {:induction false} IndexOfNode(s: seq<Entry>, i: nat)
    requires i < |s| && forall j, k | 0 <= j < k < |s| :: s[j].node != s[k].node
    ensures IndexOf(s, s[i].node) == i
  {
    if i != 0 {
      assert s[0].node != s[i].node;
      IndexOfNode(s[1..], i - 1);
    }
  }

  /** A valid queue holds at most one context for a message id: the one its index points at. */
  lemma HeldOnce(q: Queue, i: nat)
    requires Valid(q) && i < |q.schedule|
    ensures q.schedule[i].ct.pushMid in q.events
    ensures IndexOf(q.schedule, q.events[q.schedule[i].ct.pushMid]) == i
    ensures forall j | 0 <= j < |q.schedule| :: q.schedule[j].ct.pushMid == q.schedule[i].ct.pushMid ==> j == i
  {
    IndexOfNode(q.schedule, i);
  }

  /** Inserting moves the entries from pos on back by one and touches nothing else. */
  lemma InsertMoves(s: seq<Entry>, pos: nat, e: Entry)
    requires pos <= |s|
    ensures var r := InsertAt(s, pos, e);
      && |r| == |s| + 1 && r[pos] == e
      && (forall i | 0 <= i < |s| :: s[i] == r[if i < pos then i else i + 1])
      && (forall i | 0 <= i < |r| && i != pos :: r[i] == s[if i < pos then i else i - 1])
  {
  }

  lemma AddHolds(q: Queue, when: UTime, mid: uint32, ct: Context, c: Context, w: UTime)
    ensures Holds(Add(q, when, mid, ct), c, w) <==> Holds(q, c, w) || (c == ct && w == when)
  {
    hide AtMost, Less, UpperBound, InsertAt;
    var pos := UpperBound(q.schedule, when, 0);
    var s := Add(q, when, mid, ct).schedule;
    InsertMoves(q.schedule, pos, Entry(q.nextNode, when, ct));
    if i :| 0 <= i < |q.schedule| && q.schedule[i].ct == c && q.schedule[i].when == w {
      assert s[if i < pos then i else i + 1] == q.schedule[i];
    }
    if i :| 0 <= i < |s| && s[i].ct == c && s[i].when == w && i != pos {
      assert q.schedule[if i < pos then i else i - 1] == s[i];
    }
  }

  lemma BeforeThenAtMost(a: UTime, b: UTime, c: UTime)
    requires Less(a, b) && AtMost(b, c)
    ensures AtMost(a, c)
  {
  }

  lemma AddKeepsOrder(q: Queue, when: UTime, mid: uint32, ct: Context)
    requires Valid(q)
    ensures Sorted(Add(q, when, mid, ct).schedule)
  {
    hide UpperBound, InsertAt, AtMost, Less, NodesOk, ScheduleIndexed, IndexScheduled;
    var pos := UpperBound(q.schedule, when, 0);
    var s := Add(q, when, mid, ct).schedule;
    InsertMoves(q.schedule, pos, Entry(q.nextNode, when, ct));
    forall i, j | 0 <= i < j < |s|
      ensures AtMost(s[i].when, s[j].when)
    {
      if i == pos {
        if j > pos + 1 {
          BeforeThenAtMost(when, q.schedule[pos].when, q.schedule[j - 1].when);
        } else {
          BeforeIsAtMost(when, q.schedule[pos].when);
        }
      } else if j != pos {
        assert AtMost(q.schedule[if i < pos then i else i - 1].when, q.schedule[if j < pos then j else j - 1].when);
      }
    }
  }

  lemma BeforeIsAtMost(a: UTime, b: UTime)
    requires Less(a, b)
    ensures AtMost(a, b)
  {
  }

  lemma FreshAddKeepsIndex(q: Queue, when: UTime, ct: Context)
    requires Valid(q) && ct.pushMid !in q.events
    ensures ScheduleIndexed(Add(q, when, ct.pushMid, ct)) && IndexScheduled(Add(q, when, ct.pushMid, ct))
  {
    hide AtMost, Less, UpperBound, Sorted, InsertAt;
    var r := Add(q, when, ct.pushMid, ct);
    var pos := UpperBound(q.schedule, when, 0);
    InsertMoves(q.schedule, pos, Entry(q.nextNode, when, ct));
    forall mid | mid in r.events
      ensures exists i: nat :: PointsTo(r, mid, i)
    {
      if mid == ct.pushMid {
        assert PointsTo(r, mid, pos);
      } else {
        var i: nat :| PointsTo(q, mid, i);
        assert PointsTo(r, mid, if i < pos then i else i + 1);
      }
    }
    forall i | 0 <= i < |r.schedule|
      ensures r.schedule[i].ct.pushMid in r.events && r.events[r.schedule[i].ct.pushMid] == r.schedule[i].node
    {
    }
  }

  lemma AddKeepsNodes(q: Queue, when: UTime, mid: uint32, ct: Context)
    requires Valid(q)
    ensures NodesOk(Add(q, when, mid, ct))
  {
    hide AtMost, Less, UpperBound, InsertAt, Sorted, ScheduleIndexed, IndexScheduled;
    InsertMoves(q.schedule, UpperBound(q.schedule, when, 0), Entry(q.nextNode, when, ct));
  }

  /** A context whose id is in use, or is not the one it is filed under, ends up without an index entry. */
  lemma StaleAddLosesIndex(q: Queue, when: UTime, mid: uint32, ct: Context)
    requires Valid(q) && (mid != ct.pushMid || mid in q.events)
    ensures !ScheduleIndexed(Add(q, when, mid, ct))
  {
    hide AtMost;
    var r := Add(q, when, mid, ct);
    assert r.schedule[UpperBound(q.schedule, when, 0)] == Entry(q.nextNode, when, ct);
    if ct.pushMid in q.events {
      var i: nat :| PointsTo(q, ct.pushMid, i);
      assert q.schedule[i].node < q.nextNode;
    }
  }

  /** Adding keeps the two containers in step exactly when the id is the context's own and is not in use. */
  lemma AddKeepsValid(q: Queue, when: UTime, mid: uint32, ct: Context)
    requires Valid(q)
    ensures Valid(Add(q, when, mid, ct)) <==> mid == ct.pushMid && mid !in q.events
  {
    hide Add, Sorted, NodesOk, ScheduleIndexed, IndexScheduled;
    AddKeepsOrder(q, when, mid, ct);
    AddKeepsNodes(q, when, mid, ct);
    if mid == ct.pushMid && mid !in q.events {
      FreshAddKeepsIndex(q, when, ct);
    } else {
      StaleAddLosesIndex(q, when, mid, ct);
    }
  }

  /** Erasing shifts the entries behind the gap forward and touches nothing else. */
  lemma EraseMoves(s: seq<Entry>, i: nat)
    requires i < |s|
    ensures |EraseAt(s, i)| == |s| - 1
    ensures forall j | 0 <= j < i :: EraseAt(s, i)[j] == s[j]
    ensures forall j | i < j < |s| :: EraseAt(s, i)[j - 1] == s[j]
    ensures forall j | i <= j < |s| - 1 :: EraseAt(s, i)[j] == s[j + 1]
  {
  }

  function EraseEntry(q: Queue, i: nat): Queue
    requires i < |q.schedule|
  {
    Queue(EraseAt(q.schedule, i), q.events - {q.schedule[i].ct.pushMid}, q.nextNode)
  }

  lemma EraseKeepsOrder(q: Queue, i: nat)
    requires Valid(q) && i < |q.schedule|
    ensures Sorted(EraseEntry(q, i).schedule) && NodesOk(EraseEntry(q, i))
  {
    hide EraseAt, AtMost;
    EraseMoves(q.schedule, i);
  }

  lemma EraseKeepsIndex(q: Queue, i: nat)
    requires Valid(q) && i < |q.schedule|
    ensures ScheduleIndexed(EraseEntry(q, i)) && IndexScheduled(EraseEntry(q, i))
  {
    hide EraseAt, AtMost, IndexOf;
    var r := EraseEntry(q, i);
    HeldOnce(q, i);
    EraseMoves(q.schedule, i);
    forall m | m in r.events
      ensures exists j: nat :: PointsTo(r, m, j)
    {
      var j: nat :| PointsTo(q, m, j);
      assert PointsTo(r, m, if j < i then j else j - 1);
    }
  }

  lemma EraseHolds(q: Queue, i: nat, c: Context, w: UTime)
    requires Valid(q) && i < |q.schedule|
    ensures Holds(EraseEntry(q, i), c, w) <==> Holds(q, c, w) && c.pushMid != q.schedule[i].ct.pushMid
  {
    hide EraseAt, AtMost, IndexOf;
    var s := EraseAt(q.schedule, i);
    HeldOnce(q, i);
    EraseMoves(q.schedule, i);
    if j :| 0 <= j < |s| && s[j].ct == c && s[j].when == w {
      assert q.schedule[if j < i then j else j + 1] == s[j];
    }
    if k :| 0 <= k < |q.schedule| && q.schedule[k].ct == c && q.schedule[k].when == w && k != i {
      assert s[if k < i then k else k - 1] == q.schedule[k];
    }
  }

  /** Cancelling removes exactly the context with that id. */
  lemma CancelSpec(q: Queue, mid: uint32)
    requires Valid(q)
    ensures Valid(Cancel(q, mid))
    ensures forall c, w :: Holds(Cancel(q, mid), c, w) <==> Holds(q, c, w) && c.pushMid != mid
    ensures mid !in Cancel(q, mid).events
  {
    if mid in q.events {
      var i: nat :| PointsTo(q, mid, i);
      HeldOnce(q, i);
      assert Cancel(q, mid) == EraseEntry(q, i);
      EraseKeepsOrder(q, i);
      EraseKeepsIndex(q, i);
      forall c, w
        ensures Holds(Cancel(q, mid), c, w) <==> Holds(q, c, w) && c.pushMid != mid
      {
        EraseHolds(q, i, c, w);
      }
    } else {
      forall c, w | Holds(q, c, w)
        ensures c.pushMid != mid
      {
      }
    }
  }

  /** Looking an id up finds the context held under it, and finds none only when there is none. */
  lemma LookupSpec(q: Queue, mid: uint32)
    requires Valid(q)
    ensures Lookup(q, mid).Some? <==> mid in q.events
    ensures Lookup(q, mid).Some? ==>
      Lookup(q, mid).value.pushMid == mid && exists w :: Holds(q, Lookup(q, mid).value, w)
    ensures forall c, w | Holds(q, c, w) && c.pushMid == mid :: Lookup(q, mid) == Some(c)
  {
    if mid in q.events {
      var i: nat :| PointsTo(q, mid, i);
      HeldOnce(q, i);
      assert Holds(q, q.schedule[i].ct, q.schedule[i].when);
    }
    forall c, w | Holds(q, c, w) && c.pushMid == mid
      ensures Lookup(q, mid) == Some(c)
    {
      var i :| 0 <= i < |q.schedule| && q.schedule[i].ct == c && q.schedule[i].when == w;
      HeldOnce(q, i);
    }
  }

  /** What the timer pops is an earliest context, and popping it is cancelling it. */
  lemma PopSpec(q: Queue)
    requires Valid(q) && q.schedule != []
    ensures PopFirst(q) == Cancel(q, q.schedule[0].ct.pushMid)
    ensures Holds(q, q.schedule[0].ct, q.schedule[0].when)
    ensures forall c, w | Holds(q, c, w) :: AtMost(q.schedule[0].when, w)
  {
    HeldOnce(q, 0);
  }

  /** A new entry goes to the front exactly when its deadline is before all the others. */
  lemma FirstIsEarliest(q: Queue, when: UTime)
    requires Valid(q)
    ensures UpperBound(q.schedule, when, 0) == 0 <==> forall c, w | Holds(q, c, w) :: Less(when, w)
  {
    if q.schedule != [] {
      assert Holds(q, q.schedule[0].ct, q.schedule[0].when);
    }
  }

  // ----- The queue as an object

  /** What the timer thread does at the end of a stretch under the lock. */
  datatype Action = Complete(ct: Context) | Exit | Sleep(until: Option<UTime>)

  /** From the test of the inner loop on: pop what is due, else leave or sleep until the first deadline. */
  function Stretch(q: Queue, stop: bool, now: UTime): (Queue, Action) {
    if Due(q, now) then (PopFirst(q), Complete(q.schedule[0].ct))
    else if stop then (q, Exit)
    else (q, Sleep(if q.schedule == [] then None else Some(q.schedule[0].when)))
  }

  /** The queue holds ct with this deadline, and nothing with an earlier one. */
  ghost predicate Earliest(q: Queue, ct: Context, when: UTime) {
    Holds(q, ct, when) && forall c, w | Holds(q, c, w) :: AtMost(when, w)
  }

  ghost predicate NoneDue(q: Queue, now: UTime) {
    forall c, w | Holds(q, c, w) :: Less(now, w)
  }

  /**
   * What the timer thread has to do: if anything is due, take out an earliest context and that alone;
   * else leave if and only if it was told to stop; else sleep until the earliest deadline, if there is any.
   */
  ghost predicate ActsRight(q: Queue, stop: bool, now: UTime, q': Queue, action: Action) {
    match action
    case Complete(ct) =>
      && (exists w :: Earliest(q, ct, w) && AtMost(w, now))
      && forall c, w :: Holds(q', c, w) <==> Holds(q, c, w) && c.pushMid != ct.pushMid
    case Exit => q' == q && stop && NoneDue(q, now)
    case Sleep(until) =>
      && q' == q && !stop && NoneDue(q, now)
      && match until
         case None => forall c, w :: !Holds(q, c, w)
         case Some(when) => exists c :: Earliest(q, c, when)
  }

  lemma StretchSpec(q: Queue, stop: bool, now: UTime)
    requires Valid(q)
    ensures var (q', action) := Stretch(q, stop, now); Valid(q') && ActsRight(q, stop, now, q', action)
  {
    if q.schedule != [] {
      hide Valid, AtMost, Cancel;
      PopSpec(q);
      CancelSpec(q, q.schedule[0].ct.pushMid);
      assert Earliest(q, q.schedule[0].ct, q.schedule[0].when);
      LessIsNotAtMost(now, q.schedule[0].when);
      forall w | AtMost(q.schedule[0].when, w) && Less(now, q.schedule[0].when)
        ensures Less(now, w)
      {
        BeforeAll(now, q.schedule[0].when, w);
      }
    }
  }

  /** Read the other way: it completes exactly when something is due, and leaves exactly when it may. */
  lemma OneIsDue(q: Queue, stop: bool, now: UTime)
    requires Valid(q)
    ensures var (q', action) := Stretch(q, stop, now);
      && (action.Complete? <==> exists c, w :: Holds(q, c, w) && AtMost(w, now))
      && (action.Complete? <==> !NoneDue(q, now))
      && (action.Complete? ==> exists w :: Earliest(q, action.ct, w) && AtMost(w, now))
      && (action.Complete? ==> forall c, w :: Holds(q', c, w) <==> Holds(q, c, w) && c.pushMid != action.ct.pushMid)
      && (!action.Complete? ==> q' == q && NoneDue(q, now))
      && (action.Exit? <==> stop && NoneDue(q, now))
      && (action.Sleep? ==> (action.until.None? <==> forall c, w :: !Holds(q, c, w)))
      && (action.Sleep? && action.until.Some? ==> exists c :: Earliest(q, c, action.until.value))
  {
    hide Valid, AtMost, Holds, Stretch, Less;
    StretchSpec(q, stop, now);
    forall w
      ensures Less(now, w) <==> !AtMost(w, now)
    {
      LessIsNotAtMost(now, w);
    }
    var (q', action) := Stretch(q, stop, now);
    if action.Complete? {
      var w :| Earliest(q, action.ct, w) && AtMost(w, now);
      assert Holds(q, action.ct, w);
    }
    if action.Sleep? && action.until.Some? {
      var c :| Earliest(q, c, action.until.value);
      assert Holds(q, c, action.until.value);
    }
  }

  lemma LessIsNotAtMost(a: UTime, b: UTime)
    ensures Less(a, b) <==> !AtMost(b, a)
  {
  }

  lemma BeforeAll(a: UTime, b: UTime, c: UTime)
    requires Less(a, b) && AtMost(b, c)
    ensures Less(a, c)
  {
  }

  class PushMsgTimerQueue {
    var schedule: seq<Entry>
    var events: map<uint32, nat>
    var stop: bool
    var nextNode: nat

    ghost function View(): Queue
      reads this
    {
      Queue(schedule, events, nextNode)
    }

    constructor ()
      ensures View() == EMPTY && Valid(View()) && !stop
    {
      schedule, events, stop, nextNode := [], map[], false, 0;
    }

    /**
     * The result says whether the sleeping timer thread is signalled. An id already in use is refused
     * by the index but not by the schedule, which costs the correspondence.
     */
    method AddEventAt(when: UTime, mid: uint32, ct: Context) returns (signal: bool)
      requires Valid(View())
      modifies this
      ensures View() == old(Add(View(), when, mid, ct)) && stop == old(stop)
      ensures Valid(View()) <==> mid == ct.pushMid && mid !in old(events)
      ensures forall c, w :: Holds(View(), c, w) <==> old(Holds(View(), c, w)) || (c == ct && w == when)
      ensures signal <==> forall c, w | old(Holds(View(), c, w)) :: Less(when, w)
    {
      AddKeepsValid(View(), when, mid, ct);
      forall c, w
        ensures Holds(Add(View(), when, mid, ct), c, w) <==> Holds(View(), c, w) || (c == ct && w == when)
      {
        AddHolds(View(), when, mid, ct, c, w);
      }
      FirstIsEarliest(View(), when);
      var pos := UpperBound(schedule, when, 0);
      schedule := schedule[..pos] + [Entry(nextNode, when, ct)] + schedule[pos..];
      if mid !in events {
        events := events[mid := nextNode];
      }
      nextNode := nextNode + 1;
      signal := pos == 0;
    }

    method CancelEvent(mid: uint32)
      requires Valid(View())
      modifies this
      ensures View() == old(Cancel(View(), mid)) && stop == old(stop)
      ensures Valid(View())
      ensures forall c, w :: Holds(View(), c, w) <==> old(Holds(View(), c, w)) && c.pushMid != mid
    {
      CancelSpec(View(), mid);
      if mid in events {
        schedule := EraseAt(schedule, IndexOf(schedule, events[mid]));
        events := events - {mid};
      }
    }

    /** None stands for the error that no such event exists. */
    method GetAndCancelEvent(mid: uint32) returns (info: Option<Context>)
      requires Valid(View())
      modifies this
      ensures View() == old(Cancel(View(), mid)) && info == old(Lookup(View(), mid)) && stop == old(stop)
      ensures Valid(View())
      ensures forall c, w :: Holds(View(), c, w) <==> old(Holds(View(), c, w)) && c.pushMid != mid
      ensures forall c, w | old(Holds(View(), c, w)) && c.pushMid == mid :: info == Some(c)
      ensures info.Some? ==> info.value.pushMid == mid && exists w :: old(Holds(View(), info.value, w))
    {
      LookupSpec(View(), mid);
      CancelSpec(View(), mid);
      if mid !in events {
        info := None;
        return;
      }
      info := Some(schedule[IndexOf(schedule, events[mid])].ct);
      CancelEvent(mid);
    }

    /** The result says that the sleeping timer thread is signalled. */
    method Shutdown() returns (signal: bool)
      modifies `stop
      ensures stop && signal
    {
      stop, signal := true, true;
    }

    /** The timer thread from the test of its inner loop to the next release of the lock. */
    method RunStretch(now: UTime) returns (action: Action)
      requires Valid(View())
      modifies this
      ensures (View(), action) == old(Stretch(View(), stop, now)) && stop == old(stop)
      ensures Valid(View())
      ensures action.Complete? <==> exists c, w :: old(Holds(View(), c, w)) && AtMost(w, now)
      ensures action.Complete? ==> exists w :: old(Earliest(View(), action.ct, w)) && AtMost(w, now)
      ensures action.Complete? ==>
        forall c, w :: Holds(View(), c, w) <==> old(Holds(View(), c, w)) && c.pushMid != action.ct.pushMid
      ensures !action.Complete? ==> View() == old(View()) && NoneDue(View(), now)
      ensures action.Exit? <==> old(stop) && old(NoneDue(View(), now))
      ensures action.Sleep? ==> (action.until.None? <==> forall c, w :: !Holds(View(), c, w))
      ensures action.Sleep? && action.until.Some? ==> exists c :: Earliest(View(), c, action.until.value)
    {
      hide Valid, Holds, AtMost, Earliest, NoneDue, ActsRight, Add, Cancel, Lookup;
      StretchSpec(View(), stop, now);
      OneIsDue(View(), stop, now);
      if schedule != [] && !Less(now, schedule[0].when) {
        var ct := schedule[0].ct;
        schedule := schedule[1..];
        events := events - {ct.pushMid};
        action := Complete(ct);
      } else if stop {
        action := Exit;
      } else if schedule == [] {
        action := Sleep(None);
      } else {
        action := Sleep(Some(schedule[0].when));
      }
    }
  }
}
