// The hand-off of accepted connections to the worker threads, as a state machine over what the main
// thread and the workers do between two releases of a queue's lock and around the notify pipes.
module HandOff {

  datatype Conn = Conn(sfd: int, id: int)

  /** The main thread: between dispatches, or with a connection queued and its byte not yet written. */
  datatype Main = Idle | Queued(tid: nat)

  /** One worker: its queue, the bytes in its pipe, whether it has read one it did not act on yet. */
  datatype Worker = Worker(
    queue: seq<Conn>,
    pipe: nat,
    woken: bool,
    delivered: seq<Conn>,
    unwritten: nat,
    misses: nat)

  datatype State = State(workers: seq<Worker>, last: int, main: Main, dispatched: seq<Conn>)

  datatype Step =
    | Dispatch(conn: Conn)
    | WriteByte
    | WriteFails
    | ReadByte(w: nat)
    | Pop(w: nat)

  predicate Enabled(s: State, step: Step) {
    match step
    case Dispatch(_) => s.main.Idle? && |s.workers| > 0 && s.last >= -1
    case WriteByte => s.main.Queued? && s.main.tid < |s.workers|
    case WriteFails => s.main.Queued? && s.main.tid < |s.workers|
    case ReadByte(w) => w < |s.workers| && s.workers[w].pipe > 0 && !s.workers[w].woken
    case Pop(w) => w < |s.workers| && s.workers[w].woken
  }

  function Apply(s: State, step: Step): State
    requires Enabled(s, step)
  {
    match step
    case Dispatch(conn) =>
      var tid := (s.last + 1) % |s.workers|;
      var me := s.workers[tid];
      State(s.workers[tid := me.(queue := me.queue + [conn])], tid, Queued(tid), s.dispatched + [conn])
    case WriteByte =>
      var me := s.workers[s.main.tid];
      s.(workers := s.workers[s.main.tid := me.(pipe := me.pipe + 1)], main := Idle)
    case WriteFails =>
      var me := s.workers[s.main.tid];
      s.(workers := s.workers[s.main.tid := me.(unwritten := me.unwritten + 1)], main := Idle)
    case ReadByte(w) =>
      var me := s.workers[w];
      s.(workers := s.workers[w := me.(pipe := me.pipe - 1, woken := true)])
    case Pop(w) =>
      var me := s.workers[w];
      var after :=
        if me.queue == [] then me.(woken := false, misses := me.misses + 1)
        else me.(woken := false, queue := me.queue[1..], delivered := me.delivered + [me.queue[0]]);
      s.(workers := s.workers[w := after])
  }

  function Init(threads: nat): State {
    State(seq(threads, _ => Worker([], 0, false, [], 0, 0)), -1, Idle, [])
  }

  ghost predicate Legal(s: State, steps: seq<Step>)
    decreases |steps|
  {
    steps == [] || (Enabled(s, steps[0]) && Legal(Apply(s, steps[0]), steps[1..]))
  }

  ghost function After(s: State, steps: seq<Step>): State
    requires Legal(s, steps)
    decreases |steps|
  {
    if steps == [] then s else After(Apply(s, steps[0]), steps[1..])
  }

  // ----- The invariant

  /** What worker w of n is due out of the connections dispatched, in order. */
  function Share(dispatched: seq<Conn>, n: nat, w: nat): seq<Conn>
    requires n > 0
  {
    if dispatched == [] then []
    else
      var k := |dispatched| - 1;
      Share(dispatched[..k], n, w) + if k % n == w then [dispatched[k]] else []
  }

  function AsNat(b: bool): nat {
    if b then 1 else 0
  }

  /**
   * Every queued connection is accounted for: by a byte in the pipe, a byte read and not acted on,
   * the byte about to be written, or a write that failed.
   */
  ghost predicate Accounted(s: State, w: nat)
    requires w < |s.workers|
  {
    var me := s.workers[w];
    |me.queue| == me.pipe + AsNat(me.woken) + AsNat(s.main == Queued(w)) + me.unwritten
  }

  ghost predicate Inv(s: State) {
    && |s.workers| > 0
    && s.last == (if s.dispatched == [] then -1 else (|s.dispatched| - 1) % |s.workers|)
    && (s.main.Queued? ==> s.main.tid < |s.workers|)
    && forall w | 0 <= w < |s.workers| ::
         && Accounted(s, w) && s.workers[w].misses == 0
         && s.workers[w].delivered + s.workers[w].queue == Share(s.dispatched, |s.workers|, w)
  }

  // ----- Division by the number of workers

  lemma {:induction false} MulAtLeast(x: nat, n: nat)
    requires x >= 1
    ensures x * n >= n
  {
    if x > 1 {
      MulAtLeast(x - 1, n);
      assert x * n == (x - 1) * n + n;
    }
  }

  lemma MulLess(k: nat, q: nat, n: nat)
    requires k < q
    ensures k * n + n <= q * n
  {
    MulAtLeast(q - k, n);
    assert q * n == k * n + (q - k) * n;
  }

  /** Quotient and remainder are the only ones. */
  lemma DivModUnique(a: nat, q: nat, r: nat, n: nat)
    requires r < n && a == q * n + r
    ensures a / n == q && a % n == r
  {
    DivModOf(a, n);
    var q', r' := a / n, a % n;
    if q < q' {
      MulLess(q, q', n);
    } else if q' < q {
      MulLess(q', q, n);
    }
  }

  lemma DivModOf(a: nat, n: nat)
    requires n > 0
    ensures a == a / n * n + a % n && a % n < n
  {
  }

  lemma NextTurn(k: nat, n: nat)
    requires n > 0
    ensures (k % n + 1) % n == (k + 1) % n
    ensures (k + 1) / n == k / n + (if k % n + 1 == n then 1 else 0)
    ensures (k + 1) % n == if k % n + 1 == n then 0 else k % n + 1
  {
    DivModOf(k, n);
    var q, r := k / n, k % n;
    if r + 1 == n {
      assert k + 1 == (q + 1) * n + 0;
      DivModUnique(k + 1, q + 1, 0, n);
      DivModUnique(n, 1, 0, n);
    } else {
      DivModUnique(k + 1, q, r + 1, n);
      DivModUnique(r + 1, 0, r + 1, n);
    }
  }

  lemma ShareOneMore(dispatched: seq<Conn>, conn: Conn, n: nat, w: nat)
    requires n > 0
    ensures Share(dispatched + [conn], n, w) == Share(dispatched, n, w) + if |dispatched| % n == w then [conn] else []
  {
    assert (dispatched + [conn])[..|dispatched|] == dispatched;
  }

  lemma DispatchOk(s: State, conn: Conn)
    requires Inv(s) && Enabled(s, Dispatch(conn))
    ensures Inv(Apply(s, Dispatch(conn)))
  {
    var t := Apply(s, Dispatch(conn));
    var n, k := |s.workers|, |s.dispatched|;
    var tid := (s.last + 1) % n;
    assert tid == k % n by {
      if k > 0 {
        NextTurn(k - 1, n);
      }
    }
    forall w | 0 <= w < n
      ensures Accounted(t, w) && t.workers[w].misses == 0
      ensures t.workers[w].delivered + t.workers[w].queue == Share(t.dispatched, n, w)
    {
      ShareOneMore(s.dispatched, conn, n, w);
      assert Accounted(s, w);
      var me := s.workers[w];
      assert me.delivered + me.queue + [conn] == me.delivered + (me.queue + [conn]);
      assert Share(s.dispatched, n, w) + [] == Share(s.dispatched, n, w);
    }
  }

  lemma PopOk(s: State, w: nat)
    requires Inv(s) && Enabled(s, Pop(w))
    ensures Inv(Apply(s, Pop(w)))
  {
    var t := Apply(s, Pop(w));
    var me := s.workers[w];
    assert Accounted(s, w) && me.queue != [];
    assert me.delivered + [me.queue[0]] + me.queue[1..] == me.delivered + me.queue;
    forall v | 0 <= v < |t.workers|
      ensures Accounted(t, v)
    {
      assert Accounted(s, v);
    }
  }

  lemma StepOk(s: State, step: Step)
    requires Inv(s) && Enabled(s, step)
    ensures Inv(Apply(s, step))
  {
    match step
    case Dispatch(conn) => DispatchOk(s, conn);
    case Pop(w) => PopOk(s, w);
    case _ =>
      var t := Apply(s, step);
      forall v | 0 <= v < |t.workers|
        ensures Accounted(t, v)
      {
        assert Accounted(s, v);
      }
  }

  lemma {:induction false} RunOk(s: State, steps: seq<Step>)
    requires Inv(s) && Legal(s, steps)
    ensures Inv(After(s, steps))
    decreases |steps|
  {
    hide Inv, Apply, Enabled;
    if steps != [] {
      StepOk(s, steps[0]);
      RunOk(Apply(s, steps[0]), steps[1..]);
    }
  }

  lemma AlwaysInv(threads: nat, steps: seq<Step>)
    requires threads > 0 && Legal(Init(threads), steps)
    ensures Inv(After(Init(threads), steps)) && |After(Init(threads), steps).workers| == threads
  {
    var s := Init(threads);
    forall w | 0 <= w < threads
      ensures Accounted(s, w) && s.workers[w].delivered + s.workers[w].queue == Share(s.dispatched, threads, w)
    {
    }
    RunOk(s, steps);
    WorkersStay(s, steps);
  }

  lemma {:induction false} WorkersStay(s: State, steps: seq<Step>)
    requires Legal(s, steps)
    ensures |After(s, steps).workers| == |s.workers|
    decreases |steps|
  {
    if steps != [] {
      WorkersStay(Apply(s, steps[0]), steps[1..]);
    }
  }

  // ----- What the invariant says about runs

  /**
   * The bytes in a worker's pipe, with one it has read, never outnumber its queue, so no pop that a
   * byte announced ever finds the queue empty. This holds even if writes to the pipe fail.
   */
  lemma PopsFindAConnection(threads: nat, steps: seq<Step>, w: nat)
    requires w < threads && Legal(Init(threads), steps)
    ensures var me := After(Init(threads), steps).workers;
      |me| == threads && me[w].pipe + AsNat(me[w].woken) <= |me[w].queue| && me[w].misses == 0
  {
    AlwaysInv(threads, steps);
    assert Accounted(After(Init(threads), steps), w);
  }

  /** Connection k of worker w is connection k * n + w of all. */
  lemma ShareAt(dispatched: seq<Conn>, n: nat, w: nat, k: nat)
    requires w < n && k * n + w < |dispatched|
    ensures k < |Share(dispatched, n, w)| && Share(dispatched, n, w)[k] == dispatched[k * n + w]
  {
    DivModUnique(k * n + w, k, w, n);
    ShareAtIndex(dispatched, n, w, k, k * n + w);
  }

  lemma {:induction false} ShareAtIndex(dispatched: seq<Conn>, n: nat, w: nat, k: nat, i: nat)
    requires w < n && i < |dispatched| && i / n == k && i % n == w
    ensures k < |Share(dispatched, n, w)| && Share(dispatched, n, w)[k] == dispatched[i]
    decreases |dispatched|
  {
    var m := |dispatched| - 1;
    if i < m {
      ShareAtIndex(dispatched[..m], n, w, k, i);
    } else {
      ShareSize(dispatched[..m], n, w);
    }
  }

  /** How many of m connections fall to worker w. */
  function SizeOf(m: nat, n: nat, w: nat): nat
    requires n > 0
  {
    m / n + if w < m % n then 1 else 0
  }

  lemma SizeStep(m: nat, n: nat, w: nat)
    requires w < n
    ensures SizeOf(m + 1, n, w) == SizeOf(m, n, w) + if m % n == w then 1 else 0
  {
    DivModOf(m, n);
    NextTurn(m, n);
  }

  lemma {:induction false} ShareSize(dispatched: seq<Conn>, n: nat, w: nat)
    requires w < n
    ensures |Share(dispatched, n, w)| == SizeOf(|dispatched|, n, w)
    decreases |dispatched|
  {
    if dispatched == [] {
      DivModUnique(0, 0, 0, n);
    } else {
      var m := |dispatched| - 1;
      ShareSize(dispatched[..m], n, w);
      SizeStep(m, n, w);
    }
  }

  /**
   * Exactly once, in order, round robin: the connections worker w was given are every n-th one
   * dispatched, from the w-th on. What it has not been given yet is in its queue.
   */
  lemma DeliveredInTurn(threads: nat, steps: seq<Step>, w: nat, k: nat)
    requires w < threads && Legal(Init(threads), steps)
    ensures var s := After(Init(threads), steps);
      && |s.workers| == threads
      && (k < |s.workers[w].delivered| ==>
            k * threads + w < |s.dispatched| && s.workers[w].delivered[k] == s.dispatched[k * threads + w])
      && (k * threads + w < |s.dispatched| ==>
            var all := s.workers[w].delivered + s.workers[w].queue;
            k < |all| && all[k] == s.dispatched[k * threads + w])
  {
    AlwaysInv(threads, steps);
    var s := After(Init(threads), steps);
    var me := s.workers[w];
    ShareSize(s.dispatched, threads, w);
    if k < |me.delivered| {
      SizeBound(k, threads, w, |s.dispatched|);
    }
    if k * threads + w < |s.dispatched| {
      ShareAt(s.dispatched, threads, w, k);
    }
  }

  lemma SizeBound(k: nat, n: nat, w: nat, m: nat)
    requires w < n && k < SizeOf(m, n, w)
    ensures k * n + w < m
  {
    DivModOf(m, n);
    if k < m / n {
      MulLess(k, m / n, n);
    }
  }

  /**
   * When the main thread is between dispatches and a worker has nothing to read, the connections still
   * in its queue are as many as the writes that failed. With none failed, all its share is delivered.
   */
  lemma LeftBehindByFailedWrites(threads: nat, steps: seq<Step>, w: nat)
    requires w < threads && Legal(Init(threads), steps)
    requires var s := After(Init(threads), steps);
      s.main.Idle? && w < |s.workers| && s.workers[w].pipe == 0 && !s.workers[w].woken
    ensures var s := After(Init(threads), steps);
      && |s.workers[w].queue| == s.workers[w].unwritten
      && (s.workers[w].unwritten == 0 <==> s.workers[w].delivered == Share(s.dispatched, threads, w))
  {
    AlwaysInv(threads, steps);
    assert Accounted(After(Init(threads), steps), w);
  }

  // ----- Counting the steps of a run

  /** How often a byte was written to worker w's pipe, and how often that failed. */
  ghost function Writes(s: State, steps: seq<Step>, w: nat): nat
    requires Legal(s, steps)
    decreases |steps|
  {
    if steps == [] then 0
    else (if steps[0].WriteByte? && s.main == Queued(w) then 1 else 0) + Writes(Apply(s, steps[0]), steps[1..], w)
  }

  ghost function Failures(s: State, steps: seq<Step>, w: nat): nat
    requires Legal(s, steps)
    decreases |steps|
  {
    if steps == [] then 0
    else (if steps[0].WriteFails? && s.main == Queued(w) then 1 else 0) + Failures(Apply(s, steps[0]), steps[1..], w)
  }

  function Times(steps: seq<Step>, step: Step): nat {
    if steps == [] then 0 else (if steps[0] == step then 1 else 0) + Times(steps[1..], step)
  }

  lemma {:induction false} StepsCounted(s: State, steps: seq<Step>, w: nat)
    requires Legal(s, steps) && w < |s.workers|
    ensures w < |After(s, steps).workers|
    ensures var me, now := s.workers[w], After(s, steps).workers[w];
      && now.pipe + Times(steps, ReadByte(w)) == me.pipe + Writes(s, steps, w)
      && now.unwritten == me.unwritten + Failures(s, steps, w)
      && AsNat(now.woken) + Times(steps, Pop(w)) == AsNat(me.woken) + Times(steps, ReadByte(w))
      && |now.delivered| + now.misses == |me.delivered| + me.misses + Times(steps, Pop(w))
    decreases |steps|
  {
    if steps != [] {
      StepCounted(s, steps[0], w);
      hide Apply, Enabled;
      StepsCounted(Apply(s, steps[0]), steps[1..], w);
    }
  }

  lemma StepCounted(s: State, step: Step, w: nat)
    requires Enabled(s, step) && w < |s.workers|
    ensures w < |Apply(s, step).workers|
    ensures var me, now := s.workers[w], Apply(s, step).workers[w];
      && now.pipe + AsNat(step == ReadByte(w)) == me.pipe + AsNat(step == WriteByte && s.main == Queued(w))
      && now.unwritten == me.unwritten + AsNat(step == WriteFails && s.main == Queued(w))
      && AsNat(now.woken) + AsNat(step == Pop(w)) == AsNat(me.woken) + AsNat(step == ReadByte(w))
      && |now.delivered| + now.misses == |me.delivered| + me.misses + AsNat(step == Pop(w))
  {
  }

  /**
   * In every run: the bytes in a worker's pipe are those written and not read; the notifications missed are
   * the writes that failed; a byte read is acted on once; and every pop delivers one connection.
   */
  lemma BytesAccounted(threads: nat, steps: seq<Step>, w: nat)
    requires w < threads && Legal(Init(threads), steps)
    ensures var me := After(Init(threads), steps).workers;
      && |me| == threads
      && me[w].pipe + Times(steps, ReadByte(w)) == Writes(Init(threads), steps, w)
      && me[w].unwritten == Failures(Init(threads), steps, w)
      && AsNat(me[w].woken) + Times(steps, Pop(w)) == Times(steps, ReadByte(w))
      && |me[w].delivered| == Times(steps, Pop(w))
  {
    hide Inv, Apply, Enabled;
    AlwaysInv(threads, steps);
    StepsCounted(Init(threads), steps, w);
    PopsFindAConnection(threads, steps, w);
  }

  lemma {:induction false} NoFailures(s: State, steps: seq<Step>, w: nat)
    requires Legal(s, steps) && WriteFails !in steps
    ensures Failures(s, steps, w) == 0
    decreases |steps|
  {
    hide Apply, Enabled;
    if steps != [] {
      assert steps[0] in steps && forall x | x in steps[1..] :: x in steps;
      NoFailures(Apply(s, steps[0]), steps[1..], w);
    }
  }

  /** If no write failed, a worker with nothing to read between dispatches has been given all its share. */
  lemma AllDelivered(threads: nat, steps: seq<Step>, w: nat)
    requires w < threads && Legal(Init(threads), steps) && WriteFails !in steps
    requires var s := After(Init(threads), steps);
      s.main.Idle? && w < |s.workers| && s.workers[w].pipe == 0 && !s.workers[w].woken
    ensures var s := After(Init(threads), steps);
      s.workers[w].delivered == Share(s.dispatched, threads, w) && s.workers[w].queue == []
  {
    hide Apply, Enabled;
    BytesAccounted(threads, steps, w);
    NoFailures(Init(threads), steps, w);
    LeftBehindByFailedWrites(threads, steps, w);
  }

  // ----- Something can always be done

  /** The main thread can dispatch or notify, and a worker with a byte in its pipe can read it and act on it. */
  lemma NothingIsStuck(s: State, conn: Conn, w: nat)
    requires Inv(s)
    ensures if s.main.Idle? then Enabled(s, Dispatch(conn)) else Enabled(s, WriteByte) && Enabled(s, WriteFails)
    ensures w < |s.workers| ==>
      (s.workers[w].woken ==> Enabled(s, Pop(w))) && (s.workers[w].pipe > 0 && !s.workers[w].woken ==> Enabled(s, ReadByte(w)))
  {
  }

  /** Left to itself, a worker takes up every connection it was notified of, in order. */
  lemma {:induction false} WorkerCatchesUp(s: State, w: nat) returns (steps: seq<Step>)
    requires Inv(s) && w < |s.workers|
    ensures forall i | 0 <= i < |steps| :: steps[i] == ReadByte(w) || steps[i] == Pop(w)
    ensures Legal(s, steps) && w < |After(s, steps).workers|
    ensures var me, now := s.workers[w], After(s, steps).workers[w];
      var n := me.pipe + AsNat(me.woken);
      n <= |me.queue| && now.pipe == 0 && !now.woken && now.delivered == me.delivered + me.queue[..n] && now.queue == me.queue[n..]
    decreases s.workers[w].pipe, s.workers[w].woken, 1
  {
    var me := s.workers[w];
    assert Accounted(s, w);
    if me.woken {
      steps := CatchUpBy(s, Pop(w), w);
    } else if me.pipe > 0 {
      steps := CatchUpBy(s, ReadByte(w), w);
    } else {
      steps := [];
      assert me.delivered + me.queue[..0] == me.delivered;
    }
  }

  /** What the two steps of a worker do to it. */
  lemma WorkerStep(s: State, w: nat, step: Step)
    requires Inv(s) && w < |s.workers| && Enabled(s, step) && (step == Pop(w) || step == ReadByte(w))
    ensures var t := Apply(s, step);
      && Inv(t) && w < |t.workers| && s.workers[w].pipe + AsNat(s.workers[w].woken) <= |s.workers[w].queue|
      && t.workers[w] == if step == ReadByte(w) then s.workers[w].(pipe := s.workers[w].pipe - 1, woken := true)
           else s.workers[w].(woken := false, queue := s.workers[w].queue[1..], delivered := s.workers[w].delivered + [s.workers[w].queue[0]])
  {
    StepOk(s, step);
    assert Accounted(s, w);
  }

  lemma TakeOneMore(delivered: seq<Conn>, queue: seq<Conn>, n: nat)
    requires 1 <= n <= |queue|
    ensures delivered + [queue[0]] + queue[1..][..n - 1] == delivered + queue[..n] && queue[1..][n - 1..] == queue[n..]
  {
    assert [queue[0]] + queue[1..][..n - 1] == queue[..n];
  }

  lemma {:induction false} CatchUpBy(s: State, step: Step, w: nat) returns (steps: seq<Step>)
    requires Inv(s) && w < |s.workers| && Enabled(s, step) && (step == Pop(w) || step == ReadByte(w))
    ensures forall i | 0 <= i < |steps| :: steps[i] == ReadByte(w) || steps[i] == Pop(w)
    ensures Legal(s, steps) && w < |After(s, steps).workers|
    ensures var me, now := s.workers[w], After(s, steps).workers[w];
      var n := me.pipe + AsNat(me.woken);
      n <= |me.queue| && now.pipe == 0 && !now.woken && now.delivered == me.delivered + me.queue[..n] && now.queue == me.queue[n..]
    decreases s.workers[w].pipe, s.workers[w].woken, 0
  {
    WorkerStep(s, w, step);
    EnabledWorker(s, w, step);
    hide Inv, Apply, Enabled;
    var me, t := s.workers[w], Apply(s, step);
    var more := WorkerCatchesUp(t, w);
    steps := [step] + more;
    assert steps[1..] == more;
    var n := me.pipe + AsNat(me.woken);
    if step == Pop(w) {
      TakeOneMore(me.delivered, me.queue, n);
    }
  }

  lemma EnabledWorker(s: State, w: nat, step: Step)
    requires Enabled(s, step)
    ensures step == Pop(w) ==> w < |s.workers| && s.workers[w].woken
    ensures step == ReadByte(w) ==> w < |s.workers| && s.workers[w].pipe > 0 && !s.workers[w].woken
  {
  }
}
