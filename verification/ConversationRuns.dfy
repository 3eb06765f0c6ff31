// What the steps of the conversation do, told by their outcome: who is refused, what a stop and the
// clock lead to, and that the timer thread completes whatever is due.
module ConversationRuns {
  import opened Machine
  import opened UTimes
  import opened TimerQueue
  import opened Conversation

  // ----- One request over a run: what happened to it can be read off its phase

  predicate Rejected(p: Phase) {
    p == Due(Error) || p == Answered(Error)
  }

  /** The message has gone to the device. */
  predicate Sent(p: Phase) {
    !p.Arrived? && !p.Packed? && !Rejected(p)
  }

  /** And an event has been added for it. */
  predicate Filed(p: Phase) {
    Sent(p) && !p.Forwarded?
  }

  ghost predicate Refused(steps: seq<Step>, r: nat) {
    Refuse(r) in steps || SendFailed(r) in steps
  }

  ghost predicate Added(steps: seq<Step>, r: nat) {
    exists when :: AddEvent(r, when) in steps
  }

  lemma StepTells(s: State, step: Step, r: nat)
    requires Inv(s) && Enabled(s, step) && At(Apply(s, step), r)
    ensures var p := Apply(s, step).reqs[r].phase;
      && (Rejected(p) <==> (At(s, r) && Rejected(s.reqs[r].phase)) || step == Refuse(r) || step == SendFailed(r))
      && (Sent(p) <==> (At(s, r) && Sent(s.reqs[r].phase)) || step == SendOk(r))
      && (Filed(p) <==> (At(s, r) && Filed(s.reqs[r].phase)) || (step.AddEvent? && step.r == r))
  {
    hide Inv, TimerStretch, Cancel, Add, Lookup, ReplyOf, Fresh;
    if At(s, r) {
      StepAdvances(s, step, r);
      StepTellsOld(s, step, r);
    } else {
      NewRequest(s, step, r);
    }
  }

  lemma NewRequest(s: State, step: Step, r: nat)
    requires Enabled(s, step) && !At(s, r) && At(Apply(s, step), r)
    ensures step.Arrive? && Apply(s, step).reqs[r].phase == Arrived
  {
    hide Stretch, Cancel, Add, Lookup, ReplyOf, Fresh;
  }

  /** Nothing about a request's history changes. */
  predicate TellSame(p: Phase, p': Phase) {
    (Rejected(p') <==> Rejected(p)) && (Sent(p') <==> Sent(p)) && (Filed(p') <==> Filed(p))
  }

  /** A context taken out of the queue was filed, and its request stays one that was. */
  lemma TakeTells(s: State, ct: Context, w: UTime, p: Phase, r: nat)
    requires Inv(s) && At(s, r) && Holds(s.q, ct, w)
    requires p == Dropped(ct) || (p.Due? && !p.outcome.Error?)
    ensures |SetPhase(s.reqs, ct.id, p)| == |s.reqs| && TellSame(s.reqs[r].phase, SetPhase(s.reqs, ct.id, p)[r].phase)
  {
    hide Inv;
    HeldIsWaiting(s, ct, w);
  }

  lemma StepTellsOld(s: State, step: Step, r: nat)
    requires Inv(s) && Enabled(s, step) && At(s, r) && Advances(s, Apply(s, step), r)
    ensures var p, p' := s.reqs[r].phase, Apply(s, step).reqs[r].phase;
      && (Rejected(p') <==> Rejected(p) || step == Refuse(r) || step == SendFailed(r))
      && (Sent(p') <==> Sent(p) || step == SendOk(r))
      && (Filed(p') <==> Filed(p) || (step.AddEvent? && step.r == r))
  {
    match step
    case DeviceReply(mid, kind) =>
      hide Inv, Apply, Possible, Fresh, Advances;
      LookedUp(s, step, mid, r);
    case CancelEvent(mid) =>
      hide Inv, Apply, Possible, Fresh, Advances;
      LookedUp(s, step, mid, r);
    case RunTimer =>
      hide Inv, Apply, Possible, Fresh, Advances;
      TimerTells(s, r);
    case _ =>
      hide Inv, TimerStretch, Cancel, Add, Lookup, ReplyOf, Fresh, Advances;
  }

  lemma LookedUp(s: State, step: Step, mid: uint32, r: nat)
    requires Inv(s) && Enabled(s, step) && At(s, r)
    requires step == CancelEvent(mid) || (step.DeviceReply? && step.mid == mid)
    ensures At(Apply(s, step), r) && step != Refuse(r) && step != SendFailed(r) && step != SendOk(r) && !step.AddEvent?
    ensures TellSame(s.reqs[r].phase, Apply(s, step).reqs[r].phase)
  {
    hide Inv, Cancel, Lookup, SetPhase;
    if Lookup(s.q, mid).Some? {
      var ct, w := FoundIsHeld(s, mid);
      TakeTells(s, ct, w, if step.DeviceReply? then Due(Device(ct, step.kind)) else Dropped(ct), r);
    }
  }

  lemma TimerTells(s: State, r: nat)
    requires Inv(s) && Enabled(s, RunTimer) && At(s, r)
    ensures At(Apply(s, RunTimer), r) && TellSame(s.reqs[r].phase, Apply(s, RunTimer).reqs[r].phase)
  {
    hide Inv, SetPhase;
    var now := if s.timer.Relock? then s.timer.now else s.clock;
    if Stretch(s.q, s.stop, now).1.Complete? {
      var first := s.q.schedule[0];
      assert Holds(s.q, first.ct, first.when);
      TakeTells(s, first.ct, first.when, Due(Timeout(first.ct, first.when, now)), r);
    }
  }

  lemma {:induction false} RunTells(s: State, steps: seq<Step>, r: nat)
    requires Inv(s) && Legal(s, steps) && At(After(s, steps), r)
    ensures var p := After(s, steps).reqs[r].phase;
      && (Rejected(p) <==> (At(s, r) && Rejected(s.reqs[r].phase)) || Refused(steps, r))
      && (Sent(p) <==> (At(s, r) && Sent(s.reqs[r].phase)) || SendOk(r) in steps)
      && (Filed(p) <==> (At(s, r) && Filed(s.reqs[r].phase)) || Added(steps, r))
    decreases |steps|
  {
    hide Inv, Apply, Possible, Fresh, Rejected, Sent, Filed;
    if steps != [] {
      var t := Apply(s, steps[0]);
      StepOk(s, steps[0]);
      RunTells(t, steps[1..], r);
      if At(t, r) {
        StepTells(s, steps[0], r);
      } else {
        NotYetThere(s, steps[0], r);
      }
      assert steps == [steps[0]] + steps[1..];
      StepsSplit(steps, r);
    }
  }

  lemma NotYetThere(s: State, step: Step, r: nat)
    requires Inv(s) && Enabled(s, step) && !At(Apply(s, step), r)
    ensures !At(s, r) && step != Refuse(r) && step != SendFailed(r) && step != SendOk(r) && !(step.AddEvent? && step.r == r)
  {
    if At(s, r) {
      StepAdvances(s, step, r);
    }
  }

  lemma StepsSplit(steps: seq<Step>, r: nat)
    requires steps != []
    ensures Refused(steps, r) <==> steps[0] == Refuse(r) || steps[0] == SendFailed(r) || Refused(steps[1..], r)
    ensures Added(steps, r) <==> (steps[0].AddEvent? && steps[0].r == r) || Added(steps[1..], r)
  {
    assert steps == [steps[0]] + steps[1..];
    if Added(steps, r) {
      var when :| AddEvent(r, when) in steps;
      assert AddEvent(r, when) == steps[0] || AddEvent(r, when) in steps[1..];
    }
    if Added(steps[1..], r) {
      var when :| AddEvent(r, when) in steps[1..];
      assert AddEvent(r, when) in steps;
    }
    if steps[0].AddEvent? && steps[0].r == r {
      assert AddEvent(r, steps[0].when) in steps;
    }
  }

  /**
   * In every run a request's outcome is an error exactly if it was refused or its message could not be
   * sent; its message has gone out exactly if a send succeeded, and it is filed exactly if added.
   */
  lemma OutcomeTellsHistory(clock: UTime, steps: seq<Step>, r: nat)
    requires Legal(Init(clock), steps) && At(After(Init(clock), steps), r)
    ensures var p := After(Init(clock), steps).reqs[r].phase;
      && (Rejected(p) <==> Refused(steps, r))
      && (Sent(p) <==> SendOk(r) in steps)
      && (Filed(p) <==> Added(steps, r))
  {
    hide Inv, Rejected, Sent, Filed;
    InitOk(clock);
    RunTells(Init(clock), steps, r);
  }

  /** A request refused, or whose forward failed, is answered with the error and never with anything else. */
  lemma RefusedForGood(s: State, step: Step, later: seq<Step>, r: nat)
    requires Inv(s) && Enabled(s, step) && (step == Refuse(r) || step == SendFailed(r)) && Legal(Apply(s, step), later)
    ensures At(After(Apply(s, step), later), r) && Rejected(After(Apply(s, step), later).reqs[r].phase)
  {
    hide Inv, Legal, After;
    StepOk(s, step);
    StepTells(s, step, r);
    RunAdvances(Apply(s, step), later, r);
  }

  /** What the arrivals bring, in order. */
  function Arrivals(steps: seq<Step>): seq<(uint32, int, Kind)> {
    if steps == [] then []
    else (if steps[0].Arrive? then [(steps[0].recvMid, steps[0].cfd, steps[0].kind)] else []) + Arrivals(steps[1..])
  }

  predicate SameRequest(req: Request, a: (uint32, int, Kind)) {
    req.recvMid == a.0 && req.cfd == a.1 && req.kind == a.2
  }

  lemma {:induction false} RequestsFrom(s: State, steps: seq<Step>)
    requires Inv(s) && Legal(s, steps)
    ensures var reqs, arrived := After(s, steps).reqs, Arrivals(steps);
      && |reqs| == |s.reqs| + |arrived|
      && (forall r | 0 <= r < |s.reqs| :: reqs[r] == s.reqs[r].(phase := reqs[r].phase))
      && (forall i | 0 <= i < |arrived| :: SameRequest(reqs[|s.reqs| + i], arrived[i]))
    decreases |steps|
  {
    hide Inv, Possible, Fresh, MayBecome, Apply, SameRequest;
    if steps != [] {
      var t := Apply(s, steps[0]);
      StepOk(s, steps[0]);
      OneStepRequests(s, steps[0]);
      RequestsFrom(t, steps[1..]);
      var arrived := Arrivals(steps);
      assert steps[0].Arrive? ==> arrived[1..] == Arrivals(steps[1..]);
      if steps[0].Arrive? {
        StillTheSame(t.reqs[|s.reqs|], After(s, steps).reqs[|s.reqs|], arrived[0]);
        assert forall i | 1 <= i < |arrived| :: arrived[i] == Arrivals(steps[1..])[i - 1];
      }
    }
  }

  lemma StillTheSame(a: Request, b: Request, x: (uint32, int, Kind))
    requires SameRequest(a, x) && b == a.(phase := b.phase)
    ensures SameRequest(b, x)
  {
  }

  lemma OneStepRequests(s: State, step: Step)
    requires Inv(s) && Enabled(s, step)
    ensures var t := Apply(s, step);
      && |t.reqs| == |s.reqs| + (if step.Arrive? then 1 else 0)
      && (forall r | 0 <= r < |s.reqs| :: t.reqs[r] == s.reqs[r].(phase := t.reqs[r].phase))
      && (step.Arrive? ==> SameRequest(t.reqs[|s.reqs|], (step.recvMid, step.cfd, step.kind)))
  {
    hide Inv, Stretch, Cancel, Add, Lookup, ReplyOf, Fresh;
  }

  /** In every run the requests are the arrivals, in order, each with the message id, socket and kind it came with. */
  lemma RequestsAreArrivals(clock: UTime, steps: seq<Step>)
    requires Legal(Init(clock), steps)
    ensures var reqs, arrived := After(Init(clock), steps).reqs, Arrivals(steps);
      |reqs| == |arrived| && forall r | 0 <= r < |reqs| :: SameRequest(reqs[r], arrived[r])
  {
    hide Inv, SameRequest, Arrivals, Legal, After;
    InitOk(clock);
    RequestsFrom(Init(clock), steps);
  }

  // ----- Cancelling

  /** Cancelling takes exactly the context waiting under the id out, for good and unanswered. */
  lemma CancelTakesOne(s: State, mid: uint32)
    requires Inv(s)
    ensures var t := Apply(s, CancelEvent(mid));
      match Lookup(s.q, mid)
      case None => t == s && forall c, w | Holds(s.q, c, w) :: c.pushMid != mid
      case Some(ct) =>
        && ct.pushMid == mid && ct.id < |s.reqs| && s.reqs[ct.id].phase.Waiting? && s.reqs[ct.id].phase.ct == ct
        && t == s.(q := t.q, reqs := s.reqs[ct.id := s.reqs[ct.id].(phase := Dropped(ct))])
        && forall c, w :: Holds(t.q, c, w) <==> Holds(s.q, c, w) && c != ct
  {
    hide Holds, Cancel, Valid, AtMost;
    LookupSpec(s.q, mid);
    CancelSpec(s.q, mid);
    if Lookup(s.q, mid).Some? {
      var ct, w := FoundIsHeld(s, mid);
    }
  }

  // ----- Stopping, signals, and the clock

  lemma {:induction false} StopStays(s: State, steps: seq<Step>)
    requires Inv(s) && Legal(s, steps)
    ensures After(s, steps).stop <==> s.stop || Shutdown in steps
    decreases |steps|
  {
    hide Inv, Possible, Fresh, Add, Cancel, Lookup;
    if steps != [] {
      StepOk(s, steps[0]);
      StopStays(Apply(s, steps[0]), steps[1..]);
      assert steps == [steps[0]] + steps[1..];
    }
  }

  /** The timer thread leaves only when told to. */
  lemma {:induction false} ExitStays(s: State, steps: seq<Step>)
    requires Inv(s) && Legal(s, steps) && (s.timer.Exited? ==> s.stop)
    ensures After(s, steps).timer.Exited? ==> After(s, steps).stop
    decreases |steps|
  {
    hide Inv, Possible, Fresh, Add, Cancel, Lookup;
    if steps != [] {
      StepOk(s, steps[0]);
      ExitStays(Apply(s, steps[0]), steps[1..]);
    }
  }

  /** In every run the queue is stopped exactly by a shutdown, and the timer thread has left only if it is. */
  lemma StoppedExactly(clock: UTime, steps: seq<Step>)
    requires Legal(Init(clock), steps)
    ensures After(Init(clock), steps).stop <==> Shutdown in steps
    ensures After(Init(clock), steps).timer.Exited? ==> Shutdown in steps
  {
    hide Inv;
    InitOk(clock);
    StopStays(Init(clock), steps);
    ExitStays(Init(clock), steps);
  }

  /**
   * The sleeping thread is signalled by a shutdown, and by an added event exactly if that is due before
   * all others; nothing else is done to the thread by either.
   */
  lemma SignalsExactly(s: State, r: nat, when: UTime)
    requires Inv(s)
    ensures Apply(s, Shutdown).timer == if s.timer.Asleep? then s.timer.(signalled := true) else s.timer
    ensures Enabled(s, AddEvent(r, when)) ==>
      Apply(s, AddEvent(r, when)).timer ==
        if s.timer.Asleep? && forall c, w | Holds(s.q, c, w) :: Less(when, w) then s.timer.(signalled := true) else s.timer
  {
    hide Holds, Less, UpperBound, Add;
    FirstIsEarliest(s.q, when);
  }

  function Ticks(steps: seq<Step>): set<UTime> {
    if steps == [] then {} else (if steps[0].Tick? then {steps[0].now} else {}) + Ticks(steps[1..])
  }

  /** Every reading in use is one the clock did show, and the latest is the greatest of them. */
  ghost predicate AllShown(s: State, shown: set<UTime>) {
    && s.clock in shown && s.latest in shown && (forall t | t in shown :: AtMost(t, s.latest))
    && (s.timer.Completing? || s.timer.Relock? ==> s.timer.now in shown)
    && forall r | 0 <= r < |s.reqs| && (s.reqs[r].phase.Due? || s.reqs[r].phase.Answered?) ::
         s.reqs[r].phase.outcome.Timeout? ==> s.reqs[r].phase.outcome.now in shown
  }

  lemma AtMostTransitive(a: UTime, b: UTime, c: UTime)
    ensures AtMost(a, b) && AtMost(b, c) ==> AtMost(a, c)
    ensures AtMost(a, a) && (Less(a, b) ==> AtMost(a, b)) && (!Less(a, b) ==> AtMost(b, a))
  {
  }

  lemma TickShown(s: State, now: UTime, shown: set<UTime>)
    requires AllShown(s, shown)
    ensures AllShown(Apply(s, Tick(now)), shown + {now})
  {
    hide AtMost, Less;
    forall t
      ensures AtMost(t, s.latest) && Less(s.latest, now) ==> AtMost(t, now)
    {
      AtMostTransitive(s.latest, now, now);
      AtMostTransitive(t, s.latest, now);
    }
    AtMostTransitive(s.latest, now, now);
    AtMostTransitive(now, s.latest, now);
  }

  lemma StepShown(s: State, step: Step, shown: set<UTime>)
    requires Inv(s) && Enabled(s, step) && AllShown(s, shown)
    ensures AllShown(Apply(s, step), if step.Tick? then shown + {step.now} else shown)
  {
    hide Inv, AtMost, Add, Cancel, Lookup, Fresh, ReplyOf;
    if step.Tick? {
      TickShown(s, step.now, shown);
    }
  }

  lemma {:induction false} RunShown(s: State, steps: seq<Step>, shown: set<UTime>)
    requires Inv(s) && Legal(s, steps) && AllShown(s, shown)
    ensures AllShown(After(s, steps), shown + Ticks(steps))
    decreases |steps|
  {
    hide Inv, Apply, Possible, Fresh, AllShown;
    if steps == [] {
      assert shown + Ticks(steps) == shown;
    } else {
      var shown' := if steps[0].Tick? then shown + {steps[0].now} else shown;
      StepOk(s, steps[0]);
      StepShown(s, steps[0], shown);
      RunShown(Apply(s, steps[0]), steps[1..], shown');
      assert shown' + Ticks(steps[1..]) == shown + Ticks(steps);
    }
  }

  /** The clock shows what it last ticked to. */
  function LastTick(clock: UTime, steps: seq<Step>): UTime {
    if steps == [] then clock
    else if steps[|steps| - 1].Tick? then steps[|steps| - 1].now
    else LastTick(clock, steps[..|steps| - 1])
  }

  lemma {:induction false} LastTickFirst(clock: UTime, steps: seq<Step>)
    requires steps != []
    ensures LastTick(clock, steps) == LastTick(if steps[0].Tick? then steps[0].now else clock, steps[1..])
    decreases |steps|
  {
    var n := |steps| - 1;
    if n > 0 && !steps[n].Tick? {
      LastTickFirst(clock, steps[..n]);
      assert steps[1..][..n - 1] == steps[..n][1..];
    }
  }

  lemma {:induction false} ClockIsLast(s: State, steps: seq<Step>)
    requires Legal(s, steps)
    ensures After(s, steps).clock == LastTick(s.clock, steps)
    decreases |steps|
  {
    hide Possible, Fresh, Add, Cancel, Lookup, LastTick;
    if steps == [] {
      NoTick(s.clock);
    } else {
      LastTickFirst(s.clock, steps);
      ClockIsLast(Apply(s, steps[0]), steps[1..]);
    }
  }

  lemma NoTick(clock: UTime)
    ensures LastTick(clock, []) == clock
  {
  }

  /**
   * A request times out only on a reading that the clock showed during the run, at or after its own
   * deadline; and the clock shows what it last ticked to.
   */
  lemma TimeoutsWereShown(clock: UTime, steps: seq<Step>, r: nat)
    requires Legal(Init(clock), steps) && At(After(Init(clock), steps), r)
    ensures var s := After(Init(clock), steps);
      var p := s.reqs[r].phase;
      && ((p.Due? || p.Answered?) && p.outcome.Timeout? ==>
            p.outcome.now in {clock} + Ticks(steps) && AtMost(p.outcome.when, p.outcome.now))
      && s.clock == LastTick(clock, steps)
  {
    hide Inv, AtMost;
    InitOk(clock);
    AlwaysInv(clock, steps);
    AtMostTransitive(clock, clock, clock);
    RunShown(Init(clock), steps, {clock});
    ClockIsLast(Init(clock), steps);
    RequestFacts(After(Init(clock), steps), r);
  }

  // ----- The timer thread, step by step

  /** The reading a stretch works from: the clock's at the top of the outer loop, and the same until it goes round. */
  function Reading(s: State): UTime {
    if s.timer.Relock? then s.timer.now else s.clock
  }

  /**
   * What the timer thread does when it runs. At the top it leaves if it is told to; otherwise it takes out
   * an earliest context that is due, and nothing else; with none due it leaves if it is told to, else
   * sleeps until the earliest deadline, or without bound on an empty queue.
   */
  lemma RunTimerSpec(s: State)
    requires Inv(s) && Enabled(s, RunTimer)
    ensures var t, now := Apply(s, RunTimer), Reading(s);
      if (s.timer.Top? && s.stop) || (s.stop && NoneDue(s.q, now)) then t == s.(timer := Exited)
      else if NoneDue(s.q, now) then
        && t == s.(timer := t.timer) && t.timer.Asleep? && !t.timer.signalled
        && match t.timer.until
           case None => forall c, w :: !Holds(s.q, c, w)
           case Some(when) => exists c :: Earliest(s.q, c, when)
      else
        && t.timer.Completing? && t.timer.now == now
        && (exists w :: Earliest(s.q, t.timer.ct, w) && AtMost(w, now)
             && t == s.(q := t.q, timer := t.timer, reqs := SetPhase(s.reqs, t.timer.ct.id, Due(Timeout(t.timer.ct, w, now)))))
        && forall c, w :: Holds(t.q, c, w) <==> Holds(s.q, c, w) && c != t.timer.ct
  {
    hide Inv, NoneDue, Holds, AtMost, Less, Earliest;
    QueueIsValid(s);
    var now := Reading(s);
    OneIsDue(s.q, s.stop, now);
    if !(s.timer.Top? && s.stop) && !NoneDue(s.q, now) {
      DueIsFirst(s.q, s.stop, now);
      var first := s.q.schedule[0];
      HeldAlone(s, first.ct, first.when);
      var t := Apply(s, RunTimer);
      assert t == s.(q := t.q, timer := t.timer, reqs := SetPhase(s.reqs, first.ct.id, Due(Timeout(first.ct, first.when, now))));
    } else if !s.stop {
      var (q', action) := Stretch(s.q, s.stop, now);
      hide Stretch;
      assert action.Sleep? && q' == s.q;
      var t := Apply(s, RunTimer);
      assert t == s.(timer := Asleep(action.until, false));
    }
  }

  lemma QueueIsValid(s: State)
    requires Inv(s)
    ensures Valid(s.q)
  {
  }

  lemma DueIsFirst(q: Queue, stop: bool, now: UTime)
    requires Valid(q) && !NoneDue(q, now)
    ensures q.schedule != [] && TimerQueue.Due(q, now) && Earliest(q, q.schedule[0].ct, q.schedule[0].when)
    ensures Holds(q, q.schedule[0].ct, q.schedule[0].when) && AtMost(q.schedule[0].when, now)
    ensures !NoneDue(q, now) ==> Stretch(q, stop, now).1 == Complete(q.schedule[0].ct)
  {
    hide Valid;
    OneIsDue(q, stop, now);
    if q.schedule != [] {
      PopSpec(q);
    }
  }

  /** A held context is the only one with its message id. */
  lemma HeldAlone(s: State, ct: Context, w: UTime)
    requires Inv(s) && Holds(s.q, ct, w)
    ensures forall c, v | Holds(s.q, c, v) :: c.pushMid == ct.pushMid <==> c == ct
  {
    hide Valid, Holds;
    LookupSpec(s.q, ct.pushMid);
  }

  /** Completing: the timeout reply is written from the context, the request is answered, and the reading is kept. */
  lemma FinishSpec(s: State)
    requires Inv(s) && s.timer.Completing?
    ensures var ct := s.timer.ct;
      && At(s, ct.id) && s.reqs[ct.id].phase.Due? && s.reqs[ct.id].phase.outcome.Timeout? && s.reqs[ct.id].phase.outcome.ct == ct
      && Apply(s, FinishComplete) == s.(
           timer := Relock(s.timer.now),
           replies := s.replies + [Reply(ct.id, s.reqs[ct.id].cfd, s.reqs[ct.id].recvMid, s.reqs[ct.id].kind.ResponseType())],
           reqs := s.reqs[ct.id := s.reqs[ct.id].(phase := Answered(s.reqs[ct.id].phase.outcome))])
  {
    hide Valid, Holds, AtMost;
    RequestFacts(s, s.timer.ct.id);
  }

  // ----- Something can always be done

  /**
   * Clients, devices and the clock can always act. The timer thread is never stuck before it leaves, and no
   * request before it is answered or dropped; one that waits is found by its device's reply.
   */
  lemma NothingIsStuck(s: State, r: nat, when: UTime)
    requires Inv(s)
    ensures forall step: Step | step.Arrive? || step.DeviceReply? || step.CancelEvent? || step.Shutdown? || step.Tick? ::
      Possible(s, step)
    ensures !s.timer.Exited? ==> Possible(s, Wake) || Possible(s, RunTimer) || Possible(s, FinishComplete)
    ensures At(s, r) ==>
      match s.reqs[r].phase
      case Arrived => Possible(s, Refuse(r)) && Possible(s, Pack(r))
      case Packed(_) => Possible(s, SendOk(r)) && Possible(s, SendFailed(r))
      case Forwarded(_) => Possible(s, AddEvent(r, when))
      case Waiting(ct, _) => Lookup(s.q, ct.pushMid) == Some(ct)
      case Due(o) => Possible(s, if o.Timeout? then FinishComplete else WriteReply(r))
      case Answered(_) => true
      case Dropped(_) => true
  {
    hide Valid, Holds, AtMost, MidsCounted, SleepOk;
    if At(s, r) && s.reqs[r].phase.Waiting? {
      var Waiting(ct, w) := s.reqs[r].phase;
      RequestFacts(s, r);
      assert Holds(s.q, ct, w);
      LookupSpec(s.q, ct.pushMid);
    }
  }

  // ----- Whatever is due gets completed

  predicate OnlyTimer(steps: seq<Step>) {
    forall i | 0 <= i < |steps| :: steps[i].RunTimer? || steps[i].FinishComplete?
  }

  /** Done: nothing due is left, what was due is answered with its timeout, and what was not is still there. */
  ghost predicate Drained(s: State, t: State, now: UTime) {
    && t.timer.Asleep? && !t.timer.signalled && NoneDue(t.q, now)
    && (forall c, w :: Holds(t.q, c, w) <==> Holds(s.q, c, w) && Less(now, w))
    && forall c, w | Holds(s.q, c, w) && !Less(now, w) ::
         c.id < |t.reqs| && t.reqs[c.id].phase == Answered(Timeout(c, w, now))
  }

  lemma {:induction false} Drain(s: State) returns (steps: seq<Step>)
    requires Inv(s) && !s.stop && (s.timer.Top? || s.timer.Relock?)
    ensures Legal(s, steps) && OnlyTimer(steps) && Inv(After(s, steps)) && Drained(s, After(s, steps), Reading(s))
    decreases |s.q.schedule|
  {
    hide Inv, Holds, Less, AtMost, Apply, Possible, Earliest;
    var now := Reading(s);
    RunTimerSpec(s) by { CanRun(s); }
    CanRun(s);
    StepOk(s, RunTimer);
    var t := Apply(s, RunTimer);
    if NoneDue(s.q, now) {
      steps := RunStep(s, RunTimer, []);
    } else {
      var ct := t.timer.ct;
      OneFewer(s);
      CanFinish(t);
      FinishSpec(t);
      StepOk(t, FinishComplete);
      var u := Apply(t, FinishComplete);
      var more := Drain(u);
      var w :| Earliest(s.q, ct, w) && AtMost(w, now)
        && t == s.(q := t.q, timer := t.timer, reqs := SetPhase(s.reqs, ct.id, Due(Timeout(ct, w, now))));
      TookOne(s, t, u, After(u, more), ct, w, now, more);
      var rest := RunStep(t, FinishComplete, more);
      steps := RunStep(s, RunTimer, rest);
    }
  }

  lemma CanRun(s: State)
    requires s.timer.Top? || s.timer.Relock?
    ensures Enabled(s, RunTimer)
  {
  }

  lemma CanFinish(s: State)
    requires s.timer.Completing?
    ensures Enabled(s, FinishComplete)
  {
  }

  lemma OneFewer(s: State)
    requires Inv(s) && !s.stop && (s.timer.Top? || s.timer.Relock?) && !NoneDue(s.q, Reading(s))
    ensures |Apply(s, RunTimer).q.schedule| < |s.q.schedule|
  {
    hide Inv, NoneDue;
    QueueIsValid(s);
    DueIsFirst(s.q, s.stop, Reading(s));
  }

  /** One completion and then the draining of the rest is the draining of all. */
  lemma TookOne(s: State, t: State, u: State, last: State, ct: Context, w: UTime, now: UTime, more: seq<Step>)
    requires Inv(s) && Inv(u) && Legal(u, more) && last == After(u, more) && Drained(u, last, now)
    requires Earliest(s.q, ct, w) && AtMost(w, now) && u.q == t.q && ct.id < |u.reqs|
    requires u.reqs[ct.id].phase == Answered(Timeout(ct, w, now))
    requires forall c, v :: Holds(t.q, c, v) <==> Holds(s.q, c, v) && c != ct
    ensures Drained(s, last, now)
  {
    hide Inv, Holds, After, Legal;
    assert Holds(s.q, ct, w);
    RunAdvances(u, more, ct.id);
    forall c, v | Holds(s.q, c, v) && c == ct
      ensures v == w
    {
      SameDeadline(s, ct, v, w);
    }
  }

  lemma SameDeadline(s: State, ct: Context, v: UTime, w: UTime)
    requires Inv(s) && Holds(s.q, ct, v) && Holds(s.q, ct, w)
    ensures v == w
  {
    HeldIsWaiting(s, ct, v);
    HeldIsWaiting(s, ct, w);
  }

  /**
   * Progress. From any reachable state in which the queue is not stopped and the timer thread is asleep, waking
   * it and letting it run completes every context that is due by the clock and leaves all others
   * waiting, and the thread goes back to sleep.
   */
  lemma DueIsCompleted(s: State) returns (steps: seq<Step>)
    requires Inv(s) && !s.stop && s.timer.Asleep?
    ensures Legal(s, [Wake] + steps) && OnlyTimer(steps) && Drained(s, After(s, [Wake] + steps), s.clock)
  {
    hide Inv, Drained, Legal, After;
    assert Enabled(s, Wake);
    StepOk(s, Wake);
    var t := Apply(s, Wake);
    steps := Drain(t);
    var all := RunStep(s, Wake, steps);
    SameQueue(s, t, After(t, steps), s.clock);
  }

  lemma SameQueue(s: State, t: State, last: State, now: UTime)
    requires s.q == t.q && Drained(t, last, now)
    ensures Drained(s, last, now)
  {
  }
}
