// The request and reply conversation of the TLV dispatcher around the timer queue, as a state
// machine. Handlers, the timer thread, clients and devices interleave at every release of the
// queue's lock and at every send.
module Conversation {
  import opened Machine
  import opened UTimes
  import opened TimerQueue
  import Tlv

  /** The two requests a client can have forwarded to its device. */
  datatype Kind = StartSend | SendVoice
  {
    function ResponseType(): uint32 {
      match this
      case StartSend => Tlv.TYPE_ON_CLIENT_START_SEND
      case SendVoice => Tlv.TYPE_ON_CLIENT_SEND_VOICE_DATA
    }
  }

  /** Why a reply is written: the request was refused, the device answered (with a kind), or time ran out. */
  datatype Outcome =
    | Error
    | Device(ct: Context, kind: Kind)
    | Timeout(ct: Context, when: UTime, now: UTime)

  /** How far one request is. Due: its reply is decided but not yet written. */
  datatype Phase =
    | Arrived
    | Packed(ct: Context)
    | Forwarded(ct: Context)
    | Waiting(ct: Context, when: UTime)
    | Due(outcome: Outcome)
    | Answered(outcome: Outcome)
    | Dropped(ct: Context)

  /** One run of a request handler: the client's message id and socket, and what was asked. */
  datatype Request = Request(recvMid: uint32, cfd: int, kind: Kind, phase: Phase)

  /** A reply on the wire, tagged with the context or handler it was made from. */
  datatype Reply = Reply(req: nat, cfd: int, mid: uint32, responseType: uint32)

  /** Where the timer thread is. Outside these points it holds the lock. */
  datatype Timer =
    | Top
    | Completing(ct: Context, now: UTime)
    | Relock(now: UTime)
    | Asleep(until: Option<UTime>, signalled: bool)
    | Exited

  datatype State = State(
    q: Queue,
    stop: bool,
    timer: Timer,
    clock: UTime,
    latest: UTime,
    counter: nat,
    reqs: seq<Request>,
    replies: seq<Reply>)

  datatype Step =
    | Arrive(recvMid: uint32, cfd: int, kind: Kind)
    | Refuse(r: nat)
    | Pack(r: nat)
    | SendOk(r: nat)
    | SendFailed(r: nat)
    | AddEvent(r: nat, when: UTime)
    | DeviceReply(mid: uint32, kind: Kind)
    | WriteReply(r: nat)
    | CancelEvent(mid: uint32)
    | Shutdown
    | Tick(now: UTime)
    | Wake
    | RunTimer
    | FinishComplete

  // ----- The steps

  /** Every reply is made from what its writer has at hand: its own request, or a context. */
  function ReplyOf(r: nat, req: Request, outcome: Outcome): Reply {
    match outcome
    case Error => Reply(r, req.cfd, req.recvMid, req.kind.ResponseType())
    case Device(ct, kind) => Reply(ct.id, ct.recvCfd, ct.recvMid, kind.ResponseType())
    case Timeout(ct, _, _) => Reply(ct.id, ct.recvCfd, ct.recvMid, ct.responseType)
  }

  /** The message id of a forwarded message that is under way or waited for. */
  predicate Uses(p: Phase, mid: uint32) {
    (p.Packed? || p.Forwarded? || p.Waiting?) && p.ct.pushMid == mid
  }

  predicate Fresh(s: State, mid: uint32) {
    forall r | 0 <= r < |s.reqs| :: !Uses(s.reqs[r].phase, mid)
  }

  function NextMid(s: State): uint32 {
    Wrap32(s.counter + 1)
  }

  predicate At(s: State, r: nat) {
    r < |s.reqs|
  }

  /** What the program itself lets happen. */
  predicate Possible(s: State, step: Step) {
    match step
    case Refuse(r) => At(s, r) && s.reqs[r].phase.Arrived?
    case Pack(r) => At(s, r) && s.reqs[r].phase.Arrived?
    case SendOk(r) => At(s, r) && s.reqs[r].phase.Packed?
    case SendFailed(r) => At(s, r) && s.reqs[r].phase.Packed?
    case AddEvent(r, _) => At(s, r) && s.reqs[r].phase.Forwarded?
    case WriteReply(r) => At(s, r) && s.reqs[r].phase.Due? && !s.reqs[r].phase.outcome.Timeout?
    case Wake => s.timer.Asleep?
    case RunTimer => s.timer.Top? || s.timer.Relock?
    case FinishComplete => s.timer.Completing?
    case _ => true
  }

  /** A packed message must not take an id still in use: its counter has not wrapped onto one. */
  predicate Enabled(s: State, step: Step) {
    Possible(s, step) && (step.Pack? ==> Fresh(s, NextMid(s)))
  }

  function SetPhase(reqs: seq<Request>, r: nat, p: Phase): seq<Request> {
    if r < |reqs| then reqs[r := reqs[r].(phase := p)] else reqs
  }

  /** A signal reaches the timer thread only if it sleeps. */
  function Signal(t: Timer): Timer {
    if t.Asleep? then t.(signalled := true) else t
  }

  function Write(s: State, r: nat, outcome: Outcome): State
    requires At(s, r)
  {
    s.(reqs := SetPhase(s.reqs, r, Answered(outcome)),
       replies := s.replies + [ReplyOf(r, s.reqs[r], outcome)])
  }

  /** One stretch of the timer thread under the lock, with the clock reading it works from. */
  function TimerStretch(s: State, now: UTime): State {
    var (q, action) := Stretch(s.q, s.stop, now);
    match action
    case Complete(ct) =>
      s.(q := q, timer := Completing(ct, now),
         reqs := SetPhase(s.reqs, ct.id, Due(Timeout(ct, s.q.schedule[0].when, now))))
    case Exit => s.(timer := Exited)
    case Sleep(until) => s.(timer := Asleep(until, false))
  }

  function Apply(s: State, step: Step): State
    requires Possible(s, step)
  {
    match step
    case Arrive(recvMid, cfd, kind) => s.(reqs := s.reqs + [Request(recvMid, cfd, kind, Arrived)])
    case Refuse(r) => s.(reqs := SetPhase(s.reqs, r, Due(Error)))
    case Pack(r) =>
      var req := s.reqs[r];
      var ct := Context(r, req.recvMid, req.cfd, NextMid(s), req.kind.ResponseType());
      s.(counter := s.counter + 1, reqs := SetPhase(s.reqs, r, Packed(ct)))
    case SendOk(r) => s.(reqs := SetPhase(s.reqs, r, Forwarded(s.reqs[r].phase.ct)))
    case SendFailed(r) => s.(reqs := SetPhase(s.reqs, r, Due(Error)))
    case AddEvent(r, when) =>
      var ct := s.reqs[r].phase.ct;
      s.(q := Add(s.q, when, ct.pushMid, ct),
         timer := if UpperBound(s.q.schedule, when, 0) == 0 then Signal(s.timer) else s.timer,
         reqs := SetPhase(s.reqs, r, Waiting(ct, when)))
    case DeviceReply(mid, kind) =>
      (match Lookup(s.q, mid)
       case None => s
       case Some(ct) => s.(q := Cancel(s.q, mid), reqs := SetPhase(s.reqs, ct.id, Due(Device(ct, kind)))))
    case WriteReply(r) => Write(s, r, s.reqs[r].phase.outcome)
    case CancelEvent(mid) =>
      (match Lookup(s.q, mid)
       case None => s
       case Some(ct) => s.(q := Cancel(s.q, mid), reqs := SetPhase(s.reqs, ct.id, Dropped(ct))))
    case Shutdown => s.(stop := true, timer := Signal(s.timer))
    case Tick(now) => s.(clock := now, latest := if Less(s.latest, now) then now else s.latest)
    case Wake => s.(timer := Top)
    case RunTimer =>
      if s.timer.Relock? then TimerStretch(s, s.timer.now)
      else if s.stop then s.(timer := Exited)
      else TimerStretch(s, s.clock)
    case FinishComplete =>
      var ct := s.timer.ct;
      s.(timer := Relock(s.timer.now),
         replies := s.replies + [Reply(ct.id, ct.recvCfd, ct.recvMid, ct.responseType)],
         reqs := if ct.id < |s.reqs| && s.reqs[ct.id].phase.Due?
                 then SetPhase(s.reqs, ct.id, Answered(s.reqs[ct.id].phase.outcome)) else s.reqs)
  }

  function Init(clock: UTime): State {
    State(EMPTY, false, Top, clock, clock, 0, [], [])
  }

  // ----- Runs

  ghost predicate Legal(s: State, steps: seq<Step>)
    decreases |steps|
  {
    steps == [] || (Enabled(s, steps[0]) && Legal(Apply(s, steps[0]), steps[1..]))
  }

  ghost function After(s: State, steps: seq<Step>): State
    requires Legal(s, steps)
    decreases |steps|
  {
    if steps == [] then s else After(Apply(s, steps[0]), steps[1..])
  }

  // ----- The invariant

  /** The replies made out to request r. */
  function Count(replies: seq<Reply>, r: nat): nat {
    if replies == [] then 0
    else Count(replies[..|replies| - 1], r) + if replies[|replies| - 1].req == r then 1 else 0
  }

  /** The context a phase carries, if any. */
  function ContextOf(p: Phase): Option<Context> {
    match p
    case Arrived => None
    case Packed(ct) => Some(ct)
    case Forwarded(ct) => Some(ct)
    case Waiting(ct, _) => Some(ct)
    case Dropped(ct) => Some(ct)
    case Due(o) => if o.Error? then None else Some(o.ct)
    case Answered(o) => if o.Error? then None else Some(o.ct)
  }

  /** A request's context is its own: made from its own message id, socket and kind. */
  ghost predicate OwnContext(r: nat, req: Request) {
    ContextOf(req.phase).Some? ==>
      var ct := ContextOf(req.phase).value;
      ct == Context(r, req.recvMid, req.cfd, ct.pushMid, req.kind.ResponseType())
  }

  /** Clock readings behind a timeout: the deadline had passed on a reading the clock did show. */
  ghost predicate TimeoutOk(p: Phase, latest: UTime) {
    (p.Due? || p.Answered?) && p.outcome.Timeout? ==>
      AtMost(p.outcome.when, p.outcome.now) && AtMost(p.outcome.now, latest)
  }

  ghost predicate RequestsOk(s: State) {
    forall r | 0 <= r < |s.reqs| :: OwnContext(r, s.reqs[r]) && TimeoutOk(s.reqs[r].phase, s.latest)
  }

  /** The queue holds exactly the contexts of the waiting requests, with their deadlines. */
  ghost predicate QueueOk(s: State) {
    && Valid(s.q)
    && forall c, w :: Holds(s.q, c, w) <==> c.id < |s.reqs| && s.reqs[c.id].phase == Waiting(c, w)
  }

  ghost predicate MidsDistinct(s: State) {
    forall r1, r2, mid: uint32 | 0 <= r1 < r2 < |s.reqs| && Uses(s.reqs[r1].phase, mid) :: !Uses(s.reqs[r2].phase, mid)
  }

  /** Until the counter wraps, the ids in use are values it has passed. */
  ghost predicate MidsCounted(s: State) {
    s.counter < TWO_32 ==>
      forall r, mid: uint32 | 0 <= r < |s.reqs| && Uses(s.reqs[r].phase, mid) :: 1 <= mid <= s.counter
  }

  /** Every answered request has one reply and the others none; each reply is the one its outcome calls for. */
  ghost predicate RepliesOk(s: State) {
    && (forall r: nat :: Count(s.replies, r) == if r < |s.reqs| && s.reqs[r].phase.Answered? then 1 else 0)
    && (forall i | 0 <= i < |s.replies| ::
          var r := s.replies[i].req;
          && r < |s.reqs| && s.reqs[r].phase.Answered?
          && s.replies[i] == ReplyOf(r, s.reqs[r], s.reqs[r].phase.outcome))
  }

  /** The timer thread is completing exactly the context whose timeout reply is due. */
  ghost predicate TimerOk(s: State) {
    && (s.timer.Completing? ==>
          var r := s.timer.ct.id;
          && r < |s.reqs| && s.reqs[r].phase.Due? && s.reqs[r].phase.outcome.Timeout?
          && s.reqs[r].phase.outcome.ct == s.timer.ct)
    && (forall r | 0 <= r < |s.reqs| && s.reqs[r].phase.Due? && s.reqs[r].phase.outcome.Timeout? ::
          s.timer.Completing? && s.timer.ct == s.reqs[r].phase.outcome.ct)
    && (s.timer.Completing? || s.timer.Relock? ==> AtMost(s.timer.now, s.latest))
    && AtMost(s.clock, s.latest)
  }

  /** No lost wake-up: sleeping without a signal is sleeping no longer than any deadline, and not past a stop. */
  ghost predicate SleepOk(s: State) {
    s.timer.Asleep? && !s.timer.signalled ==>
      !s.stop && forall c, w | Holds(s.q, c, w) :: s.timer.until.Some? && AtMost(s.timer.until.value, w)
  }

  ghost predicate Inv(s: State) {
    RequestsOk(s) && QueueOk(s) && MidsDistinct(s) && MidsCounted(s) && RepliesOk(s) && TimerOk(s) && SleepOk(s)
  }

  // ----- The invariant holds in every run

  lemma InitOk(clock: UTime)
    ensures Inv(Init(clock))
  {
  }

  lemma CountOneMore(replies: seq<Reply>, reply: Reply, r: nat)
    ensures Count(replies + [reply], r) == Count(replies, r) + if reply.req == r then 1 else 0
  {
    assert (replies + [reply])[..|replies|] == replies;
  }

  /** A phase change that no reply, queue entry or timer depends on. */
  lemma QuietPhase(s: State, r: nat, p: Phase)
    requires Inv(s) && At(s, r)
    requires s.reqs[r].phase.Arrived? || s.reqs[r].phase.Packed?
    requires p == Due(Error) || (p.Forwarded? && s.reqs[r].phase == Packed(p.ct))
    ensures Inv(s.(reqs := SetPhase(s.reqs, r, p)))
  {
    hide Valid, Holds, AtMost, Count;
    var t := s.(reqs := SetPhase(s.reqs, r, p));
    forall r', mid: uint32 | 0 <= r' < |t.reqs| && Uses(t.reqs[r'].phase, mid)
      ensures Uses(s.reqs[r'].phase, mid)
    {
    }
    forall c, w
      ensures Holds(t.q, c, w) <==> c.id < |t.reqs| && t.reqs[c.id].phase == Waiting(c, w)
    {
      assert Holds(s.q, c, w) <==> c.id < |s.reqs| && s.reqs[c.id].phase == Waiting(c, w);
    }
    assert RepliesOk(t) by {
      forall i | 0 <= i < |t.replies|
        ensures var r := t.replies[i].req;
          && r < |t.reqs| && t.reqs[r].phase.Answered?
          && t.replies[i] == ReplyOf(r, t.reqs[r], t.reqs[r].phase.outcome)
      {
        assert s.replies[i].req != r;
      }
    }
  }

  lemma PackOk(s: State, r: nat)
    requires Inv(s) && Enabled(s, Pack(r))
    ensures Inv(Apply(s, Pack(r)))
  {
    hide Valid, Holds, AtMost, Count;
    var t := Apply(s, Pack(r));
    forall r', mid: uint32 | 0 <= r' < |t.reqs| && r' != r && Uses(t.reqs[r'].phase, mid)
      ensures Uses(s.reqs[r'].phase, mid) && mid != NextMid(s)
    {
    }
    forall c, w
      ensures Holds(t.q, c, w) <==> c.id < |t.reqs| && t.reqs[c.id].phase == Waiting(c, w)
    {
      assert Holds(s.q, c, w) <==> c.id < |s.reqs| && s.reqs[c.id].phase == Waiting(c, w);
    }
    assert RepliesOk(t);
    assert MidsCounted(t);
    assert MidsDistinct(t);
  }

  lemma ArriveOk(s: State, recvMid: uint32, cfd: int, kind: Kind)
    requires Inv(s)
    ensures Inv(Apply(s, Arrive(recvMid, cfd, kind)))
  {
    var t := Apply(s, Arrive(recvMid, cfd, kind));
    forall r', mid: uint32 | 0 <= r' < |t.reqs| && Uses(t.reqs[r'].phase, mid)
      ensures r' < |s.reqs| && Uses(s.reqs[r'].phase, mid)
    {
    }
    forall c, w
      ensures Holds(t.q, c, w) <==> c.id < |t.reqs| && t.reqs[c.id].phase == Waiting(c, w)
    {
      assert Holds(s.q, c, w) <==> c.id < |s.reqs| && s.reqs[c.id].phase == Waiting(c, w);
    }
    assert RepliesOk(t);
  }

  /** A held context is the one of the request its id names. */
  lemma HeldIsWaiting(s: State, ct: Context, w: UTime)
    requires Inv(s) && Holds(s.q, ct, w)
    ensures ct.id < |s.reqs| && s.reqs[ct.id].phase == Waiting(ct, w)
  {
  }

  /** A forwarded message's id is not in the index: only waiting requests are, and ids in use differ. */
  lemma ForwardedIsFresh(s: State, r: nat)
    requires Inv(s) && At(s, r) && s.reqs[r].phase.Forwarded?
    ensures s.reqs[r].phase.ct.pushMid !in s.q.events
  {
    var mid := s.reqs[r].phase.ct.pushMid;
    if mid in s.q.events {
      LookupSpec(s.q, mid);
      var c := Lookup(s.q, mid).value;
      var w :| Holds(s.q, c, w);
      HeldIsWaiting(s, c, w);
      assert Uses(s.reqs[c.id].phase, mid) && Uses(s.reqs[r].phase, mid);
    }
  }

  lemma AddEventQueueOk(s: State, r: nat, when: UTime)
    requires Inv(s) && Enabled(s, AddEvent(r, when))
    ensures QueueOk(Apply(s, AddEvent(r, when)))
  {
    hide AtMost, Add, Sorted, NodesOk, ScheduleIndexed, IndexScheduled, Holds;
    var t := Apply(s, AddEvent(r, when));
    var ct := s.reqs[r].phase.ct;
    ForwardedIsFresh(s, r);
    AddKeepsValid(s.q, when, ct.pushMid, ct);
    assert OwnContext(r, s.reqs[r]);
    forall c, w
      ensures Holds(t.q, c, w) <==> c.id < |t.reqs| && t.reqs[c.id].phase == Waiting(c, w)
    {
      AddHolds(s.q, when, ct.pushMid, ct, c, w);
      assert Holds(s.q, c, w) <==> c.id < |s.reqs| && s.reqs[c.id].phase == Waiting(c, w);
    }
  }

  lemma AddEventOk(s: State, r: nat, when: UTime)
    requires Inv(s) && Enabled(s, AddEvent(r, when))
    ensures Inv(Apply(s, AddEvent(r, when)))
  {
    hide AtMost, Add, Holds, Valid;
    var t := Apply(s, AddEvent(r, when));
    AddEventQueueOk(s, r, when);
    forall r', mid: uint32 | 0 <= r' < |t.reqs| && Uses(t.reqs[r'].phase, mid)
      ensures Uses(s.reqs[r'].phase, mid)
    {
    }
    assert RepliesOk(t);
    AddKeepsSleep(s, t, s.reqs[r].phase.ct, when);
  }

  /** Signalling only for a new first entry is enough: any other is due no earlier than the first. */
  lemma AddKeepsSleep(s: State, t: State, ct: Context, when: UTime)
    requires Valid(s.q) && SleepOk(s) && t.stop == s.stop && t.q == Add(s.q, when, ct.pushMid, ct)
    requires t.timer == if UpperBound(s.q.schedule, when, 0) == 0 then Signal(s.timer) else s.timer
    ensures SleepOk(t)
  {
    if t.timer.Asleep? && !t.timer.signalled {
      FirstIsEarliest(s.q, when);
      var c0, w0 :| Holds(s.q, c0, w0) && !Less(when, w0);
      forall c, w | Holds(t.q, c, w)
        ensures t.timer.until.Some? && AtMost(t.timer.until.value, w)
      {
        AddHolds(s.q, when, ct.pushMid, ct, c, w);
      }
    }
  }

  lemma TakeQueueOk(s: State, ct: Context, w: UTime, p: Phase)
    requires Inv(s) && Holds(s.q, ct, w) && !p.Waiting?
    ensures QueueOk(s.(q := Cancel(s.q, ct.pushMid), reqs := SetPhase(s.reqs, ct.id, p)))
    ensures forall c, v | Holds(Cancel(s.q, ct.pushMid), c, v) :: Holds(s.q, c, v)
  {
    hide AtMost, Cancel, Valid, Holds;
    var t := s.(q := Cancel(s.q, ct.pushMid), reqs := SetPhase(s.reqs, ct.id, p));
    HeldIsWaiting(s, ct, w);
    CancelSpec(s.q, ct.pushMid);
    assert Uses(s.reqs[ct.id].phase, ct.pushMid);
    forall c, v
      ensures Holds(t.q, c, v) <==> c.id < |t.reqs| && t.reqs[c.id].phase == Waiting(c, v)
    {
      assert Holds(s.q, c, v) <==> c.id < |s.reqs| && s.reqs[c.id].phase == Waiting(c, v);
      if Holds(s.q, c, v) {
        assert Uses(s.reqs[c.id].phase, c.pushMid);
      }
    }
  }

  /** Taking a context out of the queue, whoever does it. */
  lemma TakeOk(s: State, ct: Context, w: UTime, p: Phase)
    requires Inv(s) && Holds(s.q, ct, w)
    requires p == Dropped(ct) || (p.Due? && p.outcome.Device? && p.outcome.ct == ct)
      || (p.Due? && p.outcome.Timeout? && p.outcome.ct == ct && TimeoutOk(p, s.latest))
    ensures var t := s.(q := Cancel(s.q, ct.pushMid), reqs := SetPhase(s.reqs, ct.id, p));
      RequestsOk(t) && QueueOk(t) && MidsDistinct(t) && MidsCounted(t) && RepliesOk(t) && SleepOk(t)
  {
    hide AtMost, Cancel, Valid, Holds;
    var t := s.(q := Cancel(s.q, ct.pushMid), reqs := SetPhase(s.reqs, ct.id, p));
    HeldIsWaiting(s, ct, w);
    TakeQueueOk(s, ct, w, p);
    forall r', mid: uint32 | 0 <= r' < |t.reqs| && Uses(t.reqs[r'].phase, mid)
      ensures Uses(s.reqs[r'].phase, mid)
    {
    }
    assert RepliesOk(t);
  }

  lemma FoundIsHeld(s: State, mid: uint32) returns (ct: Context, w: UTime)
    requires Inv(s) && Lookup(s.q, mid).Some?
    ensures Lookup(s.q, mid) == Some(ct) && Holds(s.q, ct, w) && ct.pushMid == mid
    ensures ct.id < |s.reqs| && s.reqs[ct.id].phase == Waiting(ct, w)
  {
    LookupSpec(s.q, mid);
    ct := Lookup(s.q, mid).value;
    w :| Holds(s.q, ct, w);
  }

  lemma DeviceReplyOk(s: State, mid: uint32, kind: Kind)
    requires Inv(s)
    ensures Inv(Apply(s, DeviceReply(mid, kind)))
  {
    hide Holds, Cancel, Valid, AtMost;
    if Lookup(s.q, mid).Some? {
      var ct, w := FoundIsHeld(s, mid);
      TakeOk(s, ct, w, Due(Device(ct, kind)));
    }
  }

  /**
   * A device reply, whenever it comes, moves the one request on that waits under its id: that one's
   * context alone leaves the queue, and nothing else changes. Under any other id it changes nothing.
   */
  lemma DeviceReplyTakesOne(s: State, mid: uint32, kind: Kind)
    requires Inv(s)
    ensures var t := Apply(s, DeviceReply(mid, kind));
      match Lookup(s.q, mid)
      case None => t == s && forall c, w | Holds(s.q, c, w) :: c.pushMid != mid
      case Some(ct) =>
        && ct.pushMid == mid && ct.id < |s.reqs| && s.reqs[ct.id].phase.Waiting? && s.reqs[ct.id].phase.ct == ct
        && t == s.(q := t.q, reqs := s.reqs[ct.id := s.reqs[ct.id].(phase := Due(Device(ct, kind)))])
        && forall c, w :: Holds(t.q, c, w) <==> Holds(s.q, c, w) && c != ct
  {
    hide Holds, Cancel, Valid, AtMost;
    LookupSpec(s.q, mid);
    CancelSpec(s.q, mid);
    if Lookup(s.q, mid).Some? {
      var ct, w := FoundIsHeld(s, mid);
    }
  }

  lemma CancelEventOk(s: State, mid: uint32)
    requires Inv(s)
    ensures Inv(Apply(s, CancelEvent(mid)))
  {
    hide Holds, Cancel, Valid, AtMost;
    if Lookup(s.q, mid).Some? {
      var ct, w := FoundIsHeld(s, mid);
      TakeOk(s, ct, w, Dropped(ct));
    }
  }

  lemma TimerStretchOk(s: State, now: UTime)
    requires Inv(s) && (s.timer.Top? || s.timer.Relock?) && AtMost(now, s.latest)
    ensures Inv(TimerStretch(s, now))
  {
    var t := TimerStretch(s, now);
    if s.q.schedule != [] {
      PopSpec(s.q);
    }
    if Stretch(s.q, s.stop, now).1.Complete? {
      var first := s.q.schedule[0];
      TakeOk(s, first.ct, first.when, Due(Timeout(first.ct, first.when, now)));
      HeldIsWaiting(s, first.ct, first.when);
    }
  }

  /** Writing the reply that is due, by a handler or by the timer thread. */
  lemma WriteOk(s: State, r: nat)
    requires Inv(s) && At(s, r) && s.reqs[r].phase.Due?
    ensures var t := Write(s, r, s.reqs[r].phase.outcome);
      RequestsOk(t) && QueueOk(t) && MidsDistinct(t) && MidsCounted(t) && RepliesOk(t) && SleepOk(t)
  {
    hide AtMost;
    var o := s.reqs[r].phase.outcome;
    var t := Write(s, r, o);
    forall c, v
      ensures Holds(t.q, c, v) <==> c.id < |t.reqs| && t.reqs[c.id].phase == Waiting(c, v)
    {
      assert Holds(s.q, c, v) <==> c.id < |s.reqs| && s.reqs[c.id].phase == Waiting(c, v);
    }
    forall r', mid: uint32 | 0 <= r' < |t.reqs| && Uses(t.reqs[r'].phase, mid)
      ensures Uses(s.reqs[r'].phase, mid)
    {
    }
    assert OwnContext(r, s.reqs[r]);
    assert ReplyOf(r, s.reqs[r], o).req == r;
    forall r': nat
      ensures Count(t.replies, r') == if r' < |t.reqs| && t.reqs[r'].phase.Answered? then 1 else 0
    {
      CountOneMore(s.replies, ReplyOf(r, s.reqs[r], o), r');
    }
    forall i | 0 <= i < |t.replies|
      ensures var r := t.replies[i].req;
        && r < |t.reqs| && t.reqs[r].phase.Answered?
        && t.replies[i] == ReplyOf(r, t.reqs[r], t.reqs[r].phase.outcome)
    {
    }
  }

  lemma FinishCompleteOk(s: State)
    requires Inv(s) && s.timer.Completing?
    ensures Inv(Apply(s, FinishComplete))
  {
    hide Valid, Holds, AtMost;
    var r := s.timer.ct.id;
    WriteOk(s, r);
    assert Apply(s, FinishComplete) == Write(s, r, s.reqs[r].phase.outcome).(timer := Relock(s.timer.now));
  }

  lemma TickOk(s: State, now: UTime)
    requires Inv(s)
    ensures Inv(Apply(s, Tick(now)))
  {
    var t := Apply(s, Tick(now));
    assert QueueOk(t) && MidsDistinct(t) && MidsCounted(t) && RepliesOk(t);
  }

  lemma SignalOk(s: State, stop: bool, timer: Timer)
    requires Inv(s) && ((timer == Top && s.timer.Asleep? && stop == s.stop) || timer == Signal(s.timer) || (timer == Exited && !s.timer.Completing?))
    ensures Inv(s.(stop := stop, timer := timer))
  {
    var t := s.(stop := stop, timer := timer);
    assert QueueOk(t) && MidsDistinct(t) && MidsCounted(t) && RepliesOk(t);
  }

  lemma StepOk(s: State, step: Step)
    requires Inv(s) && Enabled(s, step)
    ensures Inv(Apply(s, step))
  {
    hide Inv, SetPhase, Stretch;
    match step
    case Arrive(recvMid, cfd, kind) => ArriveOk(s, recvMid, cfd, kind);
    case Refuse(r) => QuietPhase(s, r, Due(Error));
    case Pack(r) => PackOk(s, r);
    case SendOk(r) => QuietPhase(s, r, Forwarded(s.reqs[r].phase.ct));
    case SendFailed(r) => QuietPhase(s, r, Due(Error));
    case AddEvent(r, when) => AddEventOk(s, r, when);
    case DeviceReply(mid, kind) => DeviceReplyOk(s, mid, kind);
    case WriteReply(r) => WriteReplyOk(s, r);
    case CancelEvent(mid) => CancelEventOk(s, mid);
    case Shutdown => SignalOk(s, true, Signal(s.timer));
    case Tick(now) => TickOk(s, now);
    case Wake => SignalOk(s, s.stop, Top);
    case RunTimer =>
      ClockShown(s);
      if s.timer.Relock? {
        TimerStretchOk(s, s.timer.now);
      } else if s.stop {
        SignalOk(s, s.stop, Exited);
      } else {
        TimerStretchOk(s, s.clock);
      }
    case FinishComplete => FinishCompleteOk(s);
  }

  lemma ClockShown(s: State)
    requires Inv(s)
    ensures AtMost(s.clock, s.latest) && (s.timer.Relock? ==> AtMost(s.timer.now, s.latest))
  {
  }

  lemma WriteReplyOk(s: State, r: nat)
    requires Inv(s) && Enabled(s, WriteReply(r))
    ensures Inv(Apply(s, WriteReply(r)))
  {
    WriteOk(s, r);
  }

  lemma {:induction false} RunOk(s: State, steps: seq<Step>)
    requires Inv(s) && Legal(s, steps)
    ensures Inv(After(s, steps))
    decreases |steps|
  {
    hide Inv, Apply, Possible, Fresh;
    if steps != [] {
      StepOk(s, steps[0]);
      RunOk(Apply(s, steps[0]), steps[1..]);
    }
  }

  // ----- What the invariant says about runs

  /** Every state of every run from the start. */
  lemma AlwaysInv(clock: UTime, steps: seq<Step>)
    requires Legal(Init(clock), steps)
    ensures Inv(After(Init(clock), steps))
  {
    InitOk(clock);
    RunOk(Init(clock), steps);
  }

  /**
   * In every run each request has at most one reply, and it has one exactly when it is answered. The
   * reply goes to the request's own socket under the request's own message id; its type is the
   * request's own unless a device answered with the other kind.
   */
  lemma AtMostOneOwnReply(clock: UTime, steps: seq<Step>, r: nat)
    requires Legal(Init(clock), steps)
    ensures var s := After(Init(clock), steps);
      && (Count(s.replies, r) == if r < |s.reqs| && s.reqs[r].phase.Answered? then 1 else 0)
      && forall i | 0 <= i < |s.replies| && s.replies[i].req == r ::
           && r < |s.reqs| && s.reqs[r].phase.Answered?
           && s.replies[i].cfd == s.reqs[r].cfd && s.replies[i].mid == s.reqs[r].recvMid
           && (s.replies[i].responseType == s.reqs[r].kind.ResponseType() <==>
                 var o := s.reqs[r].phase.outcome; o.Device? ==> o.kind == s.reqs[r].kind)
  {
    AlwaysInv(clock, steps);
    var s := After(Init(clock), steps);
    if r < |s.reqs| {
      assert OwnContext(r, s.reqs[r]);
    }
  }

  function Other(kind: Kind): Kind {
    if kind == StartSend then SendVoice else StartSend
  }

  /** The other type does occur: any request, forwarded, can be answered by the device with the other kind. */
  lemma OtherTypeOccurs(clock: UTime, recvMid: uint32, cfd: int, kind: Kind, when: UTime) returns (steps: seq<Step>)
    ensures Legal(Init(clock), steps)
    ensures After(Init(clock), steps).replies == [Reply(0, cfd, recvMid, if kind == StartSend then 1005 else 1003)]
  {
    hide Apply, Enabled;
    var s1 := State(EMPTY, false, Top, clock, clock, 0, [Request(recvMid, cfd, kind, Arrived)], []);
    var ct := Context(0, recvMid, cfd, 1, kind.ResponseType());
    var s3 := s1.(counter := 1, reqs := [Request(recvMid, cfd, kind, Forwarded(ct))]);
    var s4 := s3.(q := Queue([Entry(0, when, ct)], map[1 := 0], 1), reqs := [Request(recvMid, cfd, kind, Waiting(ct, when))]);
    ForwardAlone(clock, s1, s3, ct);
    AddAlone(s3, s4, ct, when);
    AnswerAlone(s4, ct, when);
    steps := [];
    steps := RunStep(Apply(s4, DeviceReply(1, Other(kind))), WriteReply(0), steps);
    steps := RunStep(s4, DeviceReply(1, Other(kind)), steps);
    steps := RunStep(s3, AddEvent(0, when), steps);
    steps := RunStep(Apply(s1, Pack(0)), SendOk(0), steps);
    steps := RunStep(s1, Pack(0), steps);
    steps := RunStep(Init(clock), Arrive(recvMid, cfd, kind), steps);
  }

  lemma ForwardAlone(clock: UTime, s1: State, s3: State, ct: Context)
    requires |s1.reqs| == 1 && s1.reqs[0].phase == Arrived && s1 == Init(clock).(reqs := s1.reqs)
    requires ct == Context(0, s1.reqs[0].recvMid, s1.reqs[0].cfd, 1, s1.reqs[0].kind.ResponseType())
    requires s3 == s1.(counter := 1, reqs := [s1.reqs[0].(phase := Forwarded(ct))])
    ensures var r := s1.reqs[0];
      Enabled(Init(clock), Arrive(r.recvMid, r.cfd, r.kind)) && Apply(Init(clock), Arrive(r.recvMid, r.cfd, r.kind)) == s1
    ensures Enabled(s1, Pack(0)) && Enabled(Apply(s1, Pack(0)), SendOk(0)) && Apply(Apply(s1, Pack(0)), SendOk(0)) == s3
  {
    var s2 := Apply(s1, Pack(0));
    assert s2.reqs == [s1.reqs[0].(phase := Packed(ct))];
  }

  lemma AddAlone(s3: State, s4: State, ct: Context, when: UTime)
    requires |s3.reqs| == 1 && s3.reqs[0].phase == Forwarded(ct) && s3.q == EMPTY && s3.timer.Top? && ct.pushMid == 1
    requires s4 == s3.(q := Queue([Entry(0, when, ct)], map[1 := 0], 1), reqs := [s3.reqs[0].(phase := Waiting(ct, when))])
    ensures Enabled(s3, AddEvent(0, when)) && Apply(s3, AddEvent(0, when)) == s4
  {
    assert Add(EMPTY, when, 1, ct) == s4.q;
  }

  lemma AnswerAlone(s4: State, ct: Context, when: UTime)
    requires |s4.reqs| == 1 && s4.replies == [] && s4.q == Queue([Entry(0, when, ct)], map[1 := 0], 1)
    requires var r := s4.reqs[0];
      r.phase == Waiting(ct, when) && ct == Context(0, r.recvMid, r.cfd, 1, r.kind.ResponseType())
    ensures var r := s4.reqs[0];
      var s5 := Apply(s4, DeviceReply(1, Other(r.kind)));
      && Enabled(s4, DeviceReply(1, Other(r.kind))) && Enabled(s5, WriteReply(0))
      && Apply(s5, WriteReply(0)).replies == [Reply(0, r.cfd, r.recvMid, Other(r.kind).ResponseType())]
  {
    assert Lookup(s4.q, 1) == Some(ct);
    var s5 := Apply(s4, DeviceReply(1, Other(s4.reqs[0].kind)));
    assert s5.reqs[0].phase == Due(Device(ct, Other(s4.reqs[0].kind)));
  }

  /** A run with one more step in front. */
  lemma RunStep(s: State, step: Step, later: seq<Step>) returns (steps: seq<Step>)
    requires Enabled(s, step) && Legal(Apply(s, step), later)
    ensures steps == [step] + later && Legal(s, steps) && After(s, steps) == After(Apply(s, step), later)
  {
    hide Apply, Enabled;
    steps := [step] + later;
    assert steps[1..] == later;
  }

  /** schedule_ and events_ stay in one-to-one correspondence, and hold exactly what is waited for. */
  lemma AlwaysCorrespond(clock: UTime, steps: seq<Step>)
    requires Legal(Init(clock), steps)
    ensures var s := After(Init(clock), steps);
      && Valid(s.q)
      && forall c, w :: Holds(s.q, c, w) <==> c.id < |s.reqs| && s.reqs[c.id].phase == Waiting(c, w)
  {
    AlwaysInv(clock, steps);
  }

  /**
   * No lost wake-up. If the timer thread sleeps unsignalled, no stop was asked for, it sleeps without
   * bound only when nothing is queued, and otherwise it wakes by itself at or before every deadline.
   */
  lemma NoLostWakeUp(clock: UTime, steps: seq<Step>)
    requires Legal(Init(clock), steps)
    ensures var s := After(Init(clock), steps);
      s.timer.Asleep? && !s.timer.signalled ==>
        && !s.stop
        && (s.timer.until.None? ==> s.q.schedule == [])
        && forall i | 0 <= i < |s.q.schedule| :: s.timer.until.Some? && AtMost(s.timer.until.value, s.q.schedule[i].when)
  {
    AlwaysInv(clock, steps);
    var s := After(Init(clock), steps);
    forall i | 0 <= i < |s.q.schedule|
      ensures Holds(s.q, s.q.schedule[i].ct, s.q.schedule[i].when)
    {
    }
    if s.q.schedule != [] {
      assert Holds(s.q, s.q.schedule[0].ct, s.q.schedule[0].when);
    }
  }

  // ----- What becomes of a request over a run

  /** The phases a request can still reach, itself included. */
  predicate MayBecome(p: Phase, o: Phase) {
    p == o || match p
      case Arrived => true
      case Packed(ct) => o == Due(Error) || o == Answered(Error) || ContextOf(o) == Some(ct)
      case Forwarded(ct) => !o.Packed? && ContextOf(o) == Some(ct)
      case Waiting(ct, when) =>
        o == Dropped(ct) || ((o.Due? || o.Answered?) && match o.outcome
                             case Error => false
                             case Device(c, _) => c == ct
                             case Timeout(c, w, _) => c == ct && w == when)
      case Due(outcome) => o == Answered(outcome)
      case Answered(_) => false
      case Dropped(_) => false
  }

  lemma MayBecomeIsTransitive(a: Phase, b: Phase, c: Phase)
    requires MayBecome(a, b) && MayBecome(b, c)
    ensures MayBecome(a, c)
  {
  }

  /** The request is the same, only further on. */
  ghost predicate Advances(s: State, t: State, r: nat)
    requires At(s, r)
  {
    && At(t, r)
    && t.reqs[r] == s.reqs[r].(phase := t.reqs[r].phase)
    && MayBecome(s.reqs[r].phase, t.reqs[r].phase)
  }

  /** Taking a context out of the queue moves its own request on, and no other. */
  lemma TakeAdvances(s: State, t: State, ct: Context, w: UTime, p: Phase, r: nat)
    requires Inv(s) && At(s, r) && Holds(s.q, ct, w) && MayBecome(Waiting(ct, w), p)
    requires t.reqs == SetPhase(s.reqs, ct.id, p)
    ensures Advances(s, t, r) && (t.reqs[r].phase == s.reqs[r].phase || t.reqs[r].phase == p)
  {
    hide Valid, Holds, MidsDistinct, MidsCounted, RepliesOk, SleepOk;
    HeldIsWaiting(s, ct, w);
  }

  lemma TimerAdvances(s: State, now: UTime, r: nat)
    requires Inv(s) && At(s, r)
    ensures Advances(s, TimerStretch(s, now), r)
    ensures TimerStretch(s, now).reqs[r].phase.Dropped? ==> s.reqs[r].phase.Dropped?
  {
    hide Inv;
    if Stretch(s.q, s.stop, now).1.Complete? {
      var first := s.q.schedule[0];
      assert Holds(s.q, first.ct, first.when);
      TakeAdvances(s, TimerStretch(s, now), first.ct, first.when, Due(Timeout(first.ct, first.when, now)), r);
    }
  }

  lemma StepAdvances(s: State, step: Step, r: nat)
    requires Inv(s) && Enabled(s, step) && At(s, r)
    ensures Advances(s, Apply(s, step), r)
    ensures Apply(s, step).reqs[r].phase.Dropped? ==> s.reqs[r].phase.Dropped? || step.CancelEvent?
  {
    hide Inv, TimerStretch, Cancel, Add, Lookup, ReplyOf, Fresh;
    match step
    case DeviceReply(mid, kind) =>
      if Lookup(s.q, mid).Some? {
        var ct, w := FoundIsHeld(s, mid);
        TakeAdvances(s, Apply(s, step), ct, w, Due(Device(ct, kind)), r);
      }
    case CancelEvent(mid) =>
      if Lookup(s.q, mid).Some? {
        var ct, w := FoundIsHeld(s, mid);
        TakeAdvances(s, Apply(s, step), ct, w, Dropped(ct), r);
      }
    case RunTimer => TimerAdvances(s, if s.timer.Relock? then s.timer.now else s.clock, r);
    case _ =>
  }

  lemma {:induction false} RunAdvances(s: State, steps: seq<Step>, r: nat)
    requires Inv(s) && Legal(s, steps) && At(s, r)
    ensures Advances(s, After(s, steps), r)
    ensures (forall i | 0 <= i < |steps| :: !steps[i].CancelEvent?) && After(s, steps).reqs[r].phase.Dropped?
      ==> s.reqs[r].phase.Dropped?
    decreases |steps|
  {
    hide Inv, Apply, Possible, Fresh, MayBecome;
    if steps == [] {
      MayBecomeToItself(s.reqs[r].phase);
    } else {
      var t := Apply(s, steps[0]);
      StepOk(s, steps[0]);
      StepAdvances(s, steps[0], r);
      RunAdvances(t, steps[1..], r);
      MayBecomeIsTransitive(s.reqs[r].phase, t.reqs[r].phase, After(t, steps[1..]).reqs[r].phase);
    }
  }

  lemma MayBecomeToItself(p: Phase)
    ensures MayBecome(p, p)
  {
  }

  /**
   * Exactly one fate. Take any moment at which a request waits in the queue and any later one. Either
   * it still waits there under the same deadline, or its context left the queue once: it was dropped
   * by CancelEvent and never gets a reply, or one reply is due, or exactly one reply was written -
   * for the device's answer, or for a timeout of that very deadline.
   */
  lemma OneFate(clock: UTime, before: seq<Step>, later: seq<Step>, r: nat)
    requires Legal(Init(clock), before) && Legal(After(Init(clock), before), later)
    requires var s := After(Init(clock), before); At(s, r) && s.reqs[r].phase.Waiting?
    ensures var s := After(Init(clock), before);
      var t := After(s, later);
      var Waiting(ct, when) := s.reqs[r].phase;
      && At(t, r)
      && (Holds(t.q, ct, when) <==> t.reqs[r].phase == Waiting(ct, when))
      && (t.reqs[r].phase == Waiting(ct, when) || t.reqs[r].phase == Dropped(ct)
          || ((t.reqs[r].phase.Due? || t.reqs[r].phase.Answered?) && match t.reqs[r].phase.outcome
              case Error => false
              case Device(c, _) => c == ct
              case Timeout(c, w, now) => c == ct && w == when && AtMost(when, now) && AtMost(now, t.latest)))
      && Count(t.replies, r) == (if t.reqs[r].phase.Answered? then 1 else 0)
      && ((forall i | 0 <= i < |later| :: !later[i].CancelEvent?) ==> t.reqs[r].phase != Dropped(ct))
  {
    hide Inv, Holds, Count;
    var s := After(Init(clock), before);
    var t := After(s, later);
    AlwaysInv(clock, before);
    RunOk(s, later);
    RunAdvances(s, later, r);
    RequestFacts(s, r);
    RequestFacts(t, r);
  }

  /** The invariant read for one request. */
  lemma RequestFacts(s: State, r: nat)
    requires Inv(s) && At(s, r)
    ensures OwnContext(r, s.reqs[r]) && TimeoutOk(s.reqs[r].phase, s.latest)
    ensures Count(s.replies, r) == if s.reqs[r].phase.Answered? then 1 else 0
    ensures forall ct: Context, when | ct.id == r :: Holds(s.q, ct, when) <==> s.reqs[r].phase == Waiting(ct, when)
  {
  }

  /** No context is completed before its deadline: the clock has by then shown a time not before it. */
  lemma NoneBeforeDeadline(clock: UTime, steps: seq<Step>)
    requires Legal(Init(clock), steps)
    ensures var s := After(Init(clock), steps);
      s.timer.Completing? ==>
        var r := s.timer.ct.id;
        && r < |s.reqs| && s.reqs[r].phase.Due? && s.reqs[r].phase.outcome.Timeout?
        && s.reqs[r].phase.outcome.ct == s.timer.ct
        && AtMost(s.reqs[r].phase.outcome.when, s.latest)
  {
    AlwaysInv(clock, steps);
    var s := After(Init(clock), steps);
    if s.timer.Completing? {
      assert TimeoutOk(s.reqs[s.timer.ct.id].phase, s.latest);
    }
  }

  // ----- The guard on packing

  /** It is met by itself until the 32-bit counter wraps. */
  lemma FreshUntilWrap(s: State)
    requires Inv(s) && s.counter + 1 < TWO_32
    ensures Fresh(s, NextMid(s))
  {
  }

  ghost predicate PossibleRun(s: State, steps: seq<Step>)
    decreases |steps|
  {
    steps == [] || (Possible(s, steps[0]) && PossibleRun(Apply(s, steps[0]), steps[1..]))
  }

  function Packs(steps: seq<Step>): nat {
    if steps == [] then 0 else Packs(steps[1..]) + if steps[0].Pack? then 1 else 0
  }

  lemma CounterGrows(s: State, step: Step)
    requires Possible(s, step)
    ensures Apply(s, step).counter == s.counter + if step.Pack? then 1 else 0
  {
  }

  /** So every run the program lets happen is one of those above, if it forwards fewer than 2^32 messages. */
  lemma {:induction false} ShortRunsAreLegal(s: State, steps: seq<Step>)
    requires Inv(s) && PossibleRun(s, steps) && s.counter + Packs(steps) < TWO_32
    ensures Legal(s, steps)
    decreases |steps|
  {
    hide Inv, Apply, Possible, Fresh;
    if steps != [] {
      if steps[0].Pack? {
        FreshUntilWrap(s);
      }
      StepOk(s, steps[0]);
      CounterGrows(s, steps[0]);
      ShortRunsAreLegal(Apply(s, steps[0]), steps[1..]);
    }
  }
}
