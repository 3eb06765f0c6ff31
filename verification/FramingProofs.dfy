// What the frame splitter does to a stream of messages: it hands over exactly the messages that were
// sent, in order, never anything else, and keeps the rest.
module FramingProofs {
  import opened Machine
  import opened Coding
  import opened Tlv
  import opened Framing

  /** The messages one after the other. */
  function Framed(bodies: seq<Bytes>): Bytes
    requires AllFit(bodies)
  {
    if bodies == [] then [] else Frame(bodies[0]) + Framed(bodies[1..])
  }

  predicate Prefix(a: Bytes, s: Bytes) {
    |a| <= |s| && s[..|a|] == a
  }

  /** What is left of one stretch, with what arrives later, is the next stretch. */
  lemma Chain(s: Bytes, f1: Bytes, x: Bytes, later: Bytes, f2: Bytes, y: Bytes)
    requires s == f1 + x && x + later == f2 + y
    ensures s + later == f1 + f2 + y
  {
    assert f1 + x + later == f1 + (x + later);
    assert f1 + (f2 + y) == f1 + f2 + y;
  }

  lemma ChainPrefix(s: Bytes, f1: Bytes, x: Bytes, later: Bytes, f2: Bytes)
    requires s == f1 + x && Prefix(f2, x + later)
    ensures Prefix(f1 + f2, s + later)
  {
    assert f1 + x + later == f1 + (x + later);
    PrefixBehind(f1, f2, x + later);
  }

  lemma FramedCons(body: Bytes, more: seq<Bytes>)
    requires |body| + 12 <= CONN_BUFFER_LEN && AllFit(more)
    ensures AllFit([body] + more) && Framed([body] + more) == Frame(body) + Framed(more)
  {
    assert ([body] + more)[1..] == more;
  }

  lemma FramedHead(bodies: seq<Bytes>, tail: Bytes)
    requires AllFit(bodies) && bodies != []
    ensures AllFit(bodies[1..]) && |bodies[0]| + 12 <= CONN_BUFFER_LEN
    ensures Framed(bodies) + tail == Frame(bodies[0]) + (Framed(bodies[1..]) + tail)
  {
  }

  lemma DoneCons(done: seq<Bytes>, body: Bytes, more: seq<Bytes>)
    ensures done + [body] + more == done + ([body] + more)
  {
  }

  /** A message cut off the front is the frame of its body. */
  lemma FrameAtFront(buffer: Bytes)
    requires |buffer| == CONN_BUFFER_LEN && !HeaderBad(buffer) && DecodeFixed32(buffer, 8) >= 12
    ensures var m := DecodeFixed32(buffer, 8); buffer[..m] == Frame(buffer[12..m])
  {
    hide DecodeFixed32, EncodeFixed32;
    var m := DecodeFixed32(buffer, 8);
    Fixed32Back(buffer, 0);
    Fixed32Back(buffer, 4);
    Fixed32Back(buffer, 8);
    assert buffer[..m] == buffer[0..4] + buffer[4..8] + buffer[8..12] + buffer[12..m];
  }

  /** A frame at the front is recognised for what it is. */
  lemma FrontIsFrame(buffer: Bytes, n: nat, body: Bytes, rest: Bytes)
    requires n <= |buffer| == CONN_BUFFER_LEN && |body| + 12 <= n
    requires buffer[..n] == Frame(body) + rest
    ensures !HeaderBad(buffer) && DecodeFixed32(buffer, 8) == |body| + 12 && buffer[12..|body| + 12] == body
    ensures MovedOut(buffer, n, |body| + 12)[..n - |body| - 12] == rest
  {
    hide DecodeFixed32, Frame;
    var after := rest + buffer[n..];
    assert buffer == Frame(body) + after;
    FrameWords(body, after);
    assert buffer[|body| + 12..n] == rest;
  }

  /** One turn of the loop over a complete message. */
  lemma PassOneFrame(buffer: Bytes, n: nat, full: bool, rets: nat -> int, done: seq<Bytes>, body: Bytes, rest: Bytes)
    requires n <= |buffer| == CONN_BUFFER_LEN && |body| + 12 <= n
    requires buffer[..n] == Frame(body) + rest
    ensures var m := |body| + 12;
      Pass(buffer, n, full, rets, done) ==
        if rets(|done|) != 0 then Result(Close, buffer, n, done + [body])
        else Pass(MovedOut(buffer, n, m), n - m, full, rets, done + [body])
  {
    hide DecodeFixed32, Frame, MovedOut, HeaderBad;
    FrontIsFrame(buffer, n, body, rest);
  }

  // ----- Exactly what a stream of messages leads to

  /** Less than a header, or less than the whole of the message cut. */
  ghost predicate Unfinished(part: Bytes, cut: Bytes) {
    |part| < HEADER_SIZE || (|part| < |cut| + 12 <= CONN_BUFFER_LEN && Prefix(part, Frame(cut)))
  }

  /**
   * The length that the loop reads with p bytes, a header or more, of a message of length next in
   * front: bytes of it that are not received yet are those of last, the last length declared.
   */
  function SeenLength(last: nat, next: nat, p: nat): nat {
    if p <= 8 then last else if p == 9 then last / 256 * 256 + next % 256 else next
  }

  /** How the loop ends on p bytes of an unfinished message. */
  function PartExit(last: nat, next: nat, p: nat, full: bool): Exit {
    var seen := SeenLength(last, next, p);
    if p < HEADER_SIZE then (if full then ReadAgain else Wait)
    else if seen < HEADER_SIZE || seen > CONN_BUFFER_LEN then Close
    else if p < seen then (if full then ReadAgain else Spin)
    else Overrun
  }

  lemma SmallWord(v: uint32)
    requires v < 65536
    ensures EncodeFixed32(v) == [v % 256, v / 256, 0, 0]
  {
  }

  lemma MixedWord(buffer: Bytes, last: nat, next: nat, n: nat)
    requires |buffer| >= 12 && n >= HEADER_SIZE && last < 65536 && next < 65536
    requires forall i | 8 <= i < 12 :: buffer[i] == EncodeFixed32(if i < n then next else last)[i - 8]
    ensures DecodeFixed32(buffer, 8) == SeenLength(last, next, n)
  {
    hide EncodeFixed32;
    SmallWord(last);
    SmallWord(next);
    assert buffer[8] == (if 8 < n then next else last) % 256;
    assert buffer[9] == (if 9 < n then next else last) / 256;
    assert buffer[10] == 0 && buffer[11] == 0;
  }

  /** The words at the front of a buffer that holds n bytes of a message. */
  lemma PartWords(buffer: Bytes, n: nat, done: seq<Bytes>, cut: Bytes)
    requires HEADER_SIZE <= n <= |buffer| == CONN_BUFFER_LEN && Unfinished(buffer[..n], cut)
    requires n < 12 ==> Sound(buffer, n, done)
    ensures DecodeFixed32(buffer, 0) == TYPE_LENGTH && DecodeFixed32(buffer, 4) == 4
    ensures DecodeFixed32(buffer, 8) == SeenLength(LastLength(done), |cut| + 12, n)
  {
    hide EncodeFixed32, DecodeFixed32;
    var f := Frame(cut);
    FrameWords(cut, []);
    assert f + [] == f;
    assert forall i | 0 <= i < n :: buffer[i] == buffer[..n][i] == f[i];
    SameBytes(buffer, f, 0);
    SameBytes(buffer, f, 4);
    if n < 12 {
      assert forall i | 8 <= i < 12 :: f[i] == EncodeFixed32(|cut| + 12)[i - 8];
      MixedWord(buffer, LastLength(done), |cut| + 12, n);
    } else {
      SameBytes(buffer, f, 8);
    }
  }

  lemma SameBytes(a: Bytes, b: Bytes, k: nat)
    requires k + 4 <= |a| && k + 4 <= |b| && forall i | k <= i < k + 4 :: a[i] == b[i]
    ensures DecodeFixed32(a, k) == DecodeFixed32(b, k)
  {
  }

  lemma PartStops(buffer: Bytes, n: nat, full: bool, rets: nat -> int, done: seq<Bytes>, cut: Bytes)
    requires n <= |buffer| == CONN_BUFFER_LEN && Unfinished(buffer[..n], cut)
    requires 8 <= n < 12 ==> Sound(buffer, n, done)
    ensures Pass(buffer, n, full, rets, done) == Result(PartExit(LastLength(done), |cut| + 12, n, full), buffer, n, done)
  {
    hide Frame, DecodeFixed32, Pass, Sound;
    if n >= HEADER_SIZE {
      PartWords(buffer, n, done, cut);
    }
    PassStops(buffer, n, full, rets, done);
  }

  /**
   * k messages and an unfinished part of any length: k messages are handled, in order, the part is
   * kept, and how the loop ends is settled by three lengths.
   */
  lemma {:induction false} PassUpTo(
      buffer: Bytes, n: nat, full: bool, rets: nat -> int, done: seq<Bytes>, bodies: seq<Bytes>, part: Bytes, cut: Bytes)
    requires n <= |buffer| == CONN_BUFFER_LEN && AllFit(bodies) && Unfinished(part, cut)
    requires 8 <= |part| < 12 ==> Sound(buffer, n, done)
    requires buffer[..n] == Framed(bodies) + part
    requires forall i | |done| <= i < |done| + |bodies| :: rets(i) == 0
    ensures var r := Pass(buffer, n, full, rets, done);
      && r.exit == PartExit(LastLength(done + bodies), |cut| + 12, |part|, full)
      && r.handled == done + bodies && r.Received() == part
    decreases |bodies|
  {
    hide MovedOut, Frame, Pass, Unfinished, AllFit, Framed, Sound, PartExit, DecodeFixed32;
    if bodies == [] {
      NoMessages(bodies, part);
      PartStops(buffer, n, full, rets, done, cut);
      assert done + bodies == done;
    } else {
      FramedHead(bodies, part);
      var body, rest := bodies[0], Framed(bodies[1..]) + part;
      PassOneFrame(buffer, n, full, rets, done, body, rest);
      FrontIsFrame(buffer, n, body, rest);
      if 8 <= |part| < 12 {
        SoundShape(buffer, n, done);
        MovedOutIsSound(buffer, n, done);
      }
      PassUpTo(MovedOut(buffer, n, |body| + 12), n - |body| - 12, full, rets, done + [body], bodies[1..], part, cut);
      DoneCons(done, body, bodies[1..]);
      assert [body] + bodies[1..] == bodies;
    }
  }

  /** k messages and less than a header: k messages are handled, in order, and the tail is kept. */
  lemma PassExact(
      buffer: Bytes, n: nat, full: bool, rets: nat -> int, done: seq<Bytes>, bodies: seq<Bytes>, tail: Bytes)
    requires n <= |buffer| == CONN_BUFFER_LEN && AllFit(bodies) && |tail| < HEADER_SIZE
    requires buffer[..n] == Framed(bodies) + tail
    requires forall i | |done| <= i < |done| + |bodies| :: rets(i) == 0
    ensures var r := Pass(buffer, n, full, rets, done);
      && r.exit == (if full then ReadAgain else Wait)
      && r.handled == done + bodies && r.Received() == tail
  {
    hide Pass, Framed, AllFit;
    PassUpTo(buffer, n, full, rets, done, bodies, tail, []);
  }

  lemma NoMessages(bodies: seq<Bytes>, tail: Bytes)
    requires bodies == []
    ensures AllFit(bodies) && Framed(bodies) + tail == tail && Framed(bodies) == []
  {
  }

  /** The first message the dispatcher rejects is the last one handled. */
  lemma {:induction false} PassRejects(
      buffer: Bytes, n: nat, full: bool, rets: nat -> int, done: seq<Bytes>, bodies: seq<Bytes>, tail: Bytes, j: nat)
    requires n <= |buffer| == CONN_BUFFER_LEN && AllFit(bodies) && j < |bodies|
    requires buffer[..n] == Framed(bodies) + tail
    requires (forall i | |done| <= i < |done| + j :: rets(i) == 0) && rets(|done| + j) != 0
    ensures var r := Pass(buffer, n, full, rets, done);
      r.exit == Close && r.handled == done + bodies[..j + 1]
    decreases |bodies|
  {
    hide MovedOut, Frame, Pass, AllFit, Framed;
    FramedHead(bodies, tail);
    var body, rest := bodies[0], Framed(bodies[1..]) + tail;
    PassOneFrame(buffer, n, full, rets, done, body, rest);
    if j == 0 {
      assert bodies[..1] == [body];
    } else {
      FrontIsFrame(buffer, n, body, rest);
      PassRejects(MovedOut(buffer, n, |body| + 12), n - |body| - 12, full, rets, done + [body], bodies[1..], tail, j - 1);
      DoneCons(done, body, bodies[1..][..j]);
      assert [body] + bodies[1..][..j] == bodies[..j + 1];
    }
  }

  /**
   * A stream that ends inside a message, its length field received and the buffer not full, is never
   * waited out: the messages before are handled and then the loop spins.
   */
  lemma PassSpins(
      buffer: Bytes, n: nat, rets: nat -> int, done: seq<Bytes>, bodies: seq<Bytes>, tail: Bytes, cut: Bytes)
    requires n <= |buffer| == CONN_BUFFER_LEN && AllFit(bodies) && |cut| + 12 <= CONN_BUFFER_LEN
    requires 12 <= |tail| < |cut| + 12 && Prefix(tail, Frame(cut))
    requires buffer[..n] == Framed(bodies) + tail
    requires forall i | |done| <= i < |done| + |bodies| :: rets(i) == 0
    ensures var r := Pass(buffer, n, false, rets, done);
      r.exit == Spin && r.handled == done + bodies && r.Received() == tail
  {
    hide Pass, Framed, AllFit;
    PassUpTo(buffer, n, false, rets, done, bodies, tail, cut);
  }

  /** A pass over a full buffer gets on: it handles a message, closes, or meets a length below 12. */
  lemma FullPassProgresses(buffer: Bytes, rets: nat -> int, done: seq<Bytes>)
    requires |buffer| == CONN_BUFFER_LEN
    ensures var r := Pass(buffer, CONN_BUFFER_LEN, true, rets, done);
      r.exit == Close || r.exit == Overrun || |r.handled| > |done|
  {
    hide DecodeFixed32, MovedOut;
    var m := DecodeFixed32(buffer, 8);
    if !HeaderBad(buffer) && m >= 12 && rets(|done|) == 0 {
      var _ := PassConserves(MovedOut(buffer, CONN_BUFFER_LEN, m), CONN_BUFFER_LEN - m, true, rets, done + [buffer[12..m]]);
    }
  }

  // ----- What holds of any bytes

  /** Whatever arrived, what a pass hands over is messages cut off the front, and it keeps what is behind them. */
  lemma {:induction false} PassConserves(buffer: Bytes, n: nat, full: bool, rets: nat -> int, done: seq<Bytes>)
    returns (cutOff: seq<Bytes>)
    requires n <= |buffer| == CONN_BUFFER_LEN
    ensures var r := Pass(buffer, n, full, rets, done);
      && r.handled == done + cutOff && AllFit(cutOff)
      && Prefix(Framed(cutOff), buffer[..n])
      && (r.exit in {ReadAgain, Wait, Spin} ==> buffer[..n] == Framed(cutOff) + r.Received())
      && (r.exit != Close ==> forall i | |done| <= i < |r.handled| :: rets(i) == 0)
      && (r.exit == Wait ==> r.len < HEADER_SIZE)
    decreases n
  {
    hide DecodeFixed32, EncodeFixed32, MovedOut, Frame, HeaderBad, Pass, AllFit, Framed;
    cutOff := [];
    if Stops(buffer, n) {
      PassStops(buffer, n, full, rets, done);
      NoMessages(cutOff, buffer[..n]);
      assert done + [] == done;
    } else {
      var m := DecodeFixed32(buffer, 8);
      var body, rest := buffer[12..m], buffer[m..n];
      FrameAtFront(buffer);
      assert buffer[..n] == buffer[..m] + rest;
      PassOneFrame(buffer, n, full, rets, done, body, rest);
      var more := [];
      if rets(|done|) == 0 {
        more := PassConserves(MovedOut(buffer, n, m), n - m, full, rets, done + [body]);
        FrontIsFrame(buffer, n, body, rest);
      } else {
        NoMessages(more, rest);
      }
      cutOff := [body] + more;
      FramedCons(body, more);
      DoneCons(done, body, more);
      ChainPrefix(buffer[..n], Frame(body), rest, [], Framed(more));
      var r := Pass(buffer, n, full, rets, done);
      if r.exit in {ReadAgain, Wait, Spin} {
        Chain(buffer[..n], Frame(body), rest, [], Framed(more), r.Received());
      }
    }
  }

  /** The bytes are messages the dispatcher accepts and less than a header. */
  ghost predicate Accepted(s: Bytes, rets: nat -> int, from: nat, bodies: seq<Bytes>, tail: Bytes) {
    && AllFit(bodies) && |tail| < HEADER_SIZE && s == Framed(bodies) + tail
    && forall i | from <= i < from + |bodies| :: rets(i) == 0
  }

  /** With room left in the buffer the loop waits for more exactly on accepted messages and less than a header. */
  lemma PassWaitsExactly(buffer: Bytes, n: nat, rets: nat -> int, done: seq<Bytes>)
    requires n <= |buffer| == CONN_BUFFER_LEN
    ensures Pass(buffer, n, false, rets, done).exit == Wait
       <==> exists bodies, tail :: Accepted(buffer[..n], rets, |done|, bodies, tail)
  {
    hide Pass, Framed, AllFit;
    var r := Pass(buffer, n, false, rets, done);
    if r.exit == Wait {
      var cutOff := PassConserves(buffer, n, false, rets, done);
      assert Accepted(buffer[..n], rets, |done|, cutOff, r.Received());
    }
    if bodies, tail :| Accepted(buffer[..n], rets, |done|, bodies, tail) {
      PassExact(buffer, n, false, rets, done, bodies, tail);
    }
  }

  lemma PrefixBehind(a: Bytes, b: Bytes, s: Bytes)
    requires Prefix(b, s)
    ensures Prefix(a + b, a + s)
  {
  }

  /** Framing is uniquely decodable: two lists of messages in front of one stream agree as far as both go. */
  lemma {:induction false} FramedUnique(a: seq<Bytes>, b: seq<Bytes>, s: Bytes)
    requires AllFit(a) && AllFit(b) && |a| <= |b|
    requires Prefix(Framed(a), s) && Prefix(Framed(b), s)
    ensures a == b[..|a|]
    decreases |a|
  {
    hide Frame, DecodeFixed32;
    if a != [] {
      var fa, fb := Frame(a[0]), Frame(b[0]);
      SplitFront(fa, Framed(a[1..]), s);
      SplitFront(fb, Framed(b[1..]), s);
      FrameWords(a[0], s[|fa|..]);
      FrameWords(b[0], s[|fb|..]);
      assert s == fa + s[|fa|..] == fb + s[|fb|..];
      assert a[0] == s[12..|fa|] == b[0];
      FramedUnique(a[1..], b[1..], s[|fa|..]);
      assert b[..|a|] == [b[0]] + b[1..][..|a| - 1];
    }
  }

  lemma SplitFront(f: Bytes, g: Bytes, s: Bytes)
    requires Prefix(f + g, s)
    ensures Prefix(f, s) && Prefix(g, s[|f|..])
  {
    assert s[..|f + g|][..|f|] == s[..|f|];
    assert s[|f|..][..|g|] == s[..|f + g|][|f|..];
  }

  // ----- Callbacks

  /** A callback hands over messages cut off the front of what was kept and what arrived. */
  lemma {:induction false} CallbackConserves(buffer: Bytes, n: nat, avail: Bytes, rets: nat -> int, done: seq<Bytes>)
    returns (cutOff: seq<Bytes>)
    requires n <= |buffer| == CONN_BUFFER_LEN
    ensures var (r, rest) := Callback(buffer, n, avail, rets, done);
      && r.handled == done + cutOff && AllFit(cutOff)
      && Prefix(Framed(cutOff), buffer[..n] + avail)
      && (r.exit in {Wait, Spin} ==> rest == [] && buffer[..n] + avail == Framed(cutOff) + r.Received())
      && (r.exit != Close ==> forall i | |done| <= i < |r.handled| :: rets(i) == 0)
      && (r.exit == Wait ==> r.len < HEADER_SIZE)
    decreases n + |avail|
  {
    hide Pass, Framed, AllFit, Prefix;
    var k := Taken(n, avail);
    var full := n + k == CONN_BUFFER_LEN;
    var b, later := Filled(buffer, n, avail), avail[k..];
    var p := Pass(b, n + k, full, rets, done);
    OnlyFullReadsAgain(b, n + k, full, rets, done);
    cutOff := PassConserves(b, n + k, full, rets, done);
    assert buffer[..n] + avail == b[..n + k] + later;
    PrefixExtends(Framed(cutOff), b[..n + k], later);
    if p.exit == ReadAgain {
      var more := CallbackConserves(p.buffer, p.len, later, rets, p.handled);
      var (r, _) := Callback(p.buffer, p.len, later, rets, p.handled);
      FramedAppend(cutOff, more);
      ChainPrefix(b[..n + k], Framed(cutOff), p.Received(), later, Framed(more));
      if r.exit in {Wait, Spin} {
        Chain(b[..n + k], Framed(cutOff), p.Received(), later, Framed(more), r.Received());
      }
      assert done + cutOff + more == done + (cutOff + more);
      cutOff := cutOff + more;
    } else if p.exit in {Wait, Spin} {
      assert later == [];
    }
  }

  lemma PrefixExtends(a: Bytes, s: Bytes, t: Bytes)
    requires Prefix(a, s)
    ensures Prefix(a, s + t)
  {
    assert (s + t)[..|a|] == s[..|a|];
  }

  lemma {:induction false} FramedAppend(a: seq<Bytes>, b: seq<Bytes>)
    requires AllFit(a) && AllFit(b)
    ensures AllFit(a + b) && Framed(a + b) == Framed(a) + Framed(b)
    decreases |a|
  {
    hide Frame;
    if a == [] {
      assert a + b == b;
    } else {
      assert (a + b)[1..] == a[1..] + b && (a + b)[0] == a[0];
      FramedAppend(a[1..], b);
    }
  }

  /** How many messages fit the room. */
  function Fits(bodies: seq<Bytes>, room: nat): (k: nat)
    requires AllFit(bodies)
    ensures k <= |bodies| && |Framed(bodies[..k])| <= room
    ensures k < |bodies| ==> room - |Framed(bodies[..k])| < |bodies[k]| + 12
    ensures bodies != [] && room == CONN_BUFFER_LEN ==> k > 0
    decreases |bodies|
  {
    if bodies == [] || |bodies[0]| + 12 > room then 0
    else
      var k := Fits(bodies[1..], room - |bodies[0]| - 12);
      assert bodies[..k + 1] == [bodies[0]] + bodies[1..][..k];
      k + 1
  }

  /** The length behind message k. */
  function NextLength(bodies: seq<Bytes>, k: nat, next: nat): nat {
    if k < |bodies| then |bodies[k]| + 12 else next
  }

  /**
   * No full buffer ends nine bytes into a message in such a way that the mixed length is below ten.
   * The stream is the messages and then p bytes of one of length next.
   */
  ghost predicate Smooth(bodies: seq<Bytes>, p: nat, next: nat)
    requires AllFit(bodies) && p < CONN_BUFFER_LEN
    decreases |bodies|
  {
    |Framed(bodies)| + p < CONN_BUFFER_LEN
    || var k := Fits(bodies, CONN_BUFFER_LEN);
       && (CONN_BUFFER_LEN - |Framed(bodies[..k])| == 9 ==>
             |bodies[k - 1]| + 12 >= 256 || NextLength(bodies, k, next) % 256 >= 10)
       && Smooth(bodies[k..], p, next)
  }

  /** It does happen: messages of 10031, 200 and 256 bytes, the last of which begins 9 bytes before the buffer's end. */
  lemma NotAlwaysSmooth() returns (bodies: seq<Bytes>)
    ensures AllFit(bodies) && |bodies| == 3 && !Smooth(bodies, 0, 12)
  {
    hide Frame;
    var a, b, c := seq(10019, _ => 0), seq(188, _ => 0), seq(244, _ => 0);
    bodies := [a, b, c];
    assert bodies[1..] == [b, c] && [b, c][1..] == [c] && bodies[..2] == [a, b] && [a, b][1..] == [b];
    var none: seq<Bytes> := [b][1..];
    assert |none| == 0 && Framed(none) == [];
    assert Fits([c], 9) == 0;
    assert Fits([b, c], 209) == 1;
    assert Fits(bodies, CONN_BUFFER_LEN) == 2;
    assert |Framed([b])| == 200 && |Framed(bodies[..2])| == 10231;
    assert |Framed([c])| >= 256 && |Framed([b, c])| >= 456 && |Framed(bodies)| >= CONN_BUFFER_LEN;
  }

  /** A part at the end of a full buffer, which holds a whole message too, is kept but for that one case. */
  lemma FullPartExit(last: nat, next: nat, p: nat)
    requires 12 <= last && last + p <= CONN_BUFFER_LEN && (p < HEADER_SIZE || p < next <= CONN_BUFFER_LEN)
    ensures PartExit(last, next, p, true) == ReadAgain <==> (p == 9 ==> last >= 256 || next % 256 >= 10)
    ensures PartExit(last, next, p, true) in {ReadAgain, Close, Overrun}
  {
  }

  /** The stream at the end of a full buffer: whole messages in front, a part of the next, the others. */
  lemma FullCut(s: Bytes, bodies: seq<Bytes>, part: Bytes, cut: Bytes)
    requires AllFit(bodies) && Unfinished(part, cut)
    requires s == Framed(bodies) + part && |s| >= CONN_BUFFER_LEN
    ensures var k := Fits(bodies, CONN_BUFFER_LEN);
      && 0 < k && AllFit(bodies[..k]) && AllFit(bodies[k..])
      && (k < |bodies| ==> NextLength(bodies, k, |cut| + 12) <= CONN_BUFFER_LEN)
    ensures var k := Fits(bodies, CONN_BUFFER_LEN);
      var f := Framed(bodies[..k]);
      && |bodies[k - 1]| + 12 <= |f| <= CONN_BUFFER_LEN
      && s[..CONN_BUFFER_LEN] == f + s[|f|..CONN_BUFFER_LEN]
      && s[|f|..] == Framed(bodies[k..]) + part
      && Unfinished(s[|f|..CONN_BUFFER_LEN], if k < |bodies| then bodies[k] else cut)
  {
    hide Frame, Framed, AllFit;
    var k := Fits(bodies, CONN_BUFFER_LEN);
    var front, back := bodies[..k], bodies[k..];
    Parts(bodies, k);
    var f := Framed(front);
    FramedAppend(front, back);
    assert s == f + (Framed(back) + part);
    if k == 0 {
      NoMessages([], part);
    }
    LastFits(bodies, k);
    if k < |bodies| {
      FramedHead(back, part);
      CutFront(s, f, Frame(bodies[k]), Framed(back[1..]) + part);
    } else {
      NoMessages(back, part);
      assert s[|f|..CONN_BUFFER_LEN] == part[..CONN_BUFFER_LEN - |f|];
    }
  }

  lemma Parts(bodies: seq<Bytes>, k: nat)
    requires AllFit(bodies) && k <= |bodies|
    ensures AllFit(bodies[..k]) && AllFit(bodies[k..]) && bodies == bodies[..k] + bodies[k..]
    ensures k < |bodies| ==> bodies[k..][0] == bodies[k] && |bodies[k]| + 12 <= CONN_BUFFER_LEN
  {
  }

  /** A full buffer that ends inside h holds a prefix of it. */
  lemma CutFront(s: Bytes, f: Bytes, h: Bytes, more: Bytes)
    requires s == f + (h + more) && |f| <= CONN_BUFFER_LEN < |f| + |h|
    ensures Prefix(s[|f|..CONN_BUFFER_LEN], h)
  {
  }

  lemma LastFits(bodies: seq<Bytes>, k: nat)
    requires AllFit(bodies) && 0 < k <= |bodies|
    ensures |bodies[k - 1]| + 12 <= |Framed(bodies[..k])|
  {
    hide Frame;
    var last := [bodies[k - 1]];
    assert bodies[..k] == bodies[..k - 1] + last;
    FramedAppend(bodies[..k - 1], last);
    assert Framed(last) == Frame(bodies[k - 1]) + Framed(last[1..]);
  }

  lemma LastLengthOf(done: seq<Bytes>, front: seq<Bytes>)
    requires front != []
    ensures LastLength(done + front) == |front[|front| - 1]| + 12
  {
  }

  /**
   * Whole messages and an unfinished part, however often the buffer has to be refilled. In one case a
   * refill goes wrong and the connection is lost. In all others one callback handles every message,
   * keeps the part, and ends as its length says.
   */
  lemma {:induction false} CallbackExact(
      buffer: Bytes, n: nat, avail: Bytes, rets: nat -> int, done: seq<Bytes>, bodies: seq<Bytes>, part: Bytes, cut: Bytes)
    requires Sound(buffer, n, done) && AllFit(bodies) && Unfinished(part, cut)
    requires buffer[..n] + avail == Framed(bodies) + part
    requires forall i | |done| <= i < |done| + |bodies| :: rets(i) == 0
    ensures var (r, rest) := Callback(buffer, n, avail, rets, done);
      if Smooth(bodies, |part|, |cut| + 12) then
        && r.exit == PartExit(LastLength(done + bodies), |cut| + 12, |part|, false)
        && r.handled == done + bodies && r.Received() == part && rest == []
      else r.exit in {Close, Overrun}
    decreases |bodies|
  {
    hide Pass, Framed, AllFit, Filled, Unfinished, Fits, Sound, PartExit;
    SoundShape(buffer, n, done);
    var taken := Taken(n, avail);
    var b, later := Filled(buffer, n, avail), avail[taken..];
    var s := buffer[..n] + avail;
    assert s == b[..n + taken] + later;
    FilledIsSound(buffer, n, avail, done);
    if n + |avail| < CONN_BUFFER_LEN {
      assert avail[..taken] == avail;
      PassUpTo(b, n + taken, false, rets, done, bodies, part, cut);
      NotFullExit(LastLength(done + bodies), |cut| + 12, |part|);
    } else {
      var k := Fits(bodies, CONN_BUFFER_LEN);
      assert s[..CONN_BUFFER_LEN] == b[..n + taken] == b;
      FullPass(b, s, rets, done, bodies, part, cut);
      var r := Pass(b, CONN_BUFFER_LEN, true, rets, done);
      if r.exit == ReadAgain {
        var f := Framed(bodies[..k]);
        assert s[|f|..CONN_BUFFER_LEN] + later == s[|f|..];
        CallbackExact(r.buffer, r.len, later, rets, r.handled, bodies[k..], part, cut);
        assert done + bodies[..k] + bodies[k..] == done + bodies;
      }
    }
  }

  /** The pass over a full buffer b at the front of the stream s. */
  lemma FullPass(b: Bytes, s: Bytes, rets: nat -> int, done: seq<Bytes>, bodies: seq<Bytes>, part: Bytes, cut: Bytes)
    requires Sound(b, CONN_BUFFER_LEN, done) && AllFit(bodies) && Unfinished(part, cut)
    requires s == Framed(bodies) + part && |s| >= CONN_BUFFER_LEN && b == s[..CONN_BUFFER_LEN]
    requires forall i | |done| <= i < |done| + |bodies| :: rets(i) == 0
    ensures var k := Fits(bodies, CONN_BUFFER_LEN);
      0 < k && AllFit(bodies[..k]) && AllFit(bodies[k..])
    ensures var k := Fits(bodies, CONN_BUFFER_LEN);
      var f := Framed(bodies[..k]);
      var r := Pass(b, CONN_BUFFER_LEN, true, rets, done);
      && r.handled == done + bodies[..k] && r.Received() == s[|f|..CONN_BUFFER_LEN] && s[|f|..] == Framed(bodies[k..]) + part
      && Sound(r.buffer, r.len, r.handled) && r.exit in {ReadAgain, Close, Overrun}
      && (r.exit == ReadAgain <==>
            (CONN_BUFFER_LEN - |f| == 9 ==> |bodies[k - 1]| + 12 >= 256 || NextLength(bodies, k, |cut| + 12) % 256 >= 10))
  {
    hide Pass, Framed, AllFit, Unfinished, Fits, Sound, PartExit;
    FullCut(s, bodies, part, cut);
    var k := Fits(bodies, CONN_BUFFER_LEN);
    var front, f := bodies[..k], Framed(bodies[..k]);
    var inside, next := s[|f|..CONN_BUFFER_LEN], if k < |bodies| then bodies[k] else cut;
    assert b[..CONN_BUFFER_LEN] == b;
    PassUpTo(b, CONN_BUFFER_LEN, true, rets, done, front, inside, next);
    PassKeepsSound(b, CONN_BUFFER_LEN, true, rets, done);
    LastLengthOf(done, front);
    UnfinishedBound(inside, next);
    FullPartExit(|bodies[k - 1]| + 12, |next| + 12, |inside|);
  }

  lemma UnfinishedBound(part: Bytes, cut: Bytes)
    requires Unfinished(part, cut)
    ensures |part| < CONN_BUFFER_LEN && (|part| < HEADER_SIZE || |part| < |cut| + 12 <= CONN_BUFFER_LEN)
  {
  }

  lemma NotFullExit(last: nat, next: nat, p: nat)
    ensures PartExit(last, next, p, false) != ReadAgain
    ensures PartExit(last, next, p, false) == Wait <==> p < HEADER_SIZE
  {
  }

  /** Accepted messages that no refill tears at the wrong place. */
  ghost predicate TakenWhole(s: Bytes, rets: nat -> int, from: nat, bodies: seq<Bytes>, tail: Bytes) {
    Accepted(s, rets, from, bodies, tail) && Smooth(bodies, |tail|, 12)
  }

  /** A callback that is given such bytes handles them all and waits with the tail in front. */
  lemma CallbackTakes(
      buffer: Bytes, n: nat, avail: Bytes, rets: nat -> int, done: seq<Bytes>, bodies: seq<Bytes>, tail: Bytes)
    requires Sound(buffer, n, done) && TakenWhole(buffer[..n] + avail, rets, |done|, bodies, tail)
    ensures var (r, rest) := Callback(buffer, n, avail, rets, done);
      r.exit == Wait && r.handled == done + bodies && r.Received() == tail && rest == []
  {
    hide Callback, Framed, Smooth, Sound;
    CallbackExact(buffer, n, avail, rets, done, bodies, tail, []);
  }

  /** A callback waits for more exactly on such bytes. */
  lemma CallbackWaitsExactly(buffer: Bytes, n: nat, avail: Bytes, rets: nat -> int, done: seq<Bytes>)
    requires Sound(buffer, n, done)
    ensures Callback(buffer, n, avail, rets, done).0.exit == Wait
       <==> exists bodies, tail :: TakenWhole(buffer[..n] + avail, rets, |done|, bodies, tail)
  {
    hide Callback, Framed, AllFit, Smooth, Sound;
    SoundShape(buffer, n, done);
    var (r, _) := Callback(buffer, n, avail, rets, done);
    if r.exit == Wait {
      var cutOff := CallbackConserves(buffer, n, avail, rets, done);
      CallbackExact(buffer, n, avail, rets, done, cutOff, r.Received(), []);
      assert TakenWhole(buffer[..n] + avail, rets, |done|, cutOff, r.Received());
    }
    if bodies, tail :| TakenWhole(buffer[..n] + avail, rets, |done|, bodies, tail) {
      CallbackTakes(buffer, n, avail, rets, done, bodies, tail);
    }
  }

  // ----- Whole connections

  /** The callbacks of a connection, one for each input, for as long as they return. */
  function Callbacks(buffer: Bytes, n: nat, inputs: seq<Bytes>, rets: nat -> int, done: seq<Bytes>): (r: Result)
    requires n <= |buffer| == CONN_BUFFER_LEN
    ensures |r.buffer| == CONN_BUFFER_LEN && r.len <= CONN_BUFFER_LEN
    decreases |inputs|
  {
    if inputs == [] then Result(Wait, buffer, n, done)
    else
      var (r, _) := Callback(buffer, n, inputs[0], rets, done);
      if r.exit == Wait then Callbacks(r.buffer, r.len, inputs[1..], rets, r.handled) else r
  }

  function Concat(inputs: seq<Bytes>): Bytes {
    if inputs == [] then [] else inputs[0] + Concat(inputs[1..])
  }

  lemma {:induction false} CallbacksConserve(buffer: Bytes, n: nat, inputs: seq<Bytes>, rets: nat -> int, done: seq<Bytes>)
    returns (cutOff: seq<Bytes>)
    requires n <= |buffer| == CONN_BUFFER_LEN
    ensures Callbacks(buffer, n, inputs, rets, done).handled == done + cutOff && AllFit(cutOff)
    ensures Prefix(Framed(cutOff), buffer[..n] + Concat(inputs))
    ensures var r := Callbacks(buffer, n, inputs, rets, done);
      r.exit == Wait ==> buffer[..n] + Concat(inputs) == Framed(cutOff) + r.Received()
    decreases |inputs|
  {
    hide Callback, Framed, AllFit, Prefix;
    if inputs == [] {
      cutOff := [];
      NoMessages(cutOff, buffer[..n]);
      assert done + cutOff == done && buffer[..n] + Concat(inputs) == buffer[..n];
      NothingIsPrefix(buffer[..n]);
    } else {
      cutOff := CallbackConserves(buffer, n, inputs[0], rets, done);
      var (r, _) := Callback(buffer, n, inputs[0], rets, done);
      var first, later := buffer[..n] + inputs[0], Concat(inputs[1..]);
      assert buffer[..n] + Concat(inputs) == first + later;
      PrefixExtends(Framed(cutOff), first, later);
      if r.exit == Wait {
        var more := CallbacksConserve(r.buffer, r.len, inputs[1..], rets, r.handled);
        var last := Callbacks(r.buffer, r.len, inputs[1..], rets, r.handled);
        FramedAppend(cutOff, more);
        ChainPrefix(first, Framed(cutOff), r.Received(), later, Framed(more));
        if last.exit == Wait {
          Chain(first, Framed(cutOff), r.Received(), later, Framed(more), last.Received());
        }
        assert done + cutOff + more == done + (cutOff + more);
        cutOff := cutOff + more;
      }
    }
  }

  lemma NothingIsPrefix(s: Bytes)
    ensures Prefix([], s)
  {
  }

  lemma PrefixOfPrefix(a: Bytes, s: Bytes, t: Bytes)
    requires Prefix(a, s) && Prefix(s, t)
    ensures Prefix(a, t)
  {
    assert t[..|s|][..|a|] == t[..|a|];
  }

  /**
   * For any messages sent and any way the network cuts and groups their bytes, the messages handled
   * are the first ones sent, unaltered and in order - even where the splitter spins or closes early.
   */
  lemma OnlyMessagesSent(buffer: Bytes, inputs: seq<Bytes>, rets: nat -> int, sent: seq<Bytes>)
    requires |buffer| == CONN_BUFFER_LEN && AllFit(sent)
    requires Prefix(Concat(inputs), Framed(sent))
    ensures var r := Callbacks(buffer, 0, inputs, rets, []);
      |r.handled| <= |sent| && r.handled == sent[..|r.handled|]
  {
    hide Callbacks, Framed, AllFit, Prefix;
    var cutOff := CallbacksConserve(buffer, 0, inputs, rets, []);
    assert [] + cutOff == cutOff && buffer[..0] + Concat(inputs) == Concat(inputs);
    PrefixOfPrefix(Framed(cutOff), Concat(inputs), Framed(sent));
    PrefixSelf(Framed(sent));
    PrefixIsShorter(Framed(cutOff), Framed(sent));
    if |cutOff| <= |sent| {
      FramedUnique(cutOff, sent, Framed(sent));
    } else {
      FramedUnique(sent, cutOff, Framed(sent));
      LongerIsLonger(sent, cutOff);
    }
  }

  lemma PrefixSelf(s: Bytes)
    ensures Prefix(s, s)
  {
    assert s[..|s|] == s;
  }

  lemma PrefixIsShorter(a: Bytes, s: Bytes)
    requires Prefix(a, s)
    ensures |a| <= |s|
  {
  }

  lemma LongerIsLonger(a: seq<Bytes>, b: seq<Bytes>)
    requires AllFit(a) && AllFit(b) && |a| < |b| && a == b[..|a|]
    ensures |Framed(a)| < |Framed(b)|
  {
    hide Frame;
    assert b == a + b[|a|..];
    FramedAppend(a, b[|a|..]);
  }

  /** The tails between inputs, each input completing the messages of its group. */
  ghost predicate WellCut(
      kept: Bytes, inputs: seq<Bytes>, rets: nat -> int, from: nat, groups: seq<seq<Bytes>>, tails: seq<Bytes>)
    decreases |inputs|
  {
    && |inputs| == |groups| == |tails|
    && (inputs != [] ==>
          && TakenWhole(kept + inputs[0], rets, from, groups[0], tails[0])
          && WellCut(tails[0], inputs[1..], rets, from + |groups[0]|, groups[1..], tails[1..]))
  }

  function Flat(groups: seq<seq<Bytes>>): seq<Bytes> {
    if groups == [] then [] else groups[0] + Flat(groups[1..])
  }

  /** If every callback leaves less than a header over, all messages are handled and the last tail is kept. */
  lemma {:induction false} AllMessagesHandled(
      buffer: Bytes, n: nat, inputs: seq<Bytes>, rets: nat -> int, done: seq<Bytes>, groups: seq<seq<Bytes>>, tails: seq<Bytes>)
    requires Sound(buffer, n, done) && WellCut(buffer[..n], inputs, rets, |done|, groups, tails)
    ensures var r := Callbacks(buffer, n, inputs, rets, done);
      && r.exit == Wait && r.handled == done + Flat(groups)
      && r.Received() == if tails == [] then buffer[..n] else tails[|tails| - 1]
    decreases |inputs|
  {
    hide Callback, Framed, Sound, TakenWhole;
    SoundShape(buffer, n, done);
    if inputs == [] {
      assert done + Flat(groups) == done;
    } else {
      CallbackTakes(buffer, n, inputs[0], rets, done, groups[0], tails[0]);
      CallbackKeepsSound(buffer, n, inputs[0], rets, done);
      var (r, _) := Callback(buffer, n, inputs[0], rets, done);
      AllMessagesHandled(r.buffer, r.len, inputs[1..], rets, done + groups[0], groups[1..], tails[1..]);
      assert done + groups[0] + Flat(groups[1..]) == done + Flat(groups);
    }
  }

  lemma {:induction false} WaitsAreWellCut(buffer: Bytes, n: nat, inputs: seq<Bytes>, rets: nat -> int, done: seq<Bytes>)
    returns (groups: seq<seq<Bytes>>, tails: seq<Bytes>)
    requires Sound(buffer, n, done) && Callbacks(buffer, n, inputs, rets, done).exit == Wait
    ensures WellCut(buffer[..n], inputs, rets, |done|, groups, tails)
    decreases |inputs|
  {
    hide Callback, Framed, Sound, TakenWhole;
    SoundShape(buffer, n, done);
    groups, tails := [], [];
    if inputs != [] {
      CallbackWaitsExactly(buffer, n, inputs[0], rets, done);
      var bodies, tail :| TakenWhole(buffer[..n] + inputs[0], rets, |done|, bodies, tail);
      CallbackTakes(buffer, n, inputs[0], rets, done, bodies, tail);
      CallbackKeepsSound(buffer, n, inputs[0], rets, done);
      var (r, _) := Callback(buffer, n, inputs[0], rets, done);
      var gs, ts := WaitsAreWellCut(r.buffer, r.len, inputs[1..], rets, r.handled);
      groups, tails := [bodies] + gs, [tail] + ts;
    }
  }

  /** A connection is still waited on after its inputs exactly if every one of them was so cut. */
  lemma ConnectionWaitsExactly(buffer: Bytes, n: nat, inputs: seq<Bytes>, rets: nat -> int, done: seq<Bytes>)
    requires Sound(buffer, n, done)
    ensures Callbacks(buffer, n, inputs, rets, done).exit == Wait
       <==> exists groups, tails :: WellCut(buffer[..n], inputs, rets, |done|, groups, tails)
  {
    hide Callbacks, WellCut, Sound;
    SoundShape(buffer, n, done);
    if Callbacks(buffer, n, inputs, rets, done).exit == Wait {
      var groups, tails := WaitsAreWellCut(buffer, n, inputs, rets, done);
    }
    if groups, tails :| WellCut(buffer[..n], inputs, rets, |done|, groups, tails) {
      AllMessagesHandled(buffer, n, inputs, rets, done, groups, tails);
    }
  }

  // ----- A length field received in part

  /**
   * With a header or more of a message of length next received and room left, the connection closes
   * only on 8 bytes before any message was handled, or on 9 where the low byte of next and the rest
   * of the last length make no length that is allowed. From 10 bytes on it never closes.
   */
  lemma PartExits(last: nat, next: nat, p: nat)
    requires last == 0 || 12 <= last <= CONN_BUFFER_LEN
    requires HEADER_SIZE <= p < next && 12 <= next <= CONN_BUFFER_LEN
    ensures PartExit(last, next, p, false) in {Close, Overrun, Spin}
    ensures PartExit(last, next, p, false) == Close <==>
      (p == 8 && last == 0) || (p == 9 && last < 256 && next % 256 < 8) || (p == 9 && last == CONN_BUFFER_LEN && next % 256 != 0)
    ensures PartExit(last, next, p, false) == Overrun <==> p == 9 && last < 256 && next % 256 in {8, 9}
  {
  }

  /** The first bytes of a new connection: 8 close it for every message, 9 for some, 10 or more for none. */
  lemma FirstBytes(buffer: Bytes, body: Bytes, p: nat, rets: nat -> int)
    requires |buffer| == CONN_BUFFER_LEN && forall i | 0 <= i < CONN_BUFFER_LEN :: buffer[i] == 0
    requires |body| + 12 <= CONN_BUFFER_LEN && HEADER_SIZE <= p < |body| + 12
    ensures var (r, _) := Callback(buffer, 0, Frame(body)[..p], rets, []);
      && r.handled == [] && r.Received() == Frame(body)[..p] && r.exit in {Close, Overrun, Spin}
      && (r.exit == Close <==> p == 8 || (p == 9 && (|body| + 12) % 256 < 8))
  {
    hide Frame, Callback, Sound;
    var part := Frame(body)[..p];
    ZeroedIsSound(buffer);
    NoMessages([], part);
    assert buffer[..0] + part == Framed([]) + part;
    CallbackExact(buffer, 0, part, rets, [], [], part, body);
    PartExits(0, |body| + 12, p);
    assert Smooth([], |part|, |body| + 12);
  }
}
