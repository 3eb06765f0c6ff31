// The TLV frame splitter of the voice server's read callback: fill the connection's buffer, cut
// complete messages off its front, hand each to the dispatcher, move the rest to the front.
module Framing {
  import opened Machine
  import opened Coding
  import opened Tlv

  const CONN_BUFFER_LEN: nat := 10240

  /**
   * How the parse loop ends. ReadAgain: leave it and read more, the buffer having been full. Wait:
   * return until the next event. Close: the connection is closed. Spin: the loop goes round without
   * reading and with nothing changed, so it is never left. Overrun: a message that declares 8 to 11
   * bytes, whose body length underflows; what happens then is outside this model.
   */
  datatype Exit = ReadAgain | Wait | Close | Spin | Overrun

  /** buffer is the whole array, stale bytes included; the first len of its bytes are received ones. */
  datatype Result = Result(exit: Exit, buffer: Bytes, len: nat, handled: seq<Bytes>)
  {
    function Received(): Bytes
      requires len <= |buffer|
    {
      buffer[..len]
    }
  }

  /** The buffer after the first m of its n received bytes are moved out. */
  function MovedOut(buffer: Bytes, n: nat, m: nat): (r: Bytes)
    requires m <= n <= |buffer|
    ensures |r| == |buffer|
    ensures r[..n - m] == buffer[m..n]
  {
    buffer[m..n] + buffer[n - m..]
  }

  predicate HeaderBad(buffer: Bytes)
    requires |buffer| == CONN_BUFFER_LEN
  {
    DecodeFixed32(buffer, 0) != TYPE_LENGTH || DecodeFixed32(buffer, 4) != 4
    || DecodeFixed32(buffer, 8) > CONN_BUFFER_LEN || DecodeFixed32(buffer, 8) < HEADER_SIZE
  }

  /**
   * The parse loop. full says that the buffer was full when reading stopped; rets(i) is what the
   * dispatcher answers to message i of the connection; done are the messages handled so far.
   */
  function Pass(buffer: Bytes, n: nat, full: bool, rets: nat -> int, done: seq<Bytes>): (r: Result)
    requires n <= |buffer| == CONN_BUFFER_LEN
    ensures |r.buffer| == CONN_BUFFER_LEN && r.len <= n
    ensures n == CONN_BUFFER_LEN && r.exit == ReadAgain ==> r.len < n
    decreases n
  {
    if n < HEADER_SIZE then Result(if full then ReadAgain else Wait, buffer, n, done)
    else if HeaderBad(buffer) then Result(Close, buffer, n, done)
    else
      var msgLen := DecodeFixed32(buffer, 8);
      if n < msgLen then Result(if full then ReadAgain else Spin, buffer, n, done)
      else if msgLen < 12 then Result(Overrun, buffer, n, done)
      else
        var done' := done + [buffer[12..msgLen]];
        if rets(|done|) != 0 then Result(Close, buffer, n, done')
        else Pass(MovedOut(buffer, n, msgLen), n - msgLen, full, rets, done')
  }

  predicate Stops(buffer: Bytes, n: nat)
    requires n <= |buffer| == CONN_BUFFER_LEN
  {
    n < HEADER_SIZE || HeaderBad(buffer) || n < DecodeFixed32(buffer, 8) || DecodeFixed32(buffer, 8) < 12
  }

  /** Without a complete message in front the loop ends at once. */
  lemma PassStops(buffer: Bytes, n: nat, full: bool, rets: nat -> int, done: seq<Bytes>)
    requires n <= |buffer| == CONN_BUFFER_LEN && Stops(buffer, n)
    ensures var r := Pass(buffer, n, full, rets, done); r == Result(r.exit, buffer, n, done)
    ensures n < HEADER_SIZE ==> Pass(buffer, n, full, rets, done).exit == if full then ReadAgain else Wait
    ensures n >= HEADER_SIZE && HeaderBad(buffer) ==> Pass(buffer, n, full, rets, done).exit == Close
    ensures n >= HEADER_SIZE && !HeaderBad(buffer) && n < DecodeFixed32(buffer, 8) ==>
      Pass(buffer, n, full, rets, done).exit == if full then ReadAgain else Spin
    ensures n >= HEADER_SIZE && !HeaderBad(buffer) && n >= DecodeFixed32(buffer, 8) ==>
      Pass(buffer, n, full, rets, done).exit == Overrun
  {
    hide DecodeFixed32;
  }

  lemma PassTakes(buffer: Bytes, n: nat, full: bool, rets: nat -> int, done: seq<Bytes>)
    requires n <= |buffer| == CONN_BUFFER_LEN && !Stops(buffer, n)
    ensures var m := DecodeFixed32(buffer, 8);
      Pass(buffer, n, full, rets, done) ==
        if rets(|done|) != 0 then Result(Close, buffer, n, done + [buffer[12..m]])
        else Pass(MovedOut(buffer, n, m), n - m, full, rets, done + [buffer[12..m]])
  {
    hide DecodeFixed32, MovedOut;
  }

  /** Reading: as much of what is available as the buffer has room for. */
  function Taken(n: nat, avail: Bytes): (k: nat)
    requires n <= CONN_BUFFER_LEN
    ensures k <= |avail| && n + k <= CONN_BUFFER_LEN
    ensures n + k == CONN_BUFFER_LEN || k == |avail|
  {
    if |avail| <= CONN_BUFFER_LEN - n then |avail| else CONN_BUFFER_LEN - n
  }

  function Overlaid(buffer: Bytes, at: nat, data: Bytes): (r: Bytes)
    requires at + |data| <= |buffer|
    ensures |r| == |buffer| && r[..at + |data|] == buffer[..at] + data
  {
    buffer[..at] + data + buffer[at + |data|..]
  }

  lemma OverlayMore(buffer: Bytes, at: nat, a: Bytes, b: Bytes)
    requires at + |a| + |b| <= |buffer|
    ensures Overlaid(Overlaid(buffer, at, a), at + |a|, b) == Overlaid(buffer, at, a + b)
    ensures Overlaid(buffer, at, []) == buffer
  {
  }

  function Filled(buffer: Bytes, n: nat, avail: Bytes): (r: Bytes)
    requires n <= |buffer| == CONN_BUFFER_LEN
    ensures |r| == CONN_BUFFER_LEN
    ensures r[..n + Taken(n, avail)] == buffer[..n] + avail[..Taken(n, avail)]
  {
    Overlaid(buffer, n, avail[..Taken(n, avail)])
  }

  /** One read callback: fill and parse until the parse loop does not ask for more. */
  function Callback(buffer: Bytes, n: nat, avail: Bytes, rets: nat -> int, done: seq<Bytes>): (r: (Result, Bytes))
    requires n <= |buffer| == CONN_BUFFER_LEN
    ensures |r.0.buffer| == CONN_BUFFER_LEN && r.0.len <= CONN_BUFFER_LEN
    ensures r.0.exit != ReadAgain
    decreases n + |avail|
  {
    var k := Taken(n, avail);
    var full := n + k == CONN_BUFFER_LEN;
    var r := Pass(Filled(buffer, n, avail), n + k, full, rets, done);
    OnlyFullReadsAgain(Filled(buffer, n, avail), n + k, full, rets, done);
    if r.exit == ReadAgain then Callback(r.buffer, r.len, avail[k..], rets, r.handled) else (r, avail[k..])
  }

  lemma {:induction false} OnlyFullReadsAgain(buffer: Bytes, n: nat, full: bool, rets: nat -> int, done: seq<Bytes>)
    requires n <= |buffer| == CONN_BUFFER_LEN
    ensures !full ==> Pass(buffer, n, full, rets, done).exit != ReadAgain
    ensures full ==> Pass(buffer, n, full, rets, done).exit !in {Wait, Spin}
    decreases n
  {
    hide DecodeFixed32, MovedOut;
    if n >= HEADER_SIZE && !HeaderBad(buffer) {
      var msgLen := DecodeFixed32(buffer, 8);
      if 12 <= msgLen <= n && rets(|done|) == 0 {
        OnlyFullReadsAgain(MovedOut(buffer, n, msgLen), n - msgLen, full, rets, done + [buffer[12..msgLen]]);
      }
    }
  }

  // ----- What stands behind the received bytes

  /** Every message fits the buffer. */
  predicate AllFit(bodies: seq<Bytes>) {
    forall i | 0 <= i < |bodies| :: |bodies[i]| + 12 <= CONN_BUFFER_LEN
  }

  /** The length that the last message handled declared; 0 before the first, the buffer being zeroed. */
  function LastLength(done: seq<Bytes>): nat {
    if done == [] then 0 else |done[|done| - 1]| + 12
  }

  /** As far as the place of the length field is not received yet, it holds the last message's. */
  ghost predicate Sound(buffer: Bytes, n: nat, done: seq<Bytes>) {
    && n <= |buffer| == CONN_BUFFER_LEN && AllFit(done)
    && forall i | 8 <= i < 12 && n <= i :: buffer[i] == EncodeFixed32(LastLength(done))[i - 8]
  }

  lemma ZeroedIsSound(buffer: Bytes)
    requires |buffer| == CONN_BUFFER_LEN && forall i | 0 <= i < CONN_BUFFER_LEN :: buffer[i] == 0
    ensures Sound(buffer, 0, [])
  {
  }

  lemma FilledIsSound(buffer: Bytes, n: nat, avail: Bytes, done: seq<Bytes>)
    requires Sound(buffer, n, done)
    ensures Sound(Filled(buffer, n, avail), n + Taken(n, avail), done)
  {
    hide EncodeFixed32;
  }

  lemma MovedOutIsSound(buffer: Bytes, n: nat, done: seq<Bytes>)
    requires n <= |buffer| == CONN_BUFFER_LEN && AllFit(done) && !Stops(buffer, n)
    ensures var m := DecodeFixed32(buffer, 8);
      Sound(MovedOut(buffer, n, m), n - m, done + [buffer[12..m]]) && Sound(buffer, n, done + [buffer[12..m]])
  {
    hide EncodeFixed32, DecodeFixed32;
    Fixed32Back(buffer, 8);
    var e := EncodeFixed32(DecodeFixed32(buffer, 8));
    assert e[0] == buffer[8] && e[1] == buffer[9] && e[2] == buffer[10] && e[3] == buffer[11];
  }

  lemma {:induction false} PassKeepsSound(buffer: Bytes, n: nat, full: bool, rets: nat -> int, done: seq<Bytes>)
    requires Sound(buffer, n, done)
    ensures var r := Pass(buffer, n, full, rets, done); Sound(r.buffer, r.len, r.handled)
    decreases n
  {
    hide DecodeFixed32, MovedOut, Sound, Pass, HeaderBad;
    SoundShape(buffer, n, done);
    if Stops(buffer, n) {
      PassStops(buffer, n, full, rets, done);
    } else {
      PassTakes(buffer, n, full, rets, done);
      MovedOutIsSound(buffer, n, done);
      var m := DecodeFixed32(buffer, 8);
      if rets(|done|) == 0 {
        PassKeepsSound(MovedOut(buffer, n, m), n - m, full, rets, done + [buffer[12..m]]);
      }
    }
  }

  lemma SoundShape(buffer: Bytes, n: nat, done: seq<Bytes>)
    requires Sound(buffer, n, done)
    ensures n <= |buffer| == CONN_BUFFER_LEN && AllFit(done)
  {
  }

  lemma {:induction false} CallbackKeepsSound(buffer: Bytes, n: nat, avail: Bytes, rets: nat -> int, done: seq<Bytes>)
    requires Sound(buffer, n, done)
    ensures var (r, _) := Callback(buffer, n, avail, rets, done); Sound(r.buffer, r.len, r.handled)
    decreases n + |avail|
  {
    hide Sound, Pass, Filled;
    SoundShape(buffer, n, done);
    var k := Taken(n, avail);
    var full := n + k == CONN_BUFFER_LEN;
    var r := Pass(Filled(buffer, n, avail), n + k, full, rets, done);
    FilledIsSound(buffer, n, avail, done);
    PassKeepsSound(Filled(buffer, n, avail), n + k, full, rets, done);
    OnlyFullReadsAgain(Filled(buffer, n, avail), n + k, full, rets, done);
    if r.exit == ReadAgain {
      CallbackKeepsSound(r.buffer, r.len, avail[k..], rets, r.handled);
    }
  }

  // ----- The connection as an object

  class Connection {
    const inBuffer: array<byte>
    var inBufferLen: nat
    var handled: seq<Bytes>

    predicate Valid()
      reads this
    {
      inBuffer.Length == CONN_BUFFER_LEN && inBufferLen <= CONN_BUFFER_LEN
    }

    /** A new connection's buffer is zeroed. */
    constructor ()
      ensures Valid() && inBufferLen == 0 && handled == [] && fresh(inBuffer)
      ensures Sound(inBuffer[..], inBufferLen, handled)
    {
      inBuffer := new byte[CONN_BUFFER_LEN](_ => 0);
      inBufferLen, handled := 0, [];
      new;
      ZeroedIsSound(inBuffer[..]);
    }

    /** bufferevent_read: data arrives behind the received bytes. */
    method Receive(data: Bytes)
      requires Valid() && inBufferLen + |data| <= CONN_BUFFER_LEN
      modifies this`inBufferLen, inBuffer
      ensures Valid() && inBufferLen == old(inBufferLen) + |data|
      ensures inBuffer[..] == Overlaid(old(inBuffer[..]), old(inBufferLen), data)
    {
      var at := inBufferLen;
      forall i | 0 <= i < |data| {
        inBuffer[at + i] := data[i];
      }
      inBufferLen := at + |data|;
    }

    /** Reads until nothing is available or the buffer is full; each read brings some amount. */
    method Fill(avail: Bytes) returns (rest: Bytes, full: bool)
      requires Valid()
      modifies this`inBufferLen, inBuffer
      ensures Valid()
      ensures inBuffer[..] == old(Filled(inBuffer[..], inBufferLen, avail))
      ensures inBufferLen == old(inBufferLen + Taken(inBufferLen, avail)) && rest == avail[old(Taken(inBufferLen, avail))..]
      ensures full <==> inBufferLen == CONN_BUFFER_LEN
    {
      hide Overlaid;
      ghost var n, start := inBufferLen, inBuffer[..];
      var j := 0;
      OverlayMore(start, n, [], []);
      while inBufferLen < CONN_BUFFER_LEN && j < |avail|
        invariant Valid() && j <= |avail| && inBufferLen == n + j
        invariant inBuffer[..] == Overlaid(start, n, avail[..j])
        decreases |avail| - j
      {
        var ret :| 1 <= ret <= |avail| - j && ret <= CONN_BUFFER_LEN - inBufferLen;
        OverlayMore(start, n, avail[..j], avail[j..j + ret]);
        assert avail[..j] + avail[j..j + ret] == avail[..j + ret];
        Receive(avail[j..j + ret]);
        j := j + ret;
      }
      full := inBufferLen == CONN_BUFFER_LEN;
      rest := avail[j..];
    }

    /** The parse loop; HandleMsg is recorded in handled and answers by rets. */
    method ParsePass(full: bool, rets: nat -> int) returns (exit: Exit)
      requires Valid()
      modifies this, inBuffer
      ensures Valid()
      ensures Result(exit, inBuffer[..], inBufferLen, handled) == old(Pass(inBuffer[..], inBufferLen, full, rets, handled))
    {
      hide DecodeFixed32, HeaderBad, MovedOut, Pass;
      ghost var whole := Pass(inBuffer[..], inBufferLen, full, rets, handled);
      while inBufferLen >= HEADER_SIZE
        invariant Valid() && Pass(inBuffer[..], inBufferLen, full, rets, handled) == whole
        decreases inBufferLen
      {
        var bytes := inBuffer[..];
        if Stops(bytes, inBufferLen) {
          PassStops(bytes, inBufferLen, full, rets, handled);
        } else {
          PassTakes(bytes, inBufferLen, full, rets, handled);
        }
        if HeaderBad(bytes) {
          return Close;
        }
        var msgLen := DecodeFixed32(bytes, 8);
        if inBufferLen < msgLen {
          return if full then ReadAgain else Spin;
        }
        if msgLen < 12 {
          return Overrun;
        }
        var ret := rets(|handled|);
        handled := handled + [bytes[12..msgLen]];
        if ret != 0 {
          return Close;
        }
        inBufferLen := inBufferLen - msgLen;
        MoveToFront(msgLen);
      }
      PassStops(inBuffer[..], inBufferLen, full, rets, handled);
      exit := if full then ReadAgain else Wait;
    }

    /** memmove: the received bytes, which begin at position m, move to the front. */
    method MoveToFront(m: nat)
      requires Valid() && inBufferLen + m <= CONN_BUFFER_LEN
      modifies inBuffer
      ensures inBuffer[..] == MovedOut(old(inBuffer[..]), inBufferLen + m, m)
    {
      var left := inBufferLen;
      forall i | 0 <= i < left {
        inBuffer[i] := inBuffer[i + m];
      }
    }

    /** The read callback. What is still available at the end is left to the next one. */
    method ReadCallback(avail: Bytes, rets: nat -> int) returns (exit: Exit, rest: Bytes)
      requires Valid()
      modifies this, inBuffer
      ensures Valid()
      ensures (Result(exit, inBuffer[..], inBufferLen, handled), rest)
        == old(Callback(inBuffer[..], inBufferLen, avail, rets, handled))
      ensures old(Sound(inBuffer[..], inBufferLen, handled)) ==> Sound(inBuffer[..], inBufferLen, handled)
    {
      hide Pass, Filled, Taken, Sound;
      if Sound(inBuffer[..], inBufferLen, handled) {
        CallbackKeepsSound(inBuffer[..], inBufferLen, avail, rets, handled);
      }
      rest := avail;
      ghost var whole := Callback(inBuffer[..], inBufferLen, avail, rets, handled);
      exit := ReadAgain;
      while exit == ReadAgain
        invariant Valid()
        invariant if exit == ReadAgain then Callback(inBuffer[..], inBufferLen, rest, rets, handled) == whole
                  else (Result(exit, inBuffer[..], inBufferLen, handled), rest) == whole
        decreases exit == ReadAgain, inBufferLen + |rest|
      {
        ghost var n, before, r0 := inBufferLen, inBuffer[..], rest;
        OnlyFullReadsAgain(Filled(before, n, rest), n + Taken(n, rest), n + Taken(n, rest) == CONN_BUFFER_LEN, rets, handled);
        var full;
        rest, full := Fill(rest);
        exit := ParsePass(full, rets);
      }
    }
  }
}
