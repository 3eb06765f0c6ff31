// TLV messages: the packers append them to a byte string, and the dispatcher parses their header.
module Tlv {
  import opened Machine
  import opened Coding

  const HEADER_SIZE: nat := 8
  const TYPE_LENGTH: uint32 := 0
  const TYPE_MID: uint32 := 1
  const TYPE_ON_HEARTBEAT: uint32 := 5
  const TYPE_ON_CLIENT_BUILD_VC: uint32 := 1001
  const TYPE_ON_CLIENT_START_SEND: uint32 := 1003
  const TYPE_ON_CLIENT_SEND_VOICE_DATA: uint32 := 1005
  const TYPE_PUSH_CLIENT_START_SEND: uint32 := 1008
  const TYPE_PUSH_CLIENT_VOICE_DATA: uint32 := 1010

  // ----- The wire format

  /** What follows the length field: the message id, then one command with its value. */
  function Body(mid: uint32, cmd: uint32, value: Bytes): (b: Bytes)
    requires |value| < TWO_32
    ensures |b| == 20 + |value|
  {
    EncodeFixed32(TYPE_MID) + EncodeFixed32(4) + EncodeFixed32(mid)
    + EncodeFixed32(cmd) + EncodeFixed32(|value|) + value
  }

  /** A whole message: a length field that counts itself, then the body. */
  function Frame(body: Bytes): (f: Bytes)
    requires |body| + 12 < TWO_32
    ensures |f| == |body| + 12
  {
    EncodeFixed32(TYPE_LENGTH) + EncodeFixed32(4) + EncodeFixed32(|body| + 12) + body
  }

  /** Outside: the lengths agree modulo 2^32 only, and the value would lie outside the body. */
  datatype Header = BadMid | BadLength | Outside | Command(mid: uint32, cmd: uint32, value: Bytes)

  /** The header parse of HandleMsg. Its five loads may run past a short body, into whatever is beyond it. */
  function ParseHeader(body: Bytes, beyond: Bytes): Header
    requires |body| < TWO_32 && |beyond| >= 20
  {
    var seen := body + beyond;
    var midType, midLen, mid := DecodeFixed32(seen, 0), DecodeFixed32(seen, 4), DecodeFixed32(seen, 8);
    if midType != TYPE_MID || midLen != 4 then BadMid
    else
      var cmd, len := DecodeFixed32(seen, 12), DecodeFixed32(seen, 16);
      if |body| != Wrap32(HEADER_SIZE + midLen + HEADER_SIZE + len) then BadLength
      else if |body| < 20 then Outside
      else Command(mid, cmd, body[20..20 + len])
  }

  /** The parse of a body that has all five words, from the body alone. */
  lemma ParseWithin(body: Bytes, beyond: Bytes)
    requires 20 <= |body| < TWO_32 && |beyond| >= 20
    ensures forall i | i in {0, 4, 8, 12, 16} :: DecodeFixed32(body + beyond, i) == DecodeFixed32(body, i)
    ensures ParseHeader(body, beyond) ==
      if DecodeFixed32(body, 0) != TYPE_MID || DecodeFixed32(body, 4) != 4 then BadMid
      else if |body| != 20 + DecodeFixed32(body, 16) then BadLength
      else Command(DecodeFixed32(body, 8), DecodeFixed32(body, 12), body[20..])
  {
    WordsWithin(body, beyond);
    hide DecodeFixed32;
    LengthDoesNotWrap(body);
  }

  lemma WordsWithin(body: Bytes, beyond: Bytes)
    requires |body| >= 20
    ensures forall i | i in {0, 4, 8, 12, 16} :: DecodeFixed32(body + beyond, i) == DecodeFixed32(body, i)
  {
  }

  /** The words of a body, in order. */
  lemma BodyWords(mid: uint32, cmd: uint32, value: Bytes)
    requires |value| < TWO_32
    ensures var b := Body(mid, cmd, value);
      && DecodeFixed32(b, 0) == TYPE_MID && DecodeFixed32(b, 4) == 4 && DecodeFixed32(b, 8) == mid
      && DecodeFixed32(b, 12) == cmd && DecodeFixed32(b, 16) == |value| && b[20..] == value
  {
    hide EncodeFixed32, DecodeFixed32;
    var e0, e1, e2, e3, e4 := EncodeFixed32(TYPE_MID), EncodeFixed32(4), EncodeFixed32(mid), EncodeFixed32(cmd), EncodeFixed32(|value|);
    var b := Body(mid, cmd, value);
    Fixed32RoundTrip(TYPE_MID, [], e1 + e2 + e3 + e4 + value);
    Fixed32RoundTrip(4, e0, e2 + e3 + e4 + value);
    Fixed32RoundTrip(mid, e0 + e1, e3 + e4 + value);
    Fixed32RoundTrip(cmd, e0 + e1 + e2, e4 + value);
    Fixed32RoundTrip(|value|, e0 + e1 + e2 + e3, value);
    assert b == [] + e0 + (e1 + e2 + e3 + e4 + value);
    assert b == e0 + e1 + (e2 + e3 + e4 + value);
    assert b == e0 + e1 + e2 + (e3 + e4 + value);
    assert b == e0 + e1 + e2 + e3 + (e4 + value);
  }

  lemma FrameWords(body: Bytes, after: Bytes)
    requires |body| + 12 < TWO_32
    ensures var f := Frame(body) + after;
      DecodeFixed32(f, 0) == TYPE_LENGTH && DecodeFixed32(f, 4) == 4 && DecodeFixed32(f, 8) == |body| + 12
    ensures (Frame(body) + after)[12..|body| + 12] == body
  {
    hide EncodeFixed32, DecodeFixed32;
    var e0, e1, e2 := EncodeFixed32(TYPE_LENGTH), EncodeFixed32(4), EncodeFixed32(|body| + 12);
    var f := Frame(body) + after;
    Fixed32RoundTrip(TYPE_LENGTH, [], e1 + e2 + body + after);
    Fixed32RoundTrip(4, e0, e2 + body + after);
    Fixed32RoundTrip(|body| + 12, e0 + e1, body + after);
    assert f == [] + e0 + (e1 + e2 + body + after);
    assert f == e0 + e1 + (e2 + body + after);
    assert f == e0 + e1 + e2 + (body + after);
  }

  /**
   * Whatever lies beyond the body, the header parse accepts exactly the bodies of messages, and
   * returns what they were made of.
   */
  lemma ParseInvertsBody(body: Bytes, beyond: Bytes, mid: uint32, cmd: uint32, value: Bytes)
    requires |body| < TWO_32 && |beyond| >= 20 && |value| < TWO_32
    ensures ParseHeader(body, beyond) == Command(mid, cmd, value) <==> body == Body(mid, cmd, value)
  {
    hide EncodeFixed32, DecodeFixed32;
    BodyWords(mid, cmd, value);
    if |body| >= 20 {
      hide ParseHeader;
      ParseWithin(body, beyond);
      if ParseHeader(body, beyond) == Command(mid, cmd, value) {
        Fixed32Back(body, 0);
        Fixed32Back(body, 4);
        Fixed32Back(body, 8);
        Fixed32Back(body, 12);
        Fixed32Back(body, 16);
        assert body == body[0..4] + body[4..8] + body[8..12] + body[12..16] + body[16..20] + body[20..];
      }
    }
  }

  /** The 32-bit sum in the length test cannot wrap into agreement. */
  lemma LengthDoesNotWrap(body: Bytes)
    requires 20 <= |body| < TWO_32
    ensures |body| == Wrap32(HEADER_SIZE + 4 + HEADER_SIZE + DecodeFixed32(body, 16)) <==> |body| == 20 + DecodeFixed32(body, 16)
  {
  }

  // ----- The packers

  method EncodeCommonTlv(msg: ByteString, msgLen: uint32, mid: uint32)
    modifies msg
    ensures msg.contents == old(msg.contents)
      + EncodeFixed32(TYPE_LENGTH) + EncodeFixed32(4) + EncodeFixed32(msgLen)
      + EncodeFixed32(TYPE_MID) + EncodeFixed32(4) + EncodeFixed32(mid)
  {
    hide EncodeFixed32;
    msg.PutFixed32(TYPE_LENGTH);
    msg.PutFixed32(4);
    msg.PutFixed32(msgLen);
    msg.PutFixed32(TYPE_MID);
    msg.PutFixed32(4);
    msg.PutFixed32(mid);
  }

  method EncodeRet(msg: ByteString, onCmd: uint32, ret: int)
    modifies msg
    ensures msg.contents == old(msg.contents) + EncodeFixed32(onCmd) + EncodeFixed32(4) + EncodeFixed32(Wrap32(ret))
  {
    hide EncodeFixed32;
    msg.PutFixed32(onCmd);
    msg.PutFixed32(4);
    msg.PutFixed32(Wrap32(ret));
  }

  /** The result is the new value of the message counter, which is also the id packed. */
  method PackStartSendPushMsg(msg: ByteString, counter: uint32) returns (pushMid: uint32)
    modifies msg
    ensures pushMid == Wrap32(counter + 1)
    ensures msg.contents == old(msg.contents) + Frame(Body(pushMid, TYPE_PUSH_CLIENT_START_SEND, []))
  {
    hide EncodeFixed32;
    pushMid := Wrap32(counter + 1);
    EncodeCommonTlv(msg, 32, pushMid);
    msg.PutFixed32(TYPE_PUSH_CLIENT_START_SEND);
    msg.PutFixed32(0);
    FrameOfParts(old(msg.contents), pushMid, TYPE_PUSH_CLIENT_START_SEND, []);
  }

  /** The declared length is 32-bit arithmetic; a payload that fits a message does not wrap it. */
  method PackSendVoicePushMsg(msg: ByteString, counter: uint32, data: Bytes) returns (pushMid: uint32)
    requires |data| + 32 < TWO_32
    modifies msg
    ensures pushMid == Wrap32(counter + 1)
    ensures msg.contents == old(msg.contents) + Frame(Body(pushMid, TYPE_PUSH_CLIENT_VOICE_DATA, data))
  {
    hide EncodeFixed32;
    pushMid := Wrap32(counter + 1);
    EncodeCommonTlv(msg, 32 + |data|, pushMid);
    msg.PutFixed32(TYPE_PUSH_CLIENT_VOICE_DATA);
    msg.PutFixed32(|data|);
    msg.Append(data);
    FrameOfParts(old(msg.contents), pushMid, TYPE_PUSH_CLIENT_VOICE_DATA, data);
  }

  method PackClientBuildVcRespMsg(msg: ByteString, mid: uint32, ret: int)
    modifies msg
    ensures msg.contents == old(msg.contents) + Frame(Body(mid, TYPE_ON_CLIENT_BUILD_VC, EncodeFixed32(Wrap32(ret))))
  {
    hide EncodeFixed32;
    EncodeCommonTlv(msg, 36, mid);
    EncodeRet(msg, TYPE_ON_CLIENT_BUILD_VC, ret);
    FrameOfParts(old(msg.contents), mid, TYPE_ON_CLIENT_BUILD_VC, EncodeFixed32(Wrap32(ret)));
  }

  /** The timeout reply of a push-message context; the code is the negated timeout error. */
  method EncodeRespMsg(msg: ByteString, recvMid: uint32, responseType: uint32, timeoutError: int)
    modifies msg
    ensures msg.contents == old(msg.contents) + Frame(Body(recvMid, responseType, EncodeFixed32(Wrap32(-timeoutError))))
  {
    hide EncodeFixed32;
    msg.PutFixed32(TYPE_LENGTH);
    msg.PutFixed32(4);
    msg.PutFixed32(36);
    msg.PutFixed32(TYPE_MID);
    msg.PutFixed32(4);
    msg.PutFixed32(recvMid);
    msg.PutFixed32(responseType);
    msg.PutFixed32(4);
    msg.PutFixed32(Wrap32(-timeoutError));
    FrameOfParts(old(msg.contents), recvMid, responseType, EncodeFixed32(Wrap32(-timeoutError)));
  }

  /** A message appended piece by piece is the message appended. */
  lemma FrameOfParts(before: Bytes, mid: uint32, cmd: uint32, value: Bytes)
    requires |value| + 32 < TWO_32
    ensures before
      + EncodeFixed32(TYPE_LENGTH) + EncodeFixed32(4) + EncodeFixed32(32 + |value|)
      + EncodeFixed32(TYPE_MID) + EncodeFixed32(4) + EncodeFixed32(mid)
      + EncodeFixed32(cmd) + EncodeFixed32(|value|) + value
      == before + Frame(Body(mid, cmd, value))
    ensures value == [] ==>
      (before + EncodeFixed32(TYPE_LENGTH) + EncodeFixed32(4) + EncodeFixed32(32)
       + EncodeFixed32(TYPE_MID) + EncodeFixed32(4) + EncodeFixed32(mid)
       + EncodeFixed32(cmd) + EncodeFixed32(0)
       == before + Frame(Body(mid, cmd, value)))
  {
    hide EncodeFixed32;
  }

  /** Round trip: what the frame splitter cuts out of a packed message parses to what was packed. */
  lemma MessageRoundTrip(mid: uint32, cmd: uint32, value: Bytes, after: Bytes, beyond: Bytes)
    requires |value| + 32 < TWO_32 && |beyond| >= 20
    ensures var s := Frame(Body(mid, cmd, value)) + after;
      && DecodeFixed32(s, 8) == |Frame(Body(mid, cmd, value))| == 32 + |value|
      && ParseHeader(s[12..DecodeFixed32(s, 8)], beyond) == Command(mid, cmd, value)
  {
    hide EncodeFixed32, DecodeFixed32, ParseHeader;
    FrameWords(Body(mid, cmd, value), after);
    ParseInvertsBody(Body(mid, cmd, value), beyond, mid, cmd, value);
  }

  // ----- Three packers that do not keep to the format

  /** Declares 32 bytes and appends 36. */
  method PackHeartBeatRespMsg(msg: ByteString, mid: uint32, ret: int)
    modifies msg
    ensures |msg.contents| == |old(msg.contents)| + 36
    ensures DecodeFixed32(msg.contents, |old(msg.contents)| + 8) == 32
  {
    hide EncodeFixed32, DecodeFixed32;
    ghost var before := msg.contents;
    EncodeCommonTlv(msg, 32, mid);
    EncodeRet(msg, TYPE_ON_HEARTBEAT, ret);
    ghost var e0, e1, e2 := EncodeFixed32(TYPE_LENGTH), EncodeFixed32(4), EncodeFixed32(32);
    ghost var after := msg.contents[|before| + 12..];
    Fixed32RoundTrip(32, before + e0 + e1, after);
    assert msg.contents == before + e0 + e1 + e2 + after;
  }

  /** The body of PackStartSendRespMsg and PackClientSendVoiceRespMsg: ret stands where the length belongs. */
  function BodyWithoutLength(mid: uint32, cmd: uint32, ret: int): (b: Bytes)
    ensures |b| == 20
  {
    EncodeFixed32(TYPE_MID) + EncodeFixed32(4) + EncodeFixed32(mid) + EncodeFixed32(cmd) + EncodeFixed32(Wrap32(ret))
  }

  /** Such a reply parses exactly when ret is 0 (as an unsigned word), and then ret is not in the value. */
  lemma RespWithoutLength(mid: uint32, cmd: uint32, ret: int, beyond: Bytes)
    requires |beyond| >= 20
    ensures ParseHeader(BodyWithoutLength(mid, cmd, ret), beyond).Command? <==> Wrap32(ret) == 0
    ensures Wrap32(ret) == 0 ==> ParseHeader(BodyWithoutLength(mid, cmd, ret), beyond) == Command(mid, cmd, [])
  {
    hide EncodeFixed32, DecodeFixed32, ParseHeader;
    var e0, e1, e2, e3, e4 := EncodeFixed32(TYPE_MID), EncodeFixed32(4), EncodeFixed32(mid), EncodeFixed32(cmd), EncodeFixed32(Wrap32(ret));
    var b := BodyWithoutLength(mid, cmd, ret);
    Fixed32RoundTrip(TYPE_MID, [], e1 + e2 + e3 + e4);
    Fixed32RoundTrip(4, e0, e2 + e3 + e4);
    Fixed32RoundTrip(mid, e0 + e1, e3 + e4);
    Fixed32RoundTrip(cmd, e0 + e1 + e2, e4);
    Fixed32RoundTrip(Wrap32(ret), e0 + e1 + e2 + e3, []);
    assert b == [] + e0 + (e1 + e2 + e3 + e4);
    assert b == e0 + e1 + (e2 + e3 + e4);
    assert b == e0 + e1 + e2 + (e3 + e4);
    assert b == e0 + e1 + e2 + e3 + e4 + [];
    ParseWithin(b, beyond);
  }

  method PackRespWithoutLength(msg: ByteString, mid: uint32, onCmd: uint32, ret: int)
    modifies msg
    ensures msg.contents == old(msg.contents) + Frame(BodyWithoutLength(mid, onCmd, ret))
  {
    hide EncodeFixed32;
    EncodeCommonTlv(msg, 32, mid);
    msg.PutFixed32(onCmd);
    msg.PutFixed32(Wrap32(ret));
    assert msg.contents == old(msg.contents) + Frame(BodyWithoutLength(mid, onCmd, ret));
  }

  // ----- The messages byte by byte

  lemma Words()
    ensures EncodeFixed32(0) == [0, 0, 0, 0] && EncodeFixed32(1) == [1, 0, 0, 0] && EncodeFixed32(4) == [4, 0, 0, 0]
    ensures EncodeFixed32(32) == [32, 0, 0, 0] && EncodeFixed32(36) == [36, 0, 0, 0]
    ensures EncodeFixed32(1001) == [0xe9, 3, 0, 0] && EncodeFixed32(1003) == [0xeb, 3, 0, 0] && EncodeFixed32(1005) == [0xed, 3, 0, 0]
    ensures EncodeFixed32(1008) == [0xf0, 3, 0, 0] && EncodeFixed32(1010) == [0xf2, 3, 0, 0]
  {
  }

  /** A pushed start-send message on the wire. */
  lemma StartSendBytes(mid: uint32)
    ensures Frame(Body(mid, TYPE_PUSH_CLIENT_START_SEND, []))
         == [0, 0, 0, 0, 4, 0, 0, 0, 32, 0, 0, 0, 1, 0, 0, 0, 4, 0, 0, 0] + EncodeFixed32(mid) + [0xf0, 3, 0, 0, 0, 0, 0, 0]
  {
    Words();
    hide EncodeFixed32;
  }

  /** A pushed voice message on the wire. */
  lemma SendVoiceBytes(mid: uint32, data: Bytes)
    requires |data| + 32 < TWO_32
    ensures Frame(Body(mid, TYPE_PUSH_CLIENT_VOICE_DATA, data))
         == [0, 0, 0, 0, 4, 0, 0, 0] + EncodeFixed32(32 + |data|) + [1, 0, 0, 0, 4, 0, 0, 0] + EncodeFixed32(mid)
            + [0xf2, 3, 0, 0] + EncodeFixed32(|data|) + data
  {
    Words();
    hide EncodeFixed32;
  }

  /** A reply with a code on the wire: of the given type, or to a client that built its channel. */
  lemma ReplyBytes(mid: uint32, cmd: uint32, code: uint32)
    ensures Frame(Body(mid, cmd, EncodeFixed32(code)))
         == [0, 0, 0, 0, 4, 0, 0, 0, 36, 0, 0, 0, 1, 0, 0, 0, 4, 0, 0, 0] + EncodeFixed32(mid)
            + EncodeFixed32(cmd) + [4, 0, 0, 0] + EncodeFixed32(code)
    ensures EncodeFixed32(TYPE_ON_CLIENT_BUILD_VC) == [0xe9, 3, 0, 0]
    ensures EncodeFixed32(TYPE_ON_CLIENT_START_SEND) == [0xeb, 3, 0, 0]
    ensures EncodeFixed32(TYPE_ON_CLIENT_SEND_VOICE_DATA) == [0xed, 3, 0, 0]
  {
    Words();
    hide EncodeFixed32;
  }
}
