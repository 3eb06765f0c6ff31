// Line framing in the device server: splitting and joining at CRLF, and the read callback that hands
// over complete lines and keeps the rest - where "the rest" begins behind the last carriage return or
// line feed, not behind the last CRLF.
module Crlf {
  import opened Machine
  import opened Strings

  const CRLF: string := "\r\n"
  const DATA_BUFFER_SIZE: nat := 30 * 1024

  // ----- Splitting and joining

  /** The pieces in front of each delimiter, from the left. */
  function Split(s: string, d: string): seq<string>
    requires d != ""
    decreases |s|
  {
    var pos := Find(s, d);
    if pos == -1 then [] else [s[..pos]] + Split(s[pos + |d|..], d)
  }

  /** What is behind the last delimiter split at. */
  function Rest(s: string, d: string): string
    requires d != ""
    decreases |s|
  {
    var pos := Find(s, d);
    if pos == -1 then s else Rest(s[pos + |d|..], d)
  }

  function Join(vec: seq<string>, d: string): string {
    if vec == [] then "" else vec[0] + d + Join(vec[1..], d)
  }

  method SplitData(str: string, delimiter: string) returns (vecData: seq<string>)
    requires delimiter != ""
    ensures vecData == Split(str, delimiter)
  {
    hide Find, Split;
    var s := str;
    vecData := [];
    assert [] + Split(str, delimiter) == Split(str, delimiter);
    var pos := Find(s, delimiter);
    while pos != -1
      invariant pos == Find(s, delimiter)
      invariant vecData + Split(s, delimiter) == Split(str, delimiter)
      decreases |s|
    {
      SplitStep(s, delimiter);
      var token := s[..pos];
      assert vecData + ([token] + Split(s[pos + |delimiter|..], delimiter))
        == vecData + [token] + Split(s[pos + |delimiter|..], delimiter);
      vecData := vecData + [token];
      s := s[pos + |delimiter|..];
      pos := Find(s, delimiter);
    }
    SplitStep(s, delimiter);
    assert vecData + [] == vecData;
  }

  method JoinListByDelimiter(vec: seq<string>, delimiter: string) returns (str: string)
    ensures str == Join(vec, delimiter)
  {
    str := "";
    for i := 0 to |vec|
      invariant str + Join(vec[i..], delimiter) == Join(vec, delimiter)
    {
      assert vec[i..][1..] == vec[i + 1..];
      assert str + (vec[i] + delimiter + Join(vec[i + 1..], delimiter)) == str + vec[i] + delimiter + Join(vec[i + 1..], delimiter);
      str := str + vec[i] + delimiter;
    }
  }

  predicate FindCRLF(s: string) {
    Find(s, CRLF) != -1
  }

  lemma SplitStep(s: string, d: string)
    requires d != ""
    ensures var pos := Find(s, d);
      if pos == -1 then Split(s, d) == [] && Rest(s, d) == s
      else
        && 0 <= pos && pos + |d| <= |s| && s[pos..pos + |d|] == d
        && Split(s, d) == [s[..pos]] + Split(s[pos + |d|..], d) && Rest(s, d) == Rest(s[pos + |d|..], d)
  {
    hide Find, Free, OccursAt;
    if Find(s, d) != -1 {
      FoundAt(s, d);
    }
  }

  lemma CutAt(s: string, d: string, pos: nat)
    requires pos + |d| <= |s| && s[pos..pos + |d|] == d
    ensures s == s[..pos] + d + s[pos + |d|..]
  {
  }

  lemma JoinNone(d: string, y: string)
    ensures Join([], d) + y == y
  {
  }

  lemma JoinOne(token: string, more: seq<string>, d: string, y: string)
    ensures Join([token] + more, d) + y == token + d + (Join(more, d) + y)
  {
    assert ([token] + more)[1..] == more;
    assert token + d + Join(more, d) + y == token + d + (Join(more, d) + y);
  }

  /** Joining a split and adding what was left gives the string back, for every delimiter. */
  lemma {:induction false} JoinOfSplit(s: string, d: string)
    requires d != ""
    ensures Join(Split(s, d), d) + Rest(s, d) == s
    decreases |s|
  {
    hide Find, OccursAt, Free, Split, Rest, Join;
    var pos := Find(s, d);
    SplitStep(s, d);
    if pos == -1 {
      JoinNone(d, s);
    } else {
      var token, tail := s[..pos], s[pos + |d|..];
      JoinOfSplit(tail, d);
      JoinOne(token, Split(tail, d), d, Rest(tail, d));
      CutAt(s, d, pos);
    }
  }

  /** Neither the pieces nor what is left hold the delimiter. */
  lemma {:induction false} SplitIsFree(s: string, d: string)
    requires d != ""
    ensures Free(Rest(s, d), d) && forall i | 0 <= i < |Split(s, d)| :: Free(Split(s, d)[i], d)
    decreases |s|
  {
    hide OccursAt, Free;
    var pos := Find(s, d);
    if pos != -1 {
      FoundAt(s, d);
      FreeBefore(s, d);
      var tail := s[pos + |d|..];
      SplitIsFree(tail, d);
      assert Split(s, d)[1..] == Split(tail, d);
    }
  }

  // ----- CRLF does not overlap itself

  lemma FirstCrlf(e: string, y: string)
    requires Free(e, CRLF)
    ensures Find(e + CRLF + y, CRLF) == |e|
    ensures (e + CRLF + y)[..|e|] == e && (e + CRLF + y)[|e| + 2..] == y
  {
    var s := e + CRLF + y;
    OccursSlice(s, CRLF, |e|);
    assert s[|e|..|e| + 2] == CRLF;
    forall j | 0 <= j < |e|
      ensures !OccursAt(s, CRLF, j)
    {
      OccursSlice(s, CRLF, j);
      if j + 2 <= |e| {
        OccursSlice(e, CRLF, j);
        assert s[j..j + 2] == e[j..j + 2];
      } else {
        assert s[j..j + 2][1] == s[|e|] == '\r';
      }
    }
    FindIs(s, CRLF, |e|);
  }

  lemma SplitFirst(e: string, y: string)
    requires Free(e, CRLF)
    ensures Split(e + CRLF + y, CRLF) == [e] + Split(y, CRLF) && Rest(e + CRLF + y, CRLF) == Rest(y, CRLF)
  {
    hide Find, Free;
    FirstCrlf(e, y);
  }

  lemma {:induction false} SplitOfJoined(vec: seq<string>, y: string)
    requires forall i | 0 <= i < |vec| :: Free(vec[i], CRLF)
    ensures Split(Join(vec, CRLF) + y, CRLF) == vec + Split(y, CRLF) && Rest(Join(vec, CRLF) + y, CRLF) == Rest(y, CRLF)
    decreases |vec|
  {
    hide Find, Free, Split, Rest;
    if vec == [] {
      assert Join(vec, CRLF) + y == y;
    } else {
      var more := Join(vec[1..], CRLF) + y;
      assert Join(vec, CRLF) + y == vec[0] + CRLF + more;
      SplitFirst(vec[0], more);
      SplitOfJoined(vec[1..], y);
      assert [vec[0]] + (vec[1..] + Split(y, CRLF)) == vec + Split(y, CRLF);
    }
  }

  /** An element in front of a CRLF gives one piece, or more if there is a CRLF in it. */
  lemma {:induction false} SplitCount(e: string, y: string)
    ensures |Split(e + CRLF + y, CRLF)| >= 1 + |Split(y, CRLF)|
    ensures |Split(e + CRLF + y, CRLF)| == 1 + |Split(y, CRLF)| <==> Free(e, CRLF)
    decreases |e|
  {
    hide OccursAt, Free;
    var pos := Find(e, CRLF);
    if pos == -1 {
      SplitFirst(e, y);
    } else {
      FoundAt(e, CRLF);
      FreeBefore(e, CRLF);
      var a, b := e[..pos], e[pos + 2..];
      assert e == a + CRLF + b;
      assert e + CRLF + y == a + CRLF + (b + CRLF + y);
      SplitFirst(a, b + CRLF + y);
      SplitCount(b, y);
    }
  }

  /** Splitting a join returns the list exactly when no element holds a CRLF. */
  lemma {:induction false} SplitOfJoin(vec: seq<string>)
    ensures |Split(Join(vec, CRLF), CRLF)| >= |vec|
    ensures Split(Join(vec, CRLF), CRLF) == vec <==> forall i | 0 <= i < |vec| :: Free(vec[i], CRLF)
    ensures |Split(Join(vec, CRLF), CRLF)| == |vec| ==> forall i | 0 <= i < |vec| :: Free(vec[i], CRLF)
    decreases |vec|
  {
    hide Find, Free, Split;
    if vec == [] {
      SplitEmpty();
    } else {
      SplitCount(vec[0], Join(vec[1..], CRLF));
      SplitOfJoin(vec[1..]);
      assert forall i | 1 <= i < |vec| :: vec[i] == vec[1..][i - 1];
      if forall i | 0 <= i < |vec| :: Free(vec[i], CRLF) {
        assert Join(vec, CRLF) + "" == Join(vec, CRLF);
        SplitOfJoined(vec, "");
        SplitEmpty();
        assert vec + [] == vec;
      }
    }
  }

  lemma SplitEmpty()
    ensures Split("", CRLF) == []
  {
  }

  // ----- The read callback

  predicate LineChar(c: char) {
    c == '\r' || c == '\n'
  }

  /** find_last_of(CRLF): the last carriage return or line feed, or -1. */
  function LastLineChar(s: string): (r: int)
    ensures -1 <= r < |s| && (r >= 0 ==> LineChar(s[r]))
    ensures forall i | r < i < |s| :: !LineChar(s[i])
  {
    if s == "" then -1
    else if LineChar(s[|s| - 1]) then |s| - 1
    else LastLineChar(s[..|s| - 1])
  }

  /** What a callback makes of the received bytes: the lines it hands over and the bytes it keeps. */
  function Process(s: string): (seq<string>, string) {
    if FindCRLF(s) then (Split(s, CRLF), s[LastLineChar(s) + 1..]) else ([], s)
  }

  /** As much of what is available as fits. */
  function Take(avail: string, room: nat): string {
    if |avail| <= room then avail else avail[..room]
  }

  /** All of it, or as much as there is room for. */
  lemma TakeFills(avail: string, room: nat)
    ensures var r := Take(avail, room);
      r <= avail && |r| <= room && (r == avail || |r| == room)
  {
  }

  class Conn {
    const rBuf: array<char>
    var rlen: nat

    predicate Valid()
      reads this
    {
      rBuf.Length == DATA_BUFFER_SIZE && rlen <= DATA_BUFFER_SIZE
    }

    function Received(): string
      requires Valid()
      reads this, rBuf
    {
      rBuf[..rlen]
    }

    constructor ()
      ensures Valid() && Received() == "" && rBuf.Length == 30720
    {
      rBuf := new char[DATA_BUFFER_SIZE];
      rlen := 0;
    }

    /** One read, then the complete lines; the token check is never due, isVerify being set from the start. */
    method ReadCallback(avail: string) returns (lines: seq<string>, rest: string)
      requires Valid()
      modifies this, rBuf
      ensures Valid()
      ensures (lines, Received()) == Process(old(Received()) + Take(avail, DATA_BUFFER_SIZE - old(rlen)))
      ensures Take(avail, DATA_BUFFER_SIZE - old(rlen)) + rest == avail
    {
      hide Find, LastLineChar, Split;
      var chunk := Take(avail, DATA_BUFFER_SIZE - rlen);
      rest := avail[|chunk|..];
      Receive(chunk);
      var strRecv := rBuf[..rlen];
      lines := [];
      if FindCRLF(strRecv) {
        lines := SplitData(strRecv, CRLF);
        DropFront(LastLineChar(strRecv) + 1);
      }
    }

    method Receive(data: string)
      requires Valid() && rlen + |data| <= DATA_BUFFER_SIZE
      modifies this, rBuf
      ensures Valid() && Received() == old(Received()) + data
    {
      var at := rlen;
      forall i | 0 <= i < |data| {
        rBuf[at + i] := data[i];
      }
      rlen := at + |data|;
    }

    /** memmove of everything behind position len, stale bytes included. */
    method DropFront(len: nat)
      requires Valid() && len <= rlen
      modifies this, rBuf
      ensures Valid() && Received() == old(Received())[len..]
    {
      var n := DATA_BUFFER_SIZE - len;
      forall i | 0 <= i < n {
        rBuf[i] := rBuf[i + len];
      }
      rlen := rlen - len;
    }
  }

  /**
   * What a callback hands over and keeps, for any bytes with a carriage return and line feed in them: the
   * pieces of the split, and all that stands behind the last of either character.
   */
  lemma ProcessSpec(s: string, before: string, kept: string)
    requires !Free(s, "\r\n") && s == before + kept && '\r' !in kept && '\n' !in kept
    requires before != "" && (before[|before| - 1] == '\r' || before[|before| - 1] == '\n')
    ensures Process(s) == (Split(s, "\r\n"), kept)
  {
    hide Find, LastLineChar, Split;
    var n := |before| - 1;
    assert s[n + 1..] == kept && s[n] == before[n];
    assert forall i | 0 <= i < |kept| :: kept[i] in kept;
    LastLineCharIs(s, n);
  }

  /** With no such pair it hands over nothing and keeps all. */
  lemma NoPairNoLines(s: string)
    requires Free(s, "\r\n")
    ensures Process(s) == ([], s)
  {
    hide LastLineChar, Split;
  }

  /** And there is always such a place. */
  lemma LastPlace(s: string) returns (before: string, kept: string)
    requires '\r' in s || '\n' in s
    ensures s == before + kept && '\r' !in kept && '\n' !in kept
    ensures before != "" && (before[|before| - 1] == '\r' || before[|before| - 1] == '\n')
  {
    var n := LastLineChar(s);
    before, kept := s[..n + 1], s[n + 1..];
    assert forall i | 0 <= i < |kept| :: kept[i] == s[n + 1 + i];
  }

  // ----- When nothing is lost

  predicate NoLineChar(s: string) {
    forall i | 0 <= i < |s| :: !LineChar(s[i])
  }

  lemma LastLineCharOf(a: string, c: char, b: string)
    requires LineChar(c) && NoLineChar(b)
    ensures LastLineChar(a + [c] + b) == |a|
  {
    hide LastLineChar;
    var s := a + [c] + b;
    assert s[|a|] == c && s[|a| + 1..] == b;
    LastLineCharIs(s, |a|);
  }

  lemma LastLineCharIs(s: string, i: nat)
    requires i < |s| && LineChar(s[i]) && NoLineChar(s[i + 1..])
    ensures LastLineChar(s) == i
  {
    hide LastLineChar;
    forall k | i < k < |s|
      ensures !LineChar(s[k])
    {
      assert s[k] == s[i + 1..][k - i - 1];
    }
  }

  /** The pieces, if there are any, end in a line feed. */
  lemma JoinEnds(vec: seq<string>)
    requires vec != []
    ensures var j := Join(vec, CRLF); |j| >= 2 && j == j[..|j| - 1] + ['\n']
    decreases |vec|
  {
    if |vec| == 1 {
      assert Join(vec, CRLF) == vec[0] + CRLF + "";
    } else {
      JoinEnds(vec[1..]);
    }
  }

  /**
   * A callback loses nothing - its lines, joined again, and the bytes it keeps make up what it was
   * given - exactly when behind the last CRLF there is no lone carriage return or line feed, or there
   * is no CRLF at all.
   */
  lemma LosslessExactly(s: string)
    ensures var (lines, kept) := Process(s);
      Join(lines, CRLF) + kept == s <==> FindCRLF(s) ==> NoLineChar(Rest(s, CRLF))
    ensures (FindCRLF(s) ==> NoLineChar(Rest(s, CRLF))) ==> Process(s) == (Split(s, CRLF), Rest(s, CRLF))
  {
    hide Find, LastLineChar;
    JoinOfSplit(s, CRLF);
    var lines, rest := Split(s, CRLF), Rest(s, CRLF);
    if FindCRLF(s) {
      JoinEnds(lines);
      var j := Join(lines, CRLF);
      if NoLineChar(rest) {
        LastLineCharOf(j[..|j| - 1], '\n', rest);
        assert s == j[..|j| - 1] + ['\n'] + rest;
        assert s[|j|..] == rest;
      } else {
        var i :| 0 <= i < |rest| && LineChar(rest[i]);
        assert s[|j| + i] == rest[i];
        LastLineCharIsLast(s, |j| + i);
      }
    }
  }

  lemma LastLineCharIsLast(s: string, i: nat)
    requires i < |s| && LineChar(s[i])
    ensures LastLineChar(s) >= i
  {
  }

  /** A pair cut in two after a complete line costs the line in front of the cut. */
  lemma CutPairLosesLine(a: string, b: string)
    requires NoLineChar(a) && NoLineChar(b)
    ensures Process(a + CRLF + (b + "\r")) == ([a], "")
  {
    hide Find, LastLineChar;
    NoLineCharIsFree(a);
    NoLineCharIsFree(b);
    SplitFirst(a, b + "\r");
    FirstCrlf(a, b + "\r");
    OpenLine(b);
    var s := a + CRLF + (b + "\r");
    LastLineCharOf(a + CRLF + b, '\r', "");
    assert a + CRLF + b + ['\r'] + "" == s;
    assert [a] + [] == [a] && s[|s|..] == "";
  }

  lemma NoLineCharIsFree(s: string)
    requires NoLineChar(s)
    ensures Free(s, CRLF)
  {
    forall i | 0 <= i <= |s|
      ensures !OccursAt(s, CRLF, i)
    {
      OccursSlice(s, CRLF, i);
      if i + 2 <= |s| {
        assert s[i..i + 2][0] != '\r';
      }
    }
  }

  lemma OpenLine(b: string)
    requires NoLineChar(b)
    ensures Free(b + "\r", CRLF) && Split(b + "\r", CRLF) == []
  {
    var s := b + "\r";
    forall i | 0 <= i <= |s|
      ensures !OccursAt(s, CRLF, i)
    {
      OccursSlice(s, CRLF, i);
      if i + 2 <= |s| {
        assert s[i..i + 2][0] == b[i];
      }
    }
    NothingToSplit(s);
  }

  // ----- All callbacks of a connection

  function Concat(inputs: seq<string>): string {
    if inputs == [] then "" else inputs[0] + Concat(inputs[1..])
  }

  /** The inputs are what successive callbacks read: never more than the buffer has room for. */
  predicate Readable(kept: string, inputs: seq<string>)
    decreases |inputs|
  {
    && |kept| <= DATA_BUFFER_SIZE
    && (inputs != [] ==>
          |kept| + |inputs[0]| <= DATA_BUFFER_SIZE && Readable(Process(kept + inputs[0]).1, inputs[1..]))
  }

  /** What successive callbacks read of the data that arrives before each, and what stays unread. */
  function Chunks(kept: string, unread: string, arrivals: seq<string>): (seq<string>, string)
    requires |kept| <= DATA_BUFFER_SIZE
    decreases |arrivals|
  {
    if arrivals == [] then ([], unread)
    else
      var avail := unread + arrivals[0];
      var chunk := Take(avail, DATA_BUFFER_SIZE - |kept|);
      var (more, rest) := Chunks(Process(kept + chunk).1, avail[|chunk|..], arrivals[1..]);
      ([chunk] + more, rest)
  }

  /** However the data arrives, the chunks read fit the buffer and are the stream up to what stays unread. */
  lemma {:induction false} ChunksAreReadable(kept: string, unread: string, arrivals: seq<string>)
    requires |kept| <= DATA_BUFFER_SIZE
    ensures var (chunks, rest) := Chunks(kept, unread, arrivals);
      Readable(kept, chunks) && Concat(chunks) + rest == unread + Concat(arrivals)
    decreases |arrivals|
  {
    hide Process;
    if arrivals == [] {
      assert Concat([]) + unread == unread + Concat(arrivals);
    } else {
      var avail := unread + arrivals[0];
      var chunk := Take(avail, DATA_BUFFER_SIZE - |kept|);
      KeptIsShorter(kept + chunk);
      ChunksAreReadable(Process(kept + chunk).1, avail[|chunk|..], arrivals[1..]);
      var (more, rest) := Chunks(Process(kept + chunk).1, avail[|chunk|..], arrivals[1..]);
      assert ([chunk] + more)[1..] == more;
      assert chunk + (Concat(more) + rest) == chunk + Concat(more) + rest;
      assert avail == chunk + avail[|chunk|..];
      assert chunk + (avail[|chunk|..] + Concat(arrivals[1..])) == avail + Concat(arrivals[1..]);
      assert avail + Concat(arrivals[1..]) == unread + (arrivals[0] + Concat(arrivals[1..]));
    }
  }

  lemma KeptIsShorter(s: string)
    ensures |Process(s).1| <= |s|
  {
    hide Find, LastLineChar;
  }

  /** The lines handed over by all callbacks and the bytes kept at the end. */
  function Callbacks(kept: string, inputs: seq<string>): (seq<string>, string)
    requires Readable(kept, inputs)
    decreases |inputs|
  {
    if inputs == [] then ([], kept)
    else
      var (lines, kept1) := Process(kept + inputs[0]);
      var (more, last) := Callbacks(kept1, inputs[1..]);
      (lines + more, last)
  }

  /** No callback that meets a CRLF meets a lone line character behind the last one. */
  predicate NothingTorn(kept: string, inputs: seq<string>)
    decreases |inputs|
  {
    inputs != [] ==>
      var s := kept + inputs[0];
      (FindCRLF(s) ==> NoLineChar(Rest(s, CRLF))) && NothingTorn(Rest(s, CRLF), inputs[1..])
  }

  /** Splitting goes on where it stopped. */
  lemma SplitGoesOn(s: string, x: string)
    ensures Split(s + x, CRLF) == Split(s, CRLF) + Split(Rest(s, CRLF) + x, CRLF)
    ensures Rest(s + x, CRLF) == Rest(Rest(s, CRLF) + x, CRLF)
  {
    hide Find, Free, Split, Rest;
    JoinOfSplit(s, CRLF);
    SplitIsFree(s, CRLF);
    var j, r := Join(Split(s, CRLF), CRLF), Rest(s, CRLF);
    assert s + x == j + (r + x);
    SplitOfJoined(Split(s, CRLF), r + x);
  }

  lemma NothingToSplit(s: string)
    requires Free(s, CRLF)
    ensures Split(s, CRLF) == [] && Rest(s, CRLF) == s
  {
  }

  lemma {:induction false} JoinAppend(a: seq<string>, b: seq<string>)
    ensures Join(a + b, CRLF) == Join(a, CRLF) + Join(b, CRLF)
    decreases |a|
  {
    if a == [] {
      assert a + b == b;
    } else {
      assert (a + b)[0] == a[0] && (a + b)[1..] == a[1..] + b;
      JoinAppend(a[1..], b);
      assert a[0] + CRLF + (Join(a[1..], CRLF) + Join(b, CRLF)) == Join(a, CRLF) + Join(b, CRLF);
    }
  }

  /** A callback makes no bytes, and loses some unless it is lossless. */
  lemma ProcessSize(s: string)
    ensures var (lines, kept) := Process(s);
      && |Join(lines, CRLF)| + |kept| <= |s|
      && (|Join(lines, CRLF)| + |kept| == |s| ==> Join(lines, CRLF) + kept == s)
  {
    hide Find, LastLineChar, Split, Rest;
    JoinOfSplit(s, CRLF);
    if FindCRLF(s) {
      var j := Join(Split(s, CRLF), CRLF);
      SplitStep(s, CRLF);
      JoinEnds(Split(s, CRLF));
      assert s[|j| - 1] == '\n';
      LastLineCharIsLast(s, |j| - 1);
      var len := LastLineChar(s) + 1;
      assert s == s[..len] + s[len..];
      if |j| + |s[len..]| == |s| {
        assert s[..len] == j;
      }
    } else {
      JoinNone(CRLF, s);
    }
  }

  lemma {:induction false} CallbacksSize(kept: string, inputs: seq<string>)
    requires Readable(kept, inputs)
    ensures var (lines, last) := Callbacks(kept, inputs); |Join(lines, CRLF)| + |last| <= |kept| + |Concat(inputs)|
    decreases |inputs|
  {
    hide Process;
    if inputs != [] {
      var (lines, kept1) := Process(kept + inputs[0]);
      ProcessSize(kept + inputs[0]);
      CallbacksSize(kept1, inputs[1..]);
      JoinAppend(lines, Callbacks(kept1, inputs[1..]).0);
    }
  }

  /**
   * For any stream and any chunking of it: the lines handed over are the lines of the whole stream, and
   * what is kept is what follows its last CRLF, exactly if nothing is torn.
   */
  lemma {:induction false} CallbacksSplitTheStream(kept: string, inputs: seq<string>)
    requires Readable(kept, inputs) && Free(kept, CRLF)
    ensures Callbacks(kept, inputs) == (Split(kept + Concat(inputs), CRLF), Rest(kept + Concat(inputs), CRLF))
       <==> NothingTorn(kept, inputs)
    decreases |inputs|
  {
    hide Find, Free, Split, Rest, Process, NoLineChar;
    if inputs == [] {
      assert kept + Concat(inputs) == kept;
      NothingToSplit(kept);
    } else {
      var s, later := kept + inputs[0], Concat(inputs[1..]);
      assert kept + Concat(inputs) == s + later;
      SplitGoesOn(s, later);
      SplitIsFree(s, CRLF);
      LosslessExactly(s);
      var (lines, kept1) := Process(s);
      var (more, last) := Callbacks(kept1, inputs[1..]);
      if FindCRLF(s) ==> NoLineChar(Rest(s, CRLF)) {
        CallbacksSplitTheStream(Rest(s, CRLF), inputs[1..]);
        Cancel(Split(s, CRLF), more, Split(Rest(s, CRLF) + later, CRLF));
      } else {
        ProcessSize(s);
        CallbacksSize(kept1, inputs[1..]);
        JoinAppend(lines, more);
        JoinOfSplit(s + later, CRLF);
      }
    }
  }

  lemma Cancel(a: seq<string>, b: seq<string>, c: seq<string>)
    ensures a + b == a + c <==> b == c
  {
    assert (a + b)[|a|..] == b && (a + c)[|a|..] == c;
  }

  // ----- Messages

  /** Every carriage return is followed by a line feed and every line feed preceded by a carriage return. */
  predicate Paired(s: string) {
    && (forall i | 0 <= i < |s| && s[i] == '\r' :: i + 1 < |s| && s[i + 1] == '\n')
    && (forall i | 0 <= i < |s| && s[i] == '\n' :: i > 0 && s[i - 1] == '\r')
  }

  lemma PairedAppend(a: string, b: string)
    requires Paired(a) && Paired(b)
    ensures Paired(a + b)
  {
  }

  /** Lines without line characters, joined, come in pairs only. */
  lemma {:induction false} JoinedIsPaired(msgs: seq<string>, tail: string)
    requires NoLineChar(tail) && forall i | 0 <= i < |msgs| :: NoLineChar(msgs[i])
    ensures Paired(Join(msgs, CRLF) + tail)
    decreases |msgs|
  {
    hide Paired, NoLineChar;
    if msgs == [] {
      JoinNone(CRLF, tail);
      PlainIsPaired(tail);
    } else {
      JoinedIsPaired(msgs[1..], tail);
      assert msgs == [msgs[0]] + msgs[1..];
      JoinOne(msgs[0], msgs[1..], CRLF, tail);
      LineIsPaired(msgs[0]);
      PairedAppend(msgs[0] + CRLF, Join(msgs[1..], CRLF) + tail);
    }
  }

  lemma PlainIsPaired(s: string)
    requires NoLineChar(s)
    ensures Paired(s)
  {
  }

  lemma LineIsPaired(m: string)
    requires NoLineChar(m)
    ensures Paired(m + CRLF)
  {
    var s := m + CRLF;
    assert forall i | 0 <= i < |m| :: s[i] == m[i];
    assert s[|m|] == '\r' && s[|m| + 1] == '\n';
  }

  /** A cut that does not fall between a carriage return and its line feed leaves two paired parts. */
  lemma CutKeepsPaired(s: string, i: nat)
    requires Paired(s) && i <= |s| && (i > 0 ==> s[i - 1] != '\r')
    ensures Paired(s[..i]) && Paired(s[i..])
  {
    var b := s[i..];
    assert forall k | 0 <= k < |b| :: b[k] == s[i + k];
  }

  /** The chunk completes a line and ends inside the next pair. */
  predicate TearsPair(chunk: string) {
    '\n' in chunk && chunk[|chunk| - 1] == '\r'
  }

  /** In a stream that comes in pairs, a chunk completes a line exactly if there is a line feed in it. */
  lemma CompletesLine(kept: string, chunk: string, later: string)
    requires Paired(kept + chunk + later) && Free(kept, CRLF)
    ensures FindCRLF(kept + chunk) <==> '\n' in chunk
  {
    hide Find;
    var s := kept + chunk;
    var t := s + later;
    if FindCRLF(s) {
      FoundAt(s, CRLF);
      var j := Find(s, CRLF);
      assert s[j..j + 2][1] == s[j + 1];
      if j + 2 <= |kept| {
        assert kept[j..j + 2] == s[j..j + 2];
        OccursSlice(kept, CRLF, j);
      }
      assert s[j + 1] == chunk[j + 1 - |kept|];
    }
    if i :| 0 <= i < |chunk| && chunk[i] == '\n' {
      var p := |kept| + i;
      assert t[p] == '\n' && t[p - 1] == '\r';
      assert s[p - 1..p + 1] == CRLF;
      OccursSlice(s, CRLF, p - 1);
      assert OccursAt(s, CRLF, p - 1);
    }
  }

  lemma NoPairInside(r: string, i: nat)
    requires Free(r, CRLF) && i + 1 < |r|
    ensures !(r[i] == '\r' && r[i + 1] == '\n')
  {
    if r[i] == '\r' && r[i + 1] == '\n' {
      assert r[i..i + 2] == CRLF;
      OccursSlice(r, CRLF, i);
    }
  }

  /** A line character behind the last CRLF of such a stream's front part is a carriage return at its end. */
  lemma LoneIsLast(r: string, later: string, i: nat)
    requires Paired(r + later) && Free(r, CRLF) && i < |r| && LineChar(r[i])
    ensures i == |r| - 1 && r[i] == '\r'
  {
    hide Free;
    var t := r + later;
    assert t[i] == r[i];
    if r[i] == '\n' {
      assert t[i - 1] == r[i - 1] == '\r';
      NoPairInside(r, i - 1);
    } else if i + 1 < |r| {
      assert t[i + 1] == r[i + 1];
      NoPairInside(r, i);
    }
  }

  /** In such a stream the only line character that can stand alone is a carriage return at the cut. */
  lemma OnlyLastIsLone(s: string, later: string)
    requires Paired(s + later)
    ensures NoLineChar(Rest(s, CRLF)) <==> !(s != "" && s[|s| - 1] == '\r')
  {
    hide Find, Split, Rest, Free, Paired;
    JoinOfSplit(s, CRLF);
    SplitIsFree(s, CRLF);
    RestIsPaired(s, later);
    var vec, r := Split(s, CRLF), Rest(s, CRLF);
    if r != "" {
      assert s[|s| - 1] == r[|r| - 1];
    } else if vec != [] {
      JoinEnds(vec);
    }
    if i :| 0 <= i < |r| && LineChar(r[i]) {
      LoneIsLast(r, later, i);
    }
  }

  /** A stream that comes in pairs is torn exactly by a chunk that completes a line and ends inside a pair. */
  lemma {:induction false} TornExactly(kept: string, inputs: seq<string>)
    requires Paired(kept + Concat(inputs)) && Free(kept, CRLF)
    ensures NothingTorn(kept, inputs) <==> forall i | 0 <= i < |inputs| :: !TearsPair(inputs[i])
    decreases |inputs|
  {
    hide Find, Free, Split, Rest, NoLineChar, Paired, TearsPair;
    if inputs != [] {
      var s, later := kept + inputs[0], Concat(inputs[1..]);
      assert kept + Concat(inputs) == s + later;
      CompletesLine(kept, inputs[0], later);
      OnlyLastIsLone(s, later);
      TearsPairIs(kept, inputs[0]);
      RestIsPaired(s, later);
      SplitIsFree(s, CRLF);
      TornExactly(Rest(s, CRLF), inputs[1..]);
      assert forall i | 1 <= i < |inputs| :: inputs[i] == inputs[1..][i - 1];
      assert inputs == [inputs[0]] + inputs[1..];
    }
  }

  lemma TearsPairIs(kept: string, chunk: string)
    ensures TearsPair(chunk) <==> '\n' in chunk && kept + chunk != "" && (kept + chunk)[|kept + chunk| - 1] == '\r'
  {
  }

  lemma RestIsPaired(s: string, later: string)
    requires Paired(s + later)
    ensures Paired(Rest(s, CRLF) + later)
  {
    hide Find, Split, Rest, Paired;
    JoinOfSplit(s, CRLF);
    var vec := Split(s, CRLF);
    var j, r := Join(vec, CRLF), Rest(s, CRLF);
    if vec == [] {
      JoinNone(CRLF, r);
    } else {
      JoinEnds(vec);
      var t := s + later;
      assert t == j + (r + later) && t[|j| - 1] == '\n';
      CutKeepsPaired(t, |j|);
      assert t[|j|..] == r + later;
    }
  }

  /**
   * Messages without line characters, sent with CRLF behind each, are handed over exactly, in order,
   * with an unfinished one kept, if and only if no chunk read both completes a line and ends inside a
   * pair. A pair cut anywhere else does no harm.
   */
  lemma MessagesArrive(msgs: seq<string>, tail: string, inputs: seq<string>)
    requires NoLineChar(tail) && forall i | 0 <= i < |msgs| :: NoLineChar(msgs[i])
    requires Concat(inputs) == Join(msgs, CRLF) + tail && Readable("", inputs)
    ensures Callbacks("", inputs) == (msgs, tail) <==> forall i | 0 <= i < |inputs| :: !TearsPair(inputs[i])
  {
    hide Split, Rest, Callbacks, NoLineChar, Free, Readable, Paired, TearsPair, NothingTorn;
    assert "" + Concat(inputs) == Concat(inputs);
    NoLineCharIsFree(tail);
    EmptyIsFree();
    JoinedIsPaired(msgs, tail);
    CallbacksSplitTheStream("", inputs);
    TornExactly("", inputs);
    forall i | 0 <= i < |msgs|
      ensures Free(msgs[i], CRLF)
    {
      NoLineCharIsFree(msgs[i]);
    }
    SplitOfJoined(msgs, tail);
    NothingToSplit(tail);
    assert msgs + [] == msgs;
  }

  lemma EmptyIsFree()
    ensures Free("", CRLF)
  {
  }
}
