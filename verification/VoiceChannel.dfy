// The voice channel table: which device a client talks to, and which clients each device serves.
module VoiceChannel {
  import opened Machine

  datatype ClientVcInfo = ClientVcInfo(clientId: string, clientFd: int, devId: string)
  datatype DevVcInfo = DevVcInfo(devId: string, devFd: int, clientId: string)

  /** Why a route is refused. */
  datatype Route = ClientInvalid | DevInvalid | To(devFd: int)

  /** The multimap of devices: for each device its entries, oldest first. */
  type DevMap = map<string, seq<DevVcInfo>>

  datatype Table = Table(clients: map<string, ClientVcInfo>, devs: DevMap)

  // ----- Looking up

  function EqualRange(devs: DevMap, devId: string): seq<DevVcInfo> {
    if devId in devs then devs[devId] else []
  }

  /** The first entry for the client, or the length if there is none. */
  function IndexOf(entries: seq<DevVcInfo>, clientId: string): (r: nat)
    ensures r <= |entries|
    ensures r < |entries| ==> entries[r].clientId == clientId
    ensures forall i | 0 <= i < r :: entries[i].clientId != clientId
  {
    if entries == [] || entries[0].clientId == clientId then 0 else 1 + IndexOf(entries[1..], clientId)
  }

  /** The first entry for the client. */
  function First(entries: seq<DevVcInfo>, clientId: string): Option<DevVcInfo> {
    var i := IndexOf(entries, clientId);
    if i < |entries| then Some(entries[i]) else None
  }

  function Without(entries: seq<DevVcInfo>, clientId: string): seq<DevVcInfo> {
    var i := IndexOf(entries, clientId);
    if i < |entries| then entries[..i] + entries[i + 1..] else entries
  }

  // ----- What the operations do to the table

  function ConnectClient(t: Table, clientId: string, info: ClientVcInfo): Table {
    t.(clients := t.clients[clientId := info])
  }

  /** An earlier entry of the pair stays: only its connection is freed. */
  function ConnectDev(t: Table, devId: string, info: DevVcInfo): Table {
    t.(devs := t.devs[devId := EqualRange(t.devs, devId) + [info]])
  }

  function DropClient(t: Table, clientId: string, devId: string): Table {
    if clientId in t.clients && t.clients[clientId].devId == devId then t.(clients := t.clients - {clientId}) else t
  }

  function DropDev(t: Table, clientId: string, devId: string): Table {
    if devId in t.devs then t.(devs := t.devs[devId := Without(t.devs[devId], clientId)]) else t
  }

  function RouteOf(t: Table, clientId: string, devId: string): Route {
    if clientId !in t.clients || t.clients[clientId].devId != devId then ClientInvalid
    else
      match First(EqualRange(t.devs, devId), clientId)
      case None => DevInvalid
      case Some(entry) => To(entry.devFd)
  }

  // ----- The manager as an object

  class VoiceChannelManager {
    var clientVcMap: map<string, ClientVcInfo>
    var devVcMap: DevMap

    function View(): Table
      reads this
    {
      Table(clientVcMap, devVcMap)
    }

    constructor ()
      ensures View() == Table(map[], map[])
    {
      clientVcMap, devVcMap := map[], map[];
    }

    method ConnectByClient(clientId: string, info: ClientVcInfo)
      modifies this
      ensures View() == old(ConnectClient(View(), clientId, info))
    {
      if clientId in clientVcMap {
        clientVcMap := clientVcMap - {clientId};
      }
      clientVcMap := clientVcMap[clientId := info];
    }

    /** The result is the entry whose connection is freed, if the pair was there before. */
    method ConnectByDev(devId: string, info: DevVcInfo) returns (freed: Option<DevVcInfo>)
      modifies this
      ensures View() == old(ConnectDev(View(), devId, info))
      ensures freed == First(old(EqualRange(devVcMap, devId)), info.clientId)
    {
      freed := None;
      var entries := EqualRange(devVcMap, devId);
      var i := FindClient(entries, info.clientId);
      if i < |entries| {
        freed := Some(entries[i]);
      }
      devVcMap := devVcMap[devId := entries + [info]];
    }

    /** The search loop over the entries of one device. */
    static method FindClient(entries: seq<DevVcInfo>, clientId: string) returns (i: nat)
      ensures i == IndexOf(entries, clientId)
    {
      i := 0;
      while i < |entries| && entries[i].clientId != clientId
        invariant i <= |entries| && IndexOf(entries, clientId) == i + IndexOf(entries[i..], clientId)
      {
        assert entries[i..][1..] == entries[i + 1..];
        i := i + 1;
      }
    }

    method DisconnectByClient(clientId: string, devId: string)
      modifies this
      ensures View() == old(DropDev(DropClient(View(), clientId, devId), clientId, devId))
    {
      if clientId in clientVcMap && clientVcMap[clientId].devId == devId {
        clientVcMap := clientVcMap - {clientId};
      }
      if devId in devVcMap {
        var entries := devVcMap[devId];
        var i := FindClient(entries, clientId);
        if i < |entries| {
          devVcMap := devVcMap[devId := entries[..i] + entries[i + 1..]];
        }
        assert devVcMap == old(DropDev(View(), clientId, devId).devs);
      }
    }

    method DisconnectByDev(devId: string, clientId: string)
      modifies this
      ensures View() == old(DropClient(DropDev(View(), clientId, devId), clientId, devId))
    {
      if devId in devVcMap {
        var entries := devVcMap[devId];
        var i := FindClient(entries, clientId);
        if i < |entries| {
          devVcMap := devVcMap[devId := entries[..i] + entries[i + 1..]];
        }
        assert devVcMap == old(DropDev(View(), clientId, devId).devs);
      }
      if clientId in clientVcMap && clientVcMap[clientId].devId == devId {
        clientVcMap := clientVcMap - {clientId};
      }
    }

    method RouteClientToDev(clientId: string, devId: string) returns (route: Route)
      ensures route == RouteOf(View(), clientId, devId)
    {
      if clientId !in clientVcMap || clientVcMap[clientId].devId != devId {
        return ClientInvalid;
      }
      var entries := EqualRange(devVcMap, devId);
      var i := FindClient(entries, clientId);
      route := if i == |entries| then DevInvalid else To(entries[i].devFd);
    }
  }

  // ----- What the table promises

  /** Both sides hang up the same way. */
  lemma DisconnectIsSymmetric(t: Table, clientId: string, devId: string)
    ensures DropDev(DropClient(t, clientId, devId), clientId, devId) == DropClient(DropDev(t, clientId, devId), clientId, devId)
  {
  }

  lemma WithoutUnfolds(entries: seq<DevVcInfo>, gone: string)
    requires entries != []
    ensures Without(entries, gone)
         == if entries[0].clientId == gone then entries[1..] else [entries[0]] + Without(entries[1..], gone)
  {
    var i := IndexOf(entries[1..], gone);
    if entries[0].clientId != gone && i < |entries| - 1 {
      assert entries[..i + 1] + entries[i + 2..] == [entries[0]] + (entries[1..][..i] + entries[1..][i + 1..]);
    }
  }

  lemma FirstAfterHead(head: DevVcInfo, tail: seq<DevVcInfo>, clientId: string)
    ensures First([head] + tail, clientId) == if head.clientId == clientId then Some(head) else First(tail, clientId)
  {
    assert ([head] + tail)[1..] == tail;
  }

  /** The entry found for another client is the same after one is erased. */
  lemma {:induction false} WithoutKeepsOthers(entries: seq<DevVcInfo>, gone: string, clientId: string)
    requires clientId != gone
    ensures First(Without(entries, gone), clientId) == First(entries, clientId)
  {
    if entries != [] {
      hide Without, First;
      var head, tail := entries[0], entries[1..];
      WithoutUnfolds(entries, gone);
      assert entries == [head] + tail;
      FirstAfterHead(head, tail, clientId);
      if head.clientId != gone {
        WithoutKeepsOthers(tail, gone, clientId);
        FirstAfterHead(head, Without(tail, gone), clientId);
      }
    }
  }

  /** After either disconnect the pair has no route, and every other pair has the route it had. */
  lemma DisconnectSpec(t: Table, clientId: string, devId: string, c: string, d: string)
    ensures var after := DropDev(DropClient(t, clientId, devId), clientId, devId);
      if c == clientId && d == devId then RouteOf(after, c, d) == ClientInvalid
      else RouteOf(after, c, d) == RouteOf(t, c, d)
  {
    hide First, Without;
    if d == devId && c != clientId {
      WithoutKeepsOthers(EqualRange(t.devs, d), clientId, c);
    }
  }

  lemma {:induction false} IndexInLonger(entries: seq<DevVcInfo>, info: DevVcInfo, clientId: string)
    ensures var i, j := IndexOf(entries, clientId), IndexOf(entries + [info], clientId);
      j == if i < |entries| || info.clientId == clientId then i else i + 1
  {
    if entries != [] && entries[0].clientId != clientId {
      assert (entries + [info])[1..] == entries[1..] + [info];
      IndexInLonger(entries[1..], info, clientId);
    } else if entries == [] {
      assert (entries + [info]) == [info];
    }
  }

  /**
   * Once both sides of a pair have connected, in either order, the client is routed to that device -
   * to the descriptor of the first entry the pair ever left, so to the new one exactly when there was
   * no earlier entry with another descriptor.
   */
  lemma ConnectSpec(t: Table, client: ClientVcInfo, dev: DevVcInfo)
    requires client.devId == dev.devId && client.clientId == dev.clientId
    ensures var after := ConnectDev(ConnectClient(t, client.clientId, client), dev.devId, dev);
      var entries := EqualRange(t.devs, dev.devId);
      var i := IndexOf(entries, dev.clientId);
      && after == ConnectClient(ConnectDev(t, dev.devId, dev), client.clientId, client)
      && RouteOf(after, client.clientId, dev.devId) == To(if i < |entries| then entries[i].devFd else dev.devFd)
      && (RouteOf(after, client.clientId, dev.devId) == To(dev.devFd) <==> i == |entries| || entries[i].devFd == dev.devFd)
  {
    IndexInLonger(EqualRange(t.devs, dev.devId), dev, dev.clientId);
  }

  /** Connecting a pair changes no route of another client. */
  lemma ConnectKeepsOthers(t: Table, client: ClientVcInfo, dev: DevVcInfo, c: string, d: string)
    requires client.clientId == dev.clientId && c != client.clientId
    ensures RouteOf(ConnectDev(ConnectClient(t, client.clientId, client), dev.devId, dev), c, d) == RouteOf(t, c, d)
  {
    if d == dev.devId {
      IndexInLonger(EqualRange(t.devs, d), dev, c);
    }
  }

  // ----- How often a pair has to hang up

  /** The entries of the device that are the client's. */
  function Count(entries: seq<DevVcInfo>, clientId: string): nat {
    if entries == [] then 0
    else (if entries[0].clientId == clientId then 1 else 0) + Count(entries[1..], clientId)
  }

  lemma {:induction false} FoundExactly(entries: seq<DevVcInfo>, clientId: string)
    ensures First(entries, clientId) == None <==> Count(entries, clientId) == 0
  {
    if entries != [] {
      hide First;
      assert entries == [entries[0]] + entries[1..];
      FirstAfterHead(entries[0], entries[1..], clientId);
      FoundExactly(entries[1..], clientId);
    }
  }

  lemma {:induction false} WithoutCounts(entries: seq<DevVcInfo>, clientId: string)
    ensures Count(Without(entries, clientId), clientId)
         == if Count(entries, clientId) == 0 then 0 else Count(entries, clientId) - 1
  {
    if entries != [] {
      hide Without;
      WithoutUnfolds(entries, clientId);
      if entries[0].clientId != clientId {
        WithoutCounts(entries[1..], clientId);
        assert ([entries[0]] + Without(entries[1..], clientId))[1..] == Without(entries[1..], clientId);
      }
    }
  }

  /** At most one entry, told without counting. */
  lemma {:induction false} CountIsAtMostOne(entries: seq<DevVcInfo>, clientId: string)
    ensures Count(entries, clientId) == 0 <==> forall i | 0 <= i < |entries| :: entries[i].clientId != clientId
    ensures Count(entries, clientId) <= 1
       <==> forall i, j | 0 <= i < j < |entries| :: !(entries[i].clientId == clientId && entries[j].clientId == clientId)
  {
    if entries != [] {
      var tail := entries[1..];
      CountIsAtMostOne(tail, clientId);
      assert forall i | 1 <= i < |entries| :: entries[i] == tail[i - 1];
      assert forall i | 0 <= i < |tail| :: tail[i] == entries[i + 1];
    }
  }

  /** Erasing one entry leaves none for the client exactly if no two were the client's. */
  lemma OneErasureClears(entries: seq<DevVcInfo>, clientId: string)
    ensures First(Without(entries, clientId), clientId) == None
       <==> forall i, j | 0 <= i < j < |entries| :: !(entries[i].clientId == clientId && entries[j].clientId == clientId)
  {
    hide First, Without, Count;
    FoundExactly(Without(entries, clientId), clientId);
    WithoutCounts(entries, clientId);
    CountIsAtMostOne(entries, clientId);
  }

  /** The table after the pair has hung up n times, by whichever side. */
  function HungUp(t: Table, clientId: string, devId: string, n: nat): Table
    decreases n
  {
    if n == 0 then t else HungUp(DropDev(DropClient(t, clientId, devId), clientId, devId), clientId, devId, n - 1)
  }

  lemma {:induction false} HungUpCounts(t: Table, clientId: string, devId: string, n: nat)
    ensures var before := Count(EqualRange(t.devs, devId), clientId);
      Count(EqualRange(HungUp(t, clientId, devId, n).devs, devId), clientId) == if n >= before then 0 else before - n
    decreases n
  {
    if n != 0 {
      hide Without, Count;
      NoneToCount(clientId);
      WithoutCounts(EqualRange(t.devs, devId), clientId);
      HungUpCounts(DropDev(DropClient(t, clientId, devId), clientId, devId), clientId, devId, n - 1);
    }
  }

  lemma NoneToCount(clientId: string)
    ensures Count([], clientId) == 0
  {
  }

  /**
   * For every table: a client that comes back after the pair hung up n times finds no device exactly if
   * the device had left at most n entries for it.
   */
  lemma HangUpsNeeded(t: Table, client: ClientVcInfo, n: nat)
    ensures var c, d := client.clientId, client.devId;
      (RouteOf(ConnectClient(HungUp(t, c, d, n), c, client), c, d) == DevInvalid)
        <==> Count(EqualRange(t.devs, d), c) <= n
  {
    hide First, Count, HungUp;
    var c, d := client.clientId, client.devId;
    HungUpCounts(t, c, d, n);
    FoundExactly(EqualRange(HungUp(t, c, d, n).devs, d), c);
  }

  /** So one disconnect clears the pair exactly if no two of the device's entries are the client's. */
  lemma OneDisconnectClears(t: Table, client: ClientVcInfo)
    ensures var c, d := client.clientId, client.devId;
      var entries := EqualRange(t.devs, d);
      (RouteOf(ConnectClient(DropDev(DropClient(t, c, d), c, d), c, client), c, d) == DevInvalid)
        <==> (forall i, j | 0 <= i < j < |entries| :: !(entries[i].clientId == c && entries[j].clientId == c))
  {
    hide First, Count, DropDev;
    var c, d := client.clientId, client.devId;
    HangUpsNeeded(t, client, 1);
    OneIsOnce(t, c, d);
    CountIsAtMostOne(EqualRange(t.devs, d), c);
  }

  lemma OneIsOnce(t: Table, clientId: string, devId: string)
    ensures HungUp(t, clientId, devId, 1) == DropDev(DropClient(t, clientId, devId), clientId, devId)
  {
    hide DropDev;
    assert HungUp(t, clientId, devId, 1) == HungUp(DropDev(DropClient(t, clientId, devId), clientId, devId), clientId, devId, 0);
  }

  lemma {:induction false} FirstJoin(a: seq<DevVcInfo>, b: seq<DevVcInfo>, clientId: string)
    requires First(a, clientId) == None
    ensures First(a + b, clientId) == First(b, clientId)
    ensures Without(a + b, clientId) == a + Without(b, clientId)
    decreases |a|
  {
    hide First, Without;
    if a == [] {
      assert a + b == b && a + Without(b, clientId) == Without(b, clientId);
    } else {
      var head, tail := a[0], a[1..];
      assert a == [head] + tail && a + b == [head] + (tail + b) && (a + b)[1..] == tail + b;
      FirstAfterHead(head, tail, clientId);
      FirstAfterHead(head, tail + b, clientId);
      FirstJoin(tail, b, clientId);
      WithoutUnfolds(a + b, clientId);
      assert [head] + (tail + Without(b, clientId)) == a + Without(b, clientId);
    }
  }

  lemma OnlyEntry(dev: DevVcInfo, more: seq<DevVcInfo>)
    ensures First([dev] + more, dev.clientId) == Some(dev) && Without([dev] + more, dev.clientId) == more
  {
    FirstAfterHead(dev, more, dev.clientId);
    WithoutUnfolds([dev] + more, dev.clientId);
  }

  /** A device that reconnects and then hangs up once leaves its newer entry behind. */
  lemma ReconnectNeedsTwoDisconnects(t: Table, client: ClientVcInfo, dev1: DevVcInfo, dev2: DevVcInfo)
    requires dev1.devId == dev2.devId == client.devId && dev1.clientId == dev2.clientId == client.clientId
    requires First(EqualRange(t.devs, dev1.devId), dev1.clientId) == None
    ensures var c, d := client.clientId, client.devId;
      var twice := ConnectDev(ConnectDev(t, d, dev1), d, dev2);
      var hungUp := DropClient(DropDev(twice, c, d), c, d);
      && RouteOf(ConnectClient(twice, c, client), c, d) == To(dev1.devFd)
      && RouteOf(ConnectClient(hungUp, c, client), c, d) == To(dev2.devFd)
  {
    hide First, Without;
    var c, d := client.clientId, client.devId;
    var entries := EqualRange(t.devs, d);
    FirstJoin(entries, [dev1] + [dev2], c);
    FirstJoin(entries, [dev2] + [], c);
    OnlyEntry(dev1, [dev2]);
    OnlyEntry(dev2, []);
    assert entries + [dev1] + [dev2] == entries + ([dev1] + [dev2]);
    assert [dev2] + [] == [dev2];
  }
}
