/** The registry of connected and disconnected stores (DataSync/SocketServer.cpp, DataSync/HandlerClientSocket.cpp). */
module StoreRegistry {
  import opened StoreCodes

  const MSG_TYPE_STORECODE := 101
  const MSG_TYPE_BINLOG := 102
  const MSG_TYPE_HEART_BEAT := 104

  const HEARTBEAT_TIMEOUT := 18

  datatype Message = Message(header: int, data: string)

  /** A retry handed to the message queue. */
  datatype Push = Push(store: string, data: string)

  /** One client by value: its store, the time of its last heartbeat and what was sent to its socket. */
  datatype Client = Client(id: string, heartbeat: int, sent: seq<Message>) {
    function Sent(m: Message): Client {
      this.(sent := sent + [m])
    }
  }

  datatype Registry = Registry(clients: seq<Client>, disconnected: seq<string>, pushed: seq<Push>)

  /** What checkSocketState and time report for one client during a heartbeat. */
  datatype Probe = Probe(alive: bool, now: int)

  // ---- the operations on values ----------------------------------------------------------

  function CString(s: string): string {
    s[..NulAt(s)]
  }

  function NulAt(s: string): (n: nat)
    ensures n <= |s| && NUL !in s[..n] && (n < |s| ==> s[n] == NUL)
  {
    if s == "" || s[0] == NUL then 0 else
      var n := NulAt(s[1..]);
      assert s[..n + 1] == [s[0]] + s[1..][..n];
      n + 1
  }

  /** The first client whose id is the code, both as C strings. */
  function FirstWith(clients: seq<Client>, code: string): (k: nat)
    ensures k <= |clients|
    ensures k < |clients| ==> CString(clients[k].id) == CString(code)
    ensures forall i :: 0 <= i < k ==> CString(clients[i].id) != CString(code)
  {
    if clients == [] || CString(clients[0].id) == CString(code) then 0 else 1 + FirstWith(clients[1..], code)
  }

  function RemoveFirst(stores: seq<string>, id: string): seq<string> {
    if stores == [] then [] else if stores[0] == id then stores[1..] else [stores[0]] + RemoveFirst(stores[1..], id)
  }

  /** Whom a message of type 2 or 3 is for. */
  datatype Address = Listed(codes: seq<string>) | Everyone {
    predicate Accepts(id: string) {
      match this
      case Listed(codes) => id in codes
      case Everyone => true
    }
  }

  function SendWhere(clients: seq<Client>, to: Address, m: Message): (r: seq<Client>)
    ensures |r| == |clients|
  {
    seq(|clients|, i requires 0 <= i < |clients| =>
      if to.Accepts(clients[i].id) then clients[i].Sent(m) else clients[i])
  }

  function PushWhere(stores: seq<string>, to: Address, data: string): seq<Push> {
    if stores == [] then []
    else
      var last := |stores| - 1;
      PushWhere(stores[..last], to, data) + if to.Accepts(stores[last]) then [Push(stores[last], data)] else []
  }

  /** Type 1: the first client with the code, compared as C strings, and the disconnected store with the code. */
  function DispatchToOne(r: Registry, m: Message, code: string): Registry {
    var k := FirstWith(r.clients, code);
    Registry(
      if k < |r.clients| then r.clients[k := r.clients[k].Sent(m)] else r.clients,
      r.disconnected,
      if code in r.disconnected then r.pushed + [Push(code, m.data)] else r.pushed)
  }

  function DispatchWhere(r: Registry, m: Message, to: Address): Registry {
    r.(clients := SendWhere(r.clients, to, m), pushed := r.pushed + PushWhere(r.disconnected, to, m.data))
  }

  function Dispatch(r: Registry, m: Message, kind: string, code: string): Registry {
    if kind == "1" then DispatchToOne(r, m, code)
    else if kind == "2" then DispatchWhere(r, m, Listed(Codes(code)))
    else if kind == "3" then DispatchWhere(r, m, Everyone)
    else r
  }

  /** dispatchOneMessage: one client, or one retry whatever the store. */
  function DispatchOne(r: Registry, m: Message, kind: string, code: string): Registry {
    if kind != "1" then r
    else
      var k := FirstWith(r.clients, code);
      if k < |r.clients| then r.(clients := r.clients[k := r.clients[k].Sent(m)])
      else r.(pushed := r.pushed + [Push(code, m.data)])
  }

  predicate Expired(c: Client, p: Probe) {
    !p.alive || p.now - c.heartbeat > HEARTBEAT_TIMEOUT
  }

  const HELLO := Message(MSG_TYPE_HEART_BEAT, "hello")

  /** One round of heartbeats: expired clients go, their stores join the disconnected ones; the others are greeted. */
  function Beat(clients: seq<Client>, probes: seq<Probe>, stores: seq<string>): (seq<Client>, seq<string>)
    requires |probes| == |clients|
  {
    if clients == [] then ([], stores)
    else
      var c := clients[0];
      if Expired(c, probes[0]) then
        Beat(clients[1..], probes[1..], if c.id != "" then stores + [c.id] else stores)
      else
        var rest := Beat(clients[1..], probes[1..], RemoveFirst(stores, c.id));
        ([c.Sent(HELLO)] + rest.0, rest.1)
  }

  function Heartbeat(r: Registry, probes: seq<Probe>): Registry
    requires |probes| == |r.clients|
  {
    var after := Beat(r.clients, probes, r.disconnected);
    Registry(after.0, after.1, r.pushed)
  }

  predicate HasId(clients: seq<Client>, id: string) {
    exists i :: 0 <= i < |clients| && clients[i].id == id
  }

  /** handlerMessage of client number i, and whether it accepts the message. */
  function Receive(r: Registry, i: nat, code: int, text: string, now: int): (Registry, bool)
    requires i < |r.clients|
  {
    var c := r.clients[i];
    if code == MSG_TYPE_STORECODE then
      if text == "" || HasId(r.clients, text) then (r, false)
      else
        (r.(clients := r.clients[i := c.(id := text, heartbeat := now)],
            disconnected := RemoveFirst(r.disconnected, text)), true)
    else if code == MSG_TYPE_HEART_BEAT then (r.(clients := r.clients[i := c.(heartbeat := now)]), true)
    else (r, code != MSG_TYPE_BINLOG || text != "")
  }

  // ---- the program ------------------------------------------------------------------------

  class HandlerClientSocket {
    var clientId: string
    var lastHeartbeatTimestamp: int
    /** Every message given to sendMessage; whether the socket takes it is up to the network. */
    var sent: seq<Message>

    function Value(): Client
      reads this
    {
      Client(clientId, lastHeartbeatTimestamp, sent)
    }

    constructor (now: int)
      ensures Value() == Client("", now, [])
    {
      clientId, lastHeartbeatTimestamp, sent := "", now, [];
    }

    method SendMessage(m: Message)
      modifies this`sent
      ensures sent == old(sent) + [m]
    {
      sent := sent + [m];
    }

    predicate CmpClientId(code: string)
      reads this
    {
      CString(code) == CString(clientId)
    }

    method HandlerMessage(server: SocketServer, ghost i: nat, code: int, text: string, now: int) returns (ok: bool)
      requires server.Valid() && i < |server.clients| && server.clients[i] == this
      modifies this, server
      ensures server.Valid() && server.clients == old(server.clients)
      ensures (server.Value(), ok) == Receive(old(server.Value()), i, code, text, now)
    {
      if code == MSG_TYPE_STORECODE {
        if text == "" {
          return false;
        }
        var taken := server.CheckClientsIdExist(text);
        if taken {
          return false;
        }
        lastHeartbeatTimestamp := now;
        clientId := text;
        server.RemoveDisconnectStore(text);
        assert server.Values() == old(server.Values())[i := Value()];
      } else if code == MSG_TYPE_HEART_BEAT {
        lastHeartbeatTimestamp := now;
        assert server.Values() == old(server.Values())[i := Value()];
      } else if code == MSG_TYPE_BINLOG && text == "" {
        return false;
      }
      ok := true;
    }
  }

  class SocketServer {
    var clients: seq<HandlerClientSocket>
    var disconnectStore: seq<string>
    var pushed: seq<Push>

    /** No handler is in the list twice. */
    predicate Valid()
      reads this
    {
      forall i, j :: 0 <= i < j < |clients| ==> clients[i] != clients[j]
    }

    function Values(): (v: seq<Client>)
      reads this, clients
      ensures |v| == |clients| && forall i :: 0 <= i < |v| ==> v[i] == clients[i].Value()
    {
      seq(|clients|, i requires 0 <= i < |clients| reads this, clients => clients[i].Value())
    }

    function Value(): Registry
      reads this, clients
    {
      Registry(Values(), disconnectStore, pushed)
    }

    constructor ()
      ensures Valid() && Value() == Registry([], [], [])
    {
      clients, disconnectStore, pushed := [], [], [];
    }

    method AddClient(client: HandlerClientSocket)
      requires Valid() && client !in clients
      modifies this`clients
      ensures Valid() && clients == old(clients) + [client]
      ensures Value() == old(Value()).(clients := old(Values()) + [client.Value()])
    {
      clients := clients + [client];
    }

    method CheckClientsIdExist(id: string) returns (found: bool)
      ensures found == HasId(Values(), id)
    {
      for i := 0 to |clients|
        invariant forall k :: 0 <= k < i ==> Values()[k].id != id
      {
        if clients[i].clientId == id {
          assert Values()[i].id == id;
          return true;
        }
      }
      found := false;
    }

    method RemoveDisconnectStore(storeId: string)
      modifies this`disconnectStore
      ensures disconnectStore == RemoveFirst(old(disconnectStore), storeId)
    {
      for i := 0 to |disconnectStore|
        invariant disconnectStore == old(disconnectStore)
        invariant RemoveFirst(disconnectStore, storeId)
               == disconnectStore[..i] + RemoveFirst(disconnectStore[i..], storeId)
      {
        if disconnectStore[i] == storeId {
          disconnectStore := disconnectStore[..i] + disconnectStore[i + 1..];
          return;
        }
      }
    }

    method DealSendFailed(storeCode: string, data: string)
      modifies this`pushed
      ensures pushed == old(pushed) + [Push(storeCode, data)]
    {
      pushed := pushed + [Push(storeCode, data)];
    }

    /** The form of dealDisconnectStoreData for one store. */
    method DealDisconnectStore(storeId: string, data: string)
      modifies this`pushed
      ensures pushed == if storeId in disconnectStore then old(pushed) + [Push(storeId, data)] else old(pushed)
    {
      for i := 0 to |disconnectStore|
        invariant storeId !in disconnectStore[..i] && pushed == old(pushed)
      {
        if storeId == disconnectStore[i] {
          DealSendFailed(disconnectStore[i], data);
          break;
        }
      }
    }

    /** The forms of dealDisconnectStoreData for a list of stores and for all of them. */
    method DealDisconnectStores(to: Address, data: string)
      modifies this`pushed
      ensures pushed == old(pushed) + PushWhere(disconnectStore, to, data)
    {
      for i := 0 to |disconnectStore|
        invariant pushed == old(pushed) + PushWhere(disconnectStore[..i], to, data)
      {
        assert disconnectStore[..i + 1][..i] == disconnectStore[..i];
        if to.Accepts(disconnectStore[i]) {
          DealSendFailed(disconnectStore[i], data);
        }
      }
      assert disconnectStore[..|disconnectStore|] == disconnectStore;
    }

    /** The loop of types 2 and 3 over the clients. */
    method SendToClients(to: Address, m: Message)
      requires Valid()
      modifies clients
      ensures Values() == SendWhere(old(Values()), to, m)
    {
      for i := 0 to |clients|
        invariant forall k :: 0 <= k < i ==> clients[k].Value() == SendWhere(old(Values()), to, m)[k]
        invariant forall k :: i <= k < |clients| ==> clients[k].Value() == old(Values())[k]
      {
        if to.Accepts(clients[i].clientId) {
          clients[i].SendMessage(m);
        }
      }
    }

    /** The loop of type 1: where it stops. */
    method SendToFirst(m: Message, code: string) returns (k: nat)
      requires Valid()
      modifies clients
      ensures k == FirstWith(old(Values()), code)
      ensures Values() == if k < |clients| then old(Values())[k := old(Values())[k].Sent(m)] else old(Values())
    {
      k := 0;
      while k < |clients|
        invariant k <= |clients| && Values() == old(Values())
        invariant forall i :: 0 <= i < k ==> CString(old(Values())[i].id) != CString(code)
      {
        if clients[k].CmpClientId(code) {
          clients[k].SendMessage(m);
          break;
        }
        k := k + 1;
      }
    }

    method DispatchMessage(m: Message, kind: string, storeCode: string)
      requires Valid()
      modifies this, clients
      ensures Valid() && clients == old(clients)
      ensures Value() == Dispatch(old(Value()), m, kind, storeCode)
    {
      hide FirstWith, CString, Codes;
      if kind == "1" {
        var _ := SendToFirst(m, storeCode);
        DealDisconnectStore(storeCode, m.data);
      } else if kind == "2" {
        var codes := SplitStrToVector(storeCode);
        SendToClients(Listed(codes), m);
        DealDisconnectStores(Listed(codes), m.data);
      } else if kind == "3" {
        SendToClients(Everyone, m);
        DealDisconnectStores(Everyone, m.data);
      }
    }

    method DispatchOneMessage(m: Message, kind: string, storeCode: string)
      requires Valid()
      modifies this, clients
      ensures Valid() && clients == old(clients)
      ensures Value() == DispatchOne(old(Value()), m, kind, storeCode)
    {
      hide FirstWith, CString, Codes;
      if kind == "1" {
        var k := SendToFirst(m, storeCode);
        if k == |clients| {
          DealSendFailed(storeCode, m.data);
        }
      }
    }

    /** Whether the clients from position `it` on are still as they were. */
    ghost predicate Untouched(it: nat, rest: seq<HandlerClientSocket>, values: seq<Client>)
      reads this, clients
    {
      && it <= |clients| && clients[it..] == rest && |values| == |rest|
      && forall k :: it <= k < |clients| ==> clients[k].Value() == values[k - it]
    }

    method SendHeartbeat(probes: seq<Probe>)
      requires Valid() && |probes| == |clients|
      modifies this, clients
      ensures Valid() && forall c <- clients :: c in old(clients)
      ensures Value() == Heartbeat(old(Value()), probes)
    {
      ghost var all, values := clients, Values();
      var seen, it: nat := 0, 0;
      while it < |clients|
        invariant seen <= |all| && Untouched(it, all[seen..], values[seen..])
        invariant Valid() && pushed == old(pushed) && forall c <- clients :: c in all
        invariant Continues(Beat(values, probes, old(disconnectStore)), Values()[..it],
                            Beat(values[seen..], probes[seen..], disconnectStore))
        decreases |all| - seen
      {
        hide Beat, Continues, RemoveFirst;
        BeatStep(Beat(values, probes, old(disconnectStore)), Values()[..it], values, probes, seen, disconnectStore);
        it := HeartbeatOne(it, probes[seen], all[seen..], values[seen..]);
        seen := seen + 1;
      }
      assert Values()[..it] == Values();
    }

    /** The body of the loop: one client is dropped, or greeted and passed. */
    method HeartbeatOne(it: nat, p: Probe, ghost rest: seq<HandlerClientSocket>, ghost values: seq<Client>)
      returns (next: nat)
      requires Valid() && it < |clients| && Untouched(it, rest, values)
      modifies this, clients[it]
      ensures Valid() && pushed == old(pushed) && forall c <- clients :: c in old(clients)
      ensures Untouched(next, rest[1..], values[1..])
      ensures var c := values[0];
              if Expired(c, p) then
                && Values()[..next] == old(Values()[..it])
                && disconnectStore == (if c.id != "" then old(disconnectStore) + [c.id] else old(disconnectStore))
              else
                && Values()[..next] == old(Values()[..it]) + [c.Sent(HELLO)]
                && disconnectStore == RemoveFirst(old(disconnectStore), c.id)
    {
      var work := clients[it];
      if !p.alive || p.now - work.lastHeartbeatTimestamp > HEARTBEAT_TIMEOUT {
        if work.clientId != "" {
          disconnectStore := disconnectStore + [work.clientId];
        }
        clients := clients[..it] + clients[it + 1..];
        next := it;
      } else {
        work.SendMessage(HELLO);
        RemoveDisconnectStore(work.clientId);
        next := it + 1;
      }
    }
  }

  /** The round so far: the clients kept, then what is left to do. */
  predicate Continues(whole: (seq<Client>, seq<string>), kept: seq<Client>, rest: (seq<Client>, seq<string>)) {
    whole.0 == kept + rest.0 && whole.1 == rest.1
  }

  lemma BeatStep(whole: (seq<Client>, seq<string>), kept: seq<Client>, clients: seq<Client>, probes: seq<Probe>,
      k: nat, stores: seq<string>)
    requires |probes| == |clients| && k < |clients|
    requires Continues(whole, kept, Beat(clients[k..], probes[k..], stores))
    ensures var c := clients[k];
            var later, laterProbes := clients[k + 1..], probes[k + 1..];
            if Expired(c, probes[k])
            then Continues(whole, kept, Beat(later, laterProbes, if c.id != "" then stores + [c.id] else stores))
            else Continues(whole, kept + [c.Sent(HELLO)], Beat(later, laterProbes, RemoveFirst(stores, c.id)))
  {
    assert clients[k..][1..] == clients[k + 1..] && probes[k..][1..] == probes[k + 1..];
  }
}
