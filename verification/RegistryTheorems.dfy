/** What every run of the registry keeps, and what each dispatch does for every known store. */
module RegistryTheorems {
  import opened StoreCodes
  import opened StoreRegistry

  // ---- runs ------------------------------------------------------------------------------

  /** A connection is accepted, a client's message with its body arrives, a round of heartbeats is made,
      or a message is dispatched. */
  datatype Step =
    | Accepted(now: int)
    | Received(i: nat, code: int, body: string, at: int)
    | Heartbeats(probes: seq<Probe>)
    | Dispatched(m: Message, kind: string, stores: string)
    | DispatchedOne(one: Message, oneKind: string, store: string)

  predicate Enabled(r: Registry, step: Step) {
    match step
    case Received(i, _, _, _) => i < |r.clients|
    case Heartbeats(probes) => |probes| == |r.clients|
    case _ => true
  }

  /** A received body is turned into a string up to its first NUL. */
  function Next(r: Registry, step: Step): Registry
    requires Enabled(r, step)
  {
    match step
    case Accepted(now) => r.(clients := r.clients + [Client("", now, [])])
    case Received(i, code, body, now) => Receive(r, i, code, CString(body), now).0
    case Heartbeats(probes) => Heartbeat(r, probes)
    case Dispatched(m, kind, code) => Dispatch(r, m, kind, code)
    case DispatchedOne(m, kind, code) => DispatchOne(r, m, kind, code)
  }

  const EMPTY := Registry([], [], [])

  predicate Possible(steps: seq<Step>)
    decreases |steps|, 0
  {
    steps == [] || (Possible(steps[..|steps| - 1]) && Enabled(After(steps[..|steps| - 1]), steps[|steps| - 1]))
  }

  function After(steps: seq<Step>): Registry
    requires Possible(steps)
    decreases |steps|, 1
  {
    if steps == [] then EMPTY else Next(After(steps[..|steps| - 1]), steps[|steps| - 1])
  }

  // ---- the invariant -----------------------------------------------------------------------

  predicate Sound(clients: seq<Client>, stores: seq<string>) {
    && (forall i, j :: 0 <= i < j < |clients| && clients[i].id == clients[j].id ==> clients[i].id == "")
    && (forall i, j :: 0 <= i < j < |stores| ==> stores[i] != stores[j])
    && (forall i, j :: 0 <= i < |clients| && 0 <= j < |stores| ==> clients[i].id != stores[j])
    && (forall i :: 0 <= i < |clients| ==> NUL !in clients[i].id)
    && (forall j :: 0 <= j < |stores| ==> stores[j] != "" && NUL !in stores[j])
  }

  /** Stores that are connected or waiting. */
  predicate Knows(clients: seq<Client>, stores: seq<string>, s: string) {
    s != "" && (HasId(clients, s) || s in stores)
  }

  /** Only the ids matter to Sound and Knows. */
  predicate SameIds(a: seq<Client>, b: seq<Client>) {
    |a| == |b| && forall i :: 0 <= i < |a| ==> a[i].id == b[i].id
  }

  lemma OnlyIdsMatter(a: seq<Client>, b: seq<Client>, stores: seq<string>)
    requires SameIds(a, b) && Sound(a, stores)
    ensures Sound(b, stores) && forall s :: HasId(a, s) == HasId(b, s)
  {
    forall s ensures HasId(a, s) == HasId(b, s) {
      if HasId(a, s) {
        var i :| 0 <= i < |a| && a[i].id == s;
        assert b[i].id == s;
      }
      if HasId(b, s) {
        var i :| 0 <= i < |b| && b[i].id == s;
        assert a[i].id == s;
      }
    }
  }

  lemma {:induction false} RemoveAbsent(stores: seq<string>, id: string)
    requires id !in stores
    ensures RemoveFirst(stores, id) == stores
  {
    if stores != [] {
      RemoveAbsent(stores[1..], id);
    }
  }

  /** Taking a store off a list without repetitions leaves the others. */
  lemma {:induction false} RemoveUnique(stores: seq<string>, id: string)
    requires forall i, j :: 0 <= i < j < |stores| ==> stores[i] != stores[j]
    ensures var r := RemoveFirst(stores, id);
            && id !in r
            && (forall i, j :: 0 <= i < j < |r| ==> r[i] != r[j])
            && (forall s :: s in r <==> s in stores && s != id)
  {
    if stores != [] {
      var rest := RemoveFirst(stores[1..], id);
      RemoveUnique(stores[1..], id);
      if stores[0] == id {
        assert forall s :: s in stores <==> s == stores[0] || s in stores[1..];
      } else {
        assert RemoveFirst(stores, id) == [stores[0]] + rest;
        assert stores[0] !in rest;
        assert forall s :: s in stores <==> s == stores[0] || s in stores[1..];
        assert forall s :: s in [stores[0]] + rest <==> s == stores[0] || s in rest;
      }
    }
  }

  // ---- heartbeats --------------------------------------------------------------------------

  lemma DropClient(kept: seq<Client>, c: Client, rest: seq<Client>, stores: seq<string>)
    requires Sound(kept + ([c] + rest), stores)
    ensures var stores' := if c.id != "" then stores + [c.id] else stores;
            && Sound(kept + rest, stores')
            && forall s :: Knows(kept + rest, stores', s) == Knows(kept + ([c] + rest), stores, s)
  {
    var before, after := kept + ([c] + rest), kept + rest;
    var stores' := if c.id != "" then stores + [c.id] else stores;
    assert forall i :: 0 <= i < |after| ==> after[i] == before[if i < |kept| then i else i + 1];
    assert before[|kept|] == c;
    forall s ensures Knows(after, stores', s) == Knows(before, stores, s) {
      if HasId(before, s) && s != c.id {
        var i :| 0 <= i < |before| && before[i].id == s;
        assert after[if i < |kept| then i else i - 1].id == s;
      }
    }
  }

  lemma GreetClient(kept: seq<Client>, c: Client, rest: seq<Client>, stores: seq<string>)
    requires Sound(kept + ([c] + rest), stores)
    ensures var after := (kept + [c.Sent(HELLO)]) + rest;
            && Sound(after, stores) && RemoveFirst(stores, c.id) == stores
            && forall s :: Knows(after, stores, s) == Knows(kept + ([c] + rest), stores, s)
  {
    var before := kept + ([c] + rest);
    assert before[|kept|] == c;
    assert SameIds(before, (kept + [c.Sent(HELLO)]) + rest);
    OnlyIdsMatter(before, (kept + [c.Sent(HELLO)]) + rest, stores);
    RemoveAbsent(stores, c.id);
  }

  lemma {:induction false} BeatConserves(kept: seq<Client>, clients: seq<Client>, probes: seq<Probe>,
      stores: seq<string>)
    requires |probes| == |clients| && Sound(kept + clients, stores)
    ensures var after := Beat(clients, probes, stores);
            && Sound(kept + after.0, after.1)
            && forall s :: Knows(kept + after.0, after.1, s) == Knows(kept + clients, stores, s)
    decreases |clients|
  {
    hide Sound, Knows, Expired;
    if clients != [] {
      var c, rest := clients[0], clients[1..];
      assert clients == [c] + rest;
      if Expired(c, probes[0]) {
        DropClient(kept, c, rest, stores);
        BeatConserves(kept, rest, probes[1..], if c.id != "" then stores + [c.id] else stores);
      } else {
        GreetClient(kept, c, rest, stores);
        BeatConserves(kept + [c.Sent(HELLO)], rest, probes[1..], stores);
        var after := Beat(rest, probes[1..], stores);
        assert kept + ([c.Sent(HELLO)] + after.0) == kept + [c.Sent(HELLO)] + after.0;
      }
    }
  }

  /** A round of heartbeats moves stores between the two lists but neither forgets nor invents one. */
  lemma HeartbeatConserves(r: Registry, probes: seq<Probe>)
    requires Sound(r.clients, r.disconnected) && |probes| == |r.clients|
    ensures var r' := Heartbeat(r, probes);
            && Sound(r'.clients, r'.disconnected)
            && forall s :: Knows(r'.clients, r'.disconnected, s) == Knows(r.clients, r.disconnected, s)
  {
    BeatConserves([], r.clients, probes, r.disconnected);
    assert forall cs: seq<Client> :: [] + cs == cs;
  }

  // ---- messages from clients ---------------------------------------------------------------

  /** A client that names itself becomes known under the new name; a name it had before is forgotten. */
  lemma RegistrationKnows(r: Registry, i: nat, text: string, now: int)
    requires Sound(r.clients, r.disconnected) && i < |r.clients| && NUL !in text
    ensures var (r', ok) := Receive(r, i, MSG_TYPE_STORECODE, text, now);
            && Sound(r'.clients, r'.disconnected)
            && (!ok ==> r' == r)
            && (ok ==> forall s ::
                  Knows(r'.clients, r'.disconnected, s)
                  <==> s == text || (Knows(r.clients, r.disconnected, s) && s != r.clients[i].id))
  {
    if text != "" && !HasId(r.clients, text) {
      RemoveUnique(r.disconnected, text);
      var c := r.clients[i].(id := text, heartbeat := now);
      var clients' := r.clients[i := c];
      var stores' := RemoveFirst(r.disconnected, text);
      assert forall j :: 0 <= j < |stores'| ==> stores'[j] in r.disconnected && stores'[j] != text;
      assert Sound(clients', stores');
      forall s
        ensures Knows(clients', stores', s)
           <==> s == text || (Knows(r.clients, r.disconnected, s) && s != r.clients[i].id)
      {
        if HasId(r.clients, s) && s != r.clients[i].id {
          var k :| 0 <= k < |r.clients| && r.clients[k].id == s;
          assert clients'[k].id == s;
        }
        assert clients'[i].id == text;
      }
    }
  }

  // ---- dispatching -------------------------------------------------------------------------

  lemma DispatchKeepsIds(r: Registry, m: Message, kind: string, code: string)
    ensures SameIds(r.clients, Dispatch(r, m, kind, code).clients)
    ensures SameIds(r.clients, DispatchOne(r, m, kind, code).clients)
    ensures Dispatch(r, m, kind, code).disconnected == r.disconnected == DispatchOne(r, m, kind, code).disconnected
  {
    hide FirstWith, Codes;
  }

  lemma NextKeepsSound(r: Registry, step: Step)
    requires Sound(r.clients, r.disconnected) && Enabled(r, step)
    ensures Sound(Next(r, step).clients, Next(r, step).disconnected)
  {
    hide Heartbeat, Dispatch, DispatchOne, CString, RemoveFirst;
    match step {
      case Accepted(now) =>
      case Received(i, code, body, now) =>
        if code == MSG_TYPE_STORECODE {
          CStringEnds(body);
          RegistrationKnows(r, i, CString(body), now);
        } else {
          assert SameIds(r.clients, Next(r, step).clients);
          OnlyIdsMatter(r.clients, Next(r, step).clients, r.disconnected);
        }
      case Heartbeats(probes) => HeartbeatConserves(r, probes);
      case Dispatched(m, kind, code) =>
        DispatchKeepsIds(r, m, kind, code);
        OnlyIdsMatter(r.clients, Dispatch(r, m, kind, code).clients, r.disconnected);
      case DispatchedOne(m, kind, code) =>
        DispatchKeepsIds(r, m, kind, code);
        OnlyIdsMatter(r.clients, DispatchOne(r, m, kind, code).clients, r.disconnected);
    }
  }

  lemma CStringEnds(s: string)
    ensures NUL !in CString(s)
    ensures NUL !in s ==> CString(s) == s
  {
  }

  /** In every reachable state the ids of registered clients are distinct, the list of disconnected stores has
      no repetitions, and no store is in both. */
  lemma {:induction false} RegistryInvariant(steps: seq<Step>)
    requires Possible(steps)
    ensures Sound(After(steps).clients, After(steps).disconnected)
  {
    hide Sound, Next, Enabled;
    if steps == [] {
      NothingIsSound();
    } else {
      RegistryInvariant(steps[..|steps| - 1]);
      NextKeepsSound(After(steps[..|steps| - 1]), steps[|steps| - 1]);
    }
  }

  lemma NothingIsSound()
    ensures Sound(EMPTY.clients, EMPTY.disconnected)
  {
  }

  /** How many times m was given to a socket of store s. */
  function Attempts(clients: seq<Client>, s: string, m: Message): nat {
    if clients == [] then 0
    else
      var last := |clients| - 1;
      Attempts(clients[..last], s, m) + if clients[last].id == s then multiset(clients[last].sent)[m] else 0
  }

  /** How many clients have the id s. */
  function Connections(clients: seq<Client>, s: string): nat {
    if clients == [] then 0
    else
      var last := |clients| - 1;
      Connections(clients[..last], s) + if clients[last].id == s then 1 else 0
  }

  function Retries(pushed: seq<Push>, s: string, data: string): nat {
    multiset(pushed)[Push(s, data)]
  }

  lemma {:induction false} OneConnection(clients: seq<Client>, s: string)
    requires s != "" && forall i, j :: 0 <= i < j < |clients| && clients[i].id == clients[j].id ==> clients[i].id == ""
    ensures Connections(clients, s) == if HasId(clients, s) then 1 else 0
  {
    if clients != [] {
      var last := |clients| - 1;
      var front := clients[..last];
      OneConnection(front, s);
      assert forall i :: 0 <= i < last ==> front[i].id == clients[i].id;
      if HasId(front, s) {
        var i :| 0 <= i < |front| && front[i].id == s;
        assert clients[i].id == s;
      }
      assert clients[last].id == s ==> HasId(clients, s);
    }
  }

  lemma {:induction false} AttemptsWhere(clients: seq<Client>, to: Address, m: Message, s: string)
    ensures Attempts(SendWhere(clients, to, m), s, m)
         == Attempts(clients, s, m) + if to.Accepts(s) then Connections(clients, s) else 0
  {
    if clients != [] {
      var last := |clients| - 1;
      AttemptsWhere(clients[..last], to, m, s);
      assert SendWhere(clients, to, m)[..last] == SendWhere(clients[..last], to, m);
      assert multiset(clients[last].Sent(m).sent)[m] == multiset(clients[last].sent)[m] + 1;
    }
  }

  lemma {:induction false} RetriesWhere(stores: seq<string>, to: Address, data: string, s: string)
    requires forall i, j :: 0 <= i < j < |stores| ==> stores[i] != stores[j]
    ensures Retries(PushWhere(stores, to, data), s, data) == if s in stores && to.Accepts(s) then 1 else 0
  {
    if stores != [] {
      var last := |stores| - 1;
      RetriesWhere(stores[..last], to, data, s);
      assert s in stores <==> s in stores[..last] || s == stores[last];
      assert stores[last] !in stores[..last];
    }
  }

  lemma {:induction false} AttemptsAt(clients: seq<Client>, k: nat, m: Message, s: string)
    requires k < |clients|
    ensures Attempts(clients[k := clients[k].Sent(m)], s, m)
         == Attempts(clients, s, m) + if clients[k].id == s then 1 else 0
  {
    var last := |clients| - 1;
    var after := clients[k := clients[k].Sent(m)];
    assert multiset(clients[k].Sent(m).sent)[m] == multiset(clients[k].sent)[m] + 1;
    if k == last {
      assert after[..last] == clients[..last];
    } else {
      AttemptsAt(clients[..last], k, m, s);
      assert after[..last] == clients[..last][k := clients[k].Sent(m)];
    }
  }

  /** Whom a dispatch of types 1, 2 and 3 is for. */
  predicate Addressed(kind: string, code: string, s: string) {
    (kind == "1" && s == CString(code)) || (kind == "2" && s in Codes(code)) || kind == "3"
  }

  /** Types 2 and 3. */
  lemma WhereHandlesOnce(r: Registry, m: Message, to: Address, s: string)
    requires Sound(r.clients, r.disconnected) && Knows(r.clients, r.disconnected, s)
    ensures var r' := DispatchWhere(r, m, to);
            && Attempts(r'.clients, s, m) - Attempts(r.clients, s, m)
               == (if to.Accepts(s) && HasId(r.clients, s) then 1 else 0)
            && Retries(r'.pushed, s, m.data) - Retries(r.pushed, s, m.data)
               == (if to.Accepts(s) && s in r.disconnected then 1 else 0)
  {
    OneConnection(r.clients, s);
    AttemptsWhere(r.clients, to, m, s);
    RetriesWhere(r.disconnected, to, m.data, s);
  }

  /** Type 1. */
  lemma OneHandlesOnce(r: Registry, m: Message, code: string, s: string)
    requires Sound(r.clients, r.disconnected) && Knows(r.clients, r.disconnected, s)
    ensures var r' := DispatchToOne(r, m, code);
            && Attempts(r'.clients, s, m) - Attempts(r.clients, s, m)
               == (if s == CString(code) && HasId(r.clients, s) then 1 else 0)
            && Retries(r'.pushed, s, m.data) - Retries(r.pushed, s, m.data)
               == (if s == code && s in r.disconnected then 1 else 0)
  {
    var k := FirstWith(r.clients, code);
    if k < |r.clients| {
      CStringEnds(r.clients[k].id);
      AttemptsAt(r.clients, k, m, s);
    }
    if HasId(r.clients, s) {
      var i :| 0 <= i < |r.clients| && r.clients[i].id == s;
      CStringEnds(s);
      assert s == CString(code) ==> k <= i;
    }
  }

  /** In every reachable state a dispatch hands a message to each known store it is for exactly once: as one
      attempt to send it when the store is connected, as one retry when it is not. The one exception is a
      disconnected store that is addressed, with type 1, by a code that goes on after a NUL. */
  lemma DispatchHandlesOnce(steps: seq<Step>, m: Message, kind: string, code: string, s: string)
    requires Possible(steps) && Knows(After(steps).clients, After(steps).disconnected, s)
    ensures var r := After(steps);
            var r' := Dispatch(r, m, kind, code);
            && Attempts(r'.clients, s, m) - Attempts(r.clients, s, m)
               == (if Addressed(kind, code, s) && HasId(r.clients, s) then 1 else 0)
            && Retries(r'.pushed, s, m.data) - Retries(r.pushed, s, m.data)
               == (if Addressed(kind, code, s) && s in r.disconnected && (kind == "1" ==> NUL !in code) then 1 else 0)
            && (HasId(r.clients, s) <==> s !in r.disconnected)
  {
    hide DispatchToOne, DispatchWhere, CString, Codes, Attempts;
    var r := After(steps);
    RegistryInvariant(steps);
    NotBoth(r, s);
    CStringEnds(code);
    if kind == "1" {
      OneHandlesOnce(r, m, code, s);
      assert s in r.disconnected ==> NUL !in s;
    } else if kind == "2" {
      WhereHandlesOnce(r, m, Listed(Codes(code)), s);
    } else if kind == "3" {
      WhereHandlesOnce(r, m, Everyone, s);
    }
  }

  lemma NotBoth(r: Registry, s: string)
    requires Sound(r.clients, r.disconnected) && Knows(r.clients, r.disconnected, s)
    ensures HasId(r.clients, s) <==> s !in r.disconnected
  {
    if HasId(r.clients, s) {
      var i :| 0 <= i < |r.clients| && r.clients[i].id == s;
    }
  }

  /** A store connects, registers and is found dead. */
  function LostStore(s: string): seq<Step> {
    [Accepted(0), Received(0, MSG_TYPE_STORECODE, s, 0), Heartbeats([Probe(false, 0)])]
  }

  lemma LostStoreRun(s: string)
    requires s != "" && NUL !in s
    ensures Possible(LostStore(s)) && After(LostStore(s)) == Registry([], [s], [])
  {
    var accepted, received, beat := Accepted(0), Received(0, MSG_TYPE_STORECODE, s, 0), Heartbeats([Probe(false, 0)]);
    CStringEnds(s);
    Registers(s);
    Dies(s);
    hide Receive, Heartbeat, CString;
    Extend([], accepted);
    assert [] + [accepted] == [accepted];
    assert After([accepted]) == Registry([Client("", 0, [])], [], []);
    Extend([accepted], received);
    assert [accepted] + [received] == [accepted, received];
    assert After([accepted, received]) == Registry([Client(s, 0, [])], [], []);
    Extend([accepted, received], beat);
    assert [accepted, received] + [beat] == LostStore(s);
  }

  lemma Extend(steps: seq<Step>, step: Step)
    requires Possible(steps) && Enabled(After(steps), step)
    ensures Possible(steps + [step]) && After(steps + [step]) == Next(After(steps), step)
  {
    hide Next, Enabled;
    assert (steps + [step])[..|steps|] == steps;
  }

  lemma Registers(s: string)
    requires s != ""
    ensures Receive(Registry([Client("", 0, [])], [], []), 0, MSG_TYPE_STORECODE, s, 0).0
         == Registry([Client(s, 0, [])], [], [])
  {
  }

  lemma Dies(s: string)
    requires s != ""
    ensures Heartbeat(Registry([Client(s, 0, [])], [], []), [Probe(false, 0)]) == Registry([], [s], [])
  {
    var clients, probes := [Client(s, 0, [])], [Probe(false, 0)];
    assert Expired(clients[0], probes[0]);
    assert clients[1..] == [] && probes[1..] == [];
    assert [] + [s] == [s];
    assert Beat(clients, probes, []) == Beat([], [], [s]);
  }

  /** The exception is reached: any disconnected store that is addressed by its name with a NUL after it is
      missed, for the dispatch changes nothing. */
  lemma NulHidesStore(s: string, tail: string, m: Message)
    requires s != "" && NUL !in s
    ensures Possible(LostStore(s)) && s in After(LostStore(s)).disconnected
    ensures Addressed("1", s + [NUL] + tail, s)
    ensures Dispatch(After(LostStore(s)), m, "1", s + [NUL] + tail) == After(LostStore(s))
  {
    LostStoreRun(s);
    CStringStops(s, tail);
  }

  lemma CStringStops(s: string, tail: string)
    requires NUL !in s
    ensures CString(s + [NUL] + tail) == s
  {
    var code := s + [NUL] + tail;
    assert code[..NulAt(code)] <= s + [NUL] && forall i :: 0 <= i < |s| ==> code[i] == s[i];
    assert code[|s|] == NUL;
  }

  /** dispatchOneMessage never drops a message of type 1: in every state it is either given to the first client with
      the code or pushed as one retry for the code, known or not. Messages of other types change nothing. */
  lemma DispatchOneNeverDrops(r: Registry, m: Message, kind: string, code: string)
    ensures var r' := DispatchOne(r, m, kind, code);
            if kind != "1" then r' == r
            else if exists c <- r.clients :: CString(c.id) == CString(code) then
              && r'.pushed == r.pushed && r'.disconnected == r.disconnected
              && exists k :: 0 <= k < |r.clients| && CString(r.clients[k].id) == CString(code)
                   && (forall j :: 0 <= j < k ==> CString(r.clients[j].id) != CString(code))
                   && r'.clients == r.clients[k := r.clients[k].(sent := r.clients[k].sent + [m])]
            else r' == r.(pushed := r.pushed + [Push(code, m.data)])
  {
    var k := FirstWith(r.clients, code);
    if k < |r.clients| {
      assert r.clients[k] in r.clients;
    }
  }
}
