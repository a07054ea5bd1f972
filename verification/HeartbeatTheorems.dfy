/** What a round of heartbeats does to every client, and how long a client that is heard of stays. */
module HeartbeatTheorems {
  import opened RegistryTheorems
  import opened StoreCodes
  import opened StoreRegistry

  // ---- one round -----------------------------------------------------------------------------

  /** The socket is established and the last heartbeat at most 18 seconds ago. */
  predicate Lives(c: Client, p: Probe) {
    p.alive && p.now <= c.heartbeat + 18
  }

  /** The numbers of the first n clients that stay, in order. */
  function Staying(clients: seq<Client>, probes: seq<Probe>, n: nat): (stay: seq<nat>)
    requires |probes| == |clients| && n <= |clients|
    ensures forall k :: 0 <= k < |stay| ==> stay[k] < n && Lives(clients[stay[k]], probes[stay[k]])
    ensures forall k, l :: 0 <= k < l < |stay| ==> stay[k] < stay[l]
    ensures forall i :: 0 <= i < n && Lives(clients[i], probes[i]) ==> i in stay
  {
    if n == 0 then []
    else Staying(clients, probes, n - 1) + if Lives(clients[n - 1], probes[n - 1]) then [n - 1] else []
  }

  /** The numbers of those that go and have named themselves, in order. */
  function Going(clients: seq<Client>, probes: seq<Probe>, n: nat): (gone: seq<nat>)
    requires |probes| == |clients| && n <= |clients|
    ensures forall k :: 0 <= k < |gone| ==>
              gone[k] < n && !Lives(clients[gone[k]], probes[gone[k]]) && clients[gone[k]].id != ""
    ensures forall k, l :: 0 <= k < l < |gone| ==> gone[k] < gone[l]
    ensures forall i :: 0 <= i < n && !Lives(clients[i], probes[i]) && clients[i].id != "" ==> i in gone
  {
    if n == 0 then []
    else
      Going(clients, probes, n - 1)
      + if !Lives(clients[n - 1], probes[n - 1]) && clients[n - 1].id != "" then [n - 1] else []
  }

  /** A client that was sent one "hello" more. */
  function Greeted(c: Client): Client {
    Client(c.id, c.heartbeat, c.sent + [Message(104, "hello")])
  }

  function GreetedOnes(clients: seq<Client>, stay: seq<nat>): seq<Client>
    requires forall k :: 0 <= k < |stay| ==> stay[k] < |clients|
  {
    seq(|stay|, k requires 0 <= k < |stay| => Greeted(clients[stay[k]]))
  }

  function IdsOf(clients: seq<Client>, gone: seq<nat>): seq<string>
    requires forall k :: 0 <= k < |gone| ==> gone[k] < |clients|
  {
    seq(|gone|, k requires 0 <= k < |gone| => clients[gone[k]].id)
  }

  /** The first n clients have had their turn. */
  predicate Turned(r: Registry, probes: seq<Probe>, n: nat, kept: seq<Client>, stores: seq<string>)
    requires |probes| == |r.clients| && n <= |r.clients|
  {
    && kept == GreetedOnes(r.clients, Staying(r.clients, probes, n))
    && (Sound(r.clients, r.disconnected) ==>
          stores == r.disconnected + IdsOf(r.clients, Going(r.clients, probes, n)))
  }

  lemma GoesOrStays(c: Client, p: Probe)
    ensures Expired(c, p) <==> !Lives(c, p)
    ensures c.Sent(HELLO) == Greeted(c)
  {
  }

  /** In a sound registry no store of a client waits, neither of the old ones nor of those that just went. */
  lemma NotWaiting(r: Registry, probes: seq<Probe>, n: nat)
    requires |probes| == |r.clients| && n < |r.clients| && Sound(r.clients, r.disconnected)
    ensures r.clients[n].id !in r.disconnected + IdsOf(r.clients, Going(r.clients, probes, n))
  {
    hide Lives;
    var gone := Going(r.clients, probes, n);
    forall k | 0 <= k < |gone| ensures r.clients[gone[k]].id != r.clients[n].id {
      assert gone[k] < n;
    }
  }

  lemma OneTurn(r: Registry, probes: seq<Probe>, n: nat, kept: seq<Client>, stores: seq<string>)
    requires |probes| == |r.clients| && n < |r.clients| && Turned(r, probes, n, kept, stores)
    ensures var c := r.clients[n];
            && (Lives(c, probes[n]) ==> Turned(r, probes, n + 1, kept + [Greeted(c)], RemoveFirst(stores, c.id)))
            && (!Lives(c, probes[n]) ==> Turned(r, probes, n + 1, kept, if c.id != "" then stores + [c.id] else stores))
  {
    hide Lives, Sound;
    var c := r.clients[n];
    if Lives(c, probes[n]) && Sound(r.clients, r.disconnected) {
      NotWaiting(r, probes, n);
      RemoveAbsent(stores, c.id);
    }
  }

  lemma {:induction false} BeatTurns(r: Registry, probes: seq<Probe>, n: nat, kept: seq<Client>, stores: seq<string>)
    requires |probes| == |r.clients| && n <= |r.clients| && Turned(r, probes, n, kept, stores)
    ensures var rest := Beat(r.clients[n..], probes[n..], stores);
            Turned(r, probes, |r.clients|, kept + rest.0, rest.1)
    decreases |r.clients| - n
  {
    hide Turned, Lives, Greeted, RemoveFirst, Expired;
    if n < |r.clients| {
      var c := r.clients[n];
      assert r.clients[n..][1..] == r.clients[n + 1..] && probes[n..][1..] == probes[n + 1..];
      GoesOrStays(c, probes[n]);
      OneTurn(r, probes, n, kept, stores);
      if Lives(c, probes[n]) {
        BeatTurns(r, probes, n + 1, kept + [Greeted(c)], RemoveFirst(stores, c.id));
        var later := Beat(r.clients[n + 1..], probes[n + 1..], RemoveFirst(stores, c.id)).0;
        assert kept + [Greeted(c)] + later == kept + ([Greeted(c)] + later);
      } else {
        BeatTurns(r, probes, n + 1, kept, if c.id != "" then stores + [c.id] else stores);
      }
    } else {
      assert kept + [] == kept;
    }
  }

  /** After a round the clients are, in order, those whose socket is established and whose last heartbeat is at
      most 18 seconds old, each with one "hello" more. In every registry that a run can lead to, the names of the
      others join the waiting stores, in order. */
  lemma RoundOfHeartbeats(r: Registry, probes: seq<Probe>)
    requires |probes| == |r.clients|
    ensures var r' := Heartbeat(r, probes);
            && r'.clients == GreetedOnes(r.clients, Staying(r.clients, probes, |probes|))
            && r'.pushed == r.pushed
            && (Sound(r.clients, r.disconnected) ==>
                  r'.disconnected == r.disconnected + IdsOf(r.clients, Going(r.clients, probes, |probes|)))
  {
    assert r.clients[0..] == r.clients && probes[0..] == probes;
    BeatTurns(r, probes, 0, [], r.disconnected);
    var rest := Beat(r.clients, probes, r.disconnected).0;
    assert [] + rest == rest;
  }

  // ---- runs ------------------------------------------------------------------------------------

  /** Some client of the store was heard of at time t or later. */
  predicate Heard(r: Registry, s: string, t: int) {
    exists i :: 0 <= i < |r.clients| && r.clients[i].id == s && r.clients[i].heartbeat >= t
  }

  /** A step that lets the store be: in a round its socket is established and 18 seconds are not over; its own
      messages do not go back in time and do not name it anew. */
  predicate LetsBe(r: Registry, step: Step, s: string, t: int) {
    match step
    case Heartbeats(probes) =>
      |probes| == |r.clients|
      && forall i :: 0 <= i < |r.clients| && r.clients[i].id == s ==> probes[i].alive && probes[i].now <= t + 18
    case Received(i, code, _, now) => i < |r.clients| && (r.clients[i].id == s ==> code != 101 && now >= t)
    case _ => true
  }

  lemma RoundKeeps(r: Registry, probes: seq<Probe>, s: string, t: int)
    requires Heard(r, s, t) && LetsBe(r, Heartbeats(probes), s, t)
    ensures Heard(Heartbeat(r, probes), s, t)
  {
    RoundOfHeartbeats(r, probes);
    var stay := Staying(r.clients, probes, |probes|);
    var i :| 0 <= i < |r.clients| && r.clients[i].id == s && r.clients[i].heartbeat >= t;
    assert Lives(r.clients[i], probes[i]);
    var k :| 0 <= k < |stay| && stay[k] == i;
    assert Heartbeat(r, probes).clients[k] == Greeted(r.clients[i]);
  }

  lemma DispatchKeeps(r: Registry, m: Message, kind: string, code: string, s: string, t: int)
    requires Heard(r, s, t)
    ensures Heard(Dispatch(r, m, kind, code), s, t) && Heard(DispatchOne(r, m, kind, code), s, t)
  {
    hide FirstWith, Codes;
    var i :| 0 <= i < |r.clients| && r.clients[i].id == s && r.clients[i].heartbeat >= t;
    assert Dispatch(r, m, kind, code).clients[i].id == s && Dispatch(r, m, kind, code).clients[i].heartbeat >= t;
    assert DispatchOne(r, m, kind, code).clients[i].id == s && DispatchOne(r, m, kind, code).clients[i].heartbeat >= t;
  }

  lemma StepKeeps(r: Registry, step: Step, s: string, t: int)
    requires Enabled(r, step) && Heard(r, s, t) && LetsBe(r, step, s, t)
    ensures Heard(Next(r, step), s, t)
  {
    hide Heartbeat, Dispatch, DispatchOne, CString;
    match step {
      case Heartbeats(probes) => RoundKeeps(r, probes, s, t);
      case Dispatched(m, kind, code) => DispatchKeeps(r, m, kind, code, s, t);
      case DispatchedOne(m, kind, code) => DispatchKeeps(r, m, kind, code, s, t);
      case _ =>
        var i :| 0 <= i < |r.clients| && r.clients[i].id == s && r.clients[i].heartbeat >= t;
        assert Next(r, step).clients[i].id == s && Next(r, step).clients[i].heartbeat >= t;
    }
  }

  /** A heartbeat message, or a registration that is accepted, at time t. */
  predicate HearsOf(r: Registry, step: Step, s: string, t: int) {
    && step.Received? && step.i < |r.clients| && step.at == t
    && ((step.code == 104 && r.clients[step.i].id == s)
        || (step.code == 101 && CString(step.body) == s && forall c <- r.clients :: c.id != s))
  }

  lemma HeardNow(r: Registry, step: Step, s: string, t: int)
    requires s != "" && HearsOf(r, step, s, t)
    ensures Heard(Next(r, step), s, t)
  {
    hide CString;
    assert Next(r, step).clients[step.i].id == s;
  }

  /** Step k of a run lets the store be. */
  predicate LetsBeAt(steps: seq<Step>, k: nat, s: string, t: int)
    requires k < |steps|
  {
    Possible(steps[..k]) && LetsBe(After(steps[..k]), steps[k], s, t)
  }

  lemma {:induction false} StillHeard(steps: seq<Step>, n: nat, s: string, t: int)
    requires Possible(steps) && n < |steps| && s != ""
    requires Possible(steps[..n]) && HearsOf(After(steps[..n]), steps[n], s, t)
    requires forall k :: n < k < |steps| ==> LetsBeAt(steps, k, s, t)
    ensures Heard(After(steps), s, t)
  {
    hide LetsBe, HearsOf, Heard, Next, Enabled;
    var last := |steps| - 1;
    var front := steps[..last];
    if n == last {
      HeardNow(After(front), steps[last], s, t);
    } else {
      assert front[..n] == steps[..n];
      forall k | n < k < last ensures LetsBeAt(front, k, s, t) {
        assert front[..k] == steps[..k] && LetsBeAt(steps, k, s, t);
      }
      StillHeard(front, n, s, t);
      assert LetsBeAt(steps, last, s, t);
      StepKeeps(After(front), steps[last], s, t);
    }
  }

  /** A store that was heard of at time t, by a heartbeat or by its registration, is connected after every run of
      rounds up to t + 18 in which its socket stays established, whatever else happens, and is not waiting. */
  lemma LiveStoreStays(steps: seq<Step>, n: nat, s: string, t: int)
    requires Possible(steps) && n < |steps| && s != ""
    requires Possible(steps[..n]) && HearsOf(After(steps[..n]), steps[n], s, t)
    requires forall k :: n < k < |steps| ==> LetsBeAt(steps, k, s, t)
    ensures HasId(After(steps).clients, s) && s !in After(steps).disconnected
  {
    hide After, Possible, LetsBeAt, HearsOf;
    StillHeard(steps, n, s, t);
    RegistryInvariant(steps);
    var i :| 0 <= i < |After(steps).clients| && After(steps).clients[i].id == s;
  }
}
