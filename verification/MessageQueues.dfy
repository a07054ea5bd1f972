/** The two bounded queues that share one mutex and one pair of conditions (DataSync/CProcessMqData.cpp),
    as a system of steps: every thread moves between its lock operations in any order. */
module MessageQueues {
  import opened Options

  const MAX_QUEUE_DATA := 1000

  datatype MqData = MqData(header: int, dispatchType: string, stores: string, body: string)

  datatype QueueId = Main | Exceptions

  /** A queue, with what ever arrived at it in order: let in or turned away, and what was taken out. */
  datatype Queue = Queue(
    items: seq<MqData>,
    arrived: seq<MqData>, accepted: seq<MqData>, refused: seq<MqData>, delivered: seq<MqData>)
  {
    function Offer(d: MqData): Queue {
      if |items| >= MAX_QUEUE_DATA then this.(arrived := arrived + [d], refused := refused + [d])
      else this.(items := items + [d], arrived := arrived + [d], accepted := accepted + [d])
    }

    function Take(): (Queue, Option<MqData>) {
      if items == [] then (this, None)
      else (this.(items := items[1..], delivered := delivered + [items[0]]), Some(items[0]))
    }

    predicate Sound() {
      && |items| <= MAX_QUEUE_DATA
      && accepted == delivered + items
      && multiset(arrived) == multiset(accepted) + multiset(refused)
    }
  }

  /** Where a thread is in ProductData or ProductExceptionData (P) or ConsumerData or ConsumerExceptionData (C). */
  datatype Pc =
    | Idle
    | PEnter(q: QueueId, d: MqData)     // before the mutex
    | PTest(q: QueueId, d: MqData)      // the test of the size
    | PAsleep(q: QueueId, d: MqData)    // in the wait on `full`, without the mutex
    | PWake(q: QueueId, d: MqData)      // woken, before the mutex is had again
    | PSignal(q: QueueId, d: MqData)    // the signal of `empty`
    | PLeave(q: QueueId, d: MqData)     // before the mutex is given back
    | CEnter(q: QueueId)
    | CTest(q: QueueId)
    | CAsleep(q: QueueId)               // in the wait on `empty`
    | CWake(q: QueueId)
    | CTake(q: QueueId, slept: bool)    // the second test of the size
    | CSignal(q: QueueId, got: Option<MqData>)
    | CLeave(q: QueueId, got: Option<MqData>)

  predicate Holds(pc: Pc) {
    pc.PTest? || pc.PSignal? || pc.PLeave? || pc.CTest? || pc.CTake? || pc.CSignal? || pc.CLeave?
  }

  datatype State = State(main: Queue, exceptions: Queue, holder: Option<nat>, pcs: seq<Pc>) {
    function Get(q: QueueId): Queue {
      if q.Main? then main else exceptions
    }

    function Put(q: QueueId, u: Queue): State {
      if q.Main? then this.(main := u) else this.(exceptions := u)
    }

    function At(t: nat, pc: Pc): State
      requires t < |pcs|
    {
      this.(pcs := pcs[t := pc])
    }
  }

  /** A thread starts a call, goes on, or is woken without a signal. A thread that signals wakes one or more of
      those that wait on the condition, whichever queue they wait for. */
  datatype Action = Produce(q: QueueId, d: MqData) | Consume(r: QueueId) | Go | Wake | Signal(woken: set<nat>)

  predicate AnyAsleep(pcs: seq<Pc>, producers: bool) {
    exists t :: 0 <= t < |pcs| && Asleep(pcs[t], producers)
  }

  predicate Asleep(pc: Pc, producers: bool) {
    if producers then pc.PAsleep? else pc.CAsleep?
  }

  predicate Wakeable(pcs: seq<Pc>, woken: set<nat>, producers: bool) {
    && (forall t :: t in woken ==> t < |pcs| && Asleep(pcs[t], producers))
    && (woken == {} ==> !AnyAsleep(pcs, producers))
  }

  function Awake(pc: Pc): Pc {
    match pc
    case PAsleep(q, d) => PWake(q, d)
    case CAsleep(q) => CWake(q)
    case _ => pc
  }

  function WakeAll(pcs: seq<Pc>, woken: set<nat>): (r: seq<Pc>)
    ensures |r| == |pcs|
  {
    seq(|pcs|, t requires 0 <= t < |pcs| => if t in woken then Awake(pcs[t]) else pcs[t])
  }

  predicate Enabled(s: State, t: nat, a: Action) {
    && t < |s.pcs|
    && match a
       case Produce(_, _) => s.pcs[t].Idle?
       case Consume(_) => s.pcs[t].Idle?
       case Wake => s.pcs[t].PAsleep? || s.pcs[t].CAsleep?
       case Signal(woken) =>
         (s.pcs[t].PSignal? && Wakeable(s.pcs, woken, false)) || (s.pcs[t].CSignal? && Wakeable(s.pcs, woken, true))
       case Go =>
         match s.pcs[t]
         case PEnter(_, _) => s.holder.None?
         case PWake(_, _) => s.holder.None?
         case CEnter(_) => s.holder.None?
         case CWake(_) => s.holder.None?
         case PTest(_, _) => true
         case PLeave(_, _) => true
         case CTest(_) => true
         case CTake(_, _) => true
         case CLeave(_, _) => true
         case _ => false
  }

  function Step(s: State, t: nat, a: Action): State
    requires Enabled(s, t, a)
  {
    match a
    case Produce(q, d) => s.At(t, PEnter(q, d))
    case Consume(q) => s.At(t, CEnter(q))
    case Wake => s.At(t, Awake(s.pcs[t]))
    case Signal(woken) =>
      (match s.pcs[t]
       case PSignal(q, d) => s.At(t, PLeave(q, d)).(pcs := WakeAll(s.pcs, woken)[t := PLeave(q, d)])
       case CSignal(q, got) => s.At(t, CLeave(q, got)).(pcs := WakeAll(s.pcs, woken)[t := CLeave(q, got)]))
    case Go =>
      match s.pcs[t]
      case PEnter(q, d) => s.At(t, PTest(q, d)).(holder := Some(t))
      case PTest(q, d) =>
        var full := |s.Get(q).items| >= MAX_QUEUE_DATA;
        var offered := s.Put(q, s.Get(q).Offer(d));
        if full then offered.At(t, PAsleep(q, d)).(holder := None) else offered.At(t, PSignal(q, d))
      case PWake(q, d) => s.At(t, PSignal(q, d)).(holder := Some(t))
      case PLeave(q, d) => s.At(t, Idle).(holder := None)
      case CEnter(q) => s.At(t, CTest(q)).(holder := Some(t))
      case CTest(q) => if s.Get(q).items == [] then s.At(t, CAsleep(q)).(holder := None) else s.At(t, CTake(q, false))
      case CWake(q) => s.At(t, CTake(q, true)).(holder := Some(t))
      case CTake(q, _) =>
        var (u, got) := s.Get(q).Take();
        s.Put(q, u).At(t, CSignal(q, got))
      case CLeave(q, got) => s.At(t, Idle).(holder := None)
  }

  const EMPTY_QUEUE := Queue([], [], [], [], [])

  function Start(threads: nat): State {
    State(EMPTY_QUEUE, EMPTY_QUEUE, None, seq(threads, _ => Idle))
  }

  datatype Move = Move(t: nat, a: Action)

  predicate Possible(threads: nat, moves: seq<Move>)
    decreases |moves|, 0
  {
    moves == []
    || var last := moves[|moves| - 1];
       Possible(threads, moves[..|moves| - 1]) && Enabled(After(threads, moves[..|moves| - 1]), last.t, last.a)
  }

  function After(threads: nat, moves: seq<Move>): State
    requires Possible(threads, moves)
    decreases |moves|, 1
  {
    if moves == [] then Start(threads)
    else
      var last := moves[|moves| - 1];
      Step(After(threads, moves[..|moves| - 1]), last.t, last.a)
  }

  // ---- what every run keeps ------------------------------------------------------------------

  /** The thread that has the mutex, and no other, is between a lock and an unlock. */
  predicate Exclusive(s: State) {
    && (s.holder.Some? ==> s.holder.value < |s.pcs|)
    && forall t :: 0 <= t < |s.pcs| ==> (Holds(s.pcs[t]) <==> s.holder == Some(t))
  }

  /** A producer that waits, or has waited, was turned away; a consumer that did not sleep has an item to take. */
  predicate InOrder(s: State, pc: Pc) {
    match pc
    case PAsleep(q, d) => d in s.Get(q).refused
    case PWake(q, d) => d in s.Get(q).refused
    case CTake(q, slept) => slept || s.Get(q).items != []
    case _ => true
  }

  predicate AllInOrder(s: State) {
    forall t :: 0 <= t < |s.pcs| ==> InOrder(s, s.pcs[t])
  }

  predicate Sound(s: State) {
    Exclusive(s) && AllInOrder(s) && s.main.Sound() && s.exceptions.Sound()
  }

  lemma OfferKeepsSound(u: Queue, d: MqData)
    requires u.Sound()
    ensures u.Offer(d).Sound()
    ensures |u.items| >= MAX_QUEUE_DATA ==> d in u.Offer(d).refused
    ensures forall e :: e in u.refused ==> e in u.Offer(d).refused
  {
    if |u.items| < MAX_QUEUE_DATA {
      assert u.delivered + (u.items + [d]) == u.delivered + u.items + [d];
    }
  }

  lemma TakeKeepsSound(u: Queue)
    requires u.Sound()
    ensures u.Take().0.Sound() && u.Take().0.refused == u.refused
  {
    if u.items != [] {
      assert u.delivered + u.items == u.delivered + [u.items[0]] + u.items[1..];
    }
  }

  lemma QueuesStaySound(s: State, t: nat, a: Action)
    requires Enabled(s, t, a) && s.main.Sound() && s.exceptions.Sound()
    ensures Step(s, t, a).main.Sound() && Step(s, t, a).exceptions.Sound()
    ensures forall q, e :: e in s.Get(q).refused ==> e in Step(s, t, a).Get(q).refused
  {
    hide Queue.Sound, Queue.Offer, Queue.Take, WakeAll;
    match s.pcs[t] {
      case PTest(q, d) => OfferKeepsSound(s.Get(q), d);
      case CTake(q, _) => TakeKeepsSound(s.Get(q));
      case _ =>
    }
  }

  lemma ExclusionStays(s: State, t: nat, a: Action)
    requires Enabled(s, t, a) && Exclusive(s)
    ensures Exclusive(Step(s, t, a))
  {
    hide Queue.Offer, Queue.Take, Wakeable;
  }

  /** The thread that moves. */
  lemma MoverInOrder(s: State, t: nat, a: Action)
    requires Enabled(s, t, a) && InOrder(s, s.pcs[t]) && s.main.Sound() && s.exceptions.Sound()
    ensures InOrder(Step(s, t, a), Step(s, t, a).pcs[t])
  {
    hide WakeAll, Wakeable, Queue.Sound, Queue.Take, Queue.Offer;
    match s.pcs[t] {
      case PTest(q, d) => OfferKeepsSound(s.Get(q), d);
      case _ =>
    }
  }

  /** The threads that do not: at most they are woken, and a queue that is taken from is not waited at by a holder. */
  lemma OthersInOrder(s: State, t: nat, a: Action, u: nat)
    requires Enabled(s, t, a) && u < |s.pcs| && u != t && InOrder(s, s.pcs[u])
    requires Exclusive(s) && s.main.Sound() && s.exceptions.Sound()
    ensures InOrder(Step(s, t, a), Step(s, t, a).pcs[u])
  {
    hide Step, Enabled, Exclusive, Queue.Sound;
    QueuesStaySound(s, t, a);
    OtherPc(s, t, a, u);
    if s.pcs[u].CTake? {
      OneHolder(s, t, u);
      HolderOnly(s, t, a, s.pcs[u].q);
    }
  }

  lemma OneHolder(s: State, t: nat, u: nat)
    requires Exclusive(s) && u < |s.pcs| && Holds(s.pcs[u]) && u != t
    ensures s.holder != Some(t)
  {
  }

  lemma OtherPc(s: State, t: nat, a: Action, u: nat)
    requires Enabled(s, t, a) && u < |s.pcs| && u != t
    ensures |Step(s, t, a).pcs| == |s.pcs|
    ensures Step(s, t, a).pcs[u] == s.pcs[u] || Step(s, t, a).pcs[u] == Awake(s.pcs[u])
  {
    hide Wakeable, Queue.Take, Queue.Offer;
  }

  lemma SameThreads(s: State, t: nat, a: Action)
    requires Enabled(s, t, a)
    ensures t < |s.pcs| && |Step(s, t, a).pcs| == |s.pcs|
  {
    hide Wakeable, Queue.Take, Queue.Offer;
  }

  lemma HolderOnly(s: State, t: nat, a: Action, q: QueueId)
    requires Enabled(s, t, a) && Exclusive(s)
    ensures s.holder != Some(t) ==> Step(s, t, a).Get(q).items == s.Get(q).items
  {
    hide WakeAll, Wakeable, Queue.Take, Queue.Offer;
  }

  lemma OrderStays(s: State, t: nat, a: Action)
    requires Enabled(s, t, a) && Sound(s)
    ensures AllInOrder(Step(s, t, a))
  {
    hide Step, Enabled, Exclusive, InOrder, Queue.Sound;
    SameThreads(s, t, a);
    MoverInOrder(s, t, a);
    forall u | 0 <= u < |s.pcs| && u != t ensures InOrder(Step(s, t, a), Step(s, t, a).pcs[u]) {
      OthersInOrder(s, t, a, u);
    }
  }

  /** However the threads interleave and whatever wakes them, both queues stay within their bound, and what was
      delivered followed by what is queued is what was let in, in order. */
  lemma {:induction false} QueuesInvariant(threads: nat, moves: seq<Move>)
    requires Possible(threads, moves)
    ensures Sound(After(threads, moves))
  {
    hide Exclusive, AllInOrder, Queue.Sound, Step, Enabled;
    if moves == [] {
      StartIsSound(threads);
    } else {
      var last := moves[|moves| - 1];
      var s := After(threads, moves[..|moves| - 1]);
      QueuesInvariant(threads, moves[..|moves| - 1]);
      QueuesStaySound(s, last.t, last.a);
      ExclusionStays(s, last.t, last.a);
      OrderStays(s, last.t, last.a);
    }
  }

  lemma StartIsSound(threads: nat)
    ensures Sound(Start(threads))
  {
  }

  /** Who changes a queue: the holder of the mutex, as a producer at its first test or as a consumer that takes.
      A producer that waited makes no further test, so it leaves the queues as they are. */
  lemma OnlyHoldersChangeQueues(threads: nat, moves: seq<Move>, t: nat, a: Action, q: QueueId)
    requires Possible(threads, moves) && Enabled(After(threads, moves), t, a)
    ensures var s, s' := After(threads, moves), Step(After(threads, moves), t, a);
            s'.Get(q) != s.Get(q) ==>
              s.holder == Some(t) && ((s.pcs[t].PTest? && s.pcs[t].q == q) || (s.pcs[t].CTake? && s.pcs[t].q == q))
  {
    QueuesInvariant(threads, moves);
    ChangersHold(After(threads, moves), t, a, q);
    hide *;
  }

  lemma ChangersHold(s: State, t: nat, a: Action, q: QueueId)
    requires Enabled(s, t, a) && Exclusive(s)
    ensures Step(s, t, a).Get(q) != s.Get(q) ==>
              s.holder == Some(t) && ((s.pcs[t].PTest? && s.pcs[t].q == q) || (s.pcs[t].CTake? && s.pcs[t].q == q))
  {
    hide WakeAll, Wakeable, Queue.Take, Queue.Offer;
  }

  /** A producer puts its item last when there is room; a full queue stays as it is and the producer sleeps. */
  lemma ProducerAddsOrSleeps(threads: nat, moves: seq<Move>, t: nat)
    requires Possible(threads, moves) && Enabled(After(threads, moves), t, Go) && After(threads, moves).pcs[t].PTest?
    ensures var s, s' := After(threads, moves), Step(After(threads, moves), t, Go);
            var q, d := s.pcs[t].q, s.pcs[t].d;
            if |s.Get(q).items| == 1000
            then s'.Get(q).items == s.Get(q).items && s'.pcs[t] == PAsleep(q, d) && s'.holder.None?
            else s'.Get(q).items == s.Get(q).items + [d] && s'.pcs[t] == PSignal(q, d)
  {
    QueuesInvariant(threads, moves);
  }

  /** A consumer gets nothing only after it has slept; otherwise it gets the oldest item. */
  lemma ConsumerGetsOldest(threads: nat, moves: seq<Move>, t: nat)
    requires Possible(threads, moves) && Enabled(After(threads, moves), t, Go) && After(threads, moves).pcs[t].CTake?
    ensures var s, s' := After(threads, moves), Step(After(threads, moves), t, Go);
            var q := s.pcs[t].q;
            && (s.Get(q).items != [] ==>
                  && s'.pcs[t] == CSignal(q, Some(s.Get(q).items[0])) && s'.Get(q).items == s.Get(q).items[1..])
            && (s.Get(q).items == [] ==> s.pcs[t].slept && s'.pcs[t] == CSignal(q, None) && s'.Get(q) == s.Get(q))
  {
    QueuesInvariant(threads, moves);
    assert InOrder(After(threads, moves), After(threads, moves).pcs[t]);
  }

  // ---- who owes a sleeper its item -------------------------------------------------------------

  /** A thread that is about to signal, or a woken consumer of the queue that has not taken yet. */
  predicate Owes(pc: Pc, q: QueueId) {
    pc.PSignal? || (pc.CWake? && pc.q == q) || (pc.CTake? && pc.q == q)
  }

  function Owing(pcs: seq<Pc>, q: QueueId): nat {
    if pcs == [] then 0
    else
      var n := |pcs| - 1;
      Owing(pcs[..n], q) + if Owes(pcs[n], q) then 1 else 0
  }

  predicate AnySleeper(s: State, q: QueueId) {
    exists t :: 0 <= t < |s.pcs| && s.pcs[t] == CAsleep(q)
  }

  /** While a consumer of the queue sleeps, every item has a thread that will signal for one or take one. */
  predicate Owed(s: State, q: QueueId) {
    AnySleeper(s, q) ==> |s.Get(q).items| <= Owing(s.pcs, q)
  }

  predicate SleepersShare(s: State) {
    forall t, u :: 0 <= t < |s.pcs| && 0 <= u < |s.pcs| && s.pcs[t].CAsleep? && s.pcs[u].CAsleep? ==>
      s.pcs[t] == s.pcs[u]
  }

  lemma {:induction false} OwingGrows(a: seq<Pc>, b: seq<Pc>, q: QueueId, u: nat)
    requires |a| == |b| && u < |a|
    requires forall t :: 0 <= t < |a| && t != u && Owes(a[t], q) ==> Owes(b[t], q)
    ensures Owing(a, q) + (if Owes(b[u], q) then 1 else 0) <= Owing(b, q) + if Owes(a[u], q) then 1 else 0
  {
    hide Owes;
    var n := |a| - 1;
    if u < n {
      OwingGrows(a[..n], b[..n], q, u);
    } else {
      OwingKept(a[..n], b[..n], q);
    }
  }

  lemma {:induction false} OwingKept(a: seq<Pc>, b: seq<Pc>, q: QueueId)
    requires |a| == |b|
    requires forall t :: 0 <= t < |a| && Owes(a[t], q) ==> Owes(b[t], q)
    ensures Owing(a, q) <= Owing(b, q)
  {
    hide Owes;
    if a != [] {
      var n := |a| - 1;
      OwingKept(a[..n], b[..n], q);
    }
  }

  lemma {:induction false} NobodyOwes(pcs: seq<Pc>, q: QueueId)
    requires forall t :: 0 <= t < |pcs| ==> !Owes(pcs[t], q)
    ensures Owing(pcs, q) == 0
  {
    if pcs != [] {
      NobodyOwes(pcs[..|pcs| - 1], q);
    }
  }

  /** Threads other than the mover owe what they owed, for at most they are woken. */
  lemma OthersOwe(s: State, t: nat, a: Action, q: QueueId)
    requires Enabled(s, t, a)
    ensures var s' := Step(s, t, a);
            && t < |s.pcs| == |s'.pcs|
            && Owing(s.pcs, q) + (if Owes(s'.pcs[t], q) then 1 else 0)
               <= Owing(s'.pcs, q) + if Owes(s.pcs[t], q) then 1 else 0
  {
    hide Enabled, Step, Owing;
    SameThreads(s, t, a);
    forall u | 0 <= u < |s.pcs| && u != t && Owes(s.pcs[u], q) ensures Owes(Step(s, t, a).pcs[u], q) {
      OtherPc(s, t, a, u);
    }
    OwingGrows(s.pcs, Step(s, t, a).pcs, q, t);
  }

  /** Sleepers after a step slept before it, but for a consumer that has just seen its queue empty. */
  lemma SleepersStay(s: State, t: nat, a: Action, q: QueueId)
    requires Enabled(s, t, a) && AnySleeper(Step(s, t, a), q)
    ensures AnySleeper(s, q) || (a.Go? && s.pcs[t] == CTest(q) && s.Get(q).items == [])
  {
    hide Enabled, Step;
    var s' := Step(s, t, a);
    var u: nat :| u < |s'.pcs| && s'.pcs[u] == CAsleep(q);
    SameThreads(s, t, a);
    if u != t {
      OtherPc(s, t, a, u);
    } else {
      MoverSleeps(s, t, a, q);
    }
  }

  lemma MoverSleeps(s: State, t: nat, a: Action, q: QueueId)
    requires Enabled(s, t, a) && t < |Step(s, t, a).pcs| && Step(s, t, a).pcs[t] == CAsleep(q)
    ensures a.Go? && s.pcs[t] == CTest(q) && s.Get(q).items == []
  {
    hide Wakeable, Queue.Offer, Queue.Take;
  }

  /** What a step other than a signal for consumers owes more, its queue has grown by at most. */
  lemma MoverOwes(s: State, t: nat, a: Action, q: QueueId)
    requires Enabled(s, t, a) && (a.Signal? ==> !s.pcs[t].PSignal?)
    ensures var s' := Step(s, t, a);
            && t < |s'.pcs|
            && (s.Get(q).items != [] ==>
                  |s'.Get(q).items| + (if Owes(s.pcs[t], q) then 1 else 0)
                  <= |s.Get(q).items| + if Owes(s'.pcs[t], q) then 1 else 0)
            && (s.Get(q).items == [] && s'.Get(q).items != [] ==>
                  |s'.Get(q).items| == 1 && s'.pcs[t].PSignal?)
  {
    hide WakeAll, Wakeable;
  }

  /** A signal for consumers wakes one of those that all sleep on the same queue. */
  lemma SignalPassesOn(s: State, t: nat, woken: set<nat>, q: QueueId)
    requires Enabled(s, t, Signal(woken)) && s.pcs[t].PSignal? && SleepersShare(s) && Owed(s, q)
    ensures Owed(Step(s, t, Signal(woken)), q)
  {
    var s' := Step(s, t, Signal(woken));
    if AnySleeper(s', q) {
      SleepersStay(s, t, Signal(woken), q);
      assert Wakeable(s.pcs, woken, false);
      var v: nat :| v < |s.pcs| && s.pcs[v] == CAsleep(q);
      var u: nat :| u in woken;
      assert s.pcs[u] == s.pcs[v];
      WokenOwes(s.pcs, t, woken, u, q);
      SignalKeepsQueues(s, t, woken, q);
    }
  }

  lemma SignalKeepsQueues(s: State, t: nat, woken: set<nat>, q: QueueId)
    requires Enabled(s, t, Signal(woken)) && s.pcs[t].PSignal?
    ensures var s' := Step(s, t, Signal(woken));
            && s'.Get(q) == s.Get(q)
            && s'.pcs == WakeAll(s.pcs, woken)[t := PLeave(s.pcs[t].q, s.pcs[t].d)]
  {
    hide WakeAll, Wakeable;
  }

  lemma WokenOwes(pcs: seq<Pc>, t: nat, woken: set<nat>, u: nat, q: QueueId)
    requires t < |pcs| && u < |pcs| && u != t && pcs[t].PSignal? && u in woken && pcs[u] == CAsleep(q)
    ensures Owing(pcs, q) <= Owing(WakeAll(pcs, woken)[t := PLeave(pcs[t].q, pcs[t].d)], q)
  {
    hide Owing;
    var mid := pcs[u := CWake(q)];
    OwingGrows(pcs, mid, q, u);
    OwingGrows(mid, WakeAll(pcs, woken)[t := PLeave(pcs[t].q, pcs[t].d)], q, t);
  }

  lemma OwedStays(s: State, t: nat, a: Action, q: QueueId)
    requires Enabled(s, t, a) && (s.pcs[t].PSignal? ==> SleepersShare(s)) && Owed(s, q)
    ensures Owed(Step(s, t, a), q)
  {
    if a.Signal? && s.pcs[t].PSignal? {
      hide *;
      SignalPassesOn(s, t, a.woken, q);
    } else if AnySleeper(Step(s, t, a), q) {
      hide Step, Enabled, Owing, Owes, AnySleeper, SleepersShare;
      SleepersStay(s, t, a, q);
      MoverOwes(s, t, a, q);
      OthersOwe(s, t, a, q);
      OneOwes(Step(s, t, a), t, q);
    }
  }

  lemma OneOwes(s: State, t: nat, q: QueueId)
    requires t < |s.pcs|
    ensures s.pcs[t].PSignal? ==> Owing(s.pcs, q) >= 1
  {
    if s.pcs[t].PSignal? {
      OwingGrows(s.pcs[t := Idle], s.pcs, q, t);
    }
  }

  // ---- consumers of one queue, or two threads ------------------------------------------------------

  /** Consumers are called for the queues of the set only. */
  predicate ConsumesOnly(moves: seq<Move>, queues: set<QueueId>) {
    forall m <- moves :: m.a.Consume? ==> m.a.r in queues
  }

  predicate Consuming(pc: Pc) {
    pc.CEnter? || pc.CTest? || pc.CAsleep? || pc.CWake? || pc.CTake?
  }

  predicate ConsumersOf(s: State, queues: set<QueueId>) {
    forall t :: 0 <= t < |s.pcs| && Consuming(s.pcs[t]) ==> s.pcs[t].q in queues
  }

  lemma MoverConsumes(s: State, t: nat, a: Action, queues: set<QueueId>)
    requires Enabled(s, t, a) && ConsumersOf(s, queues) && (a.Consume? ==> a.r in queues)
    ensures var s' := Step(s, t, a);
            t < |s'.pcs| && (Consuming(s'.pcs[t]) ==> s'.pcs[t].q in queues)
  {
    hide Wakeable, Queue.Offer, Queue.Take;
  }

  lemma ConsumersStay(s: State, t: nat, a: Action, queues: set<QueueId>)
    requires Enabled(s, t, a) && ConsumersOf(s, queues) && (a.Consume? ==> a.r in queues)
    ensures ConsumersOf(Step(s, t, a), queues)
  {
    hide Enabled, Step;
    SameThreads(s, t, a);
    MoverConsumes(s, t, a, queues);
    forall u | 0 <= u < |s.pcs| && u != t && Consuming(Step(s, t, a).pcs[u])
      ensures Step(s, t, a).pcs[u].q in queues
    {
      OtherPc(s, t, a, u);
    }
  }

  /** At most two threads, or consumers of at most one queue: no signal is stolen. */
  predicate NoThieves(threads: nat, queues: set<QueueId>) {
    threads <= 2 || Main !in queues || Exceptions !in queues
  }

  lemma {:induction false} ConsumersInvariant(threads: nat, moves: seq<Move>, queues: set<QueueId>)
    requires Possible(threads, moves) && ConsumesOnly(moves, queues)
    ensures |After(threads, moves).pcs| == threads && ConsumersOf(After(threads, moves), queues)
  {
    hide Step, Enabled;
    if moves != [] {
      var last := moves[|moves| - 1];
      var s := After(threads, moves[..|moves| - 1]);
      ConsumersInvariant(threads, moves[..|moves| - 1], queues);
      SameThreads(s, last.t, last.a);
      ConsumersStay(s, last.t, last.a, queues);
    }
  }

  lemma Sharing(s: State, t: nat, queues: set<QueueId>)
    requires ConsumersOf(s, queues) && NoThieves(|s.pcs|, queues)
    requires t < |s.pcs| && s.pcs[t].PSignal?
    ensures SleepersShare(s)
  {
    forall u, v | 0 <= u < |s.pcs| && 0 <= v < |s.pcs| && s.pcs[u].CAsleep? && s.pcs[v].CAsleep?
      ensures s.pcs[u] == s.pcs[v]
    {
      assert Consuming(s.pcs[u]) && Consuming(s.pcs[v]);
      if |s.pcs| > 2 {
        TwoQueues(s.pcs[u].q);
        TwoQueues(s.pcs[v].q);
      }
    }
  }

  lemma TwoQueues(q: QueueId)
    ensures q == Main || q == Exceptions
  {
  }

  lemma {:induction false} OwedInvariant(threads: nat, moves: seq<Move>, queues: set<QueueId>, q: QueueId)
    requires Possible(threads, moves) && ConsumesOnly(moves, queues) && NoThieves(threads, queues)
    ensures Owed(After(threads, moves), q)
  {
    hide Step, Enabled, Owing, SleepersShare, NoThieves, ConsumersOf;
    if moves != [] {
      var last := moves[|moves| - 1];
      var before := moves[..|moves| - 1];
      var s := After(threads, before);
      OwedInvariant(threads, before, queues, q);
      ConsumersInvariant(threads, before, queues);
      SameThreads(s, last.t, last.a);
      if s.pcs[last.t].PSignal? {
        Sharing(s, last.t, queues);
      }
      OwedStays(s, last.t, last.a, q);
    }
  }

  /** No thread is in a call, but for those that sleep in one. */
  predicate Quiet(s: State) {
    forall t :: 0 <= t < |s.pcs| ==> s.pcs[t].Idle? || s.pcs[t].PAsleep? || s.pcs[t].CAsleep?
  }

  /** A consumer sleeps beside an item of its queue and nobody is acting. */
  predicate Stranded(s: State, q: QueueId) {
    Quiet(s) && AnySleeper(s, q) && s.Get(q).items != []
  }

  /** With two threads, or consumers of one queue only, every item beside a sleeping consumer has a thread that
      will signal for one or take one. So when nobody is acting, a queue whose consumers sleep has delivered all
      that it accepted. */
  lemma SleepersAreOwed(threads: nat, moves: seq<Move>, queues: set<QueueId>, q: QueueId)
    requires Possible(threads, moves) && ConsumesOnly(moves, queues) && NoThieves(threads, queues)
    ensures var s := After(threads, moves);
            AnySleeper(s, q) ==>
              && |s.Get(q).items| <= Owing(s.pcs, q)
              && (Quiet(s) ==> s.Get(q).delivered == s.Get(q).accepted)
  {
    var s := After(threads, moves);
    hide Owing, After, Possible;
    OwedInvariant(threads, moves, queues, q);
    if Quiet(s) {
      NobodyOwes(s.pcs, q);
      QueuesInvariant(threads, moves);
    }
  }

  // ---- what the shared conditions cost ---------------------------------------------------------

  const ITEM := MqData(0, "3", "", "")

  const STOLEN_MOVES := 18

  /** A producer (0), the consumer of the main queue (1) and that of the exceptions (2); others stay idle. */
  function StolenMove(i: nat): Move {
    match i
    case 0 => Move(1, Consume(Main))
    case 1 => Move(1, Go)
    case 2 => Move(1, Go)
    case 3 => Move(2, Consume(Exceptions))
    case 4 => Move(2, Go)
    case 5 => Move(2, Go)
    case 6 => Move(0, Produce(Main, ITEM))
    case 7 => Move(0, Go)
    case 8 => Move(0, Go)
    case 9 => Move(0, Signal({2}))
    case 10 => Move(0, Go)
    case 11 => Move(2, Go)
    case 12 => Move(2, Go)
    case 13 => Move(2, Signal({}))
    case 14 => Move(2, Go)
    case 15 => Move(2, Consume(Exceptions))
    case _ => Move(2, Go)
  }

  function StolenMoves(n: nat): seq<Move> {
    if n == 0 then [] else StolenMoves(n - 1) + [StolenMove(n - 1)]
  }

  function Crew(threads: nat, p: Pc, c: Pc, e: Pc): (pcs: seq<Pc>)
    requires threads >= 3
    ensures |pcs| == threads
  {
    [p, c, e] + seq(threads - 3, _ => Idle)
  }

  function Snapshot(threads: nat, full: bool, holder: Option<nat>, p: Pc, c: Pc, e: Pc): State
    requires threads >= 3
  {
    var main := if full then Queue([ITEM], [ITEM], [ITEM], [], []) else EMPTY_QUEUE;
    State(main, EMPTY_QUEUE, holder, Crew(threads, p, c, e))
  }

  function StolenState(threads: nat, i: nat): State
    requires threads >= 3
  {
    match i
    case 0 => Snapshot(threads, false, None, Idle, Idle, Idle)
    case 1 => Snapshot(threads, false, None, Idle, CEnter(Main), Idle)
    case 2 => Snapshot(threads, false, Some(1), Idle, CTest(Main), Idle)
    case 3 => Snapshot(threads, false, None, Idle, CAsleep(Main), Idle)
    case 4 => Snapshot(threads, false, None, Idle, CAsleep(Main), CEnter(Exceptions))
    case 5 => Snapshot(threads, false, Some(2), Idle, CAsleep(Main), CTest(Exceptions))
    case 6 => Snapshot(threads, false, None, Idle, CAsleep(Main), CAsleep(Exceptions))
    case 7 => Snapshot(threads, false, None, PEnter(Main, ITEM), CAsleep(Main), CAsleep(Exceptions))
    case 8 => Snapshot(threads, false, Some(0), PTest(Main, ITEM), CAsleep(Main), CAsleep(Exceptions))
    case 9 => Snapshot(threads, true, Some(0), PSignal(Main, ITEM), CAsleep(Main), CAsleep(Exceptions))
    case 10 => Snapshot(threads, true, Some(0), PLeave(Main, ITEM), CAsleep(Main), CWake(Exceptions))
    case 11 => Snapshot(threads, true, None, Idle, CAsleep(Main), CWake(Exceptions))
    case 12 => Snapshot(threads, true, Some(2), Idle, CAsleep(Main), CTake(Exceptions, true))
    case 13 => Snapshot(threads, true, Some(2), Idle, CAsleep(Main), CSignal(Exceptions, None))
    case 14 => Snapshot(threads, true, Some(2), Idle, CAsleep(Main), CLeave(Exceptions, None))
    case 15 => Snapshot(threads, true, None, Idle, CAsleep(Main), Idle)
    case 16 => Snapshot(threads, true, None, Idle, CAsleep(Main), CEnter(Exceptions))
    case 17 => Snapshot(threads, true, Some(2), Idle, CAsleep(Main), CTest(Exceptions))
    case _ => Snapshot(threads, true, None, Idle, CAsleep(Main), CAsleep(Exceptions))
  }

  lemma CrewMoves(threads: nat, p: Pc, c: Pc, e: Pc, x: Pc)
    requires threads >= 3
    ensures Crew(threads, p, c, e)[0 := x] == Crew(threads, x, c, e)
    ensures Crew(threads, p, c, e)[1 := x] == Crew(threads, p, x, e)
    ensures Crew(threads, p, c, e)[2 := x] == Crew(threads, p, c, x)
  {
  }

  /** The two signals: one wakes the consumer of the exceptions, one finds no producer. */
  lemma CrewSignals(threads: nat, p: Pc, c: Pc, e: Pc)
    requires threads >= 3 && !p.PAsleep? && !c.PAsleep? && !e.PAsleep?
    ensures e.CAsleep? ==> Wakeable(Crew(threads, p, c, e), {2}, false)
    ensures WakeAll(Crew(threads, p, c, e), {2}) == Crew(threads, p, c, Awake(e))
    ensures Wakeable(Crew(threads, p, c, e), {}, true)
    ensures WakeAll(Crew(threads, p, c, e), {}) == Crew(threads, p, c, e)
  {
    assert forall t :: 0 <= t < threads ==> !Asleep(Crew(threads, p, c, e)[t], true);
  }

  lemma StolenSignal(threads: nat)
    requires threads >= 3
    ensures Enabled(StolenState(threads, 9), 0, Signal({2}))
    ensures Step(StolenState(threads, 9), 0, Signal({2})) == StolenState(threads, 10)
    ensures Enabled(StolenState(threads, 13), 2, Signal({}))
    ensures Step(StolenState(threads, 13), 2, Signal({})) == StolenState(threads, 14)
  {
    hide WakeAll, Wakeable;
    CrewSignals(threads, PSignal(Main, ITEM), CAsleep(Main), CAsleep(Exceptions));
    CrewMoves(threads, PSignal(Main, ITEM), CAsleep(Main), CWake(Exceptions), PLeave(Main, ITEM));
    CrewSignals(threads, Idle, CAsleep(Main), CSignal(Exceptions, None));
    CrewMoves(threads, Idle, CAsleep(Main), CSignal(Exceptions, None), CLeave(Exceptions, None));
  }

  predicate Stolen(threads: nat, i: nat)
    requires threads >= 3
  {
    var m := StolenMove(i);
    && Enabled(StolenState(threads, i), m.t, m.a)
    && Step(StolenState(threads, i), m.t, m.a) == StolenState(threads, i + 1)
  }

  lemma StolenUntilSignal(threads: nat, i: nat)
    requires threads >= 3 && i < 9
    ensures Stolen(threads, i)
  {
    hide WakeAll, Wakeable;
  }

  lemma StolenAfterSignal(threads: nat, i: nat)
    requires threads >= 3 && 14 <= i < STOLEN_MOVES
    ensures Stolen(threads, i)
  {
    hide WakeAll, Wakeable;
  }

  lemma StolenStep(threads: nat, i: nat)
    requires threads >= 3 && i < STOLEN_MOVES
    ensures Stolen(threads, i)
  {
    if i < 9 {
      StolenUntilSignal(threads, i);
    } else if i == 9 || i == 13 {
      StolenSignal(threads);
    } else if i < 13 {
      hide WakeAll, Wakeable;
    } else {
      StolenAfterSignal(threads, i);
    }
  }

  lemma Extend(threads: nat, moves: seq<Move>, m: Move)
    requires Possible(threads, moves) && Enabled(After(threads, moves), m.t, m.a)
    ensures Possible(threads, moves + [m])
    ensures After(threads, moves + [m]) == Step(After(threads, moves), m.t, m.a)
  {
    hide Step, Enabled;
    assert (moves + [m])[..|moves|] == moves;
  }

  lemma StolenStart(threads: nat)
    requires threads >= 3
    ensures Possible(threads, []) && After(threads, []) == StolenState(threads, 0)
  {
    assert Start(threads).pcs == StolenState(threads, 0).pcs;
  }

  lemma {:induction false} StolenRun(threads: nat, i: nat)
    requires threads >= 3 && i <= STOLEN_MOVES
    ensures Possible(threads, StolenMoves(i)) && After(threads, StolenMoves(i)) == StolenState(threads, i)
  {
    hide Step, Enabled, Possible, After, StolenState, StolenMove;
    if i == 0 {
      StolenStart(threads);
    } else {
      StolenRun(threads, i - 1);
      StolenStep(threads, i - 1);
      Extend(threads, StolenMoves(i - 1), StolenMove(i - 1));
    }
  }

  /** The signal for an item of one queue may wake the consumer of the other one, which finds nothing and sleeps
      again. With three threads or more there is a run after which both consumers sleep and no call is in progress
      while the item stays queued: it is delivered only if another call signals, or by a spurious wake-up. */
  lemma ConsumersSleepBesideItem(threads: nat)
    requires threads >= 3
    ensures exists moves: seq<Move> ::
              && Possible(threads, moves) && Stranded(After(threads, moves), Main)
              && After(threads, moves).main.items == [ITEM] && After(threads, moves).holder.None?
  {
    hide Possible, After, StolenMoves;
    StolenRun(threads, STOLEN_MOVES);
    var s := StolenState(threads, STOLEN_MOVES);
    assert s.pcs[1] == CAsleep(Main);
  }

  /** No run leaves a consumer asleep beside an item of its queue with nobody acting. */
  ghost predicate NeverStrands(threads: nat, queues: set<QueueId>) {
    forall moves, q | Possible(threads, moves) && ConsumesOnly(moves, queues) :: !Stranded(After(threads, moves), q)
  }

  /** For every number of threads and every choice of queues that consumers are called for: no run strands an
      item exactly when there are at most two threads or at most one such queue. */
  lemma StrandsExactly(threads: nat, queues: set<QueueId>)
    ensures NeverStrands(threads, queues) <==> NoThieves(threads, queues)
  {
    if NoThieves(threads, queues) {
      hide Possible, After, Owing;
      forall moves, q | Possible(threads, moves) && ConsumesOnly(moves, queues)
        ensures !Stranded(After(threads, moves), q)
      {
        OwedInvariant(threads, moves, queues, q);
        if Quiet(After(threads, moves)) {
          NobodyOwes(After(threads, moves).pcs, q);
        }
      }
    } else {
      hide Possible, After, Stranded;
      ConsumersSleepBesideItem(threads);
      var moves: seq<Move> :| Possible(threads, moves) && Stranded(After(threads, moves), Main);
      forall m: Move | m in moves && m.a.Consume? ensures m.a.r in queues {
        TwoQueues(m.a.r);
      }
      assert ConsumesOnly(moves, queues);
    }
  }

  // ---- producers that sleep beside room ------------------------------------------------------------

  predicate ProducerSleeps(s: State, q: QueueId) {
    exists t :: 0 <= t < |s.pcs| && s.pcs[t].PAsleep? && s.pcs[t].q == q
  }

  predicate HasRoom(s: State, q: QueueId) {
    |s.Get(q).items| < MAX_QUEUE_DATA
  }

  predicate AnySignalFull(s: State) {
    exists t :: 0 <= t < |s.pcs| && s.pcs[t].CSignal?
  }

  /** While a producer sleeps beside room in its queue, a consumer is about to signal for producers. */
  predicate RoomTold(s: State, q: QueueId) {
    ProducerSleeps(s, q) && HasRoom(s, q) ==> AnySignalFull(s)
  }

  predicate OneAsleep(s: State) {
    forall t, u :: 0 <= t < |s.pcs| && 0 <= u < |s.pcs| && s.pcs[t].PAsleep? && s.pcs[u].PAsleep? ==> t == u
  }

  lemma OfferNeverShrinks(u: Queue, d: MqData)
    ensures |u.Offer(d).items| >= |u.items|
    ensures |u.items| >= MAX_QUEUE_DATA ==> u.Offer(d).items == u.items
  {
  }

  lemma MoverAndRoom(s: State, t: nat, a: Action, q: QueueId)
    requires Enabled(s, t, a)
    ensures var s' := Step(s, t, a);
            && t < |s'.pcs|
            && (HasRoom(s', q) && !HasRoom(s, q) ==> s'.pcs[t].CSignal?)
            && (s'.pcs[t].PAsleep? && s'.pcs[t].q == q ==> !HasRoom(s', q))
            && (s.pcs[t].CSignal? ==> a.Signal?)
  {
    hide WakeAll, Wakeable, Queue.Offer, Queue.Take;
    match s.pcs[t] {
      case PTest(r, d) => OfferNeverShrinks(s.Get(r), d);
      case _ =>
    }
  }

  /** The one sleeping producer is woken by the signal. */
  lemma SignalWakesProducer(s: State, t: nat, woken: set<nat>, q: QueueId)
    requires Enabled(s, t, Signal(woken)) && s.pcs[t].CSignal? && OneAsleep(s)
    ensures !ProducerSleeps(Step(s, t, Signal(woken)), q)
  {
    var s' := Step(s, t, Signal(woken));
    assert Wakeable(s.pcs, woken, true);
    if ProducerSleeps(s', q) {
      var u: nat :| u < |s'.pcs| && s'.pcs[u].PAsleep?;
      assert Asleep(s.pcs[u], true);
    }
  }

  lemma RoomStaysTold(s: State, t: nat, a: Action, q: QueueId)
    requires Enabled(s, t, a) && (s.pcs[t].CSignal? ==> OneAsleep(s)) && RoomTold(s, q)
    ensures RoomTold(Step(s, t, a), q)
  {
    hide Enabled, Step, HasRoom, OneAsleep;
    var s' := Step(s, t, a);
    SameThreads(s, t, a);
    MoverAndRoom(s, t, a, q);
    if s.pcs[t].CSignal? {
      SignalWakesProducer(s, t, a.woken, q);
    } else if ProducerSleeps(s', q) && HasRoom(s', q) {
      var u: nat :| u < |s'.pcs| && s'.pcs[u].PAsleep? && s'.pcs[u].q == q;
      OtherPc(s, t, a, u);
      if HasRoom(s, q) {
        var v: nat :| v < |s.pcs| && s.pcs[v].CSignal?;
        OtherPc(s, t, a, v);
        assert s'.pcs[v].CSignal?;
      } else {
        assert s'.pcs[t].CSignal?;
      }
    }
  }

  /** Only the threads of the set are called as producers. */
  predicate ProducesOnly(moves: seq<Move>, producers: set<nat>) {
    forall m <- moves :: m.a.Produce? ==> m.t in producers
  }

  predicate Producing(pc: Pc) {
    pc.PEnter? || pc.PTest? || pc.PAsleep? || pc.PWake? || pc.PSignal? || pc.PLeave?
  }

  predicate ProducersAre(s: State, producers: set<nat>) {
    forall t :: 0 <= t < |s.pcs| && Producing(s.pcs[t]) ==> t in producers
  }

  lemma MoverProduces(s: State, t: nat, a: Action)
    requires Enabled(s, t, a)
    ensures var s' := Step(s, t, a);
            t < |s'.pcs| && (Producing(s'.pcs[t]) ==> a.Produce? || Producing(s.pcs[t]))
  {
    hide WakeAll, Wakeable, Queue.Offer, Queue.Take;
  }

  lemma ProducersStay(s: State, t: nat, a: Action, producers: set<nat>)
    requires Enabled(s, t, a) && ProducersAre(s, producers) && (a.Produce? ==> t in producers)
    ensures ProducersAre(Step(s, t, a), producers)
  {
    hide Enabled, Step;
    SameThreads(s, t, a);
    MoverProduces(s, t, a);
    forall u | 0 <= u < |s.pcs| && u != t && Producing(Step(s, t, a).pcs[u]) ensures u in producers {
      OtherPc(s, t, a, u);
    }
  }

  lemma {:induction false} ProducersInvariant(threads: nat, moves: seq<Move>, producers: set<nat>)
    requires Possible(threads, moves) && ProducesOnly(moves, producers)
    ensures |After(threads, moves).pcs| == threads && ProducersAre(After(threads, moves), producers)
  {
    hide Step, Enabled;
    if moves != [] {
      var last := moves[|moves| - 1];
      var s := After(threads, moves[..|moves| - 1]);
      ProducersInvariant(threads, moves[..|moves| - 1], producers);
      SameThreads(s, last.t, last.a);
      ProducersStay(s, last.t, last.a, producers);
    }
  }

  /** At most two threads, or at most one that produces. */
  predicate LoneProducer(threads: nat, producers: set<nat>) {
    threads <= 2 || forall t, u :: t in producers && u in producers && t < threads && u < threads ==> t == u
  }

  lemma OneSleepsAlone(s: State, t: nat, producers: set<nat>)
    requires ProducersAre(s, producers) && LoneProducer(|s.pcs|, producers)
    requires t < |s.pcs| && s.pcs[t].CSignal?
    ensures OneAsleep(s)
  {
  }

  lemma {:induction false} RoomInvariant(threads: nat, moves: seq<Move>, producers: set<nat>, q: QueueId)
    requires Possible(threads, moves) && ProducesOnly(moves, producers) && LoneProducer(threads, producers)
    ensures RoomTold(After(threads, moves), q)
  {
    hide Step, Enabled, OneAsleep, LoneProducer, ProducersAre;
    if moves != [] {
      var last := moves[|moves| - 1];
      var before := moves[..|moves| - 1];
      var s := After(threads, before);
      RoomInvariant(threads, before, producers, q);
      ProducersInvariant(threads, before, producers);
      SameThreads(s, last.t, last.a);
      if s.pcs[last.t].CSignal? {
        OneSleepsAlone(s, last.t, producers);
      }
      RoomStaysTold(s, last.t, last.a, q);
    }
  }

  /** A producer sleeps beside room in its queue and nobody is acting. */
  predicate Forgotten(s: State, q: QueueId) {
    Quiet(s) && ProducerSleeps(s, q) && HasRoom(s, q)
  }

  // ---- a run that forgets a producer ---------------------------------------------------------------

  /** A state that some run with these producers leads to. */
  ghost predicate Reachable(threads: nat, producers: set<nat>, s: State) {
    exists moves :: Possible(threads, moves) && ProducesOnly(moves, producers) && After(threads, moves) == s
  }

  lemma Reach(threads: nat, producers: set<nat>, s: State, t: nat, a: Action)
    requires Reachable(threads, producers, s) && Enabled(s, t, a) && (a.Produce? ==> t in producers)
    ensures Reachable(threads, producers, Step(s, t, a))
  {
    hide Step, Enabled, Possible, After;
    var moves :| Possible(threads, moves) && ProducesOnly(moves, producers) && After(threads, moves) == s;
    Extend(threads, moves, Move(t, a));
    assert ProducesOnly(moves + [Move(t, a)], producers);
  }

  lemma NobodyWoken(pcs: seq<Pc>)
    ensures WakeAll(pcs, {}) == pcs
  {
  }

  /** A thread between calls, with the mutex free. */
  predicate Ready(s: State, t: nat) {
    t < |s.pcs| && s.pcs[t].Idle? && s.holder.None?
  }

  /** A producer up to its test. */
  lemma ProducerTests(threads: nat, producers: set<nat>, s: State, t: nat)
    requires Reachable(threads, producers, s) && Ready(s, t) && t in producers
    ensures Reachable(threads, producers, s.At(t, PTest(Main, ITEM)).(holder := Some(t)))
  {
    hide Reachable;
    Reach(threads, producers, s, t, Produce(Main, ITEM));
    var entered := s.At(t, PEnter(Main, ITEM));
    Reach(threads, producers, entered, t, Go);
    assert entered.pcs[t := PTest(Main, ITEM)] == s.pcs[t := PTest(Main, ITEM)];
  }

  /** A producer that finds the queue full. */
  lemma ProducerSleepsWhenFull(threads: nat, producers: set<nat>, s: State, t: nat)
    requires Reachable(threads, producers, s) && Ready(s, t) && t in producers && !HasRoom(s, Main)
    ensures Reachable(threads, producers, s.(main := s.main.Offer(ITEM)).At(t, PAsleep(Main, ITEM)))
  {
    hide Reachable, Queue.Offer;
    ProducerTests(threads, producers, s, t);
    var tested := s.At(t, PTest(Main, ITEM)).(holder := Some(t));
    Reach(threads, producers, tested, t, Go);
    assert tested.pcs[t := PAsleep(Main, ITEM)] == s.pcs[t := PAsleep(Main, ITEM)];
  }

  /** A producer that has the mutex and finds no consumer asleep. */
  lemma ProducerLeaves(threads: nat, producers: set<nat>, s: State, t: nat)
    requires t < |s.pcs| && !AnyAsleep(s.pcs, false)
    requires Reachable(threads, producers, s.At(t, PSignal(Main, ITEM)).(holder := Some(t)))
    ensures Reachable(threads, producers, s.At(t, Idle).(holder := None))
  {
    hide Reachable, WakeAll;
    var signalling := s.At(t, PSignal(Main, ITEM)).(holder := Some(t));
    assert Wakeable(signalling.pcs, {}, false);
    NobodyWoken(signalling.pcs);
    Reach(threads, producers, signalling, t, Signal({}));
    var leaving := s.At(t, PLeave(Main, ITEM)).(holder := Some(t));
    assert signalling.pcs[t := PLeave(Main, ITEM)] == leaving.pcs;
    Reach(threads, producers, leaving, t, Go);
    assert leaving.pcs[t := Idle] == s.pcs[t := Idle];
  }

  /** A whole call of a producer that finds room. */
  lemma ProducerAdds(threads: nat, producers: set<nat>, s: State, t: nat)
    requires Reachable(threads, producers, s) && Ready(s, t) && t in producers && HasRoom(s, Main)
    requires !AnyAsleep(s.pcs, false)
    ensures Reachable(threads, producers, s.(main := s.main.Offer(ITEM)))
  {
    hide Reachable, Queue.Offer, AnyAsleep;
    ProducerTests(threads, producers, s, t);
    var tested := s.At(t, PTest(Main, ITEM)).(holder := Some(t));
    Reach(threads, producers, tested, t, Go);
    var added := s.(main := s.main.Offer(ITEM));
    assert tested.pcs[t := PSignal(Main, ITEM)] == s.pcs[t := PSignal(Main, ITEM)];
    ProducerLeaves(threads, producers, added, t);
    assert s.pcs[t := Idle] == s.pcs;
  }

  /** A producer that was woken, with no consumer asleep. */
  lemma WokenProducerLeaves(threads: nat, producers: set<nat>, s: State, t: nat)
    requires Reachable(threads, producers, s) && s.holder.None? && !AnyAsleep(s.pcs, false)
    requires t < |s.pcs| && s.pcs[t] == PWake(Main, ITEM)
    ensures Reachable(threads, producers, s.At(t, Idle))
  {
    hide Reachable, AnyAsleep;
    Reach(threads, producers, s, t, Go);
    ProducerLeaves(threads, producers, s, t);
  }

  /** A consumer that has taken and wakes one producer. */
  lemma ConsumerLeaves(threads: nat, producers: set<nat>, s: State, t: nat, got: Option<MqData>, u: nat)
    requires Ready(s, t) && u < |s.pcs| && s.pcs[u] == PAsleep(Main, ITEM)
    requires Reachable(threads, producers, s.At(t, CSignal(Main, got)).(holder := Some(t)))
    ensures Reachable(threads, producers, s.At(u, PWake(Main, ITEM)))
  {
    hide Reachable;
    var signalling := s.At(t, CSignal(Main, got)).(holder := Some(t));
    Reach(threads, producers, signalling, t, Signal({u}));
    var woken := s.At(u, PWake(Main, ITEM));
    var leaving := woken.At(t, CLeave(Main, got)).(holder := Some(t));
    assert WakeAll(signalling.pcs, {u})[t := CLeave(Main, got)] == leaving.pcs;
    Reach(threads, producers, leaving, t, Go);
    assert leaving.pcs[t := Idle] == woken.pcs;
  }

  /** A whole call of a consumer that takes an item and wakes one producer. */
  lemma ConsumerWakes(threads: nat, producers: set<nat>, s: State, t: nat, u: nat)
    requires Reachable(threads, producers, s) && Ready(s, t) && s.main.items != []
    requires u < |s.pcs| && s.pcs[u] == PAsleep(Main, ITEM)
    ensures Reachable(threads, producers, s.(main := s.main.Take().0).At(u, PWake(Main, ITEM)))
  {
    hide Reachable, Queue.Take, WakeAll;
    Reach(threads, producers, s, t, Consume(Main));
    var entered := s.At(t, CEnter(Main));
    Reach(threads, producers, entered, t, Go);
    var tested := s.At(t, CTest(Main)).(holder := Some(t));
    assert entered.pcs[t := CTest(Main)] == tested.pcs;
    Reach(threads, producers, tested, t, Go);
    var taking := s.At(t, CTake(Main, false)).(holder := Some(t));
    assert tested.pcs[t := CTake(Main, false)] == taking.pcs;
    Reach(threads, producers, taking, t, Go);
    assert taking.pcs[t := CSignal(Main, s.main.Take().1)] == s.pcs[t := CSignal(Main, s.main.Take().1)];
    ConsumerLeaves(threads, producers, s.(main := s.main.Take().0), t, s.main.Take().1, u);
  }

  /** The main queue after n items. */
  function Stock(n: nat): Queue {
    if n == 0 then EMPTY_QUEUE else Stock(n - 1).Offer(ITEM)
  }

  function Stocked(threads: nat, n: nat): State {
    Start(threads).(main := Stock(n))
  }

  lemma {:induction false} StockSize(n: nat)
    requires n <= MAX_QUEUE_DATA
    ensures |Stock(n).items| == n
  {
    if n > 0 {
      StockSize(n - 1);
    }
  }

  lemma {:induction false} StockReached(threads: nat, producers: set<nat>, t: nat, n: nat)
    requires t in producers && t < threads && n <= MAX_QUEUE_DATA
    ensures Reachable(threads, producers, Stocked(threads, n))
  {
    hide Reachable, Queue.Offer;
    if n == 0 {
      StartReached(threads, producers);
    } else {
      StockReached(threads, producers, t, n - 1);
      StockSize(n - 1);
      ProducerAdds(threads, producers, Stocked(threads, n - 1), t);
    }
  }

  lemma StartReached(threads: nat, producers: set<nat>)
    ensures Reachable(threads, producers, Stocked(threads, 0))
  {
    assert ProducesOnly([], producers) && Possible(threads, []) && After(threads, []) == Start(threads);
  }

  /** Two producers sleep beside a full queue; the signal of the one take wakes the first, which signals for
      consumers only. */
  lemma FirstOfTwoWoken(threads: nat, producers: set<nat>, t: nat, u: nat, c: nat)
    requires t in producers && u in producers && t < threads && u < threads && c < threads && t != u && t != c && u != c
    ensures exists s :: Reachable(threads, producers, s) && Forgotten(s, Main) && |s.main.items| == MAX_QUEUE_DATA - 1
  {
    hide Reachable, Stock;
    var full := Stocked(threads, MAX_QUEUE_DATA);
    StockReached(threads, producers, t, MAX_QUEUE_DATA);
    StockSize(MAX_QUEUE_DATA);
    ProducerSleepsWhenFull(threads, producers, full, t);
    var one := full.(main := full.main.Offer(ITEM)).At(t, PAsleep(Main, ITEM));
    ProducerSleepsWhenFull(threads, producers, one, u);
    var two := one.(main := one.main.Offer(ITEM)).At(u, PAsleep(Main, ITEM));
    ConsumerWakes(threads, producers, two, c, t);
    var woken := two.(main := two.main.Take().0).At(t, PWake(Main, ITEM));
    WokenProducerLeaves(threads, producers, woken, t);
    var last := woken.At(t, Idle);
    assert last.pcs[u] == PAsleep(Main, ITEM);
  }

  /** The first thread that is neither of two. */
  function Third(t: nat, u: nat): (c: nat)
    ensures c <= 2 && c != t && c != u
  {
    if t != 0 && u != 0 then 0 else if t != 1 && u != 1 then 1 else 2
  }

  /** A take signals for one producer, and the producer it wakes signals for consumers only. With a third thread,
      any two producers have a run after which one of them sleeps beside room for an item and nobody is acting. */
  lemma ProducerSleepsBesideRoom(threads: nat, producers: set<nat>, t: nat, u: nat)
    requires threads >= 3 && t in producers && u in producers && t < threads && u < threads && t != u
    ensures exists moves ::
              && Possible(threads, moves) && ProducesOnly(moves, producers)
              && Forgotten(After(threads, moves), Main)
              && |After(threads, moves).main.items| == MAX_QUEUE_DATA - 1
  {
    hide Forgotten, Possible, After, ProducesOnly;
    FirstOfTwoWoken(threads, producers, t, u, Third(t, u));
  }

  /** No run leaves a producer asleep beside room in its queue with nobody acting. */
  ghost predicate NeverForgets(threads: nat, producers: set<nat>) {
    forall moves, q | Possible(threads, moves) && ProducesOnly(moves, producers) ::
      !Forgotten(After(threads, moves), q)
  }

  /** For every number of threads and every choice of those that produce: no run leaves a producer asleep beside
      room with nobody acting exactly when there are at most two threads or at most one of them produces. */
  lemma ForgetsExactly(threads: nat, producers: set<nat>)
    ensures NeverForgets(threads, producers) <==> LoneProducer(threads, producers)
  {
    hide Possible, After;
    if LoneProducer(threads, producers) {
      forall moves, q | Possible(threads, moves) && ProducesOnly(moves, producers)
        ensures !Forgotten(After(threads, moves), q)
      {
        RoomInvariant(threads, moves, producers, q);
      }
    } else {
      hide Forgotten, ProducesOnly;
      var t, u :| t in producers && u in producers && t < threads && u < threads && t != u;
      ProducerSleepsBesideRoom(threads, producers, t, u);
    }
  }
}
