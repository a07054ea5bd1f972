/** What a reading of the log hands on, told by the bytes of its events alone: which events are rows, and which
    table map, query and last table map each of them comes with. */
module LogRows {
  import opened Arith
  import opened ByteStore
  import opened LogTail
  import opened LogTailTheorems
  import opened Options

  // ---- the bytes of an event -----------------------------------------------------------------

  /** An event as a server lays it out: time, type, server, length, next position, flags and the body. */
  function EventOf(time: seq<Byte>, t: Byte, server: seq<Byte>, next: seq<Byte>, flags: seq<Byte>, body: seq<Byte>)
    : Event
  {
    time + [t] + server + FourBytes(19 + |body|) + next + flags + body
  }

  function FourBytes(n: nat): (s: seq<Byte>)
    ensures |s| == 4
  {
    [n % 0x100, n / 0x100 % 0x100, n / 0x1_0000 % 0x100, n / 0x100_0000 % 0x100]
  }

  /** An event with a body is one that the reader takes for an event of its type. */
  lemma EventLayout(time: seq<Byte>, t: Byte, server: seq<Byte>, next: seq<Byte>, flags: seq<Byte>, body: seq<Byte>)
    requires |time| == |server| == |next| == 4 && |flags| == 2 && 0 < |body| < 0x7000_0000
    ensures var e := EventOf(time, t, server, next, flags, body);
            IsEvent(e) && TypeOf(e) == t && e[19..] == body
  {
    hide LittleEndian;
    var n := 19 + |body|;
    var length := FourBytes(n);
    var e := EventOf(time, t, server, next, flags, body);
    assert e == time + [t] + server + (length + (next + flags + body));
    assert e[9..] == length + (next + flags + body);
    assert e[19..] == body;
    LittleEndianTable(e[9..]);
    FourDigits(n);
  }

  lemma FourDigits(n: nat)
    requires n < 0x8000_0000
    ensures n % 0x100 + 0x100 * (n / 0x100 % 0x100) + 0x1_0000 * (n / 0x1_0000 % 0x100)
            + 0x100_0000 * (n / 0x100_0000 % 0x100) == n
  {
    DivDiv(n, 0x100, 0x100);
    DivDiv(n, 0x1_0000, 0x100);
  }

  /** A log is the four bytes FE 'b' 'i' 'n' and its events, each where the one before it ends. */
  lemma FileLayout(events: seq<Event>, i: nat)
    requires i < |events|
    ensures LogOf(events)[..4] == [254, 98, 105, 110] && Offset(events, 0) == 4
    ensures Offset(events, i + 1) == Offset(events, i) + |events[i]| <= |LogOf(events)|
    ensures LogOf(events)[Offset(events, i)..Offset(events, i + 1)] == events[i]
    ensures i + 1 == |events| ==> Offset(events, i + 1) == |LogOf(events)|
  {
    EventBytes(events, i);
    OffsetEnd(events);
  }

  // ---- which events count ----------------------------------------------------------------------

  /** The byte that tells the type. */
  function Code(e: Event): nat {
    if |e| > 4 then e[4] else 0
  }

  /** Start, rotate, format description and previous GTIDs. */
  predicate Leads(e: Event) {
    Code(e) in {1, 4, 15, 35}
  }

  predicate Unknown(e: Event) {
    Code(e) == 0 || Code(e) > 39
  }

  /** Inserted, updated or deleted rows, in the old format and in the new one. */
  predicate HasRows(e: Event) {
    Code(e) in {23, 24, 25, 30, 31, 32}
  }

  /** What a rows event is handed on with. */
  datatype Wanted = Query | AnyTableMap | TableMapOf(id: seq<Byte>) {
    predicate Is(e: Event) {
      match this
      case Query => Code(e) == 2
      case AnyTableMap => Code(e) == 19
      case TableMapOf(id) => Code(e) == 19 && |e| >= 23 && e[19..23] == id
    }
  }

  /** Table maps and rows that hold a table id. */
  predicate HaveIds(events: seq<Event>) {
    forall i :: 0 <= i < |events| && (Code(events[i]) == 19 || HasRows(events[i])) ==> |events[i]| >= 23
  }

  /** The reading is of the events from number a on, up to number b: what leads is passed over, and it stops at
      the first unknown event. */
  predicate IsRead(events: seq<Event>, a: nat, b: nat) {
    && a <= b <= |events|
    && (forall i :: 0 <= i < a ==> Leads(events[i]))
    && (a < |events| ==> !Leads(events[a]))
    && (forall i :: a <= i < b ==> !Unknown(events[i]))
    && (b < |events| ==> Unknown(events[b]))
  }

  /** The last of the events a .. j-1 that is wanted, where it lies in the file, or none. */
  predicate IsLatest(events: seq<Event>, a: nat, j: nat, wanted: Wanted, found: Option<Located>)
    requires j <= |events|
  {
    match found
    case None => forall i :: a <= i < j ==> !wanted.Is(events[i])
    case Some(at) =>
      exists i :: a <= i < j && wanted.Is(events[i]) && at == Located(Offset(events, i), events[i])
                  && forall m :: i < m < j ==> !wanted.Is(events[m])
  }

  /** The numbers of the rows events among a .. b-1, in order. */
  function RowNumbers(events: seq<Event>, a: nat, b: nat): (rows: seq<nat>)
    requires b <= |events|
    ensures forall k :: 0 <= k < |rows| ==> a <= rows[k] < b && HasRows(events[rows[k]])
    ensures forall k, l :: 0 <= k < l < |rows| ==> rows[k] < rows[l]
    ensures forall i :: a <= i < b && HasRows(events[i]) ==> i in rows
  {
    if b <= a then [] else RowNumbers(events, a, b - 1) + if HasRows(events[b - 1]) then [b - 1] else []
  }

  /** Event j, handed on with what the reader remembers. */
  predicate HandedOn(events: seq<Event>, a: nat, j: nat, out: RowsOut)
    requires j < |events|
  {
    && out.row == Located(Offset(events, j), events[j])
    && (|events[j]| >= 23 ==> IsLatest(events, a, j, TableMapOf(events[j][19..23]), out.table))
    && IsLatest(events, a, j, Query, out.query)
    && IsLatest(events, a, j, AnyTableMap, out.lastMap)
  }

  /** All rows events of a .. b-1, in order, and what is remembered behind them. */
  ghost predicate Tells(events: seq<Event>, a: nat, b: nat, m: Memory)
    requires b <= |events|
  {
    && |m.out| == |RowNumbers(events, a, b)|
    && (forall k :: 0 <= k < |m.out| ==> HandedOn(events, a, RowNumbers(events, a, b)[k], m.out[k]))
    && IsLatest(events, a, b, Query, m.query)
    && IsLatest(events, a, b, AnyTableMap, m.lastMap)
    && forall id: seq<Byte> | |id| == 4 ::
         IsLatest(events, a, b, TableMapOf(id), Find(m.tableMaps, LittleEndian(id, 4)))
  }

  // ---- the reader does that ----------------------------------------------------------------------

  lemma {:induction false} SameId(a: seq<Byte>, b: seq<Byte>, n: nat)
    requires |a| == |b| == n && LittleEndian(a, n) == LittleEndian(b, n)
    ensures a == b
  {
    if n > 0 {
      var x, y := LittleEndian(a[1..], n - 1), LittleEndian(b[1..], n - 1);
      DivModUnique(LittleEndian(a, n), 0x100, x, At(a, 0));
      DivModUnique(LittleEndian(b, n), 0x100, y, At(b, 0));
      SameId(a[1..], b[1..], n - 1);
      assert a == [a[0]] + a[1..] && b == [b[0]] + b[1..];
    }
  }

  /** One event more: the wanted one is it, or still the one before. */
  lemma LatestStep(events: seq<Event>, a: nat, j: nat, wanted: Wanted, found: Option<Located>)
    requires a <= j < |events| && IsLatest(events, a, j, wanted, found)
    ensures wanted.Is(events[j]) ==>
              IsLatest(events, a, j + 1, wanted, Some(Located(Offset(events, j), events[j])))
    ensures !wanted.Is(events[j]) ==> IsLatest(events, a, j + 1, wanted, found)
  {
    hide Wanted.Is, Offset;
  }

  lemma CodeIsType(e: Event)
    requires IsEvent(e)
    ensures |e| > 19 && Code(e) == TypeOf(e)
    ensures Leads(e) <==> HeaderType(TypeOf(e))
    ensures Unknown(e) <==> !Known(TypeOf(e))
    ensures HasRows(e) <==> RowsType(TypeOf(e))
  {
    hide LittleEndian;
  }

  lemma IdOf(e: Event)
    requires IsEvent(e) && |e| >= 23
    ensures TableId(e) == LittleEndian(e[19..23], 4)
  {
    assert e[19..][..4] == e[19..23];
    LittleEndianOfPrefix(e[19..], 4, 4);
  }

  /** The table maps after event j. */
  lemma MapsStep(events: seq<Event>, a: nat, j: nat, maps: map<nat, Located>, id: seq<Byte>)
    requires a <= j < |events| && IsEvent(events[j]) && (Code(events[j]) == 19 ==> |events[j]| >= 23) && |id| == 4
    requires IsLatest(events, a, j, TableMapOf(id), Find(maps, LittleEndian(id, 4)))
    ensures var here := Located(Offset(events, j), events[j]);
            var maps' := if Code(events[j]) == 19 then maps[TableId(events[j]) := here] else maps;
            IsLatest(events, a, j + 1, TableMapOf(id), Find(maps', LittleEndian(id, 4)))
  {
    hide IsLatest, Offset, LittleEndian, TableId, IsEvent;
    var e := events[j];
    LatestStep(events, a, j, TableMapOf(id), Find(maps, LittleEndian(id, 4)));
    if Code(e) == 19 {
      IdOf(e);
      if LittleEndian(e[19..23], 4) == LittleEndian(id, 4) {
        SameId(e[19..23], id, 4);
      }
    }
  }

  /** What an event does, told by its code. */
  lemma Effects(m: Memory, e: Event, pos: nat)
    requires IsEvent(e)
    ensures var m' := Apply(m, e, pos);
            var here := Located(pos, e);
            && m'.query == (if Code(e) == 2 then Some(here) else m.query)
            && m'.lastMap == (if Code(e) == 19 then Some(here) else m.lastMap)
            && m'.tableMaps == (if Code(e) == 19 then m.tableMaps[TableId(e) := here] else m.tableMaps)
            && m'.out == m.out
               + if HasRows(e) then [RowsOut(here, Find(m.tableMaps, TableId(e)), m.query, m.lastMap)] else []
  {
    CodeIsType(e);
    hide IsEvent, TableId, Find;
  }

  lemma OutStep(events: seq<Event>, a: nat, j: nat, m: Memory)
    requires a <= j < |events| && IsEvent(events[j]) && (HasRows(events[j]) ==> |events[j]| >= 23)
    requires Tells(events, a, j, m)
    ensures var m' := Apply(m, events[j], Offset(events, j));
            var rows := RowNumbers(events, a, j + 1);
            && |m'.out| == |rows|
            && forall k :: 0 <= k < |rows| ==> HandedOn(events, a, rows[k], m'.out[k])
  {
    hide IsLatest, Offset, LittleEndian, TableId, IsEvent, Apply;
    var e := events[j];
    Effects(m, e, Offset(events, j));
    if HasRows(e) {
      IdOf(e);
      var out := RowsOut(Located(Offset(events, j), e), Find(m.tableMaps, TableId(e)), m.query, m.lastMap);
      assert HandedOn(events, a, j, out);
    }
  }

  lemma TellsStep(events: seq<Event>, a: nat, j: nat, m: Memory)
    requires a <= j < |events| && IsEvent(events[j])
    requires Code(events[j]) == 19 || HasRows(events[j]) ==> |events[j]| >= 23
    requires Tells(events, a, j, m)
    ensures Tells(events, a, j + 1, Apply(m, events[j], Offset(events, j)))
  {
    hide IsLatest, HandedOn, Offset, LittleEndian, TableId, IsEvent, Apply, RowNumbers, Find;
    var e := events[j];
    var m' := Apply(m, e, Offset(events, j));
    Effects(m, e, Offset(events, j));
    LatestStep(events, a, j, Query, m.query);
    LatestStep(events, a, j, AnyTableMap, m.lastMap);
    OutStep(events, a, j, m);
    forall id: seq<Byte> | |id| == 4
      ensures IsLatest(events, a, j + 1, TableMapOf(id), Find(m'.tableMaps, LittleEndian(id, 4)))
    {
      MapsStep(events, a, j, m.tableMaps, id);
    }
  }

  lemma {:induction false} RunTells(events: seq<Event>, a: nat, i: nat, b: nat, m: Memory)
    requires AreEvents(events) && HaveIds(events) && a <= i <= b && IsRead(events, a, b) && Tells(events, a, i, m)
    ensures Tells(events, a, b, Run(m, events, i, |events|))
    decreases b - i
  {
    hide Tells, Apply, Offset, Code;
    if i < |events| {
      CodeIsType(events[i]);
    }
    if i < b {
      TellsStep(events, a, i, m);
      RunTells(events, a, i + 1, b, Apply(m, events[i], Offset(events, i)));
    }
  }

  lemma NothingTold(events: seq<Event>, a: nat)
    requires a <= |events|
    ensures Tells(events, a, a, FRESH)
  {
  }

  lemma StartsBehindLeading(events: seq<Event>, a: nat, b: nat)
    requires AreEvents(events) && IsRead(events, a, b)
    ensures Leading(events, 0) == a
  {
    hide Code;
    forall i: nat | i < |events| ensures Leads(events[i]) <==> HeaderType(TypeOf(events[i])) {
      CodeIsType(events[i]);
    }
  }

  /** One reading of a file, for every list of events: behind the leading events and up to the first unknown one,
      every rows event is handed on, in order, with the last table map before it that has its table id, the last
      query and the last table map, each with its bytes and its place in the file. */
  lemma ReadingTells(events: seq<Event>, a: nat, b: nat)
    requires AreEvents(events) && HaveIds(events) && IsRead(events, a, b)
    ensures Tells(events, a, b, Poll(START, events).0.memory)
  {
    hide Tells, Run, IsRead, LogOf;
    StartsBehindLeading(events, a, b);
    NothingTold(events, a);
    PartInOrder(events, a, b);
    RunTells(events, a, a, b, FRESH);
  }

  lemma PartInOrder(events: seq<Event>, a: nat, b: nat)
    requires IsRead(events, a, b)
    ensures a <= b <= |events|
  {
  }

  /** Every file has one part that is read. */
  lemma SomePartIsRead(events: seq<Event>)
    requires AreEvents(events)
    ensures exists a, b :: IsRead(events, a, b)
  {
    hide Code;
    var a := Leading(events, 0);
    forall i: nat | i < |events|
      ensures Leads(events[i]) <==> HeaderType(TypeOf(events[i]))
      ensures Unknown(events[i]) <==> !Known(TypeOf(events[i]))
    {
      CodeIsType(events[i]);
    }
    var b := a;
    while b < |events| && !Unknown(events[b])
      invariant a <= b <= |events| && forall i :: a <= i < b ==> !Unknown(events[i])
    {
      b := b + 1;
    }
    assert IsRead(events, a, b);
  }

  /** A growing file that is polled again and again: the same, when nothing that counts follows an unknown event. */
  lemma FollowingTells(events: seq<Event>, counts: seq<nat>, a: nat, b: nat)
    requires AreEvents(events) && HaveIds(events) && IsRead(events, a, b) && IsChain(counts, |events|)
    requires forall j :: b < j < |events| ==> Code(events[j]) != 2 && Code(events[j]) != 19 && !HasRows(events[j])
    ensures Within(counts, |events|)
    ensures Tells(events, a, b, AfterPolls(START, events, counts).memory)
  {
    hide Tells, Run, LogOf, Poll, AfterPolls;
    StartsBehindLeading(events, a, b);
    forall i, j | a <= i < j < |events| && !Known(TypeOf(events[i])) ensures !Effective(TypeOf(events[j])) {
      CodeIsType(events[i]);
      CodeIsType(events[j]);
    }
    ReadingTells(events, a, b);
    TailingExactly(events);
    assert SameAsOnePoll(events, counts);
  }

  /** What a poll returns and where the reader goes on: it fails, and stays where it is, when it has read nothing yet
      and all events lead; otherwise it goes on behind the last byte there was. */
  lemma PollOutcome(p: Progress, events: seq<Event>)
    requires AreEvents(events)
    ensures var (q, ok) := Poll(p, events);
            && (!ok <==> p.ptr == 0 && forall i :: 0 <= i < |events| ==> Leads(events[i]))
            && (!ok ==> q == p)
            && (ok ==> q.ptr == (if p.ptr == 0 || p.ptr < |LogOf(events)| then |LogOf(events)| else p.ptr))
            && (p.ptr >= |LogOf(events)| ==> q == p)
  {
    hide Run, Code, LogOf;
    LogNotEmpty(events);
    forall i: nat | i < |events| ensures Leads(events[i]) <==> HeaderType(TypeOf(events[i])) {
      CodeIsType(events[i]);
    }
  }

  lemma LogNotEmpty(events: seq<Event>)
    ensures |LogOf(events)| > 0
  {
  }
}
