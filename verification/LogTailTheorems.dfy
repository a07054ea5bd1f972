/** Following a growing log event by event, poll by poll, against reading the final file once. */
module LogTailTheorems {
  import opened Arith
  import opened LogTail

  // ---- the events of a shorter file are the first events of the longer one -------------------

  lemma {:induction false} OffsetOfPrefix(events: seq<Event>, n: nat, i: nat)
    requires i <= n <= |events|
    ensures Offset(events[..n], i) == Offset(events, i)
  {
    if i > 0 {
      OffsetOfPrefix(events, n, i - 1);
    }
  }

  lemma {:induction false} RunOnPrefix(m: Memory, events: seq<Event>, n: nat, i: nat, j: nat)
    requires AreEvents(events) && i <= j <= n <= |events|
    ensures Run(m, events[..n], i, j) == Run(m, events, i, j)
    decreases j - i
  {
    hide Apply, TypeOf;
    if i < j && Known(TypeOf(events[i])) {
      OffsetOfPrefix(events, n, i);
      RunOnPrefix(Apply(m, events[i], Offset(events, i)), events, n, i + 1, j);
    }
  }

  lemma {:induction false} LeadingOfPrefix(events: seq<Event>, n: nat, i: nat)
    requires AreEvents(events) && i <= n <= |events|
    ensures Leading(events[..n], i) == if Leading(events, i) < n then Leading(events, i) else n
    decreases n - i
  {
    if i < n && HeaderType(TypeOf(events[i])) {
      LeadingOfPrefix(events, n, i + 1);
    }
  }

  lemma SizeOfPrefix(events: seq<Event>, n: nat)
    requires AreEvents(events) && n <= |events|
    ensures AreEvents(events[..n]) && |LogOf(events[..n])| == Offset(events, n)
  {
    OffsetEnd(events[..n]);
    OffsetOfPrefix(events, n, n);
  }

  // ---- runs in pieces ------------------------------------------------------------------------

  /** Events that change what the reader remembers or hands on. */
  predicate Effective(t: nat) {
    t == QUERY_EVENT || t == TABLE_MAP_EVENT || RowsType(t)
  }

  lemma {:induction false} RunIdle(m: Memory, events: seq<Event>, i: nat, j: nat)
    requires AreEvents(events) && i <= j <= |events|
    requires forall b :: i <= b < j ==> !Effective(TypeOf(events[b]))
    ensures Run(m, events, i, j) == m
    decreases j - i
  {
    if i < j && Known(TypeOf(events[i])) {
      RunIdle(m, events, i + 1, j);
    }
  }

  /** Nothing effective follows an event of unknown type. */
  predicate Tailable(events: seq<Event>, from: nat)
    requires AreEvents(events) && from <= |events|
  {
    forall a, b :: from <= a < b < |events| && !Known(TypeOf(events[a])) ==> !Effective(TypeOf(events[b]))
  }

  lemma {:induction false} RunInPieces(m: Memory, events: seq<Event>, i: nat, n: nat, j: nat)
    requires AreEvents(events) && i <= n <= j <= |events| && Tailable(events, i)
    ensures Run(Run(m, events, i, n), events, n, j) == Run(m, events, i, j)
    decreases n - i
  {
    hide Apply, TypeOf;
    if i < n {
      if Known(TypeOf(events[i])) {
        RunInPieces(Apply(m, events[i], Offset(events, i)), events, i + 1, n, j);
      } else {
        RunIdle(m, events, n, j);
      }
    }
  }

  // ---- one poll ------------------------------------------------------------------------------

  /** What a reader has when it has seen n events: nothing as long as they are all header events. */
  function Done(events: seq<Event>, n: nat): Progress
    requires AreEvents(events) && n <= |events|
  {
    var k := Leading(events, 0);
    if n <= k then Progress(FRESH, 0) else Progress(Run(FRESH, events, k, n), Offset(events, n))
  }

  lemma PollContinues(events: seq<Event>, n: nat, n': nat)
    requires AreEvents(events) && n <= n' <= |events| && Tailable(events, Leading(events, 0))
    ensures AreEvents(events[..n']) && Poll(Done(events, n), events[..n']).0 == Done(events, n')
  {
    hide *;
    SizeOfPrefix(events, n');
    if n <= Leading(events, 0) {
      DoneEarly(events, n);
      StartsAt(events, n');
    } else {
      DoneLater(events, n);
      DoneLater(events, n');
      LaterPoll(Done(events, n), events, n, n');
      RunTo(events, n, n');
    }
  }

  lemma DoneEarly(events: seq<Event>, n: nat)
    requires AreEvents(events) && n <= |events| && n <= Leading(events, 0)
    ensures Done(events, n) == Progress(FRESH, 0)
  {
  }

  lemma DoneLater(events: seq<Event>, n: nat)
    requires AreEvents(events) && Leading(events, 0) < n <= |events|
    ensures Done(events, n) == Progress(Run(FRESH, events, Leading(events, 0), n), Offset(events, n))
  {
  }

  lemma StartsAt(events: seq<Event>, n: nat)
    requires AreEvents(events) && n <= |events|
    ensures AreEvents(events[..n]) && Poll(Progress(FRESH, 0), events[..n]).0 == Done(events, n)
  {
    hide Run;
    var k := Leading(events, 0);
    SizeOfPrefix(events, n);
    LeadingOfPrefix(events, n, 0);
    if k < n {
      RunOnPrefix(FRESH, events, n, k, n);
    }
  }

  lemma LaterPoll(p: Progress, events: seq<Event>, n: nat, n': nat)
    requires AreEvents(events) && 0 < n <= n' <= |events| && p.ptr == Offset(events, n)
    ensures AreEvents(events[..n'])
    ensures Poll(p, events[..n']).0 == Progress(Run(p.memory, events, n, n'), Offset(events, n'))
  {
    hide Run;
    SizeOfPrefix(events, n');
    OffsetsGrow(events, 0, n);
    if n < n' {
      OffsetsGrow(events, n, n');
      ResumesAt(events, n, n');
      RunOnPrefix(p.memory, events, n', n, n');
    } else {
      RunNone(p.memory, events, n);
    }
  }

  lemma RunNone(m: Memory, events: seq<Event>, n: nat)
    requires AreEvents(events) && n <= |events|
    ensures Run(m, events, n, n) == m
  {
  }

  lemma ResumesAt(events: seq<Event>, n: nat, n': nat)
    requires AreEvents(events) && n <= n' <= |events|
    ensures IndexAt(events[..n'], Offset(events, n), 0) == n
  {
    IndexFound(events[..n'], 0, n);
    OffsetOfPrefix(events, n', n);
  }

  lemma RunTo(events: seq<Event>, n: nat, n': nat)
    requires AreEvents(events) && Leading(events, 0) <= n <= n' <= |events| && Tailable(events, Leading(events, 0))
    ensures var k := Leading(events, 0);
            Run(Run(FRESH, events, k, n), events, n, n') == Run(FRESH, events, k, n')
  {
    RunInPieces(FRESH, events, Leading(events, 0), n, n');
  }

  // ---- chains of polls -----------------------------------------------------------------------

  /** The numbers of events in the successive snapshots of a file that grows to n events. */
  predicate IsChain(counts: seq<nat>, n: nat) {
    && counts != [] && counts[|counts| - 1] == n
    && forall i, j :: 0 <= i <= j < |counts| ==> counts[i] <= counts[j]
  }

  predicate Within(counts: seq<nat>, n: nat) {
    forall i :: 0 <= i < |counts| ==> counts[i] <= n
  }

  function AfterPolls(p: Progress, events: seq<Event>, counts: seq<nat>): Progress
    requires AreEvents(events) && Within(counts, |events|)
  {
    if counts == [] then p
    else
      var last := |counts| - 1;
      Poll(AfterPolls(p, events, counts[..last]), events[..counts[last]]).0
  }

  const START := Progress(FRESH, 0)

  lemma {:induction false} ChainIsDone(events: seq<Event>, counts: seq<nat>, n: nat)
    requires AreEvents(events) && n <= |events| && IsChain(counts, n) && Tailable(events, Leading(events, 0))
    ensures Within(counts, |events|)
    ensures AfterPolls(START, events, counts) == Done(events, n)
  {
    hide Poll, Tailable, Done;
    var last := |counts| - 1;
    var front := counts[..last];
    if last == 0 {
      assert Done(events, 0) == START by {
        NothingDone(events);
      }
      assert front == [];
      PollContinues(events, 0, n);
    } else {
      ChainIsDone(events, front, counts[last - 1]);
      PollContinues(events, counts[last - 1], n);
    }
  }

  lemma NothingDone(events: seq<Event>)
    requires AreEvents(events)
    ensures Done(events, 0) == START
  {
  }

  lemma OnePoll(events: seq<Event>)
    requires AreEvents(events)
    ensures Poll(START, events).0 == Done(events, |events|)
  {
    OffsetEnd(events);
  }

  // ---- what an unknown event costs -----------------------------------------------------------

  /** Everything remembered or handed on comes from before position b. */
  predicate Before(m: Memory, b: nat) {
    && (m.query.Some? ==> m.query.value.pos < b)
    && (m.lastMap.Some? ==> m.lastMap.value.pos < b)
    && forall i :: 0 <= i < |m.out| ==> m.out[i].row.pos < b
  }

  lemma ApplyBefore(m: Memory, e: Event, pos: nat, b: nat)
    requires IsEvent(e)
    ensures Before(m, b) && pos < b ==> Before(Apply(m, e, pos), b)
    ensures pos >= b && (!Before(m, b) || Effective(TypeOf(e))) ==> !Before(Apply(m, e, pos), b)
  {
    if RowsType(TypeOf(e)) {
      var out := Apply(m, e, pos).out;
      assert out[|m.out|].row.pos == pos;
      assert forall i :: 0 <= i < |m.out| ==> out[i] == m.out[i];
    }
  }

  lemma {:induction false} RunBefore(m: Memory, events: seq<Event>, i: nat, j: nat)
    requires AreEvents(events) && i <= j < |events| && Before(m, Offset(events, j))
    ensures Before(Run(m, events, i, j), Offset(events, j))
    decreases j - i
  {
    hide Apply, Before, TypeOf;
    if i < j && Known(TypeOf(events[i])) {
      OffsetsGrow(events, i, j);
      ApplyBefore(m, events[i], Offset(events, i), Offset(events, j));
      RunBefore(Apply(m, events[i], Offset(events, i)), events, i + 1, j);
    }
  }

  lemma {:induction false} RunStaysPast(m: Memory, events: seq<Event>, i: nat, j: nat, b: nat)
    requires AreEvents(events) && i <= j <= |events| && !Before(m, b) && b <= Offset(events, i)
    ensures !Before(Run(m, events, i, j), b)
    decreases j - i
  {
    hide Apply, Before, TypeOf;
    if i < j && Known(TypeOf(events[i])) {
      ApplyBefore(m, events[i], Offset(events, i), b);
      OffsetsGrow(events, i, i + 1);
      RunStaysPast(Apply(m, events[i], Offset(events, i)), events, i + 1, j, b);
    }
  }

  lemma {:induction false} RunStops(m: Memory, events: seq<Event>, i: nat, a: nat, j: nat)
    requires AreEvents(events) && i <= a < j <= |events| && !Known(TypeOf(events[a]))
    ensures Run(m, events, i, j) == Run(m, events, i, a)
    decreases a - i
  {
    hide Apply;
    if i < a && Known(TypeOf(events[i])) {
      RunStops(Apply(m, events[i], Offset(events, i)), events, i + 1, a, j);
    }
  }

  /** With an effective event b after an unknown one, three polls keep what one poll loses. */
  lemma UnknownEventLoses(events: seq<Event>, a: nat, b: nat)
    requires AreEvents(events) && Leading(events, 0) <= a < b < |events|
    requires !Known(TypeOf(events[a])) && Effective(TypeOf(events[b]))
    ensures IsChain([b, b + 1, |events|], |events|)
    ensures AfterPolls(START, events, [b, b + 1, |events|]) != Poll(START, events).0
  {
    hide *;
    var limit := Offset(events, b);
    OnePollStops(events, a, b);
    var p1 := StepTo(START, events, b);
    var p2 := StepTo(p1, events, b + 1);
    var p3 := StepTo(p2, events, |events|);
    assert p1.ptr == limit by {
      FirstStep(events, b);
    }
    assert p2.ptr == Offset(events, b + 1) && !Before(p2.memory, limit) by {
      StepOver(p1, events, b, b + 1);
      OneEvent(p1.memory, events, b);
      EventIsAt(events, b);
      ApplyBefore(p1.memory, events[b], limit, limit);
    }
    assert !Before(p3.memory, limit) by {
      StepOver(p2, events, b + 1, |events|);
      OffsetsGrow(events, b, b + 1);
      RunStaysPast(p2.memory, events, b + 1, |events|, limit);
    }
    ThreePolls(events, b);
    ThreeIsChain(events, b);
  }

  lemma EventIsAt(events: seq<Event>, i: nat)
    requires AreEvents(events) && i < |events|
    ensures IsEvent(events[i])
  {
  }

  lemma ThreeIsChain(events: seq<Event>, b: nat)
    requires b + 1 <= |events|
    ensures IsChain([b, b + 1, |events|], |events|) && Within([b, b + 1, |events|], |events|)
  {
  }

  /** One poll of the whole file stops at the unknown event, before position b. */
  lemma OnePollStops(events: seq<Event>, a: nat, b: nat)
    requires AreEvents(events) && Leading(events, 0) <= a < b < |events| && !Known(TypeOf(events[a]))
    ensures Before(Poll(START, events).0.memory, Offset(events, b))
  {
    hide Apply, Before;
    var k := Leading(events, 0);
    NothingIsBefore(Offset(events, b));
    OnePoll(events);
    RunStops(FRESH, events, k, a, |events|);
    RunStops(FRESH, events, k, a, b);
    RunBefore(FRESH, events, k, b);
  }

  lemma NothingIsBefore(b: nat)
    ensures Before(FRESH, b)
  {
  }

  lemma StepOver(p: Progress, events: seq<Event>, n: nat, n': nat)
    requires AreEvents(events) && 0 < n <= n' <= |events| && p.ptr == Offset(events, n)
    ensures StepTo(p, events, n') == Progress(Run(p.memory, events, n, n'), Offset(events, n'))
  {
    LaterPoll(p, events, n, n');
  }

  function StepTo(p: Progress, events: seq<Event>, n: nat): Progress
    requires AreEvents(events) && n <= |events|
  {
    Poll(p, events[..n]).0
  }

  lemma ThreePolls(events: seq<Event>, b: nat)
    requires AreEvents(events) && b + 1 <= |events|
    ensures AfterPolls(START, events, [b, b + 1, |events|])
         == StepTo(StepTo(StepTo(START, events, b), events, b + 1), events, |events|)
  {
    hide Poll;
    var counts := [b, b + 1, |events|];
    assert counts[..2] == [b, b + 1] && [b, b + 1][..1] == [b] && [b][..0] == [];
    assert AfterPolls(START, events, [b]) == StepTo(START, events, b);
    assert AfterPolls(START, events, [b, b + 1]) == StepTo(AfterPolls(START, events, [b]), events, b + 1);
  }

  lemma FirstStep(events: seq<Event>, n: nat)
    requires AreEvents(events) && Leading(events, 0) < n <= |events|
    ensures StepTo(START, events, n).ptr == Offset(events, n)
  {
    SizeOfPrefix(events, n);
    LeadingOfPrefix(events, n, 0);
  }

  lemma OneEvent(m: Memory, events: seq<Event>, i: nat)
    requires AreEvents(events) && i < |events| && Effective(TypeOf(events[i]))
    ensures Run(m, events, i, i + 1) == Apply(m, events[i], Offset(events, i))
  {
    hide Apply;
  }

  // ---- the theorem ---------------------------------------------------------------------------

  predicate SameAsOnePoll(events: seq<Event>, counts: seq<nat>)
    requires AreEvents(events) && IsChain(counts, |events|)
  {
    assert Within(counts, |events|);
    AfterPolls(START, events, counts) == Poll(START, events).0
  }

  /** Every chain of snapshots that end on event boundaries gives the same rows, in the same order and with the
      same table maps and queries, as one reading of the final file, exactly when no query, table map or rows
      event comes after an event of unknown type. */
  lemma TailingExactly(events: seq<Event>)
    requires AreEvents(events)
    ensures Tailable(events, Leading(events, 0))
       <==> forall counts | IsChain(counts, |events|) :: SameAsOnePoll(events, counts)
  {
    hide Poll, AfterPolls;
    if Tailable(events, Leading(events, 0)) {
      OnePoll(events);
      forall counts | IsChain(counts, |events|) ensures SameAsOnePoll(events, counts) {
        ChainIsDone(events, counts, |events|);
      }
    } else {
      var a, b :| Leading(events, 0) <= a < b < |events| && !Known(TypeOf(events[a])) && Effective(TypeOf(events[b]));
      UnknownEventLoses(events, a, b);
      assert !SameAsOnePoll(events, [b, b + 1, |events|]);
    }
  }

  /** The loop around the reader: each notification opens the file anew and parses what is new. */
  method Follow(reader: ParseLogEntry, snapshots: seq<seq<Byte>>, ghost events: seq<Event>, ghost counts: seq<nat>)
    requires AreEvents(events) && |counts| == |snapshots|
    requires forall i, j :: 0 <= i <= j < |counts| ==> counts[i] <= counts[j] <= |events|
    requires forall i :: 0 <= i < |counts| ==> snapshots[i] == LogOf(events[..counts[i]])
    requires reader.Current() == START
    modifies reader, reader.fileCache
    ensures Within(counts, |events|)
    ensures reader.Current() == AfterPolls(START, events, counts)
  {
    hide Poll, Run, LogOf, Offset;
    ghost var seen: nat := 0;
    for i := 0 to |snapshots|
      invariant seen <= |events| && forall j :: i <= j < |counts| ==> seen <= counts[j]
      invariant reader.currentFilePtr == 0 || reader.currentFilePtr == Offset(events, seen)
      invariant Within(counts[..i], |events|)
      invariant reader.Current() == AfterPolls(START, events, counts[..i])
    {
      ghost var before := reader.Current();
      ghost var file := events[..counts[i]];
      BoundaryStays(events, seen, counts[i]);
      reader.RefreshFileCache(snapshots[i]);
      var _ := reader.ParseBegin(file);
      assert counts[..i + 1][..i] == counts[..i];
      PollPtr(before, events, counts[i]);
      if reader.currentFilePtr != 0 {
        seen := if reader.currentFilePtr == before.ptr then seen else counts[i];
      }
    }
    assert counts[..|snapshots|] == counts;
  }

  lemma BoundaryStays(events: seq<Event>, n: nat, n': nat)
    requires AreEvents(events) && n <= n' <= |events|
    ensures AreEvents(events[..n']) && OnBoundary(events[..n'], Offset(events, n))
  {
    ResumesAt(events, n, n');
    OffsetOfPrefix(events, n', n);
  }

  lemma PollPtr(p: Progress, events: seq<Event>, n: nat)
    requires AreEvents(events) && n <= |events|
    ensures AreEvents(events[..n])
    ensures var q := Poll(p, events[..n]).0; q.ptr == p.ptr || q.ptr == Offset(events, n)
  {
    SizeOfPrefix(events, n);
  }
}
