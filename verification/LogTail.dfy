/** Resumable parsing of a growing binary log (binlog/src/ParseLogEntry.cpp, binlog/src/FileCache.cpp). */
module LogTail {
  import opened Arith
  import opened ByteStore
  import opened Options

  const MAGIC: seq<Byte> := [0xFE, 0x62, 0x69, 0x6E]
  const HEADER_LEN := 19
  const EVENT_TYPE_OFFSET := 4
  const EVENT_LEN_OFFSET := 9

  const START_EVENT_V3 := 1
  const QUERY_EVENT := 2
  const STOP_EVENT := 3
  const ROTATE_EVENT := 4
  const FORMAT_DESCRIPTION_EVENT := 15
  const TABLE_MAP_EVENT := 19
  const WRITE_ROWS_EVENT_V1 := 23
  const UPDATE_ROWS_EVENT_V1 := 24
  const DELETE_ROWS_EVENT_V1 := 25
  const WRITE_ROWS_EVENT := 30
  const UPDATE_ROWS_EVENT := 31
  const DELETE_ROWS_EVENT := 32
  const PREVIOUS_GTIDS_LOG_EVENT := 35
  const ENUM_END_EVENT := 39

  // ---- events and files --------------------------------------------------------------------

  type Event = seq<Byte>

  /** An event longer than its header whose header says how long it is. */
  predicate IsEvent(e: Event) {
    HEADER_LEN < |e| < 0x8000_0000 && LittleEndian(e[EVENT_LEN_OFFSET..], 4) == |e|
  }

  predicate AreEvents(events: seq<Event>) {
    forall i :: 0 <= i < |events| ==> IsEvent(events[i])
  }

  function TypeOf(e: Event): nat
    requires IsEvent(e)
  {
    e[EVENT_TYPE_OFFSET]
  }

  predicate Known(t: nat) {
    0 < t <= ENUM_END_EVENT
  }

  /** The types that checkHeader passes over at the start of a file. */
  predicate HeaderType(t: nat) {
    t == START_EVENT_V3 || t == FORMAT_DESCRIPTION_EVENT || t == PREVIOUS_GTIDS_LOG_EVENT || t == ROTATE_EVENT
  }

  predicate RowsType(t: nat) {
    || t == WRITE_ROWS_EVENT_V1 || t == UPDATE_ROWS_EVENT_V1 || t == DELETE_ROWS_EVENT_V1
    || t == WRITE_ROWS_EVENT || t == UPDATE_ROWS_EVENT || t == DELETE_ROWS_EVENT
  }

  function Concat(events: seq<Event>): seq<Byte> {
    if events == [] then [] else events[0] + Concat(events[1..])
  }

  function LogOf(events: seq<Event>): seq<Byte> {
    MAGIC + Concat(events)
  }

  /** Where event number i starts in the file. */
  function Offset(events: seq<Event>, i: nat): nat
    requires i <= |events|
  {
    if i == 0 then |MAGIC| else Offset(events, i - 1) + |events[i - 1]|
  }

  lemma {:induction false} EventAt(events: seq<Event>, i: nat)
    requires i <= |events|
    ensures Offset(events, i) <= |LogOf(events)| && LogOf(events)[Offset(events, i)..] == Concat(events[i..])
  {
    if i == 0 {
      assert events[0..] == events;
    } else {
      EventAt(events, i - 1);
      var rest := events[i - 1..];
      assert rest[1..] == events[i..];
      assert LogOf(events)[Offset(events, i - 1)..][|rest[0]|..] == LogOf(events)[Offset(events, i)..];
    }
  }

  lemma OffsetEnd(events: seq<Event>)
    ensures |LogOf(events)| == Offset(events, |events|)
  {
    EventAt(events, |events|);
  }

  lemma EventBytes(events: seq<Event>, i: nat)
    requires i < |events|
    ensures Offset(events, i + 1) == Offset(events, i) + |events[i]| <= |LogOf(events)|
    ensures LogOf(events)[Offset(events, i)..Offset(events, i + 1)] == events[i]
  {
    EventAt(events, i);
    EventAt(events, i + 1);
    var at, data := Offset(events, i), LogOf(events);
    assert data[at..] == events[i] + Concat(events[i..][1..]);
    assert data[at..at + |events[i]|] == data[at..][..|events[i]|];
  }

  lemma {:induction false} OffsetsGrow(events: seq<Event>, i: nat, j: nat)
    requires AreEvents(events) && i < j <= |events|
    ensures 4 <= Offset(events, i) < Offset(events, j)
  {
    if i < j - 1 {
      OffsetsGrow(events, i, j - 1);
    } else if i > 0 {
      OffsetsGrow(events, 0, i);
    }
  }

  // ---- what an event does ------------------------------------------------------------------

  /** An event kept in memory: its place in the file and its bytes. */
  datatype Located = Located(pos: nat, bytes: Event)

  /** A rows event handed on, with the table map its table id finds, and the query and the table map
      that were last seen. Without a query or a table map the program follows a null pointer. */
  datatype RowsOut = RowsOut(row: Located, table: Option<Located>, query: Option<Located>, lastMap: Option<Located>)

  datatype Memory = Memory(
    query: Option<Located>, lastMap: Option<Located>, tableMaps: map<nat, Located>, out: seq<RowsOut>)

  const FRESH := Memory(None, None, map[], [])

  /** The low 32 bits of the table id, which key the map of table maps. */
  function TableId(e: Event): nat
    requires IsEvent(e)
  {
    if |e| >= HEADER_LEN + 4 then LittleEndian(e[HEADER_LEN..], 4) else 0
  }

  function Find(maps: map<nat, Located>, id: nat): Option<Located> {
    if id in maps then Some(maps[id]) else None
  }

  function Apply(s: Memory, e: Event, pos: nat): Memory
    requires IsEvent(e)
  {
    var t, here := TypeOf(e), Located(pos, e);
    if t == QUERY_EVENT then s.(query := Some(here))
    else if t == TABLE_MAP_EVENT then s.(lastMap := Some(here), tableMaps := s.tableMaps[TableId(e) := here])
    else if RowsType(t) then
      s.(out := s.out + [RowsOut(here, Find(s.tableMaps, TableId(e)), s.query, s.lastMap)])
    else s
  }

  /** Events i .. j-1 in turn, up to the first of unknown type. */
  function Run(s: Memory, events: seq<Event>, i: nat, j: nat): Memory
    requires AreEvents(events) && i <= j <= |events|
    decreases j - i
  {
    if i == j || !Known(TypeOf(events[i])) then s
    else Run(Apply(s, events[i], Offset(events, i)), events, i + 1, j)
  }

  /** How many events from number i on checkHeader passes over. */
  function Leading(events: seq<Event>, i: nat): (k: nat)
    requires AreEvents(events) && i <= |events|
    ensures i <= k <= |events|
    ensures forall m :: i <= m < k ==> HeaderType(TypeOf(events[m]))
    ensures k < |events| ==> !HeaderType(TypeOf(events[k]))
    decreases |events| - i
  {
    if i < |events| && HeaderType(TypeOf(events[i])) then Leading(events, i + 1) else i
  }

  /** A position is 0 or the start of an event: which one. */
  function IndexAt(events: seq<Event>, ptr: nat, i: nat): (k: nat)
    requires i <= |events|
    ensures i <= k <= |events|
    decreases |events| - i
  {
    if i == |events| || Offset(events, i) >= ptr then i else IndexAt(events, ptr, i + 1)
  }

  lemma {:induction false} IndexFound(events: seq<Event>, i: nat, k: nat)
    requires AreEvents(events) && i <= k <= |events|
    ensures IndexAt(events, Offset(events, k), i) == k
    decreases k - i
  {
    if i < k {
      OffsetsGrow(events, i, k);
      IndexFound(events, i + 1, k);
    }
  }

  /** What parseBegin leaves behind, with the position it will resume at, and what it returns. */
  datatype Progress = Progress(memory: Memory, ptr: nat)

  predicate OnBoundary(events: seq<Event>, ptr: nat)
    requires AreEvents(events)
  {
    ptr == 0 || ptr > |LogOf(events)| || Offset(events, IndexAt(events, ptr, 0)) == ptr
  }

  function Poll(p: Progress, events: seq<Event>): (Progress, bool)
    requires AreEvents(events)
  {
    var size := |LogOf(events)|;
    if p.ptr == 0 then
      var k := Leading(events, 0);
      if k == |events| then (p, false) else (Progress(Run(p.memory, events, k, |events|), size), true)
    else if size <= p.ptr then (p, true)
    else (Progress(Run(p.memory, events, IndexAt(events, p.ptr, 0), |events|), size), true)
  }

  // ---- the reader --------------------------------------------------------------------------

  /** A file as its bytes and a position; the size is taken when the file is opened. */
  class FileCache {
    var content: seq<Byte>
    var pos: nat
    var fileSize: nat

    constructor ()
      ensures content == [] && pos == fileSize == 0
    {
      content, pos, fileSize := [], 0, 0;
    }

    method Init(file: seq<Byte>)
      modifies this
      ensures content == file && pos == 0 && fileSize == |file|
    {
      content, pos, fileSize := file, 0, |file|;
    }

    /** fread of one block: a block of no bytes reads as a failure, and so does one that runs past the end. */
    method ReadCache(n: nat) returns (r: Option<seq<Byte>>)
      requires pos <= |content|
      modifies this`pos
      ensures r.Some? <==> 0 < n <= |content| - old(pos)
      ensures r.Some? ==> r.value == content[old(pos)..old(pos) + n] && pos == old(pos) + n
      ensures r.None? ==> pos == if n == 0 then old(pos) else |content|
    {
      if n == 0 {
        return None;
      }
      if pos + n > |content| {
        pos := |content|;
        return None;
      }
      r := Some(content[pos..pos + n]);
      pos := pos + n;
    }

    method Seek(delta: int)
      requires 0 <= pos + delta
      modifies this`pos
      ensures pos == old(pos) + delta
    {
      pos := pos + delta;
    }

    predicate Eof()
      reads this
    {
      pos >= fileSize
    }
  }

  class ParseLogEntry {
    const fileCache: FileCache
    var currentFilePtr: nat
    var queryTmp: Option<Located>
    var mapTmp: Option<Located>
    var tableMaps: map<nat, Located>
    /** The rows handed to productRowData, in order. */
    var produced: seq<RowsOut>

    function Contents(): Memory
      reads this
    {
      Memory(queryTmp, mapTmp, tableMaps, produced)
    }

    function Current(): Progress
      reads this
    {
      Progress(Contents(), currentFilePtr)
    }

    constructor ()
      ensures Current() == Progress(FRESH, 0) && fresh(fileCache)
    {
      fileCache := new FileCache();
      currentFilePtr, queryTmp, mapTmp, tableMaps, produced := 0, None, None, map[], [];
    }

    method ParseBegin(ghost events: seq<Event>) returns (ok: bool)
      requires AreEvents(events) && OnBoundary(events, currentFilePtr)
      requires fileCache.content == LogOf(events) && fileCache.fileSize == |LogOf(events)| && fileCache.pos == 0
      modifies this, fileCache`pos
      ensures (Current(), ok) == Poll(old(Current()), events)
    {
      hide Apply, Run, LogOf;
      OffsetEnd(events);
      ghost var first := Leading(events, 0);
      if currentFilePtr == 0 {
        ok := CheckHeader(events);
        if !ok {
          return false;
        }
      } else {
        if fileCache.fileSize <= currentFilePtr {
          return true;
        }
        first := IndexAt(events, currentFilePtr, 0);
        fileCache.Seek(currentFilePtr - fileCache.pos);
      }
      ParseEvents(events, first);
      currentFilePtr := fileCache.fileSize;
      ok := true;
    }

    method CheckHeader(ghost events: seq<Event>) returns (ok: bool)
      requires AreEvents(events) && fileCache.content == LogOf(events) && fileCache.pos == 0
      modifies fileCache`pos
      ensures ok <==> Leading(events, 0) < |events|
      ensures ok ==> fileCache.pos == Offset(events, Leading(events, 0))
    {
      hide Apply, Run, LittleEndian, LogOf;
      MagicFirst(events);
      OffsetEnd(events);
      var magic := fileCache.ReadCache(|MAGIC|);
      if magic.None? || magic.value != MAGIC {
        return false;
      }
      ghost var i := 0;
      while true
        invariant i <= |events| && fileCache.pos == Offset(events, i) <= |fileCache.content|
        invariant Leading(events, 0) == Leading(events, i)
        decreases |events| - i
      {
        var header := fileCache.ReadCache(HEADER_LEN);
        if header.None? {
          if i < |events| {
            EventBytes(events, i);
          }
          return false;
        }
        assert i < |events|;
        EventBytes(events, i);
        HeaderOf(events, i);
        var eventSize := LittleEndian(header.value[EVENT_LEN_OFFSET..], 4);
        var eventType := header.value[EVENT_TYPE_OFFSET];
        if eventType == FORMAT_DESCRIPTION_EVENT {
          fileCache.Seek(-HEADER_LEN);
          var description := fileCache.ReadCache(eventSize);
          if description.None? {
            return false;
          }
        } else if eventType == START_EVENT_V3 || eventType == PREVIOUS_GTIDS_LOG_EVENT || eventType == ROTATE_EVENT {
          fileCache.Seek(eventSize - HEADER_LEN);
        } else {
          fileCache.Seek(-HEADER_LEN);
          break;
        }
        i := i + 1;
      }
      ok := true;
    }

    /** refreshFileCache. */
    method RefreshFileCache(file: seq<Byte>)
      modifies fileCache
      ensures fileCache.content == file && fileCache.pos == 0 && fileCache.fileSize == |file|
    {
      fileCache.Init(file);
    }

    /** Parses events one after the other, up to one that fails or the end of the file. */
    method ParseEvents(ghost events: seq<Event>, ghost first: nat)
      requires AreEvents(events) && first < |events|
      requires fileCache.content == LogOf(events) && fileCache.fileSize == |LogOf(events)|
      requires fileCache.pos == Offset(events, first)
      modifies this, fileCache`pos
      ensures Contents() == Run(old(Contents()), events, first, |events|)
    {
      hide Apply, LogOf, OnBoundary, Leading;
      OffsetEnd(events);
      ghost var i := first;
      while true
        invariant first <= i < |events| && fileCache.pos == Offset(events, i)
        invariant fileCache.content == LogOf(events) && fileCache.fileSize == |LogOf(events)|
        invariant Run(old(Contents()), events, first, |events|) == Run(Contents(), events, i, |events|)
        decreases |events| - i
      {
        var ok := ParseOneEvent(events, i);
        if !ok {
          break;
        }
        i := i + 1;
        if i < |events| {
          OffsetsGrow(events, i, |events|);
        }
        if fileCache.Eof() {
          break;
        }
      }
    }

    method ParseOneEvent(ghost events: seq<Event>, ghost i: nat) returns (ok: bool)
      requires AreEvents(events) && i < |events|
      requires fileCache.content == LogOf(events) && fileCache.pos == Offset(events, i)
      modifies this, fileCache`pos
      ensures ok == Known(TypeOf(events[i]))
      ensures Contents() == if ok then Apply(old(Contents()), events[i], Offset(events, i)) else old(Contents())
      ensures fileCache.pos == Offset(events, i + 1)
      ensures currentFilePtr == if TypeOf(events[i]) == 3 then 0 else old(currentFilePtr)
    {
      hide LogOf, LittleEndian, AreEvents;
      EventBytes(events, i);
      HeaderOf(events, i);
      var eventPos := fileCache.pos;
      var header := fileCache.ReadCache(HEADER_LEN);
      if header.None? {
        return false;
      }
      var eventSize := LittleEndian(header.value[EVENT_LEN_OFFSET..], 4);
      if eventSize < HEADER_LEN {
        return false;
      }
      var body := fileCache.ReadCache(eventSize - HEADER_LEN);
      if body.None? {
        return false;
      }
      var buf := header.value + body.value;
      assert buf == events[i];
      if eventSize != LittleEndian(buf[EVENT_LEN_OFFSET..], 4) {
        return false;
      }
      var eventType := buf[EVENT_TYPE_OFFSET];
      if eventType > ENUM_END_EVENT || eventType == 0 {
        return false;
      }
      var here := Located(eventPos, buf);
      if eventType == QUERY_EVENT {
        queryTmp := Some(here);
      } else if eventType == TABLE_MAP_EVENT {
        mapTmp := Some(here);
        tableMaps := tableMaps[TableId(buf) := here];
      } else if RowsType(eventType) {
        produced := produced + [RowsOut(here, Find(tableMaps, TableId(buf)), queryTmp, mapTmp)];
      } else if eventType == STOP_EVENT {
        currentFilePtr := 0;
      }
      ok := true;
    }
  }

  lemma MagicFirst(events: seq<Event>)
    ensures |LogOf(events)| >= 4 && LogOf(events)[0..4] == MAGIC
  {
  }

  /** The header of an event, read from the file, is the start of the event. */
  lemma HeaderOf(events: seq<Event>, i: nat)
    requires AreEvents(events) && i < |events|
    ensures IsEvent(events[i])
    ensures Offset(events, i) + HEADER_LEN < Offset(events, i + 1) <= |LogOf(events)|
    ensures var header := LogOf(events)[Offset(events, i)..Offset(events, i) + HEADER_LEN];
            && LittleEndian(header[EVENT_LEN_OFFSET..], 4) == |events[i]|
            && header[EVENT_TYPE_OFFSET] == events[i][EVENT_TYPE_OFFSET]
            && header + LogOf(events)[Offset(events, i) + HEADER_LEN..Offset(events, i + 1)] == events[i]
  {
    hide LogOf;
    EventBytes(events, i);
    var data, at := LogOf(events), Offset(events, i);
    var e := events[i];
    var header := data[at..at + HEADER_LEN];
    assert header == data[at..Offset(events, i + 1)][..HEADER_LEN] == e[..HEADER_LEN];
    assert header[EVENT_LEN_OFFSET..] == e[EVENT_LEN_OFFSET..][..HEADER_LEN - EVENT_LEN_OFFSET];
    LittleEndianOfPrefix(e[EVENT_LEN_OFFSET..], 4, HEADER_LEN - EVENT_LEN_OFFSET);
  }
}
