/** The cursor over the row images of a rows event (binlog/src/LogEvent.cpp). */
module RowCursor {
  import opened Arith
  import opened Bitmap
  import opened Bits
  import opened ByteStore
  import opened FieldWidth
  import opened TableDefinition

  /** What the reader finds for a present column: a null bit, or the bytes of the field. */
  datatype Cell = Null | Field(bytes: seq<Byte>)

  /** The columns among the first i whose bit is set. */
  function Present(cols: seq<Column>, bits: seq<Byte>, i: nat): (p: seq<Column>)
    requires i <= |cols| && i <= 8 * |bits|
    ensures |p| == CountSet(bits, i)
  {
    if i == 0 then []
    else Present(cols, bits, i - 1) + if BitAt(bits[(i - 1) / 8], (i - 1) % 8) == 1 then [cols[i - 1]] else []
  }

  lemma {:induction false} PresentGrows(cols: seq<Column>, bits: seq<Byte>, i: nat, j: nat)
    requires i <= j <= |cols| && j <= 8 * |bits|
    ensures Present(cols, bits, i) <= Present(cols, bits, j)
  {
    if i < j {
      PresentGrows(cols, bits, i, j - 1);
    }
  }

  lemma {:induction false} PresentAreColumns(cols: seq<Column>, bits: seq<Byte>, i: nat)
    requires i <= |cols| && i <= 8 * |bits|
    ensures forall c <- Present(cols, bits, i) :: c in cols
  {
    if i > 0 {
      PresentAreColumns(cols, bits, i - 1);
    }
  }

  // ---- one row ---------------------------------------------------------------------------

  /** The bytes of the null bitmap for p present columns. */
  function NullBytes(p: nat): nat {
    (p + 7) / 8
  }

  function NullBit(data: seq<Byte>, j: nat): nat
    requires j / 8 < |data|
  {
    BitAt(data[j / 8], j % 8)
  }

  /** The fields from the j-th present column on lie in the buffer, with the four bytes of the checksum after. */
  predicate Fits(cols: seq<Column>, data: seq<Byte>, j: nat, at: nat)
    requires j <= |cols|
    decreases |cols| - j
  {
    && NullBytes(|cols|) <= at && at + 4 <= |data|
    && (j < |cols| ==>
          && cols[j].Valid()
          && Fits(cols, data, j + 1, if NullBit(data, j) == 1 then at else at + ParsedWidth(cols[j], data[at..])))
  }

  datatype Cut = Cut(cells: seq<Cell>, end: nat)

  /** The cells from the j-th present column on, and where they end. */
  function CutFrom(cols: seq<Column>, data: seq<Byte>, j: nat, at: nat): (c: Cut)
    requires j <= |cols| && Fits(cols, data, j, at)
    ensures at <= c.end && c.end + 4 <= |data| && |c.cells| == |cols| - j
    decreases |cols| - j
  {
    if j == |cols| then Cut([], at)
    else if NullBit(data, j) == 1 then
      var c := CutFrom(cols, data, j + 1, at);
      Cut([Null] + c.cells, c.end)
    else
      var w := ParsedWidth(cols[j], data[at..]);
      var c := CutFrom(cols, data, j + 1, at + w);
      Cut([Field(data[at..at + w])] + c.cells, c.end)
  }

  predicate RowFits(cols: seq<Column>, data: seq<Byte>) {
    Fits(cols, data, 0, NullBytes(|cols|))
  }

  function CutRow(cols: seq<Column>, data: seq<Byte>): (c: Cut)
    requires RowFits(cols, data)
    ensures NullBytes(|cols|) <= c.end && c.end + 4 <= |data| && |c.cells| == |cols|
  {
    CutFrom(cols, data, 0, NullBytes(|cols|))
  }

  /** A table and a bitmap over the same columns. */
  ghost predicate Matches(td: TableDef, cols: MyBitmap)
    reads td, cols
  {
    td.Valid() && cols.Valid() && cols.nBits == td.columnSize > 0
  }

  /** The columns among the first i that a row event's images hold. */
  ghost function ColumnsIn(td: TableDef, cols: MyBitmap, i: nat): seq<Column>
    requires Matches(td, cols) && i <= cols.nBits
    reads td, cols, cols.bitmap
  {
    Present(td.Columns(), cols.bitmap[..], i)
  }

  /** The columns that are read, once for each row. */
  ghost function AllIn(td: TableDef, cols: MyBitmap): seq<Column>
    requires Matches(td, cols)
    reads td, cols, cols.bitmap
  {
    ColumnsIn(td, cols, cols.nBits)
  }

  /** What holds between two columns: the cells found so far and the rest of the cut make up the row. */
  predicate Reached(p: seq<Column>, value: seq<Byte>, rowValues: seq<Cell>, nullBitIndex: nat, at: nat) {
    && nullBitIndex <= |p| && RowFits(p, value) && Fits(p, value, nullBitIndex, at)
    && CutRow(p, value) == Glue(rowValues, CutFrom(p, value, nullBitIndex, at))
  }

  /** printOneRow. */
  method PrintOneRow(td: TableDef, cols: MyBitmap, value: seq<Byte>) returns (rowValues: seq<Cell>, size: nat)
    requires Matches(td, cols) && RowFits(AllIn(td, cols), value)
    ensures Cut(rowValues, size) == CutRow(AllIn(td, cols), value)
  {
    hide *;
    ghost var p := AllIn(td, cols);
    var bitsSet := PresentColumns(td, cols);
    var at: nat := NullBytes(bitsSet);
    var nullBitIndex: nat := 0;
    rowValues := [];
    RowStart(p, value);
    for i := 0 to cols.nBits
      invariant nullBitIndex == |ColumnsIn(td, cols, i)|
      invariant Reached(p, value, rowValues, nullBitIndex, at)
    {
      rowValues, nullBitIndex, at := ReadColumn(td, cols, i, value, rowValues, nullBitIndex, at);
    }
    RowEnd(p, value, rowValues, at);
    size := at;
  }

  method PresentColumns(td: TableDef, cols: MyBitmap) returns (bitsSet: nat)
    requires Matches(td, cols)
    ensures bitsSet == |AllIn(td, cols)| && |ColumnsIn(td, cols, 0)| == 0
    ensures AllIn(td, cols) == ColumnsIn(td, cols, cols.nBits)
  {
    bitsSet := cols.BitsSet();
  }

  /** The body of the loop. Bit `nullBitIndex` of the null bitmap is read before the column is known to be present. */
  method ReadColumn(td: TableDef, cols: MyBitmap, i: nat, value: seq<Byte>,
      cells: seq<Cell>, nullBitIndex: nat, at: nat)
    returns (cells': seq<Cell>, nullBitIndex': nat, at': nat)
    requires Matches(td, cols) && i < cols.nBits && nullBitIndex == |ColumnsIn(td, cols, i)|
    requires Reached(AllIn(td, cols), value, cells, nullBitIndex, at)
    ensures nullBitIndex' == |ColumnsIn(td, cols, i + 1)|
    ensures Reached(AllIn(td, cols), value, cells', nullBitIndex', at')
  {
    hide *;
    ghost var p := AllIn(td, cols);
    cells', nullBitIndex', at' := cells, nullBitIndex, at;
    Addressable(td, cols, i);
    FitsStep(p, value, cells, nullBitIndex, at);
    var isNull := NullBit(value, nullBitIndex);
    ColumnStep(td, cols, i);
    if !cols.IsSet(i) {
      return;
    }
    CutStep(p, value, nullBitIndex, at, cells);
    nullBitIndex' := nullBitIndex + 1;
    if isNull == 1 {
      cells' := cells + [Null];
    } else {
      var rowSize := ParsedWidth(Column(td.Type(i), td.FieldMetadata(i)), value[at..]);
      cells' := cells + [Field(value[at..at + rowSize])];
      at' := at + rowSize;
    }
  }

  lemma Addressable(td: TableDef, cols: MyBitmap, i: nat)
    requires Matches(td, cols) && i < cols.nBits
    ensures i < |td.columnType| && i < |td.fieldMetadata| && cols.bitmap.Length == 4 * WordsInMap(cols.nBits)
  {
  }

  lemma ColumnStep(td: TableDef, cols: MyBitmap, i: nat)
    requires Matches(td, cols) && i < cols.nBits
    requires i < |td.columnType| && i < |td.fieldMetadata| && cols.bitmap.Length == 4 * WordsInMap(cols.nBits)
    ensures var k := |ColumnsIn(td, cols, i)|;
            var p := AllIn(td, cols);
            && |ColumnsIn(td, cols, i + 1)| == (if cols.IsSet(i) then k + 1 else k)
            && (cols.IsSet(i) ==> k < |p| && p[k] == Column(td.Type(i), td.FieldMetadata(i)))
  {
    var all, bits := td.Columns(), cols.bitmap[..];
    assert all[i] == Column(td.Type(i), td.FieldMetadata(i));
    PresentStep(all, bits, i, cols.nBits);
    hide CountSet, Present, Column.Valid, ColumnOf, BitAt, LastBits, Pow;
  }

  function Glue(cells: seq<Cell>, c: Cut): Cut {
    Cut(cells + c.cells, c.end)
  }

  lemma PresentStep(cols: seq<Column>, bits: seq<Byte>, i: nat, n: nat)
    requires i < n <= |cols| && n <= 8 * |bits|
    ensures var k := |Present(cols, bits, i)|;
            && |Present(cols, bits, i + 1)| == k + BitAt(bits[i / 8], i % 8) <= |Present(cols, bits, n)|
            && (BitAt(bits[i / 8], i % 8) == 1 ==> Present(cols, bits, n)[k] == cols[i])
  {
    hide BitAt;
    PresentGrows(cols, bits, i + 1, n);
    assert BitAt(bits[i / 8], i % 8) == 1 ==> Present(cols, bits, i + 1)[|Present(cols, bits, i)|] == cols[i];
  }

  lemma RowStart(p: seq<Column>, value: seq<Byte>)
    requires RowFits(p, value)
    ensures Reached(p, value, [], 0, NullBytes(|p|))
  {
    assert Glue([], CutRow(p, value)) == CutRow(p, value);
  }

  lemma FitsStep(p: seq<Column>, value: seq<Byte>, cells: seq<Cell>, j: nat, at: nat)
    requires Reached(p, value, cells, j, at)
    ensures j / 8 < |value|
  {
  }

  lemma RowEnd(p: seq<Column>, value: seq<Byte>, cells: seq<Cell>, at: nat)
    requires Reached(p, value, cells, |p|, at)
    ensures RowFits(p, value) && CutRow(p, value) == Cut(cells, at)
  {
    assert cells + [] == cells;
  }

  lemma CutStep(cols: seq<Column>, data: seq<Byte>, j: nat, at: nat, cells: seq<Cell>)
    requires Reached(cols, data, cells, j, at) && j < |cols|
    ensures at + 4 <= |data| && j / 8 < |data| && cols[j].Valid()
    ensures NullBit(data, j) == 1 ==> Reached(cols, data, cells + [Null], j + 1, at)
    ensures NullBit(data, j) != 1 ==>
              var w := ParsedWidth(cols[j], data[at..]);
              at + w <= |data| && Reached(cols, data, cells + [Field(data[at..at + w])], j + 1, at + w)
  {
    hide ParsedWidth, Column.Valid;
    if NullBit(data, j) == 1 {
      assert cells + ([Null] + CutFrom(cols, data, j + 1, at).cells)
          == cells + [Null] + CutFrom(cols, data, j + 1, at).cells;
    } else {
      var w := ParsedWidth(cols[j], data[at..]);
      var rest := CutFrom(cols, data, j + 1, at + w).cells;
      assert cells + ([Field(data[at..at + w])] + rest) == cells + [Field(data[at..at + w])] + rest;
    }
  }

  // ---- the width of a row ----------------------------------------------------------------

  /** The widths that the table definition gives the non-null columns from the j-th present one on. */
  function SumOfSizes(cols: seq<Column>, data: seq<Byte>, j: nat, at: nat): nat
    requires j <= |cols| && Fits(cols, data, j, at)
    requires forall c <- cols :: c.Valid() && WidthsAgree(c)
    decreases |cols| - j
  {
    if j == |cols| then 0
    else if NullBit(data, j) == 1 then SumOfSizes(cols, data, j + 1, at)
    else
      AgreeingWidths(cols[j], data[at..]);
      var w := CalcFieldSize(cols[j], data[at..]);
      w + SumOfSizes(cols, data, j + 1, at + w)
  }

  /** A row is its null bitmap and then exactly the fields calc_field_size measures. */
  lemma RowWidth(cols: seq<Column>, data: seq<Byte>)
    requires RowFits(cols, data)
    requires forall c <- cols :: c.Valid() && WidthsAgree(c)
    ensures CutRow(cols, data).end == NullBytes(|cols|) + SumOfSizes(cols, data, 0, NullBytes(|cols|))
  {
    FieldsWidth(cols, data, 0, NullBytes(|cols|));
  }

  lemma {:induction false} FieldsWidth(cols: seq<Column>, data: seq<Byte>, j: nat, at: nat)
    requires j <= |cols| && Fits(cols, data, j, at)
    requires forall c <- cols :: c.Valid() && WidthsAgree(c)
    ensures CutFrom(cols, data, j, at).end == at + SumOfSizes(cols, data, j, at)
    decreases |cols| - j
  {
    hide ParsedWidth, CalcFieldSize, WidthsAgree;
    if j < |cols| {
      if NullBit(data, j) == 1 {
        FieldsWidth(cols, data, j + 1, at);
      } else {
        AgreeingWidths(cols[j], data[at..]);
        FieldsWidth(cols, data, j + 1, at + ParsedWidth(cols[j], data[at..]));
      }
    }
  }

  /** The columns of a table by the types and metadata of its table map event. */
  function TableColumns(types: seq<Byte>, metas: seq<nat>): seq<Column>
    requires |metas| == |types|
  {
    seq(|types|, i requires 0 <= i < |types| => ColumnOf(types[i], metas[i]))
  }

  predicate AllWritten(types: seq<Byte>, metas: seq<nat>) {
    |metas| == |types| && forall i :: 0 <= i < |types| ==> metas[i] < 0x1_0000 && Written(types[i], metas[i])
  }

  /** For every table of the types listed in Written and every choice of present columns: the cursor advances by
      the null bitmap of the present columns and the sizes calc_field_size gives those that are not null. */
  lemma ServerRowWidth(types: seq<Byte>, metas: seq<nat>, bits: seq<Byte>, data: seq<Byte>)
    requires AllWritten(types, metas) && |types| <= 8 * |bits|
    requires RowFits(Present(TableColumns(types, metas), bits, |types|), data)
    ensures var p := Present(TableColumns(types, metas), bits, |types|);
            && (forall c <- p :: c.Valid() && WidthsAgree(c))
            && var start := NullBytes(CountSet(bits, |types|));
            CutRow(p, data).end == start + SumOfSizes(p, data, 0, start)
  {
    hide WidthsAgree, Written, ColumnOf, Column.Valid, Fits, CutFrom, SumOfSizes, CountSet;
    var cols := TableColumns(types, metas);
    var p := Present(cols, bits, |types|);
    forall c | c in cols ensures c.Valid() && WidthsAgree(c) {
      var i :| 0 <= i < |types| && c == cols[i];
      WrittenWidthsAgree(types[i], metas[i]);
    }
    PresentAreColumns(cols, bits, |types|);
    RowWidth(p, data);
  }

  // ---- rows as a writer lays them out -----------------------------------------------------

  /** A row image: the null bitmap, whatever its padding bits, and the cells. */
  datatype RowImage = RowImage(nullMap: seq<Byte>, cells: seq<Cell>) {
    function Bytes(): seq<Byte> {
      nullMap + FieldBytes(cells)
    }

    /** The null bits, eight to a byte from the lowest bit on, match the cells, and every field has the size its
        column prescribes. */
    predicate Of(cols: seq<Column>) {
      && |cells| == |cols| && |nullMap| == (|cols| + 7) / 8
      && (forall j: nat :: j < |cols| ==> (nullMap[j / 8] / Pow(2, j % 8) % 2 == 1 <==> cells[j].Null?))
      && (forall j :: 0 <= j < |cols| ==> Sized(cols[j], cells[j]))
    }
  }

  predicate Sized(c: Column, cell: Cell) {
    && c.Valid() && WidthsAgree(c)
    && (cell.Field? ==> CalcFieldSize(c, cell.bytes + ZEROS) == |cell.bytes|)
  }

  function FieldBytes(cells: seq<Cell>): seq<Byte> {
    if cells == [] then []
    else (if cells[0].Field? then cells[0].bytes else []) + FieldBytes(cells[1..])
  }

  /** A field of the right size has it whatever follows, for the length bytes are its own. */
  lemma SizedWhateverFollows(c: Column, bytes: seq<Byte>, rest: seq<Byte>)
    requires Sized(c, Field(bytes)) && |rest| >= 4
    ensures ParsedWidth(c, bytes + rest) == |bytes|
  {
    LengthBytesAreOwn(c, bytes, rest);
    AgreeingWidths(c, bytes + rest);
  }

  lemma LengthBytesAreOwn(c: Column, bytes: seq<Byte>, rest: seq<Byte>)
    requires Sized(c, Field(bytes)) && |rest| >= 4
    ensures CalcFieldSize(c, bytes + rest) == |bytes|
  {
    hide LittleEndian, DecimalBinarySize, WidthsAgree;
    if LengthBytes(c) <= |bytes| {
      SamePrefix(c, bytes + ZEROS, bytes + rest);
    } else {
      LengthIsCounted(c, bytes + ZEROS, |bytes|);
    }
  }

  /** How many bytes of the field tell its size. */
  function LengthBytes(c: Column): nat {
    if c.kind == TYPE_STRING then (if MaxStringLength(c.meta) > 255 then 2 else 1)
    else if c.kind == TYPE_VARCHAR then (if c.meta > 255 then 2 else 1)
    else if c.kind == TYPE_BLOB || c.kind == TYPE_JSON then if c.meta <= 4 then c.meta else 0
    else 0
  }

  lemma SamePrefix(c: Column, a: seq<Byte>, b: seq<Byte>)
    requires c.Valid() && WidthsAgree(c) && |a| >= 4 && |b| >= 4
    requires LengthBytes(c) <= |a| && LengthBytes(c) <= |b| && a[..LengthBytes(c)] == b[..LengthBytes(c)]
    ensures CalcFieldSize(c, a) == CalcFieldSize(c, b)
  {
    hide LittleEndian, DecimalBinarySize;
    SameLittleEndian(a, b, LengthBytes(c));
  }

  lemma SameLittleEndian(a: seq<Byte>, b: seq<Byte>, n: nat)
    requires n <= |a| && n <= |b| && a[..n] == b[..n]
    ensures forall k :: 0 <= k <= n ==> LittleEndian(a, k) == LittleEndian(b, k)
    ensures n > 0 ==> At(a, 0) == At(b, 0)
  {
    forall k | 0 <= k <= n ensures LittleEndian(a, k) == LittleEndian(b, k) {
      LittleEndianOfPrefix(a, k, n);
      LittleEndianOfPrefix(b, k, n);
    }
    if n > 0 {
      assert At(a, 0) == a[..n][0] && At(b, 0) == b[..n][0];
    }
  }

  lemma LengthIsCounted(c: Column, data: seq<Byte>, n: nat)
    requires c.Valid() && WidthsAgree(c) && |data| == n + 4 && n < LengthBytes(c)
    requires data[n..] == ZEROS
    ensures CalcFieldSize(c, data) != n
  {
    hide LittleEndian, DecimalBinarySize;
    assert data[3] == data[n..][3 - n] == 0;
    SmallLength(data, LengthBytes(c));
  }

  lemma SmallLength(data: seq<Byte>, k: nat)
    requires |data| >= 4 && data[3] == 0 && 1 <= k <= 4
    ensures LittleEndian(data, k) < 0x100_0000
  {
    LittleEndianTable(data);
  }

  lemma CutNull(cols: seq<Column>, data: seq<Byte>, j: nat, at: nat)
    requires j < |cols| && cols[j].Valid() && Fits(cols, data, j + 1, at) && NullBit(data, j) == 1
    ensures Fits(cols, data, j, at)
    ensures CutFrom(cols, data, j, at)
         == Cut([Null] + CutFrom(cols, data, j + 1, at).cells, CutFrom(cols, data, j + 1, at).end)
  {
    hide ParsedWidth, NullBit, Column.Valid;
  }

  lemma CutField(cols: seq<Column>, data: seq<Byte>, j: nat, at: nat, w: nat)
    requires j < |cols| && cols[j].Valid() && NullBytes(|cols|) <= at <= at + w <= |data| && |data| >= at + 4
    requires NullBit(data, j) != 1
    requires ParsedWidth(cols[j], data[at..]) == w && Fits(cols, data, j + 1, at + w)
    ensures Fits(cols, data, j, at)
    ensures var c := CutFrom(cols, data, j + 1, at + w);
            CutFrom(cols, data, j, at) == Cut([Field(data[at..at + w])] + c.cells, c.end)
  {
    hide ParsedWidth, NullBit, Column.Valid;
  }

  lemma {:induction false} CutsEncoded(cols: seq<Column>, img: RowImage, data: seq<Byte>, rest: seq<Byte>,
      j: nat, at: nat)
    requires img.Of(cols) && j <= |cols| && |rest| >= 4
    requires NullBytes(|cols|) <= at <= |data| && data[..NullBytes(|cols|)] == img.nullMap
    requires data[at..] == FieldBytes(img.cells[j..]) + rest
    ensures Fits(cols, data, j, at)
    ensures CutFrom(cols, data, j, at) == Cut(img.cells[j..], |data| - |rest|)
    decreases |cols| - j
  {
    hide *;
    if j < |cols| {
      CellOf(cols, img, data, j);
      var cell := img.cells[j];
      var tail := FieldBytes(img.cells[j + 1..]) + rest;
      if cell.Null? {
        assert data[at..] == tail;
        CutsEncoded(cols, img, data, rest, j + 1, at);
        CutNull(cols, data, j, at);
      } else {
        var w := |cell.bytes|;
        assert data[at..] == cell.bytes + tail;
        SizedWhateverFollows(cols[j], cell.bytes, tail);
        assert data[at + w..] == data[at..][w..] == tail;
        assert data[at..at + w] == data[at..][..w] == cell.bytes;
        CutsEncoded(cols, img, data, rest, j + 1, at + w);
        CutField(cols, data, j, at, w);
      }
    } else {
      CutsNothing(cols, img, data, at, rest);
    }
  }

  lemma CellOf(cols: seq<Column>, img: RowImage, data: seq<Byte>, j: nat)
    requires img.Of(cols) && j < |cols|
    requires NullBytes(|cols|) <= |data| && data[..NullBytes(|cols|)] == img.nullMap
    ensures |img.cells| == |cols| && j / 8 < |data|
    ensures Sized(cols[j], img.cells[j]) && cols[j].Valid()
    ensures NullBit(data, j) == 1 <==> img.cells[j].Null?
    ensures img.cells[j..] == [img.cells[j]] + img.cells[j + 1..]
    ensures FieldBytes(img.cells[j..])
         == (if img.cells[j].Field? then img.cells[j].bytes else []) + FieldBytes(img.cells[j + 1..])
  {
    hide Sized, Column.Valid;
    assert Sized(cols[j], img.cells[j]);
    assert cols[j].Valid() by {
      SizedIsValid(cols[j], img.cells[j]);
    }
    assert data[j / 8] == img.nullMap[j / 8];
    FieldBytesStep(img.cells[j], img.cells[j + 1..]);
  }

  lemma SizedIsValid(c: Column, cell: Cell)
    requires Sized(c, cell)
    ensures c.Valid()
  {
  }

  lemma CutsNothing(cols: seq<Column>, img: RowImage, data: seq<Byte>, at: nat, rest: seq<Byte>)
    requires img.Of(cols) && |rest| >= 4
    requires NullBytes(|cols|) <= at <= |data| && data[at..] == FieldBytes(img.cells[|cols|..]) + rest
    ensures Fits(cols, data, |cols|, at)
    ensures CutFrom(cols, data, |cols|, at) == Cut(img.cells[|cols|..], |data| - |rest|)
  {
    hide Sized;
  }

  lemma FieldBytesStep(cell: Cell, rest: seq<Cell>)
    ensures FieldBytes([cell] + rest) == (if cell.Field? then cell.bytes else []) + FieldBytes(rest)
  {
    assert ([cell] + rest)[1..] == rest;
  }

  /** A row image is cut into its own cells, and the cursor stops at its end. */
  lemma RowRoundTrip(cols: seq<Column>, img: RowImage, rest: seq<Byte>)
    requires img.Of(cols) && |rest| >= 4
    ensures RowFits(cols, img.Bytes() + rest)
    ensures CutRow(cols, img.Bytes() + rest) == Cut(img.cells, |img.Bytes()|)
  {
    var data := img.Bytes() + rest;
    assert data == img.nullMap + (FieldBytes(img.cells) + rest);
    assert img.cells[0..] == img.cells;
    CutsEncoded(cols, img, data, rest, 0, NullBytes(|cols|));
  }

  // ---- the null map as a number -----------------------------------------------------------

  /** The sum of 2^j over the null cells j. */
  function NullBits(cells: seq<Cell>): nat {
    if cells == [] then 0 else (if cells[0].Null? then 1 else 0) + 2 * NullBits(cells[1..])
  }

  lemma {:induction false} NullBitsFit(cells: seq<Cell>)
    ensures NullBits(cells) < Pow(2, |cells|)
  {
    if cells != [] {
      NullBitsFit(cells[1..]);
    }
  }

  lemma {:induction false} NullBitsAt(cells: seq<Cell>, k: nat)
    requires k < |cells|
    ensures BitAt(NullBits(cells), k) == if cells[k].Null? then 1 else 0
  {
    if k > 0 {
      NullBitsAt(cells[1..], k - 1);
      DivDiv(NullBits(cells), 2, Pow(2, k - 1));
    }
  }

  /** The bits of a byte string, read as one number with its low byte first. */
  lemma {:induction false} BitOfBytes(b: seq<Byte>, j: nat)
    requires j < 8 * |b|
    ensures LittleEndian(b, |b|) / Pow(2, j) % 2 == b[j / 8] / Pow(2, j % 8) % 2
  {
    hide Pow;
    var x, high := LittleEndian(b, |b|), LittleEndian(b[1..], |b| - 1);
    Pow2Table();
    DivModUnique(x, 0x100, high, At(b, 0));
    if j < 8 {
      BitOfRemainder(x, 8, j);
    } else {
      BitAboveBytes(x, 1, j - 8);
      BitOfBytes(b[1..], j - 8);
      assert b[1..][(j - 8) / 8] == b[j / 8];
    }
  }

  /** Whatever lies above its last null bit, a null map that is the number of the null cells is theirs. */
  lemma MapByNumber(nullMap: seq<Byte>, cells: seq<Cell>, j: nat)
    requires |nullMap| == (|cells| + 7) / 8 && j < |cells|
    requires LittleEndian(nullMap, |nullMap|) % Pow(2, |cells|) == NullBits(cells)
    ensures nullMap[j / 8] / Pow(2, j % 8) % 2 == 1 <==> cells[j].Null?
  {
    hide Pow, NullBits;
    BitOfBytes(nullMap, j);
    BitOfRemainder(LittleEndian(nullMap, |nullMap|), |cells|, j);
    NullBitsAt(cells, j);
  }

  /** A row whose null map, low byte first, is the sum of 2^j over its null cells j, with any padding above, is cut
      into exactly those cells. */
  lemma RowByNumber(cols: seq<Column>, nullMap: seq<Byte>, cells: seq<Cell>, rest: seq<Byte>)
    requires |cells| == |cols| && forall j :: 0 <= j < |cols| ==> Sized(cols[j], cells[j])
    requires |nullMap| == (|cols| + 7) / 8 && |rest| >= 4
    requires LittleEndian(nullMap, |nullMap|) % Pow(2, |cells|) == NullBits(cells)
    ensures RowFits(cols, nullMap + FieldBytes(cells) + rest)
    ensures CutRow(cols, nullMap + FieldBytes(cells) + rest) == Cut(cells, |nullMap| + |FieldBytes(cells)|)
  {
    hide Sized, NullBits, RowFits, CutRow, FieldBytes, Pow;
    forall j: nat | j < |cols| ensures nullMap[j / 8] / Pow(2, j % 8) % 2 == 1 <==> cells[j].Null? {
      MapByNumber(nullMap, cells, j);
    }
    assert RowImage(nullMap, cells).Of(cols);
    RowRoundTrip(cols, RowImage(nullMap, cells), rest);
  }

  // ---- the event -------------------------------------------------------------------------

  datatype Change = Change(before: seq<Cell>, after: seq<Cell>)

  /** All the rows lie in the buffer: one image a row, or two for an update. */
  predicate RowsFit(cols: seq<Column>, data: seq<Byte>, update: bool)
    requires |cols| > 0
    decreases |data|
  {
    && |data| >= 4
    && (|data| > 4 ==>
          && RowFits(cols, data)
          && var rest := data[CutRow(cols, data).end..];
          && (if update then RowFits(cols, rest) && RowsFit(cols, rest[CutRow(cols, rest).end..], update)
              else RowsFit(cols, rest, update)))
  }

  function CutRows(cols: seq<Column>, data: seq<Byte>, update: bool): seq<Change>
    requires |cols| > 0 && RowsFit(cols, data, update)
    decreases |data|
  {
    if |data| <= 4 then []
    else
      var c := CutRow(cols, data);
      var rest := data[c.end..];
      if update then
        var c2 := CutRow(cols, rest);
        [Change(c.cells, c2.cells)] + CutRows(cols, rest[c2.end..], update)
      else [Change(c.cells, [])] + CutRows(cols, rest, update)
  }

  /** What is stored of the changes: an update's vector of values is not cleared between its two images. */
  function Befores(changes: seq<Change>): seq<seq<Cell>> {
    seq(|changes|, i requires 0 <= i < |changes| => changes[i].before)
  }

  function Afters(changes: seq<Change>, update: bool): seq<seq<Cell>> {
    if update then seq(|changes|, i requires 0 <= i < |changes| => changes[i].before + changes[i].after) else []
  }

  class RowsEvent {
    var ptrRowsData: seq<Byte>
    const update: bool
    var beforeValues: seq<seq<Cell>>
    var afterValues: seq<seq<Cell>>
    var crc32: seq<Byte>

    constructor (rows: seq<Byte>, update: bool)
      ensures ptrRowsData == rows && this.update == update && beforeValues == [] && afterValues == []
    {
      ptrRowsData, this.update := rows, update;
      beforeValues, afterValues, crc32 := [], [], [];
    }

    /** parseEvent. Both images of an update are read with the columns of the before image: those of the after
        image, which the event names in a bitmap of its own, are not used. */
    method ParseEvent(td: TableDef, cols: MyBitmap)
      requires Matches(td, cols) && |AllIn(td, cols)| > 0 && RowsFit(AllIn(td, cols), ptrRowsData, update)
      modifies this
      ensures var changes := old(CutRows(AllIn(td, cols), ptrRowsData, update));
              && beforeValues == old(beforeValues) + Befores(changes)
              && afterValues == old(afterValues) + Afters(changes, update)
      ensures ptrRowsData == old(ptrRowsData) && |crc32| == 4
    {
      hide *;
      ghost var p := AllIn(td, cols);
      var at, tmpDataLen: nat := 0, 0;
      RowsStart(p, ptrRowsData, update, beforeValues, afterValues);
      while tmpDataLen < |ptrRowsData| - 4
        invariant ptrRowsData == old(ptrRowsData) && at == tmpDataLen
        invariant Matches(td, cols) && p == AllIn(td, cols)
        invariant Between(p, ptrRowsData, update, at, old(beforeValues), old(afterValues), beforeValues, afterValues)
        decreases |ptrRowsData| - at
      {
        RowsStep(p, ptrRowsData, update, at, old(beforeValues), old(afterValues), beforeValues, afterValues);
        var tmpValue, rowLength := PrintOneRow(td, cols, ptrRowsData[at..]);
        beforeValues := beforeValues + [tmpValue];
        at := at + rowLength;
        tmpDataLen := tmpDataLen + rowLength;
        if update {
          var more;
          more, rowLength := PrintOneRow(td, cols, ptrRowsData[at..]);
          tmpValue := tmpValue + more;
          afterValues := afterValues + [tmpValue];
          at := at + rowLength;
          tmpDataLen := tmpDataLen + rowLength;
        }
      }
      RowsEnd(p, ptrRowsData, update, at, old(beforeValues), old(afterValues), beforeValues, afterValues);
      crc32 := ptrRowsData[at..at + 4];
    }
  }

  /** What holds between two changes: those stored and those still in the buffer make up the event. */
  predicate Between(p: seq<Column>, data: seq<Byte>, update: bool, at: nat,
      before0: seq<seq<Cell>>, after0: seq<seq<Cell>>, before: seq<seq<Cell>>, after: seq<seq<Cell>>)
  {
    && |p| > 0 && RowsFit(p, data, update) && at <= |data| && RowsFit(p, data[at..], update)
    && before0 + Befores(CutRows(p, data, update)) == before + Befores(CutRows(p, data[at..], update))
    && after0 + Afters(CutRows(p, data, update), update) == after + Afters(CutRows(p, data[at..], update), update)
  }

  lemma RowsStart(p: seq<Column>, data: seq<Byte>, update: bool, before: seq<seq<Cell>>, after: seq<seq<Cell>>)
    requires |p| > 0 && RowsFit(p, data, update)
    ensures Between(p, data, update, 0, before, after, before, after)
  {
    assert data[0..] == data;
  }

  lemma RowsEnd(p: seq<Column>, data: seq<Byte>, update: bool, at: nat,
      before0: seq<seq<Cell>>, after0: seq<seq<Cell>>, before: seq<seq<Cell>>, after: seq<seq<Cell>>)
    requires Between(p, data, update, at, before0, after0, before, after) && at >= |data| - 4
    ensures |p| > 0 && RowsFit(p, data, update) && at + 4 == |data|
    ensures before == before0 + Befores(CutRows(p, data, update))
    ensures after == after0 + Afters(CutRows(p, data, update), update)
  {
    assert CutRows(p, data[at..], update) == [];
  }

  lemma StoredStep(c: Change, rest: seq<Change>, update: bool, before: seq<seq<Cell>>, after: seq<seq<Cell>>)
    ensures before + Befores([c] + rest) == before + [c.before] + Befores(rest)
    ensures after + Afters([c] + rest, update)
         == (if update then after + [c.before + c.after] else after) + Afters(rest, update)
  {
  }

  lemma RowsStep(p: seq<Column>, data: seq<Byte>, update: bool, at: nat,
      before0: seq<seq<Cell>>, after0: seq<seq<Cell>>, before: seq<seq<Cell>>, after: seq<seq<Cell>>)
    requires Between(p, data, update, at, before0, after0, before, after) && |data| - at > 4
    ensures RowFits(p, data[at..])
    ensures var c := CutRow(p, data[at..]);
            var at1 := at + c.end;
            && at < at1 <= |data|
            && (!update ==> Between(p, data, update, at1, before0, after0, before + [c.cells], after))
            && (update ==>
                  && RowFits(p, data[at1..])
                  && var c2 := CutRow(p, data[at1..]);
                  && at1 + c2.end <= |data|
                  && Between(p, data, update, at1 + c2.end, before0, after0,
                             before + [c.cells], after + [c.cells + c2.cells]))
  {
    hide CutRow, RowFits, Befores, Afters;
    var c := CutRow(p, data[at..]);
    var at1 := at + c.end;
    assert data[at..][c.end..] == data[at1..];
    if update {
      var c2 := CutRow(p, data[at1..]);
      assert data[at1..][c2.end..] == data[at1 + c2.end..];
      StoredStep(Change(c.cells, c2.cells), CutRows(p, data[at1 + c2.end..], update), update, before, after);
    } else {
      StoredStep(Change(c.cells, []), CutRows(p, data[at1..], update), update, before, after);
    }
  }

  // ---- events as a writer lays them out ----------------------------------------------------

  /** The images of one change, and those of an event one after the other. The before images have the columns
      of one bitmap of the event, the after images those of another. */
  datatype ChangeImages = ChangeImages(before: RowImage, after: RowImage) {
    function Bytes(update: bool): seq<Byte> {
      before.Bytes() + if update then after.Bytes() else []
    }

    predicate Of(cols: seq<Column>, afterCols: seq<Column>, update: bool) {
      before.Of(cols) && (update ==> after.Of(afterCols))
    }

    function Cells(update: bool): Change {
      Change(before.cells, if update then after.cells else [])
    }
  }

  predicate AllOf(images: seq<ChangeImages>, cols: seq<Column>, afterCols: seq<Column>, update: bool) {
    forall image <- images :: image.Of(cols, afterCols, update)
  }

  function EventBytes(images: seq<ChangeImages>, update: bool): seq<Byte> {
    if images == [] then [] else images[0].Bytes(update) + EventBytes(images[1..], update)
  }

  function EventCells(images: seq<ChangeImages>, update: bool): seq<Change> {
    seq(|images|, i requires 0 <= i < |images| => images[i].Cells(update))
  }

  /** The rows of an event are cut exactly where the writer put them, and the loop stops at the checksum. */
  predicate CutAsWritten(cols: seq<Column>, images: seq<ChangeImages>, update: bool, crc: seq<Byte>)
    requires |cols| > 0
  {
    && RowsFit(cols, EventBytes(images, update) + crc, update)
    && CutRows(cols, EventBytes(images, update) + crc, update) == EventCells(images, update)
  }

  /** As many columns in one image as in the other, with the same shapes in order. */
  predicate SameShapes(cols: seq<Column>, afterCols: seq<Column>)
    requires forall c <- cols + afterCols :: c.Valid()
  {
    |cols| == |afterCols| && forall j :: 0 <= j < |cols| ==> ShapeOf(cols[j]) == ShapeOf(afterCols[j])
  }

  predicate AllAgree(cols: seq<Column>) {
    forall c <- cols :: c.Valid() && WidthsAgree(c)
  }

  /** When the columns of the after image have the shapes of those of the before image, every event is cut as
      written, whatever the padding of the null maps and whatever the checksum. */
  lemma {:induction false} EventRoundTrip(cols: seq<Column>, afterCols: seq<Column>, images: seq<ChangeImages>,
      update: bool, crc: seq<Byte>)
    requires |cols| > 0 && |crc| == 4 && AllAgree(cols + afterCols)
    requires AllOf(images, cols, afterCols, update)
    requires update ==> SameShapes(cols, afterCols)
    ensures CutAsWritten(cols, images, update, crc)
  {
    hide WidthsAgree, Column.Valid;
    if images == [] {
      assert EventBytes(images, update) + crc == crc;
    } else {
      EventRoundTrip(cols, afterCols, images[1..], update, crc);
      assert images[0].Of(cols, afterCols, update);
      if update {
        SameImages(cols, afterCols, images[0].after);
      }
      EventStep(cols, images, update, crc);
    }
  }

  lemma SameImages(cols: seq<Column>, afterCols: seq<Column>, img: RowImage)
    requires AllAgree(cols + afterCols) && SameShapes(cols, afterCols) && img.Of(afterCols)
    ensures img.Of(cols)
  {
    hide Sized, WidthsAgree, Column.Valid, ShapeOf, NullBit;
    forall j | 0 <= j < |cols| ensures Sized(cols[j], img.cells[j]) {
      assert cols[j] in cols + afterCols;
      SameSized(afterCols[j], cols[j], img.cells[j]);
    }
  }

  lemma SameSized(c: Column, d: Column, cell: Cell)
    requires Sized(c, cell) && d.Valid() && WidthsAgree(d) && ShapeOf(c) == ShapeOf(d)
    ensures Sized(d, cell)
  {
    hide WidthsAgree, ShapeOf, CalcFieldSize, ParsedWidth, Column.Valid;
    if cell.Field? {
      SizedByShape(c, cell.bytes);
      SizedByShape(d, cell.bytes);
    }
  }

  lemma SizedByShape(c: Column, bytes: seq<Byte>)
    requires c.Valid() && WidthsAgree(c)
    ensures Sized(c, Field(bytes)) <==> ShapeOf(c).Width(bytes + ZEROS) == |bytes|
  {
    hide WidthsAgree, ShapeOf, CalcFieldSize, ParsedWidth, Column.Valid, Shape.Width;
    AgreeingWidths(c, bytes + ZEROS);
    WidthByShape(c, bytes + ZEROS);
  }

  lemma EventStep(cols: seq<Column>, images: seq<ChangeImages>, update: bool, crc: seq<Byte>)
    requires |cols| > 0 && |crc| == 4 && images != [] && images[0].Of(cols, cols, update)
    requires CutAsWritten(cols, images[1..], update, crc)
    ensures CutAsWritten(cols, images, update, crc)
  {
    hide RowsFit, CutRows, EventBytes, EventCells, ChangeImages.Of, ChangeImages.Bytes, ChangeImages.Cells;
    EventParts(images, update);
    Reassociate(images[0].Bytes(update), EventBytes(images[1..], update), crc);
    ChangeRoundTrip(cols, images[0], update, EventBytes(images[1..], update) + crc);
  }

  lemma EventParts(images: seq<ChangeImages>, update: bool)
    requires images != []
    ensures EventBytes(images, update) == images[0].Bytes(update) + EventBytes(images[1..], update)
    ensures EventCells(images, update) == [images[0].Cells(update)] + EventCells(images[1..], update)
  {
    hide ChangeImages.Bytes, ChangeImages.Cells;
  }

  lemma ChangeRoundTrip(cols: seq<Column>, image: ChangeImages, update: bool, rest: seq<Byte>)
    requires |cols| > 0 && |rest| >= 4 && image.Of(cols, cols, update) && RowsFit(cols, rest, update)
    ensures RowsFit(cols, image.Bytes(update) + rest, update)
    ensures CutRows(cols, image.Bytes(update) + rest, update) == [image.Cells(update)] + CutRows(cols, rest, update)
  {
    hide *;
    ImageParts(cols, image, update);
    if update {
      var before, after := image.before.Bytes(), image.after.Bytes();
      Reassociate(before, after, rest);
      RowRoundTrip(cols, image.before, after + rest);
      RowRoundTrip(cols, image.after, rest);
      PairFirst(cols, before, after, rest);
    } else {
      RowRoundTrip(cols, image.before, rest);
      SingleFirst(cols, image.before.Bytes(), rest);
    }
  }

  lemma ImageParts(cols: seq<Column>, image: ChangeImages, update: bool)
    requires image.Of(cols, cols, update)
    ensures image.before.Of(cols) && (update ==> image.after.Of(cols))
    ensures image.Bytes(update) == image.before.Bytes() + (if update then image.after.Bytes() else [])
    ensures !update ==> image.Bytes(update) == image.before.Bytes()
    ensures image.Cells(update) == Change(image.before.cells, if update then image.after.cells else [])
  {
    hide RowImage.Of, RowImage.Bytes;
  }

  lemma SingleFirst(cols: seq<Column>, row: seq<Byte>, rest: seq<Byte>)
    requires |cols| > 0 && RowFits(cols, row + rest) && CutRow(cols, row + rest).end == |row|
    requires RowsFit(cols, rest, false)
    ensures RowsFit(cols, row + rest, false)
    ensures CutRows(cols, row + rest, false)
         == [Change(CutRow(cols, row + rest).cells, [])] + CutRows(cols, rest, false)
  {
    hide CutRow, RowFits;
    assert (row + rest)[|row|..] == rest;
  }

  lemma PairFirst(cols: seq<Column>, row: seq<Byte>, row2: seq<Byte>, rest: seq<Byte>)
    requires |cols| > 0 && RowFits(cols, row + (row2 + rest)) && CutRow(cols, row + (row2 + rest)).end == |row|
    requires RowFits(cols, row2 + rest) && CutRow(cols, row2 + rest).end == |row2|
    requires RowsFit(cols, rest, true)
    ensures RowsFit(cols, row + (row2 + rest), true)
    ensures CutRows(cols, row + (row2 + rest), true)
         == [Change(CutRow(cols, row + (row2 + rest)).cells, CutRow(cols, row2 + rest).cells)]
            + CutRows(cols, rest, true)
  {
    hide CutRow, RowFits;
    assert (row + (row2 + rest))[|row|..] == row2 + rest && (row2 + rest)[|row2|..] == rest;
  }

  /** What is stored of an event that is cut as written: the before images, and for an update each before image with
      the after image behind it, for the vector of values is not cleared between them. */
  lemma StoredImages(images: seq<ChangeImages>, update: bool, i: nat)
    requires i < |images|
    ensures |Befores(EventCells(images, update))| == |images|
    ensures Befores(EventCells(images, update))[i] == images[i].before.cells
    ensures |Afters(EventCells(images, update), update)| == if update then |images| else 0
    ensures update ==>
              Afters(EventCells(images, update), update)[i] == images[i].before.cells + images[i].after.cells
  {
  }

  // ---- when the after image has other columns ---------------------------------------------------

  function Filled(n: nat, b: Byte): (s: seq<Byte>)
    ensures |s| == n
  {
    seq(n, _ => b)
  }

  /** A field without length bytes, or one whose length bytes count the bytes behind them. */
  predicate CountsTheRest(s: Shape) {
    s.counters <= 4 && (s.counters == 0 || s.added == s.counters)
  }

  lemma AgreeingShape(c: Column)
    requires c.Valid() && WidthsAgree(c)
    ensures CountsTheRest(ShapeOf(c))
  {
    hide ParsedWidth;
  }

  lemma FilledWidth(s: Shape, n: nat, b: Byte)
    requires s.counters <= 4 && (b == 0 || b == 1)
    ensures s.Width(Filled(n, b) + Filled(4, b)) == s.Width(if b == 0 then ZEROS else ONES)
  {
    hide LittleEndian;
    SameLittleEndian(Filled(n, b) + Filled(4, b), if b == 0 then ZEROS else ONES, s.counters);
  }

  lemma OneCharacter(k: nat)
    requires 1 <= k <= 4
    ensures LittleEndian(Filled(1, 1) + Filled(k, 0) + ZEROS, k) == 1
  {
    LittleEndianTable(Filled(1, 1) + Filled(k, 0) + ZEROS);
  }

  /** A field of one shape that is taken for a longer or shorter one by the other. */
  lemma TellingBytes(s: Shape, r: Shape) returns (b: seq<Byte>, crc: seq<Byte>)
    requires CountsTheRest(s) && CountsTheRest(r) && s != r
    ensures |crc| == 4 && s.Width(b + ZEROS) == |b| && r.Width(b + crc) != |b|
  {
    hide LittleEndian, Filled;
    ProbeValues();
    if s.counters > 0 && r == Shape(0, s.counters) {
      b, crc := Filled(1, 1) + Filled(s.counters, 0), ZEROS;
      OneCharacter(s.counters);
    } else {
      var fill: Byte := if s.counters == 0 && r.counters > 0 && r.counters == s.added then 1 else 0;
      b, crc := Filled(s.added, fill), Filled(4, fill);
      FilledWidth(r, s.added, fill);
      if s.counters > 0 {
        FilledWidth(s, s.added, 0);
        assert Filled(4, 0) == ZEROS by {
          FilledZeros();
        }
      }
    }
  }

  lemma FilledZeros()
    ensures Filled(4, 0) == ZEROS
  {
  }

  function EightFrom(cells: seq<Cell>, i: nat): seq<Cell>
    requires 8 * i <= |cells|
  {
    if 8 * i + 8 <= |cells| then cells[8 * i..8 * i + 8] else cells[8 * i..]
  }

  function NullByte(cells: seq<Cell>): Byte
    requires |cells| <= 8
  {
    NullBitsFit(cells);
    PowMonotone(2, |cells|, 8);
    Pow2Table();
    NullBits(cells)
  }

  /** The row image of the cells, with padding bits of zero. */
  function ImageOf(cells: seq<Cell>): RowImage {
    RowImage(seq(NullBytes(|cells|), i requires 0 <= i < NullBytes(|cells|) => NullByte(EightFrom(cells, i))), cells)
  }

  lemma ImageHasItsMap(cells: seq<Cell>, j: nat)
    requires j < |cells|
    ensures |ImageOf(cells).nullMap| == NullBytes(|cells|) && j / 8 < NullBytes(|cells|)
    ensures ImageOf(cells).nullMap[j / 8] / Pow(2, j % 8) % 2 == 1 <==> cells[j].Null?
  {
    hide NullBits;
    NullBitsAt(EightFrom(cells, j / 8), j % 8);
  }

  lemma ImageCells(cells: seq<Cell>)
    ensures ImageOf(cells).cells == cells && |ImageOf(cells).nullMap| == NullBytes(|cells|)
  {
  }

  lemma ImageIsOf(cols: seq<Column>, cells: seq<Cell>)
    requires |cells| == |cols| && forall j :: 0 <= j < |cols| ==> Sized(cols[j], cells[j])
    ensures ImageOf(cells).Of(cols)
  {
    hide Sized, ImageOf, Pow;
    ImageCells(cells);
    forall j: nat | j < |cols| ensures ImageOf(cells).nullMap[j / 8] / Pow(2, j % 8) % 2 == 1 <==> cells[j].Null? {
      ImageHasItsMap(cells, j);
    }
  }

  function Nulls(n: nat): (cells: seq<Cell>)
    ensures |cells| == n
  {
    seq(n, _ => Null)
  }

  lemma {:induction false} OnlyField(cells: seq<Cell>, j: nat)
    requires j <= |cells| && forall i :: 0 <= i < |cells| && i != j ==> cells[i].Null?
    ensures FieldBytes(cells) == if j < |cells| && cells[j].Field? then cells[j].bytes else []
  {
    if cells != [] {
      OnlyField(cells[1..], if j == 0 then |cells| - 1 else j - 1);
    }
  }

  lemma {:induction false} PassNulls(cols: seq<Column>, data: seq<Byte>, i: nat, j: nat, at: nat)
    requires i <= j < |cols| && Fits(cols, data, i, at)
    requires forall m: nat :: i <= m < j && m / 8 < |data| ==> NullBit(data, m) == 1
    ensures Fits(cols, data, j, at)
    ensures CutFrom(cols, data, i, at).cells[j - i] == CutFrom(cols, data, j, at).cells[0]
    decreases j - i
  {
    hide ParsedWidth, NullBit, Column.Valid;
    if i < j {
      PassNulls(cols, data, i + 1, j, at);
    }
  }

  /** A lone field that the cursor takes for a longer or shorter one is not found. */
  lemma LoneFieldMissed(cols: seq<Column>, j: nat, b: seq<Byte>, crc: seq<Byte>)
    requires j < |cols| && cols[j].Valid() && |crc| == 4 && ParsedWidth(cols[j], b + crc) != |b|
    requires RowFits(cols, ImageOf(Nulls(|cols|)[j := Field(b)]).Bytes() + crc)
    ensures CutRow(cols, ImageOf(Nulls(|cols|)[j := Field(b)]).Bytes() + crc).cells != Nulls(|cols|)[j := Field(b)]
  {
    hide ParsedWidth, NullBit, Column.Valid, NullByte, Fits, CutFrom;
    var cells := Nulls(|cols|)[j := Field(b)];
    var img := ImageOf(cells);
    var data := img.Bytes() + crc;
    var at := NullBytes(|cols|);
    OnlyField(cells, j);
    assert data == img.nullMap + (b + crc);
    forall m: nat | m <= j ensures m / 8 < |data| && (NullBit(data, m) == 1 <==> m < j) {
      ImageHasItsMap(cells, m);
      NullBitIs(data, m);
      assert data[m / 8] == img.nullMap[m / 8];
    }
    PassNulls(cols, data, 0, j, at);
    assert data[at..] == b + crc;
    FieldCut(cols, data, j, at);
  }

  lemma NullBitIs(data: seq<Byte>, m: nat)
    requires m / 8 < |data|
    ensures NullBit(data, m) == data[m / 8] / Pow(2, m % 8) % 2
  {
  }

  lemma FieldCut(cols: seq<Column>, data: seq<Byte>, j: nat, at: nat)
    requires j < |cols| && Fits(cols, data, j, at) && j / 8 < |data| && NullBit(data, j) != 1
    ensures cols[j].Valid() && at + ParsedWidth(cols[j], data[at..]) <= |data|
    ensures CutFrom(cols, data, j, at).cells[0] == Field(data[at..at + ParsedWidth(cols[j], data[at..])])
  {
    hide ParsedWidth, NullBit, Column.Valid;
  }

  lemma AfterImageMisread(cols: seq<Column>, image: ChangeImages, crc: seq<Byte>)
    requires |cols| > 0 && |crc| == 4 && image.before.Of(cols)
    requires RowFits(cols, image.after.Bytes() + crc) ==>
               CutRow(cols, image.after.Bytes() + crc).cells != image.after.cells
    ensures !CutAsWritten(cols, [image], true, crc)
  {
    hide RowFits, CutRow, RowImage.Of, RowImage.Bytes, FieldBytes, EventBytes, EventCells;
    var before, after := image.before.Bytes(), image.after.Bytes();
    EventParts([image], true);
    NoImages();
    Reassociate(before, after, crc);
    RowRoundTrip(cols, image.before, after + crc);
    assert (before + (after + crc))[|before|..] == after + crc;
    assert [image][1..] == [];
    assert EventBytes([image], true) == before + after;
    if CutAsWritten(cols, [image], true, crc) {
      RowsStartWith(cols, before + (after + crc), |before|);
    }
  }

  lemma NoImages()
    ensures EventBytes([], true) == []
  {
  }

  lemma RowsStartWith(cols: seq<Column>, data: seq<Byte>, n: nat)
    requires |cols| > 0 && RowFits(cols, data) && CutRow(cols, data).end == n
    requires RowsFit(cols, data, true)
    ensures n <= |data| && RowFits(cols, data[n..]) && |CutRows(cols, data, true)| > 0
    ensures CutRows(cols, data, true)[0].after == CutRow(cols, data[n..]).cells
  {
    hide RowFits, CutRow;
  }

  /** Every event whose images have these columns is cut as written. */
  ghost predicate AlwaysCutAsWritten(cols: seq<Column>, afterCols: seq<Column>, update: bool)
    requires |cols| > 0
  {
    forall images, crc | |crc| == 4 && AllOf(images, cols, afterCols, update) ::
      CutAsWritten(cols, images, update, crc)
  }

  /** Events of single images are always cut as written; those of updates exactly when the columns of the after
      image are as many as those of the before image and have their shapes. */
  lemma EventRoundTripExactly(cols: seq<Column>, afterCols: seq<Column>, update: bool)
    requires |cols| > 0 && AllAgree(cols + afterCols)
    ensures AlwaysCutAsWritten(cols, afterCols, update) <==> (update ==> SameShapes(cols, afterCols))
  {
    hide CutAsWritten, SameShapes, ChangeImages.Of, WidthsAgree, Column.Valid;
    if update ==> SameShapes(cols, afterCols) {
      forall images, crc: seq<Byte> | |crc| == 4 && AllOf(images, cols, afterCols, update)
        ensures CutAsWritten(cols, images, update, crc)
      {
        EventRoundTrip(cols, afterCols, images, update, crc);
      }
    } else {
      var image, crc := MisreadEvent(cols, afterCols);
      assert AllOf([image], cols, afterCols, update);
    }
  }

  lemma MisreadEvent(cols: seq<Column>, afterCols: seq<Column>) returns (image: ChangeImages, crc: seq<Byte>)
    requires |cols| > 0 && AllAgree(cols + afterCols) && !SameShapes(cols, afterCols)
    ensures |crc| == 4 && image.Of(cols, afterCols, true) && !CutAsWritten(cols, [image], true, crc)
  {
    hide CutAsWritten, RowImage.Of, WidthsAgree, Column.Valid, RowFits, CutRow, ShapeOf, CalcFieldSize;
    NullsAreSized(cols + afterCols);
    ImageIsOf(cols, Nulls(|cols|));
    var cells := Nulls(|afterCols|);
    crc := ZEROS;
    if |cols| == |afterCols| {
      var j: nat :| j < |cols| && ShapeOf(cols[j]) != ShapeOf(afterCols[j]);
      assert cols[j] in cols + afterCols && afterCols[j] in cols + afterCols;
      var b: seq<Byte>;
      b, crc := TellingField(afterCols[j], cols[j]);
      cells := cells[j := Field(b)];
      if RowFits(cols, ImageOf(cells).Bytes() + crc) {
        LoneFieldMissed(cols, j, b, crc);
      }
    }
    ImageIsOf(afterCols, cells);
    image := ChangeImages(ImageOf(Nulls(|cols|)), ImageOf(cells));
    AfterImageMisread(cols, image, crc);
  }

  lemma NullsAreSized(cols: seq<Column>)
    requires AllAgree(cols)
    ensures forall c <- cols :: Sized(c, Null)
  {
    hide WidthsAgree, Column.Valid;
  }

  lemma TellingField(c: Column, d: Column) returns (b: seq<Byte>, crc: seq<Byte>)
    requires c.Valid() && d.Valid() && WidthsAgree(c) && WidthsAgree(d) && ShapeOf(c) != ShapeOf(d)
    ensures |crc| == 4 && Sized(c, Field(b)) && ParsedWidth(d, b + crc) != |b|
  {
    hide Column.Valid, WidthsAgree, ShapeOf, ParsedWidth, CalcFieldSize, Shape.Width;
    AgreeingShape(c);
    AgreeingShape(d);
    b, crc := TellingBytes(ShapeOf(c), ShapeOf(d));
    SizedByShape(c, b);
    WidthByShape(d, b + crc);
  }

  const TINY := Column(TYPE_TINY, 0)

  lemma TinyRow(data: seq<Byte>)
    requires |data| >= 6 && data[0] % 2 == 0
    ensures RowFits([TINY], data) && CutRow([TINY], data).end == 2
  {
    assert BitAt(data[0], 0) == data[0] % 2;
    assert NullBit(data, 0) == 0;
    assert ParsedWidth(TINY, data[1..]) == 1;
    assert Fits([TINY], data, 1, 2);
    CutField([TINY], data, 0, 1, 1);
  }

  lemma NullRow(data: seq<Byte>)
    requires |data| == 5
    ensures RowFits([TINY], data) ==> CutRow([TINY], data).end == 1
  {
    if RowFits([TINY], data) {
      assert Fits([TINY], data, 0, 1) && CutRow([TINY], data) == CutFrom([TINY], data, 0, 1);
    }
  }

  lemma UpdateRunsOut(data: seq<Byte>)
    requires |data| == 5
    ensures !RowsFit([TINY], data, true)
  {
    hide Fits, CutRow, RowFits;
    NullRow(data);
    TooShort(data[1..]);
  }

  lemma TooShort(data: seq<Byte>)
    requires |data| <= 4
    ensures !RowFits([TINY], data)
  {
  }

  /** An update of one column that names two in its after image: the cursor takes the second field for the next
      row, and then reads on behind the rows. */
  lemma AfterColumnsIgnored(crc: seq<Byte>)
    requires |crc| == 4
    ensures var image := ChangeImages(RowImage([0], [Field([7])]), RowImage([0], [Field([8]), Field([9])]));
            && image.Of([TINY], [TINY, TINY], true)
            && !RowsFit([TINY], EventBytes([image], true) + crc, true)
  {
    var image := ChangeImages(RowImage([0], [Field([7])]), RowImage([0], [Field([8]), Field([9])]));
    TinyImages(image);
    var data := [0, 7, 0, 8, 9] + crc;
    TinyRow(data);
    assert data[2..] == [0, 8, 9] + crc;
    TinyRow(data[2..]);
    assert data[2..][2..] == [9] + crc;
    UpdateRunsOut(data[2..][2..]);
    hide RowFits, CutRow, RowImage.Of;
  }

  lemma TinyImages(image: ChangeImages)
    requires image == ChangeImages(RowImage([0], [Field([7])]), RowImage([0], [Field([8]), Field([9])]))
    ensures image.Of([TINY], [TINY, TINY], true) && EventBytes([image], true) == [0, 7, 0, 8, 9]
  {
    Pow2Table();
    hide Pow;
    assert FieldBytes([Field([7])]) == [7];
    assert FieldBytes([Field([8]), Field([9])]) == [8, 9];
    NoImages();
    assert image.Bytes(true) == [0, 7, 0, 8, 9];
  }
}
