/** Rows of a table by its schema: metadata, the bitmap of columns, the null map and the fields as a server lays
    them out, written here from the format, against what the reader makes of them. */
module TableSchema {
  import opened Arith
  import opened Bitmap
  import opened ByteStore
  import opened FieldWidth
  import opened PackedDecimal
  import opened RowCursor
  import opened TableDefinition
  import Temporal

  // ---- columns -------------------------------------------------------------------------------

  /** The columns of the format whose fields can be measured, by the codes of their types. */
  datatype ColumnDef =
    | Simple(code: Byte)                        // integers, and dates and times in the old format
    | Real(code: Byte)                          // FLOAT and DOUBLE
    | Fractional(code: Byte, decimals: Byte)    // TIMESTAMP, DATETIME and TIME with fractions
    | VarChar(length: nat)
    | Char(length: nat)
    | Bits(bits: Byte, bytes: Byte)
    | Decimal(precision: Byte, scale: Byte)
    | Blob(counters: Byte)
    | Enum(size: Byte)
    | Set(size: Byte)
  {
    predicate Valid() {
      match this
      case Simple(code) => code in {1, 2, 3, 7, 8, 9, 10, 11, 12, 13, 14}
      case Real(code) => code in {4, 5}
      case Fractional(code, decimals) => code in {17, 18, 19} && decimals <= 6
      case VarChar(length) => length < 0x1_0000
      case Char(length) => length < 0x400
      case Bits(bits, _) => bits < 8
      case Decimal(precision, scale) => scale <= precision <= 65
      case Blob(counters) => 1 <= counters <= 4
      case Enum(size) => 1 <= size <= 2
      case Set(size) => size <= 8
    }

    /** How the table map event tells it. CHAR, ENUM and SET travel as type 254; the length of a CHAR has its
        bits 8 and 9 inverted in the type. */
    function Meta(): (m: MetaDef)
      requires Valid()
      ensures m.Valid()
    {
      match this
      case Simple(code) => Without(code)
      case Real(code) => One(code, if code == 4 then 4 else 8)
      case Fractional(code, decimals) => One(code, decimals)
      case VarChar(length) => MetaDef.VarChar(length)
      case Char(length) => Two(254, 254 - 16 * (length / 256), length % 256)
      case Bits(bits, bytes) => Bit(bits, bytes)
      case Decimal(precision, scale) => Two(246, precision, scale)
      case Blob(counters) => One(252, counters)
      case Enum(size) => Two(254, 247, size)
      case Set(size) => Two(254, 248, size)
    }

    /** The bytes that a value of the column can be. */
    predicate IsField(b: seq<Byte>)
      requires Valid()
    {
      match this
      case Simple(code) =>
        |b| == (if code == 1 || code == 13 then 1
                else if code == 2 then 2
                else if code == 9 || code == 10 || code == 11 || code == 14 then 3
                else if code == 3 || code == 7 then 4
                else 8)
      case Real(code) => |b| == if code == 4 then 4 else 8
      case Fractional(code, decimals) =>
        |b| == (if code == 17 then 4 else if code == 18 then 5 else 3) + (decimals as int + 1) / 2
      case VarChar(length) => IsCounted(b, if length < 256 then 1 else 2)
      case Char(length) => IsCounted(b, if length < 256 then 1 else 2)
      case Bits(bits, bytes) => |b| == bytes as int + if bits > 0 then 1 else 0
      case Decimal(precision, scale) => |b| == BytesForDigits(precision - scale) + BytesForDigits(scale)
      case Blob(counters) => IsCounted(b, counters)
      case Enum(size) => |b| == size as int
      case Set(size) => |b| == size as int
    }
  }

  /** A number of bytes, itself in k bytes with the low one first, and so many bytes. */
  predicate IsCounted(b: seq<Byte>, k: nat) {
    && k <= |b|
    && (k == 1 ==> |b| == 1 + At(b, 0))
    && (k == 2 ==> |b| == 2 + At(b, 0) + 0x100 * At(b, 1))
    && (k == 3 ==> |b| == 3 + At(b, 0) + 0x100 * At(b, 1) + 0x1_0000 * At(b, 2))
    && (k == 4 ==> |b| == 4 + At(b, 0) + 0x100 * At(b, 1) + 0x1_0000 * At(b, 2) + 0x100_0000 * At(b, 3)
                   && |b| < 0x1_0000_0000)
  }

  /** Nine digits to four bytes, fewer to as many bytes as they need. */
  function BytesForDigits(digits: nat): nat {
    digits / 9 * 4 + (digits % 9 + 1) / 2
  }

  /** What is known of a column when it is read. */
  ghost predicate Reads(d: ColumnDef, c: Column) {
    d.Valid() && c.Valid() && WidthsAgree(c) && forall b | d.IsField(b) :: CalcFieldSize(c, b + ZEROS) == |b|
  }

  lemma CountedBytes(b: seq<Byte>, k: nat)
    requires 1 <= k <= 4 && IsCounted(b, k)
    ensures LittleEndian(b + ZEROS, k) + k == |b| && At(b + ZEROS, 0) == At(b, 0)
  {
    LittleEndianTable(b + ZEROS);
  }

  lemma DecimalBytes(precision: nat, scale: nat)
    requires scale <= precision
    ensures DecimalBinarySize(precision, scale) == BytesForDigits(precision - scale) + BytesForDigits(scale)
  {
    DigitTable(precision - scale);
    DigitTable(scale);
  }

  lemma DigitTable(n: nat)
    ensures n - n / 9 * 9 == n % 9 && DIGITS_TO_BYTES[n % 9] == (n % 9 + 1) / 2
  {
  }

  /** Columns of one length. */
  lemma ReadsFixed(d: ColumnDef, meta: nat)
    requires d.Valid() && d.Meta().IsMeta(meta) && meta < 0x1_0000
    requires d.Simple? || d.Real? || d.Fractional? || d.Bits? || d.Decimal?
    ensures Reads(d, ColumnOf(d.Meta().Code(), meta))
  {
    hide DecimalBinarySize, LittleEndian, BytesForDigits;
    if d.Decimal? {
      DecimalBytes(d.precision, d.scale);
    }
  }

  /** The first byte of the metadata of a type 254 tells the real type. */
  lemma HighByte(meta: nat)
    ensures meta / 0x1000 % 4 == meta / 256 / 16 % 4
  {
    DivDiv(meta, 256, 16);
  }

  lemma ReadsEnumOrSet(d: ColumnDef, meta: nat)
    requires d.Valid() && d.Meta().IsMeta(meta) && meta < 0x1_0000 && (d.Enum? || d.Set?)
    ensures Reads(d, ColumnOf(d.Meta().Code(), meta))
  {
    hide DecimalBinarySize, LittleEndian, Column.LengthBits;
  }

  lemma CharColumn(d: ColumnDef, meta: nat)
    requires d.Valid() && d.Char? && d.Meta().IsMeta(meta) && meta < 0x1_0000
    ensures var c := ColumnOf(254, meta);
            && c == Column(254, meta) && c.Valid() && WidthsAgree(c)
            && !EnumOrSet(meta / 256) && (MaxStringLength(meta) > 255 <==> d.length >= 256)
  {
    hide DecimalBinarySize, LittleEndian;
    HighByte(meta);
    var k := d.length / 256;
    assert k == 0 || k == 1 || k == 2 || k == 3;
  }

  lemma ReadsCounted(d: ColumnDef, meta: nat)
    requires d.Valid() && d.Meta().IsMeta(meta) && meta < 0x1_0000 && (d.VarChar? || d.Char? || d.Blob?)
    ensures Reads(d, ColumnOf(d.Meta().Code(), meta))
  {
    var c := ColumnOf(d.Meta().Code(), meta);
    if d.Char? {
      CharColumn(d, meta);
    }
    hide LittleEndian, DecimalBinarySize, IsCounted, MaxStringLength, Column.LengthBits;
    var k: nat := if d.Blob? then d.counters else if d.length < 256 then 1 else 2;
    forall b | d.IsField(b) ensures CalcFieldSize(c, b + ZEROS) == |b| {
      CountedBytes(b, k);
      LittleEndianTable(b + ZEROS);
      CountedLimit(b, k);
    }
  }

  lemma CountedLimit(b: seq<Byte>, k: nat)
    requires 1 <= k <= 4 && IsCounted(b, k)
    ensures |b| < 0x1_0000_0000
  {
  }

  /** The reader measures the fields of a column as the format has them. */
  lemma ColumnReads(d: ColumnDef, meta: nat)
    requires d.Valid() && d.Meta().IsMeta(meta) && meta < 0x1_0000
    ensures Reads(d, ColumnOf(d.Meta().Code(), meta))
  {
    hide Reads, ColumnOf, MetaDef.IsMeta;
    match d {
      case VarChar(_) => ReadsCounted(d, meta);
      case Char(_) => ReadsCounted(d, meta);
      case Blob(_) => ReadsCounted(d, meta);
      case Enum(_) => ReadsEnumOrSet(d, meta);
      case Set(_) => ReadsEnumOrSet(d, meta);
      case _ => ReadsFixed(d, meta);
    }
  }

  // ---- tables --------------------------------------------------------------------------------

  predicate AllColumns(defs: seq<ColumnDef>) {
    forall d <- defs :: d.Valid()
  }

  function MetasOf(defs: seq<ColumnDef>): (metas: seq<MetaDef>)
    requires AllColumns(defs)
    ensures |metas| == |defs| && AllValid(metas)
    ensures forall i :: 0 <= i < |defs| ==> metas[i] == defs[i].Meta()
  {
    if defs == [] then [] else [defs[0].Meta()] + MetasOf(defs[1..])
  }

  /** The columns as the reader has them, from the bytes of the table map event. */
  function ReadColumns(defs: seq<ColumnDef>): (cols: seq<Column>)
    requires AllColumns(defs)
    ensures |cols| == |defs|
  {
    var metas := MetasOf(defs);
    MetadataRoundTrip(metas);
    TableColumns(Codes(metas), Metas(Codes(metas), MetaBlock(metas)))
  }

  lemma ColumnsRead(defs: seq<ColumnDef>)
    requires AllColumns(defs)
    ensures forall i :: 0 <= i < |defs| ==> Reads(defs[i], ReadColumns(defs)[i])
  {
    hide Reads, MetaBlock, MetaAt, MetaBytes, ColumnOf, MetaDef.IsMeta, ColumnDef.Valid;
    var metas := MetasOf(defs);
    MetadataRoundTrip(metas);
    var read := Metas(Codes(metas), MetaBlock(metas));
    forall i: nat | i < |defs| ensures Reads(defs[i], ReadColumns(defs)[i]) {
      assert defs[i] in defs;
      MetasAt(Codes(metas), MetaBlock(metas), i);
      ColumnReads(defs[i], read[i]);
    }
  }

  /** The items whose bits are set in a number, the first at its lowest bit. */
  function Chosen<T>(items: seq<T>, number: nat, n: nat): seq<T>
    requires n <= |items|
  {
    if n == 0 then []
    else Chosen(items, number, n - 1) + if number / Pow(2, n - 1) % 2 == 1 then [items[n - 1]] else []
  }

  lemma {:induction false} PresentByNumber(cols: seq<Column>, bits: seq<Byte>, n: nat)
    requires n <= |cols| && n <= 8 * |bits|
    ensures Present(cols, bits, n) == Chosen(cols, LittleEndian(bits, |bits|), n)
  {
    hide Pow;
    if n > 0 {
      PresentByNumber(cols, bits, n - 1);
      BitOfBytes(bits, n - 1);
    }
  }

  lemma {:induction false} ChosenRead(defs: seq<ColumnDef>, cols: seq<Column>, number: nat, n: nat)
    requires |cols| == |defs| && n <= |defs| && forall i :: 0 <= i < |defs| ==> Reads(defs[i], cols[i])
    ensures |Chosen(cols, number, n)| == |Chosen(defs, number, n)|
    ensures forall j :: 0 <= j < |Chosen(defs, number, n)| ==>
              Reads(Chosen(defs, number, n)[j], Chosen(cols, number, n)[j])
  {
    hide Reads, Pow;
    if n > 0 {
      ChosenRead(defs, cols, number, n - 1);
    }
  }

  /** The cells of a row: null, or a value that its column can have. */
  predicate IsRow(defs: seq<ColumnDef>, cells: seq<Cell>) {
    |cells| == |defs|
    && forall j :: 0 <= j < |defs| && cells[j].Field? ==> defs[j].Valid() && defs[j].IsField(cells[j].bytes)
  }

  /** For every table whose columns can be measured, told by the bytes of its table map, and every choice of
      columns, told by the number that the bitmap is: a row of values, whose null map is the number of its null
      cells, is cut into exactly those values, whatever follows it and whatever the padding. */
  lemma SchemaRoundTrip(defs: seq<ColumnDef>, bits: seq<Byte>, nullMap: seq<Byte>, cells: seq<Cell>, rest: seq<Byte>)
    requires AllColumns(defs) && |defs| <= 8 * |bits| && |rest| >= 4
    requires var chosen := Chosen(defs, LittleEndian(bits, |bits|), |defs|);
             IsRow(chosen, cells) && |nullMap| == (|chosen| + 7) / 8
    requires LittleEndian(nullMap, |nullMap|) % Pow(2, |cells|) == NullBits(cells)
    ensures var cols := Present(ReadColumns(defs), bits, |defs|);
            var row := nullMap + FieldBytes(cells);
            RowFits(cols, row + rest) && CutRow(cols, row + rest) == Cut(cells, |row|)
  {
    hide ReadColumns, Present, Reads, Pow, NullBits, FieldBytes, RowFits, CutRow, ColumnDef.Valid, LittleEndian;
    var number := LittleEndian(bits, |bits|);
    ColumnsRead(defs);
    PresentByNumber(ReadColumns(defs), bits, |defs|);
    ChosenRead(defs, ReadColumns(defs), number, |defs|);
    var cols := Present(ReadColumns(defs), bits, |defs|);
    var chosen := Chosen(defs, number, |defs|);
    forall j | 0 <= j < |cols| ensures Sized(cols[j], cells[j]) {
      FieldIsSized(chosen[j], cols[j], cells[j]);
    }
    RowByNumber(cols, nullMap, cells, rest);
  }

  lemma FieldIsSized(d: ColumnDef, c: Column, cell: Cell)
    requires Reads(d, c) && (cell.Field? ==> d.IsField(cell.bytes))
    ensures Sized(c, cell)
  {
    hide WidthsAgree, CalcFieldSize, Column.Valid, ColumnDef.Valid;
  }
}
