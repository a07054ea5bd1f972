/** The two computations of a column's width in a row image: the one the row cursor makes while it reads
    (binlog/src/LogEvent.cpp) and the one of the table definition (binlog/src/binary_log_funcs.cpp). */
module FieldWidth {
  import opened Arith
  import opened ByteStore
  import opened PackedDecimal
  import Temporal

  const TYPE_DECIMAL := 0
  const TYPE_TINY := 1
  const TYPE_SHORT := 2
  const TYPE_LONG := 3
  const TYPE_FLOAT := 4
  const TYPE_DOUBLE := 5
  const TYPE_NULL := 6
  const TYPE_TIMESTAMP := 7
  const TYPE_LONGLONG := 8
  const TYPE_INT24 := 9
  const TYPE_DATE := 10
  const TYPE_TIME := 11
  const TYPE_DATETIME := 12
  const TYPE_YEAR := 13
  const TYPE_NEWDATE := 14
  const TYPE_VARCHAR := 15
  const TYPE_BIT := 16
  const TYPE_TIMESTAMP2 := 17
  const TYPE_DATETIME2 := 18
  const TYPE_TIME2 := 19
  const TYPE_JSON := 245
  const TYPE_NEWDECIMAL := 246
  const TYPE_ENUM := 247
  const TYPE_SET := 248
  const TYPE_TINY_BLOB := 249
  const TYPE_MEDIUM_BLOB := 250
  const TYPE_LONG_BLOB := 251
  const TYPE_BLOB := 252
  const TYPE_VAR_STRING := 253
  const TYPE_STRING := 254
  const TYPE_GEOMETRY := 255

  const UINT32 := 0x1_0000_0000
  const UINT_MAX := 0xFFFF_FFFF

  /** A column as the row reader sees it: its type and its 16 bits of metadata. NEWDECIMAL metadata holds
      the precision and the scale, which index a table of byte counts and so must be in order. */
  datatype Column = Column(kind: nat, meta: nat) {
    predicate Valid() {
      && kind < 256 && meta < 0x1_0000
      && (kind == TYPE_NEWDECIMAL || RealType() == TYPE_NEWDECIMAL ==> meta % 256 <= meta / 256)
    }

    /** Bits 4 and 5 of the high metadata byte: for STRING they hold bits 8 and 9 of the length, inverted. */
    function LengthBits(): nat {
      meta / 0x1000 % 4
    }

    /** The type that a STRING column with length bits is switched to: `byte0 | 0x30`. */
    function RealType(): nat {
      if kind == TYPE_STRING && meta >= 256 && LengthBits() != 3
      then meta / 256 + (3 - LengthBits()) * 0x10 else kind
    }

    /** The length computed for a STRING column; other types start from 0. */
    function StringLength(): nat {
      if kind != TYPE_STRING then 0
      else if meta < 256 then meta
      else if LengthBits() != 3 then meta % 256 + (3 - LengthBits()) * 0x100
      else meta % 256
    }
  }

  /** parseRowDataToString: a string behind one or two length bytes. */
  function StringWidth(length: nat, data: seq<Byte>): nat
    requires |data| >= 4
  {
    if length < 256 then At(data, 0) + 1 else LittleEndian(data, 2) + 2
  }

  /** What parseOneRowData returns for a non-null column. */
  function ParsedWidth(c: Column, data: seq<Byte>): nat
    requires c.Valid() && |data| >= 4
  {
    var t, meta := c.RealType(), c.meta;
    if t == TYPE_LONG then 4
    else if t == TYPE_TINY then 1
    else if t == TYPE_SHORT then 2
    else if t == TYPE_INT24 then 3
    else if t == TYPE_LONGLONG then 8
    else if t == TYPE_NEWDECIMAL then DecimalBinSize(meta / 256, meta % 256)
    else if t == TYPE_FLOAT then 4
    else if t == TYPE_DOUBLE then 8
    else if t == TYPE_BIT then (meta / 256 * 8 + meta % 256 + 7) / 8
    else if t == TYPE_TIMESTAMP then 4
    else if t == TYPE_TIMESTAMP2 then Temporal.MyTimestampBinaryLength(meta)
    else if t == TYPE_DATETIME then 8
    else if t == TYPE_DATETIME2 then Temporal.MyDatetimeBinaryLength(meta)
    else if t == TYPE_TIME then 3
    else if t == TYPE_TIME2 then Temporal.MyTimeBinaryLength(meta)
    else if t == TYPE_NEWDATE then 3
    else if t == TYPE_YEAR then 1
    else if t == TYPE_ENUM then (match meta % 256 case 1 => 1 case 2 => 2 case _ => 0)
    else if t == TYPE_SET then meta % 256
    else if t == TYPE_BLOB then if 1 <= meta <= 4 then (LittleEndian(data, meta) + meta) % UINT32 else 0
    else if t == TYPE_VARCHAR || t == TYPE_VAR_STRING then StringWidth(meta, data)
    else if t == TYPE_STRING then StringWidth(c.StringLength(), data)
    else if t == TYPE_JSON then LittleEndian(data, 2) + meta
    else 0
  }

  // ---- the table definition's computation ----------------------------------------------

  const DIGITS_TO_BYTES: seq<nat> := [0, 1, 1, 2, 2, 3, 3, 4, 4, 4]

  function DecimalBinarySize(precision: nat, scale: nat): nat
    requires scale <= precision
  {
    var intg := precision - scale;
    var intg0, frac0 := intg / 9, scale / 9;
    var intg0x, frac0x := intg - intg0 * 9, scale - frac0 * 9;
    intg0 * 4 + DIGITS_TO_BYTES[intg0x] + frac0 * 4 + DIGITS_TO_BYTES[frac0x]
  }

  /** max_display_length_for_field for a STRING column. */
  function MaxStringLength(meta: nat): nat {
    if meta / 256 % 256 == TYPE_SET || meta / 256 % 256 == TYPE_ENUM then meta % 256
    else (3 - meta / 0x1000 % 4) * 0x100 + meta % 256
  }

  /** calc_field_size. */
  function CalcFieldSize(c: Column, data: seq<Byte>): nat
    requires c.Valid() && |data| >= 4
  {
    var t, meta := c.kind, c.meta;
    if t == TYPE_NEWDECIMAL then DecimalBinarySize(meta / 256, meta % 256)
    else if t == TYPE_DECIMAL || t == TYPE_FLOAT || t == TYPE_DOUBLE then meta
    else if t == TYPE_SET || t == TYPE_ENUM || t == TYPE_STRING then
      if meta / 256 == TYPE_SET || meta / 256 == TYPE_ENUM then meta % 256
      else if MaxStringLength(meta) > 255 then 2 + LittleEndian(data, 2)
      else 1 + At(data, 0)
    else if t == TYPE_YEAR || t == TYPE_TINY then 1
    else if t == TYPE_SHORT then 2
    else if t == TYPE_INT24 then 3
    else if t == TYPE_LONG then 4
    else if t == TYPE_LONGLONG then 8
    else if t == TYPE_NULL then 0
    else if t == TYPE_NEWDATE || t == TYPE_DATE || t == TYPE_TIME then 3
    else if t == TYPE_TIME2 then Temporal.MyTimeBinaryLength(meta)
    else if t == TYPE_TIMESTAMP then 4
    else if t == TYPE_TIMESTAMP2 then Temporal.MyTimestampBinaryLength(meta)
    else if t == TYPE_DATETIME then 8
    else if t == TYPE_DATETIME2 then Temporal.MyDatetimeBinaryLength(meta)
    else if t == TYPE_BIT then meta / 256 % 256 + if meta % 256 > 0 then 1 else 0
    else if t == TYPE_VARCHAR then if meta > 255 then 2 + LittleEndian(data, 2) else 1 + At(data, 0)
    else if t == TYPE_TINY_BLOB || t == TYPE_MEDIUM_BLOB || t == TYPE_LONG_BLOB || t == TYPE_BLOB
            || t == TYPE_GEOMETRY || t == TYPE_JSON then
      ((if 1 <= meta <= 4 then LittleEndian(data, meta) else 0) + meta) % UINT32
    else UINT_MAX
  }

  // ---- where they agree ------------------------------------------------------------------

  predicate EnumOrSet(t: nat) {
    t == TYPE_ENUM || t == TYPE_SET
  }

  /** The columns for which the two widths are the same whatever the row holds. */
  predicate WidthsAgree(c: Column) {
    var t, meta := c.kind, c.meta;
    if t == TYPE_DECIMAL || t == TYPE_TINY_BLOB || t == TYPE_MEDIUM_BLOB || t == TYPE_LONG_BLOB || t == TYPE_GEOMETRY
    then meta == 0
    else if t == TYPE_FLOAT then meta == 4
    else if t == TYPE_DOUBLE then meta == 8
    else if t == TYPE_BIT then meta % 256 <= 8
    else if t == TYPE_BLOB then meta <= 4
    else if t == TYPE_JSON then meta == 2
    else if t == TYPE_SET then EnumOrSet(meta / 256)
    else if t == TYPE_ENUM then EnumOrSet(meta / 256) && meta % 256 <= 2
    else if t == TYPE_STRING then
      meta >= 256 && !EnumOrSet(meta / 256)
      && (c.LengthBits() == 3 || c.RealType() == TYPE_STRING || c.RealType() == TYPE_VAR_STRING)
    else t != TYPE_DATE && (t <= TYPE_TIME2 || t == TYPE_NEWDECIMAL)
  }

  lemma TwoDecimalSizes(precision: nat, scale: nat)
    requires scale <= precision
    ensures DecimalBinSize(precision, scale) == DecimalBinarySize(precision, scale)
  {
  }

  lemma BitFieldBytes(meta: nat)
    ensures (meta / 256 * 8 + meta % 256 + 7) / 8 == meta / 256 + (meta % 256 + 7) / 8
  {
    DivModUnique(meta / 256 * 8 + meta % 256 + 7, 8, meta / 256 + (meta % 256 + 7) / 8, (meta % 256 + 7) % 8);
  }

  lemma AgreeingStrings(c: Column, data: seq<Byte>)
    requires c.Valid() && c.kind == TYPE_STRING && |data| >= 4 && WidthsAgree(c)
    ensures ParsedWidth(c, data) == CalcFieldSize(c, data)
  {
    hide LittleEndian, DecimalBinSize, DecimalBinarySize;
  }

  lemma AgreeingBlobs(c: Column, data: seq<Byte>)
    requires c.Valid() && |data| >= 4 && WidthsAgree(c)
    requires TYPE_TINY_BLOB <= c.kind <= TYPE_BLOB || c.kind == TYPE_GEOMETRY || c.kind == TYPE_JSON
    ensures ParsedWidth(c, data) == CalcFieldSize(c, data)
  {
    hide LittleEndian, DecimalBinSize, DecimalBinarySize, Column.LengthBits;
    LittleEndianTable(data);
  }

  lemma AgreeingWidths(c: Column, data: seq<Byte>)
    requires c.Valid() && |data| >= 4 && WidthsAgree(c)
    ensures ParsedWidth(c, data) == CalcFieldSize(c, data)
  {
    if c.kind == TYPE_STRING {
      hide *;
      AgreeingStrings(c, data);
    } else if TYPE_TINY_BLOB <= c.kind <= TYPE_BLOB || c.kind == TYPE_GEOMETRY || c.kind == TYPE_JSON {
      hide *;
      AgreeingBlobs(c, data);
    } else {
      hide LittleEndian, DecimalBinSize, DecimalBinarySize, Column.LengthBits;
      hide Temporal.MyTimestampBinaryLength, Temporal.MyDatetimeBinaryLength, Temporal.MyTimeBinaryLength;
      if c.kind == TYPE_NEWDECIMAL {
        TwoDecimalSizes(c.meta / 256, c.meta % 256);
      } else if c.kind == TYPE_BIT {
        BitFieldBytes(c.meta);
      }
    }
  }

  const ZEROS: seq<Byte> := [0, 0, 0, 0]
  const ONES: seq<Byte> := [1, 1, 1, 1]

  /** Two row contents tell the computations apart. */
  predicate ToldApart(c: Column)
    requires c.Valid()
  {
    ParsedWidth(c, ZEROS) != CalcFieldSize(c, ZEROS) || ParsedWidth(c, ONES) != CalcFieldSize(c, ONES)
  }

  /** The contents of ZEROS and ONES, read as numbers. */
  lemma ProbeValues()
    ensures forall n :: 1 <= n <= 4 ==> LittleEndian(ZEROS, n) == 0
    ensures LittleEndian(ONES, 1) == 1 && LittleEndian(ONES, 2) == 0x101
    ensures LittleEndian(ONES, 3) == 0x1_0101 && LittleEndian(ONES, 4) == 0x101_0101
  {
    LittleEndianTable(ZEROS);
    LittleEndianTable(ONES);
  }

  lemma DisagreeingStrings(c: Column)
    requires c.Valid() && c.kind == TYPE_STRING && !WidthsAgree(c)
    ensures ToldApart(c)
  {
    ProbeValues();
    hide LittleEndian, DecimalBinSize, DecimalBinarySize;
  }

  lemma DisagreeingBlobs(c: Column)
    requires c.Valid() && !WidthsAgree(c)
    requires TYPE_TINY_BLOB <= c.kind <= TYPE_BLOB || c.kind == TYPE_GEOMETRY || c.kind == TYPE_JSON
    ensures ToldApart(c)
  {
    ProbeValues();
    hide LittleEndian, DecimalBinSize, DecimalBinarySize, Column.LengthBits;
  }

  lemma DisagreeingWidths(c: Column)
    requires c.Valid() && !WidthsAgree(c)
    ensures ToldApart(c)
  {
    if c.kind == TYPE_STRING {
      DisagreeingStrings(c);
    } else if TYPE_TINY_BLOB <= c.kind <= TYPE_BLOB || c.kind == TYPE_GEOMETRY || c.kind == TYPE_JSON {
      DisagreeingBlobs(c);
    } else if c.kind == TYPE_BIT {
      BitFieldBytes(c.meta);
    } else {
      ProbeValues();
      hide LittleEndian, DecimalBinSize, DecimalBinarySize, Column.LengthBits;
    }
  }

  /** The two computations agree on every row content exactly for the columns WidthsAgree describes. */
  lemma WidthsAgreeExactly(c: Column)
    requires c.Valid()
    ensures WidthsAgree(c) <==> forall data | |data| >= 4 :: ParsedWidth(c, data) == CalcFieldSize(c, data)
  {
    hide WidthsAgree, ParsedWidth, CalcFieldSize;
    if WidthsAgree(c) {
      forall data: seq<Byte> | |data| >= 4 ensures ParsedWidth(c, data) == CalcFieldSize(c, data) {
        AgreeingWidths(c, data);
      }
    } else {
      DisagreeingWidths(c);
    }
  }

  /** The sizes that the table definition finds in the row, by type code: JSON, the BLOB types and GEOMETRY behind as
      many length bytes as the metadata says, and none for the types it does not know. */
  lemma SizesByCode(c: Column, data: seq<Byte>)
    requires c.Valid() && |data| >= 4
    ensures c.kind in {245, 249, 250, 251, 252, 255} ==>
              CalcFieldSize(c, data)
              == ((if 1 <= c.meta <= 4 then LittleEndian(data, c.meta) else 0) + c.meta) % 0x1_0000_0000
    ensures 20 <= c.kind < 245 || c.kind == 253 ==> CalcFieldSize(c, data) == 0xFFFF_FFFF
  {
    hide LittleEndian, DecimalBinarySize;
  }

  // ---- which columns the cursor takes for one another -----------------------------------------

  /** How the width of a field is found: from so many length bytes, with a constant added, or the constant alone. */
  datatype Shape = Shape(counters: nat, added: nat) {
    function Width(data: seq<Byte>): nat
      requires counters <= 4 <= |data|
    {
      if counters == 0 then added else (LittleEndian(data, counters) + added) % UINT32
    }
  }

  function StringShape(length: nat): Shape {
    if length < 256 then Shape(1, 1) else Shape(2, 2)
  }

  function ShapeOf(c: Column): (s: Shape)
    requires c.Valid()
    ensures s.counters <= 4 && (s.counters > 0 ==> s.added < 0x1_0000)
  {
    var t, meta := c.RealType(), c.meta;
    if t == TYPE_BLOB && 1 <= meta <= 4 then Shape(meta, meta)
    else if t == TYPE_VARCHAR || t == TYPE_VAR_STRING then StringShape(meta)
    else if t == TYPE_STRING then StringShape(c.StringLength())
    else if t == TYPE_JSON then Shape(2, meta)
    else Shape(0, ParsedWidth(c, ZEROS))
  }

  lemma WidthByShape(c: Column, data: seq<Byte>)
    requires c.Valid() && |data| >= 4
    ensures ParsedWidth(c, data) == ShapeOf(c).Width(data)
  {
    hide LittleEndian, DecimalBinSize, Column.RealType, Column.StringLength, StringWidth, StringShape, Shape.Width;
    hide Temporal.MyTimestampBinaryLength, Temporal.MyDatetimeBinaryLength, Temporal.MyTimeBinaryLength;
    StringWidthByShape(c.meta, data);
    StringWidthByShape(c.StringLength(), data);
    CountedWidth(c.meta, data);
    FixedWidth(ParsedWidth(c, ZEROS), data);
  }

  lemma StringWidthByShape(length: nat, data: seq<Byte>)
    requires |data| >= 4
    ensures StringShape(length).counters <= 4 && StringShape(length).Width(data) == StringWidth(length, data)
  {
    hide LittleEndian;
    LittleEndianTable(data);
  }

  lemma CountedWidth(meta: nat, data: seq<Byte>)
    requires |data| >= 4 && meta < 0x1_0000
    ensures 1 <= meta <= 4 ==> Shape(meta, meta).Width(data) == (LittleEndian(data, meta) + meta) % UINT32
    ensures Shape(2, meta).Width(data) == LittleEndian(data, 2) + meta
  {
    hide LittleEndian;
    LittleEndianTable(data);
  }

  lemma FixedWidth(width: nat, data: seq<Byte>)
    requires |data| >= 4
    ensures Shape(0, width).Width(data) == width
  {
  }

  lemma ShapesTellApart(s: Shape, r: Shape)
    requires s.counters <= 4 && (s.counters > 0 ==> s.added < 0x1_0000)
    requires r.counters <= 4 && (r.counters > 0 ==> r.added < 0x1_0000)
    requires s.Width(ZEROS) == r.Width(ZEROS) && s.Width(ONES) == r.Width(ONES)
    ensures s == r
  {
    hide LittleEndian;
    ProbeValues();
  }

  /** Two columns have the same width on every row content exactly when they have the same shape. */
  lemma SameWidthExactly(c: Column, d: Column)
    requires c.Valid() && d.Valid()
    ensures ShapeOf(c) == ShapeOf(d) <==> forall data | |data| >= 4 :: ParsedWidth(c, data) == ParsedWidth(d, data)
  {
    hide ParsedWidth, ShapeOf, Shape.Width;
    if ShapeOf(c) == ShapeOf(d) {
      forall data: seq<Byte> | |data| >= 4 ensures ParsedWidth(c, data) == ParsedWidth(d, data) {
        WidthByShape(c, data);
        WidthByShape(d, data);
      }
    } else if forall data | |data| >= 4 :: ParsedWidth(c, data) == ParsedWidth(d, data) {
      WidthByShape(c, ZEROS);
      WidthByShape(d, ZEROS);
      WidthByShape(c, ONES);
      WidthByShape(d, ONES);
      ShapesTellApart(ShapeOf(c), ShapeOf(d));
    }
  }
}
