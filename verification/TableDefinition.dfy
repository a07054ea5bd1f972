/** Column metadata of a table map event (binlog/src/TableDef.cpp, binlog/include/TableDef.h). */
module TableDefinition {
  import opened Arith
  import opened ByteStore
  import opened FieldWidth

  /** How many metadata bytes a column of a type has in the event. */
  function MetaBytes(t: nat): (n: nat)
    ensures n <= 2
  {
    if TYPE_TINY_BLOB <= t <= TYPE_BLOB || t == TYPE_DOUBLE || t == TYPE_FLOAT || t == TYPE_GEOMETRY || t == TYPE_JSON
       || t == TYPE_TIME2 || t == TYPE_DATETIME2 || t == TYPE_TIMESTAMP2 then 1
    else if t == TYPE_SET || t == TYPE_ENUM || t == TYPE_STRING || t == TYPE_BIT || t == TYPE_VARCHAR
            || t == TYPE_NEWDECIMAL then 2
    else 0
  }

  /** BIT and VARCHAR store the low byte first, the other two-byte types the high byte. */
  predicate LowFirst(t: nat) {
    t == TYPE_BIT || t == TYPE_VARCHAR
  }

  function MetaOffset(types: seq<Byte>, i: nat): nat
    requires i <= |types|
  {
    if i == 0 then 0 else MetaOffset(types, i - 1) + MetaBytes(types[i - 1])
  }

  /** One column's metadata, from the bytes that start at `at`. */
  function MetaAt(t: nat, bytes: seq<Byte>, at: nat): (meta: nat)
    requires at + MetaBytes(t) <= |bytes|
    ensures meta < 0x1_0000
  {
    if MetaBytes(t) == 0 then 0
    else if MetaBytes(t) == 1 then At(bytes, at)
    else if LowFirst(t) then At(bytes, at) + 0x100 * At(bytes, at + 1)
    else 0x100 * At(bytes, at) + At(bytes, at + 1)
  }

  lemma {:induction false} MetaOffsetGrows(types: seq<Byte>, i: nat, j: nat)
    requires i <= j <= |types|
    ensures MetaOffset(types, i) <= MetaOffset(types, j)
  {
    if i < j {
      MetaOffsetGrows(types, i, j - 1);
    }
  }

  /** The metadata of all columns: each is read where those before it end. */
  function Metas(types: seq<Byte>, bytes: seq<Byte>): (metas: seq<nat>)
    requires MetaOffset(types, |types|) <= |bytes|
    ensures |metas| == |types|
  {
    seq(|types|, i requires 0 <= i < |types| =>
      MetaOffsetGrows(types, i + 1, |types|);
      MetaAt(types[i], bytes, MetaOffset(types, i)))
  }

  lemma MetasAt(types: seq<Byte>, bytes: seq<Byte>, i: nat)
    requires MetaOffset(types, |types|) <= |bytes| && i < |types|
    ensures MetaOffset(types, i) + MetaBytes(types[i]) == MetaOffset(types, i + 1) <= |bytes|
    ensures Metas(types, bytes)[i] == MetaAt(types[i], bytes, MetaOffset(types, i))
  {
    MetaOffsetGrows(types, i + 1, |types|);
  }

  /** The type a column is read as: ENUM and SET travel as STRING, DATE is stored as NEWDATE. */
  function ColumnOf(t: nat, meta: nat): Column {
    if t == TYPE_STRING && EnumOrSet(meta / 256) then Column(meta / 256, meta)
    else if t == TYPE_DATE then Column(TYPE_NEWDATE, meta)
    else Column(t, meta)
  }

  /** The cases of the loop in the constructor. */
  method ReadMeta(t: nat, metadata: seq<Byte>, index: nat) returns (x: nat, next: nat)
    requires index + MetaBytes(t) <= |metadata|
    ensures x == MetaAt(t, metadata, index) && next == index + MetaBytes(t)
  {
    if MetaBytes(t) == 1 {
      x, next := metadata[index], index + 1;
    } else if t == TYPE_BIT || t == TYPE_VARCHAR {
      x, next := At(metadata, index) + 0x100 * At(metadata, index + 1), index + 2;
    } else if MetaBytes(t) == 2 {
      x, next := 0x100 * At(metadata, index) + At(metadata, index + 1), index + 2;
    } else {
      x, next := 0, index;
    }
  }

  /** The loop of the constructor. */
  method ReadMetas(colType: seq<Byte>, metadata: seq<Byte>) returns (metas: seq<nat>)
    requires MetaOffset(colType, |colType|) <= |metadata|
    ensures metas == Metas(colType, metadata)
  {
    hide MetaAt, MetaBytes;
    ghost var want := Metas(colType, metadata);
    metas := [];
    var index := 0;
    for i := 0 to |colType|
      invariant index == MetaOffset(colType, i)
      invariant metas == want[..i]
    {
      MetasAt(colType, metadata, i);
      var x: nat;
      x, index := ReadMeta(colType[i], metadata, index);
      metas := metas + [x];
    }
  }

  class TableDef {
    var columnType: seq<Byte>
    var columnSize: nat
    var fieldMetadataSize: nat
    var fieldMetadata: seq<nat>

    ghost predicate Valid()
      reads this
    {
      && |columnType| == columnSize == |fieldMetadata| && fieldMetadataSize > 0
      && forall i :: 0 <= i < columnSize ==> ColumnOf(columnType[i], fieldMetadata[i]).Valid()
    }

    /** Every column as it is read. */
    ghost function Columns(): (cols: seq<Column>)
      requires Valid()
      reads this
      ensures |cols| == columnSize && forall i :: 0 <= i < |cols| ==> cols[i].Valid()
    {
      seq(columnSize, i requires 0 <= i < columnSize && Valid() reads this => ColumnOf(columnType[i], fieldMetadata[i]))
    }

    constructor (colType: seq<Byte>, metadata: seq<Byte>, metadataSize: nat)
      requires metadataSize > 0 ==> MetaOffset(colType, |colType|) <= |metadata|
      ensures columnType == colType && columnSize == |colType| && fieldMetadataSize == metadataSize
      ensures fieldMetadata == if metadataSize > 0 then Metas(colType, metadata) else []
    {
      columnType, columnSize, fieldMetadataSize := colType, |colType|, metadataSize;
      fieldMetadata := [];
      new;
      if columnSize > 0 && metadataSize > 0 {
        fieldMetadata := ReadMetas(colType, metadata);
      }
    }

    function Type(i: nat): nat
      requires i < |columnType| && i < |fieldMetadata|
      reads this
    {
      ColumnOf(columnType[i], fieldMetadata[i]).kind
    }

    function FieldMetadata(i: nat): nat
      requires fieldMetadataSize > 0 ==> i < |fieldMetadata|
      reads this
    {
      if fieldMetadataSize > 0 then fieldMetadata[i] else 0
    }
  }

  /** A table map without metadata: every column has 0. */
  lemma NoMetadata(td: TableDef, i: nat)
    requires td.fieldMetadataSize == 0
    ensures td.FieldMetadata(i) == 0
  {
  }

  // ---- the writer's side -----------------------------------------------------------------

  /** A column's type and metadata as a server writes them, by the codes and the byte orders of the format. */
  datatype MetaDef =
    | VarChar(length: nat)               // type 15: the maximum length, low byte first
    | Bit(bits: Byte, bytes: Byte)       // type 16: the bits beyond whole bytes, then the whole bytes
    | Two(code: Byte, first: Byte, second: Byte)  // precision and scale, or real type and length
    | One(code: Byte, value: Byte)
    | Without(code: Byte)
  {
    predicate Valid() {
      match this
      case VarChar(length) => length < 0x1_0000
      case Bit(_, _) => true
      case Two(code, _, _) => code in {246, 247, 248, 254}
      case One(code, _) => code in {4, 5, 17, 18, 19, 245, 249, 250, 251, 252, 255}
      case Without(code) => code !in {4, 5, 15, 16, 17, 18, 19, 245, 246, 247, 248, 249, 250, 251, 252, 254, 255}
    }

    function Code(): Byte {
      match this
      case VarChar(_) => 15
      case Bit(_, _) => 16
      case Two(code, _, _) => code
      case One(code, _) => code
      case Without(code) => code
    }

    function Bytes(): seq<Byte>
      requires Valid()
    {
      match this
      case VarChar(length) => [length % 256, length / 256]
      case Bit(bits, bytes) => [bits, bytes]
      case Two(_, first, second) => [first, second]
      case One(_, value) => [value]
      case Without(_) => []
    }

    /** What the metadata of the column has to be. */
    predicate IsMeta(meta: nat) {
      match this
      case VarChar(length) => meta == length
      case Bit(bits, bytes) => meta / 256 == bytes as int && meta % 256 == bits as int
      case Two(_, first, second) => meta / 256 == first as int && meta % 256 == second as int
      case One(_, value) => meta == value as int
      case Without(_) => meta == 0
    }
  }

  predicate AllValid(defs: seq<MetaDef>) {
    forall d <- defs :: d.Valid()
  }

  function Codes(defs: seq<MetaDef>): (types: seq<Byte>)
    ensures |types| == |defs| && forall i :: 0 <= i < |defs| ==> types[i] == defs[i].Code()
  {
    seq(|defs|, i requires 0 <= i < |defs| => defs[i].Code())
  }

  /** The metadata block of a table. */
  function MetaBlock(defs: seq<MetaDef>): seq<Byte>
    requires AllValid(defs)
  {
    if defs == [] then [] else MetaBlock(defs[..|defs| - 1]) + defs[|defs| - 1].Bytes()
  }

  lemma DefLength(d: MetaDef)
    requires d.Valid()
    ensures |d.Bytes()| == MetaBytes(d.Code())
  {
  }

  lemma TwoBytes(x: nat, y: nat)
    requires x < 256
    ensures (x + 0x100 * y) / 256 == y && (x + 0x100 * y) % 256 == x
  {
  }

  lemma MetaReadsBack(d: MetaDef, front: seq<Byte>, back: seq<Byte>)
    requires d.Valid()
    ensures |front| + MetaBytes(d.Code()) <= |front + d.Bytes() + back|
    ensures d.IsMeta(MetaAt(d.Code(), front + d.Bytes() + back, |front|))
  {
    hide MetaBytes;
    DefLength(d);
    var s, bytes := front + d.Bytes() + back, d.Bytes();
    assert forall k :: 0 <= k < |bytes| ==> s[|front| + k] == bytes[k];
    MetaOfBytes(d, s, |front|);
  }

  lemma MetaOfBytes(d: MetaDef, s: seq<Byte>, at: nat)
    requires d.Valid() && |d.Bytes()| == MetaBytes(d.Code()) && at + |d.Bytes()| <= |s|
    requires forall k :: 0 <= k < |d.Bytes()| ==> s[at + k] == d.Bytes()[k]
    ensures d.IsMeta(MetaAt(d.Code(), s, at))
  {
    var bytes := d.Bytes();
    if |bytes| == 2 {
      assert s[at + 0] == bytes[0] && s[at + 1] == bytes[1];
      TwoBytes(At(s, at), At(s, at + 1));
      TwoBytes(At(s, at + 1), At(s, at));
    } else if |bytes| == 1 {
      assert s[at + 0] == bytes[0];
    }
  }

  lemma {:induction false} OffsetOfPrefix(types: seq<Byte>, n: nat, i: nat)
    requires i <= n <= |types|
    ensures MetaOffset(types[..n], i) == MetaOffset(types, i)
  {
    if i > 0 {
      OffsetOfPrefix(types, n, i - 1);
    }
  }

  /** The codes of all columns but the last, and where its metadata is. */
  lemma FrontCodes(defs: seq<MetaDef>, i: nat)
    requires i < |defs|
    ensures Codes(defs[..|defs| - 1]) == Codes(defs)[..|defs| - 1]
    ensures MetaOffset(Codes(defs[..|defs| - 1]), i) == MetaOffset(Codes(defs), i)
  {
    assert Codes(defs[..|defs| - 1]) == Codes(defs)[..|defs| - 1];
    OffsetOfPrefix(Codes(defs), |defs| - 1, i);
  }

  lemma {:induction false} BlockLength(defs: seq<MetaDef>)
    requires AllValid(defs)
    ensures |MetaBlock(defs)| == MetaOffset(Codes(defs), |defs|)
  {
    hide MetaBytes, MetaDef.Valid;
    if defs != [] {
      BlockLength(defs[..|defs| - 1]);
      DefLength(defs[|defs| - 1]);
      FrontCodes(defs, |defs| - 1);
    }
  }

  lemma {:induction false} MetaReadsBackAt(defs: seq<MetaDef>, rest: seq<Byte>, i: nat)
    requires AllValid(defs) && i < |defs|
    ensures MetaOffset(Codes(defs), i) + MetaBytes(defs[i].Code()) <= |MetaBlock(defs) + rest|
    ensures defs[i].IsMeta(MetaAt(defs[i].Code(), MetaBlock(defs) + rest, MetaOffset(Codes(defs), i)))
  {
    hide MetaBytes, MetaAt, MetaDef.Valid, MetaDef.Bytes, MetaDef.IsMeta;
    var n := |defs| - 1;
    var front, last := MetaBlock(defs[..n]), defs[n].Bytes();
    assert MetaBlock(defs) + rest == front + (last + rest) == front + last + rest;
    FrontCodes(defs, i);
    if i == n {
      BlockLength(defs[..n]);
      MetaReadsBack(defs[n], front, rest);
    } else {
      MetaReadsBackAt(defs[..n], last + rest, i);
    }
  }

  /** Of the metadata block that a server writes for a list of columns of any types, every column reads its own
      length, precision or type back. */
  lemma MetadataRoundTrip(defs: seq<MetaDef>)
    requires AllValid(defs)
    ensures MetaOffset(Codes(defs), |defs|) == |MetaBlock(defs)|
    ensures var metas := Metas(Codes(defs), MetaBlock(defs));
            forall i :: 0 <= i < |defs| ==> defs[i].IsMeta(metas[i])
  {
    hide MetaBytes, MetaAt, MetaDef.Valid, MetaDef.Bytes, MetaDef.IsMeta;
    var types, bytes := Codes(defs), MetaBlock(defs);
    BlockLength(defs);
    assert bytes + [] == bytes;
    forall i: nat | i < |defs| ensures defs[i].IsMeta(Metas(types, bytes)[i]) {
      MetaReadsBackAt(defs, [], i);
      MetasAt(types, bytes, i);
    }
  }

  /** Columns that a server writes, by the type and metadata of the event. JSON and GEOMETRY columns, of which a
      server writes too, are not among them: their two widths differ. */
  predicate Written(t: nat, meta: nat) {
    if t == TYPE_FLOAT then meta == 4
    else if t == TYPE_DOUBLE then meta == 8
    else if t == TYPE_BIT then meta % 256 <= 7
    else if t == TYPE_BLOB then 1 <= meta <= 4
    else if t == TYPE_STRING then
      (meta / 256 == TYPE_ENUM && 1 <= meta % 256 <= 2)
      || (meta / 256 == TYPE_SET && meta % 256 <= 8)
      || (meta / 256 in {TYPE_STRING - 0x30, TYPE_STRING - 0x20, TYPE_STRING - 0x10, TYPE_STRING})
    else if t == TYPE_NEWDECIMAL then meta % 256 <= meta / 256 <= 65
    else if t == TYPE_TIME2 || t == TYPE_DATETIME2 || t == TYPE_TIMESTAMP2 then meta <= 6
    else t <= TYPE_VARCHAR && t != TYPE_DECIMAL
  }

  /** For those the two width computations agree. */
  lemma WrittenWidthsAgree(t: nat, meta: nat)
    requires Written(t, meta) && meta < 0x1_0000
    ensures ColumnOf(t, meta).Valid() && WidthsAgree(ColumnOf(t, meta))
  {
    if t == TYPE_STRING && !EnumOrSet(meta / 256) {
      DivDiv(meta, 256, 16);
      var c := Column(t, meta);
      assert c.LengthBits() == meta / 256 / 16 % 4;
      assert c.LengthBits() == (meta / 256 - 206) / 16;
    }
  }
}
