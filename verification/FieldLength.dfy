/** Length-encoded integers (binlog/src/LogEvent.cpp, get_field_length). */
module FieldLength {
  import opened Arith
  import opened ByteStore

  /** The bytes of a length, by its first one. */
  function FormBytes(first: Byte): (n: nat)
    ensures 1 <= n <= 9
  {
    if first <= 251 then 1 else if first == 252 then 3 else if first == 253 then 4 else 9
  }

  /** The value read, in 32 bits, and how many bytes the cursor moves. A first byte of 251 stands for NULL. */
  function GetFieldLength(packet: seq<Byte>): (r: (nat, nat))
    requires packet != [] && |packet| >= FormBytes(packet[0])
    ensures r.1 == FormBytes(packet[0])
  {
    if packet[0] < 251 then (packet[0], 1)
    else if packet[0] == 251 then (0xFFFF_FFFF, 1)
    else if packet[0] == 252 then (LittleEndian(packet[1..], 2), 3)
    else if packet[0] == 253 then (LittleEndian(packet[1..], 3), 4)
    else (LittleEndian(packet[1..], 4), 9)
  }

  /** n bytes, low byte first. */
  function LowFirst(x: nat, n: nat): (s: seq<Byte>)
    ensures |s| == n
  {
    if n == 0 then [] else [x % 0x100] + LowFirst(x / 0x100, n - 1)
  }

  /** The server's encoding: the shortest of the four forms. */
  function StoreLength(x: nat): (s: seq<Byte>)
    ensures 1 <= |s| <= 9
  {
    if x < 251 then [x]
    else if x < 0x1_0000 then [252] + LowFirst(x, 2)
    else if x < 0x100_0000 then [253] + LowFirst(x, 3)
    else [254] + LowFirst(x, 8)
  }

  lemma {:induction false} LowFirstReadsBack(x: nat, n: nat, k: nat, rest: seq<Byte>)
    requires k <= n
    ensures LittleEndian(LowFirst(x, n) + rest, k) == x % Pow(256, k)
  {
    if k > 0 {
      var s := LowFirst(x, n) + rest;
      assert s[1..] == LowFirst(x / 0x100, n - 1) + rest;
      LowFirstReadsBack(x / 0x100, n - 1, k - 1, rest);
      ModSplit(x, 0x100, Pow(256, k - 1));
    }
  }

  /** A stored length is read back, with the cursor behind it, modulo 2^32: exactly the lengths of 32 bits survive. */
  lemma LengthRoundTrip(x: nat, rest: seq<Byte>)
    requires x < 0x1_0000_0000_0000_0000
    ensures FormBytes(StoreLength(x)[0]) == |StoreLength(x)|
    ensures GetFieldLength(StoreLength(x) + rest) == (x % 0x1_0000_0000, |StoreLength(x)|)
    ensures GetFieldLength(StoreLength(x) + rest).0 == x <==> x < 0x1_0000_0000
  {
    hide LowFirst, LittleEndian, Pow;
    Pow256Table();
    var packet := StoreLength(x) + rest;
    if 251 <= x {
      var n := |StoreLength(x)| - 1;
      assert packet[1..] == LowFirst(x, n) + rest;
      LowFirstReadsBack(x, n, if n == 8 then 4 else n, rest);
      SmallRemainder(x, Pow(256, if n == 8 then 4 else n));
    }
    SmallRemainder(x, 0x1_0000_0000);
  }

  lemma SmallRemainder(x: nat, p: nat)
    requires p > 0
    ensures x % p == x <==> x < p
  {
    if x < p {
      DivModUnique(x, p, 0, x);
    }
  }

  /** Every form of a length, by its first byte: one byte, NULL, and two, three and eight bytes of which the first four
      are read. */
  lemma LengthForms(packet: seq<Byte>)
    requires |packet| >= 9
    ensures var (value, moved) := GetFieldLength(packet);
            var b := packet;
            if b[0] < 251 then value == b[0] as int && moved == 1
            else if b[0] == 251 then value == 4294967295 && moved == 1
            else if b[0] == 252 then value == b[1] + 256 * At(b, 2) && moved == 3
            else if b[0] == 253 then value == b[1] + 256 * At(b, 2) + 65536 * At(b, 3) && moved == 4
            else value == b[1] + 256 * At(b, 2) + 65536 * At(b, 3) + 16777216 * At(b, 4) && moved == 9
  {
    hide LittleEndian;
    LittleEndianTable(packet[1..]);
  }
}
