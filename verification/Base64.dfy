/** Base64 (syncshare/base64.cpp), against section 4 of RFC 4648. */
module Base64 {
  import opened Arith
  import opened ByteStore

  const PAD: Byte := 61

  /** Entry v of the alphabet "A..Za..z0..9+/". */
  function CharOf(v: nat): Byte
    requires v < 64
  {
    if v < 26 then 65 + v else if v < 52 then 97 + (v - 26) else if v < 62 then 48 + (v - 52)
    else if v == 62 then 43 else 47
  }

  /** base64_chars.find, cast to unsigned char: a character that is not there gives 255. */
  function Find(c: Byte): Byte {
    if 65 <= c <= 90 then c - 65 else if 97 <= c <= 122 then c - 97 + 26 else if 48 <= c <= 57 then c - 48 + 52
    else if c == 43 then 62 else if c == 47 then 63 else 255
  }

  predicate IsBase64(c: Byte) {
    48 <= c <= 57 || 65 <= c <= 90 || 97 <= c <= 122 || c == 43 || c == 47
  }

  lemma FindCharOf(v: nat)
    requires v < 64
    ensures IsBase64(CharOf(v)) && Find(CharOf(v)) == v && CharOf(v) != PAD
  {
  }

  // ---- encoding --------------------------------------------------------------------------------

  /** The four indices of three bytes, by masks and shifts. */
  function Sextets(a: nat, b: nat, c: nat): (s: seq<nat>)
    requires a < 256 && b < 256 && c < 256
    ensures |s| == 4 && forall i :: 0 <= i < 4 ==> s[i] < 64
  {
    [a / 4, a % 4 * 16 + b / 16, b % 16 * 4 + c / 64, c % 64]
  }

  function Letters(s: seq<nat>): (r: seq<Byte>)
    requires forall i :: 0 <= i < |s| ==> s[i] < 64
    ensures |r| == |s|
  {
    seq(|s|, i requires 0 <= i < |s| => CharOf(s[i]))
  }

  function Encode(b: seq<Byte>): seq<Byte> {
    if |b| == 0 then []
    else if |b| == 1 then Letters(Sextets(At(b, 0), 0, 0))[..2] + [PAD, PAD]
    else if |b| == 2 then Letters(Sextets(At(b, 0), At(b, 1), 0))[..3] + [PAD]
    else Letters(Sextets(At(b, 0), At(b, 1), At(b, 2))) + Encode(b[3..])
  }

  /** Four characters for every three bytes begun. */
  lemma {:induction false} EncodedLength(b: seq<Byte>)
    ensures |Encode(b)| == 4 * ((|b| + 2) / 3)
  {
    hide Letters, Sextets;
    if |b| >= 3 {
      EncodedLength(b[3..]);
    }
  }

  /** The indices are the base-64 digits of the 24-bit number that the three bytes make. */
  lemma SextetsAreDigits(a: nat, b: nat, c: nat)
    requires a < 256 && b < 256 && c < 256
    ensures var s := Sextets(a, b, c);
            a * 0x1_0000 + b * 0x100 + c == ((s[0] * 64 + s[1]) * 64 + s[2]) * 64 + s[3]
  {
  }

  /** The letters of a group of one to three bytes, the missing ones taken as zero. */
  function GroupLetters(g: seq<Byte>): (r: seq<Byte>)
    requires 1 <= |g| <= 3
    ensures |r| == 4
  {
    Letters(Sextets(At(g, 0), if |g| > 1 then At(g, 1) else 0, if |g| > 2 then At(g, 2) else 0))
  }

  function Pads(n: nat): seq<Byte> {
    if n == 0 then [] else Pads(n - 1) + [PAD]
  }

  lemma EncodeGroup(b: seq<Byte>, g: seq<Byte>)
    requires |b| >= 3 && g == b[..3]
    ensures Encode(b) == GroupLetters(g) + Encode(b[3..])
  {
    hide Letters, Sextets;
  }

  /** One byte goes from the input to the pending ones; three of them are a group. */
  lemma EncodeStep(pending: seq<Byte>, s: seq<Byte>, at: nat)
    requires |pending| < 3 && at < |s|
    ensures Encode(pending + s[at..])
         == if |pending| < 2 then Encode(pending + [s[at]] + s[at + 1..])
            else GroupLetters(pending + [s[at]]) + Encode([] + s[at + 1..])
  {
    hide Letters, Sextets, GroupLetters, Encode;
    var whole, next := pending + s[at..], pending + [s[at]];
    assert whole == next + s[at + 1..];
    if |pending| == 2 {
      assert whole[..3] == next && whole[3..] == s[at + 1..] == [] + s[at + 1..];
      EncodeGroup(whole, next);
    }
  }

  lemma EncodeTail(g: seq<Byte>)
    requires 1 <= |g| <= 2
    ensures Encode(g) == GroupLetters(g)[..|g| + 1] + Pads(3 - |g|)
  {
    hide Letters, Sextets;
    assert Pads(2) == [PAD, PAD] && Pads(1) == [PAD];
  }

  lemma EncodeNothing()
    ensures Encode([]) == []
  {
  }

  /** Puts a byte behind the pending ones; a full buffer gives the letters of its group. */
  method EncodeOne(c: Byte, buffer: array<Byte>, i: nat) returns (letters: seq<Byte>, next: nat)
    requires buffer.Length == 3 && i < 3
    modifies buffer
    ensures i < 2 ==> letters == [] && next == i + 1 && buffer[..next] == old(buffer[..i]) + [c]
    ensures i == 2 ==> next == 0 && letters == GroupLetters(old(buffer[..i]) + [c])
  {
    hide GroupLetters;
    buffer[i] := c;
    letters, next := [], i + 1;
    if next == 3 {
      assert buffer[..] == buffer[..3] == old(buffer[..i]) + [c];
      letters, next := GroupLetters(buffer[..]), 0;
    }
  }

  /** The loop over the bytes: what remains of them is shorter than a group and lies in the buffer. */
  method EncodeGroups(bytes: seq<Byte>, buffer: array<Byte>) returns (ret: seq<Byte>, i: nat)
    requires buffer.Length == 3
    modifies buffer
    ensures i < 3 && ret + Encode(buffer[..i]) == Encode(bytes)
  {
    hide *;
    ret := [];
    i := 0;
    var at: nat := 0;
    assert [] + bytes[0..] == bytes;
    while at < |bytes|
      invariant i < 3 && at <= |bytes| && ret + Encode(buffer[..i] + bytes[at..]) == Encode(bytes)
    {
      EncodeStep(buffer[..i], bytes, at);
      var letters;
      letters, i := EncodeOne(bytes[at], buffer, i);
      ret := ret + letters;
      at := at + 1;
    }
    assert buffer[..i] + bytes[at..] == buffer[..i];
  }

  method Base64Encode(bytes: seq<Byte>) returns (ret: seq<Byte>)
    ensures ret == Encode(bytes)
  {
    hide Encode, GroupLetters;
    var charArray3 := new Byte[3];
    var i;
    ret, i := EncodeGroups(bytes, charArray3);
    if i > 0 {
      ghost var tail := charArray3[..i];
      for j := i to 3
        invariant charArray3[..i] == tail && forall k :: i <= k < j ==> charArray3[k] == 0
      {
        charArray3[j] := 0;
      }
      EncodeTail(tail);
      ZerosMissing(tail, charArray3[..]);
      ret := ret + GroupLetters(charArray3[..])[..i + 1];
      while i < 3
        invariant i <= 3 && ret + Pads(3 - i) == Encode(bytes)
      {
        PadFirst(3 - i);
        ret := ret + [PAD];
        i := i + 1;
      }
    } else {
      EncodeNothing();
    }
  }

  lemma ZerosMissing(g: seq<Byte>, full: seq<Byte>)
    requires 1 <= |g| <= 3 && |full| == 3 && full[..|g|] == g
    requires forall k :: |g| <= k < 3 ==> full[k] == 0
    ensures GroupLetters(full) == GroupLetters(g)
  {
    hide Letters, Sextets;
    assert forall k :: 0 <= k < |g| ==> full[k] == full[..|g|][k];
  }

  lemma {:induction false} PadFirst(n: nat)
    requires n > 0
    ensures Pads(n) == [PAD] + Pads(n - 1)
  {
    if n > 1 {
      PadFirst(n - 1);
    }
  }

  // ---- decoding --------------------------------------------------------------------------------

  // The three bytes of four indices, each cut to a byte.

  function First(p: nat, q: nat): Byte {
    (p * 4 + q / 16 % 4) % 256
  }

  function Second(q: nat, r: nat): Byte {
    (q % 16 * 16 + r / 4 % 16) % 256
  }

  function Third(r: nat, s: nat): Byte {
    (r % 4 * 64 + s) % 256
  }

  function Triple(p: nat, q: nat, r: nat, s: nat): (t: seq<Byte>)
    ensures |t| == 3
  {
    [First(p, q), Second(q, r), Third(r, s)]
  }

  /** How many characters come before the first '=' or other character outside the alphabet. */
  function Usable(s: seq<Byte>): (n: nat)
    ensures n <= |s|
  {
    if s == [] || s[0] == PAD || !IsBase64(s[0]) then 0 else 1 + Usable(s[1..])
  }

  function IndexOr(s: seq<Byte>, k: nat, filler: Byte): Byte {
    if k < |s| then Find(s[k]) else filler
  }

  /** Decoding of characters of the alphabet. Places of the last group that have no character hold `filler`. */
  function DecodeLetters(s: seq<Byte>, filler: Byte): seq<Byte> {
    if |s| == 0 then []
    else if |s| < 4 then
      Triple(Find(s[0]), IndexOr(s, 1, filler), IndexOr(s, 2, filler), filler)[..|s| - 1]
    else Triple(Find(s[0]), Find(s[1]), Find(s[2]), Find(s[3])) + DecodeLetters(s[4..], filler)
  }

  /** The 255 that find gives for the NUL in those places. */
  const NOT_FOUND: Byte := 255

  function Decode(s: seq<Byte>): seq<Byte> {
    DecodeLetters(s[..Usable(s)], NOT_FOUND)
  }

  /** What fills the missing places never shows. */
  lemma {:induction false} FillerNeverShows(s: seq<Byte>, filler: Byte, other: Byte)
    ensures DecodeLetters(s, filler) == DecodeLetters(s, other)
  {
    if |s| >= 4 {
      FillerNeverShows(s[4..], filler, other);
    }
  }

  function GroupBytes(g: seq<Byte>): (r: seq<Byte>)
    requires |g| == 4
    ensures |r| == 3
  {
    Triple(Find(g[0]), Find(g[1]), Find(g[2]), Find(g[3]))
  }

  lemma DecodeFirst(s: seq<Byte>)
    requires |s| >= 4
    ensures DecodeLetters(s, NOT_FOUND) == GroupBytes(s[..4]) + DecodeLetters(s[4..], NOT_FOUND)
  {
    hide Triple, Find;
  }

  lemma DecodeLast(s: seq<Byte>, full: seq<Byte>)
    requires 1 <= |s| <= 3 && |full| == 4 && full[..|s|] == s && forall k :: |s| <= k < 4 ==> full[k] == 0
    ensures DecodeLetters(s, NOT_FOUND) == GroupBytes(full)[..|s| - 1]
  {
    hide Triple, Find;
    NulIsNotFound();
    assert forall k :: 0 <= k < |s| ==> full[k] == full[..|s|][k];
  }

  lemma UsableStep(s: seq<Byte>, at: nat)
    requires at <= |s|
    ensures Usable(s[at..])
         == if at < |s| && s[at] != PAD && IsBase64(s[at]) then 1 + Usable(s[at + 1..]) else 0
  {
    if at < |s| {
      assert s[at..][1..] == s[at + 1..];
    }
  }

  /** One letter goes from the input to the pending ones; four of them are a group. */
  lemma DecodeStep(pending: seq<Byte>, s: seq<Byte>, at: nat, n: nat)
    requires |pending| < 4 && at < n <= |s|
    ensures DecodeLetters(pending + s[at..n], NOT_FOUND)
         == if |pending| < 3 then DecodeLetters(pending + [s[at]] + s[at + 1..n], NOT_FOUND)
            else GroupBytes(pending + [s[at]]) + DecodeLetters([] + s[at + 1..n], NOT_FOUND)
  {
    hide DecodeLetters, GroupBytes;
    var whole, next := pending + s[at..n], pending + [s[at]];
    assert whole == next + s[at + 1..n];
    if |pending| == 3 {
      assert whole[..4] == next && whole[4..] == s[at + 1..n] == [] + s[at + 1..n];
      DecodeFirst(whole);
    }
  }

  /** Puts a letter behind the pending ones; a full buffer gives the bytes of its group. */
  method DecodeOne(c: Byte, buffer: array<Byte>, i: nat) returns (bytes: seq<Byte>, next: nat)
    requires buffer.Length == 4 && i < 4
    modifies buffer
    ensures i < 3 ==> bytes == [] && next == i + 1 && buffer[..next] == old(buffer[..i]) + [c]
    ensures i == 3 ==> next == 0 && bytes == GroupBytes(old(buffer[..i]) + [c])
  {
    hide GroupBytes;
    buffer[i] := c;
    bytes, next := [], i + 1;
    if next == 4 {
      assert buffer[..] == buffer[..4] == old(buffer[..i]) + [c];
      bytes, next := GroupBytes(buffer[..]), 0;
    }
  }

  /** The loop over the usable characters: what remains of them is shorter than a group and lies in the buffer. */
  method DecodeGroups(encoded: seq<Byte>, buffer: array<Byte>) returns (ret: seq<Byte>, i: nat)
    requires buffer.Length == 4
    modifies buffer
    ensures i < 4 && ret + DecodeLetters(buffer[..i], NOT_FOUND) == Decode(encoded)
  {
    hide *;
    ret := [];
    i := 0;
    var at: nat := 0;
    ghost var n := Usable(encoded);
    WholeInput(encoded);
    while at < |encoded| && encoded[at] != PAD && IsBase64(encoded[at])
      invariant i < 4 && at <= n <= |encoded| && n == at + Usable(encoded[at..])
      invariant ret + DecodeLetters(buffer[..i] + encoded[at..n], NOT_FOUND) == Decode(encoded)
    {
      UsableStep(encoded, at);
      DecodeStep(buffer[..i], encoded, at, n);
      var bytes;
      bytes, i := DecodeOne(encoded[at], buffer, i);
      ret := ret + bytes;
      at := at + 1;
    }
    UsableStep(encoded, at);
    assert buffer[..i] + encoded[at..n] == buffer[..i];
  }

  lemma WholeInput(s: seq<Byte>)
    ensures s[0..] == s && [] + s[0..Usable(s)] == s[..Usable(s)]
    ensures Decode(s) == DecodeLetters(s[..Usable(s)], NOT_FOUND)
  {
  }

  method Base64Decode(encoded: seq<Byte>) returns (ret: seq<Byte>)
    ensures ret == Decode(encoded)
  {
    hide *;
    var charArray4 := new Byte[4];
    var i;
    ret, i := DecodeGroups(encoded, charArray4);
    ghost var group := charArray4[..i];
    if i > 0 {
      for j := i to 4
        invariant charArray4[..i] == group
        invariant forall k :: i <= k < j ==> charArray4[k] == 0
      {
        charArray4[j] := 0;
      }
      DecodeLast(group, charArray4[..]);
      ret := ret + GroupBytes(charArray4[..])[..i - 1];
    } else {
      NothingLeft();
    }
  }

  lemma NothingLeft()
    ensures DecodeLetters([], NOT_FOUND) == []
  {
  }

  lemma NulIsNotFound()
    ensures Find(0) == NOT_FOUND
  {
  }

  // ---- the round trip --------------------------------------------------------------------------

  lemma TripleOfSextets(a: nat, b: nat, c: nat, x: nat, y: nat)
    requires a < 256 && b < 256 && c < 256
    ensures var s := Sextets(a, b, c);
            && Triple(s[0], s[1], s[2], s[3]) == [a, b, c]
            && Triple(s[0], s[1], x, y)[..1] == [a]
            && Triple(s[0], s[1], s[2], y)[..2] == [a, b]
  {
    hide First, Second, Third;
    Bytes(a, b, c);
  }

  lemma Bytes(a: nat, b: nat, c: nat)
    requires a < 256 && b < 256 && c < 256
    ensures var s := Sextets(a, b, c);
            First(s[0], s[1]) == a && Second(s[1], s[2]) == b && Third(s[2], s[3]) == c
  {
    SextetParts(a, b, c);
    hide First, Second, Third;
    var s := Sextets(a, b, c);
    FirstIs(a, s[1]);
    SecondIs(b, s[1], s[2]);
    ThirdIs(c, s[2]);
  }

  lemma FirstIs(a: nat, q: nat)
    requires a < 256 && q / 16 == a % 4
    ensures First(a / 4, q) == a
  {
  }

  lemma SecondIs(b: nat, q: nat, r: nat)
    requires b < 256 && q % 16 == b / 16 && r / 4 == b % 16
    ensures Second(q, r) == b
  {
  }

  lemma ThirdIs(c: nat, r: nat)
    requires c < 256 && r % 4 == c / 64
    ensures Third(r, c % 64) == c
  {
  }

  lemma SextetParts(a: nat, b: nat, c: nat)
    requires a < 256 && b < 256 && c < 256
    ensures var s := Sextets(a, b, c);
            && s[1] / 16 == a % 4 && s[1] % 16 == b / 16
            && s[2] / 4 == b % 16 && s[2] % 4 == c / 64
  {
    DivModUnique(a % 4 * 16 + b / 16, 16, a % 4, b / 16);
    DivModUnique(b % 16 * 4 + c / 64, 4, b % 16, c / 64);
  }

  lemma UsableLetters(s: seq<nat>, rest: seq<Byte>)
    requires forall i :: 0 <= i < |s| ==> s[i] < 64
    ensures Usable(Letters(s) + rest) == |s| + Usable(rest)
  {
    if s == [] {
      assert Letters(s) + rest == rest;
    } else {
      FindCharOf(s[0]);
      assert (Letters(s) + rest)[1..] == Letters(s[1..]) + rest;
      UsableLetters(s[1..], rest);
    }
  }

  lemma DecodeGroup(a: nat, b: nat, c: nat, rest: seq<Byte>)
    requires a < 256 && b < 256 && c < 256
    ensures Decode(Letters(Sextets(a, b, c)) + rest) == [a, b, c] + Decode(rest)
  {
    hide Triple, Sextets, Find, CharOf;
    var s := Sextets(a, b, c);
    var whole := Letters(s) + rest;
    UsableLetters(s, rest);
    FindCharOf(s[0]);
    FindCharOf(s[1]);
    FindCharOf(s[2]);
    FindCharOf(s[3]);
    TripleOfSextets(a, b, c, 0, 0);
    assert whole[..Usable(whole)][4..] == rest[..Usable(rest)];
  }

  lemma DecodeTail(s: seq<nat>, n: nat, pads: seq<Byte>)
    requires |s| == 4 && 2 <= n <= 3 && pads != [] && pads[0] == PAD
    requires forall i :: 0 <= i < 4 ==> s[i] < 64
    ensures Decode(Letters(s)[..n] + pads)
         == Triple(s[0], s[1], if n == 3 then s[2] else NOT_FOUND, NOT_FOUND)[..n - 1]
  {
    hide Triple, Find, CharOf;
    assert Letters(s)[..n] == Letters(s[..n]);
    UsableLetters(s[..n], pads);
    assert Usable(pads) == 0;
    FindCharOf(s[0]);
    FindCharOf(s[1]);
    FindCharOf(s[2]);
    assert (Letters(s)[..n] + pads)[..n] == Letters(s)[..n];
  }

  /** Decoding an encoding gives the bytes back, for every byte string. */
  lemma {:induction false} Base64RoundTrip(b: seq<Byte>)
    ensures Decode(Encode(b)) == b
  {
    hide Triple, Sextets, Letters, Decode;
    if |b| == 0 {
      DecodeNothing();
    } else if |b| == 1 {
      DecodeTail(Sextets(At(b, 0), 0, 0), 2, [PAD, PAD]);
      TripleOfSextets(At(b, 0), 0, 0, NOT_FOUND, NOT_FOUND);
    } else if |b| == 2 {
      DecodeTail(Sextets(At(b, 0), At(b, 1), 0), 3, [PAD]);
      TripleOfSextets(At(b, 0), At(b, 1), 0, NOT_FOUND, NOT_FOUND);
    } else {
      DecodeGroup(At(b, 0), At(b, 1), At(b, 2), Encode(b[3..]));
      Base64RoundTrip(b[3..]);
      assert b == [At(b, 0), At(b, 1), At(b, 2)] + b[3..];
    }
  }

  lemma DecodeNothing()
    ensures Decode([]) == []
  {
  }

  // ---- the code, character by character ----------------------------------------------------------

  const CAPITALS := "ABCDEFGHIJKLMNOPQRSTUVWXYZ"
  const SMALL := "abcdefghijklmnopqrstuvwxyz"
  const FIGURES := "0123456789"

  /** Table 1 of RFC 4648. */
  const ALPHABET := CAPITALS + SMALL + FIGURES + "+/"

  lemma CapitalAt(v: nat)
    requires v < 26
    ensures |CAPITALS| == 26 && CAPITALS[v] as int == 65 + v
  {
  }

  lemma SmallAt(v: nat)
    requires v < 26
    ensures |SMALL| == 26 && SMALL[v] as int == 97 + v
  {
  }

  lemma FigureAt(v: nat)
    requires v < 10
    ensures |FIGURES| == 10 && FIGURES[v] as int == 48 + v
  {
  }

  /** The letters are those of the table. */
  lemma LetterOf(v: nat)
    requires v < 64
    ensures |ALPHABET| == 64 && CharOf(v) == ALPHABET[v] as int
  {
    hide CAPITALS, SMALL, FIGURES;
    CapitalAt(if v < 26 then v else 0);
    SmallAt(if 26 <= v < 52 then v - 26 else 0);
    FigureAt(if 52 <= v < 62 then v - 52 else 0);
  }

  /** A character is usable when it is in the table, and its value is its place there. */
  lemma ValueOf(c: Byte)
    ensures IsBase64(c) <==> exists v: nat :: v < 64 && |ALPHABET| == 64 && c == ALPHABET[v] as int
    ensures forall v: nat :: v < 64 && |ALPHABET| == 64 && c == ALPHABET[v] as int ==> Find(c) == v
    ensures !IsBase64(c) ==> Find(c) == 255
  {
    if IsBase64(c) {
      LetterOf(Find(c));
      assert CharOf(Find(c)) == c;
    }
    forall v: nat | v < 64 && |ALPHABET| == 64 && c == ALPHABET[v] as int ensures IsBase64(c) && Find(c) == v {
      LetterOf(v);
      FindCharOf(v);
    }
  }

  /** Byte number i of a string, and zeros behind it. */
  function ByteOrZero(b: seq<Byte>, i: nat): nat {
    if i < |b| then b[i] else 0
  }

  /** The 24-bit number of group k. */
  function Group(b: seq<Byte>, k: nat): nat {
    ByteOrZero(b, 3 * k) * 0x1_0000 + ByteOrZero(b, 3 * k + 1) * 0x100 + ByteOrZero(b, 3 * k + 2)
  }

  function Power64(j: nat): (p: nat)
    ensures p > 0
  {
    if j == 0 then 1 else 64 * Power64(j - 1)
  }

  /** Character j of group k as section 4 of RFC 4648 has it: the letter of a base-64 digit of the group's number, the
      first for its highest digit, or '=' where no byte of the group reaches. */
  function CharacterOf(b: seq<Byte>, k: nat, j: nat): int
    requires j < 4 && |ALPHABET| == 64
  {
    if 3 * k + j > |b| then '=' as int else ALPHABET[Group(b, k) / Power64(3 - j) % 64] as int
  }

  lemma Digits64(a: nat, b: nat, c: nat, j: nat)
    requires a < 256 && b < 256 && c < 256 && j < 4
    ensures (a * 0x1_0000 + b * 0x100 + c) / Power64(3 - j) % 64 == Sextets(a, b, c)[j]
  {
    SextetsAreDigits(a, b, c);
    var s := Sextets(a, b, c);
    hide Sextets;
    assert Power64(1) == 64 && Power64(2) == 4096 && Power64(3) == 262144;
    FourDigits(s[0], s[1], s[2], s[3]);
  }

  lemma FourDigits(p: nat, q: nat, r: nat, s: nat)
    requires p < 64 && q < 64 && r < 64 && s < 64
    ensures var n := ((p * 64 + q) * 64 + r) * 64 + s;
            n / 1 % 64 == s && n / 64 % 64 == r && n / 4096 % 64 == q && n / 262144 % 64 == p
  {
  }

  lemma GroupOfTail(b: seq<Byte>, k: nat)
    requires |b| >= 3 && k > 0
    ensures Group(b, k) == Group(b[3..], k - 1)
  {
  }

  lemma FirstGroup(b: seq<Byte>, j: nat)
    requires b != [] && j < 4
    ensures |Encode(b)| >= 4 && |ALPHABET| == 64 && Encode(b)[j] == CharacterOf(b, 0, j)
  {
    hide Sextets, Letters;
    var s := Sextets(ByteOrZero(b, 0), ByteOrZero(b, 1), ByteOrZero(b, 2));
    Digits64(ByteOrZero(b, 0), ByteOrZero(b, 1), ByteOrZero(b, 2), j);
    LetterOf(s[j]);
    LetterAt(s, j);
  }

  lemma LetterAt(s: seq<nat>, j: nat)
    requires j < |s| && forall i :: 0 <= i < |s| ==> s[i] < 64
    ensures Letters(s)[j] == CharOf(s[j])
  {
  }

  lemma EncodeTailGroups(b: seq<Byte>, i: nat)
    requires |b| >= 3 && i >= 4
    ensures |Encode(b)| == 4 + |Encode(b[3..])|
    ensures i < |Encode(b)| ==> Encode(b)[i] == Encode(b[3..])[i - 4]
  {
    hide Sextets, Letters;
  }

  /** Every character of an encoding. */
  lemma {:induction false} EncodedAt(b: seq<Byte>, k: nat, j: nat)
    requires j < 4 && 3 * k < |b|
    ensures |ALPHABET| == 64 && 4 * k + j < |Encode(b)| && Encode(b)[4 * k + j] == CharacterOf(b, k, j)
  {
    hide Encode, Group;
    if k == 0 {
      FirstGroup(b, j);
    } else {
      EncodedAt(b[3..], k - 1, j);
      EncodeTailGroups(b, 4 * k + j);
      GroupOfTail(b, k);
    }
  }

  // ---- any string decoded ------------------------------------------------------------------------

  /** The value of a character of the table by its place there, and zero beyond the string. */
  function ValueAt(s: seq<Byte>, i: nat): nat {
    if i < |s| && IsBase64(s[i]) then Find(s[i]) else 0
  }

  /** The number that four characters spell, missing ones as zero. */
  function Quartet(s: seq<Byte>, k: nat): nat {
    ((ValueAt(s, 4 * k) * 64 + ValueAt(s, 4 * k + 1)) * 64 + ValueAt(s, 4 * k + 2)) * 64 + ValueAt(s, 4 * k + 3)
  }

  lemma TripleIsNumber(p: nat, q: nat, r: nat, s: nat)
    requires p < 64 && q < 64 && r < 64 && s < 64
    ensures var n := ((p * 64 + q) * 64 + r) * 64 + s;
            Triple(p, q, r, s) == [n / 0x1_0000 % 256, n / 0x100 % 256, n % 256]
  {
    hide First, Second, Third;
    BytesOfSextets(p, q, r, s);
    ThreeBytes(First(p, q), Second(q, r), Third(r, s));
  }

  lemma ThreeBytes(x: nat, y: nat, z: nat)
    requires x < 256 && y < 256 && z < 256
    ensures var n := (x * 256 + y) * 256 + z;
            n / 0x1_0000 % 256 == x && n / 0x100 % 256 == y && n % 256 == z
  {
  }

  lemma BytesOfSextets(p: nat, q: nat, r: nat, s: nat)
    requires p < 64 && q < 64 && r < 64 && s < 64
    ensures (First(p, q) as int * 256 + Second(q, r) as int) * 256 + Third(r, s) as int
         == ((p * 64 + q) * 64 + r) * 64 + s
  {
    FirstUncut(p, q);
    SecondUncut(q, r);
    ThirdUncut(r, s);
    hide First, Second, Third;
  }

  lemma FirstUncut(p: nat, q: nat)
    requires p < 64 && q < 64
    ensures First(p, q) == p * 4 + q / 16
  {
  }

  lemma SecondUncut(q: nat, r: nat)
    requires q < 64 && r < 64
    ensures Second(q, r) == q % 16 * 16 + r / 4
  {
  }

  lemma ThirdUncut(r: nat, s: nat)
    requires r < 64 && s < 64
    ensures Third(r, s) == r % 4 * 64 + s
  {
  }

  /** The usable part of a string: characters of the table, up to the first '=' or other character. */
  predicate IsUsablePart(s: seq<Byte>, u: seq<Byte>) {
    && u <= s && (forall i :: 0 <= i < |u| ==> IsBase64(u[i]) && u[i] != '=' as int)
    && (|u| < |s| ==> s[|u|] == '=' as int || !IsBase64(s[|u|]))
  }

  lemma {:induction false} UsablePart(s: seq<Byte>, u: seq<Byte>)
    requires IsUsablePart(s, u)
    ensures Usable(s) == |u|
  {
    if u != [] {
      assert s[0] == u[0];
      assert forall i :: 0 <= i < |u[1..]| ==> u[1..][i] == u[i + 1];
      UsablePart(s[1..], u[1..]);
    }
  }

  /** Byte i of what groups of characters spell. */
  function SpelledByte(u: seq<Byte>, i: nat): nat {
    Quartet(u, i / 3) / (if i % 3 == 0 then 0x1_0000 else if i % 3 == 1 then 0x100 else 1) % 256
  }

  lemma SpelledLater(u: seq<Byte>, i: nat)
    requires |u| >= 4 && i >= 3
    ensures SpelledByte(u, i) == SpelledByte(u[4..], i - 3)
  {
    assert forall m: nat :: ValueAt(u, m + 4) == ValueAt(u[4..], m);
    assert i / 3 == (i - 3) / 3 + 1 && i % 3 == (i - 3) % 3;
  }

  /** The first group, which may be short. */
  lemma SpelledFirst(u: seq<Byte>, i: nat)
    requires |u| > 0 && i < 3 && forall m :: 0 <= m < |u| ==> IsBase64(u[m])
    ensures SpelledByte(u, i) == Triple(ValueAt(u, 0), ValueAt(u, 1), ValueAt(u, 2), ValueAt(u, 3))[i]
  {
    hide Triple, Find;
    SmallValues(u);
    TripleIsNumber(ValueAt(u, 0), ValueAt(u, 1), ValueAt(u, 2), ValueAt(u, 3));
    assert i / 3 == 0;
  }

  lemma SmallValues(u: seq<Byte>)
    ensures forall m :: ValueAt(u, m) < 64
  {
  }

  lemma ShortLetters(u: seq<Byte>)
    requires 0 < |u| < 4 && forall m :: 0 <= m < |u| ==> IsBase64(u[m])
    ensures DecodeLetters(u, 0) == Triple(ValueAt(u, 0), ValueAt(u, 1), ValueAt(u, 2), ValueAt(u, 3))[..|u| - 1]
  {
    hide Triple, Find;
  }

  lemma FirstLetters(u: seq<Byte>)
    requires |u| >= 4 && forall m :: 0 <= m < |u| ==> IsBase64(u[m])
    ensures DecodeLetters(u, 0)
         == Triple(ValueAt(u, 0), ValueAt(u, 1), ValueAt(u, 2), ValueAt(u, 3)) + DecodeLetters(u[4..], 0)
  {
    hide Triple, Find;
  }

  lemma {:induction false} DecodedLetters(u: seq<Byte>, i: nat)
    requires forall m :: 0 <= m < |u| ==> IsBase64(u[m])
    ensures |DecodeLetters(u, 0)| == |u| * 3 / 4
    ensures i < |u| * 3 / 4 ==> DecodeLetters(u, 0)[i] == SpelledByte(u, i)
  {
    hide Triple, IsBase64, ValueAt, SpelledByte;
    if |u| >= 4 {
      FirstLetters(u);
      assert forall m :: 0 <= m < |u[4..]| ==> u[4..][m] == u[m + 4];
      if i >= 3 {
        SpelledLater(u, i);
        DecodedLetters(u[4..], i - 3);
      } else {
        SpelledFirst(u, i);
        DecodedLetters(u[4..], 0);
      }
    } else if |u| > 0 {
      ShortLetters(u);
      SpelledFirst(u, if i < 3 then i else 0);
    }
  }

  /** What is decoded of any string: six bits for every character of its usable part, whole bytes only, and each byte
      is a base-256 digit of the number that its four characters spell. */
  lemma DecodedAt(s: seq<Byte>, u: seq<Byte>, i: nat)
    requires IsUsablePart(s, u)
    ensures |Decode(s)| == |u| * 6 / 8
    ensures i < |Decode(s)| ==> Decode(s)[i] == SpelledByte(u, i)
  {
    hide DecodeLetters, SpelledByte;
    UsablePart(s, u);
    assert s[..Usable(s)] == u;
    FillerNeverShows(u, NOT_FOUND, 0);
    DecodedLetters(u, i);
  }
}
