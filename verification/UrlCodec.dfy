/** URL encoding (syncshare/urlencode.cpp): percent-encoding by section 2.1 of RFC 3986, `+` for a space. */
module UrlCodec {
  import opened Arith

  const SPACE: Byte := 32
  const PLUS: Byte := 43
  const PERCENT: Byte := 37

  /** Bytes that stand for themselves: digits, letters, '-', '.' and '_'. */
  predicate Plain(c: Byte) {
    !((c < 48 && c != 45 && c != 46) || (57 < c < 65) || (90 < c < 97 && c != 95) || c > 122)
  }

  /** hexchars[v]. */
  function HexChar(v: nat): Byte
    requires v < 16
  {
    if v < 10 then 48 + v else 65 + (v - 10)
  }

  predicate IsHex(c: Byte) {
    48 <= c <= 57 || 65 <= c <= 70 || 97 <= c <= 102
  }

  /** The value of a hex digit as php_htoi takes it, upper case made lower case first. */
  function HexValue(c: Byte): (v: nat)
    requires IsHex(c)
    ensures v < 16
  {
    if 48 <= c <= 57 then c - 48 else if c <= 70 then c - 65 + 10 else c - 97 + 10
  }

  lemma HexReadsBack(v: nat)
    requires v < 16
    ensures IsHex(HexChar(v)) && HexValue(HexChar(v)) == v
  {
  }

  function EncodeByte(c: Byte): (r: seq<Byte>)
    ensures 1 <= |r| <= 3
  {
    if c == SPACE then [PLUS]
    else if Plain(c) then [c]
    else [PERCENT, HexChar(c as int / 16), HexChar(c as int % 16)]
  }

  function Encode(s: seq<Byte>): (r: seq<Byte>)
    ensures |s| <= |r| <= 3 * |s|
  {
    if s == [] then [] else Encode(s[..|s| - 1]) + EncodeByte(s[|s| - 1])
  }

  function Decode(s: seq<Byte>): (r: seq<Byte>)
    ensures |r| <= |s|
  {
    if s == [] then []
    else if s[0] == PLUS then [SPACE] + Decode(s[1..])
    else if s[0] == PERCENT && |s| >= 3 && IsHex(s[1]) && IsHex(s[2]) then
      [HexValue(s[1]) * 16 + HexValue(s[2])] + Decode(s[3..])
    else [s[0]] + Decode(s[1..])
  }

  /** The cases of the loop of url_encode. */
  method EncodeOne(c: Byte, start: array<Byte>, to0: nat) returns (to: nat)
    requires to0 + 3 <= start.Length
    modifies start
    ensures to == to0 + |EncodeByte(c)| && start[..to] == old(start[..to0]) + EncodeByte(c)
  {
    to := to0;
    if c == SPACE {
      start[to] := PLUS;
      to := to + 1;
    } else if (c < 48 && c != 45 && c != 46) || (c < 65 && c > 57) || (c > 90 && c < 97 && c != 95) || c > 122 {
      start[to] := PERCENT;
      start[to + 1] := HexChar(c as int / 16);
      start[to + 2] := HexChar(c as int % 16);
      to := to + 3;
    } else {
      start[to] := c;
      to := to + 1;
    }
  }

  /** url_encode: a buffer of 3 * len + 1 bytes, the encoding and a NUL. */
  method UrlEncode(s: seq<Byte>) returns (start: array<Byte>, newLength: nat)
    ensures fresh(start) && start.Length == 3 * |s| + 1
    ensures newLength == |Encode(s)| && newLength < start.Length
    ensures start[..newLength] == Encode(s) && start[newLength] == 0
  {
    hide EncodeByte;
    start := new Byte[3 * |s| + 1](_ => 0);
    var from, to: nat := 0, 0;
    while from < |s|
      invariant from <= |s| && to <= 3 * from && start[..to] == Encode(s[..from])
    {
      var c := s[from];
      assert s[..from + 1][..from] == s[..from];
      from := from + 1;
      to := EncodeOne(c, start, to);
    }
    assert s[..from] == s;
    start[to] := 0;
    newLength := to;
  }

  /** url_decode: in place, the write cursor never past the read cursor. */
  method UrlDecode(str: array<Byte>, len0: nat) returns (n: nat)
    requires len0 < str.Length
    modifies str
    ensures n == |Decode(old(str[..len0]))| && n <= len0
    ensures str[..n] == Decode(old(str[..len0])) && str[n] == 0
    ensures str[len0 + 1..] == old(str[len0 + 1..])
  {
    hide Decode, IsHex;
    ghost var input := str[..len0];
    var dest, data, len: nat := 0, 0, len0;
    while len > 0
      invariant dest <= data && data + len == len0
      invariant str[data..len0] == input[data..]
      invariant Decode(input) == str[..dest] + Decode(input[data..])
      invariant str[len0 + 1..] == old(str[len0 + 1..])
      decreases len
    {
      DecodeStep(input, data);
      assert forall k :: data <= k < len0 ==> str[k] == str[data..len0][k - data];
      len := len - 1;
      if str[data] == PLUS {
        str[dest] := SPACE;
      } else if str[data] == PERCENT && len >= 2 && IsHex(str[data + 1]) && IsHex(str[data + 2]) {
        str[dest] := HexValue(str[data + 1]) * 16 + HexValue(str[data + 2]);
        data := data + 2;
        len := len - 2;
      } else {
        str[dest] := str[data];
      }
      data := data + 1;
      dest := dest + 1;
    }
    DecodeNothing();
    str[dest] := 0;
    n := dest;
  }

  lemma DecodeNothing()
    ensures Decode([]) == []
  {
  }

  /** One turn of the loop, on the bytes from position `at` on. */
  lemma DecodeStep(s: seq<Byte>, at: nat)
    requires at < |s|
    ensures s[at] == PLUS ==> Decode(s[at..]) == [SPACE] + Decode(s[at + 1..])
    ensures s[at] == PERCENT && at + 2 < |s| && IsHex(s[at + 1]) && IsHex(s[at + 2]) ==>
              Decode(s[at..]) == [HexValue(s[at + 1]) * 16 + HexValue(s[at + 2])] + Decode(s[at + 3..])
    ensures s[at] != PLUS && !(s[at] == PERCENT && at + 2 < |s| && IsHex(s[at + 1]) && IsHex(s[at + 2])) ==>
              Decode(s[at..]) == [s[at]] + Decode(s[at + 1..])
  {
    hide HexValue, IsHex;
    var t := s[at..];
    assert t[1..] == s[at + 1..] && t[0] == s[at];
    if at + 2 < |s| {
      assert t[3..] == s[at + 3..] && t[1] == s[at + 1] && t[2] == s[at + 2];
    }
  }

  /** The bytes of one encoded byte are decoded as that byte, whatever follows. */
  lemma DecodeByte(c: Byte, rest: seq<Byte>)
    ensures Decode(EncodeByte(c) + rest) == [c] + Decode(rest)
  {
    var s := EncodeByte(c) + rest;
    if c == SPACE || Plain(c) {
      assert s[1..] == rest;
    } else {
      HexReadsBack(c as int / 16);
      HexReadsBack(c as int % 16);
      assert s[3..] == rest;
    }
  }

  lemma {:induction false} DecodeEncoded(s: seq<Byte>, rest: seq<Byte>)
    ensures Decode(Encode(s) + rest) == s + Decode(rest)
  {
    hide *;
    if s == [] {
      EncodeNothing();
      assert Encode(s) + rest == rest;
    } else {
      var front, last := s[..|s| - 1], s[|s| - 1];
      EncodeLast(s);
      DecodeEncoded(front, EncodeByte(last) + rest);
      DecodeByte(last, rest);
      Reassociate(Encode(front), EncodeByte(last), rest);
      Reassociate(front, [last], Decode(rest));
      assert front + [last] == s;
    }
  }

  lemma EncodeNothing()
    ensures Encode([]) == []
  {
  }

  lemma EncodeLast(s: seq<Byte>)
    requires s != []
    ensures Encode(s) == Encode(s[..|s| - 1]) + EncodeByte(s[|s| - 1])
  {
    hide EncodeByte;
  }

  /** Decoding restores every byte string, zero bytes included. */
  lemma UrlRoundTrip(s: seq<Byte>)
    ensures Decode(Encode(s)) == s
  {
    DecodeEncoded(s, []);
    assert Encode(s) + [] == Encode(s);
    DecodeNothing();
  }

  /** Run in place on the buffer that url_encode filled, url_decode leaves the original bytes and a NUL there. */
  method RestoreInPlace(s: seq<Byte>) returns (buffer: array<Byte>, n: nat)
    ensures n == |s| && n < buffer.Length && buffer[..n] == s && buffer[n] == 0
  {
    var newLength;
    buffer, newLength := UrlEncode(s);
    UrlRoundTrip(s);
    n := UrlDecode(buffer, newLength);
  }

  // ---- the code, character by character ----------------------------------------------------------

  const DIGITS := "0123456789ABCDEF"
  const SMALL_DIGITS := "0123456789abcdef"

  /** Letters, digits, '-', '.' and '_'. */
  predicate IsUnreserved(c: char) {
    'A' <= c <= 'Z' || 'a' <= c <= 'z' || '0' <= c <= '9' || c == '-' || c == '.' || c == '_'
  }

  /** A byte as a character. */
  function Ascii(c: Byte): char {
    c as char
  }

  /** A space is '+', an unreserved byte stands for itself, and any other byte is '%' and its two hex digits. */
  lemma EncodedByte(c: Byte)
    ensures EncodeByte(c) == (if Ascii(c) == ' ' then ['+' as Byte]
                              else if IsUnreserved(Ascii(c)) then [c]
                              else ['%' as Byte, DIGITS[c / 16] as Byte, DIGITS[c % 16] as Byte])
  {
    DigitChars(c / 16);
    DigitChars(c % 16);
  }

  lemma DigitChars(v: nat)
    requires v < 16
    ensures DIGITS[v] as int == HexChar(v)
    ensures var d: Byte := SMALL_DIGITS[v] as int; IsHex(d) && HexValue(d) == v
    ensures IsHex(HexChar(v)) && HexValue(HexChar(v)) == v
  {
    assert v in {0, 1, 2, 3, 4, 5, 6, 7, 8, 9, 10, 11, 12, 13, 14, 15};
  }

  predicate IsDigit(c: Byte, v: nat)
    requires v < 16
  {
    c == DIGITS[v] as int || c == SMALL_DIGITS[v] as int
  }

  lemma DigitValue(c: Byte, v: nat)
    requires v < 16 && IsDigit(c, v)
    ensures IsHex(c) && HexValue(c) == v
  {
    DigitChars(v);
  }

  lemma HexIsDigit(c: Byte)
    requires IsHex(c)
    ensures IsDigit(c, HexValue(c))
  {
    DigitChars(HexValue(c));
  }

  lemma DecodeFront(c: Byte, rest: seq<Byte>)
    ensures ([c] + rest)[0] == c && ([c] + rest)[0..] == [c] + rest && ([c] + rest)[1..] == rest
    ensures |rest| >= 2 ==> ([c] + rest)[1] == rest[0] && ([c] + rest)[2] == rest[1] && ([c] + rest)[3..] == rest[2..]
  {
  }

  lemma DecodedEscape(rest: seq<Byte>, u: nat, v: nat)
    requires u < 16 && v < 16 && |rest| >= 2 && IsDigit(rest[0], u) && IsDigit(rest[1], v)
    ensures Decode(['%' as Byte] + rest) == [(16 * u + v) as Byte] + Decode(rest[2..])
  {
    hide *;
    var c: Byte := '%' as int;
    PercentIs();
    DecodeFront(c, rest);
    DecodeStep([c] + rest, 0);
    DigitValue(rest[0], u);
    DigitValue(rest[1], v);
  }

  lemma PercentIs()
    ensures '%' as int == PERCENT && '+' as int == PLUS && ' ' as int == SPACE
  {
  }

  /** Two hex digits of either case. */
  predicate StartsWithDigits(s: seq<Byte>) {
    |s| >= 2 && (exists x: nat :: x < 16 && IsDigit(s[0], x)) && exists y: nat :: y < 16 && IsDigit(s[1], y)
  }

  lemma HexPair(s: seq<Byte>)
    requires |s| >= 2 && IsHex(s[0]) && IsHex(s[1])
    ensures StartsWithDigits(s)
  {
    hide IsDigit, IsHex, HexValue;
    HexIsDigit(s[0]);
    HexIsDigit(s[1]);
  }

  /** What is decoded of any string, piece by piece: '+' is a space, '%' and two hex digits of either case are the byte
      they spell (DecodedEscape), and everything else stands for itself, a '%' without two digits too. */
  lemma DecodedPlain(c: Byte, rest: seq<Byte>)
    requires c == '%' as int ==> !StartsWithDigits(rest)
    ensures Decode([c] + rest) == [if c == '+' as int then ' ' as Byte else c] + Decode(rest)
  {
    hide *;
    PercentIs();
    DecodeFront(c, rest);
    DecodeStep([c] + rest, 0);
    if |rest| >= 2 && IsHex(rest[0]) && IsHex(rest[1]) {
      HexPair(rest);
    }
  }
}
