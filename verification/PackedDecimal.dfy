/** MySQL packed decimals: the decoder and the printer (binlog/src/decimal.cpp). */
module PackedDecimal {
  import opened Arith
  import opened ByteStore

  const DIG_PER_DEC1 := 9
  const DIG_MASK := 100_000_000
  const DIG_BASE := 1_000_000_000
  const DIG_MAX := 999_999_999
  const DIG2BYTES: seq<nat> := [0, 1, 1, 2, 2, 3, 3, 4, 4, 4]

  const E_DEC_OK := 0
  const E_DEC_TRUNCATED := 1
  const E_DEC_OVERFLOW := 2
  const E_DEC_BAD_NUM := 8

  const DECIMAL_BUFF_LENGTH := 9
  const DECIMAL_MAX_STR_LENGTH := 83

  /** The number of base-10^9 words that hold x decimal digits. */
  function RoundUp(x: nat): nat {
    (x + DIG_PER_DEC1 - 1) / DIG_PER_DEC1
  }

  // ---- the decoded number ----------------------------------------------------------

  /** The contents of a decimal_t: `words` holds the integer words, then the fraction words. */
  datatype Dec = Dec(sign: bool, intg: nat, frac: nat, words: seq<int>)

  const ZERO := Dec(false, 1, 0, [0])

  class Decimal {
    var intg: int
    var frac: int
    var sign: bool
    const buf: array<int>

    constructor (len: nat)
      requires len > 0
      ensures fresh(this) && fresh(buf) && buf.Length == len
      ensures Valid()
    {
      intg, frac, sign := 1, 0, false;
      buf := new int[len](_ => 0);
    }

    predicate Valid()
      reads this
    {
      intg >= 0 && frac >= 0 && RoundUp(intg) + RoundUp(frac) <= buf.Length
    }

    function Value(): Dec
      requires Valid()
      reads this, buf
    {
      Dec(sign, intg, frac, buf[..RoundUp(intg) + RoundUp(frac)])
    }

    /** The macro decimal_make_zero. */
    method MakeZero()
      requires buf.Length > 0
      modifies this, buf
      ensures Valid() && Value() == ZERO
    {
      buf[0] := 0;
      intg, frac, sign := 1, 0, false;
      assert buf[..1] == [0];
    }
  }

  // ---- layout of an encoding -------------------------------------------------------

  function DecimalBinSize(precision: nat, scale: nat): (size: nat)
    requires scale <= precision
    ensures precision > 0 ==> size > 0
  {
    var intg := precision - scale;
    var intg0, frac0 := intg / DIG_PER_DEC1, scale / DIG_PER_DEC1;
    var intg0x, frac0x := intg - intg0 * DIG_PER_DEC1, scale - frac0 * DIG_PER_DEC1;
    intg0 * 4 + DIG2BYTES[intg0x] + frac0 * 4 + DIG2BYTES[frac0x]
  }

  /** The part of an encoding that is decoded: it starts after `skip` bytes and holds an optional
      short leading word, full integer words, full fraction words and an optional short last word. */
  datatype Layout = Layout(skip: nat, intg0x: nat, intg0: nat, frac0: nat, frac0x: nat) {
    predicate Valid() {
      intg0x < 9 && frac0x < 9
    }

    function LeadBytes(): nat
      requires Valid()
    {
      DIG2BYTES[intg0x]
    }

    function IntWordCount(): nat {
      intg0 + if intg0x > 0 then 1 else 0
    }

    function FracWordCount(): nat {
      frac0 + if frac0x > 0 then 1 else 0
    }

    function IntDigits(): nat {
      intg0 * 9 + intg0x
    }

    function FracDigits(): nat {
      frac0 * 9 + frac0x
    }

    /** One past the last byte decoded. */
    function End(): nat
      requires Valid()
    {
      skip + LeadBytes() + 4 * intg0 + 4 * frac0 + DIG2BYTES[frac0x]
    }
  }

  /** The layout that the metadata prescribes. */
  function FullLayout(precision: nat, scale: nat): (l: Layout)
    requires scale <= precision
    ensures l.Valid() && l.End() == DecimalBinSize(precision, scale)
  {
    var intg := precision - scale;
    Layout(0, intg % 9, intg / 9, scale / 9, scale % 9)
  }

  /** The layout after FIX_INTG_FRAC_ERROR has cut it down to `len` words, and the error reported. */
  function FitLayout(l: Layout, len: nat): (r: (Layout, int))
    requires l.Valid()
    ensures r.0.Valid() && r.0.End() <= l.End()
    ensures r.0.IntWordCount() + r.0.FracWordCount() <= len
  {
    if l.IntWordCount() + l.FracWordCount() <= len then (l, E_DEC_OK)
    else if l.IntWordCount() > len then
      (Layout(l.skip + l.LeadBytes() + 4 * (l.intg0 - len), 0, len, 0, 0), E_DEC_OVERFLOW)
    else
      (l.(frac0 := len - l.IntWordCount(), frac0x := 0), E_DEC_TRUNCATED)
  }

  // ---- the words of an encoding ----------------------------------------------------

  /** `x ^ mask`, where the mask is 0 or -1. */
  function Unmask(negative: bool, x: int): int {
    if negative then -x - 1 else x
  }

  /** The local copy of the encoding, with its sign bit flipped. */
  function FlipSign(from: seq<Byte>): (r: seq<Byte>)
    requires from != []
    ensures |r| == |from|
  {
    from[0 := (At(from, 0) + 128) % 256]
  }

  predicate IsNegative(from: seq<Byte>)
    requires from != []
  {
    from[0] < 128
  }

  /** The n-byte word at `off`, unmasked. */
  function Word(raw: seq<Byte>, negative: bool, off: nat, n: nat): int
    requires 1 <= n <= 4 && off + n <= |raw|
  {
    Unmask(negative, Sint(n, raw[off..off + n]))
  }

  /** The scaled last fraction word: int32 arithmetic, which wraps. */
  function ScaleTail(x: int, frac0x: nat): int
    requires frac0x < 9
  {
    ToSigned(x * Pow10(9 - frac0x), 0x1_0000_0000)
  }

  function IntWord(raw: seq<Byte>, negative: bool, l: Layout, k: nat): int
    requires l.Valid() && l.End() <= |raw| && k < l.IntWordCount()
  {
    if l.intg0x == 0 then Word(raw, negative, l.skip + 4 * k, 4)
    else if k == 0 then Word(raw, negative, l.skip, l.LeadBytes())
    else Word(raw, negative, l.skip + l.LeadBytes() + 4 * (k - 1), 4)
  }

  function FracWord(raw: seq<Byte>, negative: bool, l: Layout, k: nat): int
    requires l.Valid() && l.End() <= |raw| && k < l.FracWordCount()
  {
    var off := l.skip + l.LeadBytes() + 4 * l.intg0 + 4 * k;
    if k < l.frac0 then Word(raw, negative, off, 4)
    else ScaleTail(Word(raw, negative, off, DIG2BYTES[l.frac0x]), l.frac0x)
  }

  function IntWords(raw: seq<Byte>, negative: bool, l: Layout): (r: seq<int>)
    requires l.Valid() && l.End() <= |raw|
  {
    seq(l.IntWordCount(), k requires 0 <= k < l.IntWordCount() => IntWord(raw, negative, l, k))
  }

  function FracWords(raw: seq<Byte>, negative: bool, l: Layout): (r: seq<int>)
    requires l.Valid() && l.End() <= |raw|
  {
    seq(l.FracWordCount(), k requires 0 <= k < l.FracWordCount() => FracWord(raw, negative, l, k))
  }

  /** What the decoder checks: the leading word against 10^(digits + 1), the others against 10^9. */
  predicate Accepts(lead: bool, intg0x: nat, x: int) {
    0 <= x && (if lead && intg0x > 0 then x < Pow10(intg0x + 1) else x <= DIG_MAX)
  }

  predicate IntWordsAccepted(ints: seq<int>, l: Layout) {
    forall i :: 0 <= i < |ints| ==> Accepts(i == 0, l.intg0x, ints[i])
  }

  predicate FracWordsAccepted(fracs: seq<int>) {
    forall i :: 0 <= i < |fracs| ==> Accepts(false, 0, fracs[i])
  }

  function StripZeros(words: seq<int>): (r: seq<int>)
    ensures |r| <= |words|
  {
    if words != [] && words[0] == 0 then StripZeros(words[1..]) else words
  }

  lemma {:induction false} StripZerosAppend(words: seq<int>, x: int)
    ensures StripZeros(words + [x]) ==
            if StripZeros(words) == [] && x == 0 then [] else StripZeros(words) + [x]
  {
    if words != [] && words[0] == 0 {
      StripZerosAppend(words[1..], x);
      assert (words + [x])[1..] == words[1..] + [x];
    }
  }

  /** Digits left once the leading zero words are gone; only the first word can be short. */
  function DigitsLeft(kept: nat, count: nat, digits: nat): nat {
    if kept == count then digits else 9 * kept
  }

  /** The decoder as a function: the error code and the decimal it leaves behind. */
  function Decoded(from: seq<Byte>, precision: nat, scale: nat, len: nat): (r: (int, Dec))
    requires scale <= precision && precision > 0 && |from| >= DecimalBinSize(precision, scale)
  {
    var raw, negative := FlipSign(from[..DecimalBinSize(precision, scale)]), IsNegative(from);
    var (l, error) := FitLayout(FullLayout(precision, scale), len);
    var ints, fracs := IntWords(raw, negative, l), FracWords(raw, negative, l);
    if IntWordsAccepted(ints, l) && FracWordsAccepted(fracs)
    then (error, Assembled(negative, l, StripZeros(ints), fracs))
    else (E_DEC_BAD_NUM, ZERO)
  }

  function Assembled(negative: bool, l: Layout, kept: seq<int>, fracs: seq<int>): Dec {
    var intg := DigitsLeft(|kept|, l.IntWordCount(), l.IntDigits());
    if intg == 0 && l.FracDigits() == 0 then ZERO
    else Dec(negative, intg, l.FracDigits(), kept + fracs)
  }

  // ---- bin2decimal -----------------------------------------------------------------

  /** The layout variables as FIX_INTG_FRAC_ERROR and the branch after it leave them. */
  method FixLayout(precision: nat, scale: nat, len: nat)
    returns (l: Layout, error: int)
    requires scale <= precision
    ensures l.Valid() && (l, error) == FitLayout(FullLayout(precision, scale), len)
  {
    var intg := precision - scale;
    var intg0, frac0 := intg / DIG_PER_DEC1, scale / DIG_PER_DEC1;
    var intg0x, frac0x := intg - intg0 * DIG_PER_DEC1, scale - frac0 * DIG_PER_DEC1;
    var intg1 := intg0 + if intg0x > 0 then 1 else 0;
    var frac1 := frac0 + if frac0x > 0 then 1 else 0;
    var skip := 0;
    error := E_DEC_OK;
    if intg1 + frac1 > len {
      if intg1 > len {
        intg1, frac1, error := len, 0, E_DEC_OVERFLOW;
      } else {
        frac1, error := len - intg1, E_DEC_TRUNCATED;
      }
    }
    if error != E_DEC_OK {
      if intg1 < intg0 + (if intg0x > 0 then 1 else 0) {
        skip := DIG2BYTES[intg0x] + 4 * (intg0 - intg1);
        frac0, frac0x, intg0x := 0, 0, 0;
        intg0 := intg1;
      } else {
        frac0x := 0;
        frac0 := frac1;
      }
    }
    l := Layout(skip, intg0x, intg0, frac0, frac0x);
  }

  /** Stores an integer word at the cursor; the cursor stays put on a leading zero word. */
  method StoreInteger(to: Decimal, buf: nat, x: int, digits: nat, ghost before: seq<int>) returns (next: nat)
    requires buf < to.buf.Length && to.buf[..buf] == StripZeros(before)
    modifies to`intg, to.buf
    ensures to.buf[..] == old(to.buf[..])[buf := x]
    ensures next <= to.buf.Length && to.buf[..next] == StripZeros(before + [x])
    ensures next == (if buf > 0 || x != 0 then buf + 1 else buf)
    ensures to.intg == (if next > buf then old(to.intg) else old(to.intg) - digits)
  {
    to.buf[buf] := x;
    StripZerosAppend(before, x);
    if buf > 0 || to.buf[buf] != 0 {
      next := buf + 1;
      assert to.buf[..next] == to.buf[..buf] + [x];
    } else {
      next := buf;
      to.intg := to.intg - digits;
    }
  }

  /** What is stored once `done` of the integer words have been loaded: the leading zero words are
      gone and their digits no longer counted. */
  ghost predicate Loaded(to: Decimal, ints: seq<int>, l: Layout, done: nat, buf: nat)
    reads to, to.buf
  {
    && done <= |ints|
    && buf <= done
    && buf <= to.buf.Length
    && to.buf[..buf] == StripZeros(ints[..done])
    && to.intg == if buf == done then l.IntDigits() else 9 * (buf + |ints| - done)
  }

  /** The short leading word, if there is one. */
  method LoadLead(raw: seq<Byte>, negative: bool, l: Layout, to: Decimal)
    returns (ok: bool, buf: nat)
    requires l.Valid() && l.End() <= |raw| && l.IntWordCount() <= to.buf.Length && l.intg0x > 0
    requires to.intg == l.IntDigits()
    modifies to`intg, to.buf
    ensures var ints := IntWords(raw, negative, l);
            && ok == Accepts(true, l.intg0x, ints[0])
            && (ok ==> Loaded(to, ints, l, 1, buf))
  {
    ghost var ints := IntWords(raw, negative, l);
    var x := Word(raw, negative, l.skip, l.LeadBytes());
    assert x == ints[0];
    if x < 0 || x >= Pow10(l.intg0x + 1) {
      return false, 0;
    }
    buf := StoreInteger(to, 0, x, l.intg0x, []);
    assert ints[..1] == [] + [x];
    ok := true;
  }

  /** The integer words: the short leading one, then the full ones. A leading zero word is
      overwritten by its successor. */
  method LoadIntegers(raw: seq<Byte>, negative: bool, l: Layout, to: Decimal)
    returns (ok: bool, buf: nat)
    requires l.Valid() && l.End() <= |raw| && l.IntWordCount() <= to.buf.Length
    modifies to`intg, to.buf
    ensures var ints := IntWords(raw, negative, l);
            && ok == IntWordsAccepted(ints, l)
            && (ok ==> Loaded(to, ints, l, |ints|, buf))
  {
    hide Word, Pow10, StripZeros;
    ghost var ints := IntWords(raw, negative, l);
    var pos, done := l.skip, 0;
    ok, buf := true, 0;
    to.intg := l.intg0 * DIG_PER_DEC1 + l.intg0x;
    if l.intg0x > 0 {
      ok, buf := LoadLead(raw, negative, l, to);
      if !ok {
        return;
      }
      pos, done := pos + l.LeadBytes(), 1;
    }
    ghost var short := done;
    var stop := pos + 4 * l.intg0;
    while pos < stop
      invariant pos == l.skip + l.LeadBytes() + 4 * (done - short)
      invariant short <= done <= |ints|
      invariant forall i :: 0 <= i < done ==> Accepts(i == 0, l.intg0x, ints[i])
      invariant Loaded(to, ints, l, done, buf)
    {
      var x := Word(raw, negative, pos, 4);
      assert x == IntWord(raw, negative, l, done) == ints[done];
      if x < 0 || x > DIG_MAX {
        return false, buf;
      }
      TakeOneMore(ints, done);
      buf := StoreInteger(to, buf, x, DIG_PER_DEC1, ints[..done]);
      pos := pos + 4;
      done := done + 1;
    }
  }

  /** The fraction words: the full ones, then the scaled short one, stored from `buf` on. */
  method LoadFractions(raw: seq<Byte>, negative: bool, l: Layout, to: Decimal, start: nat)
    returns (ok: bool)
    requires l.Valid() && l.End() <= |raw| && start + l.FracWordCount() <= to.buf.Length
    modifies to.buf
    ensures to.buf[..start] == old(to.buf[..start])
    ensures var fracs := FracWords(raw, negative, l);
            && ok == FracWordsAccepted(fracs)
            && (ok ==> to.buf[start..start + |fracs|] == fracs)
  {
    hide Word, ScaleTail;
    ghost var fracs := FracWords(raw, negative, l);
    var pos, done, buf := l.skip + l.LeadBytes() + 4 * l.intg0, 0, start;
    var stop := pos + 4 * l.frac0;
    while pos < stop
      invariant pos == l.skip + l.LeadBytes() + 4 * l.intg0 + 4 * done
      invariant 0 <= done <= l.frac0 && buf == start + done
      invariant forall i :: 0 <= i < done ==> Accepts(false, 0, fracs[i])
      invariant to.buf[..start] == old(to.buf[..start])
      invariant to.buf[start..buf] == fracs[..done]
    {
      var x := Word(raw, negative, pos, 4);
      assert x == fracs[done];
      to.buf[buf] := x;
      if x < 0 || x > DIG_MAX {
        return false;
      }
      TakeOneMore(fracs, done);
      buf := buf + 1;
      pos := pos + 4;
      done := done + 1;
    }
    if l.frac0x > 0 {
      var x := Word(raw, negative, pos, DIG2BYTES[l.frac0x]);
      to.buf[buf] := ScaleTail(x, l.frac0x);
      assert to.buf[buf] == fracs[done];
      if to.buf[buf] < 0 || to.buf[buf] > DIG_MAX {
        return false;
      }
      assert fracs == fracs[..done] + [to.buf[buf]];
    } else {
      assert fracs[..done] == fracs;
    }
    ok := true;
  }

  lemma WordCounts(l: Layout, kept: nat)
    requires l.Valid() && kept <= l.IntWordCount()
    ensures RoundUp(DigitsLeft(kept, l.IntWordCount(), l.IntDigits())) == kept
    ensures RoundUp(l.FracDigits()) == l.FracWordCount()
  {
  }

  /** The last step: a number without digits is made a proper zero. */
  method NormalizeZero(to: Decimal, ghost l: Layout, ghost kept: seq<int>, ghost fracs: seq<int>)
    requires l.Valid() && to.buf.Length > 0
    requires |kept| <= l.IntWordCount() && |fracs| == l.FracWordCount() && |kept| + |fracs| <= to.buf.Length
    requires to.intg == DigitsLeft(|kept|, l.IntWordCount(), l.IntDigits()) && to.frac == l.FracDigits()
    requires to.buf[..|kept|] == kept && to.buf[|kept|..|kept| + |fracs|] == fracs
    modifies to, to.buf
    ensures to.Valid() && to.Value() == Assembled(old(to.sign), l, kept, fracs)
  {
    hide RoundUp;
    WordCounts(l, |kept|);
    assert to.buf[..|kept| + |fracs|] == kept + fracs;
    if to.intg == 0 && to.frac == 0 {
      to.MakeZero();
    }
  }

  method Bin2Decimal(from: seq<Byte>, to: Decimal, precision: nat, scale: nat)
    returns (error: int)
    requires scale <= precision && precision > 0
    requires |from| >= DecimalBinSize(precision, scale)
    requires to.buf.Length > 0
    modifies to, to.buf
    ensures to.Valid()
    ensures (error, to.Value()) == Decoded(from, precision, scale, to.buf.Length)
  {
    hide IntWord, FracWord, DecimalBinSize, FitLayout, StripZeros, RoundUp;
    var negative := IsNegative(from);
    var raw := FlipSign(from[..DecimalBinSize(precision, scale)]);
    var l, ok, buf;
    l, error := FixLayout(precision, scale, to.buf.Length);
    to.sign := negative;
    to.frac := l.frac0 * DIG_PER_DEC1 + l.frac0x;
    ok, buf := LoadIntegers(raw, negative, l, to);
    if ok {
      ok := LoadFractions(raw, negative, l, to, buf);
    }
    if !ok {
      to.MakeZero();
      return E_DEC_BAD_NUM;
    }
    ghost var ints := IntWords(raw, negative, l);
    assert ints[..|ints|] == ints;
    NormalizeZero(to, l, StripZeros(ints), FracWords(raw, negative, l));
  }
}
