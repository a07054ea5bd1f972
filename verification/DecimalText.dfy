/** Printing a decimal (decimal2string and its helpers, binlog/src/decimal.cpp). */
module DecimalText {
  import opened Arith
  import opened PackedDecimal

  predicate WordsInRange(words: seq<int>) {
    forall i :: 0 <= i < |words| ==> 0 <= words[i] <= DIG_MAX
  }

  /** How many of the i + 1 digits of a word are leading zeroes. */
  function CountLeadingZeroes(i: nat, val: int): (r: nat)
    ensures r <= i + 1
    ensures val >= 1 ==> r <= i && Pow10(i - r) <= val && (r > 0 ==> val < Pow10(i - r + 1))
  {
    if val >= Pow10(i) then 0
    else if i == 0 then 1
    else 1 + CountLeadingZeroes(i - 1, val)
  }

  function LeadingZeroWords(words: seq<int>): (r: nat)
    ensures r <= |words|
    ensures r < |words| ==> words[r] != 0
    ensures forall i :: 0 <= i < r ==> words[i] == 0
  {
    if words != [] && words[0] == 0 then 1 + LeadingZeroWords(words[1..]) else 0
  }

  /** The zero words to skip, and the integer digits that remain when all leading zeroes are gone. */
  function Significant(words: seq<int>, intg: nat): (r: (nat, nat))
    requires |words| >= RoundUp(intg)
    ensures r.0 <= RoundUp(intg)
  {
    var k := LeadingZeroWords(words[..RoundUp(intg)]);
    var left := DigitsLeft(RoundUp(intg) - k, RoundUp(intg), intg);
    (k, if left > 0 && k < RoundUp(intg) then left - CountLeadingZeroes((left - 1) % 9, words[k]) else 0)
  }

  lemma RoundUpBounds(x: nat)
    ensures x == 0 ==> RoundUp(x) == 0
    ensures x > 0 ==> 9 * (RoundUp(x) - 1) < x <= 9 * RoundUp(x)
    ensures x > 0 ==> CRem(x - 1, DIG_PER_DEC1) + 1 == x - 9 * (RoundUp(x) - 1)
  {
  }

  method RemoveLeadingZeroes(from: Decimal) returns (buf0: nat, intgResult: nat)
    requires from.Valid()
    requires WordsInRange(from.Value().words)
    ensures (buf0, intgResult) == Significant(from.Value().words, from.intg)
  {
    hide RoundUp, CRem, CountLeadingZeroes;
    ghost var words := from.buf[..RoundUp(from.intg)];
    assert from.Value().words[..RoundUp(from.intg)] == words;
    RoundUpBounds(from.intg);
    var intg := from.intg;
    var i := CRem(intg - 1, DIG_PER_DEC1) + 1;
    buf0 := 0;
    while intg > 0 && from.buf[buf0] == 0
      invariant 0 <= buf0 <= RoundUp(from.intg)
      invariant intg == DigitsLeft(RoundUp(from.intg) - buf0, RoundUp(from.intg), from.intg)
      invariant intg > 0 ==> i == if buf0 == 0 then from.intg - 9 * (RoundUp(from.intg) - 1) else 9
      invariant LeadingZeroWords(words) == buf0 + LeadingZeroWords(words[buf0..])
    {
      assert words[buf0..][1..] == words[buf0 + 1..];
      intg := intg - i;
      i := DIG_PER_DEC1;
      buf0 := buf0 + 1;
    }
    if intg > 0 {
      assert words[buf0..][0] == words[buf0];
      intg := intg - CountLeadingZeroes((intg - 1) % DIG_PER_DEC1, from.buf[buf0]);
    } else {
      intg := 0;
    }
    intgResult := intg;
  }

  // ---- the printed text ------------------------------------------------------------

  function DigitChar(d: int): char
    requires 0 <= d <= 9
  {
    '0' + d as char
  }

  /** Digit k of one word, counted from its units. */
  function LowDigit(w: int, k: nat): (d: int)
    requires w >= 0
    ensures 0 <= d <= 9
  {
    (w / Pow10(k)) % 10
  }

  /** Digit k of one nine-digit word, counted from its top. */
  function TopDigit(w: int, k: nat): (d: int)
    requires w >= 0 && k <= 8
    ensures 0 <= d <= 9
  {
    LowDigit(w, 8 - k)
  }

  /** Decimal digit q of the integer words, counted from the units. */
  function IntDigit(words: seq<int>, q: nat): (d: int)
    requires WordsInRange(words) && q < 9 * |words|
    ensures 0 <= d <= 9
  {
    LowDigit(words[|words| - 1 - q / 9], q % 9)
  }

  /** Decimal digit q of the fraction words, counted from the point. */
  function FracDigit(words: seq<int>, q: nat): (d: int)
    requires WordsInRange(words) && q < 9 * |words|
    ensures 0 <= d <= 9
  {
    TopDigit(words[q / 9], q % 9)
  }

  function IntText(words: seq<int>, intg: nat): (s: string)
    requires WordsInRange(words) && intg <= 9 * |words|
  {
    seq(intg, i requires 0 <= i < intg => DigitChar(IntDigit(words, intg - 1 - i)))
  }

  function FracText(words: seq<int>, frac: nat): (s: string)
    requires WordsInRange(words) && frac <= 9 * |words|
  {
    seq(frac, i requires 0 <= i < frac => DigitChar(FracDigit(words, i)))
  }

  /** The digits that fit: the error code, the digits on each side of the point, the text length. */
  datatype Shape = Shape(error: int, intg: nat, frac: nat, len: nat)

  function IntLen(intg: nat): nat {
    if intg == 0 then 1 else intg
  }

  function TextLen(sign: bool, intg: nat, frac: nat): nat {
    (if sign then 1 else 0) + IntLen(intg) + (if frac > 0 then 1 + frac else 0)
  }

  /** Cutting the text down to `room` characters: fraction digits go first, then integer digits. */
  function Fit(sign: bool, intg: nat, frac: nat, room: nat): (r: Shape)
    requires room >= 1 + if sign then 1 else 0
    ensures r.intg <= intg && r.frac <= frac && r.len <= room
    ensures r.len == TextLen(sign, r.intg, r.frac)
    ensures r.frac > 0 ==> r.intg == intg
    ensures TextLen(sign, intg, frac) <= room ==> r == Shape(E_DEC_OK, intg, frac, r.len)
  {
    var len := TextLen(sign, intg, frac);
    if len <= room then Shape(E_DEC_OK, intg, frac, len)
    else
      var over := len - room;
      var error := if frac > 0 && over <= frac + 1 then E_DEC_TRUNCATED else E_DEC_OVERFLOW;
      var j := if frac > 0 && over >= frac + 1 then over - 1 else over;
      if j > frac then
        Shape(error, intg - (j - frac), 0, TextLen(sign, intg - (j - frac), 0))
      else
        Shape(error, intg, frac - j, TextLen(sign, intg, frac - j))
  }

  /** The words to print, integer words first, and the number of integer digits. */
  function Printable(d: Dec): (r: (seq<int>, nat))
    requires |d.words| == RoundUp(d.intg) + RoundUp(d.frac)
  {
    var (k, intg) := Significant(d.words, d.intg);
    if intg + d.frac == 0 then ([0], 1) else (d.words[k..], intg)
  }

  lemma PrintableSize(d: Dec)
    requires |d.words| == RoundUp(d.intg) + RoundUp(d.frac) && WordsInRange(d.words)
    ensures var (words, intg) := Printable(d);
            |words| >= RoundUp(intg) + RoundUp(d.frac) && WordsInRange(words)
    ensures var (words, intg) := Printable(d); intg + d.frac > 0
  {
    var (k, intg) := Significant(d.words, d.intg);
    var left := DigitsLeft(RoundUp(d.intg) - k, RoundUp(d.intg), d.intg);
    assert RoundUp(intg) <= RoundUp(left) <= RoundUp(d.intg) - k;
  }

  /** The characters for `intg` integer digits and `frac` fraction digits of the given words. */
  function TextOf(sign: bool, words: seq<int>, intg: nat, frac: nat): (s: string)
    requires |words| >= RoundUp(intg) + RoundUp(frac) && WordsInRange(words)
    ensures |s| == TextLen(sign, intg, frac)
  {
    (if sign then "-" else "") +
    (if intg == 0 then "0" else IntText(words[..RoundUp(intg)], intg)) +
    (if frac > 0 then "." + FracText(words[RoundUp(intg)..], frac) else "")
  }

  /** decimal2string as a function: the error code and the characters before the final NUL. */
  function Printed(d: Dec, toLen: nat): (r: (int, string))
    requires |d.words| == RoundUp(d.intg) + RoundUp(d.frac) && WordsInRange(d.words)
    requires toLen >= 2 + if d.sign then 1 else 0
  {
    PrintableSize(d);
    var (words, intg) := Printable(d);
    var shape := Fit(d.sign, intg, d.frac, toLen - 1);
    (shape.error, TextOf(d.sign, words, shape.intg, shape.frac))
  }

  // ---- decimal2string --------------------------------------------------------------

  /** Peeling the top digit off a fraction word that has been shifted left t times. */
  lemma PeelTopDigit(w: int, t: nat)
    requires 0 <= w <= DIG_MAX && t < 9
    ensures var x := (w % Pow10(9 - t)) * Pow10(t);
            && x / DIG_MASK == TopDigit(w, t)
            && (x - x / DIG_MASK * DIG_MASK) * 10 == (w % Pow10(8 - t)) * Pow10(t + 1)
  {
    var p, q, lo, d := Pow10(8 - t), Pow10(t), w % Pow10(8 - t), TopDigit(w, t);
    ModSplit(w, p, 10);
    assert Pow10(9 - t) == p * 10;
    PowAdd(10, 8 - t, t);
    Pow10Table();
    ShiftedDigit(d, p, lo, q);
  }

  /** Digit d above the digits lo of a word, shifted left until d stands on top. */
  lemma ShiftedDigit(d: nat, p: nat, lo: nat, q: nat)
    requires p * q == DIG_MASK && lo < p && q > 0
    ensures var x := (d * p + lo) * q; x / DIG_MASK == d && (x - x / DIG_MASK * DIG_MASK) * 10 == lo * (10 * q)
  {
    MulGap(lo, p, q);
    MulAssociative(d, p, q);
    assert (d * p + lo) * q == d * DIG_MASK + lo * q;
    DivModUnique((d * p + lo) * q, DIG_MASK, d, lo * q);
    MulAssociative(lo, 10, q);
    MulAssociative(10, lo, q);
  }

  /** Writes `count` digits of one fraction word, most significant first. */
  method WriteTopDigits(w: int, count: nat, to: array<char>, at: nat)
    requires 0 <= w <= DIG_MAX && count <= 9 && at + count <= to.Length
    modifies to
    ensures forall k :: at <= k < at + count ==> to[k] == DigitChar(TopDigit(w, k - at))
    ensures forall k :: 0 <= k < to.Length && !(at <= k < at + count) ==> to[k] == old(to[k])
  {
    Pow10Table();
    var x, s := w, at;
    while s < at + count
      invariant at <= s <= at + count
      invariant x == (w % Pow10(9 - (s - at))) * Pow10(s - at)
      invariant forall k :: at <= k < s ==> to[k] == DigitChar(TopDigit(w, k - at))
      invariant forall k :: 0 <= k < to.Length && !(at <= k < s) ==> to[k] == old(to[k])
    {
      PeelTopDigit(w, s - at);
      var y := x / DIG_MASK;
      to[s] := DigitChar(y);
      x := x - y * DIG_MASK;
      x := x * 10;
      s := s + 1;
    }
  }

  method WriteFraction(words: seq<int>, frac: nat, to: array<char>, at: nat)
    requires WordsInRange(words) && frac <= 9 * |words| && at + frac <= to.Length
    modifies to
    ensures to[at..at + frac] == FracText(words, frac)
    ensures forall k :: 0 <= k < to.Length && !(at <= k < at + frac) ==> to[k] == old(to[k])
  {
    hide TopDigit, LowDigit;
    var left, buf, s1 := frac, 0, at;
    while left > 0
      invariant 0 <= left <= frac && s1 == at + frac - left
      invariant left == 0 || left == frac - 9 * buf
      invariant forall k :: at <= k < s1 ==> to[k] == DigitChar(FracDigit(words, k - at))
      invariant forall k :: 0 <= k < to.Length && !(at <= k < s1) ==> to[k] == old(to[k])
    {
      var count := if left < 9 then left else 9;
      WriteTopDigits(words[buf], count, to, s1);
      forall k | s1 <= k < s1 + count
        ensures to[k] == DigitChar(FracDigit(words, k - at))
      {
        DivModUnique(k - at, 9, buf, k - s1);
      }
      buf := buf + 1;
      s1 := s1 + count;
      left := left - count;
    }
  }

  /** Writes `count` digits of one integer word below position `end`, least significant first. */
  method WriteLowDigits(w: int, count: nat, to: array<char>, end: nat)
    requires 0 <= w <= DIG_MAX && count <= 9 && count <= end <= to.Length
    modifies to
    ensures forall k :: end - count <= k < end ==> to[k] == DigitChar(LowDigit(w, end - 1 - k))
    ensures forall k :: 0 <= k < to.Length && !(end - count <= k < end) ==> to[k] == old(to[k])
  {
    var x, s := w, end;
    while s > end - count
      invariant end - count <= s <= end
      invariant x == w / Pow10(end - s)
      invariant forall k :: s <= k < end ==> to[k] == DigitChar(LowDigit(w, end - 1 - k))
      invariant forall k :: 0 <= k < to.Length && !(s <= k < end) ==> to[k] == old(to[k])
    {
      var y := x / 10;
      s := s - 1;
      to[s] := DigitChar(x - y * 10);
      DivDiv(w, Pow10(end - 1 - s), 10);
      x := y;
    }
  }

  method WriteInteger(words: seq<int>, intg: nat, to: array<char>, at: nat)
    requires WordsInRange(words) && |words| == RoundUp(intg) && at + intg <= to.Length
    modifies to
    ensures to[at..at + intg] == IntText(words, intg)
    ensures forall k :: 0 <= k < to.Length && !(at <= k < at + intg) ==> to[k] == old(to[k])
  {
    hide LowDigit;
    var left, buf, s, end := intg, |words|, at + intg, at + intg;
    while left > 0
      invariant 0 <= left <= intg && s == at + left
      invariant left == 0 || (left == intg - 9 * (|words| - buf) && 0 < buf <= |words|)
      invariant forall k :: s <= k < end ==> to[k] == DigitChar(IntDigit(words, end - 1 - k))
      invariant forall k :: 0 <= k < to.Length && !(s <= k < end) ==> to[k] == old(to[k])
    {
      buf := buf - 1;
      var count := if left < 9 then left else 9;
      WriteLowDigits(words[buf], count, to, s);
      forall k | s - count <= k < s
        ensures to[k] == DigitChar(IntDigit(words, end - 1 - k))
      {
        DivModUnique(end - 1 - k, 9, |words| - 1 - buf, s - 1 - k);
      }
      s := s - count;
      left := left - count;
    }
  }

  /** The branch that cuts digits off a number whose text does not fit. */
  method FitDigits(sign: bool, intg0: nat, frac0: nat, room: nat)
    returns (error: int, intg: nat, frac: nat, len: nat)
    requires room >= 1 + if sign then 1 else 0
    ensures Shape(error, intg, frac, len) == Fit(sign, intg0, frac0, room)
  {
    intg, frac, error := intg0, frac0, E_DEC_OK;
    var signLen := if sign then 1 else 0;
    var intgLen := if intg == 0 then 1 else intg;
    len := signLen + intgLen + (if frac > 0 then 1 else 0) + frac;
    if len > room {
      var j := len - room;
      error := if frac > 0 && j <= frac + 1 then E_DEC_TRUNCATED else E_DEC_OVERFLOW;
      if frac > 0 && j >= frac + 1 {
        j := j - 1;
      }
      if j > frac {
        intg := intg - (j - frac);
        intgLen := intg;
        frac := 0;
      } else {
        frac := frac - j;
      }
      len := signLen + intgLen + (if frac > 0 then 1 else 0) + frac;
    }
  }

  method WritePointAndFraction(words: seq<int>, frac: nat, to: array<char>, point: nat)
    requires WordsInRange(words) && 0 < frac <= 9 * |words| && point + 1 + frac <= to.Length
    modifies to
    ensures to[point..point + 1 + frac] == "." + FracText(words, frac)
    ensures forall k :: 0 <= k < to.Length && !(point <= k < point + 1 + frac) ==> to[k] == old(to[k])
  {
    to[point] := '.';
    WriteFraction(words, frac, to, point + 1);
    assert to[point..point + 1 + frac] == [to[point]] + to[point + 1..point + 1 + frac];
  }

  /** The three parts of the text: the sign, the fraction behind its point, the integer digits. */
  method WriteText(sign: bool, words: seq<int>, intg: nat, frac: nat, to: array<char>)
    requires |words| >= RoundUp(intg) + RoundUp(frac) && WordsInRange(words)
    requires TextLen(sign, intg, frac) <= to.Length
    modifies to
    ensures to[..TextLen(sign, intg, frac)] == TextOf(sign, words, intg, frac)
    ensures forall k :: TextLen(sign, intg, frac) <= k < to.Length ==> to[k] == old(to[k])
  {
    hide IntText, FracText;
    var s, intgLen := 0, if intg == 0 then 1 else intg;
    if sign {
      to[0] := '-';
      s := 1;
    }
    ghost var signText := to[..s];
    assert signText == if sign then "-" else "";
    var point := s + intgLen;
    ghost var len := TextLen(sign, intg, frac);
    if frac > 0 {
      WritePointAndFraction(words[RoundUp(intg)..], frac, to, point);
    }
    ghost var fraction := to[point..len];
    WriteDigitsOrZero(words[..RoundUp(intg)], intg, to, s);
    assert to[..len][s..point] == to[s..point] && to[..len][point..] == to[point..len] == fraction;
    TextJoins(sign, words, intg, frac, to[..len], s);
  }

  method WriteDigitsOrZero(words: seq<int>, intg: nat, to: array<char>, at: nat)
    requires |words| == RoundUp(intg) && WordsInRange(words)
    requires at + IntLen(intg) <= to.Length
    modifies to
    ensures to[at..at + IntLen(intg)] == if intg == 0 then "0" else IntText(words, intg)
    ensures forall k :: 0 <= k < to.Length && !(at <= k < at + IntLen(intg)) ==> to[k] == old(to[k])
  {
    if intg > 0 {
      WriteInteger(words, intg, to, at);
    } else {
      to[at] := '0';
    }
  }

  lemma TextJoins(sign: bool, words: seq<int>, intg: nat, frac: nat, text: string, s: nat)
    requires |words| >= RoundUp(intg) + RoundUp(frac) && WordsInRange(words)
    requires s == (if sign then 1 else 0) && |text| == TextLen(sign, intg, frac)
    requires text[..s] == if sign then "-" else ""
    requires text[s..s + IntLen(intg)] == if intg == 0 then "0" else IntText(words[..RoundUp(intg)], intg)
    requires text[s + IntLen(intg)..] == if frac > 0 then "." + FracText(words[RoundUp(intg)..], frac) else ""
    ensures text == TextOf(sign, words, intg, frac)
  {
    hide IntText, FracText, RoundUp;
    assert text == text[..s] + text[s..s + IntLen(intg)] + text[s + IntLen(intg)..];
  }

  lemma RoundUpMonotone(a: nat, b: nat)
    requires a <= b
    ensures RoundUp(a) <= RoundUp(b)
  {
  }

  method Decimal2String(from: Decimal, to: array<char>, toLen: nat) returns (error: int, len: nat)
    requires from.Valid() && WordsInRange(from.Value().words)
    requires toLen >= 2 + (if from.sign then 1 else 0) && toLen <= to.Length
    modifies to
    ensures len < toLen && to[len] == '\0'
    ensures (error, to[..len]) == Printed(from.Value(), toLen)
  {
    hide TextOf, Significant, WordsInRange, Fit, RoundUp;
    ghost var d := from.Value();
    var buf0, intg := RemoveLeadingZeroes(from);
    var frac := from.frac;
    var words := from.buf[buf0..RoundUp(from.intg) + RoundUp(from.frac)];
    if intg + frac == 0 {
      intg := 1;
      words := [0];
    }
    PrintableSize(d);
    assert words == Printable(d).0;
    ghost var allDigits := intg;
    error, intg, frac, len := FitDigits(from.sign, intg, frac, toLen - 1);
    RoundUpMonotone(intg, allDigits);
    RoundUpMonotone(frac, d.frac);
    to[len] := '\0';
    WriteText(from.sign, words, intg, frac, to);
  }
}
