/** Decoding and printing together: the printed numeral against the encoded value. */
module DecimalValue {
  import opened Arith
  import opened PackedDecimal
  import opened DecimalText
  import opened DecimalEncoding

  // ---- numerals ----------------------------------------------------------------------

  predicate IsDigit(c: char) {
    '0' <= c <= '9'
  }

  function ParseDigits(s: string): nat {
    if s == [] then 0
    else ParseDigits(s[..|s| - 1]) * 10 + (if IsDigit(s[|s| - 1]) then s[|s| - 1] as int - '0' as int else 0)
  }

  datatype Numeral = Numeral(negative: bool, intDigits: string, fracDigits: string)

  /** The index of the decimal point, or the length if there is none. */
  function PointAt(s: string): (p: nat)
    ensures p <= |s|
  {
    if s == [] || s[0] == '.' then 0 else 1 + PointAt(s[1..])
  }

  /** Reading a numeral back: a sign, digits, a point, digits. */
  function ReadNumeral(s: string): Numeral {
    var negative := s != [] && s[0] == '-';
    var body := if negative then s[1..] else s;
    var p := PointAt(body);
    Numeral(negative, body[..p], if p < |body| then body[p + 1..] else "")
  }

  /** The value of a numeral times ten to the number of its fraction digits. */
  function NumeralValue(s: string): int {
    var n := ReadNumeral(s);
    Signed(n.negative, ParseDigits(n.intDigits + n.fracDigits))
  }

  /** Digits only, exactly `scale` of them after the point, and no leading zero but a lone 0. */
  predicate CanonicalNumeral(s: string, scale: nat) {
    var n := ReadNumeral(s);
    && (forall i :: 0 <= i < |n.intDigits| ==> IsDigit(n.intDigits[i]))
    && (forall i :: 0 <= i < |n.fracDigits| ==> IsDigit(n.fracDigits[i]))
    && |n.fracDigits| == scale
    && n.intDigits != "" && (n.intDigits[0] == '0' ==> |n.intDigits| == 1)
  }

  lemma {:induction false} ParseConcat(s: string, t: string)
    ensures ParseDigits(s + t) == ParseDigits(s) * Pow10(|t|) + ParseDigits(t)
  {
    if t == [] {
      assert s + t == s;
    } else {
      ParseConcat(s, t[..|t| - 1]);
      assert (s + t)[..|s + t| - 1] == s + t[..|t| - 1];
      MulAssociative(ParseDigits(s), Pow10(|t| - 1), 10);
    }
  }

  lemma {:induction false} PointAfterDigits(digits: string, rest: string)
    requires forall i :: 0 <= i < |digits| ==> IsDigit(digits[i])
    requires rest == "" || rest[0] == '.'
    ensures PointAt(digits + rest) == |digits|
  {
    if digits == "" {
      assert digits + rest == rest;
    } else {
      PointAfterDigits(digits[1..], rest);
      assert (digits + rest)[1..] == digits[1..] + rest;
    }
  }

  // ---- the words of a decimal as a number ------------------------------------------

  /** Base-10^9 words, most significant first. */
  function Horner(words: seq<int>): (h: nat)
    requires WordsInRange(words)
  {
    if words == [] then 0
    else
      assert WordsInRange(words[..|words| - 1]);
      Horner(words[..|words| - 1]) * DIG_BASE + words[|words| - 1]
  }

  lemma {:induction false} HornerBound(words: seq<int>)
    requires WordsInRange(words)
    ensures Horner(words) < Pow10(9 * |words|)
  {
    if words != [] {
      HornerBound(words[..|words| - 1]);
      PowAdd(10, 9 * |words| - 9, 9);
      Pow10Table();
    }
  }

  lemma {:induction false} HornerHead(words: seq<int>)
    requires WordsInRange(words) && words != []
    ensures WordsInRange(words[1..])
    ensures Horner(words) == words[0] * Pow10(9 * (|words| - 1)) + Horner(words[1..])
  {
    if |words| == 1 {
      assert words[..0] == [];
    } else {
      var front := words[..|words| - 1];
      HornerHead(front);
      assert front[1..] == words[1..][..|words| - 2];
      PowAdd(10, 9 * (|words| - 2), 9);
      Pow10Table();
      MulAssociative(words[0], Pow10(9 * (|words| - 2)), DIG_BASE);
    }
  }

  /** The digit a printed position shows is the digit of the whole number. */
  lemma {:induction false} DigitOfHorner(words: seq<int>, q: nat)
    requires WordsInRange(words) && q < 9 * |words|
    ensures LowDigit(Horner(words), q) == IntDigit(words, q)
  {
    var front, last := words[..|words| - 1], words[|words| - 1];
    var h := Horner(front);
    if q < 9 {
      DigitBelowWord(h, last, q);
    } else {
      DigitOfHorner(front, q - 9);
      PowAdd(10, 9, q - 9);
      Pow10Table();
      DivModUnique(h * DIG_BASE + last, DIG_BASE, h, last);
      DivDiv(h * DIG_BASE + last, DIG_BASE, Pow10(q - 9));
    }
  }

  lemma DigitBelowWord(h: nat, last: nat, q: nat)
    requires last <= DIG_MAX && q < 9
    ensures LowDigit(h * DIG_BASE + last, q) == LowDigit(last, q)
  {
    var p, r := Pow10(q), Pow10(8 - q);
    PowAdd(10, q, 9 - q);
    Pow10Table();
    assert DIG_BASE == p * (10 * r);
    Regrouped(h, p, 10 * r, last);
    DropTens(h, r, last / p);
  }

  lemma Regrouped(h: nat, p: nat, r: nat, last: nat)
    requires p > 0
    ensures (h * (p * r) + last) / p == h * r + last / p
  {
    QuotientAndRemainder(last, p);
    calc {
      h * (p * r);
      { MulAssociative(h, r, p); }
      (h * r) * p;
    }
    assert (h * r) * p + (last / p) * p == (h * r + last / p) * p;
    DivModUnique(h * (p * r) + last, p, h * r + last / p, last % p);
  }

  lemma DropTens(h: nat, r: nat, z: nat)
    ensures (h * (10 * r) + z) % 10 == z % 10
  {
    MulAssociative(h, r, 10);
    DivModUnique(h * (10 * r) + z, 10, h * r + z / 10, z % 10);
  }

  lemma DigitCharValue(d: nat)
    requires d <= 9
    ensures IsDigit(DigitChar(d)) && DigitChar(d) as int - '0' as int == d
  {
  }

  /** A run of printed digits parses to the number those digits spell. */
  lemma {:induction false} ParseRun(s: string, n: nat, t: nat)
    requires forall i :: 0 <= i < |s| ==> s[i] == DigitChar(LowDigit(n, t + |s| - 1 - i))
    ensures ParseDigits(s) == (n / Pow10(t)) % Pow10(|s|)
  {
    if s != [] {
      var front := s[..|s| - 1];
      assert forall i :: 0 <= i < |front| ==> front[i] == s[i];
      ParseRun(front, n, t + 1);
      assert s[|s| - 1] == DigitChar(LowDigit(n, t));
      DigitCharValue(LowDigit(n, t));
      NextQuotient(n, t, |s|);
    }
  }

  lemma NextQuotient(n: nat, t: nat, k: nat)
    requires k > 0
    ensures (n / Pow10(t)) % Pow10(k) == (n / Pow10(t + 1)) % Pow10(k - 1) * 10 + LowDigit(n, t)
  {
    DivDiv(n, Pow10(t), 10);
    ModSplit(n / Pow10(t), 10, Pow10(k - 1));
  }

  lemma ParseIntText(words: seq<int>, intg: nat)
    requires WordsInRange(words) && intg <= 9 * |words|
    ensures ParseDigits(IntText(words, intg)) == Horner(words) % Pow10(intg)
    ensures intg > 0 ==> IntText(words, intg)[0] == DigitChar(LowDigit(Horner(words), intg - 1))
  {
    hide LowDigit, IntDigit, DigitChar, Pow;
    var s := IntText(words, intg);
    assert Pow10(0) == 1 by { Pow10Table(); }
    forall i | 0 <= i < |s|
      ensures s[i] == DigitChar(LowDigit(Horner(words), intg - 1 - i))
    {
      DigitOfHorner(words, intg - 1 - i);
    }
    ParseRun(s, Horner(words), 0);
  }

  lemma FracDigitFromUnits(words: seq<int>, i: nat)
    requires WordsInRange(words) && i < 9 * |words|
    ensures FracDigit(words, i) == IntDigit(words, 9 * |words| - 1 - i)
  {
    hide LowDigit;
    DivModUnique(9 * |words| - 1 - i, 9, |words| - 1 - i / 9, 8 - i % 9);
  }

  lemma TopDigitsFit(h: nat, frac: nat, t: nat)
    requires h < Pow10(frac + t)
    ensures (h / Pow10(t)) % Pow10(frac) == h / Pow10(t)
  {
    PowAdd(10, frac, t);
    QuotientBound(h, Pow10(frac), Pow10(t));
    DivModUnique(h / Pow10(t), Pow10(frac), 0, h / Pow10(t));
  }

  lemma ParseFracText(words: seq<int>, frac: nat)
    requires WordsInRange(words) && frac <= 9 * |words|
    ensures ParseDigits(FracText(words, frac)) == Horner(words) / Pow10(9 * |words| - frac)
  {
    hide LowDigit, DigitChar, Pow10, Pow, FracDigit, IntDigit, Horner, ParseDigits;
    var s, h, t := FracText(words, frac), Horner(words), 9 * |words| - frac;
    forall i | 0 <= i < |s|
      ensures s[i] == DigitChar(LowDigit(h, t + frac - 1 - i))
    {
      FracDigitFromUnits(words, i);
      DigitOfHorner(words, 9 * |words| - 1 - i);
    }
    ParseRun(s, h, t);
    HornerBound(words);
    TopDigitsFit(h, frac, t);
  }

  // ---- leading zeroes ----------------------------------------------------------------

  lemma {:induction false} HornerSkipsZeros(words: seq<int>, k: nat)
    requires WordsInRange(words) && k <= |words| && forall i :: 0 <= i < k ==> words[i] == 0
    ensures WordsInRange(words[k..]) && Horner(words[k..]) == Horner(words)
  {
    if k == 0 {
      assert words[0..] == words;
    } else {
      HornerHead(words);
      HornerSkipsZeros(words[1..], k - 1);
      assert words[1..][k - 1..] == words[k..];
    }
  }

  /** The integer words of a decimal, as the printer sees them after remove_leading_zeroes. */
  lemma SignificantValue(words: seq<int>, intg: nat)
    requires WordsInRange(words) && |words| == RoundUp(intg)
    ensures var (k, g) := Significant(words, intg);
            && WordsInRange(words[k..]) && Horner(words[k..]) == Horner(words)
            && RoundUp(g) == |words| - k
            && (g == 0 <==> Horner(words) == 0)
            && (g > 0 ==> Pow10(g - 1) <= Horner(words))
            && (Horner(words) < Pow10(g) <==> |words| == 0 || words[0] < Pow10((intg - 1) % 9 + 1))
  {
    hide RoundUp, DigitsLeft, Horner, Pow10, CountLeadingZeroes;
    var (k, g) := Significant(words, intg);
    assert words[..RoundUp(intg)] == words;
    HornerSkipsZeros(words, k);
    LeftDigits(intg, k);
    if k < |words| {
      var v, left := words[k], DigitsLeft(|words| - k, |words|, intg);
      var d, m := (left - 1) % 9, |words| - k - 1;
      assert left == 9 * m + d + 1;
      RoundUpBelow(m, d, CountLeadingZeroes(d, v));
      HornerHead(words[k..]);
      HornerBound(words[k..][1..]);
      LeadDigits(v, d, m, Horner(words[k..][1..]));
      assert k > 0 ==> v < Pow10(d + 1) by { Pow10Table(); }
      if k > 0 {
        LeadFitsTrivially(words, intg);
      }
    } else {
      EmptyNumber(words, intg);
    }
  }

  lemma EmptyNumber(words: seq<int>, intg: nat)
    requires WordsInRange(words) && forall i :: 0 <= i < |words| ==> words[i] == 0
    ensures Horner(words) == 0 && Horner(words) < Pow10(0) && RoundUp(0) == 0
    ensures |words| > 0 ==> words[0] < Pow10((intg - 1) % 9 + 1)
  {
    HornerSkipsZeros(words, |words|);
    assert words[|words|..] == [];
  }

  lemma LeftDigits(intg: nat, k: nat)
    requires k <= RoundUp(intg)
    ensures var n := RoundUp(intg);
            var left := DigitsLeft(n - k, n, intg);
            && (k < n ==> left > 0 && left == 9 * (n - k - 1) + (left - 1) % 9 + 1)
            && (k == 0 ==> left == intg)
            && (0 < k < n ==> (left - 1) % 9 == 8)
  {
  }

  lemma RoundUpBelow(m: nat, d: nat, c: nat)
    requires c <= d <= 8
    ensures RoundUp(9 * m + d + 1 - c) == m + 1
  {
  }

  lemma LeadFitsTrivially(words: seq<int>, intg: nat)
    requires |words| > 0 ==> words[0] == 0
    ensures |words| > 0 ==> words[0] < Pow10((intg - 1) % 9 + 1)
  {
  }

  /** A nonzero top word v with c leading zeroes among d + 1 digits, above m full words. */
  lemma LeadDigits(v: nat, d: nat, m: nat, rest: nat)
    requires v >= 1 && d <= 8 && rest < Pow10(9 * m)
    ensures var c := CountLeadingZeroes(d, v);
            var h := v * Pow10(9 * m) + rest;
            && Pow10(9 * m + d - c) <= h
            && (h < Pow10(9 * m + d + 1 - c) <==> v < Pow10(d + 1))
  {
    var c, p := CountLeadingZeroes(d, v), Pow10(9 * m);
    PowAdd(10, d - c, 9 * m);
    PowAdd(10, d - c + 1, 9 * m);
    PowMonotone(10, d - c + 1, d + 1);
    MulMonotone(Pow10(d - c), v, p);
    if v < Pow10(d - c + 1) {
      MulGap(v, Pow10(d - c + 1), p);
    } else {
      MulMonotone(Pow10(d - c + 1), v, p);
    }
  }
}
