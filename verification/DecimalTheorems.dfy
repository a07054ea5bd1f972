/** The promises of the decimal column path: decode, then print. */
module DecimalTheorems {
  import opened Arith
  import opened ByteStore
  import opened PackedDecimal
  import opened DecimalText
  import opened DecimalEncoding
  import opened DecimalValue

  // ---- decoded words are the groups of the magnitude --------------------------------

  /** Complementing the bytes of a word is complementing its signed value. */
  lemma MirroredWord(n: nat, u: nat)
    requires 1 <= n <= 4 && u < Pow(256, n)
    ensures -SignedWord(n, u) - 1 == SignedWord(n, Pow(256, n) - 1 - u)
  {
    Pow256Table();
  }

  lemma UnmaskedWord(negative: bool, n: nat, a: seq<Byte>)
    requires 1 <= n <= 4 && |a| == n
    ensures Unmask(negative, Sint(n, a)) == SignedWord(n, BigEndian(if negative then Complement(a) else a))
  {
    hide Sint, SignedWord, Pow;
    SintIsSignedWord(n, a);
    assert a[..n] == a;
    BigEndianComplement(a);
    MirroredWord(n, BigEndian(a));
  }

  lemma WordIsGroup(from: seq<Byte>, l: Layout, k: nat)
    requires from != [] && l.Valid() && k < GroupCount(l) && Offset(l, k + 1) <= |from|
    ensures Word(FlipSign(from), IsNegative(from), Offset(l, k), Size(l, k))
         == SignedWord(Size(l, k), Group(Magnitude(from), l, k))
  {
    hide Sint, SignedWord, BigEndian, FlipSign, IsNegative, Width, Pow;
    var raw, negative := FlipSign(from), IsNegative(from);
    var i, j := Offset(l, k), Offset(l, k + 1);
    UnmaskedWord(negative, Size(l, k), raw[i..j]);
    assert negative ==> Complement(raw[i..j]) == Magnitude(from)[i..j];
  }

  lemma IntWordIsGroup(from: seq<Byte>, l: Layout, k: nat)
    requires from != [] && l.Valid() && l.skip == 0 && k < l.IntWordCount() && l.End() <= |from|
    ensures Offset(l, k + 1) <= |from|
    ensures IntWord(FlipSign(from), IsNegative(from), l, k)
         == SignedWord(Size(l, k), Group(Magnitude(from), l, k))
  {
    hide Word, SignedWord, Group, Magnitude, FlipSign;
    OffsetFormula(l, k);
    OffsetFormula(l, GroupCount(l));
    OffsetMonotone(l, k + 1, GroupCount(l));
    WordIsGroup(from, l, k);
  }

  lemma FracWordIsGroup(from: seq<Byte>, l: Layout, k: nat)
    requires from != [] && l.Valid() && l.skip == 0 && k < l.FracWordCount() && l.End() <= |from|
    ensures Offset(l, l.IntWordCount() + k + 1) <= |from|
    ensures var n := l.IntWordCount() + k;
            var x := SignedWord(Size(l, n), Group(Magnitude(from), l, n));
            FracWord(FlipSign(from), IsNegative(from), l, k) == (if k < l.frac0 then x else ScaleTail(x, l.frac0x))
  {
    hide Word, SignedWord, Group, Magnitude, ScaleTail, FlipSign, Offset;
    var n := l.IntWordCount() + k;
    FracOffset(l, k);
    WordIsGroup(from, l, n);
  }

  /** Where the decoder reads fraction word k is where group IntWordCount + k starts. */
  lemma FracOffset(l: Layout, k: nat)
    requires l.Valid() && l.skip == 0 && k < l.FracWordCount()
    ensures var n := l.IntWordCount() + k;
            && Offset(l, n) == l.LeadBytes() + 4 * l.intg0 + 4 * k
            && Offset(l, n + 1) <= l.End()
            && Size(l, n) == if k < l.frac0 then 4 else DIG2BYTES[l.frac0x]
  {
    hide Offset;
    OffsetFormula(l, l.IntWordCount() + k);
    OffsetFormula(l, GroupCount(l));
    OffsetMonotone(l, l.IntWordCount() + k + 1, GroupCount(l));
  }

  // ---- what acceptance gives ---------------------------------------------------------

  /** The decoder's integer words and fraction words, for an encoding that needs no cutting. */
  function Ints(from: seq<Byte>, l: Layout): seq<int>
    requires from != [] && l.Valid() && l.End() <= |from|
  {
    IntWords(FlipSign(from), IsNegative(from), l)
  }

  function Fracs(from: seq<Byte>, l: Layout): seq<int>
    requires from != [] && l.Valid() && l.End() <= |from|
  {
    FracWords(FlipSign(from), IsNegative(from), l)
  }

  predicate Accepted(from: seq<Byte>, l: Layout)
    requires from != [] && l.Valid() && l.End() <= |from|
  {
    IntWordsAccepted(Ints(from, l), l) && FracWordsAccepted(Fracs(from, l))
  }

  lemma AcceptedInRange(from: seq<Byte>, l: Layout)
    requires from != [] && l.Valid() && l.End() <= |from| && Accepted(from, l)
    ensures WordsInRange(Ints(from, l)) && WordsInRange(Fracs(from, l))
  {
    Pow10Table();
    PowMonotone(10, l.intg0x + 1, 9);
  }

  /** The signed reading of a word is nonnegative only when it is the unsigned one. */
  lemma NonnegativeWord(m: seq<Byte>, l: Layout, k: nat)
    requires l.Valid() && k < GroupCount(l) && Offset(l, k + 1) <= |m|
    requires SignedWord(Size(l, k), Group(m, l, k)) >= 0
    ensures SignedWord(Size(l, k), Group(m, l, k)) == Group(m, l, k)
  {
    hide Group, Size, Offset, Pow;
  }

  /** Group k has nine digits and is the word w. */
  predicate FullWord(m: seq<Byte>, l: Layout, k: nat, w: int)
    requires l.Valid() && k < GroupCount(l)
  {
    Offset(l, k + 1) <= |m| && Width(l, k) == 9 && w == Group(m, l, k) && w <= DIG_MAX
  }

  /** Full words below a number extend it in base 10^9. */
  lemma {:induction false} FullWordsValue(m: seq<Byte>, l: Layout, n: nat, words: seq<int>)
    requires l.Valid() && n + |words| <= GroupCount(l) && Offset(l, n + |words|) <= |m|
    requires forall i :: 0 <= i < |words| ==> FullWord(m, l, n + i, words[i])
    ensures WordsInRange(words) && Offset(l, n) <= |m|
    ensures Unscaled(m, l, n + |words|) == Unscaled(m, l, n) * Pow10(9 * |words|) + Horner(words)
  {
    hide Group, Width, Offset;
    if words == [] {
      Pow10Table();
    } else {
      var j := |words| - 1;
      assert FullWord(m, l, n + j, words[j]);
      OffsetMonotone(l, n + j, n + |words|);
      FullWordsValue(m, l, n, words[..j]);
      PowAdd(10, 9 * j, 9);
      Pow10Table();
      Widen(Unscaled(m, l, n), Pow10(9 * j), Horner(words[..j]), words[j], DIG_BASE);
    }
  }

  /** Appending one digit of radix r below a shifted number. */
  lemma Widen(whole: nat, p: nat, h: nat, g: nat, r: nat)
    ensures (whole * p + h) * r + g == whole * (p * r) + (h * r + g)
  {
    MulAssociative(whole, p, r);
  }

  /** An accepted integer word is its group, and a full one is below 10^9. */
  lemma AcceptedInt(from: seq<Byte>, l: Layout, k: nat)
    requires from != [] && l.Valid() && l.skip == 0 && l.End() <= |from| && Accepted(from, l)
    requires k < l.IntWordCount()
    ensures Offset(l, k + 1) <= |from| && Ints(from, l)[k] == Group(Magnitude(from), l, k)
    ensures k > 0 || l.intg0x == 0 ==> FullWord(Magnitude(from), l, k, Ints(from, l)[k])
  {
    hide IntWord, Magnitude, Group, SignedWord, FlipSign;
    IntWordIsGroup(from, l, k);
    assert Accepts(k == 0, l.intg0x, Ints(from, l)[k]);
    NonnegativeWord(Magnitude(from), l, k);
  }

  lemma AcceptedFrac(from: seq<Byte>, l: Layout, k: nat)
    requires from != [] && l.Valid() && l.skip == 0 && l.End() <= |from| && Accepted(from, l)
    requires k < l.frac0
    ensures FullWord(Magnitude(from), l, l.IntWordCount() + k, Fracs(from, l)[k])
  {
    hide FracWord, Magnitude, Group, SignedWord, FlipSign;
    FracWordIsGroup(from, l, k);
    assert Accepts(false, 0, Fracs(from, l)[k]);
    NonnegativeWord(Magnitude(from), l, l.IntWordCount() + k);
  }

  /** The number spelt by the integer groups, for the words that hold them. */
  lemma IntegerGroups(m: seq<Byte>, l: Layout, ints: seq<int>)
    requires l.Valid() && |ints| == l.IntWordCount() && WordsInRange(ints)
    requires forall k :: 0 <= k < |ints| ==> IntGroup(m, l, k, ints[k])
    ensures Offset(l, |ints|) <= |m| && Unscaled(m, l, |ints|) == Horner(ints)
  {
    hide Group, Width, IntGroup, FullWord, Horner;
    if ints == [] {
      EmptyWords(m, l);
    } else {
      forall i | 0 <= i < |ints[1..]|
        ensures FullWord(m, l, 1 + i, ints[1..][i])
      {
        FullGroup(m, l, i + 1, ints[i + 1]);
      }
      OffsetOfGroup(m, l, |ints| - 1, ints[|ints| - 1]);
      LeadGroup(m, l, ints[0], ints[1..]);
      HornerHead(ints);
    }
  }

  lemma EmptyWords(m: seq<Byte>, l: Layout)
    requires l.Valid()
    ensures Offset(l, 0) <= |m| && Unscaled(m, l, 0) == Horner([])
  {
  }

  lemma OffsetOfGroup(m: seq<Byte>, l: Layout, k: nat, w: int)
    requires l.Valid() && k < l.IntWordCount() && IntGroup(m, l, k, w)
    ensures Offset(l, k + 1) <= |m|
  {
  }

  lemma FullGroup(m: seq<Byte>, l: Layout, k: nat, w: int)
    requires l.Valid() && k < l.IntWordCount() && IntGroup(m, l, k, w)
    requires k > 0
    ensures FullWord(m, l, k, w)
  {
  }

  /** Integer group k is the word w, which is full unless it is the leading one. */
  predicate IntGroup(m: seq<Byte>, l: Layout, k: nat, w: int)
    requires l.Valid() && k < l.IntWordCount()
  {
    && Offset(l, k + 1) <= |m| && Group(m, l, k) == w
    && (k > 0 ==> FullWord(m, l, k, w))
  }

  lemma LeadGroup(m: seq<Byte>, l: Layout, lead: nat, full: seq<int>)
    requires l.Valid() && 1 + |full| == l.IntWordCount() && Offset(l, 1 + |full|) <= |m|
    requires IntGroup(m, l, 0, lead)
    requires forall i :: 0 <= i < |full| ==> FullWord(m, l, 1 + i, full[i])
    ensures WordsInRange(full)
    ensures Unscaled(m, l, 1 + |full|) == lead * Pow10(9 * |full|) + Horner(full)
  {
    hide Group, Width, FullWord, Pow, Horner, Unscaled, Offset;
    FullWordsValue(m, l, 1, full);
    FirstGroup(m, l);
  }

  lemma FirstGroup(m: seq<Byte>, l: Layout)
    requires l.Valid() && 0 < GroupCount(l) && Offset(l, 1) <= |m|
    ensures Unscaled(m, l, 1) == Group(m, l, 0)
  {
    assert Unscaled(m, l, 0) == 0;
  }

  lemma IntegerValue(from: seq<Byte>, l: Layout)
    requires from != [] && l.Valid() && l.skip == 0 && l.End() <= |from| && Accepted(from, l)
    ensures Offset(l, l.IntWordCount()) <= |from| && WordsInRange(Ints(from, l))
    ensures Unscaled(Magnitude(from), l, l.IntWordCount()) == Horner(Ints(from, l))
  {
    hide IntWord, Magnitude, Group, Unscaled, Horner;
    AcceptedInRange(from, l);
    forall k | 0 <= k < l.IntWordCount()
      ensures IntGroup(Magnitude(from), l, k, Ints(from, l)[k])
    {
      AcceptedInt(from, l, k);
    }
    IntegerGroups(Magnitude(from), l, Ints(from, l));
  }

  // ---- the printed fraction ----------------------------------------------------------

  /** The short last word: what is printed of it is its group exactly when the group fits. */
  lemma TailDigits(g: nat, w: nat)
    requires 1 <= w <= 8 && g < Pow(256, DIG2BYTES[w])
    requires Accepts(false, 0, ScaleTail(SignedWord(DIG2BYTES[w], g), w))
    ensures var y := ScaleTail(SignedWord(DIG2BYTES[w], g), w);
            && y / Pow10(9 - w) < Pow10(w)
            && (g < Pow10(w) ==> y == g * Pow10(9 - w) && y / Pow10(9 - w) == g)
  {
    var y, p := ScaleTail(SignedWord(DIG2BYTES[w], g), w), Pow10(9 - w);
    PowAdd(10, w, 9 - w);
    Pow10Table();
    QuotientBound(y, Pow10(w), p);
    if g < Pow10(w) {
      TenBelow256(w);
      MulGap(g, Pow10(w), p);
      assert SignedWord(DIG2BYTES[w], g) == g;
      DivModUnique(g * p, 0x1_0000_0000, 0, g * p);
      DivModUnique(y, p, g, 0);
    }
  }

  /** The words that hold the fraction groups, the last one scaled. */
  predicate FracGroups(m: seq<Byte>, l: Layout, fracs: seq<int>)
    requires l.Valid()
  {
    var n, f0 := l.IntWordCount(), l.frac0;
    && |fracs| == l.FracWordCount() && WordsInRange(fracs) && Offset(l, GroupCount(l)) <= |m|
    && (forall i :: 0 <= i < f0 ==> FullWord(m, l, n + i, fracs[i]))
    && (l.frac0x > 0 ==>
          fracs[f0] == ScaleTail(SignedWord(DIG2BYTES[l.frac0x], Group(m, l, n + f0)), l.frac0x))
  }

  /** The printed fraction, in units of its last digit. */
  function PrintedFraction(l: Layout, fracs: seq<int>): nat
    requires WordsInRange(fracs) && |fracs| == l.FracWordCount() && l.frac0x < 9
  {
    Horner(fracs) / Pow10(9 * |fracs| - l.FracDigits())
  }

  /** The exact number never lies below the printed one, and equals it when the last group fits. */
  lemma FractionGroups(m: seq<Byte>, l: Layout, fracs: seq<int>)
    requires l.Valid() && FracGroups(m, l, fracs)
    ensures Offset(l, l.IntWordCount()) <= |m|
    ensures var whole := Unscaled(m, l, l.IntWordCount()) * Pow10(l.FracDigits());
            && PrintedFraction(l, fracs) < Pow10(l.FracDigits())
            && whole + PrintedFraction(l, fracs) <= Unscaled(m, l, GroupCount(l))
            && (l.frac0x == 0 || GroupFits(m, l, GroupCount(l) - 1)
                <==> whole + PrintedFraction(l, fracs) == Unscaled(m, l, GroupCount(l)))
  {
    hide Group, ScaleTail, SignedWord, Pow, Horner, Offset;
    var n, f0 := l.IntWordCount(), l.frac0;
    OffsetMonotone(l, n + f0, GroupCount(l));
    OffsetMonotone(l, n, GroupCount(l));
    FullWordsValue(m, l, n, fracs[..f0]);
    HornerBound(fracs[..f0]);
    if l.frac0x == 0 {
      assert fracs[..f0] == fracs;
      Pow10Table();
      DivByOne(Horner(fracs));
    } else {
      TailGroup(m, l, fracs);
    }
  }

  lemma DivByOne(x: nat)
    ensures x / 1 == x
  {
  }

  lemma TailGroup(m: seq<Byte>, l: Layout, fracs: seq<int>)
    requires l.Valid() && FracGroups(m, l, fracs) && l.frac0x > 0
    requires var n, f0 := l.IntWordCount(), l.frac0;
             && Offset(l, n + f0) <= |m| && Offset(l, n) <= |m|
             && Horner(fracs[..f0]) < Pow10(9 * f0)
             && Unscaled(m, l, n + f0) == Unscaled(m, l, n) * Pow10(9 * f0) + Horner(fracs[..f0])
    ensures var whole := Unscaled(m, l, l.IntWordCount()) * Pow10(l.FracDigits());
            && PrintedFraction(l, fracs) < Pow10(l.FracDigits())
            && whole + PrintedFraction(l, fracs) <= Unscaled(m, l, GroupCount(l))
            && (GroupFits(m, l, GroupCount(l) - 1)
                <==> whole + PrintedFraction(l, fracs) == Unscaled(m, l, GroupCount(l)))
  {
    hide Group, ScaleTail, SignedWord, Pow, Pow10, Offset;
    var n, f0, w := l.IntWordCount(), l.frac0, l.frac0x;
    var g, y := Group(m, l, n + f0), fracs[f0];
    assert Size(l, n + f0) == DIG2BYTES[w] && Width(l, n + f0) == w;
    TailDigits(g, w);
    assert fracs[..f0] == fracs[..|fracs| - 1];
    ShortLastWord(Unscaled(m, l, n), Horner(fracs[..f0]), y, g, f0, w);
  }

  /** Joining the full fraction words and a short last one. */
  lemma ShortLastWord(whole: nat, h: nat, y: nat, g: nat, f0: nat, w: nat)
    requires 1 <= w <= 8 && y <= DIG_MAX && h < Pow10(9 * f0) && y / Pow10(9 - w) < Pow10(w)
    requires g < Pow10(w) ==> y / Pow10(9 - w) == g
    ensures var printed := (h * DIG_BASE + y) / Pow10(9 - w);
            var exact := (whole * Pow10(9 * f0) + h) * Pow10(w) + g;
            && whole * Pow10(9 * f0 + w) + printed <= exact
            && printed < Pow10(9 * f0 + w)
            && (whole * Pow10(9 * f0 + w) + printed == exact <==> g < Pow10(w))
  {
    var p, q := Pow10(9 - w), Pow10(w);
    PowAdd(10, 9 - w, w);
    PowAdd(10, 9 * f0, w);
    Pow10Table();
    Regrouped(h, p, q, y);
    Widen(whole, Pow10(9 * f0), h, g, q);
    MulGap(h, Pow10(9 * f0), q);
  }

  lemma FractionValue(from: seq<Byte>, l: Layout)
    requires from != [] && l.Valid() && l.skip == 0 && l.End() <= |from| && Accepted(from, l)
    ensures FracGroups(Magnitude(from), l, Fracs(from, l))
  {
    hide FracWord, Magnitude, Group, ScaleTail, SignedWord, Pow, FullWord, WordsInRange, Accepted, Offset, FlipSign;
    AcceptedInRange(from, l);
    OffsetFormula(l, GroupCount(l));
    forall i | 0 <= i < l.frac0
      ensures FullWord(Magnitude(from), l, l.IntWordCount() + i, Fracs(from, l)[i])
    {
      AcceptedFrac(from, l, i);
    }
    if l.frac0x > 0 {
      FracWordIsGroup(from, l, l.frac0);
    }
  }

  // ---- well-formedness, in terms of the accepted words ------------------------------

  lemma {:induction false} AllGroupsFit(m: seq<Byte>, l: Layout, n: nat)
    requires l.Valid() && n <= GroupCount(l) && Offset(l, n) <= |m|
    requires forall k :: 0 <= k < n ==> FitsAt(m, l, k)
    ensures GroupsFit(m, l, n)
  {
    if n > 0 {
      assert FitsAt(m, l, n - 1);
      AllGroupsFit(m, l, n - 1);
    }
  }

  predicate FitsAt(m: seq<Byte>, l: Layout, k: nat)
    requires l.Valid() && k < GroupCount(l)
  {
    Offset(l, k + 1) <= |m| && GroupFits(m, l, k)
  }

  lemma {:induction false} EachGroupFits(m: seq<Byte>, l: Layout, n: nat, k: nat)
    requires l.Valid() && k < n <= GroupCount(l) && Offset(l, n) <= |m| && GroupsFit(m, l, n)
    ensures FitsAt(m, l, k)
    decreases n
  {
    if k < n - 1 {
      EachGroupFits(m, l, n - 1, k);
    }
  }

  lemma FullWordFits(m: seq<Byte>, l: Layout, k: nat, w: int)
    requires l.Valid() && k < GroupCount(l) && FullWord(m, l, k, w)
    ensures FitsAt(m, l, k)
  {
    Pow10Table();
  }

  /** Only the short groups at the two ends can be too large in an accepted encoding. */
  lemma WellFormedEnds(from: seq<Byte>, precision: nat, scale: nat)
    requires Encoding(from, precision, scale)
    requires Accepted(from, FullLayout(precision, scale))
    ensures var l := FullLayout(precision, scale);
            var m := Magnitude(from);
            && Offset(l, GroupCount(l)) <= |m|
            && (WellFormed(from, precision, scale)
                <==> LeadFits(from, l) && (l.frac0x == 0 || GroupFits(m, l, GroupCount(l) - 1)))
  {
    hide Magnitude, Group, IntWord, FracWord;
    var l, m, n := FullLayout(precision, scale), Magnitude(from), Count(precision, scale);
    if WellFormed(from, precision, scale) {
      if l.intg0x > 0 {
        EachGroupFits(m, l, n, 0);
        AcceptedInt(from, l, 0);
      }
    } else {
      if LeadFits(from, l) && (l.frac0x == 0 || GroupFits(m, l, n - 1)) {
        forall k | 0 <= k < n
          ensures FitsAt(m, l, k)
        {
          MiddleGroupFits(from, l, k);
        }
        AllGroupsFit(m, l, n);
      }
    }
  }

  /** The leading integer word has no more digits than the metadata allows. */
  predicate LeadFits(from: seq<Byte>, l: Layout)
    requires from != [] && l.Valid() && l.End() <= |from|
  {
    l.intg0x > 0 ==> Ints(from, l)[0] < Pow10(l.intg0x)
  }

  lemma MiddleGroupFits(from: seq<Byte>, l: Layout, k: nat)
    requires from != [] && l.Valid() && l.skip == 0 && l.End() <= |from| && Accepted(from, l)
    requires k < GroupCount(l) && LeadFits(from, l)
    requires l.frac0x == 0 || FitsAt(Magnitude(from), l, GroupCount(l) - 1)
    ensures FitsAt(Magnitude(from), l, k)
  {
    hide Magnitude, Group, IntWord, FracWord;
    if k < l.IntWordCount() {
      AcceptedInt(from, l, k);
      if k > 0 || l.intg0x == 0 {
        FullWordFits(Magnitude(from), l, k, Ints(from, l)[k]);
      }
    } else if k - l.IntWordCount() < l.frac0 {
      AcceptedFrac(from, l, k - l.IntWordCount());
      FullWordFits(Magnitude(from), l, k, Fracs(from, l)[k - l.IntWordCount()]);
    }
  }

  // ---- the text ----------------------------------------------------------------------

  lemma {:induction false} StrippedWords(words: seq<int>)
    requires WordsInRange(words)
    ensures var kept := StripZeros(words);
            && |kept| <= |words| && kept == words[|words| - |kept|..]
            && WordsInRange(kept) && Horner(kept) == Horner(words)
            && (kept != [] ==> kept[0] != 0)
            && (|kept| < |words| ==> words[0] == 0)
  {
    if words != [] && words[0] == 0 {
      HornerHead(words);
      StrippedWords(words[1..]);
    } else {
      assert words[0..] == words;
    }
  }

  lemma DigitsOnly(words: seq<int>, n: nat)
    requires WordsInRange(words) && n <= 9 * |words|
    ensures forall i :: 0 <= i < n ==> IsDigit(IntText(words, n)[i]) && IsDigit(FracText(words, n)[i])
  {
    forall i | 0 <= i < n
      ensures IsDigit(IntText(words, n)[i]) && IsDigit(FracText(words, n)[i])
    {
      DigitCharValue(IntDigit(words, n - 1 - i));
      DigitCharValue(FracDigit(words, i));
    }
  }

  /** Reading the printed text back finds its three parts. */
  lemma TextReadsBack(sign: bool, words: seq<int>, intg: nat, frac: nat)
    requires |words| >= RoundUp(intg) + RoundUp(frac) && WordsInRange(words)
    ensures ReadNumeral(TextOf(sign, words, intg, frac))
         == Numeral(sign, if intg == 0 then "0" else IntText(words[..RoundUp(intg)], intg),
                    FracText(words[RoundUp(intg)..], frac))
  {
    hide IntText, FracText, RoundUp, ReadNumeral;
    RoundUpBounds(intg);
    RoundUpBounds(frac);
    TextParts(words, intg, frac);
    DigitsOnly(words[..RoundUp(intg)], intg);
    var ints := if intg == 0 then "0" else IntText(words[..RoundUp(intg)], intg);
    var fracs := FracText(words[RoundUp(intg)..], frac);
    ReadsBack(sign, ints, fracs);
    assert TextOf(sign, words, intg, frac)
        == (if sign then "-" else "") + (ints + if fracs != "" then "." + fracs else "");
  }

  lemma ReadsBack(sign: bool, ints: string, fracs: string)
    requires ints != "" && forall i :: 0 <= i < |ints| ==> IsDigit(ints[i])
    ensures ReadNumeral((if sign then "-" else "") + (ints + if fracs != "" then "." + fracs else ""))
         == Numeral(sign, ints, fracs)
  {
    hide PointAt;
    var rest := if fracs != "" then "." + fracs else "";
    var body := ints + rest;
    var text := (if sign then "-" else "") + body;
    PointAfterDigits(ints, rest);
    assert text[if sign then 1 else 0..] == body;
    assert body[0] == ints[0] != '-';
    BodyParts(ints, fracs);
  }

  lemma BodyParts(ints: string, fracs: string)
    ensures var rest := if fracs != "" then "." + fracs else "";
            var body := ints + rest;
            && body[..|ints|] == ints && |ints| <= |body|
            && (fracs != "" <==> |ints| < |body|)
            && (fracs != "" ==> body[|ints| + 1..] == fracs)
  {
  }

  lemma TextParts(words: seq<int>, intg: nat, frac: nat)
    requires |words| >= RoundUp(intg) + RoundUp(frac) && WordsInRange(words)
    ensures |IntText(words[..RoundUp(intg)], intg)| == intg
    ensures |FracText(words[RoundUp(intg)..], frac)| == frac
  {
  }

  // ---- decode, then print ------------------------------------------------------------

  const MAX_PRECISION := 65
  const MAX_SCALE := 30

  /** Nine words hold every column type: nothing is cut on decoding. */
  lemma NoCutting(precision: nat, scale: nat)
    requires scale <= precision <= MAX_PRECISION && scale <= MAX_SCALE
    ensures FitLayout(FullLayout(precision, scale), DECIMAL_BUFF_LENGTH) == (FullLayout(precision, scale), E_DEC_OK)
  {
  }

  /** What the decoder returns for an encoding it does not reject. */
  lemma DecodedWords(from: seq<Byte>, precision: nat, scale: nat)
    requires Encoding(from, precision, scale) && precision <= MAX_PRECISION && scale <= MAX_SCALE
    ensures var l := FullLayout(precision, scale);
            Decoded(from, precision, scale, DECIMAL_BUFF_LENGTH)
            == if Accepted(from, l)
               then (E_DEC_OK, Assembled(IsNegative(from), l, StripZeros(Ints(from, l)), Fracs(from, l)))
               else (E_DEC_BAD_NUM, ZERO)
  {
    NoCutting(precision, scale);
    assert from[..DecimalBinSize(precision, scale)] == from;
  }

  lemma SignificantPositive(kept: seq<int>, intg: nat)
    requires WordsInRange(kept) && |kept| == RoundUp(intg)
    requires kept != [] ==> kept[0] != 0
    ensures Significant(kept, intg).0 == 0
    ensures intg > 0 ==> Significant(kept, intg).1 > 0
  {
    hide Significant, Horner;
    SkipsNothing(kept, intg);
    SignificantValue(kept, intg);
    RoundUpBounds(intg);
    RoundUpBounds(Significant(kept, intg).1);
  }

  /** The printer's view of a number whose integer words do not start with zero. */
  lemma PrintableWords(kept: seq<int>, fracs: seq<int>, sign: bool, intg: nat, frac: nat)
    requires WordsInRange(kept) && WordsInRange(fracs)
    requires |kept| == RoundUp(intg) && |fracs| == RoundUp(frac) && intg + frac > 0
    requires kept != [] ==> kept[0] != 0
    ensures Significant(kept, intg).0 == 0
    ensures Printable(Dec(sign, intg, frac, kept + fracs)) == (kept + fracs, Significant(kept, intg).1)
  {
    hide CountLeadingZeroes, RoundUp, DigitsLeft, WordsInRange;
    assert kept[..RoundUp(intg)] == kept && (kept + fracs)[..RoundUp(intg)] == kept;
    assert (kept + fracs)[0..] == kept + fracs;
    SignificantPositive(kept, intg);
  }

  lemma WordsTogether(a: seq<int>, b: seq<int>)
    requires WordsInRange(a) && WordsInRange(b)
    ensures WordsInRange(a + b)
  {
  }

  /** The value of the text, given what is printed on each side of the point. */
  lemma TextValue(sign: bool, kept: seq<int>, fracs: seq<int>, g: nat, l: Layout)
    requires l.Valid() && WordsInRange(kept) && WordsInRange(fracs)
    requires |kept| == RoundUp(g) && |fracs| == l.FracWordCount() == RoundUp(l.FracDigits())
    requires g == 0 <==> Horner(kept) == 0
    ensures WordsInRange(kept + fracs)
    ensures NumeralValue(TextOf(sign, kept + fracs, g, l.FracDigits()))
         == Signed(sign, Horner(kept) % Pow10(g) * Pow10(l.FracDigits()) + PrintedFraction(l, fracs))
  {
    hide IntText, FracText, Horner, RoundUp, ParseDigits, TextOf, ReadNumeral, WordsInRange, Pow;
    RoundUpBounds(g);
    RoundUpBounds(l.FracDigits());
    var words, frac := kept + fracs, l.FracDigits();
    WordsTogether(kept, fracs);
    assert words[..RoundUp(g)] == kept && words[RoundUp(g)..] == fracs;
    TextReadsBack(sign, words, g, frac);
    TextParts(words, g, frac);
    ParseIntText(kept, g);
    ParseFracText(fracs, frac);
    ParseZero();
    Pow10Table();
    ParseConcat(if g == 0 then "0" else IntText(kept, g), FracText(fracs, frac));
  }

  lemma ParseZero()
    ensures ParseDigits("0") == 0
  {
    assert "0"[..0] == "";
  }

  /** No leading zero is printed when the leading word fits. */
  lemma TextCanonical(sign: bool, kept: seq<int>, fracs: seq<int>, g: nat, frac: nat)
    requires WordsInRange(kept) && WordsInRange(fracs)
    requires |kept| == RoundUp(g) && |fracs| == RoundUp(frac)
    requires g > 0 ==> Pow10(g - 1) <= Horner(kept) < Pow10(g)
    ensures WordsInRange(kept + fracs)
    ensures CanonicalNumeral(TextOf(sign, kept + fracs, g, frac), frac)
  {
    hide IntText, FracText, Horner, RoundUp, TextOf, LowDigit;
    RoundUpBounds(g);
    RoundUpBounds(frac);
    var words := kept + fracs;
    assert words[..RoundUp(g)] == kept && words[RoundUp(g)..] == fracs;
    TextReadsBack(sign, words, g, frac);
    TextParts(words, g, frac);
    DigitsOnly(kept, g);
    DigitsOnly(fracs, frac);
    if g > 0 {
      ParseIntText(kept, g);
      TopDigitNonzero(Horner(kept), g);
    }
  }

  lemma TopDigitNonzero(h: nat, g: nat)
    requires g > 0 && Pow10(g - 1) <= h < Pow10(g)
    ensures DigitChar(LowDigit(h, g - 1)) != '0'
  {
    var p := Pow10(g - 1);
    QuotientBound(h, 10, p);
    if h / p == 0 {
      QuotientAndRemainder(h, p);
    }
    DigitCharValue(LowDigit(h, g - 1));
  }

  /** The digits of the first word kept: short only if it is the leading one. */
  lemma LeadWidth(l: Layout, kept: nat)
    requires l.Valid() && 0 < kept <= l.IntWordCount()
    ensures var intg := DigitsLeft(kept, l.IntWordCount(), l.IntDigits());
            intg > 0 && (intg - 1) % 9 + 1 == if kept == l.IntWordCount() && l.intg0x > 0 then l.intg0x else 9
  {
  }

  /** What the printer has to print of an accepted encoding: the integer words without leading zero
      words, the fraction words, and the number of integer digits. */
  datatype Parts = Parts(kept: seq<int>, fracs: seq<int>, g: nat)

  predicate Printing(parts: Parts, scale: nat) {
    && WordsInRange(parts.kept) && WordsInRange(parts.fracs)
    && |parts.kept| == RoundUp(parts.g) && |parts.fracs| == RoundUp(scale)
    && (parts.g == 0 <==> Horner(parts.kept) == 0)
    && (parts.g > 0 ==> Pow10(parts.g - 1) <= Horner(parts.kept))
  }

  function KeptDigits(from: seq<Byte>, l: Layout): nat
    requires from != [] && l.Valid() && l.End() <= |from|
  {
    DigitsLeft(|StripZeros(Ints(from, l))|, l.IntWordCount(), l.IntDigits())
  }

  lemma KeptDigitsCount(from: seq<Byte>, l: Layout)
    requires from != [] && l.Valid() && l.End() <= |from|
    ensures RoundUp(KeptDigits(from, l)) == |StripZeros(Ints(from, l))|
    ensures |Fracs(from, l)| == RoundUp(l.FracDigits())
    ensures KeptDigits(from, l) <= l.IntDigits()
  {
    hide IntWord, FracWord, RoundUp;
    WordCounts(l, |StripZeros(Ints(from, l))|);
  }

  function PartsOf(from: seq<Byte>, l: Layout): (parts: Parts)
    requires from != [] && l.Valid() && l.End() <= |from| && Accepted(from, l)
    ensures Printing(parts, l.FracDigits())
    ensures parts.g <= l.IntDigits()
  {
    PartsArePrintable(from, l);
    Parts(StripZeros(Ints(from, l)), Fracs(from, l), Significant(StripZeros(Ints(from, l)), KeptDigits(from, l)).1)
  }

  lemma PartsArePrintable(from: seq<Byte>, l: Layout)
    requires from != [] && l.Valid() && l.End() <= |from| && Accepted(from, l)
    ensures var kept := StripZeros(Ints(from, l));
            && |kept| >= RoundUp(KeptDigits(from, l))
            && var g := Significant(kept, KeptDigits(from, l)).1;
            && g <= l.IntDigits()
            && Printing(Parts(kept, Fracs(from, l), g), l.FracDigits())
  {
    hide Ints, Fracs, Accepted, Significant, RoundUp, Horner, KeptDigits, StripZeros, Pow;
    var kept, intg := StripZeros(Ints(from, l)), KeptDigits(from, l);
    AcceptedInRange(from, l);
    StrippedWords(Ints(from, l));
    KeptDigitsCount(from, l);
    SignificantValue(kept, intg);
    SignificantShrinks(kept, intg);
    SkipsNothing(kept, intg);
  }

  lemma SignificantShrinks(words: seq<int>, intg: nat)
    requires |words| >= RoundUp(intg)
    ensures Significant(words, intg).1 <= intg
  {
    RoundUpBounds(intg);
  }

  lemma SkipsNothing(kept: seq<int>, intg: nat)
    requires |kept| == RoundUp(intg) && (kept != [] ==> kept[0] != 0)
    ensures Significant(kept, intg).0 == 0
  {
    assert kept[..RoundUp(intg)] == kept;
  }

  /** The integer part of the text is exact precisely when the leading word fits. */
  lemma LeadDecides(from: seq<Byte>, l: Layout)
    requires from != [] && l.Valid() && l.End() <= |from| && Accepted(from, l)
    ensures LeadFits(from, l) <==> Horner(PartsOf(from, l).kept) < Pow10(PartsOf(from, l).g)
  {
    hide IntWord, Horner, Significant, RoundUp, Pow, Fracs, Printing, Accepted, StripZeros;
    AcceptedInRange(from, l);
    StrippedWords(Ints(from, l));
    KeptDigitsCount(from, l);
    var ints, kept, intg := Ints(from, l), StripZeros(Ints(from, l)), KeptDigits(from, l);
    SignificantValue(kept, intg);
    Pow10Table();
    if kept != [] {
      LeadWidth(l, |kept|);
      assert kept[0] == ints[|ints| - |kept|];
    } else if l.intg0x > 0 {
      assert ints[0] == 0;
    }
  }

  /** The text printed for an encoding, as the column reader obtains it. */
  function ColumnText(from: seq<Byte>, precision: nat, scale: nat): (r: (int, string))
    requires Encoding(from, precision, scale) && precision <= MAX_PRECISION && scale <= MAX_SCALE
  {
    DecodedPrintable(from, precision, scale);
    Printed(Decoded(from, precision, scale, DECIMAL_BUFF_LENGTH).1, DECIMAL_MAX_STR_LENGTH)
  }

  /** Whatever the decoder leaves behind, the printer accepts. */
  lemma DecodedPrintable(from: seq<Byte>, precision: nat, scale: nat)
    requires Encoding(from, precision, scale) && precision <= MAX_PRECISION && scale <= MAX_SCALE
    ensures var d := Decoded(from, precision, scale, DECIMAL_BUFF_LENGTH).1;
            |d.words| == RoundUp(d.intg) + RoundUp(d.frac) && WordsInRange(d.words)
  {
    var l := FullLayout(precision, scale);
    DecodedWords(from, precision, scale);
    if Accepted(from, l) {
      AcceptedInRange(from, l);
      StrippedWords(Ints(from, l));
      WordCounts(l, |StripZeros(Ints(from, l))|);
    }
  }

  /** The number zero with no fraction digits: the decoder's special case. */
  lemma ZeroColumn(from: seq<Byte>, precision: nat, scale: nat)
    requires Encoding(from, precision, scale) && precision <= MAX_PRECISION && scale <= MAX_SCALE
    requires Accepted(from, FullLayout(precision, scale))
    requires StripZeros(Ints(from, FullLayout(precision, scale))) == [] && scale == 0
    ensures ColumnText(from, precision, scale) == (E_DEC_OK, "0")
    ensures WellFormed(from, precision, scale) && SignedDenoted(from, precision, scale) == 0
    ensures NumeralValue("0") == 0 && CanonicalNumeral("0", 0)
  {
    var l := FullLayout(precision, scale);
    var ints := Ints(from, l);
    AcceptedInRange(from, l);
    StrippedWords(ints);
    WellFormedEnds(from, precision, scale);
    assert ints[0] == 0;
    IntegerValue(from, l);
    FractionValue(from, l);
    FractionGroups(Magnitude(from), l, Fracs(from, l));
    PrintedZero();
    DecodedWords(from, precision, scale);
    DecodedPrintable(from, precision, scale);
    assert Decoded(from, precision, scale, DECIMAL_BUFF_LENGTH).1 == ZERO;
  }

  lemma PrintedZero()
    ensures RoundUp(1) == 1 && RoundUp(0) == 0
    ensures Printed(ZERO, DECIMAL_MAX_STR_LENGTH) == (E_DEC_OK, "0")
    ensures NumeralValue("0") == 0 && CanonicalNumeral("0", 0)
  {
    assert [0][..1] == [0];
    assert Significant([0], 1) == (1, 0);
    assert Printable(ZERO) == ([0], 1);
    Pow10Table();
    assert IntText([0], 1) == "0";
    assert TextOf(false, [0], 1, 0) == "0";
    ParseZero();
    assert "0"[..1] == "0";
    assert PointAt("0") == 1 by { assert "0"[1..] == ""; }
    assert ReadNumeral("0") == Numeral(false, "0", "");
    assert "0" + "" == "0";
  }

  /** The text has room, so it is printed whole. */
  lemma ColumnTextIs(from: seq<Byte>, precision: nat, scale: nat)
    requires Encoding(from, precision, scale) && precision <= MAX_PRECISION && scale <= MAX_SCALE
    requires Accepted(from, FullLayout(precision, scale))
    requires var parts := PartsOf(from, FullLayout(precision, scale)); parts.kept != [] || scale > 0
    ensures var parts := PartsOf(from, FullLayout(precision, scale));
            && WordsInRange(parts.kept + parts.fracs)
            && ColumnText(from, precision, scale)
               == (E_DEC_OK, TextOf(IsNegative(from), parts.kept + parts.fracs, parts.g, scale))
  {
    hide Ints, Fracs, Significant, RoundUp, TextOf, Printable, Accepted, StripZeros, IsNegative;
    var l := FullLayout(precision, scale);
    AcceptedInRange(from, l);
    StrippedWords(Ints(from, l));
    KeptDigitsCount(from, l);
    RoundUpBounds(KeptDigits(from, l));
    PrintableWords(StripZeros(Ints(from, l)), Fracs(from, l), IsNegative(from), KeptDigits(from, l), scale);
    DecodedWords(from, precision, scale);
    DecodedPrintable(from, precision, scale);
  }

  /** The number printed, in units of its last digit. */
  function PrintedSum(parts: Parts, l: Layout): nat
    requires l.Valid() && Printing(parts, l.FracDigits())
  {
    WordCounts(l, 0);
    Horner(parts.kept) % Pow10(parts.g) * Pow10(l.FracDigits()) + PrintedFraction(l, parts.fracs)
  }

  /** The same, had no integer digit been lost. */
  function FullSum(parts: Parts, l: Layout): nat
    requires l.Valid() && Printing(parts, l.FracDigits())
  {
    WordCounts(l, 0);
    Horner(parts.kept) * Pow10(l.FracDigits()) + PrintedFraction(l, parts.fracs)
  }

  lemma PrintedText(sign: bool, parts: Parts, l: Layout)
    requires l.Valid() && Printing(parts, l.FracDigits())
    ensures WordsInRange(parts.kept + parts.fracs)
    ensures var text := TextOf(sign, parts.kept + parts.fracs, parts.g, l.FracDigits());
            && |ReadNumeral(text).fracDigits| == l.FracDigits()
            && NumeralValue(text) == Signed(sign, PrintedSum(parts, l))
            && (Horner(parts.kept) < Pow10(parts.g) ==> CanonicalNumeral(text, l.FracDigits()))
  {
    hide Horner, TextOf, PrintedFraction, Pow, NumeralValue, ReadNumeral, CanonicalNumeral, RoundUp;
    WordCounts(l, 0);
    TextReadsBack(sign, parts.kept + parts.fracs, parts.g, l.FracDigits());
    TextParts(parts.kept + parts.fracs, parts.g, l.FracDigits());
    TextValue(sign, parts.kept, parts.fracs, parts.g, l);
    if Horner(parts.kept) < Pow10(parts.g) {
      TextCanonical(sign, parts.kept, parts.fracs, parts.g, l.FracDigits());
    }
  }

  /** The exact value against what is printed on the two sides of the point. */
  lemma ColumnValue(from: seq<Byte>, precision: nat, scale: nat)
    requires Encoding(from, precision, scale)
    requires Accepted(from, FullLayout(precision, scale))
    ensures var l := FullLayout(precision, scale);
            var parts, exact := PartsOf(from, l), Denoted(from, precision, scale);
            && FullSum(parts, l) <= exact
            && (WellFormed(from, precision, scale)
                <==> Horner(parts.kept) < Pow10(parts.g) && FullSum(parts, l) == exact)
  {
    hide Horner, Significant, RoundUp, PrintedFraction, Magnitude, Unscaled, Pow, LeadFits,
         Accepted, GroupFits, FracGroups, Ints, Fracs, WellFormed;
    var l := FullLayout(precision, scale);
    AcceptedInRange(from, l);
    StrippedWords(Ints(from, l));
    LeadDecides(from, l);
    WellFormedEnds(from, precision, scale);
    IntegerValue(from, l);
    FractionValue(from, l);
    FractionGroups(Magnitude(from), l, Fracs(from, l));
  }

  /** Printing an accepted encoding never cuts, and gives a numeral with `scale` fraction digits. The numeral
      has the encoded value if and only if every group is below 10^(its digits), and it is then canonical. */
  lemma AcceptedPrints(from: seq<Byte>, precision: nat, scale: nat)
    requires Encoding(from, precision, scale) && precision <= MAX_PRECISION && scale <= MAX_SCALE
    requires Accepted(from, FullLayout(precision, scale))
    ensures ColumnText(from, precision, scale).0 == E_DEC_OK
    ensures |ReadNumeral(ColumnText(from, precision, scale).1).fracDigits| == scale
    ensures NumeralValue(ColumnText(from, precision, scale).1) == SignedDenoted(from, precision, scale)
            <==> WellFormed(from, precision, scale)
    ensures WellFormed(from, precision, scale) ==> CanonicalNumeral(ColumnText(from, precision, scale).1, scale)
  {
    hide Accepted, Horner, TextOf, NumeralValue, CanonicalNumeral, Pow, WellFormed, ReadNumeral, Denoted,
         ColumnText, IsNegative, WordsInRange, PartsOf, Printing, Assembled, StripZeros, Decoded, DecimalBinSize,
         PrintedSum, FullSum;
    var l := FullLayout(precision, scale);
    DecodedWords(from, precision, scale);
    var parts := PartsOf(from, l);
    if parts.kept == [] && scale == 0 {
      PartsKept(from, l);
      ZeroColumn(from, precision, scale);
    } else {
      ColumnTextIs(from, precision, scale);
      PrintedText(IsNegative(from), parts, l);
      ColumnValue(from, precision, scale);
      ExactColumn(parts, l, Denoted(from, precision, scale));
    }
  }

  lemma PartsKept(from: seq<Byte>, l: Layout)
    requires from != [] && l.Valid() && l.End() <= |from| && Accepted(from, l)
    ensures PartsOf(from, l).kept == StripZeros(Ints(from, l))
  {
  }

  lemma ExactColumn(parts: Parts, l: Layout, exact: nat)
    requires l.Valid() && Printing(parts, l.FracDigits()) && FullSum(parts, l) <= exact
    ensures PrintedSum(parts, l) == exact <==> Horner(parts.kept) < Pow10(parts.g) && FullSum(parts, l) == exact
  {
    hide Horner, PrintedFraction, Pow;
    WordCounts(l, 0);
    ExactSum(Horner(parts.kept), Pow10(parts.g), Pow10(l.FracDigits()), PrintedFraction(l, parts.fracs), exact);
  }

  /** The printed sum is the exact one only if both parts are. */
  lemma ExactSum(whole: nat, p: nat, q: nat, frac: nat, exact: nat)
    requires p > 0 && q > 0 && whole * q + frac <= exact
    ensures whole % p * q + frac == exact <==> whole < p && whole * q + frac == exact
  {
    if whole < p {
      DivModUnique(whole, p, 0, whole);
    } else {
      QuotientAndRemainder(whole, p);
      MulGap(whole % p, whole, q);
    }
  }

  // ---- well-formed encodings are accepted ----------------------------------------------

  lemma SmallWord(n: nat, w: nat, g: nat)
    requires 1 <= w <= 9 && n == DIG2BYTES[w] && g < Pow10(w)
    ensures SignedWord(n, g) == g
  {
    TenBelow256(w);
  }

  lemma SmallTail(g: nat, w: nat)
    requires 1 <= w < 9 && g < Pow10(w)
    ensures 0 <= ScaleTail(g, w) <= DIG_MAX
  {
    Pow10Table();
    PowAdd(10, w, 9 - w);
    MulGap(g, Pow10(w), Pow10(9 - w));
    MulMonotone(0, g, Pow10(9 - w));
    var x := g * Pow10(9 - w);
    DivModUnique(x, 0x1_0000_0000, 0, x);
  }

  lemma FittingInt(from: seq<Byte>, l: Layout, k: nat)
    requires from != [] && l.Valid() && l.skip == 0 && l.End() <= |from| && k < l.IntWordCount()
    requires FitsAt(Magnitude(from), l, k)
    ensures Accepts(k == 0, l.intg0x, Ints(from, l)[k])
  {
    hide IntWord, Magnitude, Group, SignedWord, FlipSign, Pow;
    IntWordIsGroup(from, l, k);
    SmallWord(Size(l, k), Width(l, k), Group(Magnitude(from), l, k));
    Pow10Table();
    PowMonotone(10, l.intg0x, l.intg0x + 1);
  }

  lemma FittingFrac(from: seq<Byte>, l: Layout, k: nat)
    requires from != [] && l.Valid() && l.skip == 0 && l.End() <= |from| && k < l.FracWordCount()
    requires FitsAt(Magnitude(from), l, l.IntWordCount() + k)
    ensures Accepts(false, 0, Fracs(from, l)[k])
  {
    hide FracWord, Magnitude, Group, SignedWord, FlipSign, ScaleTail, Pow;
    var n := l.IntWordCount() + k;
    FracWordIsGroup(from, l, k);
    SmallWord(Size(l, n), Width(l, n), Group(Magnitude(from), l, n));
    Pow10Table();
    if k == l.frac0 {
      SmallTail(Group(Magnitude(from), l, n), l.frac0x);
    }
  }

  lemma WellFormedIsAccepted(from: seq<Byte>, precision: nat, scale: nat)
    requires Encoding(from, precision, scale) && WellFormed(from, precision, scale)
    ensures Accepted(from, FullLayout(precision, scale))
  {
    hide Magnitude, IntWordsAccepted, FracWordsAccepted, Offset, GroupsFit, Ints, Fracs;
    var n := Count(precision, scale);
    FittingInts(from, FullLayout(precision, scale));
    FittingFracs(from, FullLayout(precision, scale));
  }

  lemma FittingInts(from: seq<Byte>, l: Layout)
    requires from != [] && l.Valid() && l.skip == 0 && l.End() <= |from| && Offset(l, GroupCount(l)) <= |from|
    requires GroupsFit(Magnitude(from), l, GroupCount(l))
    ensures IntWordsAccepted(Ints(from, l), l)
  {
    hide Magnitude, IntWord, Accepts, FitsAt, GroupsFit, Offset;
    forall k | 0 <= k < l.IntWordCount() ensures Accepts(k == 0, l.intg0x, Ints(from, l)[k]) {
      EachGroupFits(Magnitude(from), l, GroupCount(l), k);
      FittingInt(from, l, k);
    }
  }

  lemma FittingFracs(from: seq<Byte>, l: Layout)
    requires from != [] && l.Valid() && l.skip == 0 && l.End() <= |from| && Offset(l, GroupCount(l)) <= |from|
    requires GroupsFit(Magnitude(from), l, GroupCount(l))
    ensures FracWordsAccepted(Fracs(from, l))
  {
    hide Magnitude, FracWord, Accepts, FitsAt, GroupsFit, Offset;
    forall k | 0 <= k < l.FracWordCount() ensures Accepts(false, 0, Fracs(from, l)[k]) {
      EachGroupFits(Magnitude(from), l, GroupCount(l), l.IntWordCount() + k);
      FittingFrac(from, l, k);
    }
  }

  /** For every byte string of a column: decoding either refuses it or cuts nothing, printing cuts nothing and
      gives `scale` fraction digits, and the encoding is well-formed if and only if it is accepted and prints as
      its value. The text is then canonical. */
  lemma DecodeThenPrint(from: seq<Byte>, precision: nat, scale: nat)
    requires Encoding(from, precision, scale) && precision <= MAX_PRECISION && scale <= MAX_SCALE
    ensures var decoding := Decoded(from, precision, scale, DECIMAL_BUFF_LENGTH).0;
            var (printing, text) := ColumnText(from, precision, scale);
            && (decoding == E_DEC_OK || decoding == E_DEC_BAD_NUM)
            && (decoding == E_DEC_OK ==> printing == E_DEC_OK && |ReadNumeral(text).fracDigits| == scale)
            && (WellFormed(from, precision, scale)
                <==> decoding == E_DEC_OK && NumeralValue(text) == SignedDenoted(from, precision, scale))
            && (WellFormed(from, precision, scale) ==> CanonicalNumeral(text, scale))
  {
    hide ColumnText, WellFormed, NumeralValue, CanonicalNumeral, ReadNumeral;
    hide SignedDenoted, Accepted, Assembled, FullLayout;
    DecodedWords(from, precision, scale);
    hide Decoded;
    if WellFormed(from, precision, scale) {
      WellFormedIsAccepted(from, precision, scale);
    }
    if Accepted(from, FullLayout(precision, scale)) {
      AcceptedPrints(from, precision, scale);
    }
  }

  /** Two well-formed encodings compare byte by byte as the numerals that the reader prints for them, except that
      -0 comes before +0; and different encodings are different numerals or the two zeroes. */
  lemma PrintedOrder(a: seq<Byte>, b: seq<Byte>, precision: nat, scale: nat)
    requires Encoding(a, precision, scale) && WellFormed(a, precision, scale)
    requires Encoding(b, precision, scale) && WellFormed(b, precision, scale)
    requires precision <= MAX_PRECISION && scale <= MAX_SCALE
    ensures var x := NumeralValue(ColumnText(a, precision, scale).1);
            var y := NumeralValue(ColumnText(b, precision, scale).1);
            && (LexLess(a, b) <==> x < y || (x == y == 0 && IsNegative(a) && !IsNegative(b)))
            && (a == b <==> x == y && IsNegative(a) == IsNegative(b))
  {
    hide *;
    DecodeThenPrint(a, precision, scale);
    DecodeThenPrint(b, precision, scale);
    EncodingOrder(a, b, precision, scale);
  }

  /** A NEWDECIMAL column as the row reader prints it. */
  method PrintColumn(from: seq<Byte>, precision: nat, scale: nat) returns (error: int, text: string)
    requires Encoding(from, precision, scale) && precision <= MAX_PRECISION && scale <= MAX_SCALE
    ensures (error, text) == ColumnText(from, precision, scale)
  {
    hide Decoded, Printed, WordsInRange, DecimalBinSize, RoundUp;
    DecodedPrintable(from, precision, scale);
    var dec := new Decimal(DECIMAL_BUFF_LENGTH);
    var _ := Bin2Decimal(from, dec, precision, scale);
    var buff := new char[DECIMAL_MAX_STR_LENGTH + 1];
    var len;
    error, len := Decimal2String(dec, buff, DECIMAL_MAX_STR_LENGTH);
    text := buff[..len];
  }

  // ---- an encoding that is accepted and misprinted ---------------------------------------

  /** The byte 0x8C as DECIMAL(1,0): a leading group of one digit that holds 12. */
  predicate Twelve(from: seq<Byte>, precision: nat, scale: nat) {
    from == [0x8C] && precision == 1 && scale == 0
  }

  /** It is decoded without error, to the word 12 with one integer digit, and printed as 2. */
  lemma ExtraDigitLost(from: seq<Byte>, precision: nat, scale: nat)
    requires Twelve(from, precision, scale)
    ensures Encoding(from, precision, scale)
    ensures Decoded(from, precision, scale, DECIMAL_BUFF_LENGTH) == (E_DEC_OK, Dec(false, 1, 0, [12]))
    ensures ColumnText(from, precision, scale) == (E_DEC_OK, "2")
  {
    hide ColumnText, Decoded, Printed;
    TwelveDecoded(from, precision, scale);
    DecodedPrintable(from, precision, scale);
    ColumnTextUnfolds(from, precision, scale);
    TwelvePrinted(Decoded(from, precision, scale, DECIMAL_BUFF_LENGTH).1);
  }

  lemma ColumnTextUnfolds(from: seq<Byte>, precision: nat, scale: nat)
    requires Encoding(from, precision, scale) && precision <= MAX_PRECISION && scale <= MAX_SCALE
    ensures var d := Decoded(from, precision, scale, DECIMAL_BUFF_LENGTH).1;
            && |d.words| == RoundUp(d.intg) + RoundUp(d.frac) && WordsInRange(d.words)
            && ColumnText(from, precision, scale) == Printed(d, DECIMAL_MAX_STR_LENGTH)
  {
    DecodedPrintable(from, precision, scale);
  }

  /** A column of one short group: what it denotes is the number its bytes spell without the sign, and it is
      well-formed exactly when that number has no more digits than the column. */
  lemma ShortColumn(from: seq<Byte>, precision: nat)
    requires Encoding(from, precision, 0) && precision <= 8
    ensures SignedDenoted(from, precision, 0) == Signed(IsNegative(from), BigEndian(Magnitude(from)))
    ensures WellFormed(from, precision, 0) <==> BigEndian(Magnitude(from)) < Pow10(precision)
  {
    hide Magnitude, BigEndian, Pow10, Pow, DecimalBinSize;
    var l, m := FullLayout(precision, 0), Magnitude(from);
    assert l == Layout(0, precision, 0, 0, 0);
    assert Offset(l, 0) == 0 && Offset(l, 1) == |m|;
    assert m[0..|m|] == m;
    assert Group(m, l, 0) == BigEndian(m);
    assert Unscaled(m, l, 0) == 0 && Unscaled(m, l, 1) == BigEndian(m);
    assert GroupsFit(m, l, 1) <==> GroupFits(m, l, 0);
  }

  lemma TwelveDecoded(from: seq<Byte>, precision: nat, scale: nat)
    requires Twelve(from, precision, scale)
    ensures Encoding(from, precision, scale)
    ensures Decoded(from, precision, scale, DECIMAL_BUFF_LENGTH) == (E_DEC_OK, Dec(false, 1, 0, [12]))
  {
    var l := FullLayout(precision, scale);
    Pow10Table();
    assert l == Layout(0, 1, 0, 0, 0);
    var raw := FlipSign(from);
    assert raw == [12] && raw[0..1] == raw;
    var ints := Ints(from, l);
    assert ints == [12] && Fracs(from, l) == [];
    DecodedWords(from, precision, scale);
    assert StripZeros(ints) == ints;
    assert ints + [] == ints;
  }

  lemma TwelvePrinted(d: Dec)
    requires d == Dec(false, 1, 0, [12])
    ensures |d.words| == RoundUp(d.intg) + RoundUp(d.frac) && WordsInRange(d.words)
    ensures Printed(d, DECIMAL_MAX_STR_LENGTH) == (E_DEC_OK, "2")
  {
    hide Significant, IntText, FracText, DigitChar;
    TwelveDigits(d.words, d.intg);
    assert d.words[..1] == d.words && d.words[0..] == d.words;
    assert "" + "2" + "" == "2";
  }

  lemma TwelveDigits(words: seq<int>, intg: nat)
    requires words == [12] && intg == 1
    ensures RoundUp(intg) == 1 && Significant(words, intg) == (0, 1)
    ensures WordsInRange(words) && IntText(words, intg) == "2"
  {
    hide LowDigit;
    Pow10Table();
    assert words[..1] == words;
    assert IntDigit(words, 0) == LowDigit(words[0], 0) == 2 by {
      LowDigitTwelve(words[0]);
    }
    assert IntText(words, intg) == [DigitChar(2)];
  }

  lemma LowDigitTwelve(w: int)
    requires w == 12
    ensures LowDigit(w, 0) == 2
  {
    Pow10Table();
  }
}
