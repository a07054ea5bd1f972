/** Bytes, powers, C division and big-endian numbers: the vocabulary of the codecs. */
module Arith {

  type Byte = b: int | 0 <= b < 256

  /** C's `/`: the quotient is truncated toward zero. */
  function CDiv(a: int, b: int): int
    requires b > 0
  {
    if a >= 0 then a / b else -((-a) / b)
  }

  /** C's `%`: the remainder takes the sign of the dividend. */
  function CRem(a: int, b: int): int
    requires b > 0
  {
    if a >= 0 then a % b else -((-a) % b)
  }

  function Pow(b: nat, n: nat): (r: nat)
    ensures b > 0 ==> r > 0
  {
    if n == 0 then 1 else b * Pow(b, n - 1)
  }

  lemma PowStep(b: nat, n: nat)
    requires n > 0
    ensures Pow(b, n) == b * Pow(b, n - 1)
  {
  }

  function Pow10(n: nat): (r: nat)
    ensures r > 0
  {
    Pow(10, n)
  }

  lemma MulAssociative(a: int, b: int, c: int)
    ensures a * (b * c) == (a * b) * c
  {
  }

  lemma {:induction false} PowAdd(b: nat, m: nat, n: nat)
    ensures Pow(b, m + n) == Pow(b, m) * Pow(b, n)
  {
    if m > 0 {
      PowAdd(b, m - 1, n);
      MulAssociative(b, Pow(b, m - 1), Pow(b, n));
    }
  }

  lemma {:induction false} PowMonotone(b: nat, m: nat, n: nat)
    requires b > 0 && m <= n
    ensures Pow(b, m) <= Pow(b, n)
  {
    PowAdd(b, m, n - m);
    assert Pow(b, m) * 1 <= Pow(b, m) * Pow(b, n - m);
  }

  lemma Pow10Table()
    ensures Pow10(0) == 1 && Pow10(1) == 10 && Pow10(2) == 100 && Pow10(3) == 1000 && Pow10(4) == 10000
    ensures Pow10(5) == 100000 && Pow10(6) == 1000000 && Pow10(7) == 10000000 && Pow10(8) == 100000000
    ensures Pow10(9) == 1000000000
  {
  }

  lemma Pow256Table()
    ensures Pow(256, 0) == 1 && Pow(256, 1) == 256 && Pow(256, 2) == 65536
    ensures Pow(256, 3) == 16777216 && Pow(256, 4) == 4294967296
  {
  }

  // ---- division --------------------------------------------------------------------

  lemma MulMonotone(a: int, b: int, c: int)
    requires a <= b && c >= 0
    ensures a * c <= b * c
  {
  }

  lemma MulGap(a: int, b: int, c: int)
    requires a < b && c >= 0
    ensures a * c + c <= b * c
  {
    MulMonotone(a + 1, b, c);
    assert (a + 1) * c == a * c + c;
  }

  /** Quotient and remainder are the only pair with the remainder in range. */
  lemma DivModUnique(a: int, d: int, q: int, r: int)
    requires d > 0 && 0 <= r < d && a == q * d + r
    ensures a / d == q && a % d == r
  {
    var q', r' := a / d, a % d;
    assert a == q' * d + r' && 0 <= r' < d;
    if q' > q {
      MulGap(q, q', d);
    } else if q' < q {
      MulGap(q', q, d);
    }
  }

  lemma DivDiv(a: int, b: nat, c: nat)
    requires b > 0 && c > 0
    ensures b * c > 0 && a / b / c == a / (b * c)
  {
    var q, r := a / b, a % b;
    var q2, r2 := q / c, q % c;
    ProductPositive(b, c);
    Regroup(a, b, c, q, r, q2, r2);
    DivModUnique(a, b * c, q2, r2 * b + r);
  }

  lemma ProductPositive(b: nat, c: nat)
    requires b > 0 && c > 0
    ensures b * c > 0
  {
    MulMonotone(1, b, c);
  }

  /** Two divisions in a row, as one by the product. */
  lemma Regroup(a: int, b: nat, c: nat, q: int, r: nat, q2: int, r2: nat)
    requires a == q * b + r && q == q2 * c + r2 && r < b && r2 < c
    ensures a == q2 * (b * c) + (r2 * b + r)
    ensures 0 <= r2 * b + r < b * c
  {
    assert q * b == (q2 * c) * b + r2 * b;
    MulAssociative(q2, c, b);
    MulMonotone(0, r2, b);
    MulGap(r2, c, b);
  }

  /** Splitting off the lowest digit before reducing commutes with reducing first. */
  lemma ModSplit(m: int, b: nat, p: nat)
    requires b > 0 && p > 0
    ensures b * p > 0 && m % (b * p) == ((m / b) % p) * b + m % b
  {
    ProductPositive(b, p);
    Regroup(m, b, p, m / b, m % b, m / b / p, (m / b) % p);
    DivModUnique(m, b * p, m / b / p, ((m / b) % p) * b + m % b);
  }

  /** One Horner step keeps order when the digits are below the radix. */
  lemma HornerStep(a: nat, b: nat, r: nat, x: nat, y: nat)
    requires x < r && y < r
    ensures a * r + x < b * r + y <==> a < b || (a == b && x < y)
    ensures a * r + x == b * r + y <==> a == b && x == y
  {
    if a < b {
      MulGap(a, b, r);
    } else if b < a {
      MulGap(b, a, r);
    }
  }

  function Signed(negative: bool, magnitude: nat): int {
    if negative then 0 - magnitude else magnitude
  }

  lemma Reassociate<T>(a: seq<T>, b: seq<T>, c: seq<T>)
    ensures a + b + c == a + (b + c)
  {
  }

  lemma TakeOneMore<T>(s: seq<T>, i: nat)
    requires i < |s|
    ensures s[..i + 1] == s[..i] + [s[i]]
  {
  }

  // ---- big-endian byte strings -----------------------------------------------------

  function BigEndian(s: seq<Byte>): (n: nat)
    ensures n < Pow(256, |s|)
  {
    if s == [] then 0
    else
      var front := BigEndian(s[..|s| - 1]);
      assert front * 256 <= (Pow(256, |s| - 1) - 1) * 256;
      front * 256 + s[|s| - 1]
  }

  lemma {:induction false} BigEndianConcat(s: seq<Byte>, t: seq<Byte>)
    ensures BigEndian(s + t) == BigEndian(s) * Pow(256, |t|) + BigEndian(t)
  {
    if t == [] {
      assert s + t == s;
    } else {
      BigEndianConcat(s, t[..|t| - 1]);
      assert (s + t)[..|s + t| - 1] == s + t[..|t| - 1];
      MulAssociative(BigEndian(s), Pow(256, |t| - 1), 256);
    }
  }

  function Complement(s: seq<Byte>): (r: seq<Byte>)
    ensures |r| == |s| && forall i :: 0 <= i < |s| ==> r[i] == 255 - s[i]
  {
    seq(|s|, i requires 0 <= i < |s| => 255 - s[i])
  }

  lemma {:induction false} BigEndianComplement(s: seq<Byte>)
    ensures BigEndian(Complement(s)) == Pow(256, |s|) - 1 - BigEndian(s)
  {
    if s != [] {
      BigEndianComplement(s[..|s| - 1]);
      assert Complement(s)[..|s| - 1] == Complement(s[..|s| - 1]);
    }
  }

  /** Byte-wise lexicographic order, as memcmp decides it. */
  predicate LexLess(a: seq<Byte>, b: seq<Byte>)
    requires |a| == |b|
  {
    a != [] && (a[0] < b[0] || (a[0] == b[0] && LexLess(a[1..], b[1..])))
  }

  lemma {:induction false} BigEndianHead(s: seq<Byte>)
    requires s != []
    ensures BigEndian(s) == s[0] * Pow(256, |s| - 1) + BigEndian(s[1..])
  {
    assert [s[0]] + s[1..] == s;
    BigEndianConcat([s[0]], s[1..]);
    assert BigEndian([s[0]]) == s[0];
  }

  /** memcmp on equal-length strings is the order of the numbers they spell. */
  lemma {:induction false} LexIsNumeric(a: seq<Byte>, b: seq<Byte>)
    requires |a| == |b|
    ensures LexLess(a, b) <==> BigEndian(a) < BigEndian(b)
    ensures a == b <==> BigEndian(a) == BigEndian(b)
  {
    if a != [] {
      LexIsNumeric(a[1..], b[1..]);
      BigEndianHead(a);
      BigEndianHead(b);
      var p := Pow(256, |a| - 1);
      if a[0] < b[0] {
        TopDigitDecides(a[0], b[0], p, BigEndian(a[1..]), BigEndian(b[1..]));
      } else if a[0] > b[0] {
        TopDigitDecides(b[0], a[0], p, BigEndian(b[1..]), BigEndian(a[1..]));
      } else {
        assert a == [a[0]] + a[1..] && b == [b[0]] + b[1..];
      }
    }
  }

  lemma TopDigitDecides(i: int, j: int, p: nat, x: nat, y: nat)
    requires i < j && x < p
    ensures i * p + x < j * p + y
  {
    MulGap(i, j, p);
  }
}
