/** MD5 over a stream of updates (public/Md5.cpp), against sections 3.1 to 3.5 of RFC 1321. */
module Md5 {
  import opened Arith
  import opened Md5Words

  type Bytes = seq<bv8>

  const TWO29 := 0x2000_0000
  const TWO32 := 0x1_0000_0000
  const TWO61 := 0x2000_0000_0000_0000
  const TWO64 := 0x1_0000_0000_0000_0000

  const INIT := Regs64(0x67452301, 0xEFCDAB89, 0x98BADCFE, 0x10325476)

  // ---- blocks ------------------------------------------------------------------------------

  /** The state after the complete blocks of a message. */
  function Fold(state: Regs64, data: Bytes): Regs64
    decreases |data|
  {
    if |data| < 64 then state else Fold(Process64(state, data[..64]), data[64..])
  }

  /** What is left after the complete blocks. */
  function Rest(data: Bytes): (r: Bytes)
    ensures |r| == |data| % 64
  {
    data[|data| - |data| % 64..]
  }

  lemma FirstBlock(state: Regs64, s: Bytes, x: Bytes)
    requires |s| >= 64
    ensures Fold(state, s + x) == Fold(Process64(state, s[..64]), s[64..] + x)
    ensures Fold(state, s) == Fold(Process64(state, s[..64]), s[64..])
    ensures Rest(s[64..]) == Rest(s) && Rest(s[64..] + x) == Rest(s + x)
    ensures |s[64..]| % 64 == |s| % 64 && |s[64..] + x| % 64 == |s + x| % 64
  {
    hide Process64;
    assert (s + x)[..64] == s[..64] && (s + x)[64..] == s[64..] + x;
    RestOfTail(s);
    RestOfTail(s + x);
  }

  lemma RestOfTail(s: Bytes)
    requires |s| >= 64
    ensures Rest(s[64..]) == Rest(s) && |s[64..]| % 64 == |s| % 64
  {
  }

  lemma NoBlock(state: Regs64, s: Bytes)
    requires |s| < 64
    ensures Fold(state, s) == state && Rest(s) == s
  {
  }

  lemma OneBlock(state: Regs64, s: Bytes)
    requires |s| == 64
    ensures Fold(state, s) == Process64(state, s)
  {
    hide Process64;
    assert s[..64] == s && s[64..] == [];
    NoBlock(Process64(state, s), []);
  }

  /** Bytes that complete a block are processed with what was left. */
  lemma {:induction false} FoldCompletes(state: Regs64, s: Bytes, x: Bytes)
    requires |s| % 64 + |x| == 64
    ensures Fold(state, s + x) == Process64(Fold(state, s), Rest(s) + x) && |s + x| % 64 == 0
    decreases |s|
  {
    hide Process64, Fold, Rest;
    if |s| < 64 {
      NoBlock(state, s);
      OneBlock(state, s + x);
    } else {
      FirstBlock(state, s, x);
      FoldCompletes(Process64(state, s[..64]), s[64..], x);
    }
  }

  /** Bytes that do not are left over with the others. */
  lemma {:induction false} FoldWaits(state: Regs64, s: Bytes, x: Bytes)
    requires |s| % 64 + |x| < 64
    ensures Fold(state, s + x) == Fold(state, s) && Rest(s + x) == Rest(s) + x
    decreases |s|
  {
    hide Process64, Fold, Rest;
    if |s| < 64 {
      NoBlock(state, s);
      NoBlock(state, s + x);
    } else {
      FirstBlock(state, s, x);
      FoldWaits(Process64(state, s[..64]), s[64..], x);
    }
  }

  // ---- the bit count -------------------------------------------------------------------------

  /** How md5_update advances total[0] and total[1], in 64-bit arithmetic: the comparison is with the whole of
      `length << 3`, not with its low 32 bits. */
  function Count(total0: nat, total1: nat, length: nat): (nat, nat) {
    var bits := 8 * length % TWO64;
    var low := (total0 + bits) % TWO64 % TWO32;
    var high := (total1 + length / TWO29) % TWO64;
    (low, (high + if low < bits then 1 else 0) % TWO64)
  }

  lemma LowCount(total0: nat, total1: nat, length: nat)
    ensures Count(total0, total1, length).0 == (total0 + 8 * length) % TWO32
  {
    var bits := 8 * length % TWO64;
    var q, k := 8 * length / TWO64, (total0 + bits) / TWO64;
    var low := (total0 + bits) % TWO64;
    assert total0 + 8 * length == (k * TWO32 + q * TWO32 + low / TWO32) * TWO32 + low % TWO32;
    DivModUnique(total0 + 8 * length, TWO32, k * TWO32 + q * TWO32 + low / TWO32, low % TWO32);
  }

  /** The high half of the count is right exactly when the update is shorter than 2^29 bytes or its low half
      carries; otherwise it is one too large. */
  lemma HighCount(total0: nat, total1: nat, length: nat)
    requires total0 < TWO32 && total1 < TWO64 && length < TWO61
    ensures var carries := length < TWO29 || total0 + 8 * length % TWO32 >= TWO32;
            var right := total1 + (total0 + 8 * length) / TWO32;
            Count(total0, total1, length).1 == (if carries then right else right + 1) % TWO64
  {
    var bits := 8 * length;
    var h, l := length / TWO29, bits % TWO32;
    assert bits == h * TWO32 + l by {
      DivModUnique(bits, TWO32, h, 8 * (length % TWO29));
    }
    assert bits % TWO64 == bits;
    LowCount(total0, total1, length);
    var carry := if total0 + l >= TWO32 then 1 else 0;
    DivModUnique(total0 + bits, TWO32, h + carry, total0 + l - carry * TWO32);
    var low := total0 + l - carry * TWO32;
    assert (total0 + bits) / TWO32 == h + carry;
    assert Count(total0, total1, length).0 == low;
    assert low < bits <==> length >= TWO29 || carry == 1;
    var up := if low < bits then 1 else 0;
    AddModulo(total1 + h, up);
  }

  lemma AddModulo(a: nat, b: nat)
    ensures (a % TWO64 + b) % TWO64 == (a + b) % TWO64
  {
    DivModUnique(a + b, TWO64, a / TWO64 + (a % TWO64 + b) / TWO64, (a % TWO64 + b) % TWO64);
  }

  function U8(n: nat): bv8
    requires n < 0x100
  {
    n as bv8
  }

  /** PUT_UINT32 of a number: its low 32 bits, low byte first. */
  function PutNat(n: nat): (s: Bytes)
    ensures |s| == 4
  {
    [U8(n % 0x100), U8(n / 0x100 % 0x100), U8(n / 0x1_0000 % 0x100), U8(n / 0x100_0000 % 0x100)]
  }

  // ---- RFC 1321 --------------------------------------------------------------------------------

  /** Section 3.1: at least one byte, up to 56 modulo 64. */
  function PadLength(n: nat): (k: nat)
    ensures 1 <= k <= 64 && (n + k) % 64 == 56
  {
    1 + (55 - n) % 64
  }

  function Padding(n: nat): (s: Bytes)
    ensures |s| == PadLength(n)
  {
    seq(PadLength(n), i => if i == 0 then 0x80 else 0)
  }

  /** Section 3.2: the number of bits, 64 bits of it, low byte first. */
  function LengthBytes(bits: nat): (s: Bytes)
    ensures |s| == 8
  {
    [(bits % 0x100) as bv8, (bits / 0x100 % 0x100) as bv8,
     (bits / 0x1_0000 % 0x100) as bv8, (bits / 0x100_0000 % 0x100) as bv8,
     (bits / 0x1_0000_0000 % 0x100) as bv8, (bits / 0x100_0000_0000 % 0x100) as bv8,
     (bits / 0x1_0000_0000_0000 % 0x100) as bv8, (bits / 0x100_0000_0000_0000 % 0x100) as bv8]
  }

  function Padded(m: Bytes): Bytes {
    m + Padding(|m|) + LengthBytes(8 * |m|)
  }

  function Fold32(state: Regs32, data: Bytes): Regs32
    decreases |data|
  {
    if |data| < 64 then state else Fold32(Process32(state, data[..64]), data[64..])
  }

  function Bytes32(r: Regs32): Bytes {
    Put32(r.a) + Put32(r.b) + Put32(r.c) + Put32(r.d)
  }

  function Bytes64(r: Regs64): Bytes {
    Put64(r.a) + Put64(r.b) + Put64(r.c) + Put64(r.d)
  }

  /** The digest of a message by the RFC, in 32-bit words. */
  function Rfc1321(m: Bytes): Bytes {
    Bytes32(Fold32(Regs32(0x67452301, 0xEFCDAB89, 0x98BADCFE, 0x10325476), Padded(m)))
  }

  lemma {:induction false} LowFold(state: Regs64, data: Bytes)
    ensures Fold(state, data).Low() == Fold32(state.Low(), data)
    decreases |data|
  {
    hide Process64, Process32, Regs64.Low;
    if |data| >= 64 {
      WidthIndependence(state, data[..64]);
      LowFold(Process64(state, data[..64]), data[64..]);
    }
  }

  lemma LowBytes(r: Regs64)
    ensures Bytes64(r) == Bytes32(r.Low())
  {
    hide Put64, Put32, Low;
    LowPut(r.a);
    LowPut(r.b);
    LowPut(r.c);
    LowPut(r.d);
  }

  lemma InitIsLow()
    ensures INIT.Low() == Regs32(0x67452301, 0xEFCDAB89, 0x98BADCFE, 0x10325476)
  {
  }

  /** Processing the padded message in 64-bit words gives the digest of the RFC. */
  lemma DigestIsRfc1321(m: Bytes)
    ensures Bytes64(Fold(INIT, Padded(m))) == Rfc1321(m)
  {
    hide Fold, Fold32, Bytes64, Bytes32, Padded, Regs64.Low;
    LowFold(INIT, Padded(m));
    LowBytes(Fold(INIT, Padded(m)));
    InitIsLow();
  }

  // ---- the program -----------------------------------------------------------------------------

  const MD5_PADDING: Bytes := seq(64, i => if i == 0 then 0x80 else 0)

  class Context {
    var total0: nat
    var total1: nat
    var state: Regs64
    const buffer: array<bv8>

    /** The context after the bytes `seen`, whatever the updates they came in. */
    ghost predicate After(seen: Bytes)
      reads this, buffer
    {
      && buffer.Length == 64
      && state == Fold(INIT, seen)
      && buffer[..|seen| % 64] == Rest(seen)
      && total0 == 8 * |seen| % TWO32 && total1 < TWO64
    }

    /** The count is the number of bits modulo 2^64. */
    ghost predicate Counts(seen: Bytes)
      reads this
    {
      total1 % TWO32 == 8 * |seen| / TWO32 % TWO32
    }

    /** md5_starts. */
    constructor ()
      ensures After([]) && total0 == total1 == 0 && fresh(buffer)
    {
      total0, total1, state := 0, 0, INIT;
      buffer := new bv8[64];
    }

    /** md5_process: 64 steps on four local words. */
    method Process(data: Bytes)
      requires |data| == 64
      modifies this`state
      ensures state == Process64(old(state), data)
    {
      hide Step64;
      var r := state;
      for i := 0 to 64
        invariant r == Steps64(i, state, data) && state == old(state)
      {
        r := Step64(i / 16, i % 16, r, data);
      }
      state := Regs64(Add64(state.a, r.a), Add64(state.b, r.b), Add64(state.c, r.c), Add64(state.d, r.d));
    }

    /** memcpy into the buffer. */
    method Copy(at: nat, input: Bytes)
      requires at + |input| <= buffer.Length
      modifies buffer
      ensures buffer[..at + |input|] == old(buffer[..at]) + input
    {
      forall i | 0 <= i < |input| {
        buffer[at + i] := input[i];
      }
    }

    /** The loop over the blocks of the input from `at` on. */
    method ProcessBlocks(input: Bytes, at0: nat, ghost seen: Bytes) returns (at: nat)
      requires at0 <= |input| && state == Fold(INIT, seen + input[..at0])
      requires |input| - at0 >= 64 ==> |seen + input[..at0]| % 64 == 0
      modifies this`state
      ensures at0 <= at <= |input| && |input| - at < 64 && state == Fold(INIT, seen + input[..at])
      ensures at == at0 || |seen + input[..at]| % 64 == 0
    {
      hide Fold, Process64;
      at := at0;
      while |input| - at >= 64
        invariant at0 <= at <= |input| && state == Fold(INIT, seen + input[..at])
        invariant at == at0 || |seen + input[..at]| % 64 == 0
      {
        NextBlock(seen, input, at);
        Process(input[at..at + 64]);
        at := at + 64;
      }
    }

    /** md5_update, past the counts. */
    method Absorb(input: Bytes, left0: nat, ghost seen: Bytes)
      requires buffer.Length == 64 && left0 == |seen| % 64
      requires state == Fold(INIT, seen) && buffer[..left0] == Rest(seen)
      modifies this`state, buffer
      ensures state == Fold(INIT, seen + input) && buffer[..|seen + input| % 64] == Rest(seen + input)
    {
      hide Fold, Process64, Rest;
      var left, fill := left0, 64 - left0;
      var at: nat := 0;
      assert seen + input[..at] == seen;
      if left != 0 && |input| >= fill {
        Copy(left, input[..fill]);
        FoldCompletes(INIT, seen, input[..fill]);
        assert buffer[..] == buffer[..64];
        Process(buffer[..]);
        at := fill;
        left := 0;
      }
      at := ProcessBlocks(input, at, seen);
      Remainder(seen, input, at, left);
      if at < |input| {
        Copy(left, input[at..]);
      }
    }

    /** md5_update. */
    method Update(input: Bytes, ghost seen: Bytes)
      requires After(seen)
      modifies this, buffer
      ensures After(seen + input)
      ensures (total0, total1) == Count(old(total0), old(total1), |input|)
    {
      hide Fold, Process64, Count, Rest;
      if |input| == 0 {
        NothingSeen(seen, input, total0, total1);
        return;
      }
      var left := total0 / 8 % 64;
      LeftOver(|seen|);
      AdvanceTotal(seen, input, total0, total1);
      AdvanceCounts(|input|);
      Absorb(input, left, seen);
    }

    method AdvanceCounts(length: nat)
      modifies this`total0, this`total1
      ensures (total0, total1) == Count(old(total0), old(total1), length)
    {
      total0 := total0 + 8 * length % TWO64;
      total1 := (total1 + length / TWO29) % TWO64;
      total0 := total0 % TWO64 % TWO32;
      total1 := (total1 + if total0 < 8 * length % TWO64 then 1 else 0) % TWO64;
    }

    /** md5_finish. */
    method Finish(ghost seen: Bytes) returns (digest: Bytes)
      requires After(seen)
      modifies this, buffer
      ensures digest == Bytes64(Fold(INIT, seen + Padding(|seen|) + (PutNat(old(total0)) + PutNat(old(total1)))))
    {
      hide Fold, Bytes64, Padding, PutNat;
      var msglen := PutNat(total0) + PutNat(total1);
      var last := total0 / 8 % 64;
      var padn := if last < 56 then 56 - last else 120 - last;
      LeftOver(|seen|);
      PadsAsRfc(|seen|, padn);
      Update(MD5_PADDING[..padn], seen);
      Update(msglen, seen + Padding(|seen|));
      digest := Bytes64(state);
    }
  }

  lemma NextBlock(seen: Bytes, input: Bytes, at: nat)
    requires at + 64 <= |input| && |seen + input[..at]| % 64 == 0
    ensures Fold(INIT, seen + input[..at + 64]) == Process64(Fold(INIT, seen + input[..at]), input[at..at + 64])
    ensures |seen + input[..at + 64]| % 64 == 0
  {
    hide Fold, Process64;
    var here, block := seen + input[..at], input[at..at + 64];
    FoldCompletes(INIT, here, block);
    assert Rest(here) + block == block;
    assert here + block == seen + input[..at + 64];
  }

  /** What is left of the input goes to the buffer, behind what was left before if no block was completed. */
  lemma Remainder(seen: Bytes, input: Bytes, at: nat, left: nat)
    requires at <= |input| && |input| - at < 64
    requires left == |seen + input[..at]| % 64 && left + |input| - at < 64
    ensures Fold(INIT, seen + input) == Fold(INIT, seen + input[..at])
    ensures Rest(seen + input) == Rest(seen + input[..at]) + input[at..]
    ensures |seen + input| % 64 == left + |input| - at
    ensures |Rest(seen + input[..at])| == left
  {
    hide Fold;
    FoldWaits(INIT, seen + input[..at], input[at..]);
    assert seen + input[..at] + input[at..] == seen + input;
  }

  lemma LeftOver(n: nat)
    ensures 8 * n % TWO32 / 8 % 64 == n % 64
  {
    var q, r := 8 * n / TWO32, 8 * n % TWO32;
    assert r == 8 * (n - q * TWO29);
    DivModUnique(r, 8, n - q * TWO29, 0);
    DivModUnique(n - q * TWO29, 64, n / 64 - q * (TWO29 / 64), n % 64);
  }

  lemma NothingSeen(seen: Bytes, input: Bytes, total0: nat, total1: nat)
    requires input == [] && total0 < TWO32 && total1 < TWO64
    ensures seen + input == seen && Count(total0, total1, |input|) == (total0, total1)
  {
  }

  lemma AdvanceTotal(seen: Bytes, input: Bytes, total0: nat, total1: nat)
    requires total0 == 8 * |seen| % TWO32
    ensures Count(total0, total1, |input|).0 == 8 * |seen + input| % TWO32
    ensures Count(total0, total1, |input|).1 < TWO64
  {
    LowCount(total0, total1, |input|);
    var q := 8 * |seen| / TWO32;
    var x := total0 + 8 * |input|;
    DivModUnique(8 * |seen + input|, TWO32, q + x / TWO32, x % TWO32);
  }

  lemma PadsAsRfc(n: nat, padn: nat)
    requires padn == if n % 64 < 56 then 56 - n % 64 else 120 - n % 64
    ensures padn <= 64 && MD5_PADDING[..padn] == Padding(n)
  {
    assert padn == PadLength(n) by {
      if n % 64 < 56 {
        DivModUnique(55 - n, 64, 0 - n / 64, 55 - n % 64);
      } else {
        DivModUnique(55 - n, 64, -1 - n / 64, 119 - n % 64);
      }
    }
  }

  // ---- the results -----------------------------------------------------------------------------

  lemma SameLength(t0: nat, t1: nat, bits: nat)
    requires t0 == bits % TWO32 && t1 % TWO32 == bits / TWO32 % TWO32
    ensures PutNat(t0) + PutNat(t1) == LengthBytes(bits)
  {
    hide PutNat, LengthBytes;
    PutLow(t1);
    PutLow(bits / TWO32);
    PutLow(bits);
    PutTwice(bits);
  }

  /** The two halves of the count, each low byte first. */
  lemma PutTwice(bits: nat)
    ensures PutNat(bits) + PutNat(bits / TWO32) == LengthBytes(bits)
  {
    DivDiv(bits, TWO32, 0x100);
    DivDiv(bits, TWO32, 0x1_0000);
    DivDiv(bits, TWO32, 0x100_0000);
  }

  lemma PutLow(n: nat)
    ensures PutNat(n) == PutNat(n % TWO32)
  {
    var q, r := n / TWO32, n % TWO32;
    LowDigits(q, r, 0x100, 0x100_0000);
    LowDigits(q, r, 0x1_0000, 0x1_0000);
    LowDigits(q, r, 0x100_0000, 0x100);
    LowDigits(q, r, 1, TWO32);
  }

  lemma LowDigits(q: nat, r: nat, p: nat, rest: nat)
    requires p > 0 && p * rest == TWO32 && rest % 0x100 == 0
    ensures (q * TWO32 + r) / p % 0x100 == r / p % 0x100
  {
    MulAssociative(q, p, rest);
    assert q * TWO32 == (q * rest) * p by {
      assert q * TWO32 == q * (p * rest);
      MulAssociative(q, rest, p);
    }
    DivModUnique(q * TWO32 + r, p, q * rest + r / p, r % p);
    var c := rest / 0x100;
    MulAssociative(q, c, 0x100);
    assert q * rest == (q * c) * 0x100;
    DivModUnique(q * rest + r / p, 0x100, q * c + r / p / 0x100, r / p % 0x100);
  }

  /** Whatever the split of a message into updates shorter than 2^29 bytes, the digest is that of the RFC. */
  method DigestOfUpdates(chunks: seq<Bytes>) returns (digest: Bytes)
    requires forall c <- chunks :: |c| < TWO29
    ensures digest == Rfc1321(Concat(chunks))
  {
    hide Fold, Rfc1321, Padding, LengthBytes;
    var ctx := new Context();
    ghost var seen: Bytes := [];
    for i := 0 to |chunks|
      invariant fresh(ctx) && fresh(ctx.buffer)
      invariant seen == Concat(chunks[..i]) && ctx.After(seen) && ctx.Counts(seen)
    {
      CountsOn(seen, chunks[i], ctx.total0, ctx.total1);
      ctx.Update(chunks[i], seen);
      ConcatStep(chunks, i);
      seen := seen + chunks[i];
    }
    assert chunks[..|chunks|] == chunks;
    SameLength(ctx.total0, ctx.total1, 8 * |seen|);
    digest := ctx.Finish(seen);
    DigestIsRfc1321(seen);
  }

  function Concat(chunks: seq<Bytes>): Bytes {
    if chunks == [] then [] else Concat(chunks[..|chunks| - 1]) + chunks[|chunks| - 1]
  }

  lemma ConcatStep(chunks: seq<Bytes>, i: nat)
    requires i < |chunks|
    ensures Concat(chunks[..i + 1]) == Concat(chunks[..i]) + chunks[i]
  {
    assert chunks[..i + 1][..i] == chunks[..i];
  }

  lemma CountsOn(seen: Bytes, input: Bytes, total0: nat, total1: nat)
    requires total0 == 8 * |seen| % TWO32 && total1 < TWO64 && |input| < TWO29
    requires total1 % TWO32 == 8 * |seen| / TWO32 % TWO32
    ensures Count(total0, total1, |input|).1 % TWO32 == 8 * |seen + input| / TWO32 % TWO32
  {
    HighCount(total0, total1, |input|);
    var q := 8 * |seen| / TWO32;
    var x := total0 + 8 * |input|;
    DivModUnique(8 * |seen + input|, TWO32, q + x / TWO32, x % TWO32);
    var right := total1 + x / TWO32;
    ModuloOfModulo(right);
    SumsAgree(total1, q, x / TWO32);
  }

  lemma ModuloOfModulo(a: nat)
    ensures a % TWO64 % TWO32 == a % TWO32
  {
    var k, r := a / TWO64, a % TWO64;
    DivModUnique(a, TWO32, k * TWO32 + r / TWO32, r % TWO32);
  }

  lemma SumsAgree(a: nat, b: nat, c: nat)
    requires a % TWO32 == b % TWO32
    ensures (a + c) % TWO32 == (b + c) % TWO32
  {
    var x := a % TWO32 + c;
    DivModUnique(a + c, TWO32, a / TWO32 + x / TWO32, x % TWO32);
    DivModUnique(b + c, TWO32, b / TWO32 + x / TWO32, x % TWO32);
  }

  /** GenerateMD5: one update with the whole buffer. From 2^29 bytes on the length that is processed is 2^32
      bits too large. */
  method GenerateMD5(buffer: Bytes) returns (data: Bytes)
    requires |buffer| < 0x8000_0000
    ensures data == Bytes64(Fold(INIT, buffer + Padding(|buffer|)
                                       + LengthBytes(8 * |buffer| + if |buffer| < TWO29 then 0 else TWO32)))
    ensures |buffer| < TWO29 ==> data == Rfc1321(buffer)
  {
    hide Fold, Rfc1321, Padding, LengthBytes, Bytes64;
    var context := new Context();
    context.Update(buffer, []);
    assert [] + buffer == buffer;
    OneUpdate(|buffer|);
    SameLength(context.total0, context.total1, 8 * |buffer| + if |buffer| < TWO29 then 0 else TWO32);
    data := context.Finish(buffer);
    DigestIsRfc1321(buffer);
  }

  lemma OneUpdate(n: nat)
    requires n < 0x8000_0000
    ensures var bits := 8 * n + if n < TWO29 then 0 else TWO32;
            && Count(0, 0, n).0 == bits % TWO32
            && Count(0, 0, n).1 % TWO32 == bits / TWO32 % TWO32
  {
    hide Count;
    LowCount(0, 0, n);
    HighCount(0, 0, n);
    var q, r := 8 * n / TWO32, 8 * n % TWO32;
    if n >= TWO29 {
      DivModUnique(8 * n + TWO32, TWO32, q + 1, r);
    }
    ModuloOfModulo(q + 1);
    ModuloOfModulo(q);
  }

  /** So the processed message is the padded message of the RFC exactly below 2^29 bytes. */
  lemma PaddedExactlyWhenShort(m: Bytes)
    requires |m| < 0x8000_0000
    ensures m + Padding(|m|) + LengthBytes(8 * |m| + if |m| < TWO29 then 0 else TWO32) == Padded(m)
       <==> |m| < TWO29
  {
    hide Padding;
    if |m| >= TWO29 {
      var n := |m + Padding(|m|)|;
      var wrong := m + Padding(|m|) + LengthBytes(8 * |m| + TWO32);
      assert wrong[n..] == LengthBytes(8 * |m| + TWO32) && Padded(m)[n..] == LengthBytes(8 * |m|);
      HighByteDiffers(8 * |m|);
    }
  }

  lemma HighByteDiffers(bits: nat)
    requires bits < 4 * TWO32
    ensures LengthBytes(bits + TWO32)[4] != LengthBytes(bits)[4]
  {
    hide LengthBytes;
    var h := bits / TWO32;
    DivModUnique(bits + TWO32, TWO32, h + 1, bits % TWO32);
    assert h < 4;
    FifthByte(bits, h);
    FifthByte(bits + TWO32, h + 1);
  }

  function SmallByte(h: nat): bv8 {
    match h
    case 0 => 0
    case 1 => 1
    case 2 => 2
    case 3 => 3
    case _ => 4
  }

  lemma FifthByte(bits: nat, h: nat)
    requires bits / TWO32 == h <= 4
    ensures LengthBytes(bits)[4] == SmallByte(h)
  {
    hide U8, LengthBytes;
    SmallBytes();
    PutTwice(bits);
    assert LengthBytes(bits)[4] == PutNat(h)[0] == U8(h);
  }

  lemma SmallBytes()
    ensures U8(0) == 0 && U8(1) == 1 && U8(2) == 2 && U8(3) == 3 && U8(4) == 4
  {
  }
}
