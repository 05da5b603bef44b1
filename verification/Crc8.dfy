/** The bit-serial CRC-8 of the bus headers: division by x^8 + x^2 + x + 1 over GF(2).
    A polynomial is its list of coefficients, highest power first. */
module Crc8 {
  import opened Common

  /** A `uint8_t`, as its bits. */
  datatype Octet = Octet(b7: bool, b6: bool, b5: bool, b4: bool, b3: bool, b2: bool, b1: bool, b0: bool)

  const ZERO := Octet(false, false, false, false, false, false, false, false)

  /** The low coefficients of the divisor, 0x07. */
  const POLY := Octet(false, false, false, false, false, true, true, true)

  /** `crc *= 2`, which drops the top bit. */
  function Double(o: Octet): Octet
  {
    Octet(o.b6, o.b5, o.b4, o.b3, o.b2, o.b1, o.b0, false)
  }

  function XorOctet(x: Octet, y: Octet): Octet
  {
    Octet(x.b7 != y.b7, x.b6 != y.b6, x.b5 != y.b5, x.b4 != y.b4, x.b3 != y.b3, x.b2 != y.b2, x.b1 != y.b1, x.b0 != y.b0)
  }

  function Value(o: Octet): byte
  {
    (if o.b7 then 128 else 0) + (if o.b6 then 64 else 0) + (if o.b5 then 32 else 0) + (if o.b4 then 16 else 0)
    + (if o.b3 then 8 else 0) + (if o.b2 then 4 else 0) + (if o.b1 then 2 else 0) + (if o.b0 then 1 else 0)
  }

  lemma DoubleIsTimesTwo(o: Octet)
    ensures Value(Double(o)) == 2 * Value(o) % 256
  {
    assert 2 * Value(o) == Value(Double(o)) + if o.b7 then 256 else 0;
  }

  /** The bit the mask `0x80 / 2^j` selects. */
  predicate Masked(o: Octet, j: nat)
  {
    if j == 0 then o.b7 else if j == 1 then o.b6 else if j == 2 then o.b5 else if j == 3 then o.b4
    else if j == 4 then o.b3 else if j == 5 then o.b2 else if j == 6 then o.b1 else j == 7 && o.b0
  }

  /** The bits of an octet, most significant first. */
  function BitsOf(o: Octet): (bits: seq<bool>)
    ensures |bits| == 8
  {
    seq(8, j requires 0 <= j < 8 => Masked(o, j))
  }

  function Bits(msg: seq<Octet>): (bits: seq<bool>)
    ensures |bits| == 8 * |msg|
  {
    if msg == [] then [] else Bits(msg[..|msg| - 1]) + BitsOf(msg[|msg| - 1])
  }

  /** One message bit through the shift register: the quotient bit is the old top bit plus the message bit,
      and it is fed back where the divisor has a coefficient. */
  function StepBit(crc: Octet, bit: bool): Octet
  {
    var q := crc.b7 != bit;
    Octet(crc.b6, crc.b5, crc.b4, crc.b3, crc.b2, crc.b1 != q, crc.b0 != q, q)
  }

  function Run(crc: Octet, bits: seq<bool>): Octet
  {
    if bits == [] then crc else StepBit(Run(crc, bits[..|bits| - 1]), bits[|bits| - 1])
  }

  function Crc(msg: seq<Octet>): Octet { Run(ZERO, Bits(msg)) }

  lemma RunNext(done: seq<bool>, p: seq<bool>, j: nat)
    requires j < |p|
    ensures Run(ZERO, done + p[..j + 1]) == StepBit(Run(ZERO, done + p[..j]), p[j])
  {
    assert (done + p[..j + 1])[..|done| + j] == done + p[..j];
  }

  /** The two conditional subtractions of the inner loop are one register step. */
  lemma LoopBody(crc: Octet, bit: bool)
    ensures var doubled := if crc.b7 then XorOctet(Double(crc), POLY) else Double(crc);
            (if bit then XorOctet(doubled, POLY) else doubled) == StepBit(crc, bit)
  {
    if crc.b7 {
      if bit {} else {}
    } else {
      if bit {} else {}
    }
  }

  method Crc8Ponl107(buffer: seq<Octet>) returns (crc: Octet)
    requires |buffer| < 0x1_0000
    ensures crc == Crc(buffer)
  {
    crc := ZERO;
    if |buffer| == 0 {
      return;
    }
    var k, calSize := 0, |buffer|;
    while calSize > 0
      invariant 0 <= k && 0 <= calSize && k + calSize == |buffer| && crc == Crc(buffer[..k])
    {
      calSize := calSize - 1;
      ghost var done := Bits(buffer[..k]);
      ghost var p := BitsOf(buffer[k]);
      assert done + p[..0] == done;
      for j := 0 to 8
        invariant crc == Run(ZERO, done + p[..j])
      {
        ghost var before := crc;
        if crc.b7 {
          crc := Double(crc);
          crc := XorOctet(crc, POLY);
        } else {
          crc := Double(crc);
        }
        if Masked(buffer[k], j) {
          crc := XorOctet(crc, POLY);
        }
        LoopBody(before, p[j]);
        RunNext(done, p, j);
      }
      assert p[..8] == p;
      assert buffer[..k + 1][..k] == buffer[..k];
      k := k + 1;
    }
    assert buffer[..k] == buffer;
  }

  lemma {:induction false} RunConcat(crc: Octet, a: seq<bool>, b: seq<bool>)
    ensures Run(crc, a + b) == Run(Run(crc, a), b)
    decreases |b|
  {
    if b == [] {
      assert a + b == a;
    } else {
      RunConcat(crc, a, b[..|b| - 1]);
      assert (a + b)[..|a + b| - 1] == a + b[..|b| - 1];
    }
  }

  // ----- Linearity ------------------------------------------------------------------------------

  function Xor(a: seq<bool>, b: seq<bool>): (c: seq<bool>)
    requires |a| == |b|
    ensures |c| == |a|
  {
    seq(|a|, k requires 0 <= k < |a| => a[k] != b[k])
  }

  lemma XorMoves(a: bool, b: bool, p: bool, q: bool, c: bool, d: bool)
    ensures ((a != b) != ((p != q) != (c != d))) == ((a != (p != c)) != (b != (q != d)))
  {
  }

  lemma StepLinear(x: Octet, y: Octet, b: bool, c: bool)
    ensures StepBit(XorOctet(x, y), b != c) == XorOctet(StepBit(x, b), StepBit(y, c))
  {
    XorMoves(x.b1, y.b1, x.b7, y.b7, b, c);
    XorMoves(x.b0, y.b0, x.b7, y.b7, b, c);
    XorMoves(false, false, x.b7, y.b7, b, c);
  }

  lemma {:induction false} RunLinear(x: Octet, y: Octet, a: seq<bool>, b: seq<bool>)
    requires |a| == |b|
    ensures Run(XorOctet(x, y), Xor(a, b)) == XorOctet(Run(x, a), Run(y, b))
    decreases |a|
  {
    if a != [] {
      var n := |a| - 1;
      RunLinear(x, y, a[..n], b[..n]);
      assert Xor(a, b)[..n] == Xor(a[..n], b[..n]);
      StepLinear(Run(x, a[..n]), Run(y, b[..n]), a[n], b[n]);
    }
  }

  // ----- A message followed by its CRC byte -----------------------------------------------------

  lemma {:induction false} RunFromFront(crc: Octet, bits: seq<bool>)
    requires bits != []
    ensures Run(crc, bits) == Run(StepBit(crc, bits[0]), bits[1..])
  {
    assert bits == [bits[0]] + bits[1..];
    RunConcat(crc, [bits[0]], bits[1..]);
    assert Run(crc, []) == crc;
  }

  function Zeros(n: nat): (z: seq<bool>)
    ensures |z| == n
  {
    seq(n, _ => false)
  }

  /** Zero bits alone never hide a difference: one zero step is injective at ZERO. */
  lemma {:induction false} ZerosKeep(s: Octet, n: nat)
    ensures Run(s, Zeros(n)) == ZERO <==> s == ZERO
  {
    if n > 0 {
      ZerosKeep(s, n - 1);
      assert Zeros(n)[..n - 1] == Zeros(n - 1);
    }
  }

  predicate At(p: seq<bool>, k: nat) { k < |p| && p[k] }

  /** Up to eight bits as the top bits of an octet. */
  function Left(p: seq<bool>): Octet
    requires |p| <= 8
  {
    Octet(At(p, 0), At(p, 1), At(p, 2), At(p, 3), At(p, 4), At(p, 5), At(p, 6), At(p, 7))
  }

  lemma LeftBits(c: Octet, a0: bool, a1: bool, a2: bool, a3: bool, a4: bool, a5: bool, a6: bool, a7: bool)
    ensures StepBit(XorOctet(c, Octet(a0, a1, a2, a3, a4, a5, a6, a7)), false)
         == XorOctet(StepBit(c, a0), Octet(a1, a2, a3, a4, a5, a6, a7, false))
  {
  }

  lemma LeftStep(crc: Octet, p: seq<bool>, l: Octet, l': Octet)
    requires 0 < |p| <= 8 && l == Left(p) && l' == Left(p[1..])
    ensures StepBit(XorOctet(crc, l), false) == XorOctet(StepBit(crc, p[0]), l')
  {
    LeftShape(p);
    assert l == Octet(l.b7, l.b6, l.b5, l.b4, l.b3, l.b2, l.b1, l.b0);
    LeftBits(crc, l.b7, l.b6, l.b5, l.b4, l.b3, l.b2, l.b1, l.b0);
  }

  lemma LeftShape(p: seq<bool>)
    requires 0 < |p| <= 8
    ensures var l := Left(p); l.b7 == p[0] && Left(p[1..]) == Octet(l.b6, l.b5, l.b4, l.b3, l.b2, l.b1, l.b0, false)
  {
  }

  /** Up to eight message bits act as if they had been added to the register before as many zeros. */
  lemma {:induction false} AddedFirst(crc: Octet, p: seq<bool>)
    requires |p| <= 8
    ensures Run(crc, p) == Run(XorOctet(crc, Left(p)), Zeros(|p|))
    decreases |p|
  {
    var start := XorOctet(crc, Left(p));
    if p == [] {
      assert start == crc;
    } else {
      var next := StepBit(crc, p[0]);
      LeftStep(crc, p, Left(p), Left(p[1..]));
      RunFromFront(crc, p);
      AddedFirst(next, p[1..]);
      RunFromFront(start, Zeros(|p|));
      assert Zeros(|p|)[1..] == Zeros(|p| - 1);
    }
  }

  /** The receiver's check: over the message and its CRC byte the CRC is 0, over any other last byte it is not. */
  lemma CrcOfCoded(msg: seq<Octet>, last: Octet)
    ensures Crc(msg + [last]) == ZERO <==> last == Crc(msg)
  {
    assert (msg + [last])[..|msg|] == msg;
    RunConcat(ZERO, Bits(msg), BitsOf(last));
    ByteAddedFirst(Crc(msg), last);
    ZerosKeep(XorOctet(Crc(msg), last), 8);
    XorZero(Crc(msg), last);
  }

  lemma ByteAddedFirst(crc: Octet, o: Octet)
    ensures Run(crc, BitsOf(o)) == Run(XorOctet(crc, o), Zeros(8))
  {
    LeftOfBits(o);
    AddedFirst(crc, BitsOf(o));
  }

  lemma LeftOfBits(o: Octet)
    ensures Left(BitsOf(o)) == o
  {
  }

  lemma XorZero(x: Octet, y: Octet)
    ensures XorOctet(x, y) == ZERO <==> x == y
  {
  }

  // ----- Burst errors ---------------------------------------------------------------------------

  /** An error confined to eight consecutive bits, at any bit position of a message of any length. */
  ghost predicate IsBurst(e: seq<bool>, p: seq<bool>, at: nat)
  {
    |p| == 8 && true in p && at + 8 <= |e| && e == Zeros(at) + p + Zeros(|e| - at - 8)
  }

  lemma BurstChangesCrc(m: seq<bool>, e: seq<bool>, p: seq<bool>, at: nat)
    requires |m| == |e| && IsBurst(e, p, at)
    ensures Run(ZERO, Xor(m, e)) != Run(ZERO, m)
  {
    RunConcat(ZERO, Zeros(at) + p, Zeros(|e| - at - 8));
    RunConcat(ZERO, Zeros(at), p);
    ZerosKeep(ZERO, at);
    AddedFirst(ZERO, p);
    LeftNonzero(p);
    ZerosKeep(XorOctet(ZERO, Left(p)), 8);
    ZerosKeep(Run(ZERO, p), |e| - at - 8);
    assert Run(ZERO, e) != ZERO;
    RunLinear(ZERO, ZERO, m, e);
    XorNonzero(Run(ZERO, m), Run(ZERO, e));
  }

  /** No burst turns a message into another one with the same CRC. */
  lemma BurstDetected(msg: seq<Octet>, received: seq<Octet>, e: seq<bool>, p: seq<bool>, at: nat)
    requires |msg| == |received| && |e| == 8 * |msg| && IsBurst(e, p, at)
    requires Bits(received) == Xor(Bits(msg), e)
    ensures Crc(received) != Crc(msg)
  {
    BurstChangesCrc(Bits(msg), e, p, at);
  }

  lemma LeftNonzero(p: seq<bool>)
    requires |p| == 8 && true in p
    ensures XorOctet(ZERO, Left(p)) != ZERO
  {
    var k :| 0 <= k < 8 && p[k];
    assert BitsOf(Left(p))[k] == At(p, k);
  }

  lemma XorNonzero(x: Octet, y: Octet)
    requires y != ZERO
    ensures XorOctet(x, y) != x
  {
  }

  // ----- Division -------------------------------------------------------------------------------

  /** The divisor x^8 + x^2 + x + 1. */
  function Divisor(): (p: seq<bool>)
    ensures |p| == 9
  {
    seq(9, j => j == 0 || j >= 6)
  }

  /** `q` times the divisor: eight places longer than `q`. */
  function TimesDivisor(q: seq<bool>): (product: seq<bool>)
    ensures |product| == |q| + 8
  {
    if q == [] then Zeros(8)
    else
      var n := |q| - 1;
      Xor(TimesDivisor(q[..n]) + [false], Partial(q[n], n))
  }

  /** The quotient bits the register shifts out. */
  function Quotient(m: seq<bool>): (q: seq<bool>)
    ensures |q| == |m|
  {
    if m == [] then []
    else
      var n := |m| - 1;
      Quotient(m[..n]) + [Run(ZERO, m[..n]).b7 != m[n]]
  }

  /** m(x) x^8 + r(x). */
  function Shifted(m: seq<bool>, r: Octet): (s: seq<bool>)
    ensures |s| == |m| + 8
  {
    Xor(m + Zeros(8), Zeros(|m|) + BitsOf(r))
  }

  /** The divisor taken `q` times, as digit `n` of the quotient. */
  function Partial(q: bool, n: nat): (p: seq<bool>)
    ensures |p| == n + 9
  {
    if q then Zeros(n) + Divisor() else Zeros(n + 9)
  }

  lemma TimesNext(q: seq<bool>, b: bool)
    ensures TimesDivisor(q + [b]) == Xor(TimesDivisor(q) + [false], Partial(b, |q|))
  {
    var longer := q + [b];
    assert longer[..|q|] == q && longer[|q|] == b;
  }

  /** m(x) x^8 + crc(x) = quotient(x) divisor(x), with the CRC of degree below 8. */
  lemma {:induction false} CrcIsRemainder(m: seq<bool>)
    ensures Shifted(m, Run(ZERO, m)) == TimesDivisor(Quotient(m))
  {
    if m == [] {
      assert Run(ZERO, m) == ZERO;
    } else {
      var n := |m| - 1;
      var r := Run(ZERO, m[..n]);
      CrcIsRemainder(m[..n]);
      TimesNext(Quotient(m[..n]), r.b7 != m[n]);
      LongDivision(m, n, r);
    }
  }

  lemma LongDivision(m: seq<bool>, n: nat, r: Octet)
    requires |m| == n + 1
    ensures Shifted(m, StepBit(r, m[n])) == Xor(Shifted(m[..n], r) + [false], Partial(r.b7 != m[n], n))
  {
    forall k | 0 <= k < n + 9
      ensures Shifted(m, StepBit(r, m[n]))[k] == ((Shifted(m[..n], r) + [false])[k] != Partial(r.b7 != m[n], n)[k])
    {
      LongDivisionStep(m, n, r, k);
    }
  }

  lemma CodeDigit(m: seq<bool>, r: Octet, k: nat)
    requires k < |m| + 8
    ensures Shifted(m, r)[k] == if k < |m| then m[k] else Masked(r, k - |m|)
  {
  }

  lemma LongDivisionStep(m: seq<bool>, n: nat, r: Octet, k: nat)
    requires |m| == n + 1 && k < n + 9
    ensures Shifted(m, StepBit(r, m[n]))[k] == ((Shifted(m[..n], r) + [false])[k] != Partial(r.b7 != m[n], n)[k])
  {
    CodeDigit(m, StepBit(r, m[n]), k);
    if k < n + 8 {
      CodeDigit(m[..n], r, k);
    }
    DivisorDigit(r.b7 != m[n], n, k);
    if k >= n {
      DivisionDigit(r, m[n], k - n);
    }
  }

  lemma DivisorDigit(q: bool, n: nat, k: nat)
    requires k < n + 9
    ensures Partial(q, n)[k] == (q && (k == n || k >= n + 6))
  {
  }

  lemma DivisionDigit(r: Octet, bit: bool, j: nat)
    requires j <= 8
    ensures var q := r.b7 != bit;
            (if j == 0 then bit else Masked(StepBit(r, bit), j - 1)) == ((j < 8 && Masked(r, j)) != (q && (j == 0 || j >= 6)))
  {
  }
}
