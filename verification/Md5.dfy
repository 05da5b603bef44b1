/** The streaming MD5 of the firmware loader, against the one-shot digest of RFC 1321. */
module Md5 {
  import opened Common

  type word = u32

  const TWO_64 := TWO_32 * TWO_32

  /** The four chaining words A, B, C, D. */
  datatype Quad = Quad(a: word, b: word, c: word, d: word)

  // ----- The four auxiliary functions and the step macros ---------------------------------------

  function Not(x: word): word { TWO_32 - 1 - x }

  function F(x: word, y: word, z: word): nat { BitOr(BitAnd(x, y), BitAnd(Not(x), z)) }
  function G(x: word, y: word, z: word): nat { BitOr(BitAnd(x, z), BitAnd(y, Not(z))) }
  function H(x: word, y: word, z: word): nat { BitXor(BitXor(x, y), z) }
  function I(x: word, y: word, z: word): nat { BitXor(y, BitOr(x, Not(z))) }

  /** The left shift by `n` places, which drops what leaves the word. */
  function ShiftLeft(x: word, n: nat): word
    decreases n, x
  {
    if n == 0 then x else ShiftLeft(2 * x % TWO_32, n - 1)
  }

  function ShiftRight(x: word, n: nat): word
    decreases n, x
  {
    if n == 0 then x else ShiftRight(x / 2, n - 1)
  }

  function RotateLeft(x: word, n: nat): nat
    requires n <= 32
  {
    BitOr(ShiftLeft(x, n), ShiftRight(x, 32 - n))
  }

  /** In every place of the word `F` takes `y` where `x` has 1 and `z` where it has 0, `G` takes `x` where `z` has 1 and `y`
      where it has 0, `H` is the parity, and `I` is `y` flipped where `x` has 1 or `z` has 0 (RFC 1321 section 3.4). */
  lemma AuxiliaryBits(x: word, y: word, z: word, k: nat)
    requires k < 32
    ensures var b, c, d := x / Pow2(k) % 2, y / Pow2(k) % 2, z / Pow2(k) % 2;
            && F(x, y, z) / Pow2(k) % 2 == (if b == 1 then c else d)
            && G(x, y, z) / Pow2(k) % 2 == (if d == 1 then b else c)
            && H(x, y, z) / Pow2(k) % 2 == (b + c + d) % 2
            && I(x, y, z) / Pow2(k) % 2 == (if b == 1 || d == 0 then 1 - c else c)
  {
    Digits([x, y, z, F(x, y, z), G(x, y, z), H(x, y, z), I(x, y, z)], k);
    FBit(x, y, z, k);
    GBit(x, y, z, k);
    HIBits(x, y, z, k);
  }

  lemma Digits(numbers: seq<nat>, k: nat)
    ensures forall n :: n in numbers ==> Bit(n, k) == n / Pow2(k) % 2
  {
    forall n | n in numbers
      ensures Bit(n, k) == n / Pow2(k) % 2
    {
      BitIsDigit(n, k);
    }
  }

  lemma NotBit(x: word, k: nat)
    requires k < 32
    ensures Bit(Not(x), k) == 1 - Bit(x, k)
  {
    PowerOfWord();
    BitOfComplement(x, 32, k);
  }

  lemma FBit(x: word, y: word, z: word, k: nat)
    requires k < 32
    ensures Bit(F(x, y, z), k) == if Bit(x, k) == 1 then Bit(y, k) else Bit(z, k)
  {
    NotBit(x, k);
    BitOfAnd(x, y, k);
    BitOfAnd(Not(x), z, k);
    BitOfOr(BitAnd(x, y), BitAnd(Not(x), z), k);
  }

  lemma GBit(x: word, y: word, z: word, k: nat)
    requires k < 32
    ensures Bit(G(x, y, z), k) == if Bit(z, k) == 1 then Bit(x, k) else Bit(y, k)
  {
    NotBit(z, k);
    BitOfAnd(x, z, k);
    BitOfAnd(y, Not(z), k);
    BitOfOr(BitAnd(x, z), BitAnd(y, Not(z)), k);
  }

  lemma HIBits(x: word, y: word, z: word, k: nat)
    requires k < 32
    ensures Bit(H(x, y, z), k) == (Bit(x, k) + Bit(y, k) + Bit(z, k)) % 2
    ensures Bit(I(x, y, z), k) == if Bit(x, k) == 1 || Bit(z, k) == 0 then 1 - Bit(y, k) else Bit(y, k)
  {
    BitOfXor(x, y, k);
    BitOfXor(BitXor(x, y), z, k);
    NotBit(z, k);
    BitOfOr(x, Not(z), k);
    BitOfXor(y, BitOr(x, Not(z)), k);
  }

  /** Rotation to the left by `n` places, as arithmetic. */
  lemma RotateLeftIs(x: word, n: nat)
    requires n <= 32
    ensures RotateLeft(x, n) == x * Pow2(n) % TWO_32 + x / Pow2(32 - n)
  {
    ShiftLeftIs(x, n);
    ShiftRightIs(x, 32 - n);
    ShiftsApart(x, n);
    OrIsSum(ShiftLeft(x, n), ShiftRight(x, 32 - n), n);
  }

  lemma {:induction false} ShiftLeftIs(x: word, n: nat)
    ensures ShiftLeft(x, n) == x * Pow2(n) % TWO_32
    decreases n
  {
    if n > 0 {
      ShiftLeftIs(2 * x % TWO_32, n - 1);
      Doubled(x, Pow2(n - 1));
    }
  }

  lemma Doubled(x: nat, p: nat)
    ensures 2 * x % TWO_32 * p % TWO_32 == x * (2 * p) % TWO_32
  {
    ProductModulo(2 * x, p);
    assert 2 * x * p == x * (2 * p);
  }

  lemma ProductModulo(x: nat, p: nat)
    ensures x % TWO_32 * p % TWO_32 == x * p % TWO_32
  {
    var q, r := x / TWO_32, x % TWO_32;
    var s := r * p;
    assert x * p == TWO_32 * (q * p) + s;
    QuotientIs(x * p, TWO_32, q * p + s / TWO_32, s % TWO_32);
  }

  lemma {:induction false} ShiftRightIs(x: word, n: nat)
    ensures ShiftRight(x, n) == x / Pow2(n)
    decreases n
  {
    if n > 0 {
      ShiftRightIs(x / 2, n - 1);
      HalfFirst(x, Pow2(n - 1));
    }
  }

  lemma {:induction false} PowersMultiply(m: nat, n: nat)
    ensures Pow2(m + n) == Pow2(m) * Pow2(n)
  {
    if m > 0 {
      PowersMultiply(m - 1, n);
    }
  }

  lemma PowerOfWord()
    ensures Pow2(32) == TWO_32
  {
    assert Pow2(8) == 256;
    PowersMultiply(8, 8);
    PowersMultiply(16, 16);
  }

  lemma ShiftsApart(x: word, n: nat)
    requires n <= 32
    ensures x * Pow2(n) % TWO_32 % Pow2(n) == 0 && x / Pow2(32 - n) < Pow2(n)
  {
    var p, q := Pow2(n), Pow2(32 - n);
    PowersMultiply(n, 32 - n);
    PowerOfWord();
    MultipleStays(x, p, q);
    QuotientBelow(x, p, q);
  }

  lemma MultipleStays(x: nat, p: nat, q: nat)
    requires p > 0 && p * q == TWO_32
    ensures x * p % TWO_32 % p == 0
  {
    var k, t := x * p / TWO_32, x * p % TWO_32;
    assert TWO_32 * k == p * (q * k);
    assert t == p * (x - q * k);
    assert x - q * k >= 0;
    QuotientIs(t, p, x - q * k, 0);
  }

  lemma QuotientBelow(x: nat, p: nat, q: nat)
    requires q > 0 && x < p * q
    ensures x / q < p
  {
    var h := x / q;
    assert q * h <= x;
    assert h >= p ==> q * h >= q * p;
  }

  function FF(a: word, b: word, c: word, d: word, x: word, s: nat, ac: word): word
    requires 0 < s < 32
  {
    (RotateLeft((a + (F(b, c, d) + x + ac)) % TWO_32, s) + b) % TWO_32
  }

  function GG(a: word, b: word, c: word, d: word, x: word, s: nat, ac: word): word
    requires 0 < s < 32
  {
    (RotateLeft((a + (G(b, c, d) + x + ac)) % TWO_32, s) + b) % TWO_32
  }

  function HH(a: word, b: word, c: word, d: word, x: word, s: nat, ac: word): word
    requires 0 < s < 32
  {
    (RotateLeft((a + (H(b, c, d) + x + ac)) % TWO_32, s) + b) % TWO_32
  }

  function II(a: word, b: word, c: word, d: word, x: word, s: nat, ac: word): word
    requires 0 < s < 32
  {
    (RotateLeft((a + (I(b, c, d) + x + ac)) % TWO_32, s) + b) % TWO_32
  }

  /** A step macro adds, rotates and adds again (RFC 1321 section 3.4), in arithmetic modulo 2^32. */
  lemma StepArithmetic(a: word, b: word, c: word, d: word, x: word, s: nat, ac: word)
    requires 0 < s < 32
    ensures FF(a, b, c, d, x, s, ac) == AddRotated(a + F(b, c, d) + x + ac, s, b)
    ensures GG(a, b, c, d, x, s, ac) == AddRotated(a + G(b, c, d) + x + ac, s, b)
    ensures HH(a, b, c, d, x, s, ac) == AddRotated(a + H(b, c, d) + x + ac, s, b)
    ensures II(a, b, c, d, x, s, ac) == AddRotated(a + I(b, c, d) + x + ac, s, b)
  {
    RotateLeftIs((a + F(b, c, d) + x + ac) % TWO_32, s);
    RotateLeftIs((a + G(b, c, d) + x + ac) % TWO_32, s);
    RotateLeftIs((a + H(b, c, d) + x + ac) % TWO_32, s);
    RotateLeftIs((a + I(b, c, d) + x + ac) % TWO_32, s);
  }

  function AddRotated(sum: nat, s: nat, b: word): nat
    requires s <= 32
  {
    var t := sum % TWO_32;
    (b + t * Pow2(s) % TWO_32 + t / Pow2(32 - s)) % TWO_32
  }

  // ----- The reference compression function, RFC 1321 section 3.4 -------------------------------

  /** Which message word step `j` of round `r` uses. */
  function MessageIndex(r: nat, j: nat): (k: nat)
    requires r < 4 && j < 16
    ensures k < 16
  {
    match r
    case 0 => (match j
      case 0 => 0 case 1 => 1 case 2 => 2 case 3 => 3
      case 4 => 4 case 5 => 5 case 6 => 6 case 7 => 7
      case 8 => 8 case 9 => 9 case 10 => 10 case 11 => 11
      case 12 => 12 case 13 => 13 case 14 => 14 case _ => 15)
    case 1 => (match j
      case 0 => 1 case 1 => 6 case 2 => 11 case 3 => 0
      case 4 => 5 case 5 => 10 case 6 => 15 case 7 => 4
      case 8 => 9 case 9 => 14 case 10 => 3 case 11 => 8
      case 12 => 13 case 13 => 2 case 14 => 7 case _ => 12)
    case 2 => (match j
      case 0 => 5 case 1 => 8 case 2 => 11 case 3 => 14
      case 4 => 1 case 5 => 4 case 6 => 7 case 7 => 10
      case 8 => 13 case 9 => 0 case 10 => 3 case 11 => 6
      case 12 => 9 case 13 => 12 case 14 => 15 case _ => 2)
    case _ => (match j
      case 0 => 0 case 1 => 7 case 2 => 14 case 3 => 5
      case 4 => 12 case 5 => 3 case 6 => 10 case 7 => 1
      case 8 => 8 case 9 => 15 case 10 => 6 case 11 => 13
      case 12 => 4 case 13 => 11 case 14 => 2 case _ => 9)
  }

  /** Member `k` of a row of four. */
  function Pick(k: nat, v0: nat, v1: nat, v2: nat, v3: nat): nat
  {
    if k == 0 then v0 else if k == 1 then v1 else if k == 2 then v2 else v3
  }

  /** How far step `j` of round `r` rotates. */
  function Shift(r: nat, j: nat): (s: nat)
    requires r < 4 && j < 16
    ensures 0 < s < 32
  {
    match r
    case 0 => Pick(j % 4, 7, 12, 17, 22)
    case 1 => Pick(j % 4, 5, 9, 14, 20)
    case 2 => Pick(j % 4, 4, 11, 16, 23)
    case _ => Pick(j % 4, 6, 10, 15, 21)
  }

  /** The table T of RFC 1321: entry i is the integer part of 2^32 * |sin(i + 1)|, here at i = 16 r + j. */
  function Sine(r: nat, j: nat): word
    requires r < 4 && j < 16
  {
    match r
    case 0 => (match j
      case 0 => 0xd76aa478 case 1 => 0xe8c7b756 case 2 => 0x242070db case 3 => 0xc1bdceee
      case 4 => 0xf57c0faf case 5 => 0x4787c62a case 6 => 0xa8304613 case 7 => 0xfd469501
      case 8 => 0x698098d8 case 9 => 0x8b44f7af case 10 => 0xffff5bb1 case 11 => 0x895cd7be
      case 12 => 0x6b901122 case 13 => 0xfd987193 case 14 => 0xa679438e case _ => 0x49b40821)
    case 1 => (match j
      case 0 => 0xf61e2562 case 1 => 0xc040b340 case 2 => 0x265e5a51 case 3 => 0xe9b6c7aa
      case 4 => 0xd62f105d case 5 => 0x02441453 case 6 => 0xd8a1e681 case 7 => 0xe7d3fbc8
      case 8 => 0x21e1cde6 case 9 => 0xc33707d6 case 10 => 0xf4d50d87 case 11 => 0x455a14ed
      case 12 => 0xa9e3e905 case 13 => 0xfcefa3f8 case 14 => 0x676f02d9 case _ => 0x8d2a4c8a)
    case 2 => (match j
      case 0 => 0xfffa3942 case 1 => 0x8771f681 case 2 => 0x6d9d6122 case 3 => 0xfde5380c
      case 4 => 0xa4beea44 case 5 => 0x4bdecfa9 case 6 => 0xf6bb4b60 case 7 => 0xbebfbc70
      case 8 => 0x289b7ec6 case 9 => 0xeaa127fa case 10 => 0xd4ef3085 case 11 => 0x04881d05
      case 12 => 0xd9d4d039 case 13 => 0xe6db99e5 case 14 => 0x1fa27cf8 case _ => 0xc4ac5665)
    case _ => (match j
      case 0 => 0xf4292244 case 1 => 0x432aff97 case 2 => 0xab9423a7 case 3 => 0xfc93a039
      case 4 => 0x655b59c3 case 5 => 0x8f0ccc92 case 6 => 0xffeff47d case 7 => 0x85845dd1
      case 8 => 0x6fa87e4f case 9 => 0xfe2ce6e0 case 10 => 0xa3014314 case 11 => 0x4e0811a1
      case 12 => 0xf7537e82 case 13 => 0xbd3af235 case 14 => 0x2ad7d2bb case _ => 0xeb86d391)
  }

  /** The amounts of a round grow by steps that grow by one in the second and last round, are equal in the first, and
      alternate in the third. */
  lemma ShiftAmounts(r: nat, j: nat)
    requires r < 4 && j < 16
    ensures var i := j % 4;
            Shift(r, j) == (match r case 0 => 7 + 5 * i case 1 => 5 + 4 * i + i * (i - 1) / 2
                                    case 2 => 4 + 12 * (i / 2) + 7 * (i % 2) case _ => 6 + 4 * i + i * (i - 1) / 2)
  {
    var i := j % 4;
    assert i == 0 || i == 1 || i == 2 || i == 3;
  }

  // ----- The table of sines ---------------------------------------------------------------------

  const UNIT := 100000000000000000000

  /** The sine and the cosine of 1, to twenty places. */
  const SIN1 := 84147098480789650665
  const COS1 := 54030230586813971740

  /** The sine of `n` in the same units, from sin (n + 1) = 2 cos 1 sin n - sin (n - 1). */
  function SinAt(n: nat): int
  {
    if n == 0 then 0 else if n == 1 then SIN1 else 2 * COS1 * SinAt(n - 1) / UNIT - SinAt(n - 2)
  }

  /** The integer part of 2^32 times the absolute value of a sine. */
  function Entry(s: int): int
  {
    (if s < 0 then -s else s) * TWO_32 / UNIT
  }

  /** The first `m` entries of round `r` are those of the sines from `n` + 1 on. */
  predicate RowIs(r: nat, n: nat, m: nat)
    requires r < 4 && m <= 16
  {
    m == 0 || (RowIs(r, n, m - 1) && Sine(r, m - 1) == Entry(SinAt(n + m)))
  }

  lemma {:induction false} EntryOf(r: nat, n: nat, m: nat, j: nat)
    requires r < 4 && j < m <= 16 && RowIs(r, n, m)
    ensures Sine(r, j) == Entry(SinAt(n + j + 1))
  {
    if j < m - 1 {
      EntryOf(r, n, m - 1, j);
    }
  }

  /** The table holds, at 16 r + j, the entry of the sine of 16 r + j + 1 (RFC 1321 section 3.4). */
  lemma SineTable(r: nat, j: nat)
    requires r < 4 && j < 16
    ensures Sine(r, j) == Entry(SinAt(16 * r + j + 1))
  {
    RowsFrom(0, r);
    EntryOf(r, 16 * r, 16, j);
  }

  lemma RowsFrom(n: nat, r: nat)
    requires r < 4 && SinAt(n) == 0 && SinAt(n + 1) == SIN1
    ensures RowIs(r, n + 16 * r, 16)
  {
    Sines0(n);
    Sines1(n + 16);
    Sines2(n + 32);
    Sines3(n + 48);
  }

  lemma Sines0(n: nat)
    requires SinAt(n) == 0 && SinAt(n + 1) == 84147098480789650665
    ensures RowIs(0, n, 16) && SinAt(n + 16) == -28790331666506529481 && SinAt(n + 17) == -96139749187955685727
  {
    assert SinAt(n + 2) == 90929742682568169539 && RowIs(0, n, 1);
    assert SinAt(n + 3) == 14112000805986722209 && RowIs(0, n, 2);
    assert SinAt(n + 4) == -75680249530792825138 && RowIs(0, n, 3);
    assert SinAt(n + 5) == -95892427466313846889 && RowIs(0, n, 4);
    assert SinAt(n + 6) == -27941549819892587280 && RowIs(0, n, 5);
    assert SinAt(n + 7) == 65698659871878909040 && RowIs(0, n, 6);
    assert SinAt(n + 8) == 98935824662338177779 && RowIs(0, n, 7);
    assert SinAt(n + 9) == 41211848524175656973 && RowIs(0, n, 8);
    assert SinAt(n + 10) == -54402111088936981342 && RowIs(0, n, 9);
    assert SinAt(n + 11) == -99999020655070345705 && RowIs(0, n, 10);
    assert SinAt(n + 12) == -53657291800043497165 && RowIs(0, n, 11);
    assert SinAt(n + 13) == 42016703682664092188 && RowIs(0, n, 12);
    assert SinAt(n + 14) == 99060735569487030787 && RowIs(0, n, 13);
    assert SinAt(n + 15) == 65028784015711686581 && RowIs(0, n, 14);
    assert SinAt(n + 16) == -28790331666506529481 && RowIs(0, n, 15);
    assert SinAt(n + 17) == -96139749187955685727 && RowIs(0, n, 16);
  }

  lemma Sines1(n: nat)
    requires SinAt(n) == -28790331666506529481 && SinAt(n + 1) == -96139749187955685727
    ensures RowIs(1, n, 16) && SinAt(n + 16) == 55142668124169055068 && SinAt(n + 17) == 99991186010726714572
  {
    assert SinAt(n + 2) == -75098724677167610374 && RowIs(1, n, 1);
    assert SinAt(n + 3) == 14987720966295232977 && RowIs(1, n, 2);
    assert SinAt(n + 4) == 91294525072762765438 && RowIs(1, n, 3);
    assert SinAt(n + 5) == 83665563853605603185 && RowIs(1, n, 4);
    assert SinAt(n + 6) == -885130929040387595 && RowIs(1, n, 5);
    assert SinAt(n + 7) == -84622040417517063526 && RowIs(1, n, 6);
    assert SinAt(n + 8) == -90557836200662384513 && RowIs(1, n, 7);
    assert SinAt(n + 9) == -13235175009777302888 && RowIs(1, n, 8);
    assert SinAt(n + 10) == 76255845047960273753 && RowIs(1, n, 9);
    assert SinAt(n + 11) == 95637592840450301342 && RowIs(1, n, 10);
    assert SinAt(n + 12) == 27090578830786901995 && RowIs(1, n, 11);
    assert SinAt(n + 13) == -66363388421296750218 && RowIs(1, n, 12);
    assert SinAt(n + 14) == -98803162409286178999 && RowIs(1, n, 13);
    assert SinAt(n + 15) == -40403764532306500603 && RowIs(1, n, 14);
    assert SinAt(n + 16) == 55142668124169055068 && RowIs(1, n, 15);
    assert SinAt(n + 17) == 99991186010726714572 && RowIs(1, n, 16);
  }

  lemma Sines2(n: nat)
    requires SinAt(n) == 55142668124169055068 && SinAt(n + 1) == 99991186010726714572
    ensures RowIs(2, n, 16) && SinAt(n + 16) == -76825466132366679908 && SinAt(n + 17) == -95375265275947181834
  {
    assert SinAt(n + 2) == 52908268612002382080 && RowIs(2, n, 1);
    assert SinAt(n + 3) == -42818266949615100444 && RowIs(2, n, 2);
    assert SinAt(n + 4) == -99177885344311573684 && RowIs(2, n, 3);
    assert SinAt(n + 5) == -64353813335699946066 && RowIs(2, n, 4);
    assert SinAt(n + 6) == 29636857870938531742 && RowIs(2, n, 5);
    assert SinAt(n + 7) == 96379538628408775326 && RowIs(2, n, 6);
    assert SinAt(n + 8) == 74511316047934878695 && RowIs(2, n, 7);
    assert SinAt(n + 9) == -15862266880470898715 && RowIs(2, n, 8);
    assert SinAt(n + 10) == -91652154791563378592 && RowIs(2, n, 9);
    assert SinAt(n + 11) == -83177474262859828819 && RowIs(2, n, 10);
    assert SinAt(n + 12) == 1770192510541357785 && RowIs(2, n, 11);
    assert SinAt(n + 13) == 85090352453411842488 && RowIs(2, n, 12);
    assert SinAt(n + 14) == 90178834764880918500 && RowIs(2, n, 13);
    assert SinAt(n + 15) == 12357312274522400400 && RowIs(2, n, 14);
    assert SinAt(n + 16) == -76825466132366679908 && RowIs(2, n, 15);
    assert SinAt(n + 17) == -95375265275947181834 && RowIs(2, n, 16);
  }

  lemma Sines3(n: nat)
    requires SinAt(n) == -76825466132366679908 && SinAt(n + 1) == -95375265275947181834
    ensures RowIs(3, n, 16) && SinAt(n + 16) == 92002603819679068337 && SinAt(n + 17) == 82682867949010346767
  {
    assert SinAt(n + 2) == -26237485370392878586 && RowIs(3, n, 1);
    assert SinAt(n + 3) == 67022917584337473453 && RowIs(3, n, 2);
    assert SinAt(n + 4) == 98662759204048529657 && RowIs(3, n, 3);
    assert SinAt(n + 5) == 39592515018183418144 && RowIs(3, n, 4);
    assert SinAt(n + 6) == -55878904885161624587 && RowIs(3, n, 5);
    assert SinAt(n + 7) == -99975517335861983660 && RowIs(3, n, 6);
    assert SinAt(n + 8) == -52155100208691188014 && RowIs(3, n, 7);
    assert SinAt(n + 9) == 43616475524782495913 && RowIs(3, n, 8);
    assert SinAt(n + 10) == 99287264808453711817 && RowIs(3, n, 9);
    assert SinAt(n + 11) == 63673800713913788072 && RowIs(3, n, 10);
    assert SinAt(n + 12) == -30481062110221670569 && RowIs(3, n, 11);
    assert SinAt(n + 13) == -96611777000839294704 && RowIs(3, n, 12);
    assert SinAt(n + 14) == -73918069664922286724 && RowIs(3, n, 13);
    assert SinAt(n + 15) == 16735570030280692158 && RowIs(3, n, 14);
    assert SinAt(n + 16) == 92002603819679068337 && RowIs(3, n, 15);
    assert SinAt(n + 17) == 82682867949010346767 && RowIs(3, n, 16);
  }

  /** One step: the roles of the four words turn by one place. */
  function Step(q: Quad, x: seq<word>, r: nat, j: nat): Quad
    requires |x| == 16 && r < 4 && j < 16
  {
    var k, s, t := x[MessageIndex(r, j)], Shift(r, j), Sine(r, j);
    var w := match r
             case 0 => FF(q.a, q.b, q.c, q.d, k, s, t)
             case 1 => GG(q.a, q.b, q.c, q.d, k, s, t)
             case 2 => HH(q.a, q.b, q.c, q.d, k, s, t)
             case _ => II(q.a, q.b, q.c, q.d, k, s, t);
    Quad(q.d, w, q.b, q.c)
  }

  /** The word order of a round is an arithmetic progression modulo 16, as RFC 1321 section 3.4 lays it out. */
  lemma MessageOrder(r: nat, j: nat)
    requires r < 4 && j < 16
    ensures MessageIndex(r, j) == (match r case 0 => j case 1 => (5 * j + 1) % 16 case 2 => (3 * j + 5) % 16 case _ => 7 * j % 16)
  {
  }

  /** The first `n` steps of round `r`. */
  ghost function Steps(q: Quad, x: seq<word>, r: nat, n: nat): Quad
    requires |x| == 16 && r < 4 && n <= 16
    decreases n, q
  {
    if n == 0 then q else Step(Steps(q, x, r, n - 1), x, r, n - 1)
  }

  /** The four rounds. */
  ghost function Rounds(q: Quad, x: seq<word>): Quad
    requires |x| == 16
  {
    Steps(Steps(Steps(Steps(q, x, 0, 16), x, 1, 16), x, 2, 16), x, 3, 16)
  }

  lemma OneStep(q: Quad, x: seq<word>, r: nat, n: nat)
    requires |x| == 16 && r < 4 && n < 16
    ensures Steps(q, x, r, n + 1) == Step(Steps(q, x, r, n), x, r, n)
  {
  }

  lemma FourSteps(q: Quad, x: seq<word>, r: nat, n: nat)
    requires |x| == 16 && r < 4 && n <= 12
    ensures Steps(q, x, r, n + 4) == Step(Step(Step(Step(Steps(q, x, r, n), x, r, n), x, r, n + 1), x, r, n + 2), x, r, n + 3)
  {
    OneStep(q, x, r, n);
    OneStep(q, x, r, n + 1);
    OneStep(q, x, r, n + 2);
    OneStep(q, x, r, n + 3);
  }

  lemma SixteenSteps(q: Quad, x: seq<word>, r: nat)
    requires |x| == 16 && r < 4
    ensures
      var s4 := Step(Step(Step(Step(q, x, r, 0), x, r, 1), x, r, 2), x, r, 3);
      var s8 := Step(Step(Step(Step(s4, x, r, 4), x, r, 5), x, r, 6), x, r, 7);
      var s12 := Step(Step(Step(Step(s8, x, r, 8), x, r, 9), x, r, 10), x, r, 11);
      Steps(q, x, r, 16) == Step(Step(Step(Step(s12, x, r, 12), x, r, 13), x, r, 14), x, r, 15)
  {
    FourSteps(q, x, r, 0);
    FourSteps(q, x, r, 4);
    FourSteps(q, x, r, 8);
    FourSteps(q, x, r, 12);
  }

  method Round1(q0: Quad, x: seq<word>) returns (q: Quad)
    requires |x| == 16
    ensures q == Steps(q0, x, 0, 16)
  {
    var a, b, c, d := q0.a, q0.b, q0.c, q0.d;
    ghost var s := q0;
    SixteenSteps(q0, x, 0);
    a := FF(a, b, c, d, x[0], 7, 0xd76aa478);
    s := Step(s, x, 0, 0);
    assert s == Quad(d, a, b, c);
    d := FF(d, a, b, c, x[1], 12, 0xe8c7b756);
    s := Step(s, x, 0, 1);
    assert s == Quad(c, d, a, b);
    c := FF(c, d, a, b, x[2], 17, 0x242070db);
    s := Step(s, x, 0, 2);
    assert s == Quad(b, c, d, a);
    b := FF(b, c, d, a, x[3], 22, 0xc1bdceee);
    s := Step(s, x, 0, 3);
    assert s == Quad(a, b, c, d);
    a := FF(a, b, c, d, x[4], 7, 0xf57c0faf);
    s := Step(s, x, 0, 4);
    assert s == Quad(d, a, b, c);
    d := FF(d, a, b, c, x[5], 12, 0x4787c62a);
    s := Step(s, x, 0, 5);
    assert s == Quad(c, d, a, b);
    c := FF(c, d, a, b, x[6], 17, 0xa8304613);
    s := Step(s, x, 0, 6);
    assert s == Quad(b, c, d, a);
    b := FF(b, c, d, a, x[7], 22, 0xfd469501);
    s := Step(s, x, 0, 7);
    assert s == Quad(a, b, c, d);
    a := FF(a, b, c, d, x[8], 7, 0x698098d8);
    s := Step(s, x, 0, 8);
    assert s == Quad(d, a, b, c);
    d := FF(d, a, b, c, x[9], 12, 0x8b44f7af);
    s := Step(s, x, 0, 9);
    assert s == Quad(c, d, a, b);
    c := FF(c, d, a, b, x[10], 17, 0xffff5bb1);
    s := Step(s, x, 0, 10);
    assert s == Quad(b, c, d, a);
    b := FF(b, c, d, a, x[11], 22, 0x895cd7be);
    s := Step(s, x, 0, 11);
    assert s == Quad(a, b, c, d);
    a := FF(a, b, c, d, x[12], 7, 0x6b901122);
    s := Step(s, x, 0, 12);
    assert s == Quad(d, a, b, c);
    d := FF(d, a, b, c, x[13], 12, 0xfd987193);
    s := Step(s, x, 0, 13);
    assert s == Quad(c, d, a, b);
    c := FF(c, d, a, b, x[14], 17, 0xa679438e);
    s := Step(s, x, 0, 14);
    assert s == Quad(b, c, d, a);
    b := FF(b, c, d, a, x[15], 22, 0x49b40821);
    s := Step(s, x, 0, 15);
    assert s == Quad(a, b, c, d);
    q := Quad(a, b, c, d);
  }

  method Round2(q0: Quad, x: seq<word>) returns (q: Quad)
    requires |x| == 16
    ensures q == Steps(q0, x, 1, 16)
  {
    var a, b, c, d := q0.a, q0.b, q0.c, q0.d;
    ghost var s := q0;
    SixteenSteps(q0, x, 1);
    a := GG(a, b, c, d, x[1], 5, 0xf61e2562);
    s := Step(s, x, 1, 0);
    assert s == Quad(d, a, b, c);
    d := GG(d, a, b, c, x[6], 9, 0xc040b340);
    s := Step(s, x, 1, 1);
    assert s == Quad(c, d, a, b);
    c := GG(c, d, a, b, x[11], 14, 0x265e5a51);
    s := Step(s, x, 1, 2);
    assert s == Quad(b, c, d, a);
    b := GG(b, c, d, a, x[0], 20, 0xe9b6c7aa);
    s := Step(s, x, 1, 3);
    assert s == Quad(a, b, c, d);
    a := GG(a, b, c, d, x[5], 5, 0xd62f105d);
    s := Step(s, x, 1, 4);
    assert s == Quad(d, a, b, c);
    d := GG(d, a, b, c, x[10], 9, 0x2441453);
    s := Step(s, x, 1, 5);
    assert s == Quad(c, d, a, b);
    c := GG(c, d, a, b, x[15], 14, 0xd8a1e681);
    s := Step(s, x, 1, 6);
    assert s == Quad(b, c, d, a);
    b := GG(b, c, d, a, x[4], 20, 0xe7d3fbc8);
    s := Step(s, x, 1, 7);
    assert s == Quad(a, b, c, d);
    a := GG(a, b, c, d, x[9], 5, 0x21e1cde6);
    s := Step(s, x, 1, 8);
    assert s == Quad(d, a, b, c);
    d := GG(d, a, b, c, x[14], 9, 0xc33707d6);
    s := Step(s, x, 1, 9);
    assert s == Quad(c, d, a, b);
    c := GG(c, d, a, b, x[3], 14, 0xf4d50d87);
    s := Step(s, x, 1, 10);
    assert s == Quad(b, c, d, a);
    b := GG(b, c, d, a, x[8], 20, 0x455a14ed);
    s := Step(s, x, 1, 11);
    assert s == Quad(a, b, c, d);
    a := GG(a, b, c, d, x[13], 5, 0xa9e3e905);
    s := Step(s, x, 1, 12);
    assert s == Quad(d, a, b, c);
    d := GG(d, a, b, c, x[2], 9, 0xfcefa3f8);
    s := Step(s, x, 1, 13);
    assert s == Quad(c, d, a, b);
    c := GG(c, d, a, b, x[7], 14, 0x676f02d9);
    s := Step(s, x, 1, 14);
    assert s == Quad(b, c, d, a);
    b := GG(b, c, d, a, x[12], 20, 0x8d2a4c8a);
    s := Step(s, x, 1, 15);
    assert s == Quad(a, b, c, d);
    q := Quad(a, b, c, d);
  }

  method Round3(q0: Quad, x: seq<word>) returns (q: Quad)
    requires |x| == 16
    ensures q == Steps(q0, x, 2, 16)
  {
    var a, b, c, d := q0.a, q0.b, q0.c, q0.d;
    ghost var s := q0;
    SixteenSteps(q0, x, 2);
    a := HH(a, b, c, d, x[5], 4, 0xfffa3942);
    s := Step(s, x, 2, 0);
    assert s == Quad(d, a, b, c);
    d := HH(d, a, b, c, x[8], 11, 0x8771f681);
    s := Step(s, x, 2, 1);
    assert s == Quad(c, d, a, b);
    c := HH(c, d, a, b, x[11], 16, 0x6d9d6122);
    s := Step(s, x, 2, 2);
    assert s == Quad(b, c, d, a);
    b := HH(b, c, d, a, x[14], 23, 0xfde5380c);
    s := Step(s, x, 2, 3);
    assert s == Quad(a, b, c, d);
    a := HH(a, b, c, d, x[1], 4, 0xa4beea44);
    s := Step(s, x, 2, 4);
    assert s == Quad(d, a, b, c);
    d := HH(d, a, b, c, x[4], 11, 0x4bdecfa9);
    s := Step(s, x, 2, 5);
    assert s == Quad(c, d, a, b);
    c := HH(c, d, a, b, x[7], 16, 0xf6bb4b60);
    s := Step(s, x, 2, 6);
    assert s == Quad(b, c, d, a);
    b := HH(b, c, d, a, x[10], 23, 0xbebfbc70);
    s := Step(s, x, 2, 7);
    assert s == Quad(a, b, c, d);
    a := HH(a, b, c, d, x[13], 4, 0x289b7ec6);
    s := Step(s, x, 2, 8);
    assert s == Quad(d, a, b, c);
    d := HH(d, a, b, c, x[0], 11, 0xeaa127fa);
    s := Step(s, x, 2, 9);
    assert s == Quad(c, d, a, b);
    c := HH(c, d, a, b, x[3], 16, 0xd4ef3085);
    s := Step(s, x, 2, 10);
    assert s == Quad(b, c, d, a);
    b := HH(b, c, d, a, x[6], 23, 0x4881d05);
    s := Step(s, x, 2, 11);
    assert s == Quad(a, b, c, d);
    a := HH(a, b, c, d, x[9], 4, 0xd9d4d039);
    s := Step(s, x, 2, 12);
    assert s == Quad(d, a, b, c);
    d := HH(d, a, b, c, x[12], 11, 0xe6db99e5);
    s := Step(s, x, 2, 13);
    assert s == Quad(c, d, a, b);
    c := HH(c, d, a, b, x[15], 16, 0x1fa27cf8);
    s := Step(s, x, 2, 14);
    assert s == Quad(b, c, d, a);
    b := HH(b, c, d, a, x[2], 23, 0xc4ac5665);
    s := Step(s, x, 2, 15);
    assert s == Quad(a, b, c, d);
    q := Quad(a, b, c, d);
  }

  method Round4(q0: Quad, x: seq<word>) returns (q: Quad)
    requires |x| == 16
    ensures q == Steps(q0, x, 3, 16)
  {
    var a, b, c, d := q0.a, q0.b, q0.c, q0.d;
    ghost var s := q0;
    SixteenSteps(q0, x, 3);
    a := II(a, b, c, d, x[0], 6, 0xf4292244);
    s := Step(s, x, 3, 0);
    assert s == Quad(d, a, b, c);
    d := II(d, a, b, c, x[7], 10, 0x432aff97);
    s := Step(s, x, 3, 1);
    assert s == Quad(c, d, a, b);
    c := II(c, d, a, b, x[14], 15, 0xab9423a7);
    s := Step(s, x, 3, 2);
    assert s == Quad(b, c, d, a);
    b := II(b, c, d, a, x[5], 21, 0xfc93a039);
    s := Step(s, x, 3, 3);
    assert s == Quad(a, b, c, d);
    a := II(a, b, c, d, x[12], 6, 0x655b59c3);
    s := Step(s, x, 3, 4);
    assert s == Quad(d, a, b, c);
    d := II(d, a, b, c, x[3], 10, 0x8f0ccc92);
    s := Step(s, x, 3, 5);
    assert s == Quad(c, d, a, b);
    c := II(c, d, a, b, x[10], 15, 0xffeff47d);
    s := Step(s, x, 3, 6);
    assert s == Quad(b, c, d, a);
    b := II(b, c, d, a, x[1], 21, 0x85845dd1);
    s := Step(s, x, 3, 7);
    assert s == Quad(a, b, c, d);
    a := II(a, b, c, d, x[8], 6, 0x6fa87e4f);
    s := Step(s, x, 3, 8);
    assert s == Quad(d, a, b, c);
    d := II(d, a, b, c, x[15], 10, 0xfe2ce6e0);
    s := Step(s, x, 3, 9);
    assert s == Quad(c, d, a, b);
    c := II(c, d, a, b, x[6], 15, 0xa3014314);
    s := Step(s, x, 3, 10);
    assert s == Quad(b, c, d, a);
    b := II(b, c, d, a, x[13], 21, 0x4e0811a1);
    s := Step(s, x, 3, 11);
    assert s == Quad(a, b, c, d);
    a := II(a, b, c, d, x[4], 6, 0xf7537e82);
    s := Step(s, x, 3, 12);
    assert s == Quad(d, a, b, c);
    d := II(d, a, b, c, x[11], 10, 0xbd3af235);
    s := Step(s, x, 3, 13);
    assert s == Quad(c, d, a, b);
    c := II(c, d, a, b, x[2], 15, 0x2ad7d2bb);
    s := Step(s, x, 3, 14);
    assert s == Quad(b, c, d, a);
    b := II(b, c, d, a, x[9], 21, 0xeb86d391);
    s := Step(s, x, 3, 15);
    assert s == Quad(a, b, c, d);
    q := Quad(a, b, c, d);
  }

  method AllRounds(q0: Quad, x: seq<word>) returns (q: Quad)
    requires |x| == 16
    ensures q == Rounds(q0, x)
  {
    q := Round1(q0, x);
    q := Round2(q, x);
    q := Round3(q, x);
    q := Round4(q, x);
  }

  // ----- Bytes and words, least significant byte first ------------------------------------------

  function EncodeWord(w: word): (bytes: seq<byte>)
    ensures |bytes| == 4
  {
    [w % 256, w / 256 % 256, w / 65536 % 256, w / 16777216 % 256]
  }

  function DecodeWord(b: seq<byte>): word
    requires |b| == 4
  {
    b[0] + (b[1] as int) * 256 + (b[2] as int) * 65536 + (b[3] as int) * 16777216
  }

  ghost function Encode(words: seq<word>): (bytes: seq<byte>)
    ensures |bytes| == 4 * |words|
  {
    seq(4 * |words|, k requires 0 <= k < 4 * |words| => EncodeWord(words[k / 4])[k % 4])
  }

  ghost function Decode(bytes: seq<byte>): (words: seq<word>)
    requires |bytes| % 4 == 0
    ensures 4 * |words| == |bytes|
  {
    seq(|bytes| / 4, k requires 0 <= k < |bytes| / 4 => DecodeWord(bytes[4 * k..4 * k + 4]))
  }

  lemma DecodeEncodeWord(w: word)
    ensures DecodeWord(EncodeWord(w)) == w
  {
    var q1 := w / 256;
    var q2 := q1 / 256;
    var q3 := q2 / 256;
    assert w / 65536 == q2 && w / 16777216 == q3 && q3 % 256 == q3;
    assert w == w % 256 + 256 * (q1 % 256 + 256 * (q2 % 256 + 256 * q3));
  }

  /** The bytes of a word weigh 1, 256, 256^2 and 256^3. */
  lemma LittleEndian(w: word)
    ensures var b := EncodeWord(w); w == b[0] + 256 * (b[1] as int) + 65536 * (b[2] as int) + 16777216 * (b[3] as int)
  {
    DecodeEncodeWord(w);
  }

  lemma EncodeDecodeWord(b: seq<byte>)
    requires |b| == 4
    ensures EncodeWord(DecodeWord(b)) == b
  {
    var v: int, b1: int, b2: int, b3: int := DecodeWord(b), b[1], b[2], b[3];
    assert v / 256 == b1 + b2 * 256 + b3 * 65536;
    assert v / 65536 == b2 + b3 * 256;
    assert v / 16777216 == b3;
  }

  lemma EncodedAt(words: seq<word>, k: nat)
    requires k < |words|
    ensures Encode(words)[4 * k..4 * k + 4] == EncodeWord(words[k])
  {
    forall r | 0 <= r < 4
      ensures Encode(words)[4 * k + r] == EncodeWord(words[k])[r]
    {
      assert (4 * k + r) / 4 == k && (4 * k + r) % 4 == r;
    }
  }

  lemma DecodeInvertsEncode(words: seq<word>)
    ensures Decode(Encode(words)) == words
  {
    forall k | 0 <= k < |words|
      ensures Decode(Encode(words))[k] == words[k]
    {
      EncodedAt(words, k);
      DecodeEncodeWord(words[k]);
    }
  }

  lemma EncodeInvertsDecode(bytes: seq<byte>)
    requires |bytes| % 4 == 0
    ensures Encode(Decode(bytes)) == bytes
  {
    forall k | 0 <= k < |bytes|
      ensures Encode(Decode(bytes))[k] == bytes[k]
    {
      var q, r := k / 4, k % 4;
      EncodeDecodeWord(bytes[4 * q..4 * q + 4]);
      assert bytes[4 * q..4 * q + 4][r] == bytes[k];
    }
  }

  method DecodeBlock(input: seq<byte>) returns (x: seq<word>)
    requires |input| == 64
    ensures x == Decode(input)
  {
    var output := new word[16];
    var i, j := 0, 0;
    while j < 64
      invariant i <= 16 && j == 4 * i
      invariant forall k :: 0 <= k < i ==> output[k] == DecodeWord(input[4 * k..4 * k + 4])
    {
      output[i] := DecodeWord(input[j..j + 4]);
      i, j := i + 1, j + 4;
    }
    x := output[..];
  }

  method EncodeArray(input: seq<word>) returns (bytes: seq<byte>)
    ensures bytes == Encode(input)
  {
    var len := 4 * |input|;
    var output := new byte[len];
    var i, j := 0, 0;
    while j < len
      invariant i <= |input| && j == 4 * i
      invariant forall k :: 0 <= k < j ==> output[k] == EncodeWord(input[k / 4])[k % 4]
    {
      var w := input[i];
      output[j], output[j + 1], output[j + 2], output[j + 3] := w % 256, w / 256 % 256, w / 65536 % 256, w / 16777216 % 256;
      i, j := i + 1, j + 4;
    }
    bytes := output[..];
  }

  // ----- The one-shot digest, RFC 1321 sections 3.1 to 3.5 --------------------------------------

  const INITIAL := Quad(0x67452301, 0xEFCDAB89, 0x98BADCFE, 0x10325476)

  /** The initial bytes count up by hexadecimal digits, from 01 to ef, and then down, from fe to 10. */
  lemma InitialBytes(k: nat)
    requires k < 16
    ensures Encode(QuadWords(INITIAL))[k] == if k < 8 then 0x22 * k + 1 else 0xfe - 0x22 * (k - 8)
  {
    var q, i := k / 4, k % 4;
    assert q == 0 || q == 1 || q == 2 || q == 3;
    InitialWord(q, i);
  }

  lemma InitialWord(q: nat, i: nat)
    requires q < 4 && i < 4
    ensures EncodeWord(QuadWords(INITIAL)[q])[i] == if q < 2 then 0x22 * (4 * q + i) + 1 else 0xfe - 0x22 * (4 * q + i - 8)
  {
    var b: seq<byte> :=
      if q == 0 then [0x01, 0x23, 0x45, 0x67] else if q == 1 then [0x89, 0xab, 0xcd, 0xef]
      else if q == 2 then [0xfe, 0xdc, 0xba, 0x98] else [0x76, 0x54, 0x32, 0x10];
    EncodeDecodeWord(b);
    assert DecodeWord(b) == QuadWords(INITIAL)[q];
  }

  function QuadWords(q: Quad): seq<word> { [q.a, q.b, q.c, q.d] }

  /** The sum of two words, wrapped to a word. */
  function Plus(x: word, y: word): word
  {
    if x + y < TWO_32 then x + y else x + y - TWO_32
  }

  /** Wordwise addition modulo 2^32. */
  function Add(q: Quad, r: Quad): Quad
  {
    Quad(Plus(q.a, r.a), Plus(q.b, r.b), Plus(q.c, r.c), Plus(q.d, r.d))
  }

  ghost function Compress(q: Quad, block: seq<byte>): Quad
    requires |block| == 64
  {
    Add(q, Rounds(q, Decode(block)))
  }

  ghost function Fold(blocks: seq<seq<byte>>): Quad
    requires forall k :: 0 <= k < |blocks| ==> |blocks[k]| == 64
  {
    if blocks == [] then INITIAL
    else Compress(Fold(blocks[..|blocks| - 1]), blocks[|blocks| - 1])
  }

  /** The whole 64-byte blocks of a message. */
  ghost function Blocks(m: seq<byte>): (blocks: seq<seq<byte>>)
    ensures |blocks| == |m| / 64 && forall k :: 0 <= k < |blocks| ==> |blocks[k]| == 64
  {
    seq(|m| / 64, k requires 0 <= k < |m| / 64 => m[64 * k..64 * k + 64])
  }

  /** The chaining value after the first `n` blocks of `m`. */
  ghost function ChainAfter(m: seq<byte>, n: nat): Quad
    requires n <= |m| / 64
  {
    Fold(Blocks(m)[..n])
  }

  lemma ChainNext(m: seq<byte>, n: nat)
    requires n < |m| / 64
    ensures ChainAfter(m, n + 1) == Compress(ChainAfter(m, n), Blocks(m)[n])
  {
    assert Blocks(m)[..n + 1][..n] == Blocks(m)[..n];
  }

  lemma ChainPrefix(m: seq<byte>, more: seq<byte>)
    ensures ChainAfter(m + more, |m| / 64) == ChainAfter(m, |m| / 64)
  {
    var n := |m| / 64;
    forall k | 0 <= k < n
      ensures Blocks(m + more)[k] == Blocks(m)[k]
    {
      assert (m + more)[64 * k..64 * k + 64] == m[64 * k..64 * k + 64];
    }
    assert Blocks(m + more)[..n] == Blocks(m)[..n];
  }

  /** `chain` lists the chaining values of `m`, one for every number of whole blocks. */
  ghost predicate Traces(chain: seq<Quad>, m: seq<byte>)
  {
    |chain| == |m| / 64 + 1 && forall n {:trigger ChainAfter(m, n)} :: 0 <= n <= |m| / 64 ==> chain[n] == ChainAfter(m, n)
  }

  /** More input does not change the chaining value of what is already whole. */
  lemma TracesAgree(chain: seq<Quad>, m: seq<byte>, longer: seq<Quad>, more: seq<byte>)
    requires Traces(chain, m) && Traces(longer, m + more)
    ensures longer[|m| / 64] == chain[|m| / 64]
  {
    ChainPrefix(m, more);
  }

  ghost function ChainOf(m: seq<byte>): (chain: seq<Quad>)
    ensures Traces(chain, m)
  {
    seq(|m| / 64 + 1, n requires 0 <= n <= |m| / 64 => ChainAfter(m, n))
  }

  const PADDING: seq<byte> := [0x80] + ZeroBytes(63)

  /** The bit length of `n` bytes modulo 2^64, as two words, the low one first. */
  ghost function LengthBytes(n: nat): (bytes: seq<byte>)
    ensures |bytes| == 8
  {
    var bits := 8 * n % TWO_64;
    Encode([bits % TWO_32, bits / TWO_32])
  }

  lemma PaddingCompletes(n: nat)
    ensures (n + 9 + (55 - n) % 64) % 64 == 0
  {
    var k := (55 - n) / 64;
    assert 55 - n == 64 * k + (55 - n) % 64;
    assert n + 9 + (55 - n) % 64 == 64 * (1 - k);
  }

  /** Section 3.1: a one bit, then as few zeros as bring the length to 56 modulo 64 bytes.
      Section 3.2: then the length. */
  ghost function Padded(m: seq<byte>): (p: seq<byte>)
    ensures |p| % 64 == 0 && m <= p
  {
    PaddingCompletes(|m|);
    m + [0x80] + ZeroBytes((55 - |m|) % 64) + LengthBytes(|m|)
  }

  ghost function Digest(m: seq<byte>): (d: seq<byte>)
    ensures |d| == 16
  {
    Encode(QuadWords(Fold(Blocks(Padded(m)))))
  }

  // ----- The streaming context ------------------------------------------------------------------

  /** The block cursor of `Update` is an `unsigned int`: `i + 64` must not wrap before the loop ends. */
  predicate CursorFits(partLen: nat, n: nat)
    requires 0 < partLen <= 64
  {
    n < TWO_32 - 64 + (if partLen == 64 then 0 else partLen)
  }

  /** The cursor when `k` blocks have been compressed from the input itself. */
  function Cursor(partLen: nat, k: nat): nat
  {
    partLen + 64 * k
  }

  lemma CursorStays(partLen: nat, n: nat, k: nat)
    requires 0 < partLen <= 64 && CursorFits(partLen, n) && Cursor(partLen, k) <= n
    ensures Cursor(partLen, k) + 64 < TWO_32
  {
    if partLen < 64 {
      assert k < TWO_32 / 64 - 1;
    } else {
      assert k < TWO_32 / 64 - 2;
    }
  }

  /** The exact meaning of that bound: the loop test `i + 64 <= inputLen`, in 32 bits, fails for some position that the
      cursor reaches by steps of 64. Above the bound it holds for every one, and the loop never ends. */
  lemma CursorFitsExactly(partLen: nat, n: nat)
    requires 0 < partLen <= 64 && partLen <= n < TWO_32
    ensures CursorFits(partLen, n) <==> exists k: nat :: LoopEnds(Cursor(partLen, k), n)
  {
    if CursorFits(partLen, n) {
      var k := (n - partLen) / 64;
      CursorStays(partLen, n, k);
      assert LoopEnds(Cursor(partLen, k), n);
    } else {
      forall k: nat
        ensures !LoopEnds(Cursor(partLen, k), n)
      {
        CursorReturns(partLen, k);
      }
    }
  }

  /** The 32-bit loop test of `Update` fails for a cursor that has wrapped as often as it did. */
  predicate LoopEnds(cursor: nat, n: nat)
  {
    (cursor % TWO_32 + 64) % TWO_32 > n
  }

  /** A wrapped cursor stays congruent to `partLen` modulo 64, so the test value never exceeds 2^32 - 64 plus that. */
  lemma CursorReturns(partLen: nat, k: nat)
    requires 0 < partLen <= 64
    ensures (Cursor(partLen, k) % TWO_32 + 64) % TWO_32 <= TWO_32 - 64 + partLen % 64
  {
    var i := Cursor(partLen, k);
    var w := i / TWO_32;
    assert i % TWO_32 == partLen + 64 * (k - TWO_32 / 64 * w);
    var t := (i % TWO_32 + 64) % TWO_32;
    assert t % 64 == partLen % 64;
  }

  /** A number in base 2^32 modulo 2^64 keeps its low digit and reduces the rest modulo 2^32. */
  lemma TwoWords(total: nat, k: nat, lo: u32, rest: nat)
    requires total == TWO_64 * k + lo + TWO_32 * rest
    ensures total % TWO_64 == lo + TWO_32 * (rest % TWO_32)
  {
    assert rest == TWO_32 * (rest / TWO_32) + rest % TWO_32;
    assert total == TWO_64 * (k + rest / TWO_32) + (lo + TWO_32 * (rest % TWO_32));
  }

  /** The two words hold the number of bits of `total` bytes modulo 2^64. */
  ghost predicate Counts(lo: u32, hi: u32, total: nat)
  {
    lo + TWO_32 * hi == 8 * total % TWO_64
  }

  lemma LengthWords(lo: u32, hi: u32, total: nat)
    requires Counts(lo, hi, total)
    ensures Encode([lo, hi]) == LengthBytes(total)
  {
    var bits := 8 * total % TWO_64;
    assert lo == bits % TWO_32 && hi == bits / TWO_32;
  }

  lemma ModSum(x: nat, y: nat)
    ensures (x % TWO_32 + y) % TWO_32 == (x + y) % TWO_32
  {
    var k := x / TWO_32;
    assert x + y == TWO_32 * k + (x % TWO_32 + y);
  }

  /** Adding to the low word: the sum wrapped exactly when it came out below the addend. */
  lemma LowWord(lo: u32, bits: u32)
    ensures var lo' := (lo + bits) % TWO_32;
            var carry := if lo' < bits then 1 else 0;
            lo + bits == lo' + TWO_32 * carry
  {
    assert (lo + bits) % TWO_32 == if lo + bits < TWO_32 then lo + bits else lo + bits - TWO_32;
  }

  /** The two-word bit counter of `Update` is addition modulo 2^64. */
  lemma CountCarries(lo: u32, hi: u32, total: nat, n: nat)
    requires n < TWO_32 && Counts(lo, hi, total)
    ensures var bits := n * 8 % TWO_32;
            var lo' := (lo + bits) % TWO_32;
            var carried := if lo' < bits then (hi + 1) % TWO_32 else hi;
            Counts(lo', (carried + n / 0x2000_0000) % TWO_32, total + n)
  {
    var bits, high, k := n * 8 % TWO_32, n / 0x2000_0000, 8 * total / TWO_64;
    assert 8 * n == bits + TWO_32 * high;
    LowWord(lo, bits);
    var lo' := (lo + bits) % TWO_32;
    var carry := if lo' < bits then 1 else 0;
    assert 8 * total == TWO_64 * k + lo + TWO_32 * hi;
    TwoWords(8 * (total + n), k, lo', hi + carry + high);
    HighWord(hi, carry, high);
  }

  lemma HighWord(hi: u32, carry: nat, high: nat)
    requires carry <= 1
    ensures ((if carry == 1 then (hi + 1) % TWO_32 else hi) + high) % TWO_32 == (hi + carry + high) % TWO_32
  {
    ModSum(hi + carry, high);
  }

  /** The low six bits of the byte count are the length of the unprocessed tail. */
  lemma IndexIsTail(lo: u32, hi: u32, total: nat)
    requires Counts(lo, hi, total)
    ensures lo / 8 % 64 == total % 64
  {
    var k := 8 * total / TWO_64;
    assert 8 * total == TWO_64 * k + lo + TWO_32 * hi;
    var q := total - TWO_64 / 8 * k - TWO_32 / 8 * hi;
    assert lo == 8 * q;
    DivMod(total, q / 64 + TWO_64 / 512 * k + TWO_32 / 512 * hi, q % 64);
  }

  lemma DivMod(x: nat, n: nat, t: nat)
    requires x == 64 * n + t && t < 64
    ensures x / 64 == n && x % 64 == t
  {
  }

  /** Block `n` of `pre + input` lies at offset `i` of the input. */
  lemma InputBlock(pre: seq<byte>, input: seq<byte>, i: nat, n: nat)
    requires |pre| + i == 64 * n && i + 64 <= |input|
    ensures (pre + input)[64 * n..64 * n + 64] == input[i..i + 64]
  {
  }

  /** The first block completed by new input: the held tail, then the start of the input. */
  lemma HeldBlock(m: seq<byte>, input: seq<byte>, n: nat, h: nat, b: seq<byte>, b': seq<byte>)
    requires |m| == 64 * n + h && h < 64 && |b| == 64 && h + |input| >= 64
    requires b[..h] == m[64 * n..] && b' == b[..h] + input[..64 - h] + b[64..]
    ensures b' == (m + input)[64 * n..64 * n + 64]
  {
  }

  /** The new tail, when no block or every whole block of the input has been consumed up to `i`. */
  lemma NewTail(m: seq<byte>, input: seq<byte>, n: nat, i: nat, h: nat, b: seq<byte>, b': seq<byte>)
    requires |m| + i == 64 * n + h && |b| == 64 && i <= |input| && h + |input| - i < 64
    requires if i == 0 then b[..h] == m[64 * n..] else h == 0
    requires b' == b[..h] + input[i..] + b[h + |input| - i..]
    ensures var all := m + input; all[64 * n..] == b'[..|all| - 64 * n] && |all| - 64 * n < 64
  {
    var all := m + input;
    if i > 0 {
      assert all[64 * n..] == input[i..];
    } else {
      assert all[64 * n..] == m[64 * n..] + input;
    }
  }

  /** `Final` appends the padding and the length as two pieces; together they complete the padded message. */
  lemma PaddedInTwoSteps(m: seq<byte>, padLen: nat, bits: seq<byte>)
    requires padLen == if |m| % 64 < 56 then 56 - |m| % 64 else 120 - |m| % 64
    requires bits == LengthBytes(|m|)
    ensures m + PADDING[..padLen] + bits == Padded(m)
  {
    assert (55 - |m|) % 64 == padLen - 1;
    assert PADDING[..padLen] == [0x80] + ZeroBytes(padLen - 1);
  }

  lemma WholeBlocks(m: seq<byte>, chain: seq<Quad>)
    requires |m| % 64 == 0 && Traces(chain, m)
    ensures chain[|m| / 64] == Fold(Blocks(m))
  {
    assert chain[|m| / 64] == ChainAfter(m, |m| / 64);
    assert Blocks(m)[..|m| / 64] == Blocks(m);
  }

  /** Every chunk is one `Update` can take after `total` bytes have gone before. */
  ghost predicate ChunksFit(chunks: seq<seq<byte>>, total: nat)
  {
    chunks == [] || (CursorFits(64 - total % 64, |chunks[0]|) && ChunksFit(chunks[1..], total + |chunks[0]|))
  }

  lemma NextChunk(chunks: seq<seq<byte>>, k: nat)
    requires k < |chunks|
    ensures chunks[k..][1..] == chunks[k + 1..]
    ensures Flatten(chunks[..k + 1]) == Flatten(chunks[..k]) + chunks[k]
  {
    assert chunks[..k + 1] == chunks[..k] + [chunks[k]];
    FlattenAppend(chunks[..k], chunks[k]);
  }

  class Context {
    const count: array<u32>
    const state: array<word>
    const buffer: array<byte>
    /** Everything absorbed so far. */
    ghost var msg: seq<byte>
    /** The chaining value after every whole block of it. */
    ghost var chain: seq<Quad>

    ghost predicate Shape()
    {
      count.Length == 2 && state.Length == 4 && buffer.Length == 64 && count != state
    }

    ghost function Chain(): Quad
      requires Shape()
      reads state
    {
      Quad(state[0], state[1], state[2], state[3])
    }

    ghost predicate Valid()
      reads this, count, state, buffer
    {
      var tail := |msg| % 64;
      && Shape()
      && Counts(count[0], count[1], |msg|)
      && Traces(chain, msg) && Chain() == chain[|msg| / 64]
      && buffer[..tail] == msg[|msg| - tail..]
    }

    constructor ()
      ensures Valid() && msg == [] && fresh(count) && fresh(state) && fresh(buffer)
    {
      count, state, buffer := new u32[2], new word[4], new byte[64];
      new;
      Init();
    }

    method Init()
      requires Shape()
      modifies this, count, state
      ensures Valid() && msg == []
    {
      count[0] := 0;
      count[1] := 0;
      state[0] := 0x67452301;
      state[1] := 0xEFCDAB89;
      state[2] := 0x98BADCFE;
      state[3] := 0x10325476;
      msg, chain := [], ChainOf([]);
      assert Chain() == ChainAfter([], 0);
    }

    /** In-place compression of one block. */
    method Transform(block: seq<byte>)
      requires Shape() && |block| == 64
      modifies state
      ensures Chain() == Compress(old(Chain()), block)
    {
      var a, b, c, d := state[0], state[1], state[2], state[3];
      var x := DecodeBlock(block);
      var q := AllRounds(Quad(a, b, c, d), x);
      var r := Add(Quad(a, b, c, d), q);
      state[0], state[1], state[2], state[3] := r.a, r.b, r.c, r.d;
    }

    /** Compress block `n` of `m`. */
    method Absorb(block: seq<byte>, ghost m: seq<byte>, ghost chain: seq<Quad>, ghost n: nat)
      requires Shape() && 64 * n + 64 <= |m| && block == m[64 * n..64 * n + 64]
      requires Traces(chain, m) && Chain() == chain[n]
      modifies state
      ensures Chain() == chain[n + 1]
    {
      ChainNext(m, n);
      Transform(block);
    }

    /** The 64-bit count of message bits, kept in two words with the carry made by hand. */
    method CountBits(inputLen: u32, ghost total: nat, ghost newTotal: nat)
      requires Shape() && Counts(count[0], count[1], total) && newTotal == total + inputLen
      modifies count
      ensures Counts(count[0], count[1], newTotal)
    {
      ghost var lo, hi := count[0], count[1];
      assert Counts(lo, hi, total);
      var bits := inputLen * 8 % TWO_32;
      count[0] := (count[0] + bits) % TWO_32;
      if count[0] < bits {
        count[1] := (count[1] + 1) % TWO_32;
      }
      count[1] := (count[1] + inputLen / 0x2000_0000) % TWO_32;
      assert Counts(count[0], count[1], newTotal) by {
        CountCarries(lo, hi, total, inputLen);
      }
    }

    method Index() returns (index: nat)
      requires Valid()
      ensures index == |msg| % 64
    {
      IndexIsTail(count[0], count[1], |msg|);
      index := count[0] / 8 % 64;
    }

    method Update(input: seq<byte>)
      requires Valid() && CursorFits(64 - |msg| % 64, |input|)
      modifies this, count, state, buffer
      ensures Valid() && msg == old(msg) + input
    {
      var index := Index();
      ghost var whole := msg + input;
      CountBits(|input|, |msg|, |whole|);
      ghost var longer := ChainOf(whole);
      TracesAgree(chain, msg, longer, input);
      ghost var n := Consume(input, index, msg, longer, |msg| / 64);
      Record(whole, longer, n);
    }

    ghost method Record(whole: seq<byte>, longer: seq<Quad>, n: nat)
      requires Shape() && Counts(count[0], count[1], |whole|) && Traces(longer, whole)
      requires 64 * n <= |whole| < 64 * n + 64
      requires buffer[..|whole| - 64 * n] == whole[64 * n..] && Chain() == longer[n]
      modifies this`msg, this`chain
      ensures Valid() && msg == whole
    {
      DivMod(|whole|, n, |whole| - 64 * n);
      msg, chain := whole, longer;
    }

    /** The copying half of `Update`: with `index` bytes of `m` held back, take in `input`. */
    method Consume(input: seq<byte>, index: nat, ghost m: seq<byte>, ghost chain: seq<Quad>, ghost n0: nat) returns (ghost n: nat)
      requires Shape() && index < 64 && CursorFits(64 - index, |input|)
      requires |m| == 64 * n0 + index && buffer[..index] == m[64 * n0..]
      requires Traces(chain, m + input) && Chain() == chain[n0]
      modifies state, buffer
      ensures 64 * n <= |m + input| < 64 * n + 64
      ensures buffer[..|m + input| - 64 * n] == (m + input)[64 * n..] && Chain() == chain[n]
    {
      ghost var b := buffer[..];
      n := n0;
      if |input| >= 64 - index {
        Memcpy(buffer, index, input[..64 - index]);
        HeldBlock(m, input, n, index, b, buffer[..]);
        Absorb(buffer[..], m + input, chain, n);
        b := buffer[..];
        var i;
        i, n := AbsorbBlocks(input, 64 - index, m, chain, n + 1);
        Memcpy(buffer, 0, input[i..]);
        NewTail(m, input, n, i, 0, b, buffer[..]);
      } else {
        Memcpy(buffer, index, input);
        NewTail(m, input, n, 0, index, b, buffer[..]);
      }
    }

    /** The block loop of `Update`: from cursor `partLen`, compress every whole block left in the input. */
    method AbsorbBlocks(input: seq<byte>, partLen: nat, ghost pre: seq<byte>, ghost chain: seq<Quad>, ghost n0: nat)
      returns (i: nat, ghost n: nat)
      requires Shape() && 0 < partLen <= 64 && partLen <= |input| && CursorFits(partLen, |input|)
      requires |pre| + partLen == 64 * n0 && Traces(chain, pre + input) && Chain() == chain[n0]
      modifies state
      ensures 0 < i <= |input| < i + 64 && |pre| + i == 64 * n && Chain() == chain[n]
    {
      i, n := partLen, n0;
      CursorStays(partLen, |input|, 0);
      while i + 64 <= |input|
        invariant n0 <= n && i == Cursor(partLen, n - n0) <= |input| && |pre| + i == 64 * n
        invariant i + 64 < TWO_32
        invariant Chain() == chain[n]
      {
        InputBlock(pre, input, i, n);
        Absorb(input[i..i + 64], pre + input, chain, n);
        i, n := i + 64, n + 1;
        CursorStays(partLen, |input|, n - n0);
      }
    }

    method Final() returns (digest: seq<byte>)
      requires Valid()
      modifies this, count, state, buffer
      ensures digest == Digest(old(msg))
    {
      var index := Index();
      var padLen := if index < 56 then 56 - index else 120 - index;
      var bits := EncodeArray([count[0], count[1]]);
      LengthWords(count[0], count[1], |msg|);
      ghost var m := msg;
      PaddedInTwoSteps(m, padLen, bits);
      Update(PADDING[..padLen]);
      Update(bits);
      WholeBlocks(msg, chain);
      digest := EncodeArray([state[0], state[1], state[2], state[3]]);
    }

    method UpdateAll(chunks: seq<seq<byte>>)
      requires Valid() && ChunksFit(chunks, |msg|)
      modifies this, count, state, buffer
      ensures Valid() && msg == old(msg) + Flatten(chunks)
    {
      for k := 0 to |chunks|
        invariant Valid() && msg == old(msg) + Flatten(chunks[..k])
        invariant ChunksFit(chunks[k..], |msg|)
      {
        NextChunk(chunks, k);
        assert old(msg) + Flatten(chunks[..k]) + chunks[k] == old(msg) + Flatten(chunks[..k + 1]);
        Update(chunks[k]);
      }
      assert chunks[..|chunks|] == chunks;
    }
  }

  // ----- Streaming is one-shot ------------------------------------------------------------------

  /** However a message is cut into `Update` calls, the digest is that of the whole message. */
  method DigestOfChunks(chunks: seq<seq<byte>>) returns (digest: seq<byte>)
    requires ChunksFit(chunks, 0)
    ensures digest == Digest(Flatten(chunks))
  {
    var context := new Context();
    context.UpdateAll(chunks);
    assert [] + Flatten(chunks) == Flatten(chunks);
    digest := context.Final();
  }
}
