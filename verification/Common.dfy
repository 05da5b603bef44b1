/** Types and list facts shared by the models of the driver's engines. */
module Common {

  type byte = x: int | 0 <= x < 256

  /** An `unsigned int`. */
  type u32 = x: int | 0 <= x < TWO_32

  const TWO_32 := 0x1_0000_0000

  // ----- Numbers modulo 2^32 --------------------------------------------------------------------

  const HALF := 0x8000_0000

  function Minus(a: u32, b: u32): (d: u32)
  {
    if a >= b then a - b else a - b + TWO_32
  }

  /** The distance from `b` forward to `a`. */
  lemma MinusIs(a: u32, b: u32)
    ensures (b + Minus(a, b)) % TWO_32 == a
  {
  }

  /** `U32_BEFORE`: the difference, read as a signed number, is not positive. */
  predicate U32Before(a: u32, b: u32)
  {
    Minus(a, b) == 0 || Minus(a, b) >= HALF
  }

  /** `time_after`, for a 32-bit `unsigned long` */
  predicate TimeAfter(a: u32, b: u32) { Minus(b, a) >= HALF }

  /** `time_before_eq`, which differs from `U32_BEFORE` for numbers exactly half the circle apart. */
  predicate TimeBeforeEq(a: u32, b: u32) { Minus(b, a) < HALF }

  // ----- Lists ----------------------------------------------------------------------------------

  datatype Option<+T> = None | Some(value: T)

  /** The concatenation of a list of lists. */
  function Flatten<T>(lists: seq<seq<T>>): (flat: seq<T>)
  {
    if lists == [] then [] else lists[0] + Flatten(lists[1..])
  }

  lemma {:induction false} FlattenConcat<T>(xs: seq<seq<T>>, ys: seq<seq<T>>)
    ensures Flatten(xs + ys) == Flatten(xs) + Flatten(ys)
  {
    if xs == [] {
      assert xs + ys == ys;
    } else {
      assert (xs + ys)[1..] == xs[1..] + ys;
      FlattenConcat(xs[1..], ys);
    }
  }

  lemma AppendAssociative<T>(a: seq<T>, b: seq<T>, c: seq<T>)
    ensures a + (b + c) == (a + b) + c
  {
  }

  lemma FlattenAppend<T>(xs: seq<seq<T>>, y: seq<T>)
    ensures Flatten(xs + [y]) == Flatten(xs) + y
  {
    FlattenConcat(xs, [y]);
    assert Flatten([y]) == y;
  }

  /** `n` rounded up to a multiple of 4, the alignment both buses use. */
  function RoundUp4(n: nat): (r: nat)
    ensures r % 4 == 0 && n <= r < n + 4
  {
    (n + 3) / 4 * 4
  }

  lemma RoundUp4Aligned(n: nat)
    ensures RoundUp4(RoundUp4(n)) == RoundUp4(n)
  {
    var k := (n + 3) / 4;
    assert (4 * k + 3) / 4 == k;
  }

  lemma RoundUp4Bound(n: nat, k: nat)
    requires n <= 4 * k
    ensures RoundUp4(n) <= 4 * k
  {
    assert (n + 3) / 4 <= k;
  }

  // ----- Bitwise operators on unsigned numbers, digit by binary digit ----------------------------

  function BitAnd(x: nat, y: nat): nat
  {
    if x == 0 || y == 0 then 0
    else (if x % 2 == 1 && y % 2 == 1 then 1 else 0) + 2 * BitAnd(x / 2, y / 2)
  }

  function BitOr(x: nat, y: nat): nat
    decreases x + y
  {
    if x == 0 && y == 0 then 0
    else (if x % 2 == 1 || y % 2 == 1 then 1 else 0) + 2 * BitOr(x / 2, y / 2)
  }

  function BitXor(x: nat, y: nat): nat
    decreases x + y
  {
    if x == 0 && y == 0 then 0
    else (if x % 2 != y % 2 then 1 else 0) + 2 * BitXor(x / 2, y / 2)
  }

  /** Binary digit `k` of `x`. */
  function Bit(x: nat, k: nat): (b: nat)
    ensures b < 2
  {
    if k == 0 then x % 2 else Bit(x / 2, k - 1)
  }

  function Pow2(n: nat): (p: nat)
    ensures p > 0
  {
    if n == 0 then 1 else 2 * Pow2(n - 1)
  }

  lemma {:induction false} BitIsDigit(x: nat, k: nat)
    ensures Bit(x, k) == x / Pow2(k) % 2
  {
    if k > 0 {
      BitIsDigit(x / 2, k - 1);
      HalfFirst(x, Pow2(k - 1));
    }
  }

  lemma HalfFirst(x: nat, p: nat)
    requires p > 0
    ensures x / (2 * p) == x / 2 / p
  {
    var h := x / 2;
    var q, r := h / p, h % p;
    assert h == p * q + r;
    assert x == 2 * p * q + (2 * r + x % 2);
    QuotientIs(x, 2 * p, q, 2 * r + x % 2);
  }

  lemma QuotientIs(x: nat, d: nat, q: nat, r: nat)
    requires x == d * q + r && r < d
    ensures x / d == q && x % d == r
  {
    var e := x / d - q;
    assert d * e == r - x % d;
    assert e >= 1 ==> d * e >= d;
    assert e <= -1 ==> d * e + d <= 0;
  }

  lemma {:induction false} BitOfAnd(x: nat, y: nat, k: nat)
    ensures Bit(BitAnd(x, y), k) == if Bit(x, k) == 1 && Bit(y, k) == 1 then 1 else 0
  {
    if x == 0 || y == 0 {
      BitOfZero(k);
    } else if k > 0 {
      BitOfAnd(x / 2, y / 2, k - 1);
    }
  }

  lemma {:induction false} BitOfOr(x: nat, y: nat, k: nat)
    ensures Bit(BitOr(x, y), k) == if Bit(x, k) == 1 || Bit(y, k) == 1 then 1 else 0
    decreases k
  {
    if x == 0 && y == 0 {
      BitOfZero(k);
    } else if k > 0 {
      BitOfOr(x / 2, y / 2, k - 1);
    }
  }

  lemma {:induction false} BitOfXor(x: nat, y: nat, k: nat)
    ensures Bit(BitXor(x, y), k) == if Bit(x, k) != Bit(y, k) then 1 else 0
    decreases k
  {
    if x == 0 && y == 0 {
      BitOfZero(k);
    } else if k > 0 {
      BitOfXor(x / 2, y / 2, k - 1);
    }
  }

  lemma {:induction false} BitOfZero(k: nat)
    ensures Bit(0, k) == 0
  {
    if k > 0 {
      BitOfZero(k - 1);
    }
  }

  /** The one's complement within `n` digits. */
  lemma {:induction false} BitOfComplement(x: nat, n: nat, k: nat)
    requires x < Pow2(n) && k < n
    ensures Bit(Pow2(n) - 1 - x, k) == 1 - Bit(x, k)
  {
    if k > 0 {
      assert (Pow2(n) - 1 - x) / 2 == Pow2(n - 1) - 1 - x / 2;
      BitOfComplement(x / 2, n - 1, k - 1);
    }
  }

  /** Digits that do not overlap can be added. */
  lemma {:induction false} OrIsSum(x: nat, y: nat, n: nat)
    requires x % Pow2(n) == 0 && y < Pow2(n)
    ensures BitOr(x, y) == x + y
    decreases n
  {
    if n == 0 {
      OrZero(x);
    } else if x > 0 || y > 0 {
      var q := x / Pow2(n);
      assert x == 2 * (Pow2(n - 1) * q);
      QuotientIs(x / 2, Pow2(n - 1), q, 0);
      OrIsSum(x / 2, y / 2, n - 1);
    }
  }

  lemma {:induction false} OrZero(x: nat)
    ensures BitOr(x, 0) == x
  {
    if x > 0 {
      OrZero(x / 2);
    }
  }

  function ZeroBytes(n: nat): (z: seq<byte>)
    ensures |z| == n && forall k :: 0 <= k < n ==> z[k] == 0
  {
    seq(n, _ => 0)
  }

  // ----- Copying into a buffer ------------------------------------------------------------------

  method Memcpy(target: array<byte>, at: nat, source: seq<byte>)
    requires at + |source| <= target.Length
    modifies target
    ensures target[..] == old(target[..at]) + source + old(target[at + |source|..])
  {
    forall k | 0 <= k < |source| {
      target[at + k] := source[k];
    }
  }
}
