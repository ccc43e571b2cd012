/** Integer bit operations as Swift evaluates them on `Int` (`^`, `&`, `|`,
    `<<`, `>>`), and the bit-sequence views of integers that the encoder uses:
    least- and most-significant-first bit lists, the value read back from
    them, the number of significant bits and the number of set bits.
    Integers are unbounded here; every value the encoder shifts stays far
    below 2^63, so no wrap-around is modelled. */
module Bits {

  function Pow2(n: nat): (r: nat)
    ensures r >= 1
  {
    if n == 0 then 1 else 2 * Pow2(n - 1)
  }

  lemma {:induction false} Pow2Add(a: nat, b: nat)
    ensures Pow2(a + b) == Pow2(a) * Pow2(b)
  {
    if a > 0 {
      Pow2Add(a - 1, b);
    }
  }

  lemma {:induction false} Pow2Monotone(a: nat, b: nat)
    requires a <= b
    ensures Pow2(a) <= Pow2(b)
  {
    if a < b {
      Pow2Monotone(a, b - 1);
    }
  }

  // ---------------------------------------------------------------------
  // Exclusive or, and, or

  /** Exclusive or of two non-negative integers, bit by bit. */
  function NatXor(a: nat, b: nat): nat
    decreases a + b
  {
    if a == 0 && b == 0 then 0 else 2 * NatXor(a / 2, b / 2) + (if a % 2 == b % 2 then 0 else 1)
  }

  /** Swift's `^` on `Int`: exclusive or of the two's complement forms
      (the complement of a negative `a` is the non-negative `-1 - a`). */
  function Xor(a: int, b: int): int
  {
    if a >= 0 && b >= 0 then NatXor(a, b)
    else if a < 0 && b < 0 then NatXor(-1 - a, -1 - b)
    else if a < 0 then -1 - NatXor(-1 - a, b)
    else -1 - NatXor(a, -1 - b)
  }

  /** Swift's `&` on non-negative `Int`s. */
  function And(a: nat, b: nat): nat
    decreases a + b
  {
    if a == 0 || b == 0 then 0 else 2 * And(a / 2, b / 2) + (a % 2) * (b % 2)
  }

  /** Swift's `|` on non-negative `Int`s. */
  function Or(a: nat, b: nat): nat
    decreases a + b
  {
    if a == 0 then b
    else if b == 0 then a
    else 2 * Or(a / 2, b / 2) + (if a % 2 == 1 || b % 2 == 1 then 1 else 0)
  }

  lemma {:induction false} NatXorComm(a: nat, b: nat)
    ensures NatXor(a, b) == NatXor(b, a)
    decreases a + b
  {
    if a != 0 || b != 0 {
      NatXorComm(a / 2, b / 2);
    }
  }

  lemma {:induction false} NatXorSelf(a: nat)
    ensures NatXor(a, a) == 0
    decreases a
  {
    if a != 0 {
      NatXorSelf(a / 2);
    }
  }

  lemma {:induction false} NatXorZero(a: nat)
    ensures NatXor(a, 0) == a && NatXor(0, a) == a
    decreases a
  {
    if a != 0 {
      NatXorZero(a / 2);
    }
  }

  /** Exclusive or never sets a bit above the operands' widths. */
  lemma {:induction false} NatXorBound(a: nat, b: nat, k: nat)
    requires a < Pow2(k) && b < Pow2(k)
    ensures NatXor(a, b) < Pow2(k)
    decreases k
  {
    if k > 0 && (a != 0 || b != 0) {
      NatXorBound(a / 2, b / 2, k - 1);
    }
  }

  /** Exclusive or with the same value twice is the identity. */
  lemma {:induction false} NatXorCancel(a: nat, c: nat)
    ensures NatXor(NatXor(a, c), c) == a
    decreases a + c
  {
    var x := NatXor(a, c);
    if a == 0 && c == 0 {
    } else if x == 0 && c == 0 {
      NatXorZero(a);
    } else {
      NatXorCancel(a / 2, c / 2);
      assert x / 2 == NatXor(a / 2, c / 2);
      assert x % 2 == (if a % 2 == c % 2 then 0 else 1);
    }
  }

  lemma XorComm(a: int, b: int)
    ensures Xor(a, b) == Xor(b, a)
  {
    NatXorComm(if a < 0 then -1 - a else a, if b < 0 then -1 - b else b);
  }

  lemma XorSelf(a: int)
    ensures Xor(a, a) == 0
  {
    NatXorSelf(if a < 0 then -1 - a else a);
  }

  lemma XorZero(a: int)
    ensures Xor(a, 0) == a && Xor(0, a) == a
  {
    NatXorZero(if a < 0 then -1 - a else a);
  }

  /** One level of xor, with the halves of both operands given explicitly. */
  lemma NatXorSplit(a: nat, b: nat, qa: nat, ra: nat, qb: nat, rb: nat)
    requires a == 2 * qa + ra && ra < 2 && b == 2 * qb + rb && rb < 2
    ensures NatXor(a, b) == 2 * NatXor(qa, qb) + (if ra == rb then 0 else 1)
  {
    assert a / 2 == qa && a % 2 == ra;
    assert b / 2 == qb && b % 2 == rb;
    if a == 0 && b == 0 {
      assert NatXor(0, 0) == 0;
    }
  }

  /** Xor with the same value twice is the identity, on all integers. */
  lemma XorCancel(a: int, b: int)
    ensures Xor(Xor(a, b), b) == a
  {
    NatXorCancel(if a < 0 then -1 - a else a, if b < 0 then -1 - b else b);
  }

  /** On non-negative operands below 2^k the result stays below 2^k. */
  lemma XorBound(a: int, b: int, k: nat)
    requires 0 <= a < Pow2(k) && 0 <= b < Pow2(k)
    ensures 0 <= Xor(a, b) < Pow2(k)
  {
    NatXorBound(a, b, k);
  }

  lemma {:induction false} AndAtMost(a: nat, b: nat)
    ensures And(a, b) <= b && And(a, b) <= a
    decreases a + b
  {
    if a != 0 && b != 0 {
      AndAtMost(a / 2, b / 2);
    }
  }

  /** Masking with 2^k - 1 keeps the low k bits. */
  lemma {:induction false} AndLowMask(a: nat, k: nat)
    ensures And(a, Pow2(k) - 1) == a % Pow2(k)
    decreases k
  {
    if k == 0 {
    } else if a == 0 {
    } else {
      AndLowMask(a / 2, k - 1);
      assert (Pow2(k) - 1) / 2 == Pow2(k - 1) - 1;
      assert (Pow2(k) - 1) % 2 == 1;
      ModHalf(a, k);
    }
  }

  lemma ModHalf(a: nat, k: nat)
    requires k > 0
    ensures a % Pow2(k) == 2 * ((a / 2) % Pow2(k - 1)) + a % 2
  {
    var p := Pow2(k - 1);
    var q := (a / 2) / p;
    var r := (a / 2) % p;
    assert a / 2 == q * p + r;
    assert a == q * (2 * p) + (2 * r + a % 2);
    assert 0 <= 2 * r + a % 2 < 2 * p;
    DivModUnique(a, 2 * p, q, 2 * r + a % 2);
  }

  lemma DivModUnique(a: int, d: int, q: int, r: int)
    requires d > 0 && a == q * d + r && 0 <= r < d
    ensures a % d == r && a / d == q
  {
    var q', r' := a / d, a % d;
    assert (q' - q) * d == r - r' by {
      assert q' * d + r' == q * d + r;
    }
    if q' > q {
      MulAtLeast(q' - q, d);
    } else if q' < q {
      MulAtLeast(q - q', d);
    }
  }

  lemma MulAtLeast(x: int, d: int)
    requires x >= 1 && d > 0
    ensures x * d >= d
  {
    assert x * d == (x - 1) * d + d;
    assert (x - 1) * d >= 0;
  }

  /** `v & 1` is the lowest bit. */
  lemma AndOne(v: nat)
    ensures And(v, 1) == v % 2
  {
    AndLowMask(v, 1);
  }

  lemma {:induction false} OrZero(a: nat)
    ensures Or(a, 0) == a
  {
  }

  /** Or-ing in a bit that is not set yet adds its weight. */
  lemma {:induction false} OrFreshBit(x: nat, k: nat)
    requires x % Pow2(k + 1) == 0
    ensures Or(x, Pow2(k)) == x + Pow2(k)
    decreases k
  {
    if x == 0 {
    } else if k == 0 {
      assert x % 2 == 0;
      assert Or(x / 2, 0) == x / 2;
    } else {
      ModHalf(x, k + 1);
      assert x % 2 == 0;
      OrFreshBit(x / 2, k - 1);
    }
  }

  /** Or-ing a value below 2^k into a multiple of 2^k adds it. */
  lemma {:induction false} OrLowBits(a: nat, m: nat, k: nat)
    requires a % Pow2(k) == 0 && m < Pow2(k)
    ensures Or(a, m) == a + m
    decreases k
  {
    if a != 0 && m != 0 {
      assert k > 0;
      ModHalf(a, k);
      OrLowBits(a / 2, m / 2, k - 1);
    }
  }

  /** Swift's `/` on `Int`: the quotient truncated toward zero. */
  function SwiftDiv(a: int, b: int): (r: int)
    requires b != 0
    ensures a >= 0 && b > 0 ==> r == a / b
  {
    var q := (if a < 0 then -a else a) / (if b < 0 then -b else b);
    if (a < 0) != (b < 0) then -q else q
  }

  /** Swift's `%` on `Int`: the remainder of the truncated quotient, which
      takes the sign of the dividend. */
  function SwiftRem(a: int, b: int): (r: int)
    requires b != 0
    ensures a == b * SwiftDiv(a, b) + r
    ensures a >= 0 ==> 0 <= r && (r < b || r < -b)
    ensures a < 0 ==> r <= 0 && (-r < b || -r < -b)
    ensures a >= 0 && b > 0 ==> r == a % b
  {
    a - b * SwiftDiv(a, b)
  }

  // ---------------------------------------------------------------------
  // Bit-sequence views

  /** Number of set bits of a positive value; 0 for values <= 0. */
  function PopCount(v: int): nat
    decreases if v < 0 then 0 else v
  {
    if v <= 0 then 0 else v % 2 + PopCount(v / 2)
  }

  /** Number of significant bits of a positive value; 0 for values <= 0. */
  function BitLength(v: int): nat
    decreases if v < 0 then 0 else v
  {
    if v <= 0 then 0 else 1 + BitLength(v / 2)
  }

  /** The bits of a positive value, least significant first, up to its
      highest set bit; empty for values <= 0. */
  function LsbBits(v: int): seq<bool>
    decreases if v < 0 then 0 else v
  {
    if v <= 0 then [] else [v % 2 == 1] + LsbBits(v / 2)
  }

  function Reverse<T>(s: seq<T>): (r: seq<T>)
    ensures |r| == |s|
  {
    if s == [] then [] else Reverse(s[1..]) + [s[0]]
  }

  function CountTrue(s: seq<bool>): nat
  {
    if s == [] then 0 else (if s[0] then 1 else 0) + CountTrue(s[1..])
  }

  /** The value of a bit list read least significant first. */
  function ValueLsb(s: seq<bool>): nat
  {
    if s == [] then 0 else (if s[0] then 1 else 0) + 2 * ValueLsb(s[1..])
  }

  /** The value of a bit list read most significant first. */
  function ValueMsb(s: seq<bool>): nat
  {
    if s == [] then 0 else 2 * ValueMsb(s[..|s| - 1]) + (if s[|s| - 1] then 1 else 0)
  }

  function Zeros(n: nat): (r: seq<bool>)
    ensures |r| == n && forall i :: 0 <= i < n ==> !r[i]
  {
    seq(n, _ => false)
  }

  /** The two operands of a concatenation come back as its prefix and
      suffix. */
  lemma ConcatParts<T>(a: seq<T>, b: seq<T>)
    ensures (a + b)[..|a|] == a && (a + b)[|a|..] == b
  {
  }

  /** Concatenation is associative. */
  lemma AppendAssoc<T>(a: seq<T>, b: seq<T>, c: seq<T>)
    ensures (a + b) + c == a + (b + c)
  {
  }

  /** The prefix of a sequence as long as the sequence is the sequence. */
  lemma WholePrefix<T>(s: seq<T>, n: int)
    requires n == |s|
    ensures s[..n] == s
  {
  }

  /** The prefix one longer is the prefix followed by the next element. */
  lemma PrefixStep<T>(s: seq<T>, i: int)
    requires 0 <= i < |s|
    ensures s[..i + 1] == s[..i] + [s[i]]
  {
  }

  /** A sequence is its first element followed by the rest. */
  lemma SplitFirst<T>(s: seq<T>)
    requires 0 < |s|
    ensures s == [s[0]] + s[1..]
  {
  }

  /** A sequence is its first two elements followed by the rest. */
  lemma SplitTwo<T>(s: seq<T>)
    requires 1 < |s|
    ensures s == [s[0], s[1]] + s[2..]
  {
  }

  /** A sequence is its first three elements followed by the rest. */
  lemma SplitThree<T>(s: seq<T>)
    requires 2 < |s|
    ensures s == [s[0], s[1], s[2]] + s[3..]
  {
  }

  /** A slice inside the left operand of a concatenation. */
  lemma ConcatSliceLeft<T>(a: seq<T>, b: seq<T>, i: nat, j: nat)
    requires i <= j <= |a|
    ensures (a + b)[i..j] == a[i..j]
  {
  }

  /** A slice inside the right operand of a concatenation. */
  lemma ConcatSliceRight<T>(a: seq<T>, b: seq<T>, i: nat, j: nat)
    requires i <= j <= |b|
    ensures (a + b)[|a| + i..|a| + j] == b[i..j]
  {
  }

  lemma {:induction false} ReverseAt<T>(s: seq<T>, i: nat)
    requires i < |s|
    ensures Reverse(s)[i] == s[|s| - 1 - i]
  {
    if i < |s| - 1 {
      ReverseAt(s[1..], i);
    }
  }

  /** A positive value has exactly BitLength significant bits. */
  lemma {:induction false} BitLengthBounds(v: int)
    requires v > 0
    ensures Pow2(BitLength(v) - 1) <= v < Pow2(BitLength(v))
    decreases v
  {
    if v / 2 > 0 {
      BitLengthBounds(v / 2);
    }
  }

  /** A non-negative value fits in k bits iff its bit length is at most k. */
  lemma BitLengthFits(v: int, k: nat)
    requires v >= 0
    ensures BitLength(v) <= k <==> v < Pow2(k)
  {
    if v > 0 {
      BitLengthBounds(v);
      if BitLength(v) <= k {
        Pow2Monotone(BitLength(v), k);
      } else {
        Pow2Monotone(k, BitLength(v) - 1);
      }
    }
  }

  /** The least-significant-first bits have one entry per significant bit,
      end in a set bit, and read back to the value. */
  lemma {:induction false} LsbBitsValue(v: int)
    requires v >= 0
    ensures |LsbBits(v)| == BitLength(v)
    ensures ValueLsb(LsbBits(v)) == v
    ensures v > 0 ==> LsbBits(v)[|LsbBits(v)| - 1]
    decreases v
  {
    if v > 0 {
      LsbBitsValue(v / 2);
      assert LsbBits(v)[1..] == LsbBits(v / 2);
    }
  }

  /** PopCount counts the set bits of the bit list. */
  lemma {:induction false} PopCountBits(v: int)
    ensures PopCount(v) == CountTrue(LsbBits(v))
    decreases if v < 0 then 0 else v
  {
    if v > 0 {
      PopCountBits(v / 2);
      assert LsbBits(v)[1..] == LsbBits(v / 2);
    }
  }

  /** A value has at most as many set bits as significant bits, and a
      positive value has at least one. */
  lemma {:induction false} PopCountAtMost(v: int)
    ensures PopCount(v) <= BitLength(v)
    ensures PopCount(v) == 0 <==> v <= 0
    decreases if v < 0 then 0 else v
  {
    if v > 0 {
      PopCountAtMost(v / 2);
    }
  }

  /** One level of the count, with the halves given explicitly. */
  lemma PopCountSplit(v: int, q: nat, r: nat)
    requires v == 2 * q + r && r < 2
    ensures PopCount(v) == r + PopCount(q)
  {
    DivModUnique(v, 2, q, r);
  }

  /** The number of differing bits obeys the triangle inequality: a bit
      where a and c differ is a bit where a and b or b and c differ. */
  lemma {:induction false} PopCountXorTriangle(a: nat, b: nat, c: nat)
    ensures PopCount(NatXor(a, c)) <= PopCount(NatXor(a, b)) + PopCount(NatXor(b, c))
    decreases a + b + c
  {
    if a + b + c > 0 {
      PopCountXorTriangle(a / 2, b / 2, c / 2);
      NatXorSplit(a, c, a / 2, a % 2, c / 2, c % 2);
      NatXorSplit(a, b, a / 2, a % 2, b / 2, b % 2);
      NatXorSplit(b, c, b / 2, b % 2, c / 2, c % 2);
      PopCountSplit(NatXor(a, c), NatXor(a / 2, c / 2), if a % 2 == c % 2 then 0 else 1);
      PopCountSplit(NatXor(a, b), NatXor(a / 2, b / 2), if a % 2 == b % 2 then 0 else 1);
      PopCountSplit(NatXor(b, c), NatXor(b / 2, c / 2), if b % 2 == c % 2 then 0 else 1);
    }
  }

  lemma {:induction false} CountTrueAtMost(s: seq<bool>)
    ensures CountTrue(s) <= |s|
  {
    if s != [] {
      CountTrueAtMost(s[1..]);
    }
  }

  /** Reading a reversed list most-significant-first gives the value of the
      list read least-significant-first. */
  lemma {:induction false} ReverseValue(s: seq<bool>)
    ensures ValueMsb(Reverse(s)) == ValueLsb(s)
  {
    if s != [] {
      ReverseValue(s[1..]);
      var r := Reverse(s);
      assert r[..|r| - 1] == Reverse(s[1..]);
    }
  }

  lemma {:induction false} ValueMsbBound(s: seq<bool>)
    ensures ValueMsb(s) < Pow2(|s|)
  {
    if s != [] {
      ValueMsbBound(s[..|s| - 1]);
    }
  }

  lemma {:induction false} ValueMsbConcat(a: seq<bool>, b: seq<bool>)
    ensures ValueMsb(a + b) == ValueMsb(a) * Pow2(|b|) + ValueMsb(b)
    decreases |b|
  {
    if b == [] {
      assert a + b == a;
    } else {
      var ab, c := a + b, b[..|b| - 1];
      var bit := if b[|b| - 1] then 1 else 0;
      var va, vc := ValueMsb(a), ValueMsb(c);
      assert ab[..|ab| - 1] == a + c;
      ValueMsbConcat(a, c);
      assert Pow2(|b|) == 2 * Pow2(|c|);
      calc {
        ValueMsb(ab);
        2 * ValueMsb(a + c) + bit;
        2 * (va * Pow2(|c|) + vc) + bit;
        { assert 2 * (va * Pow2(|c|)) == va * (2 * Pow2(|c|)); }
        va * Pow2(|b|) + (2 * vc + bit);
      }
    }
  }

  lemma {:induction false} ValueMsbZeros(n: nat)
    ensures ValueMsb(Zeros(n)) == 0
  {
    if n > 0 {
      assert Zeros(n)[..n - 1] == Zeros(n - 1);
      ValueMsbZeros(n - 1);
    }
  }

  /** The last k bits of a most-significant-first list hold its value modulo 2^k. */
  lemma ValueMsbSuffix(s: seq<bool>, k: nat)
    requires k <= |s|
    ensures ValueMsb(s[|s| - k..]) == ValueMsb(s) % Pow2(k)
  {
    var p, q := s[..|s| - k], s[|s| - k..];
    assert s == p + q;
    ValueMsbConcat(p, q);
    ValueMsbBound(q);
    DivModUnique(ValueMsb(s), Pow2(k), ValueMsb(p), ValueMsb(q));
  }

  /** Leading false bits do not change the value. */
  lemma ValueMsbPadded(n: nat, s: seq<bool>)
    ensures ValueMsb(Zeros(n) + s) == ValueMsb(s)
  {
    ValueMsbConcat(Zeros(n), s);
    ValueMsbZeros(n);
  }

  /** a <= b and m >= 0 give a m <= b m. */
  lemma MulMonotone(a: int, b: int, m: int)
    requires a <= b && 0 <= m
    ensures a * m <= b * m
  {
    assert b * m - a * m == (b - a) * m;
  }

  /** An offset below n blocks of size m falls in one of them. */
  lemma QuotientBelow(x: int, m: int, n: int)
    requires 0 <= x < n * m && m >= 1
    ensures 0 <= x / m < n
  {
    assert x / m * m + x % m == x;
    if x / m >= n {
      MulMonotone(n, x / m, m);
    }
  }

  /** x lies in block x / m of size m; a non-negative x in a block of
      non-negative number. */
  lemma QuotientBounds(x: int, m: int)
    requires m >= 1
    ensures (x / m) * m <= x < (x / m) * m + m
    ensures x >= 0 ==> x / m >= 0
  {
    assert x / m * m + x % m == x;
    if x >= 0 && x / m < 0 {
      MulMonotone(x / m, -1, m);
    }
  }

  /** The offsets of block k of size m are those whose quotient by m is k. */
  lemma QuotientIs(x: int, m: int, k: int)
    requires m >= 1 && k * m <= x < k * m + m
    ensures x / m == k
  {
    DivModUnique(x, m, k, x - k * m);
  }
}
