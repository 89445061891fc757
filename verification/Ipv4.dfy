/** IPv4 addresses and prefix masks, as bytes and as numbers (section 3.1 of RFC 4632). */
module Ipv4 {
  type Byte = b: int | 0 <= b < 256

  type Bytes = seq<Byte>

  // ------------------------------------------------------- powers and division

  function Pow2(n: nat): (p: nat)
    ensures p >= 1
  {
    if n == 0 then 1 else 2 * Pow2(n - 1)
  }

  lemma {:induction false} Pow2Adds(a: nat, b: nat)
    ensures Pow2(a + b) == Pow2(a) * Pow2(b)
  {
    if b > 0 {
      Pow2Adds(a, b - 1);
      Doubles(Pow2(a), Pow2(b - 1));
    }
  }

  lemma Doubles(x: int, y: int)
    ensures x * (2 * y) == 2 * (x * y)
  {
  }

  lemma Pow2Shifts(k: nat)
    ensures Pow2(k + 8) == Pow2(k) * 0x100
    ensures Pow2(k + 16) == Pow2(k) * 0x1_0000
    ensures Pow2(k + 24) == Pow2(k) * 0x100_0000
  {
    Pow2Bytes();
    Pow2Adds(k, 8);
    Pow2Adds(k, 16);
    Pow2Adds(k, 24);
  }

  lemma Pow2Bytes()
    ensures Pow2(8) == 0x100 && Pow2(16) == 0x1_0000 && Pow2(24) == 0x100_0000 && Pow2(32) == 0x1_0000_0000
  {
    assert Pow2(4) == 16;
    Pow2Adds(4, 4);
    Pow2Adds(8, 8);
    Pow2Adds(16, 8);
    Pow2Adds(16, 16);
  }

  lemma Remainder(x: int, h: int, q: int, r: int)
    requires x == q * h + r && 0 <= r < h
    ensures x % h == r
  {
    var d := x / h - q;
    assert x == (x / h) * h + x % h;
    assert d * h == r - x % h;
    Multiples(d, h);
  }

  lemma Multiples(d: int, h: int)
    requires h >= 0
    ensures d >= 1 ==> d * h >= h
    ensures d <= -1 ==> d * h <= -h
  {
  }

  // --------------------------------------------------------------- bits of bytes

  /** Bitwise and of the `n` low bits. */
  function AndBits(a: nat, b: nat, n: nat): nat {
    if n == 0 then 0
    else 2 * AndBits(a / 2, b / 2, n - 1) + if a % 2 == 1 && b % 2 == 1 then 1 else 0
  }

  /** Bitwise or of the `n` low bits. */
  function OrBits(a: nat, b: nat, n: nat): nat {
    if n == 0 then 0
    else 2 * OrBits(a / 2, b / 2, n - 1) + if a % 2 == 1 || b % 2 == 1 then 1 else 0
  }

  lemma {:induction false} AndBitsBound(a: nat, b: nat, n: nat)
    requires b < Pow2(n)
    ensures AndBits(a, b, n) <= b
  {
    if n > 0 { AndBitsBound(a / 2, b / 2, n - 1); }
  }

  lemma {:induction false} OrWithComplement(a: nat, m: nat, n: nat)
    requires a < Pow2(n) && m < Pow2(n)
    ensures OrBits(a, Pow2(n) - 1 - m, n) == AndBits(a, m, n) + (Pow2(n) - 1 - m)
  {
    if n > 0 { OrWithComplement(a / 2, m / 2, n - 1); }
  }

  lemma HalfRemainder(a: nat, p: nat)
    requires p >= 1
    ensures a % (2 * p) == 2 * ((a / 2) % p) + a % 2
  {
    var q := (a / 2) / p;
    assert a / 2 == q * p + (a / 2) % p;
    assert a == q * (2 * p) + (2 * ((a / 2) % p) + a % 2);
    Remainder(a, 2 * p, q, 2 * ((a / 2) % p) + a % 2);
  }

  lemma {:induction false} AndAllOnes(a: nat, n: nat)
    requires a < Pow2(n)
    ensures AndBits(a, Pow2(n) - 1, n) == a
  {
    if n > 0 {
      AndAllOnes(a / 2, n - 1);
      assert (Pow2(n) - 1) / 2 == Pow2(n - 1) - 1;
    }
  }

  lemma {:induction false} Pow2Rises(j: nat, n: nat)
    requires j <= n
    ensures Pow2(j) <= Pow2(n)
  {
    if j < n { Pow2Rises(j, n - 1); }
  }

  /** The number made of the `j` low bits. */
  function LowBits(a: nat, j: nat): nat {
    if j == 0 then 0 else 2 * LowBits(a / 2, j - 1) + a % 2
  }

  lemma {:induction false} LowBitsAreRemainder(a: nat, j: nat)
    ensures LowBits(a, j) == a % Pow2(j)
  {
    if j > 0 {
      LowBitsAreRemainder(a / 2, j - 1);
      HalfRemainder(a, Pow2(j - 1));
    }
  }

  /** A mask of high ones clears the `j` low bits. */
  lemma {:induction false} AndHighBits(a: nat, j: nat, n: nat)
    requires a < Pow2(n) && j <= n
    ensures Pow2(j) <= Pow2(n)
    ensures AndBits(a, Pow2(n) - Pow2(j), n) == a - LowBits(a, j)
  {
    Pow2Rises(j, n);
    if j == 0 {
      AndAllOnes(a, n);
    } else {
      AndHighBits(a / 2, j - 1, n - 1);
      AndEven(a, Pow2(n - 1) - Pow2(j - 1), n);
    }
  }

  lemma AndEven(a: nat, half: nat, n: nat)
    requires n > 0
    ensures AndBits(a, 2 * half, n) == 2 * AndBits(a / 2, half, n - 1)
  {
    assert (2 * half) / 2 == half && (2 * half) % 2 == 0;
  }

  function And(a: Byte, b: Byte): Byte {
    AndBitsBound(a, b, 8);
    AndBits(a, b, 8)
  }

  function Or(a: Byte, b: Byte): Byte {
    OrBitsBound(a, b, 8);
    OrBits(a, b, 8)
  }

  function Not(a: Byte): Byte {
    255 - a
  }

  lemma {:induction false} OrBitsBound(a: nat, b: nat, n: nat)
    ensures OrBits(a, b, n) < Pow2(n)
  {
    if n > 0 { OrBitsBound(a / 2, b / 2, n - 1); }
  }

  lemma OrNot(a: Byte, m: Byte)
    ensures Or(a, Not(m)) == And(a, m) + Not(m)
  {
    Pow2Bytes();
    OrWithComplement(a, m, 8);
  }

  // ------------------------------------------------------- addresses and masks

  function Value(b0: int, b1: int, b2: int, b3: int): int {
    b0 * 0x100_0000 + b1 * 0x1_0000 + b2 * 0x100 + b3
  }

  predicate InByte(x: int) {
    0 <= x < 256
  }

  lemma ValueInjective(x0: int, x1: int, x2: int, x3: int, y0: int, y1: int, y2: int, y3: int)
    requires InByte(x0) && InByte(x1) && InByte(x2) && InByte(x3)
    requires InByte(y0) && InByte(y1) && InByte(y2) && InByte(y3)
    requires Value(x0, x1, x2, x3) == Value(y0, y1, y2, y3)
    ensures x0 == y0 && x1 == y1 && x2 == y2 && x3 == y3
  {
  }

  /** The address as a number, most significant byte first. */
  function U32(b: Bytes): nat
    requires |b| == 4
  {
    Value(b[0], b[1], b[2], b[3])
  }

  lemma U32Injective(a: Bytes, b: Bytes)
    requires |a| == |b| == 4 && U32(a) == U32(b)
    ensures a == b
  {
    ValueInjective(a[0], a[1], a[2], a[3], b[0], b[1], b[2], b[3]);
  }

  /** How many low bits a byte with `k` leading ones hides: none from 8 on, all up to 0. */
  function Hidden(k: int): nat {
    if k >= 8 then 0 else if k <= 0 then 8 else 8 - k
  }

  lemma HiddenBound(k: int)
    ensures 1 <= Pow2(Hidden(k)) <= 256
  {
    Pow2Bytes();
    Pow2Adds(Hidden(k), 8 - Hidden(k));
    assert Pow2(Hidden(k)) * 1 <= Pow2(Hidden(k)) * Pow2(8 - Hidden(k));
  }

  /** A byte whose `k` leading bits are ones. */
  function Ones(k: int): Byte {
    HiddenBound(k);
    256 - Pow2(Hidden(k))
  }

  /** The mask of a prefix of `n` bits. */
  function MaskOf(n: nat): (m: Bytes)
    ensures |m| == 4
  {
    [Ones(n), Ones(n - 8), Ones(n - 16), Ones(n - 24)]
  }

  /** The numbers of a network of prefix length `n`. */
  function NetworkSize(n: nat): nat
    requires n <= 32
  {
    Pow2(32 - n)
  }

  function Masked(a: Bytes, m: Bytes): (r: Bytes)
    requires |a| == |m| == 4
    ensures |r| == 4
  {
    [And(a[0], m[0]), And(a[1], m[1]), And(a[2], m[2]), And(a[3], m[3])]
  }

  lemma AndOnes(a: Byte, k: int)
    ensures And(a, Ones(k)) == a - a % Pow2(Hidden(k))
  {
    Pow2Bytes();
    AndHighBits(a, Hidden(k), 8);
    LowBitsAreRemainder(a, Hidden(k));
  }

  lemma OnesEdges(k: int)
    ensures IsOnes(Ones(k), k)
  {
    Pow2Bytes();
  }

  /** `m` is the byte with `k` leading ones. */
  predicate IsOnes(m: int, k: int) {
    && (k >= 8 ==> m == 255)
    && (k <= 0 ==> m == 0)
    && (0 <= k <= 8 ==> m == 256 - Pow2(8 - k))
  }

  lemma MaskValue(m0: int, m1: int, m2: int, m3: int, n: nat)
    requires n <= 32 && IsOnes(m0, n) && IsOnes(m1, n - 8) && IsOnes(m2, n - 16) && IsOnes(m3, n - 24)
    ensures Value(m0, m1, m2, m3) == 0x1_0000_0000 - NetworkSize(n)
  {
    if n <= 8 {
      Pow2Shifts(8 - n);
    } else if n <= 16 {
      Pow2Shifts(16 - n);
    } else if n <= 24 {
      Pow2Shifts(24 - n);
    }
  }

  lemma MaskNumber(n: nat)
    requires n <= 32
    ensures U32(MaskOf(n)) == 0x1_0000_0000 - NetworkSize(n)
  {
    OnesEdges(n);
    OnesEdges(n - 8);
    OnesEdges(n - 16);
    OnesEdges(n - 24);
    MaskValue(Ones(n), Ones(n - 8), Ones(n - 16), Ones(n - 24), n);
  }

  lemma Distributes(a: int, b: int, d: int)
    ensures (a + b) * d == a * d + b * d
  {
  }

  lemma Associates(a: int, b: int, d: int)
    ensures a * (b * d) == (a * b) * d
  {
  }

  lemma EdgeByte(high: nat, b: nat, r: nat) returns (q: nat)
    requires r <= 8
    ensures high * 256 + b == q * Pow2(8 - r) + b % Pow2(8 - r)
  {
    Pow2Bytes();
    Pow2Adds(r, 8 - r);
    Regroups(high, b, Pow2(r), Pow2(8 - r));
    q := high * Pow2(r) + b / Pow2(8 - r);
  }

  lemma Regroups(high: nat, b: nat, e: nat, p: nat)
    requires e * p == 256 && p > 0
    ensures high * 256 + b == (high * e + b / p) * p + b % p
  {
    Associates(high, e, p);
    Distributes(high * e, b / p, p);
  }

  /** `high` are the whole bytes before the mask's edge, `b` the byte at the edge,
      of which 2^(8-r) are hidden, and `low` the bytes after it, `w` in number. */
  lemma EdgeRemainder(high: nat, b: nat, low: nat, r: nat, w: nat)
    requires r <= 8 && w >= 1 && low < w
    ensures ((high * 256 + b) * w + low) % (Pow2(8 - r) * w) == (b % Pow2(8 - r)) * w + low
  {
    var p := Pow2(8 - r);
    var q := EdgeByte(high, b, r);
    var s := b % p;
    EdgeSplits(q, p, s, w, low);
    EdgeFits(s, p, low, w);
    EdgeDivides(high * 256 + b, q, p, s, w, low);
  }

  lemma EdgeDivides(x: nat, q: nat, p: nat, s: nat, w: nat, low: nat)
    requires x == q * p + s
    requires (q * p + s) * w + low == q * (p * w) + (s * w + low)
    requires 0 <= s * w + low < p * w
    ensures (x * w + low) % (p * w) == s * w + low
  {
    Remainder(x * w + low, p * w, q, s * w + low);
  }

  lemma EdgeSplits(q: nat, p: nat, s: nat, w: nat, low: nat)
    ensures (q * p + s) * w + low == q * (p * w) + (s * w + low)
  {
    Distributes(q * p, s, w);
    Associates(q, p, w);
  }

  lemma EdgeFits(s: nat, p: nat, low: nat, w: nat)
    requires s < p && low < w
    ensures s * w + low < p * w
  {
    Distributes(s, 1, w);
    Distributes(p - s - 1, s + 1, w);
    Multiples(p - s - 1, w);
  }

  /** What masking leaves of one byte. */
  function Cleared(t: int, k: int): int {
    t - t % Pow2(Hidden(k))
  }

  lemma ClearedEdges(t: int, k: int)
    requires InByte(t)
    ensures k >= 8 ==> Cleared(t, k) == t
    ensures k <= 0 ==> Cleared(t, k) == 0
    ensures 0 <= k <= 8 ==> Cleared(t, k) == t - t % Pow2(8 - k)
  {
    Pow2Bytes();
  }

  function ClearedValue(t0: int, t1: int, t2: int, t3: int, n: nat): int {
    Value(Cleared(t0, n), Cleared(t1, n - 8), Cleared(t2, n - 16), Cleared(t3, n - 24))
  }

  lemma ClearedFirst(t0: int, t1: int, t2: int, t3: int, n: nat)
    requires InByte(t0) && InByte(t1) && InByte(t2) && InByte(t3) && n <= 8
    ensures ClearedValue(t0, t1, t2, t3, n) == Value(t0, t1, t2, t3) - Value(t0, t1, t2, t3) % NetworkSize(n)
  {
    Pow2Bytes();
    ClearedEdges(t1, n - 8);
    ClearedEdges(t2, n - 16);
    ClearedEdges(t3, n - 24);
    EdgeRemainder(0, t0, t1 * 0x1_0000 + t2 * 0x100 + t3, n, 0x100_0000);
    Pow2Adds(8 - n, 24);
  }

  lemma ClearedSecond(t0: int, t1: int, t2: int, t3: int, n: nat)
    requires InByte(t0) && InByte(t1) && InByte(t2) && InByte(t3) && 8 <= n <= 16
    ensures ClearedValue(t0, t1, t2, t3, n) == Value(t0, t1, t2, t3) - Value(t0, t1, t2, t3) % NetworkSize(n)
  {
    Pow2Bytes();
    ClearedEdges(t0, n);
    ClearedEdges(t2, n - 16);
    ClearedEdges(t3, n - 24);
    EdgeRemainder(t0, t1, t2 * 0x100 + t3, n - 8, 0x1_0000);
    Pow2Adds(16 - n, 16);
  }

  lemma ClearedThird(t0: int, t1: int, t2: int, t3: int, n: nat)
    requires InByte(t0) && InByte(t1) && InByte(t2) && InByte(t3) && 16 <= n <= 24
    ensures ClearedValue(t0, t1, t2, t3, n) == Value(t0, t1, t2, t3) - Value(t0, t1, t2, t3) % NetworkSize(n)
  {
    Pow2Bytes();
    ClearedEdges(t0, n);
    ClearedEdges(t1, n - 8);
    ClearedEdges(t3, n - 24);
    EdgeRemainder(t0 * 0x100 + t1, t2, t3, n - 16, 0x100);
    Pow2Adds(24 - n, 8);
  }

  lemma ClearedFourth(t0: int, t1: int, t2: int, t3: int, n: nat)
    requires InByte(t0) && InByte(t1) && InByte(t2) && InByte(t3) && 24 <= n <= 32
    ensures ClearedValue(t0, t1, t2, t3, n) == Value(t0, t1, t2, t3) - Value(t0, t1, t2, t3) % NetworkSize(n)
  {
    ClearedEdges(t0, n);
    ClearedEdges(t1, n - 8);
    ClearedEdges(t2, n - 16);
    EdgeRemainder(t0 * 0x1_0000 + t1 * 0x100 + t2, t3, 0, n - 24, 1);
  }

  lemma MaskedByte(t: Byte, k: int)
    ensures And(t, Ones(k)) == Cleared(t, k)
  {
    AndOnes(t, k);
  }

  lemma MaskedIsCleared(t: Bytes, n: nat)
    requires |t| == 4
    ensures U32(Masked(t, MaskOf(n))) == ClearedValue(t[0], t[1], t[2], t[3], n)
  {
    MaskedByte(t[0], n);
    MaskedByte(t[1], n - 8);
    MaskedByte(t[2], n - 16);
    MaskedByte(t[3], n - 24);
  }

  /** Masking an address clears its number's remainder by the network size. */
  lemma MaskedNumber(t: Bytes, n: nat)
    requires |t| == 4 && n <= 32
    ensures U32(Masked(t, MaskOf(n))) == U32(t) - U32(t) % NetworkSize(n)
  {
    MaskedIsCleared(t, n);
    if n <= 8 {
      ClearedFirst(t[0], t[1], t[2], t[3], n);
    } else if n <= 16 {
      ClearedSecond(t[0], t[1], t[2], t[3], n);
    } else if n <= 24 {
      ClearedThird(t[0], t[1], t[2], t[3], n);
    } else {
      ClearedFourth(t[0], t[1], t[2], t[3], n);
    }
  }
}
