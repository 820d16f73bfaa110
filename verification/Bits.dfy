/** Address bytes read bit by bit, as both tries do, and the same addresses read as numbers. */
module Bits {

  /** A node's position in a binary trie: the bits that lead to it from the root. */
  datatype Path = Root | Child(parent: Path, bit: nat)

  type Bytes = seq<bv8>

  /** Bit k of one byte, most significant first. */
  function ByteBit(x: bv8, k: nat): (r: nat)
    requires k < 8
    ensures r < 2
  {
    ((x >> (7 - k)) & 1) as nat
  }

  /** Bit i of an address: the expression both tries index their children with. */
  function BitAt(b: Bytes, i: nat): (r: nat)
    requires i < 8 * |b|
    ensures r < 2
  {
    ByteBit(b[i / 8], i % 8)
  }

  /** The path spelled by the first n bits. */
  ghost function PathOf(b: Bytes, n: nat): Path
    requires n <= 8 * |b|
  {
    if n == 0 then Root else Child(PathOf(b, n - 1), BitAt(b, n - 1))
  }

  ghost function Depth(p: Path): nat {
    match p
    case Root => 0
    case Child(q, _) => Depth(q) + 1
  }

  lemma {:induction false} PathOfDepth(b: Bytes, n: nat)
    requires n <= 8 * |b|
    ensures Depth(PathOf(b, n)) == n
  {
    if n > 0 {
      PathOfDepth(b, n - 1);
    }
  }

  /** Two walks of n steps end at the same node exactly when they read the same n bits. */
  lemma {:induction false} SamePathSameBits(a: Bytes, b: Bytes, n: nat)
    requires n <= 8 * |a| && n <= 8 * |b|
    ensures PathOf(a, n) == PathOf(b, n) <==> forall i :: 0 <= i < n ==> BitAt(a, i) == BitAt(b, i)
  {
    if n > 0 {
      SamePathSameBits(a, b, n - 1);
    }
  }

  // ---------- Addresses as numbers ----------

  ghost function Pow2(n: nat): (r: nat)
    ensures r > 0
  {
    if n == 0 then 1 else 2 * Pow2(n - 1)
  }

  /** The big-endian value of an address. */
  ghost function Value(b: Bytes): nat {
    if b == [] then 0 else 256 * Value(b[..|b| - 1]) + b[|b| - 1] as nat
  }

  /** The number spelled by a path, and its top part when it is wider than that. */
  ghost function Number(p: Path): nat {
    match p
    case Root => 0
    case Child(q, bit) => 2 * Number(q) + bit
  }

  /** The number spelled by the first k bits of one byte. */
  ghost function TopBits(x: bv8, k: nat): nat
    requires k <= 8
  {
    if k == 0 then 0 else 2 * TopBits(x, k - 1) + ByteBit(x, k - 1)
  }

  lemma ByteIsItsBits(x: bv8)
    ensures x as nat == 128 * ByteBit(x, 0) + 64 * ByteBit(x, 1) + 32 * ByteBit(x, 2) + 16 * ByteBit(x, 3)
                        + 8 * ByteBit(x, 4) + 4 * ByteBit(x, 5) + 2 * ByteBit(x, 6) + ByteBit(x, 7)
  {
  }

  lemma TopBitsAll(x: bv8)
    ensures TopBits(x, 8) == x as nat
  {
    ByteIsItsBits(x);
    assert TopBits(x, 1) == ByteBit(x, 0);
    assert TopBits(x, 2) == 2 * ByteBit(x, 0) + ByteBit(x, 1);
    assert TopBits(x, 4) == 4 * TopBits(x, 2) + 2 * ByteBit(x, 2) + ByteBit(x, 3);
    assert TopBits(x, 6) == 4 * TopBits(x, 4) + 2 * ByteBit(x, 4) + ByteBit(x, 5);
  }

  lemma {:induction false} PathOfPrefix(b: Bytes, x: bv8, n: nat)
    requires n <= 8 * |b|
    ensures PathOf(b + [x], n) == PathOf(b, n)
  {
    if n > 0 {
      PathOfPrefix(b, x, n - 1);
      assert (b + [x])[(n - 1) / 8] == b[(n - 1) / 8];
    }
  }

  ghost function NumberAt(b: Bytes, n: nat): nat
    requires n <= 8 * |b|
  {
    Number(PathOf(b, n))
  }

  /** Bit k of the last byte doubles the number and adds itself. */
  lemma LastByteStep(b: Bytes, x: bv8, k: nat)
    requires k < 8
    ensures NumberAt(b + [x], 8 * |b| + k + 1) == 2 * NumberAt(b + [x], 8 * |b| + k) + ByteBit(x, k)
  {
    assert (8 * |b| + k) / 8 == |b| && (8 * |b| + k) % 8 == k;
    assert BitAt(b + [x], 8 * |b| + k) == ByteBit(x, k);
  }

  lemma {:induction false} NumberOfLastBits(b: Bytes, x: bv8, k: nat)
    requires k <= 8
    ensures NumberAt(b + [x], 8 * |b| + k) == Pow2(k) * NumberAt(b, 8 * |b|) + TopBits(x, k)
  {
    if k == 0 {
      PathOfPrefix(b, x, 8 * |b|);
    } else {
      NumberOfLastBits(b, x, k - 1);
      LastByteStep(b, x, k - 1);
      Double(Pow2(k - 1), NumberAt(b, 8 * |b|));
    }
  }

  lemma Double(p: nat, n: nat)
    ensures (2 * p) * n == 2 * (p * n)
  {
  }

  /** The last byte contributes its eight bits below everything before it. */
  lemma NumberOfLastByte(b: Bytes, x: bv8)
    ensures NumberAt(b + [x], 8 * |b| + 8) == 256 * NumberAt(b, 8 * |b|) + x as nat
  {
    NumberOfLastBits(b, x, 8);
    TopBitsAll(x);
    assert Pow2(8) == 8 * Pow2(5) && Pow2(5) == 8 * Pow2(2) && Pow2(2) == 4;
  }

  /** Walking all the bits of an address spells its value. */
  lemma {:induction false} FullWalkIsValue(b: Bytes)
    ensures Number(PathOf(b, 8 * |b|)) == Value(b)
  {
    if b != [] {
      var init, x := b[..|b| - 1], b[|b| - 1];
      assert b == init + [x];
      FullWalkIsValue(init);
      NumberOfLastByte(init, x);
    }
  }

  /** Walking only the first n of w bits divides the number by 2^(w-n). */
  lemma {:induction false} ShorterWalkDivides(b: Bytes, n: nat, w: nat)
    requires n <= w <= 8 * |b|
    ensures NumberAt(b, n) == NumberAt(b, w) / Pow2(w - n)
    decreases w - n
  {
    hide NumberAt;
    if n == w {
      WholeWalk(NumberAt(b, w));
    } else {
      ShorterWalkDivides(b, n + 1, w);
      HalveQuotient(NumberAt(b, w), Pow2(w - n - 1));
      LastBitHalves(b, n);
    }
  }

  lemma WholeWalk(n: nat)
    ensures n / Pow2(0) == n
  {
  }

  lemma LastBitHalves(b: Bytes, n: nat)
    requires n < 8 * |b|
    ensures NumberAt(b, n) == NumberAt(b, n + 1) / 2
  {
    hide BitAt;
    assert Number(PathOf(b, n + 1)) == 2 * Number(PathOf(b, n)) + BitAt(b, n);
  }

  lemma HalveQuotient(big: nat, d: nat)
    requires d > 0
    ensures big / d / 2 == big / (2 * d)
  {
    var q, r := big / d, big % d;
    var h := q / 2;
    assert big == d * q + r;
    if q % 2 == 0 {
      Spread(d, h, 0);
      QuotientUnique(big, 2 * d, h, r);
    } else {
      Spread(d, h, 1);
      QuotientUnique(big, 2 * d, h, d + r);
    }
  }

  lemma Spread(d: int, h: int, e: int)
    ensures d * (2 * h + e) == (2 * d) * h + d * e
  {
  }

  lemma MultipleAtLeast(d: int, k: int)
    requires d > 0
    ensures k >= 1 ==> d * k >= d
    ensures k <= -1 ==> d * k <= 0 - d
  {
    if k >= 1 {
      assert d * k == d + d * (k - 1);
    } else if k <= -1 {
      assert d * k == 0 - d + d * (k + 1);
    }
  }

  lemma QuotientUnique(big: nat, d: nat, q: nat, r: nat)
    requires d > 0 && big == d * q + r && r < d
    ensures big / d == q
  {
    MultipleAtLeast(d, big / d - q);
    assert d * (big / d) + big % d == d * q + r;
    assert d * (big / d - q) == r - big % d;
  }

  /** Paths of one depth are told apart by their numbers. */
  lemma {:induction false} NumberInjective(a: Bytes, b: Bytes, n: nat)
    requires n <= 8 * |a| && n <= 8 * |b|
    requires Number(PathOf(a, n)) == Number(PathOf(b, n))
    ensures PathOf(a, n) == PathOf(b, n)
  {
    if n > 0 {
      NumberInjective(a, b, n - 1);
    }
  }

  /** The value of an address with all but its first n bits divided off. */
  ghost function NetworkOf(b: Bytes, n: nat): int
    requires n <= 8 * |b|
  {
    Value(b) / Pow2(8 * |b| - n)
  }

  lemma WalkSpellsNetwork(b: Bytes, n: nat)
    requires n <= 8 * |b|
    ensures NumberAt(b, n) == NetworkOf(b, n)
  {
    FullWalkIsValue(b);
    ShorterWalkDivides(b, n, 8 * |b|);
  }

  /** Two addresses agree on their first n bits, as read by shift and mask, exactly when their
      values agree after dividing off the other bits. */
  lemma BitWalkIsArithmetic(a: Bytes, b: Bytes, n: nat)
    requires n <= 8 * |a| && n <= 8 * |b|
    ensures PathOf(a, n) == PathOf(b, n) <==> NetworkOf(a, n) == NetworkOf(b, n)
  {
    WalkSpellsNetwork(a, n);
    WalkSpellsNetwork(b, n);
    if NumberAt(a, n) == NumberAt(b, n) {
      NumberInjective(a, b, n);
    }
  }

  // ---------- Masking host bits away ----------

  /** One byte with all but its first k bits cleared. */
  function MaskByte(x: bv8, k: nat): bv8
    requires k <= 8
  {
    x & (0xff << (8 - k))
  }

  /** The address with every bit from n on cleared. */
  function Masked(b: Bytes, n: nat): (r: Bytes)
    requires n <= 8 * |b|
    ensures |r| == |b|
  {
    seq(|b|, i requires 0 <= i < |b| =>
      MaskByte(b[i], if 8 * i + 8 <= n then 8 else if n <= 8 * i then 0 else n - 8 * i))
  }

  lemma MaskByteBits(x: bv8, k: nat, j: nat)
    requires k <= 8 && j < 8
    ensures ByteBit(MaskByte(x, k), j) == if j < k then ByteBit(x, j) else 0
  {
    MaskByteShift(x, k, j);
  }

  lemma MaskByteShift(x: bv8, k: nat, j: nat)
    requires k <= 8 && j < 8
    ensures (MaskByte(x, k) >> (7 - j)) & 1 == if j < k then (x >> (7 - j)) & 1 else 0
  {
    if k <= 4 {
      MaskFewBits(x, k, j);
    } else {
      MaskManyBits(x, k, j);
    }
  }

  lemma MaskFewBits(x: bv8, k: nat, j: nat)
    requires k <= 4 && j < 8
    ensures (MaskByte(x, k) >> (7 - j)) & 1 == if j < k then (x >> (7 - j)) & 1 else 0
  {
  }

  lemma MaskManyBits(x: bv8, k: nat, j: nat)
    requires 4 < k <= 8 && j < 8
    ensures (MaskByte(x, k) >> (7 - j)) & 1 == if j < k then (x >> (7 - j)) & 1 else 0
  {
  }

  /** Masking keeps the network bits and clears the host bits. */
  lemma MaskedBits(b: Bytes, n: nat, i: nat)
    requires n <= 8 * |b| && i < 8 * |b|
    ensures BitAt(Masked(b, n), i) == if i < n then BitAt(b, i) else 0
  {
    var j := i / 8;
    MaskByteBits(b[j], if 8 * j + 8 <= n then 8 else if n <= 8 * j then 0 else n - 8 * j, i % 8);
  }

  /** A masked prefix is stored under the same node as the prefix it came from. */
  lemma MaskedPath(b: Bytes, n: nat)
    requires n <= 8 * |b|
    ensures PathOf(Masked(b, n), n) == PathOf(b, n)
  {
    SamePathSameBits(Masked(b, n), b, n);
    forall i | 0 <= i < n
      ensures BitAt(Masked(b, n), i) == BitAt(b, i)
    {
      MaskedBits(b, n, i);
    }
  }
}
