/** 160-bit hashes: node ids, info hashes and the XOR distances between them. */
module ShaHash {

  const SHA_HASH_LEN := 20
  const HASH_BITS := 160

  /** Twenty bytes, most significant first. */
  type Hash = h: seq<bv8> | |h| == SHA_HASH_LEN witness seq(SHA_HASH_LEN, _ => 0)

  /** `BitXor`. */
  function Xor(a: Hash, b: Hash): (r: Hash)
    ensures forall i :: 0 <= i < SHA_HASH_LEN ==> r[i] == a[i] ^ b[i]
  {
    seq(SHA_HASH_LEN, i requires 0 <= i < SHA_HASH_LEN => a[i] ^ b[i])
  }

  /** The derived order: the first differing byte decides. */
  predicate Less(a: Hash, b: Hash) {
    exists i :: 0 <= i < SHA_HASH_LEN && a[i] < b[i] && a[..i] == b[..i]
  }

  // ---------------------------------------------------------------- the bit iterator

  /** x >> n. */
  function Shr(x: bv8, n: nat): bv8
    requires n < 8
  {
    if n == 0 then x else if n == 1 then x >> 1 else if n == 2 then x >> 2 else if n == 3 then x >> 3
    else if n == 4 then x >> 4 else if n == 5 then x >> 5 else if n == 6 then x >> 6 else x >> 7
  }

  /** Bit k of a byte, counting from the most significant. */
  predicate BitOf(x: bv8, k: nat)
    requires k < 8
  {
    Shr(x, 7 - k) & 1 == 1
  }

  predicate Bit(h: Hash, p: nat)
    requires p < HASH_BITS
  {
    BitOf(h[p / 8], p % 8)
  }

  /** What `Bits::next` reports at position p: the byte is shifted but not masked. */
  predicate ReportedSet(h: Hash, p: nat)
    requires p < HASH_BITS
  {
    Shr(h[p / 8], 7 - p % 8) == 1
  }

  /** `bits().take_while(Same).count()`. */
  function LeadingUnset(h: Hash, p: nat): (n: nat)
    requires p <= HASH_BITS
    ensures p <= n <= HASH_BITS
    ensures forall i :: p <= i < n ==> !ReportedSet(h, i)
    ensures n < HASH_BITS ==> ReportedSet(h, n)
    decreases HASH_BITS - p
  {
    if p == HASH_BITS || ReportedSet(h, p) then p else LeadingUnset(h, p + 1)
  }

  /** `leading_bit_count`. */
  function LeadingBitCount(a: Hash, b: Hash): (n: nat)
    ensures n <= HASH_BITS
  {
    LeadingUnset(Xor(a, b), 0)
  }

  /** Number of leading bits a and b have in common. */
  predicate IsCommonPrefix(a: Hash, b: Hash, n: nat) {
    && n <= HASH_BITS
    && (forall p :: 0 <= p < n ==> Bit(a, p) == Bit(b, p))
    && (n < HASH_BITS ==> Bit(a, n) != Bit(b, n))
  }

  // ---------------------------------------------------------------- bytes, one at a time

  lemma BytesByBits(x: bv8, y: bv8)
    requires forall k :: 0 <= k < 8 ==> BitOf(x, k) == BitOf(y, k)
    ensures x == y
  {
    assert BitOf(x, 0) == BitOf(y, 0) && BitOf(x, 1) == BitOf(y, 1) && BitOf(x, 2) == BitOf(y, 2)
        && BitOf(x, 3) == BitOf(y, 3) && BitOf(x, 4) == BitOf(y, 4) && BitOf(x, 5) == BitOf(y, 5)
        && BitOf(x, 6) == BitOf(y, 6) && BitOf(x, 7) == BitOf(y, 7);
  }

  lemma XorBit(x: bv8, y: bv8, k: nat)
    requires k < 8
    ensures BitOf(x ^ y, k) <==> BitOf(x, k) != BitOf(y, k)
  {
    XorShr(x, y, 7 - k);
    var (a, b) := (Shr(x, 7 - k), Shr(y, 7 - k));
    hide Shr;
    assert (a ^ b) & 1 == 1 <==> (a & 1 == 1) != (b & 1 == 1);
  }

  lemma XorShr(x: bv8, y: bv8, n: nat)
    requires n < 8
    ensures Shr(x ^ y, n) == Shr(x, n) ^ Shr(y, n)
  {
    if n == 0 {
    } else if n == 1 {
      assert (x ^ y) >> 1 == (x >> 1) ^ (y >> 1);
    } else if n == 2 {
      assert (x ^ y) >> 2 == (x >> 2) ^ (y >> 2);
    } else if n == 3 {
      assert (x ^ y) >> 3 == (x >> 3) ^ (y >> 3);
    } else if n == 4 {
      assert (x ^ y) >> 4 == (x >> 4) ^ (y >> 4);
    } else if n == 5 {
      assert (x ^ y) >> 5 == (x >> 5) ^ (y >> 5);
    } else if n == 6 {
      assert (x ^ y) >> 6 == (x >> 6) ^ (y >> 6);
    } else {
      assert (x ^ y) >> 7 == (x >> 7) ^ (y >> 7);
    }
  }

  /** Below a clear prefix the unmasked shift reports the bit itself. */
  lemma TopBit(x: bv8, k: nat)
    requires k < 8 && forall j :: 0 <= j < k ==> !BitOf(x, j)
    ensures Shr(x, 7 - k) == 1 <==> BitOf(x, k)
  {
    assert k > 0 ==> !BitOf(x, 0); assert k > 1 ==> !BitOf(x, 1); assert k > 2 ==> !BitOf(x, 2);
    assert k > 3 ==> !BitOf(x, 3); assert k > 4 ==> !BitOf(x, 4); assert k > 5 ==> !BitOf(x, 5);
    assert k > 6 ==> !BitOf(x, 6);
    if k == 0 {} else if k == 1 {} else if k == 2 {} else if k == 3 {}
    else if k == 4 {} else if k == 5 {} else if k == 6 {} else {}
  }

  /** A byte whose first set bit comes earlier is larger. */
  lemma EarlierBitIsLarger(x: bv8, y: bv8, k: nat)
    requires k < 8 && (forall j :: 0 <= j <= k ==> !BitOf(x, j)) && BitOf(y, k)
    ensures x < y
  {
    assert !BitOf(x, 0); assert k > 0 ==> !BitOf(x, 1); assert k > 1 ==> !BitOf(x, 2);
    assert k > 2 ==> !BitOf(x, 3); assert k > 3 ==> !BitOf(x, 4); assert k > 4 ==> !BitOf(x, 5);
    assert k > 5 ==> !BitOf(x, 6); assert k > 6 ==> !BitOf(x, 7);
    if k == 0 {} else if k == 1 {} else if k == 2 {} else if k == 3 {}
    else if k == 4 {} else if k == 5 {} else if k == 6 {} else {}
  }

  // ---------------------------------------------------------------- leading bits

  lemma {:induction false} NothingReported(h: Hash, n: nat)
    requires n <= HASH_BITS && forall p :: 0 <= p < n ==> !ReportedSet(h, p)
    ensures forall p :: 0 <= p < n ==> !Bit(h, p)
  {
    if n > 0 {
      NothingReported(h, n - 1);
      ReportedAfterClear(h, n - 1);
    }
  }

  lemma ReportedAfterClear(h: Hash, n: nat)
    requires n < HASH_BITS && forall p :: 0 <= p < n ==> !Bit(h, p)
    ensures ReportedSet(h, n) <==> Bit(h, n)
  {
    forall j | 0 <= j < n % 8
      ensures !BitOf(h[n / 8], j)
    {
      var p := n / 8 * 8 + j;
      assert p / 8 == n / 8 && p % 8 == j;
      assert !Bit(h, p);
    }
    TopBit(h[n / 8], n % 8);
  }

  /** Although the bit iterator reports only the top set bit of each byte, the number of leading bits
      it counts is the length of the common prefix. */
  lemma LeadingBitCountIsPrefix(a: Hash, b: Hash)
    ensures IsCommonPrefix(a, b, LeadingBitCount(a, b))
  {
    var (x, n) := (Xor(a, b), LeadingBitCount(a, b));
    NothingReported(x, n);
    if n < HASH_BITS { ReportedAfterClear(x, n); }
    forall p | 0 <= p < HASH_BITS
      ensures Bit(x, p) <==> Bit(a, p) != Bit(b, p)
    {
      XorBit(a[p / 8], b[p / 8], p % 8);
    }
  }

  /** The iterator as a whole reports the true bits only of hashes whose bytes have at most one bit set. */
  lemma ReportedBitsExact(h: Hash)
    ensures (forall p :: 0 <= p < HASH_BITS ==> (ReportedSet(h, p) <==> Bit(h, p)))
       <==> (forall i :: 0 <= i < SHA_HASH_LEN ==> h[i] & (h[i] - 1) == 0)
  {
    if forall p :: 0 <= p < HASH_BITS ==> (ReportedSet(h, p) <==> Bit(h, p)) {
      forall i | 0 <= i < SHA_HASH_LEN ensures h[i] & (h[i] - 1) == 0 { TrueBitsOfByte(h, i); }
    }
    if forall i :: 0 <= i < SHA_HASH_LEN ==> h[i] & (h[i] - 1) == 0 {
      forall p | 0 <= p < HASH_BITS ensures ReportedSet(h, p) <==> Bit(h, p) { ReportedTruly(h, p); }
    }
  }

  lemma TrueBitsOfByte(h: Hash, i: nat)
    requires i < SHA_HASH_LEN && forall p :: 0 <= p < HASH_BITS ==> (ReportedSet(h, p) <==> Bit(h, p))
    ensures h[i] & (h[i] - 1) == 0
  {
    hide Shr, BitOf;
    forall k | 0 <= k < 8
      ensures Shr(h[i], 7 - k) == 1 <==> BitOf(h[i], k)
    {
      assert (8 * i + k) / 8 == i && (8 * i + k) % 8 == k;
      assert ReportedSet(h, 8 * i + k) <==> Bit(h, 8 * i + k);
    }
    AtMostOneBit(h[i]);
  }

  lemma ReportedTruly(h: Hash, p: nat)
    requires p < HASH_BITS && h[p / 8] & (h[p / 8] - 1) == 0
    ensures ReportedSet(h, p) <==> Bit(h, p)
  {
    hide Shr, BitOf;
    AtMostOneBit(h[p / 8]);
    assert Shr(h[p / 8], 7 - p % 8) == 1 <==> BitOf(h[p / 8], p % 8);
  }

  /** For instance, of the eight set bits of a byte 0xff only the first is reported. */
  lemma FullByteMisreported(h: Hash)
    requires h[0] == 0xff
    ensures ReportedSet(h, 0) && forall p :: 1 <= p < 8 ==> Bit(h, p) && !ReportedSet(h, p)
  {
    forall p | 1 <= p < 8
      ensures Bit(h, p) && !ReportedSet(h, p)
    {
      assert p / 8 == 0 && p % 8 == p;
      if p == 1 {} else if p == 2 {} else if p == 3 {} else if p == 4 {} else if p == 5 {} else if p == 6 {} else {}
    }
  }

  lemma AtMostOneBit(x: bv8)
    ensures (forall k :: 0 <= k < 8 ==> (Shr(x, 7 - k) == 1 <==> BitOf(x, k))) <==> x & (x - 1) == 0
  {
    if x & (x - 1) == 0 {
      OneBitShifts(x);
    } else {
      ManyBitsMisreported(x);
    }
  }

  lemma OneBitShifts(x: bv8)
    requires x & (x - 1) == 0
    ensures forall k :: 0 <= k < 8 ==> (Shr(x, 7 - k) == 1 <==> BitOf(x, k))
  {}

  lemma ManyBitsMisreported(x: bv8)
    requires x & (x - 1) != 0
    ensures exists k :: 0 <= k < 8 && !(Shr(x, 7 - k) == 1 <==> BitOf(x, k))
  {
    var k := if x & 1 == 1 then 7 else if x & 2 == 2 then 6 else if x & 4 == 4 then 5 else if x & 8 == 8 then 4
             else if x & 16 == 16 then 3 else if x & 32 == 32 then 2 else 1;
    assert !(Shr(x, 7 - k) == 1 <==> BitOf(x, k));
  }

  // ---------------------------------------------------------------- prefixes and distances

  lemma SamePrefix(a: Hash, b: Hash, m: nat, n: nat)
    requires IsCommonPrefix(a, b, m) && IsCommonPrefix(a, b, n)
    ensures m == n
  {}

  lemma PrefixSymmetric(a: Hash, b: Hash)
    ensures LeadingBitCount(a, b) == LeadingBitCount(b, a)
  {
    LeadingBitCountIsPrefix(a, b);
    LeadingBitCountIsPrefix(b, a);
    SamePrefix(a, b, LeadingBitCount(a, b), LeadingBitCount(b, a));
  }

  /** Two ids that leave a third at different bits part where the first of them leaves; two that leave
      it at the same bit stay together past that bit. */
  lemma PrefixTriangle(s: Hash, a: Hash, b: Hash)
    ensures var (i, j) := (LeadingBitCount(s, a), LeadingBitCount(s, b));
      && (i < j ==> LeadingBitCount(a, b) == i)
      && (i == j < HASH_BITS ==> LeadingBitCount(a, b) > i)
  {
    var (i, j) := (LeadingBitCount(s, a), LeadingBitCount(s, b));
    LeadingBitCountIsPrefix(s, a);
    LeadingBitCountIsPrefix(s, b);
    LeadingBitCountIsPrefix(a, b);
    var n := LeadingBitCount(a, b);
    if i < j {
      assert IsCommonPrefix(a, b, i) by {
        assert Bit(s, i) == Bit(b, i);
      }
      SamePrefix(a, b, i, n);
    }
  }

  /** An id equals ours exactly when all bits agree. */
  lemma FullPrefix(a: Hash, b: Hash)
    ensures LeadingBitCount(a, b) == HASH_BITS <==> a == b
  {
    LeadingBitCountIsPrefix(a, b);
    if LeadingBitCount(a, b) == HASH_BITS {
      forall i | 0 <= i < SHA_HASH_LEN
        ensures a[i] == b[i]
      {
        SameByte(a, b, i);
      }
    }
  }

  lemma SameByte(a: Hash, b: Hash, i: nat)
    requires i < SHA_HASH_LEN && 8 * i + 8 <= LeadingBitCount(a, b)
    ensures a[i] == b[i]
  {
    LeadingBitCountIsPrefix(a, b);
    forall k | 0 <= k < 8
      ensures BitOf(a[i], k) == BitOf(b[i], k)
    {
      var p := 8 * i + k;
      assert p / 8 == i && p % 8 == k;
      assert Bit(a, p) == Bit(b, p);
    }
    BytesByBits(a[i], b[i]);
  }

  lemma DifferByte(t: Hash, a: Hash, k: nat)
    requires k == LeadingBitCount(t, a) < HASH_BITS
    ensures BitOf(Xor(t, a)[k / 8], k % 8)
  {
    LeadingBitCountIsPrefix(t, a);
    XorBit(t[k / 8], a[k / 8], k % 8);
  }

  lemma AgreeBits(t: Hash, a: Hash, k: nat)
    requires k < LeadingBitCount(t, a)
    ensures forall j :: 0 <= j <= k % 8 ==> !BitOf(Xor(t, a)[k / 8], j)
  {
    LeadingBitCountIsPrefix(t, a);
    forall j | 0 <= j <= k % 8
      ensures !BitOf(Xor(t, a)[k / 8], j)
    {
      var p := k / 8 * 8 + j;
      assert p / 8 == k / 8 && p % 8 == j;
      assert Bit(t, p) == Bit(a, p);
      XorBit(t[k / 8], a[k / 8], j);
    }
  }

  /** Sharing more leading bits with the target is being strictly closer to it. */
  lemma LongerPrefixIsCloser(t: Hash, a: Hash, b: Hash)
    requires LeadingBitCount(t, a) > LeadingBitCount(t, b)
    ensures Less(Xor(t, a), Xor(t, b))
  {
    var k := LeadingBitCount(t, b);
    var (x, y) := (Xor(t, a), Xor(t, b));
    forall i | 0 <= i < k / 8
      ensures x[i] == y[i]
    {
      SameByte(t, a, i);
      SameByte(t, b, i);
    }
    DifferByte(t, b, k);
    AgreeBits(t, a, k);
    EarlierBitIsLarger(x[k / 8], y[k / 8], k % 8);
    assert x[..k / 8] == y[..k / 8];
  }

  lemma XorInjective(t: Hash, a: Hash, b: Hash)
    requires Xor(t, a) == Xor(t, b)
    ensures a == b
  {
    forall i | 0 <= i < SHA_HASH_LEN
      ensures a[i] == b[i]
    {
      assert t[i] ^ a[i] == Xor(t, a)[i] == Xor(t, b)[i] == t[i] ^ b[i];
    }
  }

  // ---------------------------------------------------------------- the order is the numeric one

  function ByteValue(x: bv8): (n: nat)
    ensures n < 256
  {
    x as nat
  }

  /** The number a big-endian byte string denotes. */
  function Value(h: seq<bv8>): nat
  {
    if |h| == 0 then 0 else Value(h[..|h| - 1]) * 256 + ByteValue(h[|h| - 1])
  }

  lemma {:induction false} SmallerByteSmallerValue(a: seq<bv8>, b: seq<bv8>, i: nat)
    requires |a| == |b| && i < |a| && a[i] < b[i] && a[..i] == b[..i]
    ensures Value(a) < Value(b)
  {
    var n := |a| - 1;
    if i == n {
      assert ByteValue(a[i]) < ByteValue(b[i]);
    } else {
      assert a[..n][..i] == a[..i] && b[..n][..i] == b[..i];
      SmallerByteSmallerValue(a[..n], b[..n], i);
    }
  }

  lemma {:induction false} FirstDifference(a: Hash, b: Hash, i: nat)
    requires i <= SHA_HASH_LEN && a[..i] == b[..i]
    ensures a == b || Less(a, b) || Less(b, a)
    decreases SHA_HASH_LEN - i
  {
    if i == SHA_HASH_LEN {
      assert a == a[..i] && b == b[..i];
    } else if a[i] == b[i] {
      assert a[..i + 1] == a[..i] + [a[i]] && b[..i + 1] == b[..i] + [b[i]];
      FirstDifference(a, b, i + 1);
    }
  }

  /** The derived order on hashes is the order of the numbers they denote. */
  lemma LessIsNumeric(a: Hash, b: Hash)
    ensures Less(a, b) <==> Value(a) < Value(b)
    ensures a == b <==> Value(a) == Value(b)
  {
    FirstDifference(a, b, 0);
    if Less(a, b) {
      var i :| 0 <= i < SHA_HASH_LEN && a[i] < b[i] && a[..i] == b[..i];
      SmallerByteSmallerValue(a, b, i);
    }
    if Less(b, a) {
      var i :| 0 <= i < SHA_HASH_LEN && b[i] < a[i] && b[..i] == a[..i];
      SmallerByteSmallerValue(b, a, i);
    }
  }
}
