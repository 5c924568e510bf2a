/** What it means for a digest to meet a difficulty: the reference definition
    that the byte-by-byte test of the prover is proved against. */
module Difficulty {
  import opened BitStream

  /** Every byte of h up to (not including) index k is zero. */
  predicate ZeroBytes(h: seq<byte>, k: nat)
    requires k <= |h|
  {
    forall i | 0 <= i < k :: h[i] == 0
  }

  /** The digest h meets difficulty d as the prover decides it.
      A difficulty of at most 0 is met by every digest. A difficulty that fits
      in the digest is met when the first d bits of its bit stream are zero.
      A difficulty that ends inside the byte just past the digest is met when
      the whole digest is zero: the prover reads that missing byte with
      JavaScript's semantics, where `undefined & mask` is 0. A difficulty that
      needs the byte past the digest to be a whole zero byte is never met,
      since `undefined !== 0`. */
  predicate Accepts(h: seq<byte>, d: int) {
    || d <= 0
    || (d <= 8 * |h| && LeadingZeroBits(h, d))
    || (8 * |h| < d < 8 * |h| + 8 && LeadingZeroBits(h, 8 * |h|))
  }

  /** Bit j of the stream of h lies in byte j / 8, at position j % 8 from its top. */
  lemma BitOfByte(h: seq<byte>, i: nat, t: nat)
    requires i < |h| && t < 8
    ensures 8 * i + t < 8 * |h| && Bit(h, 8 * i + t) == TopBit(h[i], t)
  {
    assert (8 * i + t) / 8 == i && (8 * i + t) % 8 == t;
  }

  /** The first 8k bits are zero exactly when the first k bytes are. */
  lemma LeadingZeroBytes(h: seq<byte>, k: nat)
    requires k <= |h|
    ensures LeadingZeroBits(h, 8 * k) <==> ZeroBytes(h, k)
  {
    if LeadingZeroBits(h, 8 * k) {
      forall i | 0 <= i < k ensures h[i] == 0 {
        forall t | 0 <= t < 8 ensures TopBit(h[i], t) == 0 {
          BitOfByte(h, i, t);
        }
        ByteZeroIffBitsZero(h[i]);
      }
    }
    if ZeroBytes(h, k) {
      forall j | 0 <= j < 8 * k ensures Bit(h, j) == 0 {
        ByteZeroIffBitsZero(h[j / 8]);
      }
    }
  }

  /** When the first k bytes are zero, the first 8k + r bits are zero exactly
      when the top r bits of byte k are. */
  lemma LeadingZeroBitsIntoByte(h: seq<byte>, k: nat, r: nat)
    requires k < |h| && r <= 8 && ZeroBytes(h, k)
    ensures LeadingZeroBits(h, 8 * k + r) <==> TopBitsZero(h[k], r)
  {
    LeadingZeroBytes(h, k);
    if LeadingZeroBits(h, 8 * k + r) {
      forall t | 0 <= t < r ensures TopBit(h[k], t) == 0 {
        BitOfByte(h, k, t);
      }
    }
    if TopBitsZero(h[k], r) {
      forall j | 0 <= j < 8 * k + r ensures Bit(h, j) == 0 {
        if j >= 8 * k {
          BitOfByte(h, k, j - 8 * k);
        }
      }
    }
  }

  /** Difficulty 0 is met by every digest. */
  lemma ZeroDifficulty(h: seq<byte>)
    ensures Accepts(h, 0)
  {
  }

  /** A difficulty that is a whole number k of bytes, with k within the digest,
      is met exactly when the first k bytes are zero: byte k and every later
      byte play no part. */
  lemma WholeBytes(h: seq<byte>, k: nat)
    requires k <= |h|
    ensures Accepts(h, 8 * k) <==> ZeroBytes(h, k)
  {
    LeadingZeroBytes(h, k);
  }

  /** Two digests that agree on their first k bytes meet difficulty 8k alike. */
  lemma WholeBytesIgnoreRest(h: seq<byte>, h': seq<byte>, k: nat)
    requires k <= |h| && k <= |h'| && h[..k] == h'[..k]
    ensures Accepts(h, 8 * k) <==> Accepts(h', 8 * k)
  {
    WholeBytes(h, k);
    WholeBytes(h', k);
    assert forall i | 0 <= i < k :: h[i] == h[..k][i] && h'[i] == h'[..k][i];
  }

  /** A difficulty 8k + r with 0 < r < 8 and byte k inside the digest is met
      exactly when the first k bytes are zero and byte k is below 2^(8-r). */
  lemma PartialByte(h: seq<byte>, k: nat, r: nat)
    requires 0 < r < 8 && k < |h|
    ensures Accepts(h, 8 * k + r) <==> ZeroBytes(h, k) && (h[k] as int) < Pow2(8 - r)
  {
    PartialByteMask(h, k, r);
    MaskedByte(h[k], r);
  }

  /** The same, as the prover tests it: byte k ANDed with the top-r mask is zero. */
  lemma PartialByteMask(h: seq<byte>, k: nat, r: nat)
    requires 0 < r < 8 && k < |h|
    ensures Accepts(h, 8 * k + r) <==> ZeroBytes(h, k) && (h[k] as bv32) & TopMask(r) == 0
  {
    MaskedByte(h[k], r);
    if ZeroBytes(h, k) {
      LeadingZeroBitsIntoByte(h, k, r);
    } else {
      LeadingZeroBytes(h, k);
    }
  }

  /** Meeting a difficulty also meets every smaller one. */
  lemma Monotonic(h: seq<byte>, d: int, d': int)
    requires d' <= d && Accepts(h, d)
    ensures Accepts(h, d')
  {
    if d' > 0 && d > 8 * |h| {
      assert LeadingZeroBits(h, 8 * |h|);
    }
  }

  /** A difficulty that would need a whole zero byte beyond the digest is never met. */
  lemma BeyondDigest(h: seq<byte>, d: int)
    requires d >= 8 * |h| + 8
    ensures !Accepts(h, d)
  {
  }

  /** A nonzero byte at index i rules out every difficulty that needs
      bytes 0 to i to be whole zero bytes. */
  lemma NonzeroByteRejects(h: seq<byte>, i: nat, d: int)
    requires i < |h| && h[i] != 0 && d >= 8 * (i + 1)
    ensures !Accepts(h, d)
  {
    if Accepts(h, d) {
      Monotonic(h, d, 8 * (i + 1));
      WholeBytes(h, i + 1);
    }
  }

  /** A digest whose first bit is set meets no positive difficulty. */
  lemma TopBitSet(h: seq<byte>, d: int)
    requires |h| > 0 && h[0] >= 0x80 && d > 0
    ensures !Accepts(h, d)
  {
    assert Bit(h, 0) == 1;
  }

  /** An all-zero digest meets every difficulty up to its bit length, and also
      every difficulty that ends inside the byte just past it (8n+1 to 8n+7 for
      an n-byte digest), since the prover reads that missing byte as 0 under
      the mask. */
  lemma AllZero(h: seq<byte>, d: int)
    requires ZeroBytes(h, |h|) && d < 8 * |h| + 8
    ensures Accepts(h, d)
  {
    LeadingZeroBytes(h, |h|);
    if 0 < d <= 8 * |h| {
      assert forall j | 0 <= j < d :: Bit(h, j) == 0;
    }
  }
}
