/** The proof-of-work difficulty test: a digest meets target `t` when its
    first `t` hex nibbles are zero, tested as whole zero bytes plus, for an
    odd target, a masked high nibble. */
module Difficulty {
  import opened Bytes
  import opened Blocks

  /** A target whose test stays inside a 32-byte digest; a larger one makes
      the Rust slicing panic. */
  type Target = t: nat | t <= 2 * HASH_BYTES

  /** The shipped `TARGET`: four leading zero nibbles. */
  const TARGET: Target := 4

  /** `ODD`. */
  predicate Odd(t: Target) {
    t % 2 == 1
  }

  /** `WHOLE_BYTES`, that is `t >> 1`. */
  function WholeBytes(t: Target): (w: nat)
    ensures 2 * w <= t <= 2 * w + 1
  {
    t / 2
  }

  /** The test in `Block::mine`. Dafny's `&` binds tighter than `<<`, unlike
      Rust's, so the mask `15 << 4` is parenthesised here. */
  predicate Meets(t: Target, h: Digest) {
    && (forall i | 0 <= i < WholeBytes(t) :: h[i] == 0)
    && (Odd(t) ==> h[WholeBytes(t)] & (15 << 4) == 0)
  }

  /** The `k`-th hex nibble of a digest, most significant first, as hex encoding prints it. */
  function Nibble(h: Digest, k: nat): (r: nat)
    requires k < 2 * HASH_BYTES
    ensures r < 16
  {
    if k % 2 == 0 then h[k / 2] as int / 16 else h[k / 2] as int % 16
  }

  /** Reference reading of the target: the hex form of the digest starts with `t` zeros. */
  predicate LeadingZeroNibbles(t: Target, h: Digest) {
    forall k | 0 <= k < t :: Nibble(h, k) == 0
  }

  /** A byte is zero exactly when both of its nibbles are. */
  lemma ByteZeroIffNibblesZero(x: byte)
    ensures x == 0 <==> (x as int / 16 == 0 && x as int % 16 == 0)
  {
    assert x == 0 <==> x as int == 0;
  }

  /** The mask `15 << 4` keeps exactly the high nibble. */
  lemma HighNibbleMask(x: byte)
    ensures x & (15 << 4) == 0 <==> x as int / 16 == 0
  {
    assert x & (15 << 4) == 0 <==> x < 16;
    assert x < 16 <==> x as int < 16;
  }

  /** The byte-and-mask test accepts exactly the digests whose first `t` nibbles are zero. */
  lemma MeetsIffLeadingZeroNibbles(t: Target, h: Digest)
    ensures Meets(t, h) <==> LeadingZeroNibbles(t, h)
  {
    var w := WholeBytes(t);
    if Meets(t, h) {
      forall k | 0 <= k < t
        ensures Nibble(h, k) == 0
      {
        ByteZeroIffNibblesZero(h[k / 2]);
        if k / 2 == w {
          HighNibbleMask(h[w]);
        }
      }
    }
    if LeadingZeroNibbles(t, h) {
      forall i | 0 <= i < w
        ensures h[i] == 0
      {
        assert Nibble(h, 2 * i) == 0 && Nibble(h, 2 * i + 1) == 0;
        ByteZeroIffNibblesZero(h[i]);
      }
      if Odd(t) {
        assert Nibble(h, 2 * w) == 0;
        HighNibbleMask(h[w]);
      }
    }
  }

  /** The low nibble of byte `WholeBytes(t)`, and every byte after it, are
      unconstrained: digests agreeing on the tested bytes and on that high
      nibble are judged alike. */
  lemma MeetsDependsOnlyOnTestedNibbles(t: Target, h: Digest, g: Digest)
    requires forall i | 0 <= i < WholeBytes(t) :: h[i] == g[i]
    requires Odd(t) ==> h[WholeBytes(t)] as int / 16 == g[WholeBytes(t)] as int / 16
    ensures Meets(t, h) <==> Meets(t, g)
  {
    if Odd(t) {
      HighNibbleMask(h[WholeBytes(t)]);
      HighNibbleMask(g[WholeBytes(t)]);
    }
  }

  /** A digest with `WholeBytes(t)` zero bytes followed by byte `x`: an odd
      target accepts it iff the high nibble of `x` is zero, an even one always. */
  lemma ParityCases(t: Target, h: Digest, x: byte)
    requires t < 2 * HASH_BYTES
    requires forall i | 0 <= i < WholeBytes(t) :: h[i] == 0
    requires h[WholeBytes(t)] == x
    ensures x == 0x00 || x == 0x0F ==> Meets(t, h)
    ensures x == 0xF0 || x == 0xFF ==> (Meets(t, h) <==> !Odd(t))
  {
    HighNibbleMask(x);
  }

  /** With the shipped target the test is "the first two bytes are zero". */
  lemma ShippedTarget(h: Digest)
    ensures Meets(TARGET, h) <==> h[0] == 0 && h[1] == 0
  {
    assert WholeBytes(TARGET) == 2 && !Odd(TARGET);
  }
}
