/** Bytes, the fixed-width unsigned integers of the miner, and the
    big-endian encoding Rust's `to_be_bytes` performs. */
module Bytes {

  /** A byte is an 8-bit vector so that the miner's bit masks can be written as in Rust. */
  type byte = bv8

  /** 2^128: the number of values of a Rust `u128`. */
  const U128_LIMIT: nat := 0x1_0000_0000_0000_0000_0000_0000_0000_0000

  type u128 = n: int | 0 <= n < U128_LIMIT

  const U128_MAX: u128 := U128_LIMIT - 1

  /** Width in bytes of a `u128` once encoded. */
  const U128_BYTES: nat := 16

  /** `n` zero bytes, Rust's `[0u8; n]`. */
  function Zeros(n: nat): (r: seq<byte>)
    ensures |r| == n
    ensures forall i | 0 <= i < n :: r[i] == 0
  {
    seq(n, _ => 0)
  }

  /** 256^w, the number of values `w` bytes can hold. */
  function Pow256(w: nat): (r: nat)
    ensures r > 0
  {
    if w == 0 then 1 else 256 * Pow256(w - 1)
  }

  /** The `w`-byte big-endian encoding of `n`, most significant byte first;
      bits of `n` above the `w` bytes are dropped. */
  function ToBigEndian(n: nat, w: nat): (r: seq<byte>)
    ensures |r| == w
  {
    if w == 0 then [] else ToBigEndian(n / 256, w - 1) + [(n % 256) as byte]
  }

  /** The number a big-endian byte string denotes. */
  function FromBigEndian(s: seq<byte>): (r: nat)
    ensures r < Pow256(|s|)
  {
    if |s| == 0 then 0
    else
      var hi := FromBigEndian(s[..|s| - 1]);
      assert hi <= Pow256(|s| - 1) - 1;
      hi * 256 + s[|s| - 1] as int
  }

  /** Rust's `u128::to_be_bytes`. */
  function BE16(n: u128): (r: seq<byte>)
    ensures |r| == U128_BYTES
    ensures FromBigEndian(r) == n
  {
    U128Width();
    DecodeEncode(n, U128_BYTES);
    ToBigEndian(n, U128_BYTES)
  }

  /** Sixteen bytes hold exactly the `u128` range. */
  lemma U128Width()
    ensures Pow256(U128_BYTES) == U128_LIMIT
  {
    assert Pow256(4) == 0x1_0000_0000;
    assert Pow256(8) == 0x1_0000_0000_0000_0000 by {
      Pow256Add(4, 4);
    }
    Pow256Add(8, 8);
  }

  lemma {:induction false} Pow256Add(a: nat, b: nat)
    ensures Pow256(a + b) == Pow256(a) * Pow256(b)
  {
    if a > 0 {
      Pow256Add(a - 1, b);
    }
  }

  /** Decoding an encoding gives the number back when it fits in the width. */
  lemma {:induction false} DecodeEncode(n: nat, w: nat)
    requires n < Pow256(w)
    ensures FromBigEndian(ToBigEndian(n, w)) == n
  {
    if w > 0 {
      var hi := ToBigEndian(n / 256, w - 1);
      var lo: byte := (n % 256) as byte;
      var s := hi + [lo];
      assert s == ToBigEndian(n, w);
      assert s[..w - 1] == hi;
      assert lo as int == n % 256;
      DivBound(n, Pow256(w - 1));
      DecodeEncode(n / 256, w - 1);
      assert FromBigEndian(s) == FromBigEndian(hi) * 256 + lo as int;
      DivMod256(n);
    }
  }

  lemma DivMod256(n: nat)
    ensures (n / 256) * 256 + n % 256 == n
  {
  }

  /** A number below 256 * p has a quotient by 256 below p. */
  lemma DivBound(n: nat, p: nat)
    requires n < 256 * p
    ensures n / 256 < p
  {
  }

  /** Encoding a decoded byte string at its own width gives the string back. */
  lemma {:induction false} EncodeDecode(s: seq<byte>)
    ensures ToBigEndian(FromBigEndian(s), |s|) == s
  {
    if |s| > 0 {
      var init := s[..|s| - 1];
      var n := FromBigEndian(s);
      assert n / 256 == FromBigEndian(init);
      assert n % 256 == s[|s| - 1] as int;
      EncodeDecode(init);
      assert s == init + [s[|s| - 1]];
    }
  }

  /** The encoding is injective on the `u128` range. */
  lemma BE16Injective(a: u128, b: u128)
    requires BE16(a) == BE16(b)
    ensures a == b
  {
  }
}
