/** The block record of the miner, the bytes its digest is taken over,
    the sequence-number increment and the Merkle-style accumulator step. */
module Blocks {
  import opened Wrappers
  import opened Bytes

  const HASH_BYTES: nat := 32
  const DATA_BYTES: nat := 20

  /** Length of the byte string a block digest is computed over:
      16 (number) + 32 (last block hash) + 32 (merkle root) + 20 (data) + 16 (nonce). */
  const PREIMAGE_BYTES: nat := 116

  /** Length of the accumulator-step input: a block hash followed by a merkle root. */
  const MERKLE_INPUT_BYTES: nat := 64

  /** A 32-byte digest, Rust's `[u8; 32]`. */
  type Digest = s: seq<byte> | |s| == HASH_BYTES witness Zeros(HASH_BYTES)

  /** The 20-byte application data slot, Rust's `[u8; 20]`. */
  type Payload = s: seq<byte> | |s| == DATA_BYTES witness Zeros(DATA_BYTES)

  /** The hash primitive. The miner uses Keccak-256 (original Keccak padding);
      the model takes it as a parameter and assumes only that it is a total
      function into 32-byte digests. */
  type Hasher = seq<byte> -> Digest

  /** A block; `lastBlock` is the owning link to the predecessor, absent only at genesis. */
  datatype Block = Block(
    number: u128,
    lastBlockHash: Digest,
    merkleRoot: Digest,
    data: Payload,
    nonce: u128,
    lastBlock: Option<Block>)

  /** Arithmetic overflows the Rust code would panic on. */
  datatype Fault = NumberOverflow | NonceOverflow

  /** The bytes fed to the hash for a block: the fields in declaration order,
      integers big-endian, no delimiters; the link is not part of them. */
  function Preimage(b: Block): (r: seq<byte>)
    ensures |r| == PREIMAGE_BYTES
    ensures FromBigEndian(r[..16]) == b.number
    ensures r[16..48] == b.lastBlockHash
    ensures r[48..80] == b.merkleRoot
    ensures r[80..100] == b.data
    ensures FromBigEndian(r[100..]) == b.nonce
  {
    var r := BE16(b.number) + b.lastBlockHash + b.merkleRoot + b.data + BE16(b.nonce);
    assert r[..16] == BE16(b.number);
    assert r[100..] == BE16(b.nonce);
    r
  }

  /** `Block::hash`. */
  function BlockHash(H: Hasher, b: Block): (r: Digest)
  {
    H(Preimage(b))
  }

  /** The preimage determines every hashed field: two blocks with the same
      preimage differ at most in their link. */
  lemma PreimageInjective(a: Block, b: Block)
    requires Preimage(a) == Preimage(b)
    ensures a.number == b.number && a.nonce == b.nonce
    ensures a.lastBlockHash == b.lastBlockHash && a.merkleRoot == b.merkleRoot
    ensures a.data == b.data
  {
    var pa, pb := Preimage(a), Preimage(b);
    assert pa[..16] == pb[..16] && pa[100..] == pb[100..];
  }

  /** The link is not hashed: re-linking a block leaves its digest unchanged. */
  lemma BlockHashIgnoresLink(H: Hasher, b: Block, link: Option<Block>)
    ensures BlockHash(H, b.(lastBlock := link)) == BlockHash(H, b)
  {
    var c := b.(lastBlock := link);
    assert Preimage(c) == Preimage(b);
  }

  /** `Block::next_number`: the successor's number, or the overflow Rust's
      checked `+ 1` would panic on. */
  function NextNumber(b: Block): (r: Result<u128, Fault>)
    ensures r.Success? <==> b.number < U128_MAX
    ensures r.Success? ==> r.value - 1 == b.number
    ensures r.Failure? ==> r.error == NumberOverflow
  {
    if b.number == U128_MAX then Failure(NumberOverflow) else Success(b.number + 1)
  }

  /** The accumulator-step input: the block hash, then the previous merkle root. */
  function MerkleInput(blockHash: Digest, lastMerkleRoot: Digest): (r: seq<byte>)
    ensures |r| == MERKLE_INPUT_BYTES
    ensures r[..HASH_BYTES] == blockHash && r[HASH_BYTES..] == lastMerkleRoot
  {
    blockHash + lastMerkleRoot
  }

  /** `calculate_merkle_root`. */
  function MerkleRoot(H: Hasher, blockHash: Digest, lastMerkleRoot: Digest): (r: Digest)
  {
    H(MerkleInput(blockHash, lastMerkleRoot))
  }

  /** Distinct (block hash, previous root) pairs give distinct accumulator inputs,
      so the accumulator can only collide through the hash itself. */
  lemma MerkleInputInjective(h1: Digest, r1: Digest, h2: Digest, r2: Digest)
    requires MerkleInput(h1, r1) == MerkleInput(h2, r2)
    ensures h1 == h2 && r1 == r2
  {
    var m1, m2 := MerkleInput(h1, r1), MerkleInput(h2, r2);
    assert m1[..HASH_BYTES] == m2[..HASH_BYTES];
  }
}
