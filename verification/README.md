# Proof-of-work block chaining, modelled in Dafny

This project models the single-chain proof-of-work miner of `src/main.rs`.
The miner works as follows:

- It starts from an all-zero genesis block.
- In each round it builds a successor of the current tip. The successor carries:
  - the next sequence number;
  - the tip's Keccak-256 digest;
  - a Merkle-style accumulator `H(tip digest ++ tip merkle root)`;
  - a zero 20-byte data slot;
  - nonce 0.
- It then increments the nonce until the block digest has `TARGET` leading zero hex nibbles.

A block's digest is taken over 116 bytes. These are the 16-byte big-endian `number`, the 32-byte `last_block_hash`, the 32-byte `merkle_root`, the 20-byte `data` and the 16-byte big-endian `nonce`. The link to the predecessor is not hashed.

The model has these modules:

- `Wrappers`: `Option` stands for the `Box` link. `Result` stands for an operation that aborts.
- `Bytes`: `byte` (as `bv8`), `u128`, and big-endian encoding with both round trips.
- `Blocks`: the `Block` datatype, the digest preimage, `next_number` and the accumulator input.
- `Difficulty`: `TARGET`, `ODD`, `WHOLE_BYTES` and the mining test. It is proved equal to "the first `t` hex nibbles are zero".
- `Mining`: `mine`, a loop. On success it returns the least solving nonce above the start.
- `Chain`: genesis, successor construction, the chain invariant, one driver round (`Step`) and a bounded run of the driver (`Run`).

The hash primitive is the parameter `H: Hasher`, a total function from byte strings to 32-byte digests. The source uses Keccak-256 from the `rust-crypto` crate, with the original Keccak padding. Every property holds for every such `H`. No collision or randomness property of the hash is assumed.

Overflow is handled as in a checked (debug) build, where Rust panics on `+ 1` at `u128::MAX`. The model returns an error instead: `NumberOverflow` for `next_number` and `NonceOverflow` for `mine`. As a result the nonce search is a finite search, and its failure case is characterised exactly.

Some comments in the source disagree with its code, and the model follows the code:

- The comment at `src/main.rs:16` describes 64-byte hashes and a 180-byte preimage. The declared types give 32-byte hashes and 116 bytes.
- The field comments at `src/main.rs:56-58` give lengths 64, 64 and 22. The fields are `[u8; 32]`, `[u8; 32]` and `[u8; 20]`.
- The comment at `src/main.rs:78-79` says `next_number` copies through 16-byte arrays. Line 81 is a plain `self.number + 1`.

## Model

| member | source | states |
|---|---|---|
| `Bytes.BE16` | src/main.rs:67-71 | `to_be_bytes` of a `u128` is 16 bytes and decodes back to the same number |
| `Bytes.DecodeEncode` | src/main.rs:67 | decoding a `w`-byte big-endian encoding returns the number whenever it fits in `w` bytes |
| `Bytes.EncodeDecode` | src/main.rs:67 | re-encoding a decoded byte string at its own width returns the same bytes |
| `Bytes.BE16Injective` | src/main.rs:71 | distinct `u128` values have distinct 16-byte encodings |
| `Bytes.U128Width` | src/main.rs:55 | 16 bytes hold exactly the `u128` range, 256^16 = 2^128 |
| `Blocks.Preimage` | src/main.rs:64-71 | the hashed bytes are 116 long; bytes 0-15 decode to `number`, 16-47 are `last_block_hash`, 48-79 `merkle_root`, 80-99 `data`, and 100-115 decode to `nonce` |
| `Blocks.PreimageInjective` | src/main.rs:64-71 | equal preimages imply equal number, hashes, data and nonce, so the fixed widths make the encoding unambiguous |
| `Blocks.BlockHashIgnoresLink` | src/main.rs:64-76 | the predecessor link is not part of the digest |
| `Blocks.BlockHash` | src/main.rs:64-76 | `Block::hash` is the hash applied to the 116-byte `Preimage` |
| `Blocks.NextNumber` | src/main.rs:80-82 | succeeds exactly when `number < u128::MAX`, with a result one above `number`; otherwise reports `NumberOverflow` |
| `Blocks.MerkleInput` | src/main.rs:121-125 | the accumulator input is 64 bytes: the block hash, then the previous merkle root |
| `Blocks.MerkleRoot` | src/main.rs:121-130 | `calculate_merkle_root` is the hash applied to the 64-byte `MerkleInput` |
| `Blocks.MerkleInputInjective` | src/main.rs:121-125 | the accumulator input determines both the block hash and the previous root |
| `Difficulty.WholeBytes` | src/main.rs:14 | `WHOLE_BYTES = TARGET >> 1` satisfies `2·W <= t <= 2·W + 1`: the target is W whole zero bytes plus at most one nibble |
| `Difficulty.Meets` | src/main.rs:89-96 | the first `WHOLE_BYTES` bytes are zero and, for an odd target, byte `WHOLE_BYTES` masked with `15 << 4` (0xF0) is zero |
| `Difficulty.HighNibbleMask` | src/main.rs:91 | `x & (15 << 4) == 0` holds exactly when the high nibble of `x` is zero |
| `Difficulty.MeetsIffLeadingZeroNibbles` | src/main.rs:89-96 | the whole-byte test plus the odd-target mask accepts a digest iff its first `t` hex nibbles are zero (both directions) |
| `Difficulty.MeetsDependsOnlyOnTestedNibbles` | src/main.rs:89-96 | the low nibble of byte `WHOLE_BYTES` and every later byte do not affect the verdict |
| `Difficulty.ParityCases` | src/main.rs:13-14 | after `WHOLE_BYTES` zero bytes, next byte 0x00 or 0x0F always passes; 0xF0 or 0xFF passes iff the target is even |
| `Difficulty.ShippedTarget` | src/main.rs:12-14 | with `TARGET = 4` the test is "the first two digest bytes are zero" |
| `Mining.Mine` | src/main.rs:84-99 | on success only the nonce changed, it is above the start, the digest passes, and every nonce strictly between fails; fails with `NonceOverflow` iff no nonce above the start passes |
| `Chain.Genesis` | src/main.rs:19-26 | genesis has number 0, all-zero hashes and data, nonce 0 and no link |
| `Chain.Successor` | src/main.rs:32-44 | succeeds iff `number < u128::MAX`; the candidate has number + 1, the tip's digest, the merkle root `H(tip digest ++ tip root)`, zero data, nonce 0, and the tip as its link |
| `Chain.Step` | src/main.rs:31-46 | one driver round keeps the chain invariant and puts one block on top of the tip. The new block is the built successor with only its nonce changed, and that nonce is the least one above 0 whose digest passes. Both overflow failures are characterised |
| `Chain.Run` | src/main.rs:28-49 | after `rounds` successful rounds from genesis, the tip has number `rounds` on a valid chain |
| `Chain.History` | src/main.rs:52-60 | following the links from a block gives the block list oldest first, starting at an unlinked block, each block linked to the one before |
| `Chain.ValidChainStep` | src/main.rs:31-46 | the chain invariant read link by link: an unlinked block is valid iff it is genesis, and a linked block is valid iff its predecessor's chain is valid and it was mined on top of that predecessor. A mined block carries the next number, the predecessor's digest and accumulator step, zero data, a nonce above 0 and a passing digest |
| `Chain.ValidChainNumbers` | src/main.rs:29-49 | a valid chain ending at `b` holds `b.number + 1` blocks, numbered 0, 1, 2, and so on from genesis |
| `Chain.FirstMinedBlock` | src/main.rs:19-46 | with `TARGET = 4`, block 1 links to the all-zero genesis, has a nonce above 0 and a digest starting with two zero bytes |

## Left out

- Keccak-256 (`Sha3::keccak256()` from the external `rust-crypto` crate) is a foreign call. It is a parameter with 32-byte results, and no hash property is assumed.
- `impl Display` (hex encoding via the `hex` crate, UTF-8 decoding of `data` with the "Decoding error" sentinel) and `println!` are output only.
- The infinite `loop` of `main` does not terminate. `Chain.Run` models a given number of its rounds.
- The difficulty target is a parameter `t <= 64` rather than the fixed constant `TARGET = 4`, which is kept as `Difficulty.TARGET`. Targets above 64 are excluded because the Rust slicing would panic on them.
- Release-build wrap-around of `u128` arithmetic is not modelled. The model follows the checked build and reports an overflow error rather than wrapping.
- `Box` ownership and moves are represented by an immutable `Option<Block>` link.
- Chain.Run: its failure case is stated only for `NumberOverflow`, which cannot happen within `rounds <= u128::MAX`. A `NonceOverflow` failure of some round is characterised by `Chain.Step`, not by `Run`.
