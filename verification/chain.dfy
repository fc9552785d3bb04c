/** The chain driver: the genesis block, successor construction, the
    linkage invariant every mined chain keeps, and the loop of `main`. */
module Chain {
  import opened Wrappers
  import opened Bytes
  import opened Blocks
  import opened Difficulty
  import opened Mining

  /** The all-zero, unlinked block the chain starts from. */
  predicate IsGenesis(b: Block) {
    && b.number == 0
    && b.lastBlockHash == Zeros(HASH_BYTES)
    && b.merkleRoot == Zeros(HASH_BYTES)
    && b.data == Zeros(DATA_BYTES)
    && b.nonce == 0
    && b.lastBlock == None
  }

  /** `GENESIS_BLOCK`. */
  function Genesis(): (g: Block)
    ensures IsGenesis(g)
  {
    Block(0, Zeros(HASH_BYTES), Zeros(HASH_BYTES), Zeros(DATA_BYTES), 0, None)
  }

  /** `b` is a well-formed successor of `p`: next number, `p`'s digest as its
      last block hash, the accumulator stepped over that digest, zero data. */
  predicate Extends(H: Hasher, b: Block, p: Block) {
    && b.number == p.number + 1
    && b.lastBlockHash == BlockHash(H, p)
    && b.merkleRoot == MerkleRoot(H, BlockHash(H, p), p.merkleRoot)
    && b.data == Zeros(DATA_BYTES)
  }

  /** `b` was mined on top of `p`: it extends `p`, its nonce was searched
      past the initial zero, and its digest meets the target. */
  predicate MinedOn(H: Hasher, t: Target, b: Block, p: Block) {
    && Extends(H, b, p)
    && b.nonce > 0
    && Meets(t, BlockHash(H, b))
  }

  /** The chain invariant: following the links from `b` reaches genesis, and
      every later block was mined on top of the one before it. */
  predicate ValidChain(H: Hasher, t: Target, b: Block) {
    var hs := History(b);
    && IsGenesis(hs[0])
    && forall i | 0 < i < |hs| :: MinedOn(H, t, hs[i], hs[i - 1])
  }

  /** The successor-building body of `main`'s loop, before mining: fails only
      on the sequence-number overflow. */
  function Successor(H: Hasher, tip: Block): (r: Result<Block, Fault>)
    ensures r.Success? <==> tip.number < U128_MAX
    ensures r.Failure? ==> r.error == NumberOverflow
    ensures r.Success? ==> Extends(H, r.value, tip)
    ensures r.Success? ==> r.value.nonce == 0 && r.value.lastBlock == Some(tip)
  {
    var lastBlockHash := BlockHash(H, tip);
    var merkleRoot := MerkleRoot(H, lastBlockHash, tip.merkleRoot);
    match NextNumber(tip)
    case Failure(e) => Failure(e)
    case Success(number) =>
      Success(Block(number, lastBlockHash, merkleRoot, Zeros(DATA_BYTES), 0, Some(tip)))
  }

  /** One iteration of `main`: build the successor, mine it. A successful
      step keeps the chain invariant and adds exactly one block on top of the tip. */
  method Step(H: Hasher, t: Target, tip: Block) returns (r: Result<Block, Fault>)
    requires ValidChain(H, t, tip)
    ensures r.Success? ==> ValidChain(H, t, r.value)
    ensures r.Success? ==> r.value.lastBlock == Some(tip) && r.value.number == tip.number + 1
    ensures r.Success? ==> r.value == Successor(H, tip).value.(nonce := r.value.nonce)
    ensures r.Success? ==>
      forall n: u128 | 0 < n < r.value.nonce :: !Solves(H, t, Successor(H, tip).value, n)
    ensures r == Failure(NumberOverflow) <==> tip.number == U128_MAX
    ensures r == Failure(NonceOverflow) <==>
      tip.number < U128_MAX &&
      forall n: u128 | 0 < n :: !Solves(H, t, Successor(H, tip).value, n)
  {
    var candidate := Successor(H, tip);
    if candidate.Failure? {
      return Failure(candidate.error);
    }
    r := Mine(H, t, candidate.value);
    if r.Success? {
      ValidChainStep(H, t, r.value);
    }
  }

  /** `main`'s loop run for `rounds` iterations from genesis (the program
      itself loops forever). On success the tip carries number `rounds`
      on a valid chain. */
  method Run(H: Hasher, t: Target, rounds: nat) returns (r: Result<Block, Fault>)
    ensures r.Success? ==> ValidChain(H, t, r.value) && r.value.number == rounds
    ensures r == Failure(NumberOverflow) ==> rounds > U128_MAX
  {
    var tip := Genesis();
    var i := 0;
    while i < rounds
      invariant i <= rounds
      invariant ValidChain(H, t, tip) && tip.number == i
    {
      var next := Step(H, t, tip);
      if next.Failure? {
        return next;
      }
      tip := next.value;
      i := i + 1;
    }
    return Success(tip);
  }

  /** The blocks of the chain ending at `b`, oldest first. */
  function History(b: Block): (hs: seq<Block>)
    decreases b
    ensures |hs| >= 1 && hs[|hs| - 1] == b
    ensures hs[0].lastBlock == None
    ensures forall i | 0 < i < |hs| :: hs[i].lastBlock == Some(hs[i - 1])
  {
    match b.lastBlock
    case None => [b]
    case Some(p) => History(p) + [b]
  }

  /** The chain invariant read link by link: a valid chain is genesis alone,
      or a valid chain with one block mined on top of its tip. */
  lemma ValidChainStep(H: Hasher, t: Target, b: Block)
    ensures b.lastBlock == None ==> (ValidChain(H, t, b) <==> IsGenesis(b))
    ensures b.lastBlock.Some? ==>
      (ValidChain(H, t, b) <==>
        ValidChain(H, t, b.lastBlock.value) && MinedOn(H, t, b, b.lastBlock.value))
  {
    if b.lastBlock.Some? {
      var p := b.lastBlock.value;
      var hp := History(p);
      assert History(b) == hp + [b];
      if ValidChain(H, t, p) && MinedOn(H, t, b, p) {
        var hs := History(b);
        forall i | 0 < i < |hs|
          ensures MinedOn(H, t, hs[i], hs[i - 1])
        {
          if i < |hp| {
            assert hs[i] == hp[i] && hs[i - 1] == hp[i - 1];
          }
        }
      }
      if ValidChain(H, t, b) {
        var hs := History(b);
        assert hs[|hs| - 1] == b && hs[|hs| - 2] == p;
        assert MinedOn(H, t, hs[|hs| - 1], hs[|hs| - 2]);
        forall i | 0 < i < |hp|
          ensures MinedOn(H, t, hp[i], hp[i - 1])
        {
          assert hs[i] == hp[i] && hs[i - 1] == hp[i - 1];
        }
      }
    }
  }

  /** A valid chain holds `b.number + 1` blocks, numbered 0, 1, 2, ... from genesis. */
  lemma {:induction false} ValidChainNumbers(H: Hasher, t: Target, b: Block)
    requires ValidChain(H, t, b)
    ensures |History(b)| == b.number + 1
    ensures forall i | 0 <= i < |History(b)| :: History(b)[i].number == i
    decreases b
  {
    ValidChainStep(H, t, b);
    match b.lastBlock
    case None =>
    case Some(p) =>
      ValidChainNumbers(H, t, p);
      assert History(b) == History(p) + [b];
  }

  /** Genesis to block 1 with the shipped target: the mined block has
      number 1, a digest starting with two zero bytes, a nonce above zero,
      and links back to the all-zero genesis block. */
  lemma FirstMinedBlock(H: Hasher, b: Block)
    requires ValidChain(H, TARGET, b) && b.number == 1
    ensures b.lastBlock == Some(Genesis())
    ensures BlockHash(H, b)[0] == 0 && BlockHash(H, b)[1] == 0
    ensures b.nonce > 0
  {
    ShippedTarget(BlockHash(H, b));
    ValidChainNumbers(H, TARGET, b);
    var hs := History(b);
    assert |hs| == 2 && hs[1] == b;
    assert MinedOn(H, TARGET, hs[1], hs[0]);
  }
}
