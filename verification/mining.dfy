/** `Block::mine`: the nonce search. */
module Mining {
  import opened Wrappers
  import opened Bytes
  import opened Blocks
  import opened Difficulty

  /** Nonce `n` solves block `b`: the block with that nonce meets the target. */
  predicate Solves(H: Hasher, t: Target, b: Block, n: u128) {
    Meets(t, BlockHash(H, b.(nonce := n)))
  }

  /** Increments the nonce, then hashes and tests, until the test passes, so the
      starting nonce is never tried. Running past `U128_MAX` is the overflow
      Rust's checked `+= 1` panics on, reported as `NonceOverflow`. On success
      the result is the least solving nonce above the start and nothing but
      the nonce has changed. */
  method Mine(H: Hasher, t: Target, b: Block) returns (r: Result<Block, Fault>)
    ensures r.Success? ==> r.value == b.(nonce := r.value.nonce)
    ensures r.Success? ==> b.nonce < r.value.nonce && Meets(t, BlockHash(H, r.value))
    ensures r.Success? ==> forall n: u128 | b.nonce < n < r.value.nonce :: !Solves(H, t, b, n)
    ensures r.Failure? ==> r.error == NonceOverflow
    ensures r.Failure? <==> forall n: u128 | b.nonce < n :: !Solves(H, t, b, n)
  {
    var cur := b;
    while true
      invariant cur == b.(nonce := cur.nonce)
      invariant b.nonce <= cur.nonce
      invariant forall n: u128 | b.nonce < n <= cur.nonce :: !Solves(H, t, b, n)
      decreases U128_MAX - cur.nonce
    {
      if cur.nonce == U128_MAX {
        return Failure(NonceOverflow);
      }
      cur := cur.(nonce := cur.nonce + 1);
      var hash := BlockHash(H, cur);
      if Meets(t, hash) {
        assert Solves(H, t, b, cur.nonce);
        return Success(cur);
      }
    }
  }
}
