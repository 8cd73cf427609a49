/** The proof-of-work engine (`pow` in the crypto crate): a bounded search
    for a nonce whose salted digest, read as a little-endian `u64`, lies
    strictly below the difficulty, and the check of such a nonce. */
module Pow {
  import opened LeBytes
  import opened Hashing

  datatype Option<T> = None | Some(value: T)

  /** The message hashed for one attempt: the input followed by the eight
      little-endian bytes of the nonce. */
  function Preimage(input: seq<Byte>, nonce: U64): (p: seq<Byte>)
    ensures |p| == |input| + 8
    ensures p[..|input|] == input && p[|input|..] == ToLeBytes(nonce)
  {
    input + ToLeBytes(nonce)
  }

  /** The number a nonce scores: the first eight digest bytes of its
      preimage, read little-endian: the `u64` whose encoding is those
      eight bytes. */
  function Score(hash: HashFn, input: seq<Byte>, nonce: U64): (s: U64)
    ensures ToLeBytes(s) == hash(Preimage(input, nonce))[..8]
  {
    FromLeBytes(hash(Preimage(input, nonce))[..8])
  }

  /** `verify_pow`: does `nonce` meet `difficulty` for `input`? A score is
      never negative, so no nonce meets difficulty zero. */
  predicate VerifyPow(hash: HashFn, input: seq<Byte>, nonce: U64, difficulty: U64): (ok: bool)
    ensures ok ==> difficulty > 0
  {
    Score(hash, input, nonce) < difficulty
  }

  /** Reference definition of the search: the first nonce in
      `[from, difficulty)` that `VerifyPow` accepts, if any. */
  function FirstSolution(hash: HashFn, input: seq<Byte>, difficulty: U64, from: nat): (r: Option<U64>)
    ensures r.Some? ==> from <= r.value < difficulty
    ensures r.Some? ==> VerifyPow(hash, input, r.value, difficulty)
    decreases difficulty - from
  {
    if from >= difficulty then None
    else if VerifyPow(hash, input, from, difficulty) then Some(from)
    else FirstSolution(hash, input, difficulty, from + 1)
  }

  /** Nonces below `nonce` all rejected, and `nonce` rejected too: the
      search moves on to `nonce + 1` with the same outcome. */
  lemma RejectedPrefixGrows(hash: HashFn, input: seq<Byte>, difficulty: U64, nonce: U64)
    requires nonce < difficulty && !VerifyPow(hash, input, nonce, difficulty)
    requires forall m: U64 :: m < nonce ==> !VerifyPow(hash, input, m, difficulty)
    ensures forall m: U64 :: m < nonce + 1 ==> !VerifyPow(hash, input, m, difficulty)
    ensures FirstSolution(hash, input, difficulty, nonce + 1) == FirstSolution(hash, input, difficulty, nonce)
  {
  }

  /** One attempt of `solve_pow`, done the way `solve_pow` does it: a fresh
      hasher absorbs the input and then the nonce's bytes, and the first
      eight bytes of its digest are read as a little-endian `u64`. */
  method HashScore(hash: HashFn, input: seq<Byte>, nonce: U64) returns (score: U64)
    ensures score == Score(hash, input, nonce)
  {
    var hasher := new Hasher(hash);
    hasher.Update(input);
    hasher.Update(ToLeBytes(nonce));
    assert hasher.absorbed == Preimage(input, nonce);
    var digest := hasher.Finalize();
    score := FromLeBytes(digest[..8]);
  }

  /** `solve_pow`: tries the nonces `0, 1, ..., difficulty - 1` in order,
      hashing each with a fresh hasher, and returns the first one whose
      score is below `difficulty`; `None` once the range is used up. */
  method SolvePow(hash: HashFn, input: seq<Byte>, difficulty: U64) returns (r: Option<U64>)
    ensures r == FirstSolution(hash, input, difficulty, 0)
    ensures r.Some? ==> r.value < difficulty && VerifyPow(hash, input, r.value, difficulty)
    ensures r.Some? ==> forall m: U64 :: m < r.value ==> !VerifyPow(hash, input, m, difficulty)
    ensures r.None? ==> forall m: U64 :: m < difficulty ==> !VerifyPow(hash, input, m, difficulty)
  {
    for nonce: U64 := 0 to difficulty
      invariant forall m: U64 :: m < nonce ==> !VerifyPow(hash, input, m, difficulty)
      invariant FirstSolution(hash, input, difficulty, nonce) == FirstSolution(hash, input, difficulty, 0)
    {
      var score := HashScore(hash, input, nonce);
      if score < difficulty {
        assert FirstSolution(hash, input, difficulty, nonce) == Some(nonce);
        return Some(nonce);
      }
      RejectedPrefixGrows(hash, input, difficulty, nonce);
    }
    return None;
  }
}
