/** What the proof-of-work engine promises its callers, stated about the
    reference search `FirstSolution` (which `SolvePow` is proved to
    compute) and about `VerifyPow`. Every lemma holds for every hash
    function. */
module PowProperties {
  import opened LeBytes
  import opened Hashing
  import opened Pow

  /** A rejected nonce followed by a run of rejected nonces is a run. */
  lemma PrependRejected(hash: HashFn, input: seq<Byte>, difficulty: U64, lo: U64, hi: nat)
    requires !VerifyPow(hash, input, lo, difficulty)
    requires forall m: U64 :: lo + 1 <= m < hi ==> !VerifyPow(hash, input, m, difficulty)
    ensures forall m: U64 :: lo <= m < hi ==> !VerifyPow(hash, input, m, difficulty)
  {
  }

  /** A nonce the search returns is the least accepted nonce of
      `[from, difficulty)`: every nonce it skipped is rejected. */
  lemma {:induction false} FirstSolutionIsLeast(hash: HashFn, input: seq<Byte>, difficulty: U64, from: nat, n: U64)
    requires FirstSolution(hash, input, difficulty, from) == Some(n)
    ensures from <= n < difficulty && VerifyPow(hash, input, n, difficulty)
    ensures forall m: U64 :: from <= m < n ==> !VerifyPow(hash, input, m, difficulty)
    decreases difficulty - from
  {
    if n != from {
      assert !VerifyPow(hash, input, from, difficulty);
      FirstSolutionIsLeast(hash, input, difficulty, from + 1, n);
      PrependRejected(hash, input, difficulty, from, n);
    }
  }

  /** Conversely, the least accepted nonce of `[from, difficulty)` is what
      the search returns. */
  lemma {:induction false} LeastIsFirstSolution(hash: HashFn, input: seq<Byte>, difficulty: U64, from: nat, n: U64)
    requires from <= n < difficulty && VerifyPow(hash, input, n, difficulty)
    requires forall m: U64 :: from <= m < n ==> !VerifyPow(hash, input, m, difficulty)
    ensures FirstSolution(hash, input, difficulty, from) == Some(n)
    decreases difficulty - from
  {
    if from < n {
      assert !VerifyPow(hash, input, from, difficulty);
      LeastIsFirstSolution(hash, input, difficulty, from + 1, n);
    }
  }

  /** A search that returns `None` has rejected every nonce of
      `[from, difficulty)`. */
  lemma {:induction false} NoSolutionIsExhaustive(hash: HashFn, input: seq<Byte>, difficulty: U64, from: nat)
    requires FirstSolution(hash, input, difficulty, from) == None
    ensures forall m: U64 :: from <= m < difficulty ==> !VerifyPow(hash, input, m, difficulty)
    decreases difficulty - from
  {
    if from < difficulty {
      assert !VerifyPow(hash, input, from, difficulty);
      NoSolutionIsExhaustive(hash, input, difficulty, from + 1);
      PrependRejected(hash, input, difficulty, from, difficulty);
    }
  }

  /** Conversely, if every nonce of `[from, difficulty)` is rejected the
      search returns `None`: any nonce it returned would be in that range
      and accepted. */
  lemma ExhaustedIsNoSolution(hash: HashFn, input: seq<Byte>, difficulty: U64, from: nat)
    requires forall m: U64 :: from <= m < difficulty ==> !VerifyPow(hash, input, m, difficulty)
    ensures FirstSolution(hash, input, difficulty, from) == None
  {
  }

  /** Round trip: a nonce found by the search passes verification, and it
      lies in the searched range. A named corollary of `FirstSolution`'s own
      contract at `from = 0`, the starting point `solve_pow` uses. */
  lemma SolveThenVerify(hash: HashFn, input: seq<Byte>, difficulty: U64)
    ensures FirstSolution(hash, input, difficulty, 0).Some? ==>
      var n := FirstSolution(hash, input, difficulty, 0).value;
      n < difficulty && VerifyPow(hash, input, n, difficulty)
  {
  }

  /** With difficulty zero nothing is found and nothing verifies. */
  lemma ZeroDifficulty(hash: HashFn, input: seq<Byte>, nonce: U64)
    ensures FirstSolution(hash, input, 0, 0) == None
    ensures !VerifyPow(hash, input, nonce, 0)
  {
  }

  /** A nonce accepted at some difficulty is accepted at every larger one. */
  lemma VerifyMonotone(hash: HashFn, input: seq<Byte>, nonce: U64, d: U64, d': U64)
    requires d <= d'
    requires VerifyPow(hash, input, nonce, d)
    ensures VerifyPow(hash, input, nonce, d')
  {
  }

  /** Raising the difficulty never makes the search fail where it
      succeeded, and the nonce it finds can only move earlier. */
  lemma SolveMonotone(hash: HashFn, input: seq<Byte>, d: U64, d': U64)
    requires d <= d'
    requires FirstSolution(hash, input, d, 0).Some?
    ensures FirstSolution(hash, input, d', 0).Some?
    ensures FirstSolution(hash, input, d', 0).value <= FirstSolution(hash, input, d, 0).value
  {
    var n := FirstSolution(hash, input, d, 0).value;
    FirstSolutionIsLeast(hash, input, d, 0, n);
    VerifyMonotone(hash, input, n, d, d');
    match FirstSolution(hash, input, d', 0)
    case None =>
      NoSolutionIsExhaustive(hash, input, d', 0);
    case Some(n') =>
      FirstSolutionIsLeast(hash, input, d', 0, n');
  }

  /** Contrapositive: a search that fails at some difficulty fails at
      every smaller one. */
  lemma SolveNoneAntitone(hash: HashFn, input: seq<Byte>, d: U64, d': U64)
    requires d <= d'
    requires FirstSolution(hash, input, d', 0) == None
    ensures FirstSolution(hash, input, d, 0) == None
  {
    if FirstSolution(hash, input, d, 0).Some? {
      SolveMonotone(hash, input, d, d');
    }
  }

  /** The preimage is the input followed by the nonce's bytes, so distinct
      nonces are distinct attempts. */
  lemma PreimageDeterminesNonce(input: seq<Byte>, n1: U64, n2: U64)
    requires Preimage(input, n1) == Preimage(input, n2)
    ensures n1 == n2
  {
    ToLeBytesInjective(n1, n2);
  }
}
