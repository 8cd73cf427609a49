# Proof-of-work engine of the Larityd ledger, in Dafny

The ledger's crypto crate holds its proof-of-work engine (module `pow` in
`crates/crypto/src/lib.rs`). `solve_pow(input, difficulty)` tries the nonces
`0, 1, …, difficulty - 1` in order. For each nonce it feeds `input` and then the
nonce's eight little-endian bytes to a fresh BLAKE3 hasher. It reads the first
eight digest bytes as a little-endian `u64`, the nonce's *score*. It returns the
first nonce whose score is strictly below `difficulty`, or `None` once the range
runs out. `verify_pow(input, nonce, difficulty)` recomputes that one score and
makes the same comparison.

This project models that engine:

- `le_bytes.dfy`, module `LeBytes`: the `u64` type, `u64::to_le_bytes` and
  `u64::from_le_bytes`, written out as a little-endian encoding and decoding,
  proved mutually inverse.
- `hashing.dfy`, module `Hashing`: the streaming `blake3::Hasher` (`new`,
  `update`, `finalize`) as a class whose state is the message absorbed so far.
  The digest function is a parameter: any total function from byte strings to
  32-byte digests. Every property below therefore holds for every hash function,
  BLAKE3 included.
- `pow.dfy`, module `Pow`: `verify_pow` as the predicate `VerifyPow`. A
  recursive reference definition `FirstSolution` of "the first accepted nonce
  at or after `from`". `solve_pow` as the method `SolvePow`, a loop over a fresh
  hasher per nonce (`HashScore`). The method is proved to compute
  `FirstSolution(…, 0)` and to meet the engine's promises directly.
- `pow_properties.dfy`, module `PowProperties`: the promises stated as lemmas
  about `FirstSolution` and `VerifyPow`. They cover the round trip, bounds,
  minimality and exhaustiveness (both directions), zero difficulty,
  monotonicity in the difficulty, and distinct nonces giving distinct preimages.

Difficulties, nonces and scores are `u64` values (an integer subset type below
2^64). The source's range `0..difficulty` never leaves that type, so no
wrap-around arises. In the source the nonce bound of the search is the
difficulty itself. So the search space and the acceptance target are one
number, and the model keeps that coupling.

## Model

| member | source | states |
|---|---|---|
| `LeBytes.ToLeBytes` | crates/crypto/src/lib.rs:9 | `to_le_bytes` of a `u64` is exactly eight bytes |
| `LeBytes.ToLeBytesIsLittleEndian` | crates/crypto/src/lib.rs:9 | byte `i` of `to_le_bytes(x)` is digit `i` of `x` in base 256, least significant first |
| `LeBytes.FromLeBytes` | crates/crypto/src/lib.rs:12 | `from_le_bytes` reads an 8-byte array as the `u64` whose `to_le_bytes` encoding is that array (inverse of `ToLeBytes`; see also `U64RoundTrip`, `BytesRoundTrip`) |
| `LeBytes.EncodeDigit` | crates/crypto/src/lib.rs:9 | byte `i` of an n-byte little-endian encoding of x is `(x / 256^i) % 256` |
| `LeBytes.Decode` | crates/crypto/src/lib.rs:12 | a little-endian string of k bytes denotes a number below 256^k, so eight digest bytes always read as a `u64` |
| `LeBytes.DecodeEncode` | crates/crypto/src/lib.rs:9-12 | decoding the n low-order little-endian bytes of a number below 256^n gives the number back |
| `LeBytes.EncodeDecode` | crates/crypto/src/lib.rs:9-12 | encoding a decoded byte string at its own width gives the string back |
| `LeBytes.U64RoundTrip` | crates/crypto/src/lib.rs:9-12 | `from_le_bytes(to_le_bytes(x)) == x` for every `u64` |
| `LeBytes.BytesRoundTrip` | crates/crypto/src/lib.rs:9-12 | `to_le_bytes(from_le_bytes(b)) == b` for every 8-byte array, so the two are inverse bijections |
| `LeBytes.ToLeBytesInjective` | crates/crypto/src/lib.rs:9 | distinct `u64` values have distinct byte encodings |
| `Hashing.Hasher.constructor` | crates/crypto/src/lib.rs:7 | a new hasher uses the given digest function and has absorbed nothing |
| `Hashing.Hasher.Update` | crates/crypto/src/lib.rs:8-9 | `update` appends its bytes, in order, to the absorbed message |
| `Hashing.Hasher.Finalize` | crates/crypto/src/lib.rs:10 | `finalize` is the digest of exactly the bytes absorbed so far and leaves the hasher unchanged |
| `Pow.Preimage` | crates/crypto/src/lib.rs:8-9 | the hashed message is eight bytes longer than the input: first the input, then the nonce's eight `to_le_bytes` bytes |
| `Pow.Score` | crates/crypto/src/lib.rs:12 | the compared value is the `u64` whose little-endian bytes are the first eight digest bytes of the preimage; `HashScore` proves the streamed computation equals it |
| `Pow.VerifyPow` | crates/crypto/src/lib.rs:19-26 | `verify_pow` accepts only when the difficulty is positive, because a `u64` score is never below zero |
| `Pow.FirstSolution` | crates/crypto/src/lib.rs:4-17 | a nonce the search yields lies in `[from, difficulty)` and passes `VerifyPow` (the solve/verify round trip) |
| `Pow.HashScore` | crates/crypto/src/lib.rs:7-12 | the score computed with a fresh streaming hasher equals the score `verify_pow` computes (lines 20-25), so the two use one acceptance rule |
| `Pow.SolvePow` | crates/crypto/src/lib.rs:4-17 | `solve_pow` returns `FirstSolution(…, 0)`: a `Some(n)` has `n < difficulty`, passes `VerifyPow`, and no smaller nonce passes; `None` means no nonce below `difficulty` passes |
| `PowProperties.FirstSolutionIsLeast` | crates/crypto/src/lib.rs:6-14 | a returned nonce is in range, passes, and every nonce skipped before it fails |
| `PowProperties.LeastIsFirstSolution` | crates/crypto/src/lib.rs:6-14 | conversely, the least passing nonce in range is the one returned |
| `PowProperties.NoSolutionIsExhaustive` | crates/crypto/src/lib.rs:6-16 | `None` means every nonce in `[from, difficulty)` fails verification |
| `PowProperties.ExhaustedIsNoSolution` | crates/crypto/src/lib.rs:6-16 | conversely, when every nonce in range fails, the search returns `None` |
| `PowProperties.SolveThenVerify` | crates/crypto/src/lib.rs:4-26 | if the search from zero returns `Some(n)`, then `n < difficulty` and `verify_pow(input, n, difficulty)` holds |
| `PowProperties.ZeroDifficulty` | crates/crypto/src/lib.rs:6-25 | with difficulty zero the search returns `None` and no nonce verifies |
| `PowProperties.VerifyMonotone` | crates/crypto/src/lib.rs:25 | a nonce accepted at difficulty d is accepted at every d' >= d |
| `PowProperties.SolveMonotone` | crates/crypto/src/lib.rs:4-26 | raising the difficulty keeps a successful search successful, and the nonce found is no later |
| `PowProperties.SolveNoneAntitone` | crates/crypto/src/lib.rs:4-26 | a search that fails at some difficulty also fails at every smaller one |
| `PowProperties.PreimageDeterminesNonce` | crates/crypto/src/lib.rs:8-9 | two nonces with the same preimage are equal, so each attempt hashes a different message |

## Left out

- BLAKE3's compression function (crates/crypto/src/lib.rs:2, 7-10): it is a foreign library. The hasher is parameterised by an arbitrary digest function from byte strings to 32 bytes, so no property depends on which hash is used.
- `signatures` module (crates/crypto/src/lib.rs:29-52): a thin wrapper over a SPHINCS+ library, with a thread RNG in `Keypair::new`. Nothing in it can be stated without the foreign scheme.
- Consensus crate (crates/consensus/src/lib.rs): `mine_block` always returns `None` and `verify_block` always returns `true`. The DAG behind a read-write lock and the tip counter are concurrency plumbing, and no ordering rule is implemented.
- State crate (crates/state/src/lib.rs): `apply_block` returns the current root unchanged, the error type is empty, and the proof cache is a foreign LRU cache. The crate also depends on circuit types that are not part of this model.
- Model crate (crates/model/src/lib.rs): plain serialisable records with no behaviour, and nothing about them uses the engine.
- Network crate (crates/network/src/lib.rs), prover crate (crates/prover/src/lib.rs) and node binary (crates/node/src/main.rs): asynchronous I/O, a prover stub that returns 32 zero bytes, and a runtime bootstrap with an endless sleep loop.
- Cancelling a running search between nonce attempts is part of the design but not of the code: `solve_pow` has no cancellation signal, so the model has none. Elapsed CPU time is not modelled.
- DAG ordering, tip-set maintenance, block validation and state transition with a proof cache are described for this ledger, but the crates above hold only placeholders for them. There is no code to model them against.
