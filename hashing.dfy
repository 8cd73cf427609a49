/** The streaming interface of the BLAKE3 hasher used by the proof-of-work
    engine. The compression function itself is not modelled: a hasher is
    parameterised by an arbitrary function from messages to 32-byte digests,
    so whatever is proved about its users holds for every such function. */
module Hashing {
  import opened LeBytes

  /** A BLAKE3 output: 32 bytes. */
  type Digest = s: seq<Byte> | |s| == 32 witness seq(32, _ => 0)

  /** The digest function `blake3::hash`, as a total function on byte strings. */
  type HashFn = seq<Byte> -> Digest

  /** `blake3::Hasher`: bytes fed to `update` accumulate, in order, and
      `finalize` digests everything fed so far without consuming it. */
  class Hasher {
    const hash: HashFn
    var absorbed: seq<Byte>

    /** `Hasher::new`: nothing absorbed yet. */
    constructor (hash: HashFn)
      ensures this.hash == hash && absorbed == []
    {
      this.hash := hash;
      absorbed := [];
    }

    /** `Hasher::update`: appends `data` to the message. */
    method Update(data: seq<Byte>)
      modifies this
      ensures absorbed == old(absorbed) + data
    {
      absorbed := absorbed + data;
    }

    /** `Hasher::finalize`: the digest of the whole message absorbed so far;
        the hasher is left as it was. */
    method Finalize() returns (d: Digest)
      ensures d == hash(absorbed)
    {
      d := hash(absorbed);
    }
  }
}
