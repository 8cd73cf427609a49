/** Fixed-width unsigned integers and their little-endian byte encoding, as
    Rust's `u64::to_le_bytes` and `u64::from_le_bytes` define them. */
module LeBytes {

  /** One octet. */
  type Byte = b: int | 0 <= b < 256

  /** 2^64, one more than the largest `u64`. */
  const U64_LIMIT: int := 0x1_0000_0000_0000_0000

  /** Rust's `u64`. */
  type U64 = x: int | 0 <= x < 0x1_0000_0000_0000_0000

  /** The number of values that `n` bytes can represent. */
  function Pow256(n: nat): (p: nat)
    ensures p >= 1
  {
    if n == 0 then 1 else 256 * Pow256(n - 1)
  }

  lemma EightBytesSpanU64()
    ensures Pow256(8) == U64_LIMIT
  {
  }

  /** The `n` low-order bytes of `x`, least significant first. */
  function Encode(x: nat, n: nat): (r: seq<Byte>)
    ensures |r| == n
  {
    if n == 0 then [] else [x % 256] + Encode(x / 256, n - 1)
  }

  /** The number whose little-endian bytes are `s`. */
  function Decode(s: seq<Byte>): (v: nat)
    ensures v < Pow256(|s|)
  {
    if s == [] then 0
    else
      var rest := Decode(s[1..]);
      assert rest <= Pow256(|s| - 1) - 1;
      assert 256 * rest <= 256 * Pow256(|s| - 1) - 256;
      s[0] + 256 * rest
  }

  /** Decoding the `n` bytes of a number that fits in them gives it back. */
  lemma {:induction false} DecodeEncode(x: nat, n: nat)
    requires x < Pow256(n)
    ensures Decode(Encode(x, n)) == x
  {
    if n > 0 {
      var e := Encode(x, n);
      assert e[1..] == Encode(x / 256, n - 1);
      assert x / 256 < Pow256(n - 1);
      DecodeEncode(x / 256, n - 1);
      assert x == x % 256 + 256 * (x / 256);
    }
  }

  /** Encoding a decoded byte string at its own width gives it back. */
  lemma {:induction false} EncodeDecode(s: seq<Byte>)
    ensures Encode(Decode(s), |s|) == s
  {
    if s != [] {
      var rest := Decode(s[1..]);
      var v := s[0] + 256 * rest;
      assert v == Decode(s);
      assert v % 256 == s[0] && v / 256 == rest;
      EncodeDecode(s[1..]);
      assert Encode(v, |s|) == [s[0]] + Encode(rest, |s| - 1);
    }
  }

  /** A nonzero multiple of a positive `d` is at least `d` away from zero. */
  lemma MulBound(d: int, k: int)
    requires d > 0
    ensures k >= 1 ==> d * k >= d
    ensures k <= -1 ==> d * k <= -d
  {
    if k >= 1 { assert d * k == d + d * (k - 1); }
    if k <= -1 { assert d * k == -d + d * (k + 1); }
  }

  /** Quotient and remainder are the only ones with `0 <= r < d`. */
  lemma DivUnique(x: int, d: int, q: int, r: int)
    requires d > 0 && x == d * q + r && 0 <= r < d
    ensures x / d == q && x % d == r
  {
    assert d * (q - x / d) == x % d - r;
    MulBound(d, q - x / d);
  }

  /** Dividing by `a` and then by `b` is dividing by `a * b`. */
  lemma DivDiv(x: nat, a: nat, b: nat)
    requires a > 0 && b > 0
    ensures (x / a) / b == x / (a * b)
  {
    var q, r1 := x / a, x % a;
    var q2, r2 := q / b, q % b;
    assert x == a * q + r1;
    assert q == b * q2 + r2;
    assert a * q == (a * b) * q2 + a * r2;
    MulBound(a, b - r2);
    assert a * r2 + r1 < a * b by {
      assert a * (b - r2) == a * b - a * r2;
    }
    assert 0 <= a * r2;
    DivUnique(x, a * b, q2, a * r2 + r1);
  }

  /** Byte `i` of the encoding is digit `i` of `x` in base 256: the
      least significant byte comes first. */
  lemma {:induction false} EncodeDigit(x: nat, n: nat, i: nat)
    requires i < n
    ensures Encode(x, n)[i] == (x / Pow256(i)) % 256
  {
    if i > 0 {
      EncodeDigit(x / 256, n - 1, i - 1);
      DivDiv(x, 256, Pow256(i - 1));
    }
  }

  /** `u64::to_le_bytes`: the eight low-order bytes of `x`. */
  function ToLeBytes(x: U64): (r: seq<Byte>)
    ensures |r| == 8
  {
    Encode(x, 8)
  }

  /** `to_le_bytes` is little-endian: byte `i` is digit `i` of `x` in
      base 256, the least significant byte first. */
  lemma ToLeBytesIsLittleEndian(x: U64)
    ensures forall i :: 0 <= i < 8 ==> ToLeBytes(x)[i] == (x / Pow256(i)) % 256
  {
    forall i | 0 <= i < 8
      ensures ToLeBytes(x)[i] == (x / Pow256(i)) % 256
    {
      EncodeDigit(x, 8, i);
    }
  }

  /** `u64::from_le_bytes`, whose argument is an 8-byte array: the number
      whose little-endian encoding is `b`. */
  function FromLeBytes(b: seq<Byte>): (v: U64)
    requires |b| == 8
    ensures ToLeBytes(v) == b
  {
    EightBytesSpanU64();
    EncodeDecode(b);
    Decode(b)
  }

  /** `from_le_bytes` undoes `to_le_bytes`. */
  lemma U64RoundTrip(x: U64)
    ensures FromLeBytes(ToLeBytes(x)) == x
  {
    EightBytesSpanU64();
    DecodeEncode(x, 8);
  }

  /** `to_le_bytes` undoes `from_le_bytes` (a named corollary of the
      contract of `FromLeBytes`): the two are inverse bijections
      between `u64` and 8-byte arrays. */
  lemma BytesRoundTrip(b: seq<Byte>)
    requires |b| == 8
    ensures ToLeBytes(FromLeBytes(b)) == b
  {
    EncodeDecode(b);
  }

  /** Distinct numbers have distinct encodings. */
  lemma ToLeBytesInjective(x: U64, y: U64)
    requires ToLeBytes(x) == ToLeBytes(y)
    ensures x == y
  {
    U64RoundTrip(x);
    U64RoundTrip(y);
  }
}
