/**
 * Key derivation (`derive_seed_and_bytes`): the passphrase's digest is used
 * whole as the XOR keystream, and its first eight bytes, read as a big-endian
 * unsigned integer, seed the pixel shuffle.  The digest itself (SHA-256)
 * is supplied by the caller as a function.
 */
module KeyDerivation {
  import opened Types

  /** 256 to the power n. */
  function Pow256(n: nat): (p: nat)
    ensures p > 0
  {
    if n == 0 then 1 else 256 * Pow256(n - 1)
  }

  /** 2^64: every seed lies below it. */
  const SeedBound: nat := 0x1_0000_0000_0000_0000

  /** Python's `int.from_bytes(bs, 'big')`: an n-byte value is below 256^n. */
  function FromBigEndian(bs: seq<Byte>): (v: nat)
    ensures v < Pow256(|bs|)
  {
    if bs == [] then 0
    else
      var init := bs[..|bs| - 1];
      var v := FromBigEndian(init) * 256 + bs[|bs| - 1];
      assert v < Pow256(|bs|) by {
        assert FromBigEndian(init) + 1 <= Pow256(|init|);
        calc {
          v;
        <
          FromBigEndian(init) * 256 + 256;
        ==
          (FromBigEndian(init) + 1) * 256;
        <=
          Pow256(|init|) * 256;
        }
      }
      v
  }

  /** Python's `v.to_bytes(len, 'big')` for a value that fits; the reference inverse of FromBigEndian. */
  function ToBigEndian(v: nat, len: nat): (bs: seq<Byte>)
    ensures |bs| == len
  {
    if len == 0 then [] else ToBigEndian(v / 256, len - 1) + [v % 256]
  }

  /** Reading bytes as an integer and writing it back yields the same bytes. */
  lemma {:induction false} BigEndianBytesRoundTrip(bs: seq<Byte>)
    ensures ToBigEndian(FromBigEndian(bs), |bs|) == bs
  {
    if bs != [] {
      var init := bs[..|bs| - 1];
      var v := FromBigEndian(bs);
      assert v / 256 == FromBigEndian(init) && v % 256 == bs[|bs| - 1];
      BigEndianBytesRoundTrip(init);
      assert bs == init + [bs[|bs| - 1]];
    }
  }

  /** Writing a value below 256^len as bytes and reading them back yields the value. */
  lemma {:induction false} BigEndianValueRoundTrip(v: nat, len: nat)
    requires v < Pow256(len)
    ensures FromBigEndian(ToBigEndian(v, len)) == v
  {
    if len > 0 {
      var bs := ToBigEndian(v, len);
      assert bs[..len - 1] == ToBigEndian(v / 256, len - 1);
      BigEndianValueRoundTrip(v / 256, len - 1);
    } else {
      assert v == 0;
    }
  }

  /** Two byte strings of the same length with the same big-endian value are equal. */
  lemma {:induction false} BigEndianInjective(a: seq<Byte>, b: seq<Byte>)
    requires |a| == |b| && FromBigEndian(a) == FromBigEndian(b)
    ensures a == b
  {
    BigEndianBytesRoundTrip(a);
    BigEndianBytesRoundTrip(b);
  }

  /**
   * `derive_seed_and_bytes`: given the digest of the (already UTF-8 encoded)
   * passphrase, the seed is the big-endian value of its first eight bytes and
   * the keystream is the digest itself, unchanged.
   */
  function DeriveSeedAndBytes(digest: seq<Byte>): (r: (nat, seq<Byte>))
    requires |digest| == 32
    ensures r.0 < SeedBound
    ensures ToBigEndian(r.0, 8) == digest[..8]
    ensures r.1 == digest
  {
    var seed := FromBigEndian(digest[..8]);
    BigEndianBytesRoundTrip(digest[..8]);
    assert Pow256(8) == SeedBound;
    (seed, digest)
  }
}
