/**
 * The pixel-level bodies of `encrypt_image` and `decrypt_image`.
 *
 * Encrypt: XOR the channels while pixels are still at their natural
 * positions, then gather by the shuffled index list.  Decrypt: scatter by
 * the same index list, then XOR again.  Both derive the seed and keystream
 * from the passphrase in the same way, and rebuild the index list from the
 * seed and the grid length, so the same passphrase gives the same list.
 */
module ImgCrypt {
  import opened Types
  import opened KeyDerivation
  import opened ChannelCipher
  import opened Permutation

  /**
   * The library calls the transform relies on: the digest of the encoded
   * passphrase (`hashlib.sha256(...).digest()`), and the list that
   * `random.Random(seed).shuffle` leaves behind when given a list.
   */
  datatype Env = Env(sha256: seq<Byte> -> seq<Byte>, shuffle: (nat, seq<nat>) -> seq<nat>)
  {
    /** A digest is 32 bytes long, and a shuffle only rearranges its list. */
    ghost predicate Valid()
    {
      && (forall m: seq<Byte> :: |sha256(m)| == 32)
      && (forall seed: nat, xs: seq<nat> :: multiset(shuffle(seed, xs)) == multiset(xs))
    }
  }

  /** `indices = list(range(n)); random.Random(seed).shuffle(indices)`. */
  function Indices(env: Env, seed: nat, n: nat): (indices: seq<nat>)
    requires env.Valid()
    ensures IsPermutation(indices, n)
  {
    env.shuffle(seed, Range(n))
  }

  /** The pixel list `encrypt_image` hands to the image encoder. */
  function EncryptGrid(env: Env, passphrase: seq<Byte>, pixels: seq<Pixel>): (encrypted: seq<Pixel>)
    requires env.Valid()
    ensures |encrypted| == |pixels|
    ensures multiset(encrypted) == multiset(Xored(pixels, env.sha256(passphrase)))
  {
    var (seed, keyBytes) := DeriveSeedAndBytes(env.sha256(passphrase));
    var xored := Xored(pixels, keyBytes);
    var indices := Indices(env, seed, |xored|);
    GatherPermutes(xored, indices);
    Gather(xored, indices)
  }

  /** The pixel list `decrypt_image` hands to the image encoder. */
  function DecryptGrid(env: Env, passphrase: seq<Byte>, pixels: seq<Pixel>): (recovered: seq<Pixel>)
    requires env.Valid()
    ensures |recovered| == |pixels|
    ensures multiset(Xored(recovered, env.sha256(passphrase))) == multiset(pixels)
  {
    var (seed, keyBytes) := DeriveSeedAndBytes(env.sha256(passphrase));
    var indices := Indices(env, seed, |pixels|);
    ScatteredAt(pixels, indices);
    var original := Scattered(pixels, indices);
    ScatteredPermutes(pixels, indices);
    XoredInvolution(original, keyBytes);
    Xored(original, keyBytes)
  }

  /** Lines 34-43 of `encrypt_image`, on the decoded pixel list. */
  method EncryptPixels(env: Env, passphrase: seq<Byte>, pixels: seq<Pixel>) returns (encrypted: seq<Pixel>)
    requires env.Valid()
    ensures encrypted == EncryptGrid(env, passphrase, pixels)
  {
    var (seed, keyBytes) := DeriveSeedAndBytes(env.sha256(passphrase));
    var xored := XorPixels(pixels, keyBytes);
    var indices := Indices(env, seed, |xored|);
    GatherPermutes(xored, indices);
    encrypted := Gather(xored, indices);
  }

  /** Lines 53-66 of `decrypt_image`, on the decoded pixel list. */
  method DecryptPixels(env: Env, passphrase: seq<Byte>, pixels: seq<Pixel>) returns (recovered: seq<Pixel>)
    requires env.Valid()
    ensures recovered == DecryptGrid(env, passphrase, pixels)
  {
    var (seed, keyBytes) := DeriveSeedAndBytes(env.sha256(passphrase));
    var indices := Indices(env, seed, |pixels|);
    var original := Scatter(pixels, indices);
    var filled := seq(|original|, i requires 0 <= i < |original| => original[i].value);
    ScatteredAt(pixels, indices);
    PermutationFacts(indices, |pixels|);
    forall i | 0 <= i < |pixels|
      ensures filled[i] == Scattered(pixels, indices)[i]
    {
      var j := IndexOf(indices, i);
      assert original[indices[j]] == Some(pixels[j]);
    }
    recovered := XorPixels(filled, keyBytes);
  }

  /** Decrypting with the passphrase used to encrypt recovers the original pixels, the empty grid included. */
  lemma RoundTrip(env: Env, passphrase: seq<Byte>, pixels: seq<Pixel>)
    requires env.Valid()
    ensures DecryptGrid(env, passphrase, EncryptGrid(env, passphrase, pixels)) == pixels
  {
    var (seed, keyBytes) := DeriveSeedAndBytes(env.sha256(passphrase));
    var xored := Xored(pixels, keyBytes);
    var indices := Indices(env, seed, |xored|);
    ScatterGather(xored, indices);
    XoredInvolution(pixels, keyBytes);
  }

  /** Encrypting what decryption produced gives back the encrypted pixels. */
  lemma RoundTripReverse(env: Env, passphrase: seq<Byte>, pixels: seq<Pixel>)
    requires env.Valid()
    ensures EncryptGrid(env, passphrase, DecryptGrid(env, passphrase, pixels)) == pixels
  {
    var (seed, keyBytes) := DeriveSeedAndBytes(env.sha256(passphrase));
    var indices := Indices(env, seed, |pixels|);
    var original := Scattered(pixels, indices);
    ScatteredAt(pixels, indices);
    XoredInvolution(original, keyBytes);
    GatherScatter(pixels, indices);
  }

  /** Encryption leaves 8-bit channels 8-bit. */
  lemma EncryptInRange(env: Env, passphrase: seq<Byte>, pixels: seq<Pixel>)
    requires env.Valid()
    requires forall i :: 0 <= i < |pixels| ==> InRange(pixels[i])
    ensures forall i :: 0 <= i < |pixels| ==> InRange(EncryptGrid(env, passphrase, pixels)[i])
  {
    var keyBytes := env.sha256(passphrase);
    var xored := Xored(pixels, keyBytes);
    XoredInRange(pixels, keyBytes);
    var encrypted := EncryptGrid(env, passphrase, pixels);
    forall i | 0 <= i < |pixels|
      ensures InRange(encrypted[i])
    {
      assert encrypted[i] in multiset(xored);
    }
  }
}
