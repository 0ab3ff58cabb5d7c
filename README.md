# imgcrypt transform, modelled in Dafny

`imgcrypt.py` obscures an image by a two-stage reversible transform over its
row-major list of RGB pixels, keyed by a passphrase:

1. **Key derivation** (`derive_seed_and_bytes`): the passphrase's SHA-256
   digest (32 bytes) is the XOR keystream, and its first eight bytes, read as
   a big-endian unsigned integer, seed Python's `random.Random`.
2. **Channel cipher** (`xor_pixels`): channel k (R=0, G=1, B=2) of pixel i is
   XORed with keystream byte `(3i+k) mod len(key)`.
3. **Position permutation**: `list(range(n))` shuffled by the seeded
   generator. Encryption gathers (`encrypted[j] = xored[indices[j]]`);
   decryption scatters into a list of `None`s
   (`original[indices[j]] = pixels[j]`).
4. **Pipelines**: encrypt is XOR then gather; decrypt is scatter then XOR.
   The keystream alignment depends only on a pixel's natural position, which
   is why decryption must un-permute before XORing.

The project proves that decryption with the same passphrase recovers the
original pixels exactly, for every grid including the empty one. That claim
comes from the module docstring and the comments on the inverse permutation
and the second XOR. It rests on three facts:
- XOR with the same keystream is an involution.
- Scatter inverts gather for a permutation, in both orders.
- Both pipelines derive the same seed, keystream and index list.

Files:
- `types.dfy`: bytes, pixels and `Option`.
- `key_derivation.dfy`: big-endian seed.
- `channel_cipher.dfy`: bitwise XOR on naturals and `xor_pixels`.
- `permutation.dfy`: gather, scatter and the permutation lemmas.
- `imgcrypt.dfy`: the two pipelines and the round trips.

Modelling choices:
- Channels are Python integers (`nat`), and `^` is bitwise XOR on
  non-negative integers (`ChannelCipher.Xor`). The 0..255 range of the
  output is therefore proved rather than built into a type.
- The SHA-256 digest and `random.Random(seed).shuffle` are foreign calls. They
  are fields of `ImgCrypt.Env`, and `Env.Valid()` states the only things the
  model assumes of them:
  - a digest is 32 bytes long;
  - a shuffle returns a rearrangement (same multiset) of the list it is given.
  No shuffle algorithm is assumed. The same `(seed, list)` always gives the
  same list because `shuffle` is a mathematical function.
- `IsPermutation(indices, n)` means `indices` is a rearrangement of
  `list(range(n))`. `PermutationFacts` derives length, bounds, distinctness
  and coverage from it.
- The scatter keeps Python's `None` slots (`Option`), so "no `None` remains"
  is a postcondition of `Permutation.Scatter`.
- The code checks neither for an empty passphrase nor that the pixel list's
  length matches the image size. The model accepts any passphrase bytes and
  any grid length.

## Model

| member | source | states |
|---|---|---|
| `KeyDerivation.DeriveSeedAndBytes` | imgcrypt.py:15-18 | the seed is below 2^64; its 8-byte big-endian encoding is the digest's first 8 bytes; the keystream is the whole digest, unchanged |
| `KeyDerivation.FromBigEndian` | imgcrypt.py:17 | `int.from_bytes(bs, 'big')`; an n-byte big-endian value is below 256^n |
| `KeyDerivation.BigEndianBytesRoundTrip` | imgcrypt.py:17 | encoding the big-endian value of some bytes at their length gives back the same bytes |
| `KeyDerivation.BigEndianValueRoundTrip` | imgcrypt.py:17 | decoding the n-byte encoding of a value below 256^n gives back the value |
| `KeyDerivation.BigEndianInjective` | imgcrypt.py:17 | equal-length byte strings with the same big-endian value are equal, so the seed determines the digest's first 8 bytes |
| `ChannelCipher.Xor` | imgcrypt.py:25-27 | Python's `^` on non-negative integers, bit by bit; the lowest bit of the result is the XOR of the operands' lowest bits |
| `ChannelCipher.XorInvolution` | imgcrypt.py:25-27 | `(a ^ b) ^ b == a` for all non-negative integers |
| `ChannelCipher.XorBound` | imgcrypt.py:25-27 | XOR of two values below 2^k is below 2^k |
| `ChannelCipher.XorByte` | imgcrypt.py:25-27 | XOR of two bytes is a byte |
| `ChannelCipher.Xored` | imgcrypt.py:20-29 | the list `xor_pixels` returns has one pixel per input pixel; the channel formula is its definition, and `XorPixels`, `XoredInvolution` and `XoredInRange` state what it means |
| `ChannelCipher.XorPixels` | imgcrypt.py:20-29 | output has the input's length; output pixel i is `(r ^ key[3i % klen], g ^ key[(3i+1) % klen], b ^ key[(3i+2) % klen])` |
| `ChannelCipher.XoredInvolution` | imgcrypt.py:65-66 | applying the channel cipher twice with the same keystream returns the pixels exactly |
| `ChannelCipher.XoredInRange` | imgcrypt.py:24-28 | pixels with 8-bit channels and a byte keystream give pixels with 8-bit channels |
| `Permutation.RangeMultiplicity` | imgcrypt.py:40 | every value below n occurs exactly once in `list(range(n))`, and no other value occurs |
| `Permutation.PermutationFacts` | imgcrypt.py:40-42 | a shuffle of `list(range(n))` has length n, entries below n, no repeats, and contains every value below n |
| `Permutation.Gather` | imgcrypt.py:43 | `[xs[i] for i in indices]`: one element per index |
| `Permutation.GatherPermutes` | imgcrypt.py:43 | the gather by a permutation is in bounds, keeps the length and is a rearrangement (same multiset) of its input |
| `Permutation.GatherSameMultiset` | imgcrypt.py:43 | gathering by two rearrangements of one index list yields rearrangements of each other |
| `Permutation.Scattered` | imgcrypt.py:61-63 | the list the scatter fills has its input's length; where each pixel lands is stated by `ScatteredAt` |
| `Permutation.ScatteredAt` | imgcrypt.py:60-63 | the scattered grid has the input's length and holds `pixels[j]` at `indices[j]` for every j |
| `Permutation.Scatter` | imgcrypt.py:61-63 | after the loop no slot is `None` and slot `indices[j]` holds `pixels[j]` for every j |
| `Permutation.ScatterGather` | imgcrypt.py:43-63 | scattering by a permutation undoes gathering by it |
| `Permutation.ScatteredPermutes` | imgcrypt.py:60-63 | the scattered grid is a rearrangement (same multiset) of its input |
| `Permutation.GatherScatter` | imgcrypt.py:43-63 | gathering by a permutation undoes scattering by it |
| `ImgCrypt.Env.Valid` | imgcrypt.py:16-58 | the only assumptions the proofs rest on: `hashlib.sha256(...).digest()` is 32 bytes, and `random.Random(seed).shuffle` leaves a rearrangement of the list it is given |
| `ImgCrypt.Indices` | imgcrypt.py:56-58 | the shuffled index list for length n is a permutation of `range(n)` |
| `ImgCrypt.EncryptGrid` | imgcrypt.py:34-43 | the encrypted grid has the input's length and is a rearrangement of the XORed grid |
| `ImgCrypt.DecryptGrid` | imgcrypt.py:53-66 | the decrypted grid has the input's length, and XORing it again with the keystream gives a rearrangement of the input |
| `ImgCrypt.EncryptPixels` | imgcrypt.py:34-43 | the statement-by-statement encryption body computes `EncryptGrid` |
| `ImgCrypt.DecryptPixels` | imgcrypt.py:53-66 | the statement-by-statement decryption body, with its `None`-filled scatter list, computes `DecryptGrid` |
| `ImgCrypt.RoundTrip` | imgcrypt.py:34-66 | decrypting an encryption with the same passphrase returns the original pixels, the empty grid included |
| `ImgCrypt.RoundTripReverse` | imgcrypt.py:34-66 | encrypting a decryption with the same passphrase returns the pixels it started from |
| `ImgCrypt.EncryptInRange` | imgcrypt.py:25-43 | encrypting a grid of 8-bit pixels yields 8-bit pixels |

## Left out

- ChannelCipher.XorPixels: the `ZeroDivisionError` Python raises for an empty keystream and a non-empty pixel list is not modelled; a non-empty keystream is required only when there are pixels. Both callers pass the 32-byte digest, so the error is unreachable in the program.
- Image I/O through PIL (`Image.open`/`convert`/`getdata`, `Image.new`/`putdata`/`save`), the PNG-only usage note, the `print` status lines and the argparse `main`. These are file I/O and foreign library code. The model starts from the decoded pixel list and ends with the list handed to the encoder.
- SHA-256 internals and the UTF-8 encoding of the passphrase. The passphrase is taken as already-encoded bytes, and the digest is an abstract 32-byte-valued function (`Env.sha256`; SHA-256 is FIPS 180-4, section 6.2).
- The Mersenne Twister and the shuffle algorithm behind `random.Random(seed).shuffle`. Only "same seed and list give the same result, a rearrangement of the list" is modelled (`Env.shuffle`), so the concrete index list for a given seed is not. The shuffle's in-place update of `indices` is modelled as a function returning the new list.
- Behaviour with a wrong passphrase (garbage output) is probabilistic and not promised by the code.
- `ImgCrypt.DecryptGrid`: its own contract does not pin down each output pixel. That it is the exact inverse of `EncryptGrid` is stated by `RoundTrip` and `RoundTripReverse`, and where each pixel lands by `ScatteredAt`.
