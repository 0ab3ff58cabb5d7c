/**
 * The channel cipher (`xor_pixels`): channel k of pixel i is XORed with the
 * keystream byte at flattened position 3i+k, taken cyclically.
 */
module ChannelCipher {
  import opened Types

  /** Halving 2x + bit recovers x and the bit. */
  lemma HalfOf(c: nat, x: nat, bit: nat)
    requires bit < 2 && c == 2 * x + bit
    ensures c / 2 == x && c % 2 == bit
  {
  }

  /**
   * Python's `^` on non-negative integers, one bit at a time from the least
   * significant: the lowest bit of the result is the XOR of the lowest bits.
   */
  function Xor(a: nat, b: nat): (r: nat)
    ensures r % 2 == (a % 2 + b % 2) % 2
    decreases a + b
  {
    if a == 0 && b == 0 then 0
    else
      var r := 2 * Xor(a / 2, b / 2) + (a % 2 + b % 2) % 2;
      HalfOf(r, Xor(a / 2, b / 2), (a % 2 + b % 2) % 2);
      r
  }

  /** The recursive step of Xor holds for all arguments, zero included. */
  lemma XorStep(a: nat, b: nat)
    ensures Xor(a, b) == 2 * Xor(a / 2, b / 2) + (a % 2 + b % 2) % 2
  {
  }

  /** 2 to the power k. */
  function Pow2(k: nat): (p: nat)
    ensures p > 0
  {
    if k == 0 then 1 else 2 * Pow2(k - 1)
  }

  /** XOR with the same value twice gives back the original value. */
  lemma {:induction false} XorInvolution(a: nat, b: nat)
    ensures Xor(Xor(a, b), b) == a
    decreases a + b
  {
    if a != 0 || b != 0 {
      var c, x := Xor(a, b), Xor(a / 2, b / 2);
      assert c / 2 == x && c % 2 == (a % 2 + b % 2) % 2 by {
        XorStep(a, b);
        HalfOf(c, x, (a % 2 + b % 2) % 2);
      }
      assert Xor(x, b / 2) == a / 2 by {
        XorInvolution(a / 2, b / 2);
      }
      assert Xor(c, b) == 2 * (a / 2) + a % 2 by {
        XorStep(c, b);
      }
    }
  }

  /** XOR of two k-bit values is a k-bit value. */
  lemma {:induction false} XorBound(a: nat, b: nat, k: nat)
    requires a < Pow2(k) && b < Pow2(k)
    ensures Xor(a, b) < Pow2(k)
  {
    if k > 0 && (a != 0 || b != 0) {
      XorBound(a / 2, b / 2, k - 1);
    }
  }

  /** XOR of two bytes is a byte. */
  lemma XorByte(a: nat, b: nat)
    requires a < 256 && b < 256
    ensures Xor(a, b) < 256
  {
    assert Pow2(8) == 256;
    XorBound(a, b, 8);
  }

  /** The keystream byte used at flattened channel position p. */
  function KeyByte(key: seq<Byte>, p: nat): Byte
    requires |key| > 0
  {
    key[p % |key|]
  }

  /** Pixel i of the output: each channel XORed with its keystream byte. */
  function XorPixel(px: Pixel, key: seq<Byte>, i: nat): Pixel
    requires |key| > 0
  {
    Pixel(Xor(px.r, KeyByte(key, 3 * i)),
          Xor(px.g, KeyByte(key, 3 * i + 1)),
          Xor(px.b, KeyByte(key, 3 * i + 2)))
  }

  /**
   * What `xor_pixels(pixels, key)` returns.  An empty keystream is only
   * harmless for an empty grid (otherwise Python's `%` by zero raises).
   */
  function Xored(pixels: seq<Pixel>, key: seq<Byte>): (out: seq<Pixel>)
    requires |pixels| == 0 || |key| > 0
    ensures |out| == |pixels|
  {
    seq(|pixels|, i requires 0 <= i < |pixels| => XorPixel(pixels[i], key, i))
  }

  /** `xor_pixels`: builds the output list by appending one transformed pixel per input pixel. */
  method XorPixels(pixels: seq<Pixel>, key: seq<Byte>) returns (out: seq<Pixel>)
    requires |pixels| == 0 || |key| > 0
    ensures |out| == |pixels|
    ensures forall i :: 0 <= i < |pixels| ==>
              out[i] == Pixel(Xor(pixels[i].r, key[(3 * i) % |key|]),
                              Xor(pixels[i].g, key[(3 * i + 1) % |key|]),
                              Xor(pixels[i].b, key[(3 * i + 2) % |key|]))
    ensures out == Xored(pixels, key)
  {
    var klen := |key|;
    out := [];
    for i := 0 to |pixels|
      invariant |out| == i
      invariant forall k :: 0 <= k < i ==> out[k] == XorPixel(pixels[k], key, k)
    {
      var px := pixels[i];
      var rb := Xor(px.r, key[(3 * i) % klen]);
      var gb := Xor(px.g, key[(3 * i + 1) % klen]);
      var bb := Xor(px.b, key[(3 * i + 2) % klen]);
      out := out + [Pixel(rb, gb, bb)];
    }
  }

  /** Applying the cipher twice with the same keystream restores the grid exactly. */
  lemma XoredInvolution(pixels: seq<Pixel>, key: seq<Byte>)
    requires |pixels| == 0 || |key| > 0
    ensures Xored(Xored(pixels, key), key) == pixels
  {
    var once := Xored(pixels, key);
    var twice := Xored(once, key);
    forall i | 0 <= i < |pixels|
      ensures twice[i] == pixels[i]
    {
      XorInvolution(pixels[i].r, KeyByte(key, 3 * i));
      XorInvolution(pixels[i].g, KeyByte(key, 3 * i + 1));
      XorInvolution(pixels[i].b, KeyByte(key, 3 * i + 2));
    }
  }

  /** 8-bit channels and a byte keystream give 8-bit output channels. */
  lemma XoredInRange(pixels: seq<Pixel>, key: seq<Byte>)
    requires |pixels| == 0 || |key| > 0
    requires forall i :: 0 <= i < |pixels| ==> InRange(pixels[i])
    ensures forall i :: 0 <= i < |pixels| ==> InRange(Xored(pixels, key)[i])
  {
    forall i | 0 <= i < |pixels|
      ensures InRange(Xored(pixels, key)[i])
    {
      XorByte(pixels[i].r, KeyByte(key, 3 * i));
      XorByte(pixels[i].g, KeyByte(key, 3 * i + 1));
      XorByte(pixels[i].b, KeyByte(key, 3 * i + 2));
    }
  }
}
