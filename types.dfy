/** Values shared by the components of the image transform. */
module Types {

  /** An element of a Python `bytes` object. */
  type Byte = x: nat | x < 256

  /** One RGB pixel as PIL's `getdata` yields it: three Python integers. */
  datatype Pixel = Pixel(r: nat, g: nat, b: nat)

  /** A pixel whose three channels are 8-bit values. */
  predicate InRange(p: Pixel)
  {
    p.r < 256 && p.g < 256 && p.b < 256
  }

  /** A list slot that may still hold Python's `None`. */
  datatype Option<T> = None | Some(value: T)
}
