/**
 * The position permutation.  The index list is `list(range(n))` after a
 * seeded shuffle, i.e. some rearrangement of 0..n-1.  Encryption gathers
 * (`encrypted[j] = xored[indices[j]]`), decryption scatters
 * (`original[indices[j]] = pixels[j]`).
 */
module Permutation {
  import opened Types

  /** Python's `list(range(n))`. */
  function Range(n: nat): seq<nat>
  {
    seq(n, i requires 0 <= i < n => i)
  }

  /** `indices` is a rearrangement of `list(range(n))`. */
  predicate IsPermutation(indices: seq<nat>, n: nat)
  {
    multiset(indices) == multiset(Range(n))
  }

  /** Every value below n occurs exactly once in `list(range(n))`. */
  lemma {:induction false} RangeMultiplicity(n: nat, v: nat)
    ensures multiset(Range(n))[v] == if v < n then 1 else 0
  {
    if n > 0 {
      assert Range(n) == Range(n - 1) + [n - 1];
      RangeMultiplicity(n - 1, v);
    }
  }

  /** A value at two distinct positions occurs at least twice. */
  lemma Twice(s: seq<nat>, j: nat, k: nat)
    requires j < k < |s| && s[j] == s[k]
    ensures multiset(s)[s[j]] >= 2
  {
    assert s == s[..j] + [s[j]] + s[j + 1..k] + [s[k]] + s[k + 1..];
  }

  /** A permutation of 0..n-1 has length n, stays below n, repeats nothing and misses nothing. */
  lemma PermutationFacts(indices: seq<nat>, n: nat)
    requires IsPermutation(indices, n)
    ensures |indices| == n
    ensures forall j :: 0 <= j < n ==> indices[j] < n
    ensures forall j, k :: 0 <= j < k < n ==> indices[j] != indices[k]
    ensures forall v :: 0 <= v < n ==> v in indices
  {
    assert |multiset(indices)| == |multiset(Range(n))|;
    forall j | 0 <= j < |indices|
      ensures indices[j] < n
    {
      assert indices[j] in multiset(Range(n));
    }
    forall j, k | 0 <= j < k < |indices|
      ensures indices[j] != indices[k]
    {
      if indices[j] == indices[k] {
        Twice(indices, j, k);
        RangeMultiplicity(n, indices[j]);
      }
    }
    forall v | 0 <= v < n
      ensures v in indices
    {
      assert Range(n)[v] == v;
      assert v in multiset(Range(n));
    }
  }

  /** Every entry of `indices` is a valid position in a list of length n. */
  predicate InBounds(indices: seq<nat>, n: nat)
  {
    forall j :: 0 <= j < |indices| ==> indices[j] < n
  }

  /** The gather of encryption, `[xs[i] for i in indices]`. */
  function Gather<T>(xs: seq<T>, indices: seq<nat>): (r: seq<T>)
    requires InBounds(indices, |xs|)
    ensures |r| == |indices|
  {
    seq(|indices|, j requires 0 <= j < |indices| => xs[indices[j]])
  }

  /** The first position of v in s. */
  function IndexOf(s: seq<nat>, v: nat): (j: nat)
    requires v in s
    ensures j < |s| && s[j] == v
    ensures forall k :: 0 <= k < j ==> s[k] != v
  {
    if s[0] == v then 0 else 1 + IndexOf(s[1..], v)
  }

  /** The grid the decryption scatter fills: slot i receives the pixel found where i occurs in `indices`. */
  function Scattered<T>(pixels: seq<T>, indices: seq<nat>): (r: seq<T>)
    requires IsPermutation(indices, |pixels|)
    ensures |r| == |pixels|
  {
    PermutationFacts(indices, |pixels|);
    seq(|pixels|, i requires 0 <= i < |pixels| => pixels[IndexOf(indices, i)])
  }

  /** Scattering puts pixel j into slot `indices[j]`, and the result has the input's length. */
  lemma ScatteredAt<T>(pixels: seq<T>, indices: seq<nat>)
    requires IsPermutation(indices, |pixels|)
    ensures |indices| == |Scattered(pixels, indices)| == |pixels|
    ensures InBounds(indices, |pixels|)
    ensures forall j :: 0 <= j < |pixels| ==> Scattered(pixels, indices)[indices[j]] == pixels[j]
  {
    PermutationFacts(indices, |pixels|);
    forall j | 0 <= j < |pixels|
      ensures Scattered(pixels, indices)[indices[j]] == pixels[j]
    {
      var k := IndexOf(indices, indices[j]);
      assert k == j;
    }
  }

  /**
   * The decryption scatter: `original = [None] * n`, then
   * `original[indices[j]] = pixels[j]` for every j.  For a permutation every
   * slot is written, so no `None` remains.
   */
  method Scatter<T>(pixels: seq<T>, indices: seq<nat>) returns (original: seq<Option<T>>)
    requires IsPermutation(indices, |pixels|)
    ensures |original| == |pixels| == |indices|
    ensures InBounds(indices, |pixels|)
    ensures forall i :: 0 <= i < |original| ==> original[i].Some?
    ensures forall j :: 0 <= j < |pixels| ==> original[indices[j]] == Some(pixels[j])
  {
    PermutationFacts(indices, |pixels|);
    var slots := new Option<T>[|pixels|](_ => None);
    for j := 0 to |pixels|
      invariant forall k :: 0 <= k < j ==> slots[indices[k]] == Some(pixels[k])
    {
      slots[indices[j]] := Some(pixels[j]);
    }
    original := slots[..];
    forall i | 0 <= i < |original|
      ensures original[i].Some?
    {
      var j := IndexOf(indices, i);
      assert original[indices[j]] == Some(pixels[j]);
    }
  }

  /** Gathering keeps the length, and with a permutation it keeps every pixel: the result is a rearrangement of the input. */
  lemma GatherPermutes<T>(xs: seq<T>, indices: seq<nat>)
    requires IsPermutation(indices, |xs|)
    ensures InBounds(indices, |xs|)
    ensures |Gather(xs, indices)| == |xs|
    ensures multiset(Gather(xs, indices)) == multiset(xs)
  {
    PermutationFacts(indices, |xs|);
    GatherSameMultiset(xs, Range(|xs|), indices);
    assert Gather(xs, Range(|xs|)) == xs;
  }

  /** Dropping position k removes one occurrence of s[k]. */
  lemma RemoveAt(s: seq<nat>, k: nat)
    requires k < |s|
    ensures multiset(s[..k] + s[k + 1..]) == multiset(s) - multiset{s[k]}
  {
    assert s == s[..k] + [s[k]] + s[k + 1..];
  }

  /** Dropping index position k from a gather drops exactly the pixel it selected. */
  lemma GatherRemoveAt<T>(xs: seq<T>, s: seq<nat>, k: nat)
    requires k < |s|
    requires InBounds(s, |xs|)
    ensures InBounds(s[..k] + s[k + 1..], |xs|)
    ensures multiset(Gather(xs, s)) == multiset(Gather(xs, s[..k] + s[k + 1..])) + multiset{xs[s[k]]}
  {
    var left, right := s[..k], s[k + 1..];
    assert Gather(xs, s) == Gather(xs, left) + [xs[s[k]]] + Gather(xs, right);
    assert Gather(xs, left + right) == Gather(xs, left) + Gather(xs, right);
  }

  /** A rearrangement of an in-bounds index list is in bounds. */
  lemma InBoundsRearranged(a: seq<nat>, b: seq<nat>, n: nat)
    requires multiset(a) == multiset(b) && InBounds(a, n)
    ensures InBounds(b, n)
  {
    forall j | 0 <= j < |b|
      ensures b[j] < n
    {
      assert b[j] in multiset(a);
    }
  }

  /** Gathering by two rearrangements of the same index list gives rearrangements of each other. */
  lemma {:induction false} GatherSameMultiset<T>(xs: seq<T>, a: seq<nat>, b: seq<nat>)
    requires multiset(a) == multiset(b)
    requires InBounds(a, |xs|)
    ensures InBounds(b, |xs|)
    ensures multiset(Gather(xs, a)) == multiset(Gather(xs, b))
    decreases |a|
  {
    InBoundsRearranged(a, b, |xs|);
    if |a| == 0 {
      assert |multiset(b)| == 0;
    } else {
      var v := a[|a| - 1];
      assert v in multiset(b);
      var k := IndexOf(b, v);
      var a', b' := a[..|a| - 1], b[..k] + b[k + 1..];
      // RemoveAt and GatherRemoveAt speak of the last position's removal in this form.
      assert a[..|a| - 1] + a[|a|..] == a';
      assert multiset(a') == multiset(b') by {
        RemoveAt(a, |a| - 1);
        RemoveAt(b, k);
      }
      assert InBounds(a', |xs|) && InBounds(b', |xs|) by {
        GatherRemoveAt(xs, a, |a| - 1);
        GatherRemoveAt(xs, b, k);
      }
      GatherSameMultiset(xs, a', b');
      assert multiset(Gather(xs, a)) == multiset(Gather(xs, a')) + multiset{xs[v]} by {
        GatherRemoveAt(xs, a, |a| - 1);
      }
      assert multiset(Gather(xs, b)) == multiset(Gather(xs, b')) + multiset{xs[v]} by {
        GatherRemoveAt(xs, b, k);
      }
    }
  }

  /** Scattering undoes gathering by the same permutation. */
  lemma ScatterGather<T>(xs: seq<T>, indices: seq<nat>)
    requires IsPermutation(indices, |xs|)
    ensures InBounds(indices, |xs|)
    ensures IsPermutation(indices, |Gather(xs, indices)|)
    ensures Scattered(Gather(xs, indices), indices) == xs
  {
    PermutationFacts(indices, |xs|);
    var ys := Gather(xs, indices);
    var back := Scattered(ys, indices);
    forall i | 0 <= i < |xs|
      ensures back[i] == xs[i]
    {
      assert indices[IndexOf(indices, i)] == i;
    }
  }

  /** Scattering by a permutation is a rearrangement of its input. */
  lemma ScatteredPermutes<T>(pixels: seq<T>, indices: seq<nat>)
    requires IsPermutation(indices, |pixels|)
    ensures multiset(Scattered(pixels, indices)) == multiset(pixels)
  {
    ScatteredAt(pixels, indices);
    GatherScatter(pixels, indices);
    GatherPermutes(Scattered(pixels, indices), indices);
  }

  /** Gathering undoes scattering by the same permutation. */
  lemma GatherScatter<T>(ys: seq<T>, indices: seq<nat>)
    requires IsPermutation(indices, |ys|)
    ensures InBounds(indices, |Scattered(ys, indices)|)
    ensures Gather(Scattered(ys, indices), indices) == ys
  {
    PermutationFacts(indices, |ys|);
    ScatteredAt(ys, indices);
  }
}
