/**
 * Index bookkeeping of the whole-sample symmetric boundary extension that the
 * direct wavelet transform builds before filtering.
 *
 * A signal of n samples is copied into the middle of a window of n + 2h + 1
 * cells, starting at cell h, and the borders are filled by mirroring about the
 * first and the last sample. `Window` is the window the extension produces,
 * cell by cell; the class `WaveletDirect.WtDirect` is proved to build exactly it.
 */
module SymExtension {

  /** Samples are read from the caller's buffer at i * stride for i < n. */
  predicate Fits(len: nat, n: nat, stride: nat)
  {
    n >= 1 && (n - 1) * stride < len
  }

  lemma MulMono(a: nat, b: nat, c: nat)
    requires a <= b
    ensures a * c <= b * c
  {
    var d := b - a;
    assert b * c == a * c + d * c;
  }

  /**
   * Signal position that ends up at position j of the extended signal, where j
   * may lie left of 0 or right of n - 1: positions are reflected about sample 0
   * and about sample n - 1 (neither edge sample is repeated) until they land
   * inside the signal. A position more than one reflection away is folded
   * again, as happens when the border is wider than the signal.
   */
  function Reflect(n: nat, j: int): (r: nat)
    requires n >= 2
    ensures r < n
    ensures 0 <= j < n ==> r == j
    decreases if j < 0 then -j else j, if j < 0 then 1 else 0
  {
    if 0 <= j < n then j
    else if j < 0 then Reflect(n, -j)
    else Reflect(n, 2 * (n - 1) - j)
  }

  /**
   * Sample of the caller's buffer (counted in strides) that the copy step puts
   * at offset j of the middle of the window. Plain mode copies in order;
   * interleaved mode sends the first half to even offsets and the second half
   * to odd offsets.
   */
  function SourceIndex(n: nat, interleave: bool, j: nat): (s: nat)
    requires j < n
    requires interleave ==> n % 2 == 0
    ensures s < n
  {
    if !interleave then j
    else if j % 2 == 0 then j / 2
    else n / 2 + j / 2
  }

  /** Offset in the middle of the window where sample s is copied: the inverse of SourceIndex. */
  function TargetIndex(n: nat, interleave: bool, s: nat): nat
    requires s < n
  {
    if !interleave then s
    else if s < n / 2 then 2 * s
    else 2 * (s - n / 2) + 1
  }

  /** The n samples x[0], x[stride], ..., x[(n-1) * stride] of a strided buffer. */
  function Strided<T>(xs: seq<T>, n: nat, stride: nat): (sig: seq<T>)
    requires Fits(|xs|, n, stride)
    ensures |sig| == n
  {
    seq(n, i requires 0 <= i < n => MulMono(i, n - 1, stride); xs[i * stride])
  }

  /** Sample i of the strided view is element i * stride of the buffer. */
  lemma StridedAt<T>(xs: seq<T>, n: nat, stride: nat, i: nat)
    requires Fits(|xs|, n, stride) && i < n
    ensures i * stride < |xs| && Strided(xs, n, stride)[i] == xs[i * stride]
  {
    MulMono(i, n - 1, stride);
  }

  /** With stride 1 the strided samples are just the prefix. */
  lemma StridedOne<T>(xs: seq<T>, n: nat)
    requires 1 <= n <= |xs|
    ensures Strided(xs, n, 1) == xs[..n]
  {
    forall i | 0 <= i < n
      ensures Strided(xs, n, 1)[i] == xs[i]
    {
      StridedAt(xs, n, 1, i);
    }
  }

  /** Value of window cell k: the reflected signal position, mapped through the copy step. */
  function Cell<T>(sig: seq<T>, interleave: bool, h: nat, k: nat): (c: T)
    requires |sig| >= 2 && (interleave ==> |sig| % 2 == 0)
    ensures c in sig
    ensures !interleave && h <= k < h + |sig| ==> c == sig[k - h]
  {
    sig[SourceIndex(|sig|, interleave, Reflect(|sig|, k - h))]
  }

  /** The n + 2h + 1 cells that the symmetric extension of signal sig (n = |sig|) writes. */
  function Window<T>(sig: seq<T>, interleave: bool, h: nat): (w: seq<T>)
    requires |sig| >= 2 && (interleave ==> |sig| % 2 == 0)
    ensures |w| == |sig| + 2 * h + 1
  {
    seq(|sig| + 2 * h + 1, k requires 0 <= k => Cell(sig, interleave, h, k))
  }

  /** The interleaved copy is a permutation of the signal: every sample lands at exactly one offset. */
  lemma SourceTargetInverse(n: nat, interleave: bool)
    requires interleave ==> n % 2 == 0
    ensures forall s :: 0 <= s < n ==> TargetIndex(n, interleave, s) < n
    ensures forall s :: 0 <= s < n ==> SourceIndex(n, interleave, TargetIndex(n, interleave, s)) == s
    ensures forall j :: 0 <= j < n ==> TargetIndex(n, interleave, SourceIndex(n, interleave, j)) == j
  {
  }

  /** Plain mode: cell h + i holds sample i. */
  lemma PlainPlacement<T>(sig: seq<T>, h: nat)
    requires |sig| >= 2
    ensures forall i :: 0 <= i < |sig| ==> Window(sig, false, h)[h + i] == sig[i]
  {
    var w := Window(sig, false, h);
    forall i | 0 <= i < |sig|
      ensures w[h + i] == sig[i]
    {
      assert Reflect(|sig|, h + i - h) == i;
    }
  }

  /** Interleaved mode: cell h + 2i holds sample i and cell h + 2i + 1 holds sample n/2 + i. */
  lemma InterleavedPlacement<T>(sig: seq<T>, h: nat)
    requires |sig| >= 2 && |sig| % 2 == 0
    ensures forall i :: 0 <= i < |sig| / 2 ==> Window(sig, true, h)[h + 2 * i] == sig[i]
    ensures forall i :: |sig| / 2 <= i < |sig| ==> Window(sig, true, h)[h + 2 * (i - |sig| / 2) + 1] == sig[i]
  {
    var n := |sig|;
    var w := Window(sig, true, h);
    forall i | 0 <= i < n / 2
      ensures w[h + 2 * i] == sig[i]
    {
      assert Reflect(n, h + 2 * i - h) == 2 * i;
      assert SourceIndex(n, true, 2 * i) == i;
    }
    forall i | n / 2 <= i < n
      ensures w[h + 2 * (i - n / 2) + 1] == sig[i]
    {
      var j := 2 * (i - n / 2) + 1;
      assert Reflect(n, h + j - h) == j;
      assert SourceIndex(n, true, j) == i;
    }
  }

  /** A buffer holding the plain copy of sig from cell h agrees with the window on its middle cells. */
  lemma PlainCenter<T>(t: seq<T>, sig: seq<T>, h: nat)
    requires |sig| >= 2 && h + |sig| <= |t|
    requires forall i :: 0 <= i < |sig| ==> t[h + i] == sig[i]
    ensures forall k :: h <= k < h + |sig| ==> t[k] == Window(sig, false, h)[k]
  {
    PlainPlacement(sig, h);
    forall k | h <= k < h + |sig|
      ensures t[k] == Window(sig, false, h)[k]
    {
      var i := k - h;
      assert t[h + i] == sig[i];
    }
  }

  /** A buffer holding the interleaved copy of sig from cell h agrees with the window on its middle cells. */
  lemma InterleavedCenter<T>(t: seq<T>, sig: seq<T>, h: nat)
    requires |sig| >= 2 && |sig| % 2 == 0 && h + |sig| <= |t|
    requires forall i :: 0 <= i < |sig| / 2 ==> t[h + 2 * i] == sig[i]
    requires forall i :: |sig| / 2 <= i < |sig| ==> t[h + 2 * (i - |sig| / 2) + 1] == sig[i]
    ensures forall k :: h <= k < h + |sig| ==> t[k] == Window(sig, true, h)[k]
  {
    var n := |sig|;
    var w := Window(sig, true, h);
    InterleavedPlacement(sig, h);
    forall k | h <= k < h + n
      ensures t[k] == w[k]
    {
      var i := (k - h) / 2;
      if (k - h) % 2 == 0 {
        assert k == h + 2 * i;
      } else {
        assert k == h + 2 * ((n / 2 + i) - n / 2) + 1;
      }
    }
  }

  /** The left border mirrors the signal about its first sample, at cell h. */
  lemma LeftMirror<T>(sig: seq<T>, interleave: bool, h: nat)
    requires |sig| >= 2 && (interleave ==> |sig| % 2 == 0)
    ensures var w := Window(sig, interleave, h);
            forall k :: 0 <= k < h ==> w[k] == w[2 * h - k]
  {
    var w := Window(sig, interleave, h);
    forall k | 0 <= k < h
      ensures w[k] == w[2 * h - k]
    {
      assert Reflect(|sig|, k - h) == Reflect(|sig|, (2 * h - k) - h);
    }
  }

  /**
   * The right border mirrors the signal about its last sample, at cell n + h - 1,
   * including the one extra trailing cell n + 2h.
   */
  lemma RightMirror<T>(sig: seq<T>, interleave: bool, h: nat)
    requires |sig| >= 2 && (interleave ==> |sig| % 2 == 0)
    ensures var w := Window(sig, interleave, h);
            forall k :: |sig| + h <= k < |w| ==> w[k] == w[2 * (|sig| + h - 1) - k]
  {
    var n := |sig|;
    var w := Window(sig, interleave, h);
    forall k | n + h <= k < |w|
      ensures w[k] == w[2 * (n + h - 1) - k]
    {
      assert Reflect(n, k - h) == Reflect(n, (2 * (n + h - 1) - k) - h);
    }
  }

  /** The trailing cell, written after the border loop, repeats cell n - 2. */
  lemma TrailingCell<T>(sig: seq<T>, interleave: bool, h: nat)
    requires |sig| >= 2 && (interleave ==> |sig| % 2 == 0)
    ensures Window(sig, interleave, h)[|sig| + 2 * h] == Window(sig, interleave, h)[|sig| - 2]
  {
    var n := |sig|;
    assert Reflect(n, n + 2 * h - h) == Reflect(n, n - 2 - h);
  }

  /** Mirroring a constant signal gives that constant in every cell of the window. */
  lemma ConstantWindow<T>(sig: seq<T>, interleave: bool, h: nat, c: T)
    requires |sig| >= 2 && (interleave ==> |sig| % 2 == 0)
    requires forall i :: 0 <= i < |sig| ==> sig[i] == c
    ensures forall k :: 0 <= k < |sig| + 2 * h + 1 ==> Window(sig, interleave, h)[k] == c
  {
  }

  // ---------------------------------------------------------------------------
  // A closed form of the reflection: the extended signal is periodic with
  // period 2(n - 1) and symmetric inside each period.

  function MirrorPeriodic(n: nat, j: int): int
    requires n >= 2
  {
    var p := 2 * (n - 1);
    var m := j % p;
    if m < n then m else p - m
  }

  /** x % p is the unique remainder: any decomposition x == p*q + r with 0 <= r < p gives it. */
  lemma ModUnique(x: int, p: int, q: int, r: int)
    requires p > 0 && 0 <= r < p && x == p * q + r
    ensures x % p == r
  {
    var q0 := x / p;
    var r0 := x % p;
    assert x == p * q0 + r0;
    if q0 < q {
      MulMono(1, q - q0, p);
    } else if q0 > q {
      MulMono(1, q0 - q, p);
    }
  }

  /** Reflecting a position about 0 or about p keeps its mirrored representative. */
  lemma MirrorPeriodicNegate(n: nat, j: int)
    requires n >= 2
    ensures MirrorPeriodic(n, -j) == MirrorPeriodic(n, j)
    ensures MirrorPeriodic(n, 2 * (n - 1) - j) == MirrorPeriodic(n, j)
  {
    var p := 2 * (n - 1);
    var q, m := j / p, j % p;
    assert j == p * q + m;
    if m == 0 {
      ModUnique(-j, p, -q, 0);
      ModUnique(p - j, p, 1 - q, 0);
    } else {
      ModUnique(-j, p, -q - 1, p - m);
      ModUnique(p - j, p, -q, p - m);
    }
  }

  /** The recursive reflection and the closed periodic form agree everywhere. */
  lemma {:induction false} ReflectIsPeriodicMirror(n: nat, j: int)
    requires n >= 2
    ensures Reflect(n, j) == MirrorPeriodic(n, j)
    decreases if j < 0 then -j else j, if j < 0 then 1 else 0
  {
    var p := 2 * (n - 1);
    if 0 <= j < n {
      ModUnique(j, p, 0, j);
    } else if j < 0 {
      ReflectIsPeriodicMirror(n, -j);
      MirrorPeriodicNegate(n, j);
    } else {
      ReflectIsPeriodicMirror(n, p - j);
      MirrorPeriodicNegate(n, j);
    }
  }
}
