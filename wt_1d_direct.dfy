/**
 * Direct (convolution) strategy of the one-dimensional wavelet transform.
 *
 * The transform object keeps a private scratch buffer `temp` that only grows.
 * Each single-level transform first writes the symmetric extension of the
 * caller's signal into `temp` and then overwrites the caller's buffer with
 * fixed-length dot products of filter taps against windows of `temp`.
 * Sample values are reals: the sums are stated exactly, without rounding.
 */
module WaveletDirect {
  import opened SymExtension

  /** The four analysis/synthesis filters of one wavelet family. */
  datatype FilterBank = FilterBank(size: nat, lpf: seq<real>, hpf: seq<real>, ilpf: seq<real>, ihpf: seq<real>)
  {
    predicate Valid()
    {
      size % 2 == 0 && |lpf| == size && |hpf| == size && |ilpf| == size && |ihpf| == size
    }
  }

  function Max(a: nat, b: nat): nat
  {
    if a < b then b else a
  }

  /** Sum over d < cnt of taps[d] * w[off + d], accumulated in increasing d. */
  function Dot(taps: seq<real>, w: seq<real>, off: nat, cnt: nat): (r: real)
    requires cnt <= |taps| && off + cnt <= |w|
  {
    if cnt == 0 then 0.0 else Dot(taps, w, off, cnt - 1) + taps[cnt - 1] * w[off + cnt - 1]
  }

  /** Synthesis tap d for output sample i: high-pass where i + d is odd, low-pass where it is even. */
  function SynthTap(f: FilterBank, i: nat, d: nat): (t: real)
    requires f.Valid() && d < f.size
    ensures (i + d) % 2 == 1 ==> t == f.ihpf[d]
    ensures (i + d) % 2 == 0 ==> t == f.ilpf[d]
  {
    if (i + d) % 2 == 1 then f.ihpf[d] else f.ilpf[d]
  }

  /** Sum over d < cnt of SynthTap(f, i, d) * w[i + d], accumulated in increasing d. */
  function Synth(f: FilterBank, w: seq<real>, i: nat, cnt: nat): (r: real)
    requires f.Valid() && cnt <= f.size && i + cnt <= |w|
  {
    if cnt == 0 then 0.0 else Synth(f, w, i, cnt - 1) + SynthTap(f, i, cnt - 1) * w[i + cnt - 1]
  }

  /** Cells of the extension window that the filters read: n + 2h + 1, h = size/2. */
  function WindowSize(f: FilterBank, n: nat): nat
  {
    n + 2 * (f.size / 2) + 1
  }

  /**
   * Analysis over an extension window w: low-pass output i is the lpf dot
   * product with w from cell 2i, high-pass output i (stored at n/2 + i) the hpf
   * dot product with w from cell 2i + 1.
   */
  function Analyse(f: FilterBank, w: seq<real>, n: nat): (ys: seq<real>)
    requires f.Valid() && n % 2 == 0 && n + f.size <= |w|
    ensures |ys| == n
  {
    var len := n / 2;
    seq(n, k requires 0 <= k < n =>
      if k < len then Dot(f.lpf, w, 2 * k, f.size) else Dot(f.hpf, w, 2 * (k - len) + 1, f.size))
  }

  /** Synthesis over an interleaved extension window w: output i is the synthesis dot product with w from cell i. */
  function Synthesise(f: FilterBank, w: seq<real>, n: nat): (ys: seq<real>)
    requires f.Valid() && n + f.size <= |w|
    ensures |ys| == n
  {
    seq(n, i requires 0 <= i < n => Synth(f, w, i, f.size))
  }

  /**
   * Forward single-level transform of the first n samples of xs: n/2 low-pass
   * coefficients, then n/2 high-pass coefficients, over the plain extension.
   */
  function Forward(f: FilterBank, xs: seq<real>): (ys: seq<real>)
    requires f.Valid() && |xs| >= 2 && |xs| % 2 == 0
    ensures |ys| == |xs|
  {
    Analyse(f, Window(xs, false, f.size / 2), |xs|)
  }

  /**
   * Inverse single-level transform of the first n values of xs, read as n/2
   * approximation coefficients followed by n/2 detail coefficients, over the
   * interleaved extension.
   */
  function Inverse(f: FilterBank, xs: seq<real>): (ys: seq<real>)
    requires f.Valid() && |xs| >= 2 && |xs| % 2 == 0
    ensures |ys| == |xs|
  {
    Synthesise(f, Window(xs, true, f.size / 2), |xs|)
  }

  // ---------------------------------------------------------------------------
  // Properties of the specification

  /** Sum of the first cnt taps. */
  function Sum(taps: seq<real>, cnt: nat): real
    requires cnt <= |taps|
  {
    if cnt == 0 then 0.0 else Sum(taps, cnt - 1) + taps[cnt - 1]
  }

  /** Sum of the synthesis taps used for an output sample of parity i % 2. */
  function SynthSum(f: FilterBank, i: nat, cnt: nat): real
    requires f.Valid() && cnt <= f.size
  {
    if cnt == 0 then 0.0 else SynthSum(f, i, cnt - 1) + SynthTap(f, i, cnt - 1)
  }

  lemma {:induction false} DotConstant(taps: seq<real>, w: seq<real>, off: nat, cnt: nat, c: real)
    requires cnt <= |taps| && off + cnt <= |w|
    requires forall k :: off <= k < off + cnt ==> w[k] == c
    ensures Dot(taps, w, off, cnt) == c * Sum(taps, cnt)
  {
    if cnt > 0 {
      DotConstant(taps, w, off, cnt - 1, c);
    }
  }

  lemma {:induction false} SynthConstant(f: FilterBank, w: seq<real>, i: nat, cnt: nat, c: real)
    requires f.Valid() && cnt <= f.size && i + cnt <= |w|
    requires forall k :: i <= k < i + cnt ==> w[k] == c
    ensures Synth(f, w, i, cnt) == c * SynthSum(f, i, cnt)
  {
    if cnt > 0 {
      SynthConstant(f, w, i, cnt - 1, c);
    }
  }

  /** Analysis of a constant window is the closed form ConstantAnalysis. */
  lemma AnalyseConstant(f: FilterBank, w: seq<real>, n: nat, c: real)
    requires f.Valid() && n % 2 == 0 && n + f.size <= |w|
    requires forall k :: 0 <= k < |w| ==> w[k] == c
    ensures Analyse(f, w, n) == ConstantAnalysis(f, n, c)
  {
    var ys := Analyse(f, w, n);
    var zs := ConstantAnalysis(f, n, c);
    forall i | 0 <= i < n
      ensures ys[i] == zs[i]
    {
      if i < n / 2 {
        DotConstant(f.lpf, w, 2 * i, f.size, c);
      } else {
        DotConstant(f.hpf, w, 2 * (i - n / 2) + 1, f.size, c);
      }
    }
    assert ys == zs;
  }

  /** Analysis of a constant c: n/2 copies of c * Σ lpf, then n/2 copies of c * Σ hpf. */
  function ConstantAnalysis(f: FilterBank, n: nat, c: real): (r: seq<real>)
    requires f.Valid()
    ensures |r| == n
    ensures forall i :: 0 <= i < n / 2 ==> r[i] == c * Sum(f.lpf, f.size)
    ensures forall i :: n / 2 <= i < n ==> r[i] == c * Sum(f.hpf, f.size)
  {
    seq(n, i requires 0 <= i < n => if i < n / 2 then c * Sum(f.lpf, f.size) else c * Sum(f.hpf, f.size))
  }

  /** Output i for synthesis of a constant c: c times the sum of the taps of parity i % 2. */
  function ConstantSynthesis(f: FilterBank, n: nat, c: real): (r: seq<real>)
    requires f.Valid()
    ensures |r| == n
    ensures forall i :: 0 <= i < n ==> r[i] == c * SynthSum(f, i, f.size)
  {
    seq(n, i requires 0 <= i < n => c * SynthSum(f, i, f.size))
  }

  /** Synthesis of a constant window: output i is c times the sum of the synthesis taps of its parity. */
  lemma SynthesiseConstant(f: FilterBank, w: seq<real>, n: nat, c: real)
    requires f.Valid() && n + f.size <= |w|
    requires forall k :: 0 <= k < |w| ==> w[k] == c
    ensures Synthesise(f, w, n) == ConstantSynthesis(f, n, c)
  {
    var ys := Synthesise(f, w, n);
    var zs := ConstantSynthesis(f, n, c);
    forall i | 0 <= i < n
      ensures ys[i] == zs[i]
    {
      SynthConstant(f, w, i, f.size, c);
    }
    assert ys == zs;
  }

  /** On a constant signal every low-pass output is c times the sum of lpf, every high-pass output c times the sum of hpf. */
  lemma ForwardConstant(f: FilterBank, xs: seq<real>, c: real)
    requires f.Valid() && |xs| >= 2 && |xs| % 2 == 0
    requires forall i :: 0 <= i < |xs| ==> xs[i] == c
    ensures Forward(f, xs) == ConstantAnalysis(f, |xs|, c)
  {
    var w := Window(xs, false, f.size / 2);
    ConstantWindow(xs, false, f.size / 2, c);
    AnalyseConstant(f, w, |xs|, c);
  }

  /** With both bands constant, output i is c times the sum of the synthesis taps of its parity. */
  lemma InverseConstant(f: FilterBank, xs: seq<real>, c: real)
    requires f.Valid() && |xs| >= 2 && |xs| % 2 == 0
    requires forall i :: 0 <= i < |xs| ==> xs[i] == c
    ensures Inverse(f, xs) == ConstantSynthesis(f, |xs|, c)
  {
    var w := Window(xs, true, f.size / 2);
    ConstantWindow(xs, true, f.size / 2, c);
    SynthesiseConstant(f, w, |xs|, c);
  }

  /** a * u + v, elementwise. */
  function Combine(a: real, u: seq<real>, v: seq<real>): (r: seq<real>)
    requires |u| == |v|
    ensures |r| == |u|
  {
    seq(|u|, k requires 0 <= k < |u| => a * u[k] + v[k])
  }

  /** The extension only selects samples, so it commutes with linear combination. */
  lemma WindowCombine(a: real, xs: seq<real>, ys: seq<real>, interleave: bool, h: nat)
    requires |xs| == |ys| && |xs| >= 2 && (interleave ==> |xs| % 2 == 0)
    ensures Window(Combine(a, xs, ys), interleave, h) == Combine(a, Window(xs, interleave, h), Window(ys, interleave, h))
  {
    var zs := Combine(a, xs, ys);
    var wz, wx, wy := Window(zs, interleave, h), Window(xs, interleave, h), Window(ys, interleave, h);
    var cw := Combine(a, wx, wy);
    assert |cw| == |wz|;
    forall k | 0 <= k < |wz|
      ensures wz[k] == cw[k]
    {
      var s := SourceIndex(|xs|, interleave, Reflect(|xs|, k - h));
      assert wz[k] == zs[s];
      assert wx[k] == xs[s] && wy[k] == ys[s];
    }
  }

  /** A filter applied to a silent stretch of the buffer, or with silent taps, sums to zero. */
  lemma {:induction false} DotSilent(taps: seq<real>, w: seq<real>, off: nat, cnt: nat)
    requires cnt <= |taps| && off + cnt <= |w|
    requires (forall k :: off <= k < off + cnt ==> w[k] == 0.0) || (forall d :: 0 <= d < cnt ==> taps[d] == 0.0)
    ensures Dot(taps, w, off, cnt) == 0.0
  {
    if cnt > 0 {
      DotSilent(taps, w, off, cnt - 1);
    }
  }

  /** A synthesis sum over a silent stretch of the buffer is zero. */
  lemma {:induction false} SynthSilent(f: FilterBank, w: seq<real>, i: nat, cnt: nat)
    requires f.Valid() && cnt <= f.size && i + cnt <= |w|
    requires forall k :: i <= k < i + cnt ==> w[k] == 0.0
    ensures Synth(f, w, i, cnt) == 0.0
  {
    if cnt > 0 {
      SynthSilent(f, w, i, cnt - 1);
    }
  }

  /** One accumulation step of a tap sum preserves a * (sum over u) + (sum over v). */
  lemma CombineStep(a: real, t: real, x: real, y: real, p: real, q: real)
    ensures (a * p + q) + t * (a * x + y) == a * (p + t * x) + (q + t * y)
  {
    assert t * (a * x + y) == a * (t * x) + t * y;
  }

  lemma {:induction false} DotLinear(taps: seq<real>, a: real, u: seq<real>, v: seq<real>, off: nat, cnt: nat)
    requires |u| == |v| && cnt <= |taps| && off + cnt <= |u|
    ensures Dot(taps, Combine(a, u, v), off, cnt) == a * Dot(taps, u, off, cnt) + Dot(taps, v, off, cnt)
  {
    if cnt > 0 {
      DotLinear(taps, a, u, v, off, cnt - 1);
      var t, x, y := taps[cnt - 1], u[off + cnt - 1], v[off + cnt - 1];
      assert Combine(a, u, v)[off + cnt - 1] == a * x + y;
      CombineStep(a, t, x, y, Dot(taps, u, off, cnt - 1), Dot(taps, v, off, cnt - 1));
    }
  }

  lemma {:induction false} SynthLinear(f: FilterBank, a: real, u: seq<real>, v: seq<real>, i: nat, cnt: nat)
    requires f.Valid() && |u| == |v| && cnt <= f.size && i + cnt <= |u|
    ensures Synth(f, Combine(a, u, v), i, cnt) == a * Synth(f, u, i, cnt) + Synth(f, v, i, cnt)
  {
    if cnt > 0 {
      SynthLinear(f, a, u, v, i, cnt - 1);
      var t, x, y := SynthTap(f, i, cnt - 1), u[i + cnt - 1], v[i + cnt - 1];
      assert Combine(a, u, v)[i + cnt - 1] == a * x + y;
      CombineStep(a, t, x, y, Synth(f, u, i, cnt - 1), Synth(f, v, i, cnt - 1));
    }
  }

  /** Analysis is linear in the window. */
  lemma AnalyseLinear(f: FilterBank, a: real, u: seq<real>, v: seq<real>, n: nat)
    requires f.Valid() && n % 2 == 0 && n + f.size <= |u| && |u| == |v|
    ensures Analyse(f, Combine(a, u, v), n) == Combine(a, Analyse(f, u, n), Analyse(f, v, n))
  {
    var lhs, ru, rv := Analyse(f, Combine(a, u, v), n), Analyse(f, u, n), Analyse(f, v, n);
    var rhs := Combine(a, ru, rv);
    assert |rhs| == |lhs|;
    forall k | 0 <= k < n
      ensures lhs[k] == rhs[k]
    {
      if k < n / 2 {
        DotLinear(f.lpf, a, u, v, 2 * k, f.size);
      } else {
        DotLinear(f.hpf, a, u, v, 2 * (k - n / 2) + 1, f.size);
      }
    }
  }

  /** Synthesis is linear in the window. */
  lemma SynthesiseLinear(f: FilterBank, a: real, u: seq<real>, v: seq<real>, n: nat)
    requires f.Valid() && n + f.size <= |u| && |u| == |v|
    ensures Synthesise(f, Combine(a, u, v), n) == Combine(a, Synthesise(f, u, n), Synthesise(f, v, n))
  {
    var lhs, ru, rv := Synthesise(f, Combine(a, u, v), n), Synthesise(f, u, n), Synthesise(f, v, n);
    var rhs := Combine(a, ru, rv);
    assert |rhs| == |lhs|;
    forall i | 0 <= i < n
      ensures lhs[i] == rhs[i]
    {
      SynthLinear(f, a, u, v, i, f.size);
    }
  }

  /** The forward transform is linear in the signal. */
  lemma ForwardLinear(f: FilterBank, a: real, xs: seq<real>, ys: seq<real>)
    requires f.Valid() && |xs| >= 2 && |xs| % 2 == 0 && |xs| == |ys|
    ensures Forward(f, Combine(a, xs, ys)) == Combine(a, Forward(f, xs), Forward(f, ys))
  {
    WindowCombine(a, xs, ys, false, f.size / 2);
    AnalyseLinear(f, a, Window(xs, false, f.size / 2), Window(ys, false, f.size / 2), |xs|);
  }

  /** The inverse transform is linear in the coefficients. */
  lemma InverseLinear(f: FilterBank, a: real, xs: seq<real>, ys: seq<real>)
    requires f.Valid() && |xs| >= 2 && |xs| % 2 == 0 && |xs| == |ys|
    ensures Inverse(f, Combine(a, xs, ys)) == Combine(a, Inverse(f, xs), Inverse(f, ys))
  {
    WindowCombine(a, xs, ys, true, f.size / 2);
    SynthesiseLinear(f, a, Window(xs, true, f.size / 2), Window(ys, true, f.size / 2), |xs|);
  }

  lemma {:induction false} DotPrefix(taps: seq<real>, u: seq<real>, v: seq<real>, off: nat, cnt: nat)
    requires cnt <= |taps| && off + cnt <= |u| && off + cnt <= |v|
    requires forall k :: off <= k < off + cnt ==> u[k] == v[k]
    ensures Dot(taps, u, off, cnt) == Dot(taps, v, off, cnt)
  {
    if cnt > 0 {
      DotPrefix(taps, u, v, off, cnt - 1);
    }
  }

  lemma {:induction false} SynthPrefix(f: FilterBank, u: seq<real>, v: seq<real>, i: nat, cnt: nat)
    requires f.Valid() && cnt <= f.size && i + cnt <= |u| && i + cnt <= |v|
    requires forall k :: i <= k < i + cnt ==> u[k] == v[k]
    ensures Synth(f, u, i, cnt) == Synth(f, v, i, cnt)
  {
    if cnt > 0 {
      SynthPrefix(f, u, v, i, cnt - 1);
    }
  }

  /** Analysis reads only the first WindowSize cells: anything past them cannot change the output. */
  lemma AnalyseWindowOnly(f: FilterBank, u: seq<real>, v: seq<real>, n: nat)
    requires f.Valid() && n % 2 == 0 && WindowSize(f, n) <= |u| && WindowSize(f, n) <= |v|
    requires u[..WindowSize(f, n)] == v[..WindowSize(f, n)]
    ensures Analyse(f, u, n) == Analyse(f, v, n)
  {
    var yu, yv := Analyse(f, u, n), Analyse(f, v, n);
    forall k | 0 <= k < n
      ensures yu[k] == yv[k]
    {
      assert forall j :: 0 <= j < WindowSize(f, n) ==> u[j] == u[..WindowSize(f, n)][j];
      assert forall j :: 0 <= j < WindowSize(f, n) ==> v[j] == v[..WindowSize(f, n)][j];
      if k < n / 2 {
        DotPrefix(f.lpf, u, v, 2 * k, f.size);
      } else {
        DotPrefix(f.hpf, u, v, 2 * (k - n / 2) + 1, f.size);
      }
    }
  }

  /** Synthesis reads only the first WindowSize cells: anything past them cannot change the output. */
  lemma SynthesiseWindowOnly(f: FilterBank, u: seq<real>, v: seq<real>, n: nat)
    requires f.Valid() && WindowSize(f, n) <= |u| && WindowSize(f, n) <= |v|
    requires u[..WindowSize(f, n)] == v[..WindowSize(f, n)]
    ensures Synthesise(f, u, n) == Synthesise(f, v, n)
  {
    var yu, yv := Synthesise(f, u, n), Synthesise(f, v, n);
    forall i | 0 <= i < n
      ensures yu[i] == yv[i]
    {
      assert forall j :: 0 <= j < WindowSize(f, n) ==> u[j] == u[..WindowSize(f, n)][j];
      assert forall j :: 0 <= j < WindowSize(f, n) ==> v[j] == v[..WindowSize(f, n)][j];
      SynthPrefix(f, u, v, i, f.size);
    }
  }

  // ---------------------------------------------------------------------------
  // The transform object

  class WtDirect {
    const f: FilterBank
    /** Scratch buffer reused across calls; it grows to the largest window needed so far. */
    var temp: seq<real>

    constructor (bank: FilterBank)
      requires bank.Valid()
      ensures f == bank && temp == []
    {
      f := bank;
      temp := [];
    }

    /**
     * Writes the symmetric extension of the n strided samples of x into the
     * first n + 2h + 1 cells of temp, h = size/2, growing temp when it is too
     * short and leaving any cells past the window as they were.
     */
    method SymExtend(x: array<real>, n: nat, stride: nat, interleave: bool)
      requires n >= 2 && Fits(x.Length, n, stride)
      requires interleave ==> n % 2 == 0
      modifies this`temp
      ensures |temp| == Max(old(|temp|), WindowSize(f, n))
      ensures temp[..WindowSize(f, n)] == Window(Strided(x[..], n, stride), interleave, f.size / 2)
      ensures forall k :: WindowSize(f, n) <= k < old(|temp|) ==> temp[k] == old(temp[k])
    {
      var h := f.size / 2;
      var tsize := n + 2 * h + 1;
      if tsize > |temp| {
        temp := temp + seq(tsize - |temp|, _ => 0.0);
      }
      ghost var grown := temp;
      ghost var xs := x[..];
      ghost var sig := Strided(xs, n, stride);
      ghost var w := Window(sig, interleave, h);

      // copy the signal into the middle of temp
      if interleave {
        CopyInterleaved(x, n, stride, h);
        assert x[..] == xs;
        InterleavedCenter(temp, sig, h);
      } else {
        CopyPlain(x, n, stride, h);
        assert x[..] == xs;
        PlainCenter(temp, sig, h);
      }

      // symmetrically extend the left and right borders around the signal
      LeftMirror(sig, interleave, h);
      RightMirror(sig, interleave, h);
      ExtendBorders(n, h, w);
      assert x[..] == xs;
      assert temp[..tsize] == w;
    }

    /** Plain copy: cell h + i of temp receives sample i of x. */
    method CopyPlain(x: array<real>, n: nat, stride: nat, h: nat)
      requires Fits(x.Length, n, stride) && h + n <= |temp|
      modifies this`temp
      ensures |temp| == old(|temp|)
      ensures forall i :: 0 <= i < n ==> temp[h + i] == Strided(x[..], n, stride)[i]
      ensures forall k :: 0 <= k < |temp| && !(h <= k < h + n) ==> temp[k] == old(temp[k])
    {
      var i := 0;
      while i < n
        invariant 0 <= i <= n && |temp| == old(|temp|)
        invariant forall j :: 0 <= j < i ==> temp[h + j] == Strided(x[..], n, stride)[j]
        invariant forall k :: 0 <= k < |temp| && !(h <= k < h + i) ==> temp[k] == old(temp[k])
      {
        StridedAt(x[..], n, stride, i);
        temp := temp[h + i := x[i * stride]];
        i := i + 1;
      }
    }

    /**
     * Interleaved copy: cell h + 2i receives sample i of the first half of x and
     * cell h + 2i + 1 sample n/2 + i of the second half.
     */
    method CopyInterleaved(x: array<real>, n: nat, stride: nat, h: nat)
      requires Fits(x.Length, n, stride) && n % 2 == 0 && h + n <= |temp|
      modifies this`temp
      ensures |temp| == old(|temp|)
      ensures forall i :: 0 <= i < n / 2 ==> temp[h + 2 * i] == Strided(x[..], n, stride)[i]
      ensures forall i :: n / 2 <= i < n ==> temp[h + 2 * (i - n / 2) + 1] == Strided(x[..], n, stride)[i]
      ensures forall k :: 0 <= k < |temp| && !(h <= k < h + n) ==> temp[k] == old(temp[k])
    {
      var i := 0;
      while i < n / 2
        invariant 0 <= i <= n / 2 && |temp| == old(|temp|)
        invariant forall j :: 0 <= j < i ==> temp[h + 2 * j] == Strided(x[..], n, stride)[j]
        invariant forall j :: n / 2 <= j < n / 2 + i ==> temp[h + 2 * (j - n / 2) + 1] == Strided(x[..], n, stride)[j]
        invariant forall k :: 0 <= k < |temp| && !(h <= k < h + 2 * i) ==> temp[k] == old(temp[k])
      {
        StridedAt(x[..], n, stride, i);
        StridedAt(x[..], n, stride, n / 2 + i);
        temp := temp[h + 2 * i := x[i * stride]];
        temp := temp[h + 2 * i + 1 := x[(n / 2 + i) * stride]];
        i := i + 1;
      }
    }

    /**
     * Fills the n + 2h + 1 - n border cells of temp around the signal already in
     * cells [h, n + h): cell h - i from cell h + i, cell n + h - 1 + i from cell
     * n + h - 1 - i, walking outward, then the trailing cell n + 2h from cell
     * n - 2. Any w with those two mirror symmetries that agrees with temp on the
     * signal is then matched on the whole window.
     */
    method ExtendBorders(n: nat, h: nat, ghost w: seq<real>)
      requires n >= 2 && |w| == n + 2 * h + 1 && |w| <= |temp|
      requires forall k :: 0 <= k < h ==> w[k] == w[2 * h - k]
      requires forall k :: n + h <= k < |w| ==> w[k] == w[2 * (n + h - 1) - k]
      requires forall k :: h <= k < n + h ==> temp[k] == w[k]
      modifies this`temp
      ensures |temp| == old(|temp|)
      ensures forall k :: 0 <= k < |w| ==> temp[k] == w[k]
      ensures forall k :: |w| <= k < |temp| ==> temp[k] == old(temp[k])
    {
      var l: int := h - 1;
      var r: int := n + h;
      var i := 1;
      while i <= h
        invariant 1 <= i <= h + 1
        invariant l == h - i && r == n + h - 1 + i
        invariant |temp| == old(|temp|)
        invariant forall k :: h - (i - 1) <= k < n + h + (i - 1) ==> temp[k] == w[k]
        invariant forall k :: |w| <= k < |temp| ==> temp[k] == old(temp[k])
      {
        temp := temp[l := temp[l + 2 * i]];
        temp := temp[r := temp[l + n - 1]];
        l := l - 1;
        r := r + 1;
        i := i + 1;
      }
      // last cell on the right
      temp := temp[r := temp[l + n - 1]];
    }

    /**
     * Forward single-level transform, in place on data[..n]: the first n/2
     * cells receive the low-pass band and the next n/2 the high-pass band,
     * both computed from the signal as it was before the call.
     */
    method FwtSingle(data: array<real>, n: nat)
      requires f.Valid() && n % 2 == 0 && 2 <= n <= data.Length
      modifies this`temp, data
      ensures data[..n] == Forward(f, old(data[..n]))
      ensures data[n..] == old(data[n..])
      ensures |temp| == Max(old(|temp|), WindowSize(f, n))
      ensures temp[..WindowSize(f, n)] == Window(old(data[..n]), false, f.size / 2)
      ensures forall k :: WindowSize(f, n) <= k < old(|temp|) ==> temp[k] == old(temp[k])
    {
      SymExtend(data, n, 1, false);
      ghost var xs := data[..];
      StridedOne(xs, n);
      AnalysisPass(data, n);
      AnalyseWindowOnly(f, temp, Window(xs[..n], false, f.size / 2), n);
    }

    /**
     * The outer loop of the forward transform: output pair i (low-pass at i,
     * high-pass at n/2 + i) for each i < n/2, each read from temp.
     */
    method AnalysisPass(data: array<real>, n: nat)
      requires f.Valid() && n % 2 == 0 && n <= data.Length && n + f.size <= |temp|
      modifies data
      ensures data[..n] == Analyse(f, temp, n)
      ensures data[n..] == old(data[n..])
    {
      var len := n / 2;
      ghost var ys := Analyse(f, temp, n);
      var i := 0;
      while i < len
        invariant 0 <= i <= len
        invariant forall k :: 0 <= k < i ==> data[k] == ys[k]
        invariant forall k :: len <= k < len + i ==> data[k] == ys[k]
        invariant forall k :: n <= k < data.Length ==> data[k] == old(data[k])
      {
        AnalysePair(data, n, i);
        i := i + 1;
      }
      assert data[..n] == ys;
    }

    /**
     * One pass of the inner loop of the forward transform: accumulates the
     * low-pass taps into data[i] and the high-pass taps into data[n/2 + i],
     * against temp from cells 2i and 2i + 1; no other cell changes.
     */
    method AnalysePair(data: array<real>, n: nat, i: nat)
      requires f.Valid() && n % 2 == 0 && n <= data.Length && n + f.size <= |temp| && i < n / 2
      modifies data
      ensures data[i] == Dot(f.lpf, temp, 2 * i, f.size)
      ensures data[n / 2 + i] == Dot(f.hpf, temp, 2 * i + 1, f.size)
      ensures forall k :: 0 <= k < data.Length && k != i && k != n / 2 + i ==> data[k] == old(data[k])
    {
      var len := n / 2;
      data[i] := 0.0;
      data[len + i] := 0.0;
      var d := 0;
      while d < f.size
        invariant 0 <= d <= f.size
        invariant data[i] == Dot(f.lpf, temp, 2 * i, d)
        invariant data[len + i] == Dot(f.hpf, temp, 2 * i + 1, d)
        invariant forall k :: 0 <= k < data.Length && k != i && k != len + i ==> data[k] == old(data[k])
      {
        data[i] := data[i] + f.lpf[d] * temp[2 * i + d];
        data[len + i] := data[len + i] + f.hpf[d] * temp[2 * i + d + 1];
        d := d + 1;
      }
    }

    /**
     * Inverse single-level transform, in place on data[..n]: reads the first
     * half as the approximation band and the second half as the detail band,
     * and writes the reconstructed samples, computed from the values before
     * the call.
     */
    method IwtSingle(data: array<real>, n: nat)
      requires f.Valid() && n % 2 == 0 && 2 <= n <= data.Length
      modifies this`temp, data
      ensures data[..n] == Inverse(f, old(data[..n]))
      ensures data[n..] == old(data[n..])
      ensures |temp| == Max(old(|temp|), WindowSize(f, n))
      ensures temp[..WindowSize(f, n)] == Window(old(data[..n]), true, f.size / 2)
      ensures forall k :: WindowSize(f, n) <= k < old(|temp|) ==> temp[k] == old(temp[k])
    {
      SymExtend(data, n, 1, true);
      ghost var xs := data[..];
      StridedOne(xs, n);
      SynthesisPass(data, n);
      SynthesiseWindowOnly(f, temp, Window(xs[..n], true, f.size / 2), n);
    }

    /**
     * The outer loop of the inverse transform: output i for each i < n, each
     * read from temp.
     */
    method SynthesisPass(data: array<real>, n: nat)
      requires f.Valid() && n <= data.Length && n + f.size <= |temp|
      modifies data
      ensures data[..n] == Synthesise(f, temp, n)
      ensures data[n..] == old(data[n..])
    {
      ghost var ys := Synthesise(f, temp, n);
      var i := 0;
      while i < n
        invariant 0 <= i <= n
        invariant forall k :: 0 <= k < i ==> data[k] == ys[k]
        invariant forall k :: n <= k < data.Length ==> data[k] == old(data[k])
      {
        SynthesiseAt(data, n, i);
        i := i + 1;
      }
      assert data[..n] == ys;
    }

    /**
     * One pass of the inner loop of the inverse transform: accumulates into
     * data[i], against temp from cell i, the synthesis taps whose band the
     * parity of i + d selects; no other cell changes.
     */
    method SynthesiseAt(data: array<real>, n: nat, i: nat)
      requires f.Valid() && n <= data.Length && n + f.size <= |temp| && i < n
      modifies data
      ensures data[i] == Synth(f, temp, i, f.size)
      ensures forall k :: 0 <= k < data.Length && k != i ==> data[k] == old(data[k])
    {
      data[i] := 0.0;
      var d := 0;
      while d < f.size
        invariant 0 <= d <= f.size
        invariant data[i] == Synth(f, temp, i, d)
        invariant forall k :: 0 <= k < data.Length && k != i ==> data[k] == old(data[k])
      {
        // the parity of i + d selects which band the tap upsamples
        if (i + d) % 2 == 1 {
          data[i] := data[i] + f.ihpf[d] * temp[i + d];
        } else {
          data[i] := data[i] + f.ilpf[d] * temp[i + d];
        }
        d := d + 1;
      }
    }
  }
}
