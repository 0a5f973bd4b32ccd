/**
 * The audio processor's per-millisecond windowing: the sample matrix
 * y[muestra, canal] is cut into consecutive windows of samplesPerMs rows, and
 * each window of each channel is summed. The program divides each sum by
 * samplesPerMs in floating point; this model keeps the exact integer sum.
 */
module AudioWindows {

  /** The sum of y[i, c] for lo <= i < hi. */
  function SumRange(y: array2<int>, c: nat, lo: nat, hi: nat): int
    reads y
    requires lo <= hi <= y.Length0 && c < y.Length1
    decreases hi - lo
  {
    if lo == hi then 0 else SumRange(y, c, lo, hi - 1) + y[hi - 1, c]
  }

  /** The number of whole windows: floor(numMuestras / samplesPerMs), C#'s integer division on non-negative operands. */
  function NumWindows(numMuestras: nat, samplesPerMs: nat): nat
    requires samplesPerMs > 0
  {
    numMuestras / samplesPerMs
  }

  /** The first sample of window k (idxIni). */
  function WindowStart(k: nat, samplesPerMs: nat): nat
  {
    k * samplesPerMs
  }

  /** One past the last sample of window k (idxFin). */
  function WindowEnd(k: nat, samplesPerMs: nat): nat
  {
    (k + 1) * samplesPerMs
  }

  /**
   * The window layout: window k is [k * s, (k + 1) * s), holds s samples, ends
   * where window k + 1 starts, lies wholly before any later window, and the
   * last window ends at numMs * s <= numMuestras.
   */
  lemma WindowLayout(numMuestras: nat, s: nat, k: nat)
    requires s > 0 && k < NumWindows(numMuestras, s)
    ensures WindowEnd(k, s) - WindowStart(k, s) == s
    ensures WindowEnd(k, s) == WindowStart(k + 1, s)
    ensures forall k': nat :: k < k' ==> WindowEnd(k, s) <= WindowStart(k', s)
    ensures WindowEnd(k, s) <= NumWindows(numMuestras, s) * s <= numMuestras
  {
    var n := NumWindows(numMuestras, s);
    assert (k + 1) * s == k * s + s;
    assert n * s <= numMuestras by {
      assert numMuestras == n * s + numMuestras % s;
    }
    MulLeq(k + 1, n, s);
    forall k': nat | k < k' ensures WindowEnd(k, s) <= WindowStart(k', s) {
      MulLeq(k + 1, k', s);
    }
  }

  lemma MulLeq(a: nat, b: nat, s: nat)
    requires a <= b
    ensures a * s <= b * s
  {
  }

  /**
   * The windows tile [0, numMs * s): each sample i below that bound lies in
   * exactly the window i / s, and the numMuestras % s samples from there to
   * the end lie in none.
   */
  lemma WindowsTile(numMuestras: nat, s: nat, i: nat)
    requires s > 0
    ensures i < NumWindows(numMuestras, s) * s ==>
      i / s < NumWindows(numMuestras, s) && WindowStart(i / s, s) <= i < WindowEnd(i / s, s)
    ensures forall k: nat :: WindowStart(k, s) <= i < WindowEnd(k, s) ==> k == i / s
    ensures numMuestras - NumWindows(numMuestras, s) * s == numMuestras % s < s
  {
    var n := NumWindows(numMuestras, s);
    var q := i / s;
    assert i == q * s + i % s;
    assert (q + 1) * s == q * s + s;
    assert numMuestras == n * s + numMuestras % s;
    if i < n * s && q >= n {
      MulLeq(n, q, s);
    }
    forall k: nat | WindowStart(k, s) <= i < WindowEnd(k, s) ensures k == q {
      assert (k + 1) * s == k * s + s;
      if k < q {
        MulLeq(k + 1, q, s);
      } else if k > q {
        MulLeq(q + 1, k, s);
      }
    }
  }

  /** The value the loop stores for window k of channel c, before the division by samplesPerMs. */
  function WindowSum(y: array2<int>, s: nat, k: nat, c: nat): int
    reads y
    requires s > 0 && k < NumWindows(y.Length0, s) && c < y.Length1
  {
    WindowLayout(y.Length0, s, k);
    SumRange(y, c, WindowStart(k, s), WindowEnd(k, s))
  }

  /** The samples left over after the last whole window do not affect any window sum. */
  lemma TrailingSamplesUnread(y: array2<int>, z: array2<int>, s: nat)
    requires s > 0
    requires y.Length0 == z.Length0 && y.Length1 == z.Length1
    requires forall i, c :: 0 <= i < NumWindows(y.Length0, s) * s && 0 <= c < y.Length1 ==> y[i, c] == z[i, c]
    ensures forall k, c :: 0 <= k < NumWindows(y.Length0, s) && 0 <= c < y.Length1 ==> WindowSum(y, s, k, c) == WindowSum(z, s, k, c)
  {
    forall k, c | 0 <= k < NumWindows(y.Length0, s) && 0 <= c < y.Length1
      ensures WindowSum(y, s, k, c) == WindowSum(z, s, k, c)
    {
      WindowLayout(y.Length0, s, k);
      SumRangeAgree(y, z, c, WindowStart(k, s), WindowEnd(k, s), NumWindows(y.Length0, s) * s);
    }
  }

  lemma {:induction false} SumRangeAgree(y: array2<int>, z: array2<int>, c: nat, lo: nat, hi: nat, bound: nat)
    requires lo <= hi <= bound <= y.Length0 == z.Length0 && c < y.Length1 == z.Length1
    requires forall i, c' :: 0 <= i < bound && 0 <= c' < y.Length1 ==> y[i, c'] == z[i, c']
    ensures SumRange(y, c, lo, hi) == SumRange(z, c, lo, hi)
    decreases hi - lo
  {
    if lo < hi {
      SumRangeAgree(y, z, c, lo, hi - 1, bound);
    }
  }

  /** The outcome of GetAveragedDataPerMs. */
  datatype PerMs =
    | DivideByZero
    | PerMs(yMs: array2<int>, tMs: seq<int>)

  /**
   * GetAveragedDataPerMs with samplesPerMs given: faults when samplesPerMs is
   * 0; otherwise a numMs x numCanales matrix whose entry [k, c] is the sum of
   * y[i, c] over window k, and the time vector [0, 1, ..., numMs - 1].
   */
  method GetAveragedDataPerMs(y: array2<int>, samplesPerMs: nat) returns (r: PerMs)
    ensures r.DivideByZero? <==> samplesPerMs == 0
    ensures r.PerMs? ==> fresh(r.yMs)
    ensures r.PerMs? ==> r.yMs.Length0 == y.Length0 / samplesPerMs && r.yMs.Length1 == y.Length1
    ensures r.PerMs? ==> forall k, c :: 0 <= k < r.yMs.Length0 && 0 <= c < r.yMs.Length1 ==>
      r.yMs[k, c] == WindowSum(y, samplesPerMs, k, c)
    ensures r.PerMs? ==> |r.tMs| == r.yMs.Length0 && forall i :: 0 <= i < |r.tMs| ==> r.tMs[i] == i
  {
    var numMuestras := y.Length0;
    var numCanales := y.Length1;
    if samplesPerMs == 0 {
      return DivideByZero;
    }
    var numMs := numMuestras / samplesPerMs;
    var yMs := new int[numMs, numCanales];
    var k := 0;
    while k < numMs
      invariant 0 <= k <= numMs
      invariant forall k', c :: 0 <= k' < k && 0 <= c < numCanales ==> yMs[k', c] == WindowSum(y, samplesPerMs, k', c)
    {
      var idxIni := k * samplesPerMs;
      var idxFin := (k + 1) * samplesPerMs;
      WindowLayout(numMuestras, samplesPerMs, k);
      var canal := 0;
      while canal < numCanales
        invariant 0 <= canal <= numCanales
        invariant forall k', c :: 0 <= k' < k && 0 <= c < numCanales ==> yMs[k', c] == WindowSum(y, samplesPerMs, k', c)
        invariant forall c :: 0 <= c < canal ==> yMs[k, c] == WindowSum(y, samplesPerMs, k, c)
      {
        var sum := 0;
        var i := idxIni;
        while i < idxFin
          invariant idxIni <= i <= idxFin
          invariant sum == SumRange(y, canal, idxIni, i)
        {
          sum := sum + y[i, canal];
          i := i + 1;
        }
        yMs[k, canal] := sum;
        canal := canal + 1;
      }
      k := k + 1;
    }
    var tMs := seq(numMs, i => i);
    r := PerMs(yMs, tMs);
  }
}
