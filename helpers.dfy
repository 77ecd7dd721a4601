// The two helpers shared, identical apart from whitespace, by the signal demo
// (q31_starter.cpp) and the image demo (q32_starter.cpp): `clampv` and the
// mirror-padding index `reflect_index`.  Both demos work on 8-bit pixels, so
// the byte type they share is declared here as well.

module Helpers {

  import opened Arith

  /** An unsigned 8-bit value (`uint8_t`). */
  newtype byte = x: int | 0 <= x < 256

  /**
   * `clampv` instantiated at `int`.  When the interval is not empty the
   * result is the point of [lo, hi] nearest to `v`: no point `v + k` of
   * the interval is closer to `v`.
   */
  function Clamp(v: int, lo: int, hi: int): (r: int)
    ensures lo <= hi ==> lo <= r <= hi
    ensures lo <= v <= hi ==> r == v
    ensures lo <= hi ==> forall k :: lo <= v + k <= hi ==> Abs(r - v) <= Abs(k)
  {
    if v < lo then lo else if v > hi then hi else v
  }

  /** Clamping never reverses the order of two values. */
  lemma ClampMonotone(v: int, w: int, lo: int, hi: int)
    requires lo <= hi && v <= w
    ensures Clamp(v, lo, hi) <= Clamp(w, lo, hi)
  {
  }

  /** A clamped value is left alone by a second clamp to the same interval. */
  lemma ClampIdempotent(v: int, lo: int, hi: int)
    requires lo <= hi
    ensures Clamp(Clamp(v, lo, hi), lo, hi) == Clamp(v, lo, hi)
  {
  }

  // ---------------------------------------------------------------------
  // Mirror padding

  /**
   * Mirror padding of index `i` into [0, n), written in closed form: the
   * reflected line repeats with period 2n-2 and runs down again on the
   * second half of each period.  Sizes up to 1 always give index 0.
   */
  function Reflect(i: int, n: int): (r: int)
    ensures n <= 1 ==> r == 0
    ensures n >= 2 ==> 0 <= r < n
  {
    if n <= 1 then 0
    else
      var m := i % (2 * n - 2);
      if m < n then m else 2 * n - 2 - m
  }

  /** An index already inside the image is not moved. */
  lemma ReflectInRange(i: int, n: int)
    requires 0 <= i < n
    ensures Reflect(i, n) == i
  {
    if n >= 2 {
      DivModUnique(i, 2 * n - 2, if i < 2 * n - 2 then 0 else 1, if i < 2 * n - 2 then i else i - (2 * n - 2));
    }
  }

  /** Mirroring at the low edge: -i lands where i does. */
  lemma ReflectMirrorLow(i: int, n: int)
    ensures Reflect(-i, n) == Reflect(i, n)
  {
    if n >= 2 {
      var p := 2 * n - 2;
      var q, m := i / p, i % p;
      if m == 0 {
        DivModUnique(-i, p, -q, 0);
      } else {
        DivModUnique(-i, p, -q - 1, p - m);
      }
    }
  }

  /** Mirroring at the high edge: 2n-2-i lands where i does. */
  lemma ReflectMirrorHigh(i: int, n: int)
    ensures Reflect(2 * n - 2 - i, n) == Reflect(i, n)
  {
    if n >= 2 {
      var p := 2 * n - 2;
      var q, m := (-i) / p, (-i) % p;
      DivModUnique(p - i, p, q + 1, m);
      ReflectMirrorLow(i, n);
    }
  }

  /** The padding used by the median filter: one step past either edge. */
  lemma ReflectOneOutside(n: int)
    requires n >= 2
    ensures Reflect(-1, n) == 1
    ensures Reflect(n, n) == n - 2
  {
    ReflectMirrorLow(1, n);
    ReflectInRange(1, n);
    ReflectMirrorHigh(n - 2, n);
    ReflectInRange(n - 2, n);
  }

  /**
   * `reflect_index`: reflect at whichever edge `i` lies beyond until it is
   * inside.  Each reflection keeps the closed form's value, so the loop ends
   * on it; termination follows from the measure, which falls at every step
   * once n >= 2.
   */
  method ReflectIndex(i0: int, n: int) returns (i: int)
    ensures i == Reflect(i0, n)
  {
    if n <= 1 {
      return 0;
    }
    i := i0;
    while i < 0 || i >= n
      invariant Reflect(i, n) == Reflect(i0, n)
      decreases if i < 0 then -2 * i + 1 else 2 * i
    {
      if i < 0 {
        ReflectMirrorLow(i, n);
        i := -i;
      } else {
        ReflectMirrorHigh(i, n);
        i := 2 * n - 2 - i;
      }
    }
    ReflectInRange(i, n);
  }
}
