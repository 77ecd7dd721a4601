// Fraction ranking: the Cantor "snake" comparator, the vanilla bubble sort
// that counts flips per fraction, and the back-pointer resolution pass.
//
// The C++ routine works on an interleaved array of 2*listSize pointers: even
// slots point at `int[3]` records {num, den, flipCount}, odd slots are
// back-pointers. Here a record is named by an id (its index in `fracs`),
// the even slots are the array `order` of ids, the odd slots are the array
// `back` (back[o] == k stands for "odd slot 2*o+1 points at even slot 2*k"),
// and the flip counters are the array `flips`, indexed by id.
module SortFractions {

  datatype Fraction = Fraction(num: int, den: int)

  /** The domain on which the ranking is a strict total order. */
  predicate Positive(f: Fraction) {
    f.num > 0 && f.den > 0
  }

  predicate AllPositive(fracs: seq<Fraction>) {
    forall id :: 0 <= id < |fracs| ==> Positive(fracs[id])
  }

  /** compareFractions: true when `a` must be placed before `b`.
      The products and sums are computed in 64 bits from 32-bit inputs in the
      source, so they are exact and unbounded integers model them faithfully. */
  function Precedes(a: Fraction, b: Fraction): bool {
    if a.num * b.den == b.num * a.den then a.num < b.num
    else if a.num + a.den != b.num + b.den then a.num + a.den < b.num + b.den
    else if (a.num + a.den) % 2 == 0 then a.num < b.num
    else a.num > b.num
  }

  // ---------------------------------------------------------------------------
  // The order as a key: diagonal first, then the position along the diagonal
  // in the direction the snake walks it.

  function Diagonal(f: Fraction): int {
    f.num + f.den
  }

  /** Even diagonals are walked with growing numerator, odd ones with shrinking numerator. */
  function Lane(f: Fraction): int {
    if Diagonal(f) % 2 == 0 then f.num else -f.num
  }

  /** `a` is not later than `b` in the snake enumeration. */
  predicate NotAfter(a: Fraction, b: Fraction) {
    Diagonal(a) < Diagonal(b) || (Diagonal(a) == Diagonal(b) && Lane(a) <= Lane(b))
  }

  /** Multiplying by a positive number keeps the order of two integers. */
  lemma MulPositive(x: int, y: int, z: int)
    requires z > 0
    ensures x < y <==> x * z < y * z
    ensures x == y <==> x * z == y * z
  {
    assert y * z - x * z == (y - x) * z;
    if x < y {
      assert (y - x) * z > 0;
    } else if x > y {
      assert (x - y) * z > 0;
    }
  }

  /** Two positive fractions of equal value: the numerators and the
      denominators are ordered the same way. */
  lemma SameValueSameDirection(a: Fraction, b: Fraction)
    requires Positive(a) && Positive(b)
    requires a.num * b.den == b.num * a.den
    ensures a.num < b.num ==> a.den < b.den
    ensures a.num == b.num ==> a.den == b.den
  {
    MulPositive(a.num, b.num, b.den);
    MulPositive(a.den, b.den, b.num);
    MulPositive(a.den, b.den, a.num);
  }

  /** Equal value, smaller numerator first; for positive fractions this never
      contradicts the diagonal rule, because the smaller numerator also lies on
      the smaller diagonal. */
  lemma EqualValueSmallerNumeratorFirst(a: Fraction, b: Fraction)
    requires Positive(a) && Positive(b)
    requires a.num * b.den == b.num * a.den && a != b
    ensures Precedes(a, b) <==> a.num < b.num
    ensures a.num < b.num ==> Diagonal(a) < Diagonal(b)
    ensures a.num != b.num
  {
    SameValueSameDirection(a, b);
  }

  /** For positive fractions, compareFractions is exactly the snake order:
      by diagonal, then ascending numerator on even and descending numerator on
      odd diagonals. */
  lemma {:induction false} SnakeOrder(a: Fraction, b: Fraction)
    requires Positive(a) && Positive(b)
    ensures Precedes(a, b) <==> !NotAfter(b, a)
  {
    if a.num * b.den == b.num * a.den {
      SameValueSameDirection(a, b);
      SameValueSameDirection(b, a);
    }
  }

  lemma PrecedesIrreflexive(a: Fraction)
    ensures !Precedes(a, a)
  {
  }

  /** Asymmetry holds for every pair, positive or not. */
  lemma PrecedesAsymmetric(a: Fraction, b: Fraction)
    ensures Precedes(a, b) ==> !Precedes(b, a)
  {
  }

  lemma PrecedesTransitive(a: Fraction, b: Fraction, c: Fraction)
    requires Positive(a) && Positive(b) && Positive(c)
    ensures Precedes(a, b) && Precedes(b, c) ==> Precedes(a, c)
  {
    SnakeOrder(a, b);
    SnakeOrder(b, c);
    SnakeOrder(a, c);
  }

  /** Distinct positive fractions are always ordered one way or the other. */
  lemma PrecedesConnected(a: Fraction, b: Fraction)
    requires Positive(a) && Positive(b) && a != b
    ensures Precedes(a, b) || Precedes(b, a)
  {
    SnakeOrder(a, b);
    SnakeOrder(b, a);
  }

  /** Why positivity is required: with zero numerators the ranking is not
      transitive (0/1 before 1/1 before 0/3, while 0/1 and 0/3 are tied). */
  lemma ZeroNumeratorBreaksTransitivity()
    ensures Precedes(Fraction(0, 1), Fraction(1, 1))
    ensures Precedes(Fraction(1, 1), Fraction(0, 3))
    ensures !Precedes(Fraction(0, 1), Fraction(0, 3)) && !Precedes(Fraction(0, 3), Fraction(0, 1))
  {
  }

  /** NotAfter is a total preorder. */
  lemma NotAfterTotal(a: Fraction, b: Fraction)
    ensures NotAfter(a, b) || NotAfter(b, a)
  {
  }

  lemma NotAfterTransitive(a: Fraction, b: Fraction, c: Fraction)
    requires NotAfter(a, b) && NotAfter(b, c)
    ensures NotAfter(a, c)
  {
  }

  // ---------------------------------------------------------------------------
  // Ids and sortedness.

  predicate ValidIds(fracs: seq<Fraction>, ids: seq<int>) {
    forall p :: 0 <= p < |ids| ==> 0 <= ids[p] < |fracs|
  }

  predicate Distinct(s: seq<int>) {
    forall p, q :: 0 <= p < q < |s| ==> s[p] != s[q]
  }

  /** The test of the inner loop: the fraction in slot p must come before
      the one in slot p-1. An id that names no fraction never tests true;
      a valid list holds none. */
  predicate Inverted(fracs: seq<Fraction>, ids: seq<int>, p: int)
    requires 0 < p < |ids|
  {
    0 <= ids[p] < |fracs| && 0 <= ids[p - 1] < |fracs| && Precedes(fracs[ids[p]], fracs[ids[p - 1]])
  }

  /** No adjacent pair of the even slots is out of order. */
  predicate SortedBySnake(fracs: seq<Fraction>, ids: seq<int>) {
    forall p :: 0 < p < |ids| ==> !Inverted(fracs, ids, p)
  }

  /** Slots p-1 and p hold fractions in snake order. */
  predicate Ascends(fracs: seq<Fraction>, ids: seq<int>, p: int)
    requires 0 < p < |ids|
  {
    0 <= ids[p - 1] < |fracs| && 0 <= ids[p] < |fracs| && NotAfter(fracs[ids[p - 1]], fracs[ids[p]])
  }

  /** Exchanging two slots keeps the same ids... */
  lemma SwapPermutes(s: seq<int>, i: int, k: int)
    requires 0 <= i < |s| && 0 <= k < |s|
    ensures multiset(s[i := s[k]][k := s[i]]) == multiset(s)
  {
    assert multiset(s[i := s[k]]) == multiset(s) - multiset{s[i]} + multiset{s[k]};
  }

  /** ... and keeps them distinct. */
  lemma SwapKeepsDistinct(s: seq<int>, i: int, k: int)
    requires 0 <= i < |s| && 0 <= k < |s| && Distinct(s)
    ensures Distinct(s[i := s[k]][k := s[i]])
  {
    var t := s[i := s[k]][k := s[i]];
    forall p, q | 0 <= p < q < |t|
      ensures t[p] != t[q]
    {
      var p' := if p == i then k else if p == k then i else p;
      var q' := if q == i then k else if q == k then i else q;
      assert t[p] == s[p'] && t[q] == s[q'] && p' != q';
    }
  }

  // ---------------------------------------------------------------------------
  // The swap loops of bubbleSortFractions, as functions of their state.

  /** What the loops work on: the even slots, the flip counters by id, and
      (for the proofs) the swaps made so far, each as the ids that end up in
      the lower and the upper slot. */
  datatype Run = Run(slots: seq<int>, flips: seq<int>, swaps: seq<(int, int)>)

  /** `counts` with the counter of `id` incremented. */
  function Bump(counts: seq<int>, id: int): (r: seq<int>)
    ensures |r| == |counts|
  {
    if 0 <= id < |counts| then counts[id := counts[id] + 1] else counts
  }

  /** One iteration of the inner loop: when slots p-1 and p are out of order
      they are exchanged and both fractions count one flip. */
  function Step(fracs: seq<Fraction>, run: Run, p: int): (r: Run)
    requires 0 < p < |run.slots|
    ensures |r.slots| == |run.slots| && |r.flips| == |run.flips|
  {
    var s := run.slots;
    if Inverted(fracs, s, p) then
      Run(s[p - 1 := s[p]][p := s[p - 1]], Bump(Bump(run.flips, s[p]), s[p - 1]), run.swaps + [(s[p], s[p - 1])])
    else run
  }

  /** The inner-loop iterations that compare the slot pairs (0, 1) .. (j-1, j). */
  function Pass(fracs: seq<Fraction>, run: Run, j: nat): (r: Run)
    requires j < |run.slots|
    ensures |r.slots| == |run.slots| && |r.flips| == |run.flips|
  {
    if j == 0 then run else Step(fracs, Pass(fracs, run, j - 1), j)
  }

  /** The first i passes of the outer loop; pass i-1 compares the slot pairs
      up to (n-i-1, n-i). */
  function Passes(fracs: seq<Fraction>, run: Run, i: nat): (r: Run)
    requires i <= |run.slots|
    ensures |r.slots| == |run.slots| && |r.flips| == |run.flips|
  {
    if i == 0 then run else Pass(fracs, Passes(fracs, run, i - 1), |run.slots| - i)
  }

  /** The state when the sort loops finish: n-1 passes for n fractions. */
  function BubbleRun(fracs: seq<Fraction>, run: Run): (r: Run)
    ensures |r.slots| == |run.slots| && |r.flips| == |run.flips|
  {
    if |run.slots| == 0 then run else Passes(fracs, run, |run.slots| - 1)
  }

  // ---------------------------------------------------------------------------
  // What one pass achieves.

  lemma {:induction false} PassValid(fracs: seq<Fraction>, run: Run, j: nat)
    requires ValidIds(fracs, run.slots) && j < |run.slots|
    ensures ValidIds(fracs, Pass(fracs, run, j).slots)
  {
    if j > 0 {
      PassValid(fracs, run, j - 1);
    }
  }

  /** An iteration only exchanges two slots... */
  lemma StepPermutes(fracs: seq<Fraction>, run: Run, p: int)
    requires 0 < p < |run.slots|
    ensures multiset(Step(fracs, run, p).slots) == multiset(run.slots)
  {
    if Inverted(fracs, run.slots, p) {
      SwapPermutes(run.slots, p - 1, p);
    }
  }

  /** ... so it keeps the ids distinct. */
  lemma StepDistinct(fracs: seq<Fraction>, run: Run, p: int)
    requires 0 < p < |run.slots| && Distinct(run.slots)
    ensures Distinct(Step(fracs, run, p).slots)
  {
    if Inverted(fracs, run.slots, p) {
      SwapKeepsDistinct(run.slots, p - 1, p);
    }
  }

  lemma {:induction false} PassPermutes(fracs: seq<Fraction>, run: Run, j: nat)
    requires j < |run.slots|
    ensures multiset(Pass(fracs, run, j).slots) == multiset(run.slots)
  {
    if j > 0 {
      PassPermutes(fracs, run, j - 1);
      StepPermutes(fracs, Pass(fracs, run, j - 1), j);
    }
  }

  lemma {:induction false} PassDistinct(fracs: seq<Fraction>, run: Run, j: nat)
    requires j < |run.slots| && Distinct(run.slots)
    ensures Distinct(Pass(fracs, run, j).slots)
  {
    if j > 0 {
      PassDistinct(fracs, run, j - 1);
      StepDistinct(fracs, Pass(fracs, run, j - 1), j);
    }
  }

  /** The inner loop never touches the slots after the last one it compares. */
  lemma {:induction false} PassFrame(fracs: seq<Fraction>, run: Run, j: nat)
    requires j < |run.slots|
    ensures forall p :: j < p < |run.slots| ==> Pass(fracs, run, j).slots[p] == run.slots[p]
  {
    if j > 0 {
      PassFrame(fracs, run, j - 1);
    }
  }

  /** After the iterations up to slot j, slot j holds the latest fraction of
      the slots [0, j]. */
  lemma {:induction false} PassBubblesLatest(fracs: seq<Fraction>, run: Run, j: nat)
    requires AllPositive(fracs) && ValidIds(fracs, run.slots) && j < |run.slots|
    ensures ValidIds(fracs, Pass(fracs, run, j).slots)
    ensures forall p :: 0 <= p <= j ==>
      NotAfter(fracs[Pass(fracs, run, j).slots[p]], fracs[Pass(fracs, run, j).slots[j]])
  {
    PassValid(fracs, run, j);
    if j > 0 {
      PassBubblesLatest(fracs, run, j - 1);
      var s := Pass(fracs, run, j - 1).slots;
      var r := Pass(fracs, run, j).slots;
      var a, b := fracs[s[j - 1]], fracs[s[j]];
      SnakeOrder(b, a);
      NotAfterTotal(a, b);
      if Precedes(b, a) {
        assert r == s[j - 1 := s[j]][j := s[j - 1]];
        forall p | 0 <= p <= j
          ensures NotAfter(fracs[r[p]], a)
        {
          if p < j - 1 {
            assert r[p] == s[p];
          }
        }
      } else {
        assert r == s;
        forall p | 0 <= p <= j
          ensures NotAfter(fracs[r[p]], b)
        {
          if p < j {
            NotAfterTransitive(fracs[s[p]], a, b);
          }
        }
      }
    }
  }

  /** An upper bound on the slots [0, j] survives the iterations, which only
      exchange fractions among those slots. */
  lemma {:induction false} PassKeepsBound(fracs: seq<Fraction>, run: Run, j: nat, bound: Fraction)
    requires ValidIds(fracs, run.slots) && j < |run.slots|
    requires forall p :: 0 <= p <= j ==> NotAfter(fracs[run.slots[p]], bound)
    ensures ValidIds(fracs, Pass(fracs, run, j).slots)
    ensures forall p :: 0 <= p <= j ==> NotAfter(fracs[Pass(fracs, run, j).slots[p]], bound)
  {
    PassValid(fracs, run, j);
    if j > 0 {
      PassKeepsBound(fracs, run, j - 1, bound);
      PassFrame(fracs, run, j - 1);
      var s := Pass(fracs, run, j - 1).slots;
      var r := Pass(fracs, run, j).slots;
      assert s[j] == run.slots[j];
      forall p | 0 <= p <= j
        ensures NotAfter(fracs[r[p]], bound)
      {
        assert r[p] == s[p] || r[p] == s[j - 1] || r[p] == s[j];
      }
    }
  }

  /** A pass over the slots [0, j] whose tail (j, n) is already in order and
      no earlier than the prefix leaves the slots [j, n) in order. */
  lemma PassOrdersTail(fracs: seq<Fraction>, run: Run, j: nat)
    requires AllPositive(fracs) && ValidIds(fracs, run.slots) && j < |run.slots|
    requires forall p :: j + 1 < p < |run.slots| ==> Ascends(fracs, run.slots, p)
    requires j + 1 < |run.slots| ==> forall p :: 0 <= p <= j ==> NotAfter(fracs[run.slots[p]], fracs[run.slots[j + 1]])
    ensures forall p :: j < p < |run.slots| ==> Ascends(fracs, Pass(fracs, run, j).slots, p)
  {
    var s := run.slots;
    var r := Pass(fracs, run, j).slots;
    PassBubblesLatest(fracs, run, j);
    PassFrame(fracs, run, j);
    if j + 1 < |s| {
      PassKeepsBound(fracs, run, j, fracs[s[j + 1]]);
    }
    forall p | j < p < |s|
      ensures Ascends(fracs, r, p)
    {
      assert r[p] == s[p];
      if p > j + 1 {
        assert Ascends(fracs, s, p);
      }
    }
  }

  /** On slots already in order the inner loop changes nothing: no swap, no flip. */
  lemma {:induction false} PassOnSorted(fracs: seq<Fraction>, run: Run, j: nat)
    requires j < |run.slots| && SortedBySnake(fracs, run.slots)
    ensures Pass(fracs, run, j) == run
  {
    if j > 0 {
      PassOnSorted(fracs, run, j - 1);
    }
  }

  // ---------------------------------------------------------------------------
  // What the passes achieve.

  lemma {:induction false} PassesValid(fracs: seq<Fraction>, run: Run, i: nat)
    requires ValidIds(fracs, run.slots) && i <= |run.slots|
    ensures ValidIds(fracs, Passes(fracs, run, i).slots)
  {
    if i > 0 {
      PassesValid(fracs, run, i - 1);
      PassValid(fracs, Passes(fracs, run, i - 1), |run.slots| - i);
    }
  }

  /** After i passes the slots [n-i, n) are in order and hold fractions no
      earlier than any of the slots before them. */
  lemma {:induction false} PassesInvariant(fracs: seq<Fraction>, run: Run, i: nat)
    requires AllPositive(fracs) && ValidIds(fracs, run.slots) && i < |run.slots|
    ensures ValidIds(fracs, Passes(fracs, run, i).slots)
    ensures 0 < i ==> forall p :: 0 <= p < |run.slots| - i ==>
      NotAfter(fracs[Passes(fracs, run, i).slots[p]], fracs[Passes(fracs, run, i).slots[|run.slots| - i]])
    ensures forall p :: |run.slots| - i < p < |run.slots| ==> Ascends(fracs, Passes(fracs, run, i).slots, p)
  {
    PassesValid(fracs, run, i);
    if i > 0 {
      PassesInvariant(fracs, run, i - 1);
      var before := Passes(fracs, run, i - 1);
      PassBubblesLatest(fracs, before, |run.slots| - i);
      PassOrdersTail(fracs, before, |run.slots| - i);
    }
  }

  lemma {:induction false} PassesPermutes(fracs: seq<Fraction>, run: Run, i: nat)
    requires i <= |run.slots|
    ensures multiset(Passes(fracs, run, i).slots) == multiset(run.slots)
  {
    if i > 0 {
      PassesPermutes(fracs, run, i - 1);
      var before := Passes(fracs, run, i - 1);
      PassPermutes(fracs, before, |run.slots| - i);
      assert Passes(fracs, run, i).slots == Pass(fracs, before, |run.slots| - i).slots;
    }
  }

  lemma {:induction false} PassesDistinct(fracs: seq<Fraction>, run: Run, i: nat)
    requires i <= |run.slots| && Distinct(run.slots)
    ensures Distinct(Passes(fracs, run, i).slots)
  {
    if i > 0 {
      PassesDistinct(fracs, run, i - 1);
      PassDistinct(fracs, Passes(fracs, run, i - 1), |run.slots| - i);
    }
  }

  lemma {:induction false} PassesOnSorted(fracs: seq<Fraction>, run: Run, i: nat)
    requires i <= |run.slots| && SortedBySnake(fracs, run.slots)
    ensures Passes(fracs, run, i) == run
  {
    if i > 0 {
      PassesOnSorted(fracs, run, i - 1);
      PassOnSorted(fracs, run, |run.slots| - i);
    }
  }

  /** For positive fractions the sort loops leave the even slots in
      compareFractions order. */
  lemma BubbleSortSorts(fracs: seq<Fraction>, run: Run)
    requires ValidIds(fracs, run.slots) && AllPositive(fracs)
    ensures SortedBySnake(fracs, BubbleRun(fracs, run).slots)
  {
    if |run.slots| > 0 {
      var r := BubbleRun(fracs, run).slots;
      PassesInvariant(fracs, run, |run.slots| - 1);
      forall p | 0 < p < |r|
        ensures !Inverted(fracs, r, p)
      {
        assert p == 1 || Ascends(fracs, r, p);
        SnakeOrder(fracs[r[p]], fracs[r[p - 1]]);
      }
    }
  }

  /** Whatever the fractions, the sort loops only rearrange the ids. */
  lemma BubbleSortPermutes(fracs: seq<Fraction>, run: Run)
    ensures multiset(BubbleRun(fracs, run).slots) == multiset(run.slots)
  {
    PassesPermutes(fracs, run, if |run.slots| == 0 then 0 else |run.slots| - 1);
  }

  lemma BubbleSortKeepsDistinct(fracs: seq<Fraction>, run: Run)
    requires Distinct(run.slots)
    ensures Distinct(BubbleRun(fracs, run).slots)
  {
    PassesDistinct(fracs, run, if |run.slots| == 0 then 0 else |run.slots| - 1);
  }

  /** Input that is already in order is left alone: no swap and no flip. */
  lemma BubbleSortOnSorted(fracs: seq<Fraction>, run: Run)
    requires SortedBySnake(fracs, run.slots)
    ensures BubbleRun(fracs, run) == run
  {
    PassesOnSorted(fracs, run, if |run.slots| == 0 then 0 else |run.slots| - 1);
  }

  // ---------------------------------------------------------------------------
  // Flip counters.

  /** How many of the swaps the fraction `id` took part in. */
  function Involvements(swaps: seq<(int, int)>, id: int): nat {
    if swaps == [] then 0
    else
      var last := swaps[|swaps| - 1];
      Involvements(swaps[..|swaps| - 1], id)
        + (if last.0 == id then 1 else 0) + (if last.1 == id then 1 else 0)
  }

  function Sum(s: seq<int>): int {
    if s == [] then 0 else Sum(s[..|s| - 1]) + s[|s| - 1]
  }

  /** The recorded swap exchanged two known fractions, the first of which
      compareFractions put before the second. */
  predicate GenuineSwap(fracs: seq<Fraction>, swap: (int, int)) {
    0 <= swap.0 < |fracs| && 0 <= swap.1 < |fracs| && Precedes(fracs[swap.0], fracs[swap.1])
  }

  /** Every recorded swap is genuine. */
  predicate GenuineSwaps(fracs: seq<Fraction>, swaps: seq<(int, int)>) {
    forall k :: 0 <= k < |swaps| ==> GenuineSwap(fracs, swaps[k])
  }

  /** Each counter exceeds its starting value by the number of swaps its
      fraction took part in. */
  predicate Counted(counts: seq<int>, run: Run) {
    |run.flips| == |counts|
    && forall id :: 0 <= id < |counts| ==> run.flips[id] == counts[id] + Involvements(run.swaps, id)
  }

  lemma {:induction false} SumBump(s: seq<int>, i: int)
    requires 0 <= i < |s|
    ensures Sum(s[i := s[i] + 1]) == Sum(s) + 1
  {
    var t := s[i := s[i] + 1];
    if i < |s| - 1 {
      assert t[..|t| - 1] == s[..|s| - 1][i := s[i] + 1];
      SumBump(s[..|s| - 1], i);
    } else {
      assert t[..|t| - 1] == s[..|s| - 1];
    }
  }

  lemma BumpSum(s: seq<int>, i: int)
    requires 0 <= i < |s|
    ensures Sum(Bump(s, i)) == Sum(s) + 1
  {
    SumBump(s, i);
  }

  /** A swap is recorded only for a pair compareFractions finds out of order. */
  lemma StepGenuine(fracs: seq<Fraction>, run: Run, p: int)
    requires 0 < p < |run.slots| && GenuineSwaps(fracs, run.swaps)
    ensures GenuineSwaps(fracs, Step(fracs, run, p).swaps)
  {
    var r := Step(fracs, run, p);
    forall k | 0 <= k < |r.swaps|
      ensures GenuineSwap(fracs, r.swaps[k])
    {
      if k < |run.swaps| {
        assert r.swaps[k] == run.swaps[k];
      }
    }
  }

  /** A swap adds two flips in total. */
  lemma StepSum(fracs: seq<Fraction>, run: Run, p: int)
    requires 0 < p < |run.slots| && |run.flips| == |fracs|
    ensures Sum(Step(fracs, run, p).flips) == Sum(run.flips) + 2 * (|Step(fracs, run, p).swaps| - |run.swaps|)
  {
    var s := run.slots;
    if Inverted(fracs, s, p) {
      BumpSum(run.flips, s[p]);
      BumpSum(Bump(run.flips, s[p]), s[p - 1]);
    }
  }

  /** A swap adds one flip to each of the two fractions it exchanges. */
  lemma StepCounted(fracs: seq<Fraction>, counts: seq<int>, run: Run, p: int)
    requires 0 < p < |run.slots| && |counts| == |fracs| && Counted(counts, run)
    ensures Counted(counts, Step(fracs, run, p))
  {
    var r := Step(fracs, run, p);
    if Inverted(fracs, run.slots, p) {
      assert r.swaps[..|r.swaps| - 1] == run.swaps;
    }
  }

  lemma {:induction false} PassGenuine(fracs: seq<Fraction>, run: Run, j: nat)
    requires j < |run.slots| && GenuineSwaps(fracs, run.swaps)
    ensures GenuineSwaps(fracs, Pass(fracs, run, j).swaps)
  {
    if j > 0 {
      PassGenuine(fracs, run, j - 1);
      StepGenuine(fracs, Pass(fracs, run, j - 1), j);
    }
  }

  lemma {:induction false} PassSum(fracs: seq<Fraction>, run: Run, j: nat)
    requires j < |run.slots| && |run.flips| == |fracs|
    ensures Sum(Pass(fracs, run, j).flips) == Sum(run.flips) + 2 * (|Pass(fracs, run, j).swaps| - |run.swaps|)
  {
    if j > 0 {
      PassSum(fracs, run, j - 1);
      StepSum(fracs, Pass(fracs, run, j - 1), j);
    }
  }

  lemma {:induction false} PassCounted(fracs: seq<Fraction>, counts: seq<int>, run: Run, j: nat)
    requires j < |run.slots| && |counts| == |fracs| && Counted(counts, run)
    ensures Counted(counts, Pass(fracs, run, j))
  {
    if j > 0 {
      PassCounted(fracs, counts, run, j - 1);
      StepCounted(fracs, counts, Pass(fracs, run, j - 1), j);
    }
  }

  lemma {:induction false} PassesGenuine(fracs: seq<Fraction>, run: Run, i: nat)
    requires i <= |run.slots| && GenuineSwaps(fracs, run.swaps)
    ensures GenuineSwaps(fracs, Passes(fracs, run, i).swaps)
  {
    if i > 0 {
      PassesGenuine(fracs, run, i - 1);
      PassGenuine(fracs, Passes(fracs, run, i - 1), |run.slots| - i);
    }
  }

  lemma {:induction false} PassesSum(fracs: seq<Fraction>, run: Run, i: nat)
    requires i <= |run.slots| && |run.flips| == |fracs|
    ensures Sum(Passes(fracs, run, i).flips) == Sum(run.flips) + 2 * (|Passes(fracs, run, i).swaps| - |run.swaps|)
  {
    if i > 0 {
      PassesSum(fracs, run, i - 1);
      PassSum(fracs, Passes(fracs, run, i - 1), |run.slots| - i);
    }
  }

  lemma {:induction false} PassesCounted(fracs: seq<Fraction>, counts: seq<int>, run: Run, i: nat)
    requires i <= |run.slots| && |counts| == |fracs| && Counted(counts, run)
    ensures Counted(counts, Passes(fracs, run, i))
  {
    if i > 0 {
      PassesCounted(fracs, counts, run, i - 1);
      PassCounted(fracs, counts, Passes(fracs, run, i - 1), |run.slots| - i);
    }
  }

  /** The flip counters the sort leaves behind, starting from `counts` with no
      swap recorded: every swap was an adjacent pair that compareFractions
      found out of order, the counters grow by twice the number of swaps in
      total, and each fraction's counter grows by the number of swaps it took
      part in. */
  lemma BubbleSortFlips(fracs: seq<Fraction>, ids: seq<int>, counts: seq<int>)
    requires |counts| == |fracs|
    ensures GenuineSwaps(fracs, BubbleRun(fracs, Run(ids, counts, [])).swaps)
    ensures Sum(BubbleRun(fracs, Run(ids, counts, [])).flips)
         == Sum(counts) + 2 * |BubbleRun(fracs, Run(ids, counts, [])).swaps|
    ensures Counted(counts, BubbleRun(fracs, Run(ids, counts, [])))
  {
    var run := Run(ids, counts, []);
    if |ids| > 0 {
      PassesGenuine(fracs, run, |ids| - 1);
      PassesSum(fracs, run, |ids| - 1);
      PassesCounted(fracs, counts, run, |ids| - 1);
    }
  }

  // ---------------------------------------------------------------------------
  // Back-pointers.

  /** `back[o]` is the final slot of the fraction that started in slot o. */
  predicate BackPointers(original: seq<int>, sorted: seq<int>, back: seq<int>) {
    |back| == |original|
    && forall o :: 0 <= o < |back| ==> 0 <= back[o] < |sorted| && sorted[back[o]] == original[o]
  }

  /** For distinct ids sorted into a permutation, the back-pointers form a
      bijection between the original slots and the final slots. */
  lemma BackPointersBijective(original: seq<int>, sorted: seq<int>, back: seq<int>)
    requires Distinct(original) && Distinct(sorted) && multiset(sorted) == multiset(original)
    requires BackPointers(original, sorted, back)
    ensures Distinct(back)
    ensures forall k :: 0 <= k < |sorted| ==> k in back
  {
    forall k | 0 <= k < |sorted|
      ensures k in back
    {
      assert sorted[k] in multiset(original);
      var o :| 0 <= o < |original| && original[o] == sorted[k];
      assert sorted[back[o]] == sorted[k];
      assert back[o] == k;
    }
  }

  /** On input already in order the sort changes nothing, so every
      back-pointer points at its own slot and no counter moves. */
  lemma BackPointersOnSorted(fracs: seq<Fraction>, ids: seq<int>, counts: seq<int>, back: seq<int>)
    requires Distinct(ids) && SortedBySnake(fracs, ids)
    requires BackPointers(ids, BubbleRun(fracs, Run(ids, counts, [])).slots, back)
    ensures BubbleRun(fracs, Run(ids, counts, [])).flips == counts
    ensures forall o :: 0 <= o < |back| ==> back[o] == o
  {
    BubbleSortOnSorted(fracs, Run(ids, counts, []));
    forall o | 0 <= o < |back|
      ensures back[o] == o
    {
      assert ids[back[o]] == ids[o];
    }
  }

  /** With distinct ids, the back-pointers are determined by where the sort
      put each fraction. */
  lemma BackPointersUnique(original: seq<int>, sorted: seq<int>, back: seq<int>, back': seq<int>)
    requires Distinct(sorted)
    requires BackPointers(original, sorted, back) && BackPointers(original, sorted, back')
    ensures back == back'
  {
    forall o | 0 <= o < |back|
      ensures back[o] == back'[o]
    {
      assert sorted[back[o]] == sorted[back'[o]];
    }
  }

  /** 1/2, 2/3, 1/3 is sorted into 1/2, 1/3, 2/3: one swap, one flip each
      for 2/3 and 1/3, and the back-pointers send slot 1 to slot 2 and slot 2
      to slot 1. */
  lemma ThreeFractions(back: seq<int>)
    requires BackPointers([0, 1, 2], BubbleRun([Fraction(1, 2), Fraction(2, 3), Fraction(1, 3)], Run([0, 1, 2], [0, 0, 0], [])).slots, back)
    ensures BubbleRun([Fraction(1, 2), Fraction(2, 3), Fraction(1, 3)], Run([0, 1, 2], [0, 0, 0], [])).slots == [0, 2, 1]
    ensures BubbleRun([Fraction(1, 2), Fraction(2, 3), Fraction(1, 3)], Run([0, 1, 2], [0, 0, 0], [])).flips == [0, 1, 1]
    ensures back == [0, 2, 1]
  {
    var fracs := [Fraction(1, 2), Fraction(2, 3), Fraction(1, 3)];
    var start := Run([0, 1, 2], [0, 0, 0], []);
    var afterFirst := Run([0, 2, 1], [0, 1, 1], [(2, 1)]);
    assert Pass(fracs, start, 1) == start;
    assert Pass(fracs, start, 2) == afterFirst;
    assert Passes(fracs, start, 1) == afterFirst;
    assert Pass(fracs, afterFirst, 1) == afterFirst;
    assert Passes(fracs, start, 2) == afterFirst;
    BackPointersUnique([0, 1, 2], [0, 2, 1], back, [0, 2, 1]);
  }

  // ---------------------------------------------------------------------------
  // The imperative routine.

  /** One flip more for the fraction `id`. */
  method BumpFlip(flips: array<int>, id: int)
    requires 0 <= id < flips.Length
    modifies flips
    ensures flips[..] == Bump(old(flips[..]), id)
  {
    flips[id] := flips[id] + 1;
  }

  /** The body of the inner loop at index j: compare the fractions in slots
      j+1 and j, and when the later one must come first swap the two slots
      and count one flip for each of the two fractions. */
  method CompareExchange(fracs: seq<Fraction>, flips: array<int>, order: array<int>, j: int, ghost run: Run)
    requires 0 <= j && j + 1 < order.Length && ValidIds(fracs, order[..])
    requires flips.Length == |fracs| && flips != order
    requires run.slots == order[..] && run.flips == flips[..]
    modifies order, flips
    ensures order[..] == Step(fracs, run, j + 1).slots
    ensures flips[..] == Step(fracs, run, j + 1).flips
  {
    if Precedes(fracs[order[j + 1]], fracs[order[j]]) {
      order[j], order[j + 1] := order[j + 1], order[j];
      BumpFlip(flips, order[j]);
      BumpFlip(flips, order[j + 1]);
    }
  }

  /** One pass of the inner loop, over the slots [0, last]. */
  method BubblePass(fracs: seq<Fraction>, flips: array<int>, order: array<int>, last: int, ghost run: Run)
    requires 0 <= last < order.Length && ValidIds(fracs, order[..])
    requires flips.Length == |fracs| && flips != order
    requires run.slots == order[..] && run.flips == flips[..]
    modifies order, flips
    ensures order[..] == Pass(fracs, run, last).slots
    ensures flips[..] == Pass(fracs, run, last).flips
  {
    var j := 0;
    while j < last
      invariant 0 <= j <= last
      invariant order[..] == Pass(fracs, run, j).slots
      invariant flips[..] == Pass(fracs, run, j).flips
    {
      PassValid(fracs, run, j);
      CompareExchange(fracs, flips, order, j, Pass(fracs, run, j));
      j := j + 1;
    }
  }

  /** Pass i of the outer loop, taking the state left by the first i passes
      to the one left by the first i+1. */
  method NextPass(fracs: seq<Fraction>, flips: array<int>, order: array<int>, ghost start: Run, i: int)
    requires 0 <= i && i + 1 < order.Length == |start.slots| && ValidIds(fracs, start.slots)
    requires flips.Length == |fracs| && flips != order
    requires order[..] == Passes(fracs, start, i).slots && flips[..] == Passes(fracs, start, i).flips
    modifies order, flips
    ensures order[..] == Passes(fracs, start, i + 1).slots
    ensures flips[..] == Passes(fracs, start, i + 1).flips
  {
    PassesValid(fracs, start, i);
    BubblePass(fracs, flips, order, order.Length - i - 1, Passes(fracs, start, i));
  }

  /** The outer loop: passes 0 .. n-2, pass i running the inner loop over the
      slots [0, n-1-i]. */
  method BubblePasses(fracs: seq<Fraction>, flips: array<int>, order: array<int>)
    requires ValidIds(fracs, order[..]) && flips.Length == |fracs| && flips != order
    modifies order, flips
    ensures order[..] == BubbleRun(fracs, Run(old(order[..]), old(flips[..]), [])).slots
    ensures flips[..] == BubbleRun(fracs, Run(old(order[..]), old(flips[..]), [])).flips
  {
    ghost var start := Run(order[..], flips[..], []);
    var n := order.Length;
    var i := 0;
    while i < n - 1
      invariant 0 <= i && (i == 0 || i < n)
      invariant order[..] == Passes(fracs, start, i).slots
      invariant flips[..] == Passes(fracs, start, i).flips
    {
      NextPass(fracs, flips, order, start, i);
      i := i + 1;
    }
  }

  /** The back-pointers of the original slots whose fractions lie in the
      final slots [0, k) are set. */
  predicate Resolved(original: seq<int>, sorted: seq<int>, back: seq<int>, k: int)
    requires |original| == |back| && 0 <= k <= |sorted|
  {
    forall o :: 0 <= o < |original| && original[o] in sorted[..k] ==>
      0 <= back[o] < k && sorted[back[o]] == original[o]
  }

  lemma ResolvedStep(original: seq<int>, sorted: seq<int>, back: seq<int>, k: int, o: int)
    requires |original| == |back| && 0 <= k < |sorted| && Distinct(original) && Distinct(sorted)
    requires Resolved(original, sorted, back, k)
    requires 0 <= o < |original| && original[o] == sorted[k]
    ensures Resolved(original, sorted, back[o := k], k + 1)
  {
    assert sorted[..k + 1] == sorted[..k] + [sorted[k]];
    assert sorted[k] !in sorted[..k];
  }

  lemma ResolvedSkip(original: seq<int>, sorted: seq<int>, back: seq<int>, k: int)
    requires |original| == |back| && 0 <= k < |sorted|
    requires Resolved(original, sorted, back, k)
    requires forall o :: 0 <= o < |original| ==> original[o] != sorted[k]
    ensures Resolved(original, sorted, back, k + 1)
  {
    assert sorted[..k + 1] == sorted[..k] + [sorted[k]];
  }

  lemma ResolvedAll(original: seq<int>, sorted: seq<int>, back: seq<int>)
    requires |original| == |back| == |sorted| && multiset(sorted) == multiset(original)
    requires Resolved(original, sorted, back, |sorted|)
    ensures BackPointers(original, sorted, back)
  {
    forall o | 0 <= o < |original|
      ensures original[o] in sorted[..|sorted|]
    {
      assert original[o] in multiset(original);
      assert sorted[..|sorted|] == sorted;
    }
  }

  /** The back-pointer loop: for each final slot k, find the original slot of
      the fraction now at k, point it at k, and stop searching. */
  method ResolveBackPointers(original: array<int>, order: array<int>, back: array<int>)
    requires original.Length == order.Length == back.Length
    requires back != original && back != order
    requires Distinct(original[..]) && Distinct(order[..]) && multiset(order[..]) == multiset(original[..])
    modifies back
    ensures BackPointers(original[..], order[..], back[..])
  {
    var n := order.Length;
    var k := 0;
    while k < n
      invariant 0 <= k <= n
      invariant Resolved(original[..], order[..], back[..], k)
    {
      var current := order[k];
      ghost var resolved := false;
      var origIdx := 0;
      while origIdx < n
        invariant 0 <= origIdx <= n && !resolved
        invariant Resolved(original[..], order[..], back[..], k)
        invariant forall o :: 0 <= o < origIdx ==> original[o] != current
      {
        if original[origIdx] == current {
          ResolvedStep(original[..], order[..], back[..], k, origIdx);
          back[origIdx] := k;
          resolved := true;
          break;
        }
        origIdx := origIdx + 1;
      }
      if !resolved {
        ResolvedSkip(original[..], order[..], back[..], k);
      }
      k := k + 1;
    }
    ResolvedAll(original[..], order[..], back[..]);
  }

  /** bubbleSortFractions: sorts the even slots, counts flips and sets the
      back-pointers. */
  method BubbleSortFractions(fracs: seq<Fraction>, flips: array<int>, order: array<int>, back: array<int>)
    requires order.Length == back.Length && flips.Length == |fracs|
    requires ValidIds(fracs, order[..]) && Distinct(order[..])
    requires flips != order && back != order && back != flips
    modifies flips, order, back
    ensures order[..] == BubbleRun(fracs, Run(old(order[..]), old(flips[..]), [])).slots
    ensures flips[..] == BubbleRun(fracs, Run(old(order[..]), old(flips[..]), [])).flips
    ensures BackPointers(old(order[..]), order[..], back[..])
  {
    ghost var start := Run(order[..], flips[..], []);
    var n := order.Length;
    var originalLocations := new int[n];
    var i := 0;
    while i < n
      invariant 0 <= i <= n
      invariant originalLocations[..i] == start.slots[..i]
      modifies originalLocations
    {
      originalLocations[i] := order[i];
      i := i + 1;
    }
    assert originalLocations[..] == start.slots;
    assert order[..] == start.slots && flips[..] == start.flips;
    BubblePasses(fracs, flips, order);
    assert order[..] == BubbleRun(fracs, start).slots;
    BubbleSortPermutes(fracs, start);
    BubbleSortKeepsDistinct(fracs, start);
    ResolveBackPointers(originalLocations, order, back);
  }
}
