// The integer parts of the image demo (q32_starter.cpp): the 256x256 centre
// crop of the loaded grayscale image and the 3x3 median filter with mirrored
// borders.  Images are row-major sequences of bytes, one per pixel.  The
// Gaussian noise, the blur (floating point) and PSNR are not modelled; the
// noisy image is an input of the filter.

module ImageDenoise {

  import opened Arith
  import opened Helpers

  /** Height and width of the cropped image (`const int H{ 256 }, W{ 256 }`). */
  const Size: int := 256

  /** The row-major index of pixel (row, col) in an image W pixels wide. */
  function Cell(row: int, col: int, W: int): (k: int)
    ensures 0 <= row && 0 <= col && 0 <= W ==> 0 <= k
  {
    row * W + col
  }

  /** Pixel (row, col) of a row-major W x H image. */
  function At(img: seq<byte>, W: int, H: int, row: int, col: int): byte
    requires |img| == W * H && 0 <= row < H && 0 <= col < W
  {
    GridIndex(row, col, W, H);
    img[row * W + col]
  }

  // ---------------------------------------------------------------------
  // Centre crop

  /** First row and first column of the crop (`H_in / 2 - H / 2`, `W_in / 2 - W / 2`). */
  function CropOrigin(n: int): int
  {
    n / 2 - Size / 2
  }

  /** The crop window lies inside an image at least 256 pixels across. */
  lemma CropInside(n: int, k: int)
    requires n >= Size && 0 <= k < Size
    ensures 0 <= CropOrigin(n) + k < n
  {
  }

  /** The source pixel that lands at row-major index j of the crop. */
  function CropSource(data: seq<byte>, Win: int, Hin: int, j: int): byte
    requires Win >= Size && Hin >= Size && |data| == Win * Hin && 0 <= j < Size * Size
  {
    GridCell(j, Size, Size);
    CropInside(Hin, j / Size);
    CropInside(Win, j % Size);
    At(data, Win, Hin, CropOrigin(Hin) + j / Size, CropOrigin(Win) + j % Size)
  }

  /** The first k pixels of the crop, in row-major order, are copied. */
  predicate CroppedUpTo(gt: seq<byte>, data: seq<byte>, Win: int, Hin: int, k: int)
    requires Win >= Size && Hin >= Size && |data| == Win * Hin && |gt| == Size * Size && 0 <= k <= Size * Size
  {
    forall j :: 0 <= j < k ==> gt[j] == CropSource(data, Win, Hin, j)
  }

  /**
   * The start of `main`: a failed load or an image smaller than 256x256 in
   * either direction ends the program with status 1; otherwise `I_gt` is
   * the centred 256x256 window of the source, copied row by row.  Every
   * read lies inside the W_in x H_in source.
   */
  method LoadAndCrop(data: array?<byte>, Win: int, Hin: int) returns (status: int, gt: array<byte>)
    requires data != null ==> Win >= 0 && Hin >= 0 && data.Length == Win * Hin
    ensures status == (if data != null && Win >= Size && Hin >= Size then 0 else 1)
    ensures status == 0 ==> data != null && gt.Length == Size * Size
    ensures status == 0 ==> forall r, c :: 0 <= r < Size && 0 <= c < Size ==>
      At(gt[..], Size, Size, r, c) == At(data[..], Win, Hin, CropOrigin(Hin) + r, CropOrigin(Win) + c)
  {
    gt := new byte[0];
    if data == null {
      return 1, gt;
    }
    if Win < 256 || Hin < 256 {
      return 1, gt;
    }
    var H, W := 256, 256;
    var r0, c0 := Hin / 2 - H / 2, Win / 2 - W / 2;
    gt := new byte[H * W](_ => 0);
    for r := 0 to H
      invariant CroppedUpTo(gt[..], data[..], Win, Hin, r * W)
    {
      // std::copy(src + c0, src + c0 + W, dst): row r0 + r of the source,
      // from column c0 on, into row r of the crop.
      for c := 0 to W
        invariant CroppedUpTo(gt[..], data[..], Win, Hin, r * W + c)
      {
        GridIndexInverse(r, c, W);
        GridIndex(r, c, W, H);
        GridIndex(r0 + r, c0 + c, Win, Hin);
        gt[r * W + c] := data[(r0 + r) * Win + c0 + c];
      }
    }
    forall r, c | 0 <= r < Size && 0 <= c < Size
      ensures At(gt[..], Size, Size, r, c) == At(data[..], Win, Hin, CropOrigin(Hin) + r, CropOrigin(Win) + c)
    {
      GridIndexInverse(r, c, Size);
      GridIndex(r, c, Size, Size);
    }
    status := 0;
  }

  // ---------------------------------------------------------------------
  // Sorting the window (std::sort)

  predicate SortedBytes(s: seq<byte>)
  {
    forall i, j :: 0 <= i < j < |s| ==> s[i] <= s[j]
  }

  /** `x` placed into the sorted `s`. */
  function Insert(x: byte, s: seq<byte>): (t: seq<byte>)
    requires SortedBytes(s)
    ensures |t| == |s| + 1 && (t[0] == x || (s != [] && t[0] == s[0]))
    ensures SortedBytes(t) && multiset(t) == multiset(s) + multiset{x}
  {
    if s == [] then [x]
    else if x <= s[0] then
      SortedCons(x, s);
      [x] + s
    else
      HeadTail(s);
      SortedTail(s);
      var u := Insert(x, s[1..]);
      SortedCons(s[0], u);
      [s[0]] + u
  }

  /** A value no greater than the head of a sorted sequence extends it. */
  lemma SortedCons(a: byte, u: seq<byte>)
    requires SortedBytes(u) && (u == [] || a <= u[0])
    ensures SortedBytes([a] + u)
  {
  }

  /** The values of `s` in ascending order, as `std::sort` leaves them. */
  function SortBytes(s: seq<byte>): (t: seq<byte>)
    ensures |t| == |s| && SortedBytes(t) && multiset(t) == multiset(s)
  {
    if s == [] then []
    else
      assert s == [s[0]] + s[1..];
      Insert(s[0], SortBytes(s[1..]))
  }

  /** The first element of a sorted sequence is at most each of its values. */
  lemma SortedHeadLeast(s: seq<byte>, v: byte)
    requires SortedBytes(s) && v in multiset(s)
    ensures s[0] <= v
  {
    assert v in s;
    var i :| 0 <= i < |s| && s[i] == v;
  }

  lemma HeadTail(s: seq<byte>)
    requires s != []
    ensures s == [s[0]] + s[1..] && s[0] in multiset(s)
    ensures multiset(s) == multiset{s[0]} + multiset(s[1..])
  {
    assert s == [s[0]] + s[1..];
  }

  lemma SortedTail(s: seq<byte>)
    requires s != [] && SortedBytes(s)
    ensures SortedBytes(s[1..])
  {
  }

  lemma MultisetCancel(a: byte, A: multiset<byte>, B: multiset<byte>)
    requires multiset{a} + A == multiset{a} + B
    ensures A == B
  {
    assert A == (multiset{a} + A) - multiset{a};
    assert B == (multiset{a} + B) - multiset{a};
  }

  /** A multiset has only one sorted arrangement, so whatever algorithm
      `std::sort` uses, it leaves the window exactly as SortBytes does. */
  lemma {:induction false} SortedUnique(s: seq<byte>, t: seq<byte>)
    requires SortedBytes(s) && SortedBytes(t) && multiset(s) == multiset(t)
    ensures s == t
    decreases |s|
  {
    if s != [] {
      assert |t| == |multiset(t)| == |multiset(s)| == |s|;
      HeadTail(s);
      HeadTail(t);
      SortedHeadLeast(s, t[0]);
      SortedHeadLeast(t, s[0]);
      MultisetCancel(s[0], multiset(s[1..]), multiset(t[1..]));
      SortedTail(s);
      SortedTail(t);
      SortedUnique(s[1..], t[1..]);
    }
  }

  // ---------------------------------------------------------------------
  // Median of the 3x3 neighbourhood

  /** `window`: the neighbourhood of (r, c) row by row, with rows r - 1 and
      r + 1 and columns c - 1 and c + 1 reflected into the image. */
  function Window(img: seq<byte>, W: int, H: int, r: int, c: int): (w: seq<byte>)
    requires |img| == W * H && 0 <= r < H && 0 <= c < W
    ensures |w| == 9
  {
    var r0, r2 := Reflect(r - 1, H), Reflect(r + 1, H);
    var c0, c2 := Reflect(c - 1, W), Reflect(c + 1, W);
    [At(img, W, H, r0, c0), At(img, W, H, r0, c), At(img, W, H, r0, c2),
     At(img, W, H, r, c0), At(img, W, H, r, c), At(img, W, H, r, c2),
     At(img, W, H, r2, c0), At(img, W, H, r2, c), At(img, W, H, r2, c2)]
  }

  /** `window[4]` after sorting: the element of rank 4 of the nine. */
  function Median(w: seq<byte>): byte
    requires |w| == 9
  {
    SortBytes(w)[4]
  }

  /** How many values of `s` are at most `v`, and how many at least `v`. */
  function CountAtMost(s: seq<byte>, v: byte): nat
  {
    if s == [] then 0 else CountAtMost(s[1..], v) + (if s[0] <= v then 1 else 0)
  }

  function CountAtLeast(s: seq<byte>, v: byte): nat
  {
    if s == [] then 0 else CountAtLeast(s[1..], v) + (if s[0] >= v then 1 else 0)
  }

  lemma {:induction false} CountConcat(s: seq<byte>, t: seq<byte>, v: byte)
    ensures CountAtMost(s + t, v) == CountAtMost(s, v) + CountAtMost(t, v)
    ensures CountAtLeast(s + t, v) == CountAtLeast(s, v) + CountAtLeast(t, v)
  {
    if s != [] {
      assert (s + t)[0] == s[0] && (s + t)[1..] == s[1..] + t;
      CountConcat(s[1..], t, v);
    } else {
      assert s + t == t;
    }
  }

  /** The counts depend only on the multiset of values. */
  lemma {:induction false} CountPermutation(s: seq<byte>, t: seq<byte>, v: byte)
    requires multiset(s) == multiset(t)
    ensures CountAtMost(s, v) == CountAtMost(t, v)
    ensures CountAtLeast(s, v) == CountAtLeast(t, v)
    decreases |s|
  {
    if s != [] {
      assert s[0] in multiset(t);
      var i :| 0 <= i < |t| && t[i] == s[0];
      var rest := t[..i] + t[i + 1..];
      assert t == t[..i] + ([t[i]] + t[i + 1..]);
      assert s == [s[0]] + s[1..];
      assert multiset(s[1..]) == multiset(rest) by {
        assert multiset(t) == multiset(t[..i]) + multiset{t[i]} + multiset(t[i + 1..]);
        assert multiset(rest) == multiset(t[..i]) + multiset(t[i + 1..]);
        assert multiset(s) == multiset{s[0]} + multiset(s[1..]);
        assert multiset(t) == multiset{s[0]} + multiset(rest);
        MultisetCancel(s[0], multiset(s[1..]), multiset(rest));
      }
      CountPermutation(s[1..], rest, v);
      CountConcat(t[..i], [t[i]] + t[i + 1..], v);
      CountConcat([t[i]], t[i + 1..], v);
      CountConcat(t[..i], t[i + 1..], v);
    }
  }

  /** When all values of `s` are at most `v`, all of them are counted. */
  lemma {:induction false} CountAllAtMost(s: seq<byte>, v: byte)
    requires forall k :: 0 <= k < |s| ==> s[k] <= v
    ensures CountAtMost(s, v) == |s|
  {
    if s != [] {
      CountAllAtMost(s[1..], v);
    }
  }

  lemma {:induction false} CountAllAtLeast(s: seq<byte>, v: byte)
    requires forall k :: 0 <= k < |s| ==> s[k] >= v
    ensures CountAtLeast(s, v) == |s|
  {
    if s != [] {
      CountAllAtLeast(s[1..], v);
    }
  }

  /**
   * The value written for each pixel is a median of its nine neighbours:
   * it is one of them, at least five of them are no greater and at least
   * five are no smaller; so it lies between their minimum and maximum.
   */
  lemma MedianRank(w: seq<byte>)
    requires |w| == 9
    ensures Median(w) in multiset(w)
    ensures CountAtMost(w, Median(w)) >= 5 && CountAtLeast(w, Median(w)) >= 5
  {
    var t := SortBytes(w);
    assert t[4] in multiset(t);
    SortedRank(t);
    CountPermutation(t, w, t[4]);
  }

  /** In nine sorted values, the fifth has five values on either side of it, itself included. */
  lemma SortedRank(t: seq<byte>)
    requires |t| == 9 && SortedBytes(t)
    ensures CountAtMost(t, t[4]) >= 5 && CountAtLeast(t, t[4]) >= 5
  {
    var m := t[4];
    var lo, hi := t[..5], t[5..];
    assert forall k :: 0 <= k < |lo| ==> lo[k] <= m by {
      forall k | 0 <= k < |lo| ensures lo[k] <= m {
        assert lo[k] == t[k];
      }
    }
    CountAllAtMost(lo, m);
    assert t == lo + hi;
    CountConcat(lo, hi, m);
    lo, hi := t[..4], t[4..];
    assert forall k :: 0 <= k < |hi| ==> hi[k] >= m by {
      forall k | 0 <= k < |hi| ensures hi[k] >= m {
        assert hi[k] == t[k + 4];
      }
    }
    CountAllAtLeast(hi, m);
    assert t == lo + hi;
    CountConcat(lo, hi, m);
  }

  /** The median lies within any bounds that hold for all nine values, so
      between their minimum and their maximum. */
  lemma MedianBounded(w: seq<byte>, lo: byte, hi: byte)
    requires |w| == 9
    ensures (forall k :: 0 <= k < 9 ==> lo <= w[k]) ==> lo <= Median(w)
    ensures (forall k :: 0 <= k < 9 ==> w[k] <= hi) ==> Median(w) <= hi
  {
    MedianRank(w);
  }

  /** A neighbourhood of one value has that value as its median. */
  lemma MedianOfConstant(w: seq<byte>, v: byte)
    requires |w| == 9 && forall k :: 0 <= k < 9 ==> w[k] == v
    ensures Median(w) == v
  {
    MedianRank(w);
  }

  /** The filter maps a constant image to itself. */
  lemma ConstantImageFixed(img: seq<byte>, W: int, H: int, v: byte, r: int, c: int)
    requires |img| == W * H && 0 <= r < H && 0 <= c < W
    requires forall i, j :: 0 <= i < H && 0 <= j < W ==> At(img, W, H, i, j) == v
    ensures Median(Window(img, W, H, r, c)) == v
  {
    var w := Window(img, W, H, r, c);
    MedianOfConstant(w, v);
  }

  /** `want` holds, row by row, the median of every pixel's neighbourhood in `noisy`. */
  predicate IsFiltered(want: seq<seq<byte>>, noisy: seq<byte>, W: int, H: int)
    requires |noisy| == W * H
  {
    |want| == H && (forall i :: 0 <= i < H ==> |want[i]| == W) &&
    forall i, j {:trigger Window(noisy, W, H, i, j)} :: 0 <= i < H && 0 <= j < W ==>
      want[i][j] == Median(Window(noisy, W, H, i, j))
  }

  /** The median written for pixel (i, j); 0 off the image. */
  function MedianCell(noisy: seq<byte>, W: int, H: int, i: int, j: int): byte
  {
    if |noisy| == W * H && 0 <= i < H && 0 <= j < W then Median(Window(noisy, W, H, i, j)) else 0
  }

  function MedianRow(noisy: seq<byte>, W: nat, H: int, i: int): seq<byte>
  {
    seq(W, j => MedianCell(noisy, W, H, i, j))
  }

  /** The filtered image: the medians of all neighbourhoods. */
  lemma FilteredImage(noisy: seq<byte>, W: int, H: int) returns (want: seq<seq<byte>>)
    requires W >= 1 && H >= 1 && |noisy| == W * H
    ensures IsFiltered(want, noisy, W, H)
  {
    want := seq(H, i => MedianRow(noisy, W, H, i));
    forall i, j | 0 <= i < H && 0 <= j < W
      ensures want[i][j] == Median(Window(noisy, W, H, i, j))
    {
      assert want[i] == MedianRow(noisy, W, H, i);
      assert want[i][j] == MedianCell(noisy, W, H, i, j);
    }
  }

  /** The pixels of `med` whose row-major index is below k hold their medians. */
  predicate FilteredUpTo(med: seq<byte>, want: seq<seq<byte>>, W: int, H: int, k: int)
    requires |med| == W * H && |want| == H && forall i :: 0 <= i < H ==> |want[i]| == W
  {
    forall i, j :: 0 <= i < H && 0 <= j < W && Cell(i, j, W) < k ==> At(med, W, H, i, j) == want[i][j]
  }

  /**
   * The body of the filter's inner loop up to the store: the window of
   * (r, c), read through `reflect_index`, sorted, and its middle value.
   */
  method WindowMedian(noisy: array<byte>, W: int, H: int, r: int, c: int) returns (m: byte)
    requires W >= 1 && H >= 1 && noisy.Length == W * H
    requires 0 <= r < H && 0 <= c < W
    ensures m == Median(Window(noisy[..], W, H, r, c))
  {
    var r0 := ReflectIndex(r - 1, H);
    var r1 := r;
    var r2 := ReflectIndex(r + 1, H);
    var c0 := ReflectIndex(c - 1, W);
    var c1 := c;
    var c2 := ReflectIndex(c + 1, W);
    var img := noisy[..];
    var window := [At(img, W, H, r0, c0), At(img, W, H, r0, c1), At(img, W, H, r0, c2),
                   At(img, W, H, r1, c0), At(img, W, H, r1, c1), At(img, W, H, r1, c2),
                   At(img, W, H, r2, c0), At(img, W, H, r2, c1), At(img, W, H, r2, c2)];
    assert window == Window(img, W, H, r, c);
    var sorted := SortBytes(window);
    m := sorted[4];
  }

  /** The median of (r, c), as the filtered image holds it. */
  method FilteredPixel(noisy: array<byte>, W: int, H: int, r: int, c: int, ghost img: seq<byte>, ghost want: seq<seq<byte>>)
    returns (m: byte)
    requires W >= 1 && H >= 1 && noisy.Length == W * H && noisy[..] == img
    requires 0 <= r < H && 0 <= c < W && IsFiltered(want, img, W, H)
    ensures m == want[r][c]
  {
    m := WindowMedian(noisy, W, H, r, c);
  }

  /** One step of the filter: pixel (r, c) of `I_med` receives its median `m`. */
  method StorePixel(med: array<byte>, W: int, H: int, r: int, c: int, m: byte, ghost want: seq<seq<byte>>)
    requires W >= 1 && H >= 1 && med.Length == W * H
    requires |want| == H && (forall i :: 0 <= i < H ==> |want[i]| == W)
    requires 0 <= r < H && 0 <= c < W && m == want[r][c]
    requires FilteredUpTo(med[..], want, W, H, Cell(r, c, W))
    modifies med
    ensures FilteredUpTo(med[..], want, W, H, Cell(r, c, W) + 1)
  {
    GridIndex(r, c, W, H);
    var k := r * W + c;
    ghost var before := med[..];
    med[k] := m;
    assert med[..] == before[k := m];
    forall i, j | 0 <= i < H && 0 <= j < W && Cell(i, j, W) < k + 1
      ensures At(med[..], W, H, i, j) == want[i][j]
    {
      GridIndex(i, j, W, H);
      if Cell(i, j, W) == k {
        GridIndexInverse(i, j, W);
        GridIndexInverse(r, c, W);
      } else {
        assert At(med[..], W, H, i, j) == before[Cell(i, j, W)] == At(before, W, H, i, j);
      }
    }
  }

  /**
   * The loops of the filter: every pixel of `med`, in row-major order,
   * receives the value the filtered image holds for it.
   */
  method FilterInto(noisy: array<byte>, med: array<byte>, W: int, H: int, ghost img: seq<byte>, ghost want: seq<seq<byte>>)
    requires W >= 1 && H >= 1 && noisy.Length == W * H == med.Length && med != noisy
    requires noisy[..] == img && IsFiltered(want, img, W, H)
    modifies med
    ensures FilteredUpTo(med[..], want, W, H, W * H)
  {
    for r := 0 to H
      invariant noisy[..] == img
      invariant FilteredUpTo(med[..], want, W, H, r * W)
    {
      for c := 0 to W
        invariant noisy[..] == img
        invariant FilteredUpTo(med[..], want, W, H, r * W + c)
      {
        var m := FilteredPixel(noisy, W, H, r, c, img, want);
        StorePixel(med, W, H, r, c, m, want);
      }
      assert r * W + W == (r + 1) * W;
    }
    assert H * W == W * H;
  }

  /**
   * The 3x3 median filter of `main`: `I_med` starts as a copy of
   * `I_noisy`, and each pixel, visited once in row-major order, receives
   * the median of its mirrored neighbourhood in `I_noisy`, which is only
   * read.
   */
  method MedianFilter(noisy: array<byte>, W: int, H: int) returns (med: array<byte>)
    requires W >= 1 && H >= 1 && noisy.Length == W * H
    ensures fresh(med) && med.Length == W * H
    ensures forall r, c :: 0 <= r < H && 0 <= c < W ==>
      At(med[..], W, H, r, c) == Median(Window(noisy[..], W, H, r, c))
  {
    ghost var img := noisy[..];
    ghost var want := FilteredImage(img, W, H);
    med := new byte[noisy.Length](i requires 0 <= i < noisy.Length reads noisy => noisy[i]);
    FilterInto(noisy, med, W, H, img, want);
    forall r, c | 0 <= r < H && 0 <= c < W
      ensures At(med[..], W, H, r, c) == Median(Window(noisy[..], W, H, r, c))
    {
      GridIndex(r, c, W, H);
    }
  }
}
