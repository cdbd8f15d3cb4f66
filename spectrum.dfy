/** The integer and layout part of get_dft: zero padding of the grey image to
    the transform size, cropping of the spectrum to even size and the in-place
    quadrant swap that moves the zero frequency to the centre. The transform
    itself, the magnitude and both logarithms are floating point and are not
    part of this model; the swap is modelled over any element type. */
module Spectrum {
  import opened Wrappers
  import opened Grid

  // ---------------------------------------------------------------- padding

  /** cv2.copyMakeBorder(I, 0, m - rows, 0, n - cols, BORDER_CONSTANT, 0):
      zeros are added at the bottom and on the right only. A negative border
      (a target size smaller than the image) fails OpenCV's own check. */
  function Pad(g: seq<seq<int>>, rows: nat, cols: nat, m: int, n: int): (r: Result<seq<seq<int>>>)
    requires IsGrid(g, rows, cols)
    ensures r.Ok? <==> rows <= m && cols <= n
    ensures r.Ok? ==> IsGrid(r.value, m, n)
    ensures r.Ok? ==> forall i, j :: 0 <= i < rows && 0 <= j < cols ==> r.value[i][j] == g[i][j]
    ensures r.Ok? ==> forall i, j :: 0 <= i < m && 0 <= j < n && (rows <= i || cols <= j) ==> r.value[i][j] == 0
  {
    if rows <= m && cols <= n then
      Ok(seq(m, i requires 0 <= i < m =>
        seq(n, j requires 0 <= j < n => if i < rows && j < cols then g[i][j] else 0)))
    else Err(ValueError)
  }

  /** Cropping the padded image back to the original size gives the original. */
  lemma PadThenCrop(g: seq<seq<int>>, rows: nat, cols: nat, m: int, n: int)
    requires IsGrid(g, rows, cols) && rows <= m && cols <= n
    ensures Pad(g, rows, cols, m, n).Ok?
    ensures Crop(Pad(g, rows, cols, m, n).value, rows, cols) == g
  {
    var p := Pad(g, rows, cols, m, n).value;
    var c := Crop(p, rows, cols);
    forall i | 0 <= i < rows ensures c[i] == g[i] {
      assert forall j :: 0 <= j < cols ==> c[i][j] == g[i][j];
    }
  }

  // ---------------------------------------------------------------- cropping

  /** n & -2 for a non-negative n: bit 0 cleared, so an odd size loses one. */
  function EvenPart(n: nat): (e: nat)
    ensures e <= n && n - e <= 1 && e % 2 == 0
    ensures e == 2 * (n / 2)
  {
    n - n % 2
  }

  // ---------------------------------------------------------------- the quadrant swap as a function

  /** s[k:] + s[:k], a cyclic shift left by k. */
  function Rotated<T>(s: seq<T>, k: nat): (r: seq<T>)
    requires k <= |s|
    ensures |r| == |s|
  {
    s[k..] + s[..k]
  }

  lemma ModOfSmall(x: int, m: int)
    requires 0 <= x < m
    ensures x % m == x
  {
  }

  lemma ModOfWrap(x: int, m: int)
    requires m <= x < 2 * m
    ensures x % m == x - m
  {
    var q, r := x / m, x % m;
    assert x == m * q + r;
    assert m * q > 0 && m * q < 2 * m;
    assert m * (q - 1) < m;
  }

  lemma RotatedAt<T>(s: seq<T>, k: nat, i: nat)
    requires k <= |s| && i < |s|
    ensures Rotated(s, k)[i] == s[(i + k) % |s|]
  {
    if i + k < |s| {
      ModOfSmall(i + k, |s|);
    } else {
      ModOfWrap(i + k, |s|);
    }
  }

  /** Adding half the period wraps to the other half. */
  lemma HalfStep(i: nat, c: nat)
    requires i < 2 * c
    ensures (i + c) % (2 * c) == if i < c then i + c else i - c
  {
    if i < c { ModOfSmall(i + c, 2 * c); } else { ModOfWrap(i + c, 2 * c); }
  }

  /** The spectrum after the swap, for a 2cx-by-2cy grid: rows and then every
      row shifted cyclically by half their count. */
  function Shift<T>(g: seq<seq<T>>, cx: nat, cy: nat): seq<seq<T>>
    requires IsGrid(g, 2 * cx, 2 * cy)
  {
    Rotated(seq(2 * cx, i requires 0 <= i < 2 * cx => Rotated(g[i], cy)), cx)
  }

  /** Cell (i, j) of the swapped spectrum is cell ((i+cx) mod 2cx, (j+cy) mod 2cy)
      of the input: the top-left and bottom-right quadrants trade places, and
      so do the other two. */
  lemma ShiftAt<T>(g: seq<seq<T>>, cx: nat, cy: nat, i: nat, j: nat)
    requires IsGrid(g, 2 * cx, 2 * cy) && i < 2 * cx && j < 2 * cy
    ensures IsGrid(Shift(g, cx, cy), 2 * cx, 2 * cy)
    ensures Shift(g, cx, cy)[i][j] == g[(i + cx) % (2 * cx)][(j + cy) % (2 * cy)]
  {
    ShiftShape(g, cx, cy);
    var rows := seq(2 * cx, i requires 0 <= i < 2 * cx => Rotated(g[i], cy));
    RotatedAt(rows, cx, i);
    var k := (i + cx) % (2 * cx);
    RotatedAt(g[k], cy, j);
  }

  lemma ShiftShape<T>(g: seq<seq<T>>, cx: nat, cy: nat)
    requires IsGrid(g, 2 * cx, 2 * cy)
    ensures IsGrid(Shift(g, cx, cy), 2 * cx, 2 * cy)
  {
    var s := Shift(g, cx, cy);
    forall i | 0 <= i < 2 * cx ensures |s[i]| == 2 * cy {
      var rows := seq(2 * cx, i requires 0 <= i < 2 * cx => Rotated(g[i], cy));
      RotatedAt(rows, cx, i);
    }
  }

  /** Adding half the period twice returns to the start. */
  lemma HalfPeriodTwice(i: nat, c: nat)
    requires i < 2 * c
    ensures ((i + c) % (2 * c) + c) % (2 * c) == i
  {
    HalfStep(i, c);
    HalfStep((i + c) % (2 * c), c);
  }

  /** Swapping the quadrants twice restores the spectrum. */
  lemma ShiftInvolution<T>(g: seq<seq<T>>, cx: nat, cy: nat)
    requires IsGrid(g, 2 * cx, 2 * cy)
    ensures IsGrid(Shift(g, cx, cy), 2 * cx, 2 * cy)
    ensures Shift(Shift(g, cx, cy), cx, cy) == g
  {
    ShiftShape(g, cx, cy);
    var s := Shift(g, cx, cy);
    ShiftShape(s, cx, cy);
    var ss := Shift(s, cx, cy);
    forall i | 0 <= i < 2 * cx ensures ss[i] == g[i] {
      forall j | 0 <= j < 2 * cy ensures ss[i][j] == g[i][j] {
        var i' := (i + cx) % (2 * cx);
        var j' := (j + cy) % (2 * cy);
        ShiftAt(s, cx, cy, i, j);
        ShiftAt(g, cx, cy, i', j');
        HalfPeriodTwice(i, cx);
        HalfPeriodTwice(j, cy);
      }
    }
  }

  /** All cells of a grid, row after row. */
  function Flatten<T>(g: seq<seq<T>>): seq<T> {
    if g == [] then [] else g[0] + Flatten(g[1..])
  }

  lemma {:induction false} FlattenConcat<T>(a: seq<seq<T>>, b: seq<seq<T>>)
    ensures Flatten(a + b) == Flatten(a) + Flatten(b)
    decreases |a|
  {
    if a == [] {
      assert a + b == b;
    } else {
      FlattenConcat(a[1..], b);
      assert (a + b)[0] == a[0];
      assert (a + b)[1..] == a[1..] + b;
    }
  }

  lemma RotatedMultiset<T>(s: seq<T>, k: nat)
    requires k <= |s|
    ensures multiset(Rotated(s, k)) == multiset(s)
  {
    assert s == s[..k] + s[k..];
  }

  lemma {:induction false} RotatedRowsMultiset<T>(g: seq<seq<T>>, k: nat)
    requires forall i :: 0 <= i < |g| ==> k <= |g[i]|
    ensures multiset(Flatten(seq(|g|, i requires 0 <= i < |g| => Rotated(g[i], k)))) == multiset(Flatten(g))
    decreases |g|
  {
    var rows := seq(|g|, i requires 0 <= i < |g| => Rotated(g[i], k));
    if g != [] {
      RotatedRowsMultiset(g[1..], k);
      assert rows[1..] == seq(|g[1..]|, i requires 0 <= i < |g[1..]| => Rotated(g[1..][i], k));
      RotatedMultiset(g[0], k);
    }
  }

  /** The swap only moves cells: the multiset of values is unchanged. */
  lemma ShiftMultiset<T>(g: seq<seq<T>>, cx: nat, cy: nat)
    requires IsGrid(g, 2 * cx, 2 * cy)
    ensures multiset(Flatten(Shift(g, cx, cy))) == multiset(Flatten(g))
  {
    var rows := seq(2 * cx, i requires 0 <= i < 2 * cx => Rotated(g[i], cy));
    RotatedRowsMultiset(g, cy);
    FlattenConcat(rows[cx..], rows[..cx]);
    FlattenConcat(rows[..cx], rows[cx..]);
    assert rows[..cx] + rows[cx..] == rows;
  }

  // ---------------------------------------------------------------- the swap in place

  /** The cells of a 2-D array, as a grid. */
  ghost function Cells<T>(a: array2<T>): (g: seq<seq<T>>)
    reads a
    ensures IsGrid(g, a.Length0, a.Length1)
    ensures forall i, j :: 0 <= i < a.Length0 && 0 <= j < a.Length1 ==> g[i][j] == a[i, j]
  {
    seq(a.Length0, i requires 0 <= i < a.Length0 reads a =>
      seq(a.Length1, j requires 0 <= j < a.Length1 reads a => a[i, j]))
  }

  /** np.copy(a[r0:r0+h, c0:c0+w]). */
  method CopyBlock<T(0)>(a: array2<T>, r0: nat, c0: nat, h: nat, w: nat) returns (tmp: array2<T>)
    requires r0 + h <= a.Length0 && c0 + w <= a.Length1
    ensures fresh(tmp) && tmp.Length0 == h && tmp.Length1 == w
    ensures forall i, j :: 0 <= i < h && 0 <= j < w ==> tmp[i, j] == a[r0 + i, c0 + j]
  {
    tmp := new T[h, w];
    for i := 0 to h
      invariant forall p, q :: 0 <= p < i && 0 <= q < w ==> tmp[p, q] == a[r0 + p, c0 + q]
    {
      for j := 0 to w
        invariant forall p, q :: 0 <= p < i && 0 <= q < w ==> tmp[p, q] == a[r0 + p, c0 + q]
        invariant forall q :: 0 <= q < j ==> tmp[i, q] == a[r0 + i, c0 + q]
      {
        tmp[i, j] := a[r0 + i, c0 + j];
      }
    }
  }

  /** (p, q) lies in the h-by-w window whose top-left cell is (r0, c0). */
  predicate InWindow(p: int, q: int, r0: int, c0: int, h: int, w: int) {
    r0 <= p < r0 + h && c0 <= q < c0 + w
  }

  /** The slice assignment dst[r0:r0+h, c0:c0+w] = src[s0:s0+h, t0:t0+w], where
      src may be a view of dst over a disjoint window. */
  method AssignBlock<T>(dst: array2<T>, r0: nat, c0: nat, src: array2<T>, s0: nat, t0: nat, h: nat, w: nat)
    requires r0 + h <= dst.Length0 && c0 + w <= dst.Length1
    requires s0 + h <= src.Length0 && t0 + w <= src.Length1
    requires src == dst ==> r0 + h <= s0 || s0 + h <= r0 || c0 + w <= t0 || t0 + w <= c0
    modifies dst
    ensures forall p, q :: InWindow(p, q, r0, c0, h, w) ==> dst[p, q] == old(src[p - r0 + s0, q - c0 + t0])
    ensures forall p, q :: 0 <= p < dst.Length0 && 0 <= q < dst.Length1 && !InWindow(p, q, r0, c0, h, w)
              ==> dst[p, q] == old(dst[p, q])
  {
    for i := 0 to h
      invariant forall p, q :: InWindow(p, q, r0, c0, i, w) ==> dst[p, q] == old(src[p - r0 + s0, q - c0 + t0])
      invariant forall p, q :: 0 <= p < dst.Length0 && 0 <= q < dst.Length1 && !InWindow(p, q, r0, c0, i, w)
                  ==> dst[p, q] == old(dst[p, q])
    {
      for j := 0 to w
        invariant forall p, q :: InWindow(p, q, r0, c0, i, w) ==> dst[p, q] == old(src[p - r0 + s0, q - c0 + t0])
        invariant forall p, q :: InWindow(p, q, r0 + i, c0, 1, j) ==> dst[p, q] == old(src[p - r0 + s0, q - c0 + t0])
        invariant forall p, q :: 0 <= p < dst.Length0 && 0 <= q < dst.Length1
                    && !InWindow(p, q, r0, c0, i, w) && !InWindow(p, q, r0 + i, c0, 1, j)
                    ==> dst[p, q] == old(dst[p, q])
      {
        dst[r0 + i, c0 + j] := src[s0 + i, t0 + j];
      }
    }
  }

  /** tmp = np.copy(a[window 0]); a[window 0] = a[window 1]; a[window 1] = tmp,
      for two disjoint h-by-w windows of a. */
  method ExchangeBlocks<T(0)>(a: array2<T>, r0: nat, c0: nat, r1: nat, c1: nat, h: nat, w: nat)
    requires r0 + h <= a.Length0 && c0 + w <= a.Length1
    requires r1 + h <= a.Length0 && c1 + w <= a.Length1
    requires r0 + h <= r1 || r1 + h <= r0 || c0 + w <= c1 || c1 + w <= c0
    modifies a
    ensures forall p, q :: InWindow(p, q, r0, c0, h, w) ==> a[p, q] == old(a[p - r0 + r1, q - c0 + c1])
    ensures forall p, q :: InWindow(p, q, r1, c1, h, w) ==> a[p, q] == old(a[p - r1 + r0, q - c1 + c0])
    ensures forall p, q :: 0 <= p < a.Length0 && 0 <= q < a.Length1
              && !InWindow(p, q, r0, c0, h, w) && !InWindow(p, q, r1, c1, h, w)
              ==> a[p, q] == old(a[p, q])
  {
    var tmp := CopyBlock(a, r0, c0, h, w);
    AssignBlock(a, r0, c0, a, r1, c1, h, w);
    AssignBlock(a, r1, c1, tmp, 0, 0, h, w);
  }

  /** The four quadrant assignments of get_dft on the window [0, 2cx) x [0, 2cy):
      top-left and bottom-right are exchanged through one copy, then the
      quadrants at (cx, 0) and (0, cy) through a second copy. */
  method SwapQuadrants<T(0)>(magI: array2<T>, cx: nat, cy: nat)
    requires 2 * cx <= magI.Length0 && 2 * cy <= magI.Length1
    modifies magI
    ensures forall i, j :: 0 <= i < 2 * cx && 0 <= j < 2 * cy ==>
              magI[i, j] == old(magI[(i + cx) % (2 * cx), (j + cy) % (2 * cy)])
    ensures forall i, j :: 0 <= i < magI.Length0 && 0 <= j < magI.Length1 && (2 * cx <= i || 2 * cy <= j)
              ==> magI[i, j] == old(magI[i, j])
  {
    ExchangeBlocks(magI, 0, 0, cx, cy, cx, cy);
    ExchangeBlocks(magI, cx, 0, 0, cy, cx, cy);
    forall i, j | 0 <= i < 2 * cx && 0 <= j < 2 * cy
      ensures magI[i, j] == old(magI[(i + cx) % (2 * cx), (j + cy) % (2 * cy)])
    {
      HalfStep(i, cx);
      HalfStep(j, cy);
    }
  }

  /** The post-processing of the magnitude plane in get_dft: cx and cy are half
      the plane's row and column counts (rounded down), the crop keeps the
      even-sized window of 2cx rows and 2cy columns, and inside it the quadrants
      are swapped in place. Cells outside the window are not part of the
      result and are left as they were. */
  method Recentre<T(0)>(magI: array2<T>) returns (cx: nat, cy: nat)
    modifies magI
    ensures 2 * cx == EvenPart(magI.Length0) && 2 * cy == EvenPart(magI.Length1)
    ensures Crop(Cells(magI), 2 * cx, 2 * cy) == Shift(Crop(old(Cells(magI)), 2 * cx, 2 * cy), cx, cy)
    ensures forall i, j :: 0 <= i < magI.Length0 && 0 <= j < magI.Length1 && (2 * cx <= i || 2 * cy <= j)
              ==> magI[i, j] == old(magI[i, j])
  {
    ghost var before := Crop(Cells(magI), 2 * (magI.Length0 / 2), 2 * (magI.Length1 / 2));
    cx := magI.Length0 / 2;
    cy := magI.Length1 / 2;
    SwapQuadrants(magI, cx, cy);
    var after := Crop(Cells(magI), 2 * cx, 2 * cy);
    ShiftShape(before, cx, cy);
    var shifted := Shift(before, cx, cy);
    forall i | 0 <= i < 2 * cx ensures after[i] == shifted[i] {
      forall j | 0 <= j < 2 * cy ensures after[i][j] == shifted[i][j] {
        ShiftAt(before, cx, cy, i, j);
      }
    }
  }
}
