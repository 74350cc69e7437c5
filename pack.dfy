/**
 * Model of `pack` (ufz/pack.py): the Fortran PACK intrinsic, without the
 * optional vector argument, with a mask that covers the trailing dimensions
 * of an n-dimensional array.
 *
 * Arrays are values: a shape and the elements flattened in row-major (C)
 * order, which is what numpy's `ravel()` produces with no order argument.
 * The method `Pack` follows the routine step by step and is proved equal to
 * the specification `PackSpec`; the lemmas state what `PackSpec` promises.
 */
module Pack {
  import opened Wrappers
  import opened Arithmetic

  /** The assertions that fail, and the division `narray // nmask` by zero. */
  datatype Error = TooFewDimensions | TrailingShapeMismatch | ZeroDivision

  /** An n-dimensional array: its shape and its elements in row-major order. */
  datatype NdArray<T> = NdArray(shape: seq<nat>, flat: seq<T>)

  // ---------------------------------------------------------------------------
  // Shapes
  // ---------------------------------------------------------------------------

  /** Number of elements of an array of this shape; a 0-dimensional array has one. */
  function Size(shape: seq<nat>): nat {
    if |shape| == 0 then 1 else Size(shape[..|shape| - 1]) * shape[|shape| - 1]
  }

  /** The flat element list has as many elements as the shape describes. */
  predicate WellFormed<T>(a: NdArray<T>) {
    |a.flat| == Size(a.shape)
  }

  /** Each of the mask's dimensions equals the corresponding trailing dimension of the array. */
  predicate TrailingMatch(darray: seq<nat>, dmask: seq<nat>) {
    && |dmask| <= |darray|
    && forall t :: 0 <= t < |dmask| ==> dmask[t] == darray[|darray| - |dmask| + t]
  }

  /** The array's dimensions that the mask does not cover. */
  function Leading(darray: seq<nat>, dmask: seq<nat>): (lead: seq<nat>)
    requires |dmask| <= |darray|
    ensures |lead| == |darray| - |dmask|
    ensures forall t :: 0 <= t < |lead| ==> lead[t] == darray[t]
  {
    darray[..|darray| - |dmask|]
  }

  // ---------------------------------------------------------------------------
  // Masks
  // ---------------------------------------------------------------------------

  /** Number of true entries (numpy's `mask.sum()` on a boolean array). */
  function Count(m: seq<bool>): (c: nat)
    ensures c <= |m|
  {
    if |m| == 0 then 0 else Count(m[..|m| - 1]) + (if m[|m| - 1] then 1 else 0)
  }

  /** count(mask) is zero exactly when no entry is true, and |mask| exactly when every entry is. */
  lemma {:induction false} CountExtremes(m: seq<bool>)
    ensures Count(m) == 0 <==> forall i :: 0 <= i < |m| ==> !m[i]
    ensures Count(m) == |m| <==> forall i :: 0 <= i < |m| ==> m[i]
  {
    if |m| > 0 {
      var front := m[..|m| - 1];
      CountExtremes(front);
      assert forall i :: 0 <= i < |front| ==> front[i] == m[i];
    }
  }

  /** n copies of m, one after the other. */
  function Tile(m: seq<bool>, n: nat): (t: seq<bool>)
    ensures |t| == n * |m|
  {
    if n == 0 then [] else Tile(m, n - 1) + m
  }

  /** The elements of xs where m is true, in their order (numpy's `xs[m]`). */
  function Select<T>(xs: seq<T>, m: seq<bool>): (ys: seq<T>)
    requires |xs| == |m|
    ensures |ys| == Count(m)
  {
    if |xs| == 0 then []
    else Select(xs[..|xs| - 1], m[..|m| - 1]) + (if m[|m| - 1] then [xs[|xs| - 1]] else [])
  }

  /** The indices where m is true: increasing, and each true index exactly once. */
  function Positions(m: seq<bool>): (ps: seq<nat>)
    ensures |ps| == Count(m)
    ensures forall t :: 0 <= t < |ps| ==> ps[t] < |m| && m[ps[t]]
    ensures forall t, u :: 0 <= t < u < |ps| ==> ps[t] < ps[u]
    ensures forall i :: 0 <= i < |m| && m[i] ==> i in ps
  {
    if |m| == 0 then [] else Positions(m[..|m| - 1]) + (if m[|m| - 1] then [|m| - 1] else [])
  }

  // ---------------------------------------------------------------------------
  // Specification and the routine
  // ---------------------------------------------------------------------------

  /**
   * What `pack(array, mask)` returns: the elements of the flattened array
   * under the mask tiled over the leading dimensions, shaped as the leading
   * dimensions followed by the number of true mask entries.
   */
  function PackSpec<T>(arr: NdArray<T>, mask: NdArray<bool>): (r: Result<NdArray<T>, Error>)
    requires WellFormed(arr) && WellFormed(mask)
    ensures r.Ok? ==> WellFormed(r.value)
    ensures r.Ok? ==> |mask.flat| > 0 && |arr.flat| % |mask.flat| == 0
    ensures r.Ok? ==>
      && |mask.shape| <= |arr.shape|
      && |r.value.shape| == |arr.shape| - |mask.shape| + 1
      && r.value.shape[|r.value.shape| - 1] == Count(mask.flat)
  {
    if |mask.shape| > |arr.shape| then Err(TooFewDimensions)
    else if !TrailingMatch(arr.shape, mask.shape) then Err(TrailingShapeMismatch)
    else if |mask.flat| == 0 then Err(ZeroDivision)
    else
      var lead := Leading(arr.shape, mask.shape);
      TrailingSplit(arr.shape, mask.shape);
      MultipleOf(Size(lead), |mask.flat|);
      var nn := |arr.flat| / |mask.flat|;
      var out := NdArray(lead + [Count(mask.flat)], Select(arr.flat, Tile(mask.flat, nn)));
      CountTile(mask.flat, nn);
      assert out.shape[..|out.shape| - 1] == lead;
      Ok(out)
  }

  /** The routine: checks the dimensions, tiles the mask into a buffer, selects and reshapes. */
  method Pack<T>(arr: NdArray<T>, mask: NdArray<bool>) returns (r: Result<NdArray<T>, Error>)
    requires WellFormed(arr) && WellFormed(mask)
    ensures r == PackSpec(arr, mask)
  {
    var dmask, ndmask, nmask := mask.shape, |mask.shape|, |mask.flat|;
    var darray, ndarray, narray := arr.shape, |arr.shape|, |arr.flat|;
    if ndarray < ndmask {
      return Err(TooFewDimensions);
    }
    var same := SameTrailing(darray, dmask);
    if !same {
      return Err(TrailingShapeMismatch);
    }
    var farray, fmask := arr.flat, mask.flat;
    if nmask == 0 {
      return Err(ZeroDivision);
    }
    TrailingSplit(darray, dmask);
    MultipleOf(Size(Leading(darray, dmask)), nmask);
    var nn := narray / nmask;
    var afmask := TileInto(fmask, nn);
    var afarray := Select(farray, afmask[..]);
    var dout := DropTrailing(darray, ndmask);
    var nnmask := Count(fmask);
    dout := dout + [nnmask];
    return Ok(NdArray(dout, afarray));
  }

  /** The dimension check: walks the negative indices −1, …, −ndim(mask) and compares. */
  method SameTrailing(darray: seq<nat>, dmask: seq<nat>) returns (same: bool)
    requires |dmask| <= |darray|
    ensures same <==> TrailingMatch(darray, dmask)
  {
    var ndmask, ndarray := |dmask|, |darray|;
    var k: int := 0;
    while k > -ndmask
      invariant -ndmask <= k <= 0
      invariant forall t :: ndmask + k <= t < ndmask ==> dmask[t] == darray[ndarray - ndmask + t]
    {
      k := k - 1;
      if dmask[ndmask + k] != darray[ndarray + k] {
        return false;
      }
    }
    return true;
  }

  /** A fresh buffer of nn·|fmask| entries filled block by block with copies of fmask. */
  method TileInto(fmask: seq<bool>, nn: nat) returns (afmask: array<bool>)
    ensures fresh(afmask)
    ensures afmask[..] == Tile(fmask, nn)
  {
    var nmask := |fmask|;
    afmask := new bool[nn * nmask];
    var k := 0;
    while k < nn
      invariant 0 <= k <= nn
      invariant k * nmask <= afmask.Length
      invariant afmask[..k * nmask] == Tile(fmask, k)
    {
      BlockBound(k, nn, nmask);
      forall j | 0 <= j < nmask {
        afmask[k * nmask + j] := fmask[j];
      }
      BlockWritten(afmask[..], k * nmask, fmask, Tile(fmask, k));
      k := k + 1;
    }
    assert afmask[..] == afmask[..k * nmask];
  }

  /** Deletes the last n dimensions one at a time, as `del dout[-1]` does. */
  method DropTrailing(darray: seq<nat>, n: nat) returns (dout: seq<nat>)
    requires n <= |darray|
    ensures dout == darray[..|darray| - n]
  {
    dout := darray;
    var k := 0;
    while k < n
      invariant 0 <= k <= n
      invariant dout == darray[..|darray| - k]
    {
      dout := dout[..|dout| - 1];
      k := k + 1;
    }
  }

  /** A buffer whose first `start` entries are `before` and whose next |block| entries are `block`. */
  lemma BlockWritten(buf: seq<bool>, start: nat, block: seq<bool>, before: seq<bool>)
    requires start + |block| <= |buf|
    requires buf[..start] == before
    requires forall j :: 0 <= j < |block| ==> buf[start + j] == block[j]
    ensures buf[..start + |block|] == before + block
  {
    assert forall i :: 0 <= i < start + |block| ==> buf[..start + |block|][i] == (before + block)[i] by {
      forall i | 0 <= i < start + |block|
        ensures buf[..start + |block|][i] == (before + block)[i]
      {
        if i >= start {
          assert buf[start + (i - start)] == block[i - start];
        }
      }
    }
  }

  // ---------------------------------------------------------------------------
  // Facts about shapes
  // ---------------------------------------------------------------------------

  /** The size of concatenated shapes is the product of their sizes. */
  lemma {:induction false} SizeAppend(a: seq<nat>, b: seq<nat>)
    ensures Size(a + b) == Size(a) * Size(b)
  {
    if |b| == 0 {
      assert a + b == a;
    } else {
      var b' := b[..|b| - 1];
      assert (a + b)[..|a + b| - 1] == a + b';
      SizeAppend(a, b');
      calc {
        Size(a + b);
        Size(a + b') * b[|b| - 1];
        (Size(a) * Size(b')) * b[|b| - 1];
        Size(a) * (Size(b') * b[|b| - 1]);
        Size(a) * Size(b);
      }
    }
  }

  /** With matching trailing dimensions, narray is Size(leading) blocks of nmask elements. */
  lemma TrailingSplit(darray: seq<nat>, dmask: seq<nat>)
    requires TrailingMatch(darray, dmask)
    ensures Size(darray) == Size(Leading(darray, dmask)) * Size(dmask)
  {
    assert darray == Leading(darray, dmask) + dmask;
    SizeAppend(Leading(darray, dmask), dmask);
  }

  // ---------------------------------------------------------------------------
  // Facts about tiling, counting and selection
  // ---------------------------------------------------------------------------

  /** Entry j of block k of the tiled mask is entry j of the mask. */
  lemma {:induction false} TileAt(m: seq<bool>, n: nat, k: nat, j: nat)
    requires k < n && j < |m|
    ensures k * |m| + j < |Tile(m, n)|
    ensures Tile(m, n)[k * |m| + j] == m[j]
  {
    BlockBound(k, n, |m|);
    if k < n - 1 {
      BlockBound(k, n - 1, |m|);
      TileAt(m, n - 1, k, j);
    } else {
      assert k * |m| == |Tile(m, n - 1)|;
    }
  }

  /** Counting distributes over concatenation. */
  lemma {:induction false} CountAppend(m1: seq<bool>, m2: seq<bool>)
    ensures Count(m1 + m2) == Count(m1) + Count(m2)
  {
    if |m2| == 0 {
      assert m1 + m2 == m1;
    } else {
      assert (m1 + m2)[..|m1 + m2| - 1] == m1 + m2[..|m2| - 1];
      CountAppend(m1, m2[..|m2| - 1]);
    }
  }

  /** The tiled mask holds n times as many true entries as the mask. */
  lemma {:induction false} CountTile(m: seq<bool>, n: nat)
    ensures Count(Tile(m, n)) == n * Count(m)
  {
    if n > 0 {
      var c := Count(m);
      CountTile(m, n - 1);
      CountAppend(Tile(m, n - 1), m);
      assert Count(Tile(m, n)) == (n - 1) * c + c;
      BlockBound(n - 1, n, c);
    }
  }

  /** Selection distributes over concatenation of elements and masks. */
  lemma {:induction false} SelectAppend<T>(xs1: seq<T>, m1: seq<bool>, xs2: seq<T>, m2: seq<bool>)
    requires |xs1| == |m1| && |xs2| == |m2|
    ensures Select(xs1 + xs2, m1 + m2) == Select(xs1, m1) + Select(xs2, m2)
  {
    if |xs2| > 0 {
      var n2 := |xs2| - 1;
      assert (xs1 + xs2)[..|xs1 + xs2| - 1] == xs1 + xs2[..n2];
      assert (m1 + m2)[..|m1 + m2| - 1] == m1 + m2[..n2];
      SelectAppend(xs1, m1, xs2[..n2], m2[..n2]);
    } else {
      assert xs1 + xs2 == xs1;
      assert m1 + m2 == m1;
    }
  }

  /** Selection keeps exactly the elements at the true positions, in their order. */
  lemma {:induction false} SelectAt<T>(xs: seq<T>, m: seq<bool>)
    requires |xs| == |m|
    ensures |Select(xs, m)| == |Positions(m)|
    ensures forall t :: 0 <= t < |Positions(m)| ==> Select(xs, m)[t] == xs[Positions(m)[t]]
  {
    if |xs| > 0 {
      var n := |xs| - 1;
      SelectAt(xs[..n], m[..n]);
      var front, ps := Select(xs[..n], m[..n]), Positions(m[..n]);
      assert Select(xs, m) == front + (if m[n] then [xs[n]] else []);
      assert Positions(m) == ps + (if m[n] then [n] else []);
      forall t | 0 <= t < |Positions(m)|
        ensures Select(xs, m)[t] == xs[Positions(m)[t]]
      {
        if t < |ps| {
          assert Positions(m)[t] == ps[t] && ps[t] < n;
          assert xs[..n][ps[t]] == xs[ps[t]];
        }
      }
    }
  }

  /** The sum of a sequence of reals. */
  function Sum(xs: seq<real>): real {
    if |xs| == 0 then 0.0 else Sum(xs[..|xs| - 1]) + xs[|xs| - 1]
  }

  /** Dropping only zeros does not change the sum. */
  lemma {:induction false} SelectSum(xs: seq<real>, m: seq<bool>)
    requires |xs| == |m|
    requires forall i :: 0 <= i < |xs| && !m[i] ==> xs[i] == 0.0
    ensures Sum(Select(xs, m)) == Sum(xs)
  {
    SelectMaskedSum(xs, m);
    MaskedSumZeroOutside(xs, m);
  }

  /** The sum of the entries of xs where m is true; the others count as zero. */
  function MaskedSum(xs: seq<real>, m: seq<bool>): real
    requires |xs| == |m|
  {
    if |xs| == 0 then 0.0
    else MaskedSum(xs[..|xs| - 1], m[..|m| - 1]) + (if m[|m| - 1] then xs[|xs| - 1] else 0.0)
  }

  /** A boolean selection sums to the masked sum of what it selects from. */
  lemma {:induction false} SelectMaskedSum(xs: seq<real>, m: seq<bool>)
    requires |xs| == |m|
    ensures Sum(Select(xs, m)) == MaskedSum(xs, m)
  {
    if |xs| > 0 {
      var n := |xs| - 1;
      SelectMaskedSum(xs[..n], m[..n]);
      SumAppend(Select(xs[..n], m[..n]), if m[n] then [xs[n]] else []);
    }
  }

  /** When xs is zero wherever m is false, masking drops nothing from the sum. */
  lemma {:induction false} MaskedSumZeroOutside(xs: seq<real>, m: seq<bool>)
    requires |xs| == |m|
    requires forall i :: 0 <= i < |xs| && !m[i] ==> xs[i] == 0.0
    ensures MaskedSum(xs, m) == Sum(xs)
  {
    if |xs| > 0 {
      var n := |xs| - 1;
      assert forall i :: 0 <= i < n && !m[..n][i] ==> xs[..n][i] == 0.0;
      MaskedSumZeroOutside(xs[..n], m[..n]);
    }
  }

  /** Summing distributes over concatenation. */
  lemma {:induction false} SumAppend(xs: seq<real>, ys: seq<real>)
    ensures Sum(xs + ys) == Sum(xs) + Sum(ys)
  {
    if |ys| == 0 {
      assert xs + ys == xs;
    } else {
      assert (xs + ys)[..|xs + ys| - 1] == xs + ys[..|ys| - 1];
      SumAppend(xs, ys[..|ys| - 1]);
    }
  }

  /** Tiling a + b times is tiling a times followed by tiling b times. */
  lemma {:induction false} TileAppend(m: seq<bool>, a: nat, b: nat)
    ensures Tile(m, a + b) == Tile(m, a) + Tile(m, b)
  {
    if b > 0 {
      TileAppend(m, a, b - 1);
    } else {
      assert Tile(m, a) + Tile(m, b) == Tile(m, a);
    }
  }

  /** Selecting under n tiled copies of m: the first r blocks, block r, then the rest. */
  lemma SelectTileParts<T>(xs: seq<T>, m: seq<bool>, n: nat, r: nat)
    requires |xs| == n * |m| && r < n
    ensures r * |m| + |m| == (r + 1) * |m| <= |xs|
    ensures Select(xs, Tile(m, n))
         == Select(xs[..r * |m|], Tile(m, r))
          + (Select(xs[r * |m| .. (r + 1) * |m|], m) + Select(xs[(r + 1) * |m|..], Tile(m, n - r - 1)))
  {
    var w := |m|;
    var lo, hi := r * w, (r + 1) * w;
    BlockBound(r, n, w);
    TileAppend(m, r, n - r);
    TileAppend(m, 1, n - r - 1);
    assert Tile(m, 1) == m;
    var rest := Tile(m, n - r - 1);
    assert Tile(m, n) == Tile(m, r) + (m + rest);
    assert xs == xs[..lo] + (xs[lo..hi] + xs[hi..]);
    SelectAppend(xs[..lo], Tile(m, r), xs[lo..hi] + xs[hi..], m + rest);
    SelectAppend(xs[lo..hi], m, xs[hi..], rest);
  }

  /** Block r of the selection under n tiled copies of m is block r of xs selected by m. */
  lemma SelectTileBlock<T>(xs: seq<T>, m: seq<bool>, n: nat, r: nat)
    requires |xs| == n * |m| && r < n
    ensures r * |m| <= (r + 1) * |m| <= |xs|
    ensures r * Count(m) <= (r + 1) * Count(m) <= |Select(xs, Tile(m, n))|
    ensures Select(xs, Tile(m, n))[r * Count(m) .. (r + 1) * Count(m)]
         == Select(xs[r * |m| .. (r + 1) * |m|], m)
  {
    var c := Count(m);
    var whole := Select(xs, Tile(m, n));
    assert r * c <= (r + 1) * c <= |whole| by {
      BlockBound(r, n, c);
      CountTile(m, n);
    }
    CountTile(m, r);
    SelectTileParts(xs, m, n, r);
    var lo, hi := r * |m|, (r + 1) * |m|;
    var front, block := Select(xs[..lo], Tile(m, r)), Select(xs[lo..hi], m);
    var back := Select(xs[hi..], Tile(m, n - r - 1));
    assert whole == front + (block + back);
    assert |front| == r * c && |block| == c;
    assert |front| + |block| == (r + 1) * c;
    MiddleSlice(front, block, back);
    assert whole[r * c .. (r + 1) * c] == block;
  }

  /** The middle part of a three-part concatenation is recovered by slicing. */
  lemma MiddleSlice<T>(front: seq<T>, middle: seq<T>, back: seq<T>)
    ensures (front + (middle + back))[|front| .. |front| + |middle|] == middle
  {
  }

  // ---------------------------------------------------------------------------
  // What pack promises
  // ---------------------------------------------------------------------------

  /** The three error cases, each exactly when its condition holds, checked in this order. */
  lemma PackErrors<T>(arr: NdArray<T>, mask: NdArray<bool>)
    requires WellFormed(arr) && WellFormed(mask)
    ensures PackSpec(arr, mask) == Err(TooFewDimensions) <==> |mask.shape| > |arr.shape|
    ensures PackSpec(arr, mask) == Err(TrailingShapeMismatch)
        <==> |mask.shape| <= |arr.shape| && !TrailingMatch(arr.shape, mask.shape)
    ensures PackSpec(arr, mask) == Err(ZeroDivision)
        <==> TrailingMatch(arr.shape, mask.shape) && Size(mask.shape) == 0
    ensures PackSpec(arr, mask).Ok? <==> TrailingMatch(arr.shape, mask.shape) && Size(mask.shape) > 0
  {
  }

  /**
   * The output keeps the leading dimensions, replaces the mask's dimensions by
   * count(mask), is well formed, and holds (narray / nmask) · count(mask) elements.
   */
  lemma PackShape<T>(arr: NdArray<T>, mask: NdArray<bool>)
    requires WellFormed(arr) && WellFormed(mask)
    requires PackSpec(arr, mask).Ok?
    ensures var out := PackSpec(arr, mask).value;
      && out.shape == Leading(arr.shape, mask.shape) + [Count(mask.flat)]
      && |out.flat| == (|arr.flat| / |mask.flat|) * Count(mask.flat)
      && WellFormed(out)
  {
    var lead := Leading(arr.shape, mask.shape);
    TrailingSplit(arr.shape, mask.shape);
    MultipleOf(Size(lead), |mask.flat|);
    var nn := |arr.flat| / |mask.flat|;
    CountTile(mask.flat, nn);
    var out := PackSpec(arr, mask).value;
    assert out.shape[..|out.shape| - 1] == lead;
    assert Size(out.shape) == Size(lead) * Count(mask.flat);
  }

  /** The tiled mask covers the whole flat array, and the output is the flat array selected by it. */
  lemma PackFlat<T>(arr: NdArray<T>, mask: NdArray<bool>)
    requires WellFormed(arr) && WellFormed(mask)
    requires PackSpec(arr, mask).Ok?
    ensures |mask.flat| > 0 && |Tile(mask.flat, |arr.flat| / |mask.flat|)| == |arr.flat|
    ensures var tiled := Tile(mask.flat, |arr.flat| / |mask.flat|);
      Select(arr.flat, tiled) == PackSpec(arr, mask).value.flat
  {
    var nn := |arr.flat| / |mask.flat|;
    var tiled := Tile(mask.flat, nn);
    assert |tiled| == |arr.flat| by {
      TrailingSplit(arr.shape, mask.shape);
      MultipleOf(Size(Leading(arr.shape, mask.shape)), |mask.flat|);
    }
  }

  /** Element t of the output is the array element at the t-th true position of the tiled mask. */
  lemma PackOrder<T>(arr: NdArray<T>, mask: NdArray<bool>)
    requires WellFormed(arr) && WellFormed(mask)
    requires PackSpec(arr, mask).Ok?
    ensures |mask.flat| > 0 && |Tile(mask.flat, |arr.flat| / |mask.flat|)| == |arr.flat|
    ensures var tiled := Tile(mask.flat, |arr.flat| / |mask.flat|);
      Select(arr.flat, tiled) == PackSpec(arr, mask).value.flat
    ensures var out := PackSpec(arr, mask).value;
      var tiled := Tile(mask.flat, |arr.flat| / |mask.flat|);
      && |out.flat| == |Positions(tiled)|
      && forall t :: 0 <= t < |out.flat| ==> out.flat[t] == arr.flat[Positions(tiled)[t]]
  {
    var tiled := Tile(mask.flat, |arr.flat| / |mask.flat|);
    PackFlat(arr, mask);
    SelectAt(arr.flat, tiled);
  }

  /** The tiled mask repeats the mask over each block of nmask flat elements. */
  lemma PackTiling<T>(arr: NdArray<T>, mask: NdArray<bool>, k: nat, j: nat)
    requires WellFormed(arr) && WellFormed(mask)
    requires PackSpec(arr, mask).Ok?
    requires k < |arr.flat| / |mask.flat| && j < |mask.flat|
    ensures var tiled := Tile(mask.flat, |arr.flat| / |mask.flat|);
      && |tiled| == |arr.flat|
      && k * |mask.flat| + j < |tiled|
      && tiled[k * |mask.flat| + j] == mask.flat[j]
  {
    var nn := |arr.flat| / |mask.flat|;
    assert |arr.flat| == nn * |mask.flat| by {
      TrailingSplit(arr.shape, mask.shape);
      MultipleOf(Size(Leading(arr.shape, mask.shape)), |mask.flat|);
    }
    TileAt(mask.flat, nn, k, j);
  }

  /** Slice r of the output along the leading dimensions packs block r of the array by the mask. */
  lemma PackBlocks<T>(arr: NdArray<T>, mask: NdArray<bool>, r: nat)
    requires WellFormed(arr) && WellFormed(mask)
    requires PackSpec(arr, mask).Ok?
    requires r < |arr.flat| / |mask.flat|
    ensures var out := PackSpec(arr, mask).value;
      var m, c := |mask.flat|, Count(mask.flat);
      && 0 <= r * m && r * m + m <= |arr.flat|
      && 0 <= r * c && r * c + c <= |out.flat|
      && out.flat[r * c .. r * c + c] == Select(arr.flat[r * m .. r * m + m], mask.flat)
  {
    var m, c := |mask.flat|, Count(mask.flat);
    var nn := |arr.flat| / m;
    PackFlat(arr, mask);
    assert |arr.flat| == nn * m;
    SelectTileBlock(arr.flat, mask.flat, nn, r);
    assert (r + 1) * m == r * m + m && (r + 1) * c == r * c + c by {
      Distribute(r, 1, m);
      Distribute(r, 1, c);
    }
    MulNonNegative(r, m);
    MulNonNegative(r, c);
  }

  /** For every array, the packed output sums to the array's sum over the tiled mask. */
  lemma PackMaskedSum(arr: NdArray<real>, mask: NdArray<bool>)
    requires WellFormed(arr) && WellFormed(mask)
    requires PackSpec(arr, mask).Ok?
    ensures |Tile(mask.flat, |arr.flat| / |mask.flat|)| == |arr.flat|
    ensures Sum(PackSpec(arr, mask).value.flat)
         == MaskedSum(arr.flat, Tile(mask.flat, |arr.flat| / |mask.flat|))
  {
    var tiled := Tile(mask.flat, |arr.flat| / |mask.flat|);
    PackFlat(arr, mask);
    SelectMaskedSum(arr.flat, tiled);
  }

  /** The special case of the doctest: with zeros outside the mask, packing keeps the whole sum. */
  lemma PackSum(arr: NdArray<real>, mask: NdArray<bool>)
    requires WellFormed(arr) && WellFormed(mask)
    requires PackSpec(arr, mask).Ok?
    requires var tiled := Tile(mask.flat, |arr.flat| / |mask.flat|);
      forall i :: 0 <= i < |arr.flat| && i < |tiled| && !tiled[i] ==> arr.flat[i] == 0.0
    ensures Sum(PackSpec(arr, mask).value.flat) == Sum(arr.flat)
  {
    var tiled := Tile(mask.flat, |arr.flat| / |mask.flat|);
    PackMaskedSum(arr, mask);
    MaskedSumZeroOutside(arr.flat, tiled);
  }
}
