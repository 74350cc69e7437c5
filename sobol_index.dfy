/**
  First-order (Si) and total (STi) variance-based sensitivity indices after
  Saltelli et al. (2008), with the cross-term estimator of Saltelli (2002).

  Model outputs are exact reals: rounding of the floating-point original is
  not modelled. The caller supplies the outputs of the base designs A and B
  and of the k mixed designs C (row i: parameter i taken from A, the others
  from B) either packed into one vector or as three separate arguments.
*/
module Sobol {
  import opened Wrappers
  import opened Arithmetic

  /** Why `sobol_index` gives no indices. */
  datatype Error =
    | NoOutputRequested  // si and sti both false
    | MissingInput       // neither (s, ns, ya) nor (ya, yb, yc) supplied, and not packed
    | InvalidShape       // sizes that disagree, or a packed vector that cannot be reshaped
    | ZeroDivision       // fewer than two base samples: 1/ns or 1/(ns-1) has no value

  /** A two-dimensional array of model outputs: `rows` rows of `cols` columns. */
  datatype Grid = Grid(cols: nat, rows: seq<seq<real>>)

  /** A rectangular grid, as every two-dimensional numpy array is. */
  type Matrix = g: Grid | forall i :: 0 <= i < |g.rows| ==> |g.rows[i]| == g.cols
    witness Grid(0, [])

  /** A value passed for one of the array arguments. */
  datatype Value = Scalar(n: int) | Vector(v: seq<real>) | Table(m: Matrix)

  /** The keyword arguments of `sobol_index`; `None` is an argument left out. */
  datatype Args = Args(
    s: Option<Value>, ns: Option<Value>,
    ya: Option<Value>, yb: Option<Value>, yc: Option<Value>,
    si: bool, sti: bool)

  /** Resolved input: outputs of the base designs A and B and of the mixed designs C. */
  datatype Samples = Samples(a: seq<real>, b: seq<real>, c: Matrix)

  /** A, B and every row of C have the same number ns of base samples. */
  predicate Conforming(smp: Samples) {
    |smp.b| == |smp.a| && smp.c.cols == |smp.a|
  }

  // ---------------------------------------------------------------------------
  // Input resolution
  // ---------------------------------------------------------------------------

  /** s and ns given, ya not: the packed layout. */
  predicate PackedSupplied(args: Args) {
    args.s.Some? && args.ns.Some? && args.ya.None?
  }

  /** s, ns and ya given: they are taken as A, B and C. */
  predicate PositionalSupplied(args: Args) {
    args.s.Some? && args.ns.Some? && args.ya.Some?
  }

  /** ya, yb and yc given. */
  predicate KeywordSupplied(args: Args) {
    args.ya.Some? && args.yb.Some? && args.yc.Some?
  }

  /** Concatenation of the rows of a matrix, row after row (numpy's ravel). */
  function Flatten(rows: seq<seq<real>>): seq<real> {
    if |rows| == 0 then [] else rows[0] + Flatten(rows[1..])
  }

  /** Cuts `flat` into k consecutive rows of length ns (numpy's reshape to (k, ns)). */
  function Rows(flat: seq<real>, ns: nat, k: nat): (rows: seq<seq<real>>)
    requires |flat| == k * ns
    ensures |rows| == k
    ensures forall i :: 0 <= i < k ==> |rows[i]| == ns
  {
    if k == 0 then []
    else
      assert |flat| == (k - 1) * ns + ns;
      [flat[..ns]] + Rows(flat[ns..], ns, k - 1)
  }

  /** Packed mode: `s = A ++ B ++ C` row by row, with ns base samples. */
  function ResolvePacked(s: Value, ns: Value): (r: Result<Samples, Error>)
    ensures r.Ok? ==> Conforming(r.value)
    ensures r.Ok? ==> s.Vector? && ns.Scalar? && ns.n >= 1 && |r.value.a| == ns.n
    ensures r == Err(ZeroDivision) <==> s.Vector? && ns == Scalar(0)
  {
    match (s, ns)
    case (Vector(v), Scalar(n)) =>
      if n == 0 then Err(ZeroDivision)
      else if n < 0 || |v| % n != 0 || |v| < 2 * n then Err(InvalidShape)
      else
        var k := |v| / n - 2;
        DivisibleLength(|v|, n);
        Ok(Samples(v[..n], v[n..2 * n], Grid(n, Rows(v[2 * n..], n, k))))
    case _ => Err(InvalidShape)
  }

  /** Separate arrays: A and B of equal size, C with as many columns. */
  function ResolveTriple(a: Value, b: Value, c: Value): (r: Result<Samples, Error>)
    ensures r.Ok? ==> Conforming(r.value)
  {
    match (a, b, c)
    case (Vector(va), Vector(vb), Table(m)) =>
      if |va| == |vb| && |va| == m.cols then Ok(Samples(va, vb, m)) else Err(InvalidShape)
    case _ => Err(InvalidShape)
  }

  /** Chooses the input mode from the arguments supplied and extracts A, B and C. */
  function Resolve(args: Args): (r: Result<Samples, Error>)
    ensures r.Ok? ==> Conforming(r.value)
  {
    if PackedSupplied(args) then ResolvePacked(args.s.value, args.ns.value)
    else if !(PositionalSupplied(args) || KeywordSupplied(args)) then Err(MissingInput)
    else if PositionalSupplied(args) then ResolveTriple(args.s.value, args.ns.value, args.ya.value)
    else ResolveTriple(args.ya.value, args.yb.value, args.yc.value)
  }

  // ---------------------------------------------------------------------------
  // The estimator
  // ---------------------------------------------------------------------------

  /** Sum of the element-wise products of x and y. */
  function Dot(x: seq<real>, y: seq<real>): real
    requires |x| == |y|
  {
    if |x| == 0 then 0.0 else Dot(x[..|x| - 1], y[..|y| - 1]) + x[|x| - 1] * y[|y| - 1]
  }

  /** f0², estimated from A and B jointly: (1/ns)·Σ A·B. */
  function F0Squared(a: seq<real>, b: seq<real>): real
    requires |a| == |b| >= 1
  {
    (1.0 / |a| as real) * Dot(a, b)
  }

  /** Mean of the squares of A. */
  function MeanSquare(a: seq<real>): real
    requires |a| >= 1
  {
    Dot(a, a) / |a| as real
  }

  /** The total variance estimate varA = mean(A²) − f0². */
  function Variance(a: seq<real>, b: seq<real>): real
    requires |a| == |b| >= 1
  {
    MeanSquare(a) - F0Squared(a, b)
  }

  /** (1/(ns−1))·Σ x·row. */
  function CrossTerm(x: seq<real>, row: seq<real>): real
    requires |x| == |row| >= 2
  {
    (1.0 / (|x| - 1) as real) * Dot(x, row)
  }

  /** Conforming samples on which every index has a value: at least two base
      samples, and a non-zero varA whenever some index divides by it. */
  predicate Estimable(smp: Samples) {
    && Conforming(smp) && |smp.a| >= 2
    && (|smp.c.rows| > 0 ==> Variance(smp.a, smp.b) != 0.0)
  }

  /** The arguments never make the estimator divide by a zero variance: the
      loop runs at least once only when an index is requested and C has a row. */
  predicate VarianceDefined(args: Args) {
    var r := Resolve(args);
    ((args.si || args.sti) && r.Ok? && |r.value.a| >= 2 && |r.value.c.rows| > 0)
    ==> Variance(r.value.a, r.value.b) != 0.0
  }

  /** Si of parameter i. */
  function FirstOrder(smp: Samples, i: nat): real
    requires Estimable(smp) && i < |smp.c.rows|
  {
    (CrossTerm(smp.a, smp.c.rows[i]) - F0Squared(smp.a, smp.b)) / Variance(smp.a, smp.b)
  }

  /** STi of parameter i. */
  function TotalOrder(smp: Samples, i: nat): real
    requires Estimable(smp) && i < |smp.c.rows|
  {
    1.0 - (CrossTerm(smp.b, smp.c.rows[i]) - F0Squared(smp.a, smp.b)) / Variance(smp.a, smp.b)
  }

  /** Si for every parameter, one per row of C. */
  function FirstOrderIndices(smp: Samples): seq<real>
    requires Estimable(smp)
  {
    seq(|smp.c.rows|, i requires 0 <= i < |smp.c.rows| => FirstOrder(smp, i))
  }

  /** STi for every parameter, one per row of C. */
  function TotalOrderIndices(smp: Samples): seq<real>
    requires Estimable(smp)
  {
    seq(|smp.c.rows|, i requires 0 <= i < |smp.c.rows| => TotalOrder(smp, i))
  }

  /** What `sobol_index` returns: Si if requested, then STi if requested. */
  function Indices(args: Args): (r: Result<seq<seq<real>>, Error>)
    requires VarianceDefined(args)
    ensures r.Ok? ==> (args.si || args.sti) && Resolve(args).Ok? && |Resolve(args).value.a| >= 2
    ensures r.Ok? ==> |r.value| == (if args.si then 1 else 0) + (if args.sti then 1 else 0)
    ensures r.Ok? ==> forall j :: 0 <= j < |r.value| ==> |r.value[j]| == |Resolve(args).value.c.rows|
  {
    if !args.si && !args.sti then Err(NoOutputRequested)
    else
      match Resolve(args)
      case Err(e) => Err(e)
      case Ok(smp) =>
        if |smp.a| < 2 then Err(ZeroDivision)
        else
          Ok((if args.si then [FirstOrderIndices(smp)] else [])
             + (if args.sti then [TotalOrderIndices(smp)] else []))
  }

  /** `sobol_index`: validates the flags, resolves the input, estimates, and
      returns Si before STi, each only when requested. */
  method SobolIndex(args: Args) returns (r: Result<seq<seq<real>>, Error>)
    requires VarianceDefined(args)
    ensures r == Indices(args)
  {
    if !args.si && !args.sti {
      return Err(NoOutputRequested);
    }
    var resolved := Resolve(args);
    if resolved.Err? {
      return Err(resolved.error);
    }
    var smp := resolved.value;
    if |smp.a| < 2 {
      return Err(ZeroDivision);
    }
    var isi, isti := Estimate(smp, args.si, args.sti);
    var out: seq<seq<real>> := [];
    if args.si {
      out := out + [isi];
    }
    assert out == if args.si then [FirstOrderIndices(smp)] else [];
    if args.sti {
      out := out + [isti];
    }
    assert out == (if args.si then [FirstOrderIndices(smp)] else [])
                  + (if args.sti then [TotalOrderIndices(smp)] else []);
    IndicesOk(args, smp);
    return Ok(out);
  }

  /** The estimator loop: computes f0² and varA once, then fills the requested
      index arrays one parameter (row of C) at a time. An index not requested
      is returned empty. */
  method Estimate(smp: Samples, si: bool, sti: bool) returns (first: seq<real>, total: seq<real>)
    requires Estimable(smp)
    ensures si ==> first == FirstOrderIndices(smp)
    ensures sti ==> total == TotalOrderIndices(smp)
  {
    var ya, yb, yc := smp.a, smp.b, smp.c.rows;
    var nn := |yc|;
    var f02 := F0Squared(ya, yb);
    var varA := Variance(ya, yb);
    ghost var wantFirst, wantTotal := FirstOrderIndices(smp), TotalOrderIndices(smp);
    var isi: array<real>;
    var isti: array<real>;
    if si { isi := new real[nn]; } else { isi := new real[0]; }
    if sti { isti := new real[nn]; } else { isti := new real[0]; }
    var i := 0;
    while i < nn
      invariant 0 <= i <= nn
      invariant si ==> isi.Length == nn && isi[..i] == wantFirst[..i]
      invariant sti ==> isti.Length == nn && isti[..i] == wantTotal[..i]
    {
      var yci := yc[i];
      if si {
        var crossAC := CrossTerm(ya, yci);
        assert (crossAC - f02) / varA == wantFirst[i];
        isi[i] := (crossAC - f02) / varA;
        PrefixExtended(isi[..], wantFirst, i);
      }
      if sti {
        var crossBC := CrossTerm(yb, yci);
        assert 1.0 - (crossBC - f02) / varA == wantTotal[i];
        isti[i] := 1.0 - (crossBC - f02) / varA;
        PrefixExtended(isti[..], wantTotal, i);
      }
      i := i + 1;
    }
    assert si ==> isi[..] == isi[..nn];
    assert sti ==> isti[..] == isti[..nn];
    first, total := isi[..], isti[..];
  }

  /** Agreeing on the first i entries and on entry i is agreeing on the first i + 1. */
  lemma PrefixExtended(got: seq<real>, want: seq<real>, i: nat)
    requires i < |got| && i < |want|
    requires got[..i] == want[..i] && got[i] == want[i]
    ensures got[..i + 1] == want[..i + 1]
  {
    assert got[..i + 1] == got[..i] + [got[i]];
    assert want[..i + 1] == want[..i] + [want[i]];
  }

  /** The value of a successful call, once the input is resolved to estimable samples. */
  lemma IndicesOk(args: Args, smp: Samples)
    requires (args.si || args.sti) && Resolve(args) == Ok(smp) && Estimable(smp)
    ensures VarianceDefined(args)
    ensures Indices(args) == Ok((if args.si then [FirstOrderIndices(smp)] else [])
                                + (if args.sti then [TotalOrderIndices(smp)] else []))
  {
  }

  // ---------------------------------------------------------------------------
  // Arithmetic helpers
  // ---------------------------------------------------------------------------

  /** A length divisible by n ≥ 1 and at least 2n splits into A, B and k = len/n − 2 rows. */
  lemma DivisibleLength(len: nat, n: nat)
    requires n >= 1 && len % n == 0 && len >= 2 * n
    ensures len / n >= 2
    ensures len - 2 * n == (len / n - 2) * n
  {
    assert len == (len / n) * n;
  }

  // ---------------------------------------------------------------------------
  // Packed layout
  // ---------------------------------------------------------------------------

  /** Row i of the reshaped matrix is the i-th block of ns consecutive elements. */
  lemma {:induction false} RowsAt(flat: seq<real>, ns: nat, k: nat, i: nat)
    requires |flat| == k * ns && i < k
    ensures (i + 1) * ns <= |flat|
    ensures Rows(flat, ns, k)[i] == flat[i * ns .. (i + 1) * ns]
  {
    BlockBound(i, k, ns);
    if i > 0 {
      var rest := flat[ns..];
      assert |rest| == (k - 1) * ns by { BlockBound(0, k, ns); }
      assert Rows(flat, ns, k)[i] == Rows(rest, ns, k - 1)[i - 1];
      RowsAt(rest, ns, k - 1, i - 1);
      assert (i - 1) * ns + ns == i * ns by { BlockBound(i - 1, k - 1, ns); }
      assert rest[(i - 1) * ns .. i * ns] == flat[i * ns .. (i + 1) * ns];
    }
  }

  /** A flattened matrix has rows × cols elements. */
  lemma {:induction false} FlattenLength(rows: seq<seq<real>>, cols: nat)
    requires forall i :: 0 <= i < |rows| ==> |rows[i]| == cols
    ensures |Flatten(rows)| == |rows| * cols
  {
    if |rows| > 0 {
      FlattenLength(rows[1..], cols);
      assert |rows| * cols == cols + (|rows| - 1) * cols;
    }
  }

  /** Reshaping a flattened matrix gives the matrix back. */
  lemma {:induction false} RowsOfFlatten(rows: seq<seq<real>>, cols: nat)
    requires forall i :: 0 <= i < |rows| ==> |rows[i]| == cols
    ensures |Flatten(rows)| == |rows| * cols
    ensures Rows(Flatten(rows), cols, |rows|) == rows
  {
    FlattenLength(rows, cols);
    if |rows| > 0 {
      RowsOfFlatten(rows[1..], cols);
      var f := Flatten(rows);
      assert f == rows[0] + Flatten(rows[1..]);
      assert f[..cols] == rows[0];
      assert f[cols..] == Flatten(rows[1..]);
      assert rows == [rows[0]] + rows[1..];
    }
  }

  /** In packed mode A = s[0:ns], B = s[ns:2ns], and C has k = len(s)/ns − 2 rows,
      none at all when len(s) = 2·ns. */
  lemma PackedSlices(args: Args, v: seq<real>, n: int)
    requires PackedSupplied(args) && args.s.value == Vector(v) && args.ns.value == Scalar(n)
    requires n >= 1 && |v| % n == 0 && |v| >= 2 * n
    ensures Resolve(args).Ok?
    ensures Resolve(args).value.a == v[..n] && Resolve(args).value.b == v[n .. 2 * n]
    ensures |Resolve(args).value.c.rows| == |v| / n - 2
  {
    DivisibleLength(|v|, n);
  }

  /** In packed mode row i of C is s[2ns + i·ns : 2ns + (i+1)·ns]. */
  lemma PackedLayout(args: Args, v: seq<real>, n: int, i: nat)
    requires PackedSupplied(args) && args.s.value == Vector(v) && args.ns.value == Scalar(n)
    requires n >= 1 && |v| % n == 0 && |v| >= 2 * n
    requires i < |v| / n - 2
    ensures Resolve(args).Ok?
    ensures Resolve(args).value.a == v[..n] && Resolve(args).value.b == v[n .. 2 * n]
    ensures |Resolve(args).value.c.rows| == |v| / n - 2
    ensures 2 * n + (i + 1) * n <= |v|
    ensures Resolve(args).value.c.rows[i] == v[2 * n + i * n .. 2 * n + (i + 1) * n]
  {
    var k := |v| / n - 2;
    PackedSlices(args, v, n);
    var rest := v[2 * n..];
    RowsAt(rest, n, k, i);
    assert rest[i * n .. (i + 1) * n] == v[2 * n + i * n .. 2 * n + (i + 1) * n];
  }

  /** Packed mode succeeds exactly when ns ≥ 1 divides len(s) and len(s) ≥ 2ns;
      ns = 0 is a division by zero. */
  lemma PackedValidity(args: Args, v: seq<real>, n: int)
    requires PackedSupplied(args) && args.s.value == Vector(v) && args.ns.value == Scalar(n)
    ensures Resolve(args).Ok? <==> n >= 1 && |v| % n == 0 && |v| >= 2 * n
    ensures Resolve(args) == Err(ZeroDivision) <==> n == 0
  {
  }

  /** Outside packed mode A and B must have as many elements as C has columns;
      then k is the number of rows of C. */
  lemma TripleValidity(args: Args, a: seq<real>, b: seq<real>, c: Matrix)
    requires !PackedSupplied(args)
    requires PositionalSupplied(args) ==>
      args.s.value == Vector(a) && args.ns.value == Vector(b) && args.ya.value == Table(c)
    requires !PositionalSupplied(args) && KeywordSupplied(args) ==>
      args.ya.value == Vector(a) && args.yb.value == Vector(b) && args.yc.value == Table(c)
    requires PositionalSupplied(args) || KeywordSupplied(args)
    ensures Resolve(args).Ok? <==> |a| == |b| == c.cols
    ensures Resolve(args).Ok? ==> Resolve(args).value == Samples(a, b, c)
    ensures !Resolve(args).Ok? ==> Resolve(args) == Err(InvalidShape)
  {
  }

  // ---------------------------------------------------------------------------
  // Properties of the result
  // ---------------------------------------------------------------------------

  /** The error taxonomy: no output requested is reported first; a missing input
      exactly when no mode is fully supplied. */
  lemma IndicesErrors(args: Args)
    requires VarianceDefined(args)
    ensures Indices(args) == Err(NoOutputRequested) <==> !args.si && !args.sti
    ensures Indices(args) == Err(MissingInput) <==>
      (args.si || args.sti) && !PackedSupplied(args) && !PositionalSupplied(args) && !KeywordSupplied(args)
    ensures Indices(args) == Err(ZeroDivision) <==>
      (args.si || args.sti) && (Resolve(args) == Err(ZeroDivision) || (Resolve(args).Ok? && |Resolve(args).value.a| < 2))
  {
  }

  /** With neither index requested the call fails with NoOutputRequested,
      whatever the other arguments are: no resolution or arithmetic happens first. */
  lemma NoOutputRequestedFirst(args: Args)
    requires !args.si && !args.sti
    ensures VarianceDefined(args)
    ensures Indices(args) == Err(NoOutputRequested)
  {
  }

  /** A successful call returns one sequence per requested index, Si before STi,
      each with one entry per parameter (row of C). */
  lemma IndicesShape(args: Args)
    requires VarianceDefined(args) && Indices(args).Ok?
    ensures Resolve(args).Ok? && Estimable(Resolve(args).value)
    ensures |Indices(args).value| == (if args.si then 1 else 0) + (if args.sti then 1 else 0)
    ensures forall j :: 0 <= j < |Indices(args).value| ==>
      |Indices(args).value[j]| == |Resolve(args).value.c.rows|
    ensures args.si ==> Indices(args).value[0] == FirstOrderIndices(Resolve(args).value)
    ensures args.sti ==> Indices(args).value[|Indices(args).value| - 1] == TotalOrderIndices(Resolve(args).value)
  {
  }

  /** Asking for one index gives the same sequence as asking for both. */
  lemma SelectiveOutput(args: Args)
    requires VarianceDefined(args.(si := true, sti := true))
    ensures VarianceDefined(args.(si := true, sti := false))
    ensures VarianceDefined(args.(si := false, sti := true))
    ensures Indices(args.(si := true, sti := true)).Ok? ==> |Indices(args.(si := true, sti := true)).value| == 2
    ensures Indices(args.(si := true, sti := false)) ==
      var both := Indices(args.(si := true, sti := true));
      if both.Ok? then Ok([both.value[0]]) else both
    ensures Indices(args.(si := false, sti := true)) ==
      var both := Indices(args.(si := true, sti := true));
      if both.Ok? then Ok([both.value[1]]) else both
  {
    var both := args.(si := true, sti := true);
    var onlyFirst := args.(si := true, sti := false);
    var onlyTotal := args.(si := false, sti := true);
    assert Resolve(both) == Resolve(onlyFirst) == Resolve(onlyTotal) == Resolve(args);
    var r := Resolve(args);
    if r.Ok? && |r.value.a| >= 2 {
      IndicesOk(both, r.value);
      IndicesOk(onlyFirst, r.value);
      IndicesOk(onlyTotal, r.value);
      var first, total := FirstOrderIndices(r.value), TotalOrderIndices(r.value);
      assert [first] + [total] == [first, total];
      assert [first] + [] == [first];
      assert [] + [total] == [total];
      assert Indices(both) == Ok([first, total]);
      assert Indices(onlyFirst) == Ok([first]);
      assert Indices(onlyTotal) == Ok([total]);
    }
  }

  /** The packed vector `A ++ B ++ ravel(C)` with ns = len(A) ≥ 1 resolves to A, B and C. */
  lemma {:induction false} PackedResolves(a: seq<real>, b: seq<real>, c: Matrix, args: Args)
    requires |b| == |a| >= 1 && c.cols == |a|
    requires args.s == Some(Vector(a + b + Flatten(c.rows))) && args.ns == Some(Scalar(|a|))
    requires args.ya.None?
    ensures Resolve(args) == Ok(Samples(a, b, c))
  {
    var n, k := |a|, |c.rows|;
    var s := a + b + Flatten(c.rows);
    RowsOfFlatten(c.rows, n);
    assert |s| == (k + 2) * n;
    MultipleOf(k + 2, n);
    assert s[..n] == a;
    assert s[n .. 2 * n] == b;
    assert s[2 * n..] == Flatten(c.rows);
    assert Grid(n, c.rows) == c;
  }

  /** Giving A, B and C packed as `s = A ++ B ++ ravel(C)` with `ns = len(A)`
      yields the same result as giving them as ya, yb and yc. */
  lemma PackedMatchesKeyword(a: seq<real>, b: seq<real>, c: Matrix,
                             yb: Option<Value>, yc: Option<Value>, si: bool, sti: bool)
    requires |b| == |a| && c.cols == |a|
    requires (si || sti) && |a| >= 2 && |c.rows| > 0 ==> Variance(a, b) != 0.0
    ensures
      var packed := Args(Some(Vector(a + b + Flatten(c.rows))), Some(Scalar(|a|)), None, yb, yc, si, sti);
      var keyword := Args(None, None, Some(Vector(a)), Some(Vector(b)), Some(Table(c)), si, sti);
      && VarianceDefined(packed) && VarianceDefined(keyword)
      && Indices(packed) == Indices(keyword)
  {
    var packed := Args(Some(Vector(a + b + Flatten(c.rows))), Some(Scalar(|a|)), None, yb, yc, si, sti);
    var keyword := Args(None, None, Some(Vector(a)), Some(Vector(b)), Some(Table(c)), si, sti);
    assert Resolve(keyword) == Ok(Samples(a, b, c));
    if |a| >= 1 {
      PackedResolves(a, b, c, packed);
    }
  }

  /** Taking s, ns and ya as A, B and C gives the same result as the keywords ya, yb, yc. */
  lemma PositionalMatchesKeyword(a: seq<real>, b: seq<real>, c: Matrix,
                                 yb: Option<Value>, yc: Option<Value>, si: bool, sti: bool)
    requires |b| == |a| && c.cols == |a|
    requires (si || sti) && |a| >= 2 && |c.rows| > 0 ==> Variance(a, b) != 0.0
    ensures
      var positional := Args(Some(Vector(a)), Some(Vector(b)), Some(Table(c)), yb, yc, si, sti);
      var keyword := Args(None, None, Some(Vector(a)), Some(Vector(b)), Some(Table(c)), si, sti);
      && VarianceDefined(positional) && VarianceDefined(keyword)
      && Indices(positional) == Indices(keyword)
  {
  }
}
