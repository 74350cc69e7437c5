# Sobol indices and masked packing, modelled in Dafny

This project models two routines of the UFZ Python utilities.

- **`sobol_index`** (module `Sobol`, `sobol_index.dfy`) computes Saltelli's variance-based sensitivity indices. The first-order index Si and the total index STi are computed for each of k parameters from model outputs. The outputs are those of two base designs A and B, each with ns samples, and of k mixed designs C[i].
  - The caller gives the outputs in one of three ways: packed into one vector `s` with `ns`; as `ya`, `yb`, `yc`; or positionally as `s, ns, ya`, which are then taken as A, B and C.
  - The model covers how the input mode is chosen, the slicing and reshaping of packed input, and the checks on flags and shapes.
  - It gives the exact estimator formulas for f0², varA, Si and STi.
  - The output is Si before STi, each only when requested.
  - `SobolIndex` follows the routine: checks, resolution, then a loop that fills the preallocated index arrays. It is proved equal to the specification function `Indices`.
- **`pack`** (module `Pack`, `pack.dfy`) is the Fortran `PACK` intrinsic for a mask that covers the array's trailing dimensions.
  - An n-dimensional array is a value: a shape (`seq<nat>`) and its elements in row-major order.
  - `Pack` follows the routine: it checks the dimensions, tiles the flat mask into a buffer array block by block, selects the elements under the tiled mask, and trims the shape and appends `count(mask)`. It is proved equal to the specification function `PackSpec`.
- `wrappers.dfy` holds `Option` and `Result`. `arithmetic.dfy` holds facts about products that the block layouts of both routines need.

Floating-point numbers are modelled as Dafny `real`, so every formula is exact.

Where the code and its documentation disagree, the model follows the code:
- **Fewer than two base samples.** Python float division by zero raises `ZeroDivisionError` and produces no not-a-number values. With ns = 0 the failing division is `ss/nsa` in packed mode (sobol_index.py:109), and `1. / np.float(nsa)` otherwise (sobol_index.py:129). With ns = 1 it is `1. / np.float(nsa-1)` (sobol_index.py:130). In each case the model returns `Err(ZeroDivision)`.
- **No parameter rows.** A packed vector of exactly 2·ns values gives k = 0 parameters and two empty index arrays. The code accepts it and never divides by varA, so the model accepts it whatever A and B hold, even when varA = 0.
- **Shape of yc.** The documentation gives yc the shape (ns, k) (sobol_index.py:22). The code reads the number of rows as k and requires the number of columns to be ns, and it takes row i as the outputs for parameter i (sobol_index.py:125-128, 138). The model follows the code: C is k rows of ns values.
- **Flattening order.** ufz/pack.py:115 comments "Fortran=column-major", but `ravel()` with no argument flattens in row-major (C) order. The model is row-major.

## Model

| member | source | states |
|---|---|---|
| Sobol.ResolvePacked | sobol_index.py:106-112 | packed input resolves only from a vector s and a scalar ns ≥ 1, and then A has ns values and B and the rows of C conform to A; it is a division by zero exactly when s is a vector and ns = 0 |
| Sobol.FlattenLength | sobol_index.py:75 | ravelling k rows of ns values each gives k·ns values |
| Sobol.Rows | sobol_index.py:112 | reshaping k·ns values gives k rows of ns values each |
| Sobol.RowsAt | sobol_index.py:112 | row i of the reshaped matrix is the i-th run of ns consecutive values |
| Sobol.RowsOfFlatten | sobol_index.py:75-77 | ravelling a matrix and reshaping it to its row count gives the same matrix back |
| Sobol.PackedSlices | sobol_index.py:106-112 | for every packed vector whose length is a multiple of ns ≥ 1 and at least 2ns, including exactly 2ns, A = s[0:ns], B = s[ns:2ns] and C has len(s)/ns − 2 rows |
| Sobol.PackedLayout | sobol_index.py:106-112 | in packed mode A = s[0:ns], B = s[ns:2ns], C has len(s)/ns − 2 rows, and row i is s[2ns + i·ns : 2ns + (i+1)·ns] |
| Sobol.PackedValidity | sobol_index.py:107-112 | packed input resolves exactly when ns ≥ 1 divides len(s) and len(s) ≥ 2ns; it is a division by zero exactly when ns = 0 |
| Sobol.ResolveTriple | sobol_index.py:124-128 | separate A, B, C are accepted only when they conform: len(A) = len(B) = columns of C |
| Sobol.TripleValidity | sobol_index.py:116-128 | outside packed mode, resolution succeeds if and only if len(A) = len(B) = columns of C; it returns (A, B, C) unchanged and otherwise fails with InvalidShape; s, ns, ya stand for A, B, C when all three are given |
| Sobol.Resolve | sobol_index.py:106-128 | whichever input mode applies, a successful resolution gives conforming A, B, C |
| Sobol.Estimate | sobol_index.py:129-144 | the loop fills Si[i] = ((1/(ns−1))·ΣA·C[i] − f0²)/varA and STi[i] = 1 − ((1/(ns−1))·ΣB·C[i] − f0²)/varA for every row i of C, with f0² = (1/ns)·ΣA·B and varA = mean(A²) − f0² |
| Sobol.Indices | sobol_index.py:102-149 | a successful call has at least one index requested, an input that resolves and at least two base samples; it returns one sequence per requested index, each with one value per row of C |
| Sobol.SobolIndex | sobol_index.py:102-149 | the routine returns exactly the specified result: each error case, and otherwise the requested index sequences |
| Sobol.IndicesOk | sobol_index.py:146-149 | once the input resolves to estimable samples, the result is [Si] if requested followed by [STi] if requested |
| Sobol.IndicesErrors | sobol_index.py:103-130 | NoOutputRequested exactly when neither index is requested; MissingInput exactly when no input mode is fully supplied; ZeroDivision exactly when ns = 0 in packed mode or fewer than two base samples |
| Sobol.NoOutputRequestedFirst | sobol_index.py:103-104 | with neither index requested the call fails with NoOutputRequested for every other argument, before any input is read or any variance is formed |
| Sobol.IndicesShape | sobol_index.py:135-149 | a successful call returns one sequence per requested index, Si first and STi last, each of length k, the number of rows of C |
| Sobol.SelectiveOutput | sobol_index.py:87-95 | asking for Si alone or STi alone gives the same sequence as the matching entry of the result that holds both |
| Sobol.PackedResolves | sobol_index.py:75-77 | the packed vector A ++ B ++ ravel(C) with ns = len(A) ≥ 1 resolves to exactly A, B and C |
| Sobol.PackedMatchesKeyword | sobol_index.py:70-85 | packed input A ++ B ++ ravel(C) with ns = len(A) gives the same result as ya = A, yb = B, yc = C, errors included |
| Sobol.PositionalMatchesKeyword | sobol_index.py:62-73 | passing A, B, C positionally as s, ns, ya gives the same result as passing them as ya, yb, yc |
| Pack.Pack | ufz/pack.py:100-135 | the routine returns exactly the specified result: each failed assertion, the division by zero, and otherwise the packed array |
| Pack.PackSpec | ufz/pack.py:100-135 | a successful pack has ndim(mask) ≤ ndim(array) and a nonempty mask whose size divides the array's size; its output is well formed, with ndim(array) − ndim(mask) + 1 dimensions, the last of them count(mask) |
| Pack.SameTrailing | ufz/pack.py:109-112 | the loop over k = −1, …, −ndim(mask) reports a match exactly when every trailing dimension of the mask equals the array's |
| Pack.TileInto | ufz/pack.py:117-122 | the block loop fills a fresh buffer with exactly nn copies of the flat mask, one after the other |
| Pack.DropTrailing | ufz/pack.py:126-130 | deleting the last dimension n times leaves exactly the first len(shape) − n dimensions |
| Pack.Leading | ufz/pack.py:126-130 | deleting the last ndim(mask) dimensions keeps the first ndim(array) − ndim(mask) dimensions unchanged |
| Pack.Tile | ufz/pack.py:117-122 | the tiled mask has nn·nmask entries |
| Pack.TileAt | ufz/pack.py:117-122 | entry k·nmask + j of the tiled mask is entry j of the flat mask |
| Pack.Count | ufz/pack.py:131 | count(mask) is at most the number of mask entries |
| Pack.CountExtremes | ufz/pack.py:131 | count(mask) is zero exactly when no entry is true, and equals the number of entries exactly when every entry is true |
| Pack.Select | ufz/pack.py:125 | boolean indexing keeps as many elements as there are true entries |
| Pack.Positions | ufz/pack.py:125 | the true positions of a mask are listed in increasing order, each exactly once, and nothing else is listed |
| Pack.SelectAt | ufz/pack.py:125 | element t of a boolean selection is the element at the t-th true position: order is preserved and nothing else is kept |
| Pack.TrailingSplit | ufz/pack.py:109-118 | when the trailing dimensions match, narray = (product of the leading dimensions) · nmask, so nmask divides narray |
| Pack.CountTile | ufz/pack.py:117-131 | the tiled mask has nn · count(mask) true entries |
| Pack.SelectTileBlock | ufz/pack.py:117-125 | block r of the selection under the tiled mask is block r of the flat array selected by the mask |
| Pack.SelectMaskedSum | ufz/pack.py:125 | a boolean selection sums to the sum of the entries where the mask is true |
| Pack.MaskedSumZeroOutside | ufz/pack.py:55-60 | when every entry outside the mask is zero, the sum over the mask is the whole sum |
| Pack.SelectSum | ufz/pack.py:55-60 | dropping only zero elements keeps the sum |
| Pack.PackErrors | ufz/pack.py:108-118 | too few dimensions exactly when ndim(mask) > ndim(array); a shape mismatch exactly when some trailing dimension differs; a division by zero exactly when the dimensions match and the mask has no elements; success exactly when none of these holds |
| Pack.PackShape | ufz/pack.py:126-133 | the output shape is the array's leading dimensions followed by count(mask); the output is well formed and holds (narray/nmask)·count(mask) elements |
| Pack.PackFlat | ufz/pack.py:115-125 | the tiled mask has narray entries, and the output's elements are exactly the flat array selected by it |
| Pack.PackOrder | ufz/pack.py:115-125 | the tiled mask has narray entries and the output is the flat array selected by it: exactly the elements at the tiled mask's true positions, in their original order |
| Pack.PackTiling | ufz/pack.py:117-122 | the tiled mask has narray entries, and entry k·nmask + j is mask entry j for every block k < narray/nmask |
| Pack.PackBlocks | ufz/pack.py:63-70 | slice r of the output along the leading dimensions is block r of the flat array packed by the mask |
| Pack.PackMaskedSum | ufz/pack.py:115-125 | for every array, the sum of the output equals the sum of the array's elements at the true positions of the tiled mask |
| Pack.PackSum | ufz/pack.py:55-67 | the doctest's special case: when every array element outside the tiled mask is zero, the sum of the output equals the sum of the array |

## Left out

- Floating-point rounding is not modelled. Values are exact reals, so the doctests' 8-digit golden values are not reproduced.
- Sobol.SobolIndex: a zero variance estimate varA is excluded by the precondition `VarianceDefined`, but only where the code divides by it: when an index is requested, the input resolves with at least two base samples, and C has at least one row. With varA = 0 there, numpy's float division gives infinities or not-a-number values (sobol_index.py:141, 144), and the model does not produce those. The same precondition is on `Indices`, `IndicesErrors`, `IndicesShape` and the lemmas built on them.
- Sobol.Indices: a value of the wrong kind is reported as `InvalidShape`. Examples are a matrix where a vector is expected, or a vector for `ns`. Python often raises a `TypeError` or `IndexError` there, but numpy broadcasting can also let it compute a result silently. A ya of shape (1, ns) gives the same numbers as a vector. A yb of shape (ns, 1) broadcasts against ya and gives different numbers. The model reports `InvalidShape` for all of these.
- Sobol.ResolvePacked: a packed vector with len(s) < 2·ns is reported as `InvalidShape`. The code also fails there, but with a different error. `(ss/nsa)-2` is −1 or −2, so it raises `ValueError` at the reshape (sobol_index.py:112), at the broadcast of A·B (sobol_index.py:132) or at `np.empty(nn)` (sobol_index.py:135-136). When ns = 1 it can raise `ZeroDivisionError` at sobol_index.py:130 instead. Only the kind of error differs.
- The `!= None` tests on numpy arrays (sobol_index.py:106, 114) are modelled as whether an argument is present. An `Option` stands for each argument.
- Sobol.Estimate: an index array that was not requested is returned empty. In Python that name is never bound.
- Pack.PackSpec: an all-false mask gives an empty last dimension, as numpy does. The routine's documentation calls this case undefined (ufz/pack.py:35).
- Element types (numpy dtypes) and numpy memory layout are not modelled. Arrays are values, so reshaping never copies or aliases.
- srrasa.py is not part of this model: its stratified random sampling depends on a random number generator.
- writenetcdf.py is not part of this model: it wraps file I/O through the netCDF4 library.
- The package `__init__` files are not part of this model: they only re-export names.
