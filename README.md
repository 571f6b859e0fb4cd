# hiop core: CSR kernels, PriDec options, primal-decomposition curvature model

This project is a Dafny model of three sequential parts of the hiop optimization library. It proves properties of each.

1. **The compressed-sparse-row matrix `hiopMatrixSparseCSR`.**
   - The class keeps its row pointers, column indexes and values. It also keeps two buffers that are allocated on demand: the row starts used by the transpose, and the dense column workspace used by the product.
   - The class is modelled over Dafny arrays.
   - Each kernel is a loop over those arrays, proved to produce the contents of a pure specification. The kernels are:
     - the triplet-to-CSR conversion, by counting;
     - the transpose, by counting sort;
     - the sorted-merge addition `M = gamma*M + alpha*X + beta*Y`, with its count, symbolic and numeric passes;
     - the sparse product `M = beta*M + alpha*X*Y`, using a flag array and a scatter/gather workspace;
     - row and column scaling;
     - the diagonal updates.
   - The specifications are row sequences, row-pointer encodings, counts and selections, sorted merges, first-seen unions and dense row sums. Their properties are lemmas: well-formed row pointers, sorted and distinct columns, encode/decode, merge symmetry, and the product entry formula.
2. **The option registry `hiopOptions` specialised by `hiopOptionsPriDec`.**
   - The registry is a typed table from names to entries. Each entry has a value, bounds or a range of accepted strings, and the two provenance flags `specifiedInFile` and `specifiedAtRuntime`.
   - Pure table functions (module `Options`) state what each operation does. A class `PriDecOptions`, holding the table as a `map` field, is proved to compute them.
   - These operations are covered:
     - the public setters with their precedence rules;
     - the internal `set_val`;
     - `is_user_defined`;
     - the PriDec consistency fix-up;
     - the classification and dispatch of the lines of the option file;
     - the PriDec option table.
3. **The primal-decomposition driver `hiopAlgPrimalDecomposition`.**
   - Its curvature model `HessianApprox` is modelled over exact reals, with vectors as `seq<real>` and `||v||^2` as a dot product. It covers:
     - the secant state shift;
     - the two trust-region ratio rules and their clamping;
     - the three clamped curvature candidates;
     - the function-based convergence measure and the base value.
   - The driver's own parts are:
     - the settings read from the options;
     - the stopping predicate;
     - the acceptable-iteration counter;
     - the outer loop bound;
     - the serial averaging of recourse values and gradients in `run_single`.
   - IEEE behaviour that the code relies on is modelled explicitly (module `Ieee`):
     - division by zero yields an infinity or NaN;
     - comparisons with NaN are false;
     - `std::max`/`std::min` then map NaN and the infinities to one of the clamping bounds.

## Model

| member | source | states |
|---|---|---|
| CsrPattern.RowPtrWellFormed | src/LinAlg/hiopMatrixSparseCSR.cpp:763-767 | row pointers built from any row sequence start at 0, never decrease and end at the number of stored entries |
| CsrPattern.FlattenRowOf | src/LinAlg/hiopMatrixSparseCSR.cpp:1045-1099 | a general encoding fact used by the symbolic sum and product: after the rows are written one after another, the slots `irowptr_[i]..irowptr_[i+1]` hold row i |
| CsrPattern.DecodeEncode | src/LinAlg/hiopMatrixSparseCSR.cpp:1045-1099 | the row pointers written for any row sequence are well formed, and reading the rows back through them gives that sequence |
| CsrPattern.RowPtrMono | src/LinAlg/hiopMatrixSparseCSR.cpp:763-767 | row pointers never decrease |
| CsrPattern.EncodeDecode | src/LinAlg/hiopMatrixSparseCSR.cpp:963-967 | a well-formed CSR array is the encoding of the rows read from it |
| CsrPattern.SameShape | src/LinAlg/hiopMatrixSparseCSR.cpp:1140-1146 | a pattern and its values, rows of equal lengths, share their row pointers, so the numeric pass follows the symbolic one |
| CsrPattern.NoSlotsNoRows | src/LinAlg/hiopMatrixSparseCSR.cpp:984-1022 | a general encoding fact used for the sum of matrices without columns: a well-formed CSR array whose last row pointer is 0 has only empty rows |
| CsrCount.CountOffsetsWellFormed | src/LinAlg/hiopMatrixSparseCSR.cpp:763-767 | the counting row pointers are well formed, end at the number of triplets, and consecutive pointers differ by the count of the row |
| CsrCount.TripletRows | src/LinAlg/hiopMatrixSparseCSR.cpp:744-767 | for triplets sorted by row with increasing columns, row i of the CSR result is exactly the columns of the triplets of row i, strictly increasing |
| CsrCount.TransposeRowPtr | src/LinAlg/hiopMatrixSparseCSR.cpp:815-832 | the rows of the transpose are encoded by the counting offsets of the column indexes, ending at nnz (proved, not assigned as in the assert at line 832) |
| CsrCount.TransposeRowSorted | src/LinAlg/hiopMatrixSparseCSR.cpp:858-864 | for sorted triplets every row of the transpose lists its column indexes strictly increasing |
| CsrCount.SelectContiguous | src/LinAlg/hiopMatrixSparseCSR.cpp:763-767 | for non-decreasing row keys the triplets of one row form the contiguous block after the rows before it |
| CsrCount.SelectAt | src/LinAlg/hiopMatrixSparseCSR.cpp:835-851 | triplet k is entry number (earlier triplets of its key) of the selection of its key, which is where the scatter puts it |
| CsrMerge.MergeValues | src/LinAlg/hiopMatrixSparseCSR.cpp:1151-1211 | the length of the merged values equals the length of the merged pattern |
| CsrMerge.MergeElements | src/LinAlg/hiopMatrixSparseCSR.cpp:1047-1095 | the merged row holds exactly the columns stored in either row |
| CsrMerge.MergeSorted | src/LinAlg/hiopMatrixSparseCSR.cpp:1056-1095 | the merge of two strictly increasing rows is strictly increasing |
| CsrMerge.MergeSize | src/LinAlg/hiopMatrixSparseCSR.cpp:984-1016 | the per-row count of the merge is the size of the union of the two column sets |
| CsrMerge.MergeValuesAt | src/LinAlg/hiopMatrixSparseCSR.cpp:1160-1183 | at every merged column the merged value is the sum of what the two rows store there |
| CsrMerge.LookupScaled | src/LinAlg/hiopMatrixSparseCSR.cpp:1165-1180 | looking up in scaled values scales the lookup, so merged column j carries alpha*X[i,j] + beta*Y[i,j] |
| CsrMerge.MergeSwap | src/LinAlg/hiopMatrixSparseCSR.cpp:1056-1078 | the merged pattern is symmetric in X and Y |
| CsrProduct.ProductRowSpec | src/LinAlg/hiopMatrixSparseCSR.cpp:616-643 | row i of the product pattern is duplicate free and holds exactly the columns of the Y rows named by row i of X |
| CsrProduct.ProductRowDistinct | src/LinAlg/hiopMatrixSparseCSR.cpp:629-639 | the flag array makes every column of a product row appear once |
| CsrProduct.ProductRowInRange | src/LinAlg/hiopMatrixSparseCSR.cpp:629-631 | product columns lie in [0, n) when those of Y do |
| CsrProduct.ProductEntryOffPattern | src/LinAlg/hiopMatrixSparseCSR.cpp:695-707 | off the product pattern the product entry sum is zero |
| CsrProduct.DenseRowAt | src/LinAlg/hiopMatrixSparseCSR.cpp:696-707 | after the scatters of row i the workspace holds, at column j, its old value plus product entry (i, j) |
| CsrProduct.GatherProductRow | src/LinAlg/hiopMatrixSparseCSR.cpp:695-714 | scatter then gather over the product row yields row i of alpha*X*Y and leaves the workspace zero |
| CsrProduct.ProductNoColumns | src/LinAlg/hiopMatrixSparseCSR.cpp:521-566 | with no columns in Y the product has no entries |
| CsrKernels.ScaleValues | src/LinAlg/hiopMatrixSparseCSR.cpp:1127-1135 | the factor 0 zeroes the values, any factor other than 1 scales every value, and the factor 1 leaves them alone (`DSCAL` as an entry-wise product) |
| CsrKernels.Scatter | src/LinAlg/hiopMatrixSparseCSR.cpp:888-903 | the counting-sort distribution writes, from the row starts, every row c with the entries of key c in input order, and advances each cursor to its row end |
| CsrKernels.Rollback | src/LinAlg/hiopMatrixSparseCSR.cpp:905-908 | shifting row ends down one row, with 0 in front, restores the row starts |
| CsrKernels.MergeRowCount | src/LinAlg/hiopMatrixSparseCSR.cpp:988-1016 | the merge walk of one row counts the entries of the merged row |
| CsrKernels.MergeRowHead | src/LinAlg/hiopMatrixSparseCSR.cpp:1056-1078 | the `while` part writes the first entries of the merge, and what remains of the merge is the merge of what remains of the rows |
| CsrKernels.CopyRun | src/LinAlg/hiopMatrixSparseCSR.cpp:1080-1095 | a tail loop copies the rest of one row into the next slots and touches nothing else |
| CsrKernels.MergeRowInto | src/LinAlg/hiopMatrixSparseCSR.cpp:1049-1095 | one row of `add_matrix_symbolic` writes the merged row after the entries before it and leaves later slots alone |
| CsrKernels.MergeValuesRowHead | src/LinAlg/hiopMatrixSparseCSR.cpp:1151-1185 | the `while` part of the value walk adds the first merged values slot by slot |
| CsrKernels.AddRun | src/LinAlg/hiopMatrixSparseCSR.cpp:1189-1211 | a tail loop of the value walk adds the scaled rest of one row to the next slots |
| CsrKernels.MergeValuesRowInto | src/LinAlg/hiopMatrixSparseCSR.cpp:1140-1211 | one row of `add_matrix_numeric` adds row i of alpha*X + beta*Y to its slots of M |
| CsrProductKernels.ClearFlags | src/LinAlg/hiopMatrixSparseCSR.cpp:541 | after the `memset` no column is marked |
| CsrProductKernels.AppendNewCount | src/LinAlg/hiopMatrixSparseCSR.cpp:549-559 | the inner loop counts the columns of a Y row not seen yet and marks them, so the flags mark exactly the columns seen |
| CsrProductKernels.AppendNewInto | src/LinAlg/hiopMatrixSparseCSR.cpp:629-641 | the inner loop appends the unseen columns of a Y row in order and marks them |
| CsrProductKernels.ProductRowCount | src/LinAlg/hiopMatrixSparseCSR.cpp:539-561 | one row of `times_mat_alloc` counts the length of the product row |
| CsrProductKernels.ProductRowInto | src/LinAlg/hiopMatrixSparseCSR.cpp:616-643 | one row of `times_mat_symbolic` writes the product row after the entries already written |
| CsrProductKernels.ScatterRow | src/LinAlg/hiopMatrixSparseCSR.cpp:703-706 | the innermost loop adds `valuesY[py]*val` to W at the columns of row k of Y |
| CsrProductKernels.DenseRowInto | src/LinAlg/hiopMatrixSparseCSR.cpp:696-707 | the scatters of row i turn W into W plus X[i,k]*Y[k,:] for every stored k |
| CsrProductKernels.Gather | src/LinAlg/hiopMatrixSparseCSR.cpp:709-713 | the gather adds alpha*W[j] to each slot of row i of M and resets those columns of W |
| CsrProductKernels.ClearWorkspace | src/LinAlg/hiopMatrixSparseCSR.cpp:691-693 | every entry of the workspace becomes 0 |
| CsrProductKernels.ProductValueRowInto | src/LinAlg/hiopMatrixSparseCSR.cpp:695-714 | row i of `times_mat_numeric` adds row i of alpha*X*Y to the slots of row i of M and leaves W zero |
| CsrProductRows.ProductPatternInto | src/LinAlg/hiopMatrixSparseCSR.cpp:615-644 | the row loop writes the row pointers and column indexes of the product pattern |
| CsrProductRows.ProductValuesInto | src/LinAlg/hiopMatrixSparseCSR.cpp:695-714 | the row loop adds, slot by slot, the values of alpha*X*Y, with W zero after every row |
| CsrProductRows.ProductCount | src/LinAlg/hiopMatrixSparseCSR.cpp:535-563 | the count of `times_mat_alloc` is the number of entries of the product pattern |
| CsrProductRows.ProductPatternCsr | src/LinAlg/hiopMatrixSparseCSR.cpp:609-645 | the pattern pass, with its own flag array, writes well-formed row pointers ending at the counted nnz, and the product rows |
| CsrProductRows.ProductValuesCsr | src/LinAlg/hiopMatrixSparseCSR.cpp:695-714 | the value pass adds alpha*X*Y on the product pattern |
| CsrProductRows.ScaleAddProduct | src/LinAlg/hiopMatrixSparseCSR.cpp:672-714 | M becomes beta*M + alpha*X*Y, with the beta == 0 and beta == 1 branches, and W ends zero |
| SparseCSR.DiagSlot | src/LinAlg/hiopMatrixSparseCSR.cpp:1219-1225 | the slot found is the first one of the row with column i, or the row end when there is none |
| SparseCSR.FindDiag | src/LinAlg/hiopMatrixSparseCSR.cpp:1220-1225 | the search loop with its `break` stops at `DiagSlot` |
| SparseCSR.AddDiagAt | src/LinAlg/hiopMatrixSparseCSR.cpp:183-190 | `addDiagonal` changes only the first slot of row i with column i, by alpha*D[i]; a row with no stored diagonal is unchanged |
| SparseCSR.SetDiagAt | src/LinAlg/hiopMatrixSparseCSR.cpp:1219-1226 | `set_diagonal` only sets the first slot of row i with column i to val; a row with no stored diagonal is unchanged |
| SparseCSR.AddDiagRest | src/LinAlg/hiopMatrixSparseCSR.cpp:183-190 | slots past the last row are untouched by `addDiagonal` |
| SparseCSR.SetDiagRest | src/LinAlg/hiopMatrixSparseCSR.cpp:1219-1226 | slots past the last row are untouched by `set_diagonal` |
| SparseCSR.AddDiagRows | src/LinAlg/hiopMatrixSparseCSR.cpp:183-190 | the row loop of `addDiagonal` computes `AddDiag` |
| SparseCSR.SetDiagRows | src/LinAlg/hiopMatrixSparseCSR.cpp:1219-1226 | the row loop of `set_diagonal` computes `SetDiag` |
| SparseCSR.RowCounts | src/LinAlg/hiopMatrixSparseCSR.cpp:742-761 | the triplet loop counts the triplets of every row and copies the column indexes in input order |
| SparseCSR.OffsetsFromCounts | src/LinAlg/hiopMatrixSparseCSR.cpp:763-766 | the cumulative sum of the row counts gives the counting offsets |
| SparseCSR.ColumnCounts | src/LinAlg/hiopMatrixSparseCSR.cpp:815-822 | the counting loop of the transpose records the number of triplets of every column |
| SparseCSR.StartsFromCounts | src/LinAlg/hiopMatrixSparseCSR.cpp:825-829 | the cumulative sum writes the counting offsets and turns the counts into the row starts |
| SparseCSR.TransposeInto | src/LinAlg/hiopMatrixSparseCSR.cpp:805-857 | the whole symbolic transpose: counting row pointers ending at nnz, rows of the transpose in the column array, row starts restored |
| SparseCSR.TransposeSlotHolds | src/LinAlg/hiopMatrixSparseCSR.cpp:839-843 | the slot the symbolic pass gives triplet k holds triplet k's data, so the numeric pass puts each value where its pattern entry is |
| SparseCSR.TransposePattern | src/LinAlg/hiopMatrixSparseCSR.cpp:805-865 | the transpose pattern is a well-formed CSR whose row c holds the rows of the triplets of column c, in range, and strictly increasing for sorted input |
| SparseCSR.TripletPattern | src/LinAlg/hiopMatrixSparseCSR.cpp:742-767 | for sorted triplets, the counting offsets over the unchanged column array form a well-formed CSR whose row i is the columns of row i, strictly increasing |
| SparseCSR.DiagPattern | src/LinAlg/hiopMatrixSparseCSR.cpp:930-934 | `irowptr_[i] == i`, `jcolind_[i] == i`, and row i is [i] |
| SparseCSR.ScaleRowSlots | src/LinAlg/hiopMatrixSparseCSR.cpp:963-967 | every value of row i is multiplied by D[i]; slots past the last row are untouched |
| SparseCSR.ScaleColSlots | src/LinAlg/hiopMatrixSparseCSR.cpp:949-953 | every stored value is multiplied by D at its column; slots past the last row are untouched |
| SparseCSR.MergeNoColumns | src/LinAlg/hiopMatrixSparseCSR.cpp:984-1022 | with no columns both matrices store nothing, and neither does their sum |
| SparseCSR.AppendMerge | src/LinAlg/hiopMatrixSparseCSR.cpp:1053-1095 | the merge walk writes the merge of the two row slices after the entries before it |
| SparseCSR.MergeRowsAt | src/LinAlg/hiopMatrixSparseCSR.cpp:1053-1095 | row i of the pattern of X + Y is the merge of the slices `irowptrX[i]..irowptrX[i+1]` and `irowptrY[i]..irowptrY[i+1]` |
| SparseCSR.MergeValueRowsAt | src/LinAlg/hiopMatrixSparseCSR.cpp:1147-1211 | row i of the values of alpha*X + beta*Y is the value walk over the same two slices, with alpha and beta applied |
| SparseCSR.AddPatternRows | src/LinAlg/hiopMatrixSparseCSR.cpp:1045-1099 | the row loop of `add_matrix_symbolic` writes the row pointers and the merged rows; slots past them are untouched |
| SparseCSR.AddMatrixValues | src/LinAlg/hiopMatrixSparseCSR.cpp:1127-1213 | M's values become gamma*M + the flattened merged values of alpha*X + beta*Y, covering every slot of M |
| SparseCSR.AddValueRows | src/LinAlg/hiopMatrixSparseCSR.cpp:1138-1212 | the row loop of `add_matrix_numeric` adds the merged values of every row |
| SparseCSR.CsrMatrix.constructor | src/LinAlg/hiopMatrixSparseCSR.cpp:21-35 | a zero dimension gives nnz 0 and no arrays; otherwise the arrays are allocated with their sizes; both buffers start null |
| SparseCSR.CsrMatrix.Empty | src/LinAlg/hiopMatrixSparseCSR.cpp:37-45 | the default matrix is 0 x 0 with nothing allocated |
| SparseCSR.CsrMatrix.Realloc | src/LinAlg/hiopMatrixSparseCSR.cpp:53-82 | `dealloc` then `alloc`: fresh arrays of the new sizes, buffers null again |
| SparseCSR.CsrMatrix.SetToZero | src/LinAlg/hiopMatrixSparseCSR.cpp:84-89 | every stored value is 0 |
| SparseCSR.CsrMatrix.SetToConstant | src/LinAlg/hiopMatrixSparseCSR.cpp:90-95 | every stored value is c |
| SparseCSR.CsrMatrix.FormFromSymbolic | src/LinAlg/hiopMatrixSparseCSR.cpp:717-768 | for triplets in any order (the sortedness is only asserted in debug builds), the dimensions are taken over; with nonzeros the row pointers are the counting offsets (well formed, ending at nnz) and the columns are copied in input order |
| SparseCSR.CsrMatrix.FormFromNumeric | src/LinAlg/hiopMatrixSparseCSR.cpp:770-778 | the values are the triplet values |
| SparseCSR.CsrMatrix.FormTransposeFromSymbolic | src/LinAlg/hiopMatrixSparseCSR.cpp:780-866 | the transpose pattern, `irowptr_[nrows_] == nnz_`, and `row_starts_` left holding the row starts |
| SparseCSR.CsrMatrix.FormTransposeFromNumeric | src/LinAlg/hiopMatrixSparseCSR.cpp:868-909 | the values land in the transpose's slots (the rows of the transpose applied to the values) and `row_starts_` is restored, so the pass can repeat |
| SparseCSR.CsrMatrix.FormDiagFromSymbolic | src/LinAlg/hiopMatrixSparseCSR.cpp:911-935 | an m x m diagonal CSR pattern: `irowptr_[i] == i`, `jcolind_[i] == i` |
| SparseCSR.CsrMatrix.FormDiagFromNumeric | src/LinAlg/hiopMatrixSparseCSR.cpp:937-941 | the values are the entries of D |
| SparseCSR.CsrMatrix.ScaleRows | src/LinAlg/hiopMatrixSparseCSR.cpp:958-968 | each value of row i is multiplied by D[i]; the pattern is not in the frame, so it is unchanged |
| SparseCSR.CsrMatrix.ScaleCols | src/LinAlg/hiopMatrixSparseCSR.cpp:944-955 | each value is multiplied by D at its column; the pattern is unchanged |
| SparseCSR.CsrMatrix.AddDiagonal | src/LinAlg/hiopMatrixSparseCSR.cpp:175-191 | the values become `AddDiag` of the old ones (see `AddDiagAt`) |
| SparseCSR.CsrMatrix.SetDiagonal | src/LinAlg/hiopMatrixSparseCSR.cpp:1216-1227 | the values become `SetDiag` of the old ones (see `SetDiagAt`) |
| SparseCSR.CsrMatrix.AddMatrixAlloc | src/LinAlg/hiopMatrixSparseCSR.cpp:971-1023 | a new matrix with the dimensions of X and as many nonzeros as the merged pattern |
| SparseCSR.CsrMatrix.AddMatrixSymbolic | src/LinAlg/hiopMatrixSparseCSR.cpp:1030-1100 | M receives the row pointers and the merged rows of X + Y, a well-formed CSR with `irowptrM[nrows_]` at most nnz(M) |
| SparseCSR.CsrMatrix.AddMatrixNumeric | src/LinAlg/hiopMatrixSparseCSR.cpp:1105-1214 | M = gamma*M + alpha*X + beta*Y on the merged pattern, every slot of M visited (`itnnzM == nnz(M)`) |
| SparseCSR.CsrMatrix.EnsureBufCol | src/LinAlg/hiopMatrixSparseCSR.cpp:604-607 | a null workspace becomes a fresh array of ncols entries; an existing one is kept |
| SparseCSR.CsrMatrix.TimesMatAlloc | src/LinAlg/hiopMatrixSparseCSR.cpp:521-567 | a new m x n matrix with as many nonzeros as the product pattern |
| SparseCSR.CsrMatrix.TimesMatSymbolic | src/LinAlg/hiopMatrixSparseCSR.cpp:582-646 | M receives the product pattern (first-seen order, distinct), well-formed, and its workspace exists and is zero |
| SparseCSR.CsrMatrix.TimesMatNumeric | src/LinAlg/hiopMatrixSparseCSR.cpp:648-715 | M = beta*M + alpha*X*Y on the product pattern; the workspace ends all zero |
| Options.NewOption | src/Utils/hiopOptions.hpp:157-162 | a freshly registered option has neither provenance flag |
| Options.ToLower | src/Utils/hiopOptions.cpp:422-423 | the lower-cased string has the same length and no upper-case letter |
| Options.SkipSpace | src/Utils/hiopOptions.cpp:161 | the index returned is the first character that is not white space, everything skipped being white space |
| Options.WordEnd | src/Utils/hiopOptions.cpp:166-167 | the word extracted runs to the first white space |
| Options.LoadLines | src/Utils/hiopOptions.cpp:160-229 | reading lines keeps both tolerances registered |
| Options.ConsistentKeeps | src/Utils/hiopOptions.cpp:1678-1692 | the fix-up changes nothing but the value of 'acceptable_tolerance' |
| Options.ApplyKeeps | src/Utils/hiopOptions.cpp:172-228 | a line from the file keeps the tolerances registered and 'tolerance' in range |
| Options.SetNumericKeeps | src/Utils/hiopOptions.cpp:260-304 | `SetNumericValue` keeps the tolerances registered and 'tolerance' in range |
| Options.SetIntegerKeeps | src/Utils/hiopOptions.cpp:326-367 | `SetIntegerValue` keeps the tolerances registered and 'tolerance' in range |
| Options.SetStringKeeps | src/Utils/hiopOptions.cpp:397-453 | `SetStringValue` keeps the tolerances registered and 'tolerance' in range |
| OptionsFacts.ToLowerFacts | src/Utils/hiopOptions.cpp:422-423 | lower-casing leaves no upper-case letter, keeps every other character, and is idempotent |
| OptionsFacts.ClassifyBlank | src/Utils/hiopOptions.cpp:161-163 | a line is blank exactly when it is white space only |
| OptionsFacts.ClassifyComment | src/Utils/hiopOptions.cpp:161-164 | a line is a comment exactly when its first character that is not white space is '#' |
| OptionsFacts.ClassifySetting | src/Utils/hiopOptions.cpp:160-170 | a line is read as the setting (name, value) exactly when it holds, after white space, the name, which does not start with '#', white space and the value, both non-empty words free of white space, whatever follows |
| OptionsFacts.ClassifyUnparsable | src/Utils/hiopOptions.cpp:166-170 | the two extractions fail, and the line is ignored with a warning, exactly when the line holds one word that does not start with '#' |
| OptionsFacts.SetValNumEffect | src/Utils/hiopOptions.hpp:143-148 | `set_val(double)` stores exactly an in-bounds value of a registered numeric option, changes nothing otherwise, and never touches the flags |
| OptionsFacts.SetValIntEffect | src/Utils/hiopOptions.cpp:306-324 | the same for `set_val(int)` |
| OptionsFacts.SetValStrEffect | src/Utils/hiopOptions.cpp:369-395 | `set_val(const char*)` stores the lower-cased value when the range is empty or holds it; flags never touched |
| OptionsFacts.ConsistentOrders | src/Utils/hiopOptions.cpp:1678-1692 | after the fix-up a user-defined 'acceptable_tolerance' is at least 'tolerance' |
| OptionsFacts.ConsistentIdempotent | src/Utils/hiopOptions.cpp:1678-1692 | the fix-up is idempotent |
| OptionsFacts.SettersKeepOrdered | src/Utils/hiopOptions.cpp:260-453 | every public setter either returns early, changing nothing, or ends with the fix-up, so the ordering holds afterwards when it held before |
| OptionsFacts.SetsKeepRange | src/Utils/hiopOptions.cpp:282-297 | storing an entry of the same type and bounds, with an in-bounds or unchanged numeric value, keeps both tolerances registered and 'tolerance' in the range of 'acceptable_tolerance' |
| OptionsFacts.StoreKeepsInBounds | src/Utils/hiopOptions.cpp:282-297 | replacing one entry by one in its own bounds keeps every value in range |
| OptionsFacts.StoreNumValid | src/Utils/hiopOptions.cpp:282-297 | the numeric entry stored by `SetNumericValue` keeps the table invariants |
| OptionsFacts.StoreIntValid | src/Utils/hiopOptions.cpp:348-360 | the integer entry stored by `SetIntegerValue` keeps the table invariants |
| OptionsFacts.StoreStrValid | src/Utils/hiopOptions.cpp:419-446 | the string entry stored by `SetStringValue` keeps the table invariants |
| OptionsFacts.SetValKeepInBounds | src/Utils/hiopOptions.cpp:241-395 | the internal setters store only in-range values |
| OptionsFacts.ConsistentInBounds | src/Utils/hiopOptions.cpp:1678-1692 | the fix-up keeps every value in range |
| OptionsFacts.SetNumericInBounds | src/Utils/hiopOptions.cpp:260-304 | `SetNumericValue` keeps every numeric and integer value in its bounds |
| OptionsFacts.SetIntegerInBounds | src/Utils/hiopOptions.cpp:326-367 | `SetIntegerValue` keeps every value in its bounds |
| OptionsFacts.SetStringInBounds | src/Utils/hiopOptions.cpp:397-453 | `SetStringValue` keeps every value in its bounds |
| OptionsFacts.ApplyInBounds | src/Utils/hiopOptions.cpp:172-228 | a line of the option file keeps every value in range |
| OptionsFacts.LoadLinesInBounds | src/Utils/hiopOptions.cpp:160-229 | reading an option file keeps every value in range |
| OptionsFacts.FileBeatsRuntime | src/Utils/hiopOptions.cpp:271-280 | a runtime value for an option specified in the file leaves the table unchanged (and the setter reports success), for all three types |
| OptionsFacts.UnknownNameOnlyFixUp | src/Utils/hiopOptions.cpp:260-304 | a name not registered with the setter's type changes no entry; only the fix-up may act |
| OptionsFacts.SetNumericEffect | src/Utils/hiopOptions.cpp:282-303 | the flag of the value's source is set even when the value is out of bounds; an in-bounds value is stored, an out-of-bounds one rejected; the option becomes user-defined; only 'acceptable_tolerance' may change besides |
| OptionsFacts.SetAcceptableTolerance | src/Utils/hiopOptions.cpp:1678-1692 | setting 'acceptable_tolerance' ends on the kept or stored value, raised to 'tolerance' when below it |
| OptionsFacts.SetIntegerEffect | src/Utils/hiopOptions.cpp:326-367 | as for numeric values, except that a runtime value never sets `specifiedAtRuntime` |
| OptionsFacts.SetStringEffect | src/Utils/hiopOptions.cpp:397-453 | the lower-cased value is stored iff the range is empty or holds it; a runtime value never sets `specifiedAtRuntime` |
| OptionsFacts.RuntimeIntStrNotUserDefined | src/Utils/hiopOptions.cpp:348-421 | integer and string values set at runtime do not make an option user-defined |
| OptionsFacts.FilePrecedence | src/Utils/hiopOptions.hpp:67-73 | a file value overrides a runtime value, a later runtime value is ignored, and a later `setFromFile` value overwrites the file value |
| OptionsFacts.LoadLineDispatch | src/Utils/hiopOptions.cpp:160-228 | blank, comment and unparsable lines, unknown names and unparsable numbers leave the table; other settings go to the typed setter with `setFromFile` true |
| OptionsFacts.LoadNoSettings | src/Utils/hiopOptions.cpp:160-229 | a file without setting lines changes nothing |
| OptionsFacts.LoadLinesAppend | src/Utils/hiopOptions.cpp:160-229 | reading two files in turn is reading their concatenation |
| OptionsFacts.PriDecTableFacts | src/Utils/hiopOptions.cpp:1588-1676 | the PriDec table registers both tolerances (with 'tolerance' inside the range of 'acceptable_tolerance'), nothing is user-defined, and every numeric and integer default lies in its bounds |
| OptionsFacts.PriDecStringDefaults | src/Utils/hiopOptions.hpp:133-134 | the unrestricted 'options_file_master_prob' has the empty range; the default "false" of 'accum_local' is outside its range {"yes", "no"} |
| OptionsRegistry.FindInRange | src/Utils/hiopOptions.cpp:425-428 | the `std::find` loop answers whether the value is in the range |
| OptionsRegistry.PriDecOptions.constructor | src/Utils/hiopOptions.cpp:1579-1585 | the table is the PriDec table after the file's lines and the fix-up, and the invariant holds |
| OptionsRegistry.PriDecOptions.RegisterNumOption | src/Utils/hiopOptions.cpp:108-115 | a fresh numeric entry with its default and bounds replaces any entry of that name |
| OptionsRegistry.PriDecOptions.RegisterIntOption | src/Utils/hiopOptions.cpp:131-134 | a fresh integer entry with its default and bounds |
| OptionsRegistry.PriDecOptions.RegisterStrOption | src/Utils/hiopOptions.cpp:117-123 | a fresh string entry with its range |
| OptionsRegistry.PriDecOptions.RegisterStrAnyOption | src/Utils/hiopOptions.cpp:125-129 | a fresh string entry with the empty range, which accepts any value |
| OptionsRegistry.PriDecOptions.RegisterOptions | src/Utils/hiopOptions.cpp:1588-1676 | the table becomes the PriDec table |
| OptionsRegistry.PriDecOptions.GetNumeric | src/Utils/hiopOptions.cpp:78-86 | the stored value, within its bounds |
| OptionsRegistry.PriDecOptions.GetInteger | src/Utils/hiopOptions.cpp:88-96 | the stored value, within its bounds |
| OptionsRegistry.PriDecOptions.GetString | src/Utils/hiopOptions.cpp:98-106 | the stored value |
| OptionsRegistry.PriDecOptions.IsUserDefined | src/Utils/hiopOptions.hpp:150-152 | false for an unregistered name, else whether the value came from the file or at runtime |
| OptionsRegistry.PriDecOptions.SetValNum | src/Utils/hiopOptions.cpp:241-259 | the table becomes `Options.SetValNum` of the old one, invariant kept |
| OptionsRegistry.PriDecOptions.SetValInt | src/Utils/hiopOptions.cpp:306-324 | the table becomes `Options.SetValInt` of the old one |
| OptionsRegistry.PriDecOptions.SetValStr | src/Utils/hiopOptions.cpp:369-395 | the table becomes `Options.SetValStr` of the old one |
| OptionsRegistry.PriDecOptions.EnsureConsistence | src/Utils/hiopOptions.cpp:1678-1692 | the table becomes `Consistent` of the old one |
| OptionsRegistry.PriDecOptions.SetLog | src/Utils/hiopOptions.hpp:82-86 | the logger is installed and the fix-up runs |
| OptionsRegistry.PriDecOptions.SetNumericValue | src/Utils/hiopOptions.cpp:260-304 | the table becomes `SetNumeric` of the old one and the result is always true, as on every return path of the source |
| OptionsRegistry.PriDecOptions.SetIntegerValue | src/Utils/hiopOptions.cpp:326-367 | the table becomes `SetInteger` of the old one |
| OptionsRegistry.PriDecOptions.SetStringValue | src/Utils/hiopOptions.cpp:397-453 | the table becomes `SetString` of the old one |
| OptionsRegistry.PriDecOptions.LoadFromFile | src/Utils/hiopOptions.cpp:144-230 | the table becomes `LoadLines` of the old one over the lines of the file |
| Ieee.Div | src/Optimization/hiopAlgPrimalDecomp.cpp:434 | a non-zero divisor gives the quotient; a zero one gives NaN, +inf or -inf according to the sign of the dividend |
| Ieee.Times | src/Optimization/hiopAlgPrimalDecomp.cpp:450 | a finite value is multiplied; NaN stays NaN; an infinity times 0 is NaN |
| Ieee.ClampMonotone | src/Optimization/hiopAlgPrimalDecomp.cpp:422-423 | with ordered bounds the clamp is monotone, so a larger ratio before the clamp is never a smaller one after it |
| Ieee.Clamp | src/Optimization/hiopAlgPrimalDecomp.cpp:378-379 | `min(hi, max(lo, x))` lies in [lo, hi] for ordered bounds, keeps a value already there, and maps NaN and -inf to lo, +inf to hi |
| PriDecHessian.Sub | src/Optimization/hiopAlgPrimalDecomp.cpp:307-310 | the entry-wise difference of two vectors of one dimension |
| PriDecHessian.DotSub | src/Optimization/hiopAlgPrimalDecomp.cpp:312-313 | the dot product is linear in its second argument: g.(a - b) = g.a - g.b |
| PriDecHessian.NormSquared | src/Optimization/hiopAlgPrimalDecomp.cpp:430-431 | s.s is never negative and is zero exactly for the zero vector |
| PriDecHessian.DotZero | src/Optimization/hiopAlgPrimalDecomp.cpp:430-431 | a dot product with the zero vector is zero |
| PriDecHessian.DotScale | src/Optimization/hiopAlgPrimalDecomp.cpp:430-431 | s.(c s) = c (s.s) |
| PriDecHessian.RatioTr2 | src/Optimization/hiopAlgPrimalDecomp.cpp:405-424 | the two-argument ratio rule always ends in [ratio_min, ratio_max] for ordered bounds |
| PriDecHessian.RatioTr2Direction | src/Optimization/hiopAlgPrimalDecomp.cpp:405-424 | the ratio goes up below a quarter, down above three quarters, stays otherwise or for NaN; a step reported rejected always raised it |
| PriDecHessian.RatioTr5 | src/Optimization/hiopAlgPrimalDecomp.cpp:351-380 | the five-argument rule always ends in [ratio_min, ratio_max] for ordered bounds |
| PriDecHessian.RatioTr5Direction | src/Optimization/hiopAlgPrimalDecomp.cpp:357-377 | the ratio never shrinks when the recourse value grew, a NaN rho leaves it, and a rejected step always raised it (the rejection itself changes no state) |
| PriDecHessian.AlphaBB | src/Optimization/hiopAlgPrimalDecomp.cpp:426-439 | the Barzilai-Borwein candidate lies in [alpha_min, alpha_max] |
| PriDecHessian.AlphaF | src/Optimization/hiopAlgPrimalDecomp.cpp:441-455 | the f-based candidate lies in [alpha_min, alpha_max] |
| PriDecHessian.AlphaTr | src/Optimization/hiopAlgPrimalDecomp.cpp:457-464 | the trust-region candidate lies in [alpha_min, alpha_max] |
| PriDecHessian.AlphaBBSecant | src/Optimization/hiopAlgPrimalDecomp.cpp:426-439 | for y = c s with s non-zero the candidate is c clamped; for s = 0 the 0/0 ends on alpha_min |
| PriDecHessian.AlphaFCases | src/Optimization/hiopAlgPrimalDecomp.cpp:441-455 | an in-bounds ratio ||g||^2/(2 fk) is returned as is; fk == 0 ends on alpha_min for g = 0 and on alpha_max otherwise (positive ratio) |
| PriDecHessian.HessianApprox.constructor | src/Optimization/hiopAlgPrimalDecomp.cpp:207-229 | the function values start at 1e20 and the four vectors have dimension n |
| PriDecHessian.HessianApprox.SetAlphaMin | src/Optimization/hiopAlgPrimalDecomp.cpp:534 | alpha_min is the given value |
| PriDecHessian.HessianApprox.SetAlphaMax | src/Optimization/hiopAlgPrimalDecomp.cpp:536 | alpha_max is the given value |
| PriDecHessian.HessianApprox.SetAlphaRatioMin | src/Optimization/hiopAlgPrimalDecomp.cpp:524-527 | ratio_min is the given value |
| PriDecHessian.HessianApprox.SetAlphaRatioMax | src/Optimization/hiopAlgPrimalDecomp.cpp:529-532 | ratio_max is the given value |
| PriDecHessian.HessianApprox.Initialize | src/Optimization/hiopAlgPrimalDecomp.cpp:273-298 | fk and the first n entries of the point and gradient become the previous iterate |
| PriDecHessian.HessianApprox.UpdateHessCoeff | src/Optimization/hiopAlgPrimalDecomp.cpp:300-321 | fkm1 := old fk, fk := f, s := xk - old xkm1, y := gk - old gkm1, fkm1_lin := old gkm1 . s, then xkm1 := xk, gkm1 := gk; the model value is the quadratic model built at the old iterate evaluated at xk |
| PriDecHessian.HessianApprox.UpdateRatio | src/Optimization/hiopAlgPrimalDecomp.cpp:382-403 | the ratio becomes the two-argument rule applied to rho (actual over predicted decrease), ending within its bounds |
| PriDecHessian.HessianApprox.GetAlphaBB | src/Optimization/hiopAlgPrimalDecomp.cpp:426-439 | stores and returns `AlphaBB` of the secant pair, in bounds |
| PriDecHessian.HessianApprox.GetAlphaF | src/Optimization/hiopAlgPrimalDecomp.cpp:441-455 | stores and returns `AlphaF` of the gradient, in bounds |
| PriDecHessian.HessianApprox.GetAlphaTr | src/Optimization/hiopAlgPrimalDecomp.cpp:457-464 | stores and returns `AlphaTr` of the old alpha, in bounds |
| PriDecHessian.HessianApprox.CheckConvergenceFcn | src/Optimization/hiopAlgPrimalDecomp.cpp:498-509 | the measure is non-negative and zero exactly when model value plus new base equals the previous total fkm1 + base_vm1 |
| PriDecHessian.HessianApprox.ComputeBase | src/Optimization/hiopAlgPrimalDecomp.cpp:511-516 | base value plus model value gives back the master objective |
| PriDecHessian.ConvergenceOfMaster | src/Optimization/hiopAlgPrimalDecomp.cpp:1880-1893 | the measure of the base computed from the master objective is the distance between that objective and fkm1 + base_vm1 |
| PriDecDriver.CountAfterMeaning | src/Optimization/hiopAlgPrimalDecomp.cpp:1941-1945 | the counter is the length of the longest run of acceptable measures ending at the latest iteration |
| PriDecDriver.VecSumColumn | src/Optimization/hiopAlgPrimalDecomp.cpp:1837-1857 | entry k of the summed gradient is the sum of the entries k |
| PriDecDriver.SumBounds | src/Optimization/hiopAlgPrimalDecomp.cpp:1837-1857 | S values in [lo, hi] sum to between S lo and S hi |
| PriDecDriver.MeanBounds | src/Optimization/hiopAlgPrimalDecomp.cpp:1860-1861 | the average of values in [lo, hi] lies in [lo, hi] |
| PriDecDriver.AggregateSerial | src/Optimization/hiopAlgPrimalDecomp.cpp:1822-1861 | rval and grad_r are the sums of the recourse values and gradients divided by S; with S == 0 they are NaN |
| PriDecDriver.PriDecSolver.constructor | src/Optimization/hiopAlgPrimalDecomp.cpp:538-592 | every setting is the value of its option |
| PriDecDriver.PriDecSolver.SetVerbosity | src/Optimization/hiopAlgPrimalDecomp.cpp:713-717 | the verbosity is the given level |
| PriDecDriver.PriDecSolver.SetInitialAlphaRatio | src/Optimization/hiopAlgPrimalDecomp.cpp:725-729 | the initial ratio is the given value |
| PriDecDriver.PriDecSolver.OuterLoop | src/Optimization/hiopAlgPrimalDecomp.cpp:1807-1949 | the loop runs at least one and at most max_iter_ iterations (none when max_iter_ <= 0), stops at the first iteration whose stopping predicate holds, and ends with the counter over all measures; it runs no iteration past one whose measure is below `tol_`, nor past one that closes `accp_count_` consecutive acceptable measures |
| PriDecDriver.CountAtLeastRun | src/Optimization/hiopAlgPrimalDecomp.cpp:1941-1945 | m acceptable measures at the end bring the counter to at least m |
| PriDecDriver.CountPassesThrough | src/Optimization/hiopAlgPrimalDecomp.cpp:1941-1945 | the counter rises by one at a time, so once it is at least c >= 1 it has equalled c after some prefix of the measures |
| PriDecDriver.AcceptableRunStops | src/Optimization/hiopAlgPrimalDecomp.cpp:674-694 | after `accp_count_` consecutive acceptable measures ending at iteration j, the stopping predicate held at j or earlier |
| PriDecDriver.StopBound | src/Optimization/hiopAlgPrimalDecomp.cpp:1941-1949 | a run that did not stop before its last iteration ends no later than an iteration with a measure below `tol_` or one that closes `accp_count_` acceptable measures |

## Left out

- The MPI parts of the driver are not modelled because they are message passing. These are `run()`, `run_local()` and the request wrappers. The serial aggregation stands for what they compute.
- The master-problem calls are foreign, so the model takes their results as parameters. These calls are `solve_master`, `eval_f_rterm`, `eval_grad_rterm`, `get_objective` and `set_recourse_approx_evaluator`. The parameters are:
  - the recourse values and gradients of `AggregateSerial`;
  - the convergence measure of `OuterLoop`;
  - the master objective of `ConvergenceOfMaster`.
- `PriDecDriver.PriDecSolver.OuterLoop` does not model the Hessian calls made within one iteration, nor `std::min(convg_f, convg_g)`. The iteration's measure stands for them. The calls it leaves out are `initialize`, `get_alpha_f`, `update_hess_coeff`, `compute_base`, `update_ratio`, `check_convergence_grad` and `check_convergence_fcn`. Each of these operations is modelled on its own.
- `check_convergence_grad` and `step_size_inf` are left out, because both need a square-root norm.
- The no-argument `update_ratio` is left out for the same reason: it calls the five-argument rule with a square-root norm. The rule itself is `RatioTr5`.
- `HessianApprox::set_verbosity` and every logger call are left out. They only print.
- Printing is left out: the CSR `print`, the options `print`, and `log_printf`.
- Option descriptions are not modelled, because they are only printed.
- The opening of the option file and the `stringstream` number parsing are parameters. The file's lines are a sequence of strings, with no lines when the file is missing. The parsers are functions returning an optional number.
- The NLP option table and its consistency rules are not part of this model. The PriDec table and its fix-up stand for the pattern.
- The RAJA-only `mem_space` values are left out. The model keeps the range ["default"] of the build without RAJA.
- The failing `assert(false)` paths of `set_val` are modelled as leaving the table unchanged, which is release-build behaviour.
- Integers are unbounded. The source's 32-bit `int` and `index_type` overflow, which the source also only asserts against (`nnzM >= 0`), is not modelled.
- Floating point is modelled as exact reals. Rounding, summation order, `isfinite` and `max_abs_value` are out.
- `DSCAL` is an entry-wise multiplication.
- Division by a floating-point zero is modelled as division by +0. A signed zero that would flip the sign of an infinity is not modelled.
- `PriDecHessian.HessianApprox.Initialize`: the source's branches that allocate a missing vector are not modelled. They are unreachable, because the constructor allocates every vector.
- `PriDecHessian.HessianApprox.constructor` models vectors the source leaves uninitialised as zero vectors. The initial `alpha_`, `tr_ratio_` and ratio bounds are declared in the class header, which is not part of this model, so they are constructor parameters here.
- `PriDecDriver.PriDecSolver.constructor` takes the options object as a parameter. In the source it reads the default PriDec option file.
- `PriDecDriver.PriDecSolver.constructor` states nothing about `it_`: the source constructor does not assign it, and its initial value is set in the class header, which is not part of this model.
- The source asserts `alpha_max_ > alpha_min_` and the verbosity bound. These are preconditions here.
- The option bounds do not imply `alpha_max_ > alpha_min_`: alpha_max can be set as low as 1 and alpha_min as high as 1e3, so some option files make that assertion fail.
- The second driver constructor takes the coupled indexes `nc` and `xc_index`. It is not modelled separately, because it reads the same settings from the options as the first.
- The driver's one-line setters for the iteration limit, the tolerances, the count, alpha_min, alpha_max and local_accum are not modelled separately. Only `SetVerbosity` and `SetInitialAlphaRatio` are modelled, because their asserts give them a precondition.
- The rollback of a rejected step exists only as comments in the source, so there is nothing to model.
- The CSR methods whose body is `assert(false && "not implemented")` have no behaviour to model.
- A null C++ array is modelled as an array of length 0. In this model `dealloc`'s deallocation is the replacement of the arrays by fresh ones.
