# Sparsity patterns of compressed sparse matrices

This project models `SparsityPattern` from the `nalgebra-sparse` crate. A
sparsity pattern is the index structure shared by CSR and CSC matrices. It
holds three things:

- `major_offsets`: one offset per major lane, plus one;
- `minor_indices`: the minor index of every explicitly stored entry;
- the minor dimension.

Lane `i` is the slice `minor_indices[major_offsets[i] .. major_offsets[i + 1]]`.
A lane is a row in CSR and a column in CSC.

The model has two modules.

- `Pattern` (`pattern.dfy`) covers the pattern itself.
  - A pattern is never changed after it is built, so it is the datatype
    `SparsityPattern`, with its format invariant `Valid()`.
  - The accessors are `MajorDim`, `Nnz`, `Lane` and the fields.
  - `New` builds the empty pattern.
  - The validating constructor `TryFromOffsetsAndIndices` is a method. It has
    the source's `for` loop over lanes and its inner `while` loop over one
    lane. It is proved equal to the function `TryFrom`, which runs the same
    checks in the same order. Lemmas beside it say what those checks mean:
    - the constructor succeeds exactly when the offsets have length
      `major_dim + 1` and the arrays satisfy `Valid()`;
    - otherwise the first failing lane and its first failing position decide
      which error comes back.
  - The constructor has three possible outcomes: a pattern, one of the three
    `SparseFormatError` kinds, or `Panic`. `Panic` covers the case where
    slicing a lane would run past the end of `minor_indices`.
- `PatternIter` (`pattern_iter.dfy`) covers iteration.
  - `EntrySequence` is the lane-major list of `(major, minor)` pairs that a
    pattern stores. Lemmas say three things about it:
    - entry `k` is stored position `k`;
    - the list is sorted lane-major;
    - the entries with major index `i` are exactly lane `i`.
  - `SparsityPatternIter` is a class with the source's fields. The current lane
    index changes in place, and the unconsumed tail of the current lane is a
    pair of positions.
  - `Next` is proved to hand out the ghost sequence of remaining entries one
    at a time. It drains the tail first, then skips empty lanes.
  - `CollectEntries` drains a fresh iterator. It is proved to yield exactly
    `EntrySequence`, which has `nnz` entries.

Machine integers (`usize`) are modelled as unbounded naturals.

Two behaviours of the source are kept exactly as written:

- The bound test rejects a minor index only when it is greater than the minor
  dimension (`pattern.rs:129`). An index equal to the minor dimension is
  accepted, although the format notes (`pattern.rs:13`) ask for in-bounds
  indices. `Valid()` therefore uses `AllAtMost`, and `Scenarios` shows
  `TryFrom(1, 4, [0, 1], [4])` succeeding.
- The first-offset and last-offset checks do not rule out an offset larger
  than the number of minor indices further in. For example, offsets
  `[0, 5, 3]` with three indices pass those checks, and the slice at
  `pattern.rs:121` then panics. The model returns `Panic` there and adds no
  check that the source lacks.

## Model

| member | source | states |
|---|---|---|
| Pattern.SparsityPattern.Lane | nalgebra-sparse/src/pattern.rs:65-71 | None exactly when offset `i + 1` does not exist. Otherwise the lane has `offsets[i+1] - offsets[i]` elements, which are the stored minor indices from `offsets[i]` on. On a valid pattern the lane is strictly increasing and at most the minor dimension. |
| Pattern.New | nalgebra-sparse/src/pattern.rs:25-32 | The empty pattern is valid. Its major dimension, minor dimension and nnz are as given (nnz is 0), and every one of its lanes is empty. |
| Pattern.SparsityPattern.MajorDim | nalgebra-sparse/src/pattern.rs:46-51 | On a valid pattern, `lane(i)` returns a lane exactly for the indices `i` below the major dimension. Its value for built patterns is pinned by the ensures of `New` and `TryFromOffsetsAndIndices`. |
| Pattern.SparsityPattern.Nnz | nalgebra-sparse/src/pattern.rs:59-63 | When the offsets are valid, the number of stored entries equals the last offset. |
| Pattern.TryFrom | nalgebra-sparse/src/pattern.rs:77-156 | The outcome function that `TryFromOkIff`, `TryFromFirstFailingLane` and `Scenarios` are stated about. On success it returns the arrays unchanged, with offsets of length `major_dim + 1` and that major dimension. |
| Pattern.ScanLanes | nalgebra-sparse/src/pattern.rs:109-155 | When every lane passes, the constructed pattern holds the offsets, indices and minor dimension unchanged. |
| Pattern.TryFromOffsetsAndIndices | nalgebra-sparse/src/pattern.rs:77-156 | The method's outcome equals `TryFrom` on the same arguments. It succeeds exactly when `len(offsets) == major_dim + 1` and the arrays satisfy `Valid()`. On success the pattern keeps the arrays, with `major_dim()` and `nnz()` as given. A wrong offsets length, a first offset other than 0, and a last offset other than `len(minor_indices)` each give InvalidStructure. |
| Pattern.FirstVerdictNone | nalgebra-sparse/src/pattern.rs:128-147 | The scan of a lane finds no error exactly when no position fails its own element check. |
| Pattern.LanePassesIff | nalgebra-sparse/src/pattern.rs:123-147 | A lane passes the element checks exactly when it is strictly increasing (sorted, no duplicates) and no index exceeds the minor dimension. |
| Pattern.FirstVerdictIsFirstFailure | nalgebra-sparse/src/pattern.rs:128-146 | The first failing position decides the lane's error. At that position the bound test comes first, then the unsorted test, then the duplicate test. |
| Pattern.LaneVerdictNoneIff | nalgebra-sparse/src/pattern.rs:111-147 | A lane passes every check of the loop body exactly when its offsets are ordered and within the indices, and its slice is strictly increasing and within the bound. |
| Pattern.ScanLanesOkIff | nalgebra-sparse/src/pattern.rs:110-148 | Scanning the lanes succeeds exactly when every lane passes. |
| Pattern.ScanLanesFirstFailure | nalgebra-sparse/src/pattern.rs:110-148 | Lanes are checked in increasing order, so the first lane that fails decides the outcome. |
| Pattern.ValidFromLanes | nalgebra-sparse/src/pattern.rs:5-14 | Correct first and last offsets plus well-formed lanes give the format invariant: monotonic offsets, sorted lanes, bounded indices. |
| Pattern.LanesFromValid | nalgebra-sparse/src/pattern.rs:5-14 | Every lane of a pattern that satisfies the format invariant is well formed. |
| Pattern.AllLanesWellFormedIff | nalgebra-sparse/src/pattern.rs:106-148 | Given correct first and last offsets, the per-lane checks taken together are equivalent to the format invariant. |
| Pattern.TryFromOkIff | nalgebra-sparse/src/pattern.rs:88-155 | The constructor succeeds if and only if the offsets length is `major_dim + 1` and the arrays satisfy `Valid()`. The pattern it returns is exactly the arrays. |
| Pattern.TryFromFirstFailingLane | nalgebra-sparse/src/pattern.rs:110-147 | When the lanes before lane k are well formed, lane k decides. Decreasing offsets give InvalidStructure. An end offset past the indices gives Panic. Otherwise the lane's first failing position gives that position's error kind. |
| Pattern.Scenarios | nalgebra-sparse/src/pattern.rs:88-147 | Concrete outcomes. An index equal to the minor dimension is accepted. Indices are not compared across lanes. Out-of-bounds, duplicate and unsorted lanes give their errors. A decreasing inner offset with a correct last offset (`[0, 2, 1, 3]` over three indices) is rejected by the lane loop with InvalidStructure. The offsets `[0, 2, 1]` over three indices are rejected earlier, by the last-offset test. The same offsets over one index panic on lane 0's slice, as do `[0, 5, 3]` over three indices. |
| PatternIter.EntriesFromAt | nalgebra-sparse/src/pattern.rs:158-162 | The entries of lanes `from`, ... are stored positions `offsets[from]` .. `nnz - 1` in turn. Each is paired with the lane whose range holds it. |
| PatternIter.EntrySequenceLength | nalgebra-sparse/src/pattern.rs:158-162 | Iteration yields one entry per stored minor index, so `nnz` entries. |
| PatternIter.EntrySequenceSpec | nalgebra-sparse/src/pattern.rs:158-162 | Entry k is `(i, minor_indices[k])` for the lane i whose offset range holds k, and its minor index is within the bound. |
| PatternIter.PositionsOrdered | nalgebra-sparse/src/pattern.rs:158-162 | Of two stored positions, the later one lies in a later lane, or in the same lane with a larger minor index. |
| PatternIter.EntrySequenceSorted | nalgebra-sparse/src/pattern.rs:158-162 | Iteration is lane-major: the lane index never decreases, and within a lane the minor index strictly increases. |
| PatternIter.LaneMatchesEntries | nalgebra-sparse/src/pattern.rs:158-162 | The minor indices that iteration pairs with major index i are exactly `lane(i)`, in order. An index with no lane gets none. |
| PatternIter.NewHasNoEntries | nalgebra-sparse/src/pattern.rs:25-32 | An empty pattern yields no entries. |
| PatternIter.EntryOfPosition | nalgebra-sparse/src/pattern.rs:218-236 | A position in lane i's range is the entry `(i, minor_indices[k])` at that same index of the entry sequence. |
| PatternIter.SparsityPatternIter.FromPattern | nalgebra-sparse/src/pattern.rs:194-203 | The new iterator starts at lane 0, with the first lane's range as its tail (empty when there is no lane). What remains is the whole entry sequence. |
| PatternIter.SparsityPatternIter.Next | nalgebra-sparse/src/pattern.rs:210-241 | With entries remaining, Next returns the first of them and drops it, by draining the tail or by skipping empty lanes to the next non-empty one. With none remaining it returns None and stays exhausted. |
| PatternIter.Entries | nalgebra-sparse/src/pattern.rs:178-180 | `entries()` returns a fresh iterator whose remaining entries are the whole entry sequence. |
| PatternIter.CollectEntries | nalgebra-sparse/src/pattern.rs:174-175 | Collecting the iterator gives exactly the entry sequence, with `nnz` entries. |
| PatternIter.DocExample | nalgebra-sparse/src/pattern.rs:167-176 | The documented example builds successfully and yields `[(0, 0), (0, 2), (1, 1), (2, 0)]`. |

## Left out

- Error messages: each `SparseFormatError` carries a boxed message string. The model keeps only the error kind.
- Pattern.SparsityPattern.MajorDim: the model requires at least one offset instead of modelling the `assert!` panic at `pattern.rs:49`. Every pattern built by `New` or by the constructor has at least one offset.
- Pattern.New: `major_dim + 1` cannot overflow in the model, because `usize` is modelled as an unbounded natural. The same holds for the `lane_idx + 1` and `current_lane_idx + 2` arithmetic.
- The slices returned by `major_offsets()` and `minor_indices()` are the datatype's fields. Borrowing and lifetimes are not modelled.
- `PatternIter.SparsityPatternIter`: the iterator copies the offsets and indices it reads into immutable fields. The borrow of the pattern is not modelled.
- The derived `Debug`, `Clone`, `PartialEq` and `Eq` are not modelled. Value equality of datatypes stands in for `PartialEq`.
- `src/linalg/polar.rs`, `benches/linalg/mod.rs` and `tests/linalg/mod.rs` do not involve sparsity patterns and are not part of this model.
