/**
 * The sparsity pattern of a CSR or CSC matrix: for every major lane (a row of a
 * CSR matrix, a column of a CSC matrix) the sorted minor indices of the entries
 * it stores explicitly.
 *
 * A pattern is never changed once built, so it is a datatype value here. Its
 * format invariant is `SparsityPattern.Valid()`; the validating constructor
 * `TryFromOffsetsAndIndices` establishes it, and `New` builds an empty one.
 */
module Pattern {

  /** The structural error kinds (the error messages are not modelled). */
  datatype SparseFormatError = InvalidStructure | IndexOutOfBounds | DuplicateEntry

  datatype Option<+T> = None | Some(value: T)

  /**
   * What the validating constructor does with its input: it returns a pattern,
   * returns an error, or panics because a slice range runs past the end of the
   * minor indices.
   */
  datatype TryResult = Ok(pattern: SparsityPattern) | Err(error: SparseFormatError) | Panic

  predicate StrictlyIncreasing(s: seq<nat>) {
    forall a, b :: 0 <= a < b < |s| ==> s[a] < s[b]
  }

  predicate NonDecreasing(s: seq<nat>) {
    forall a, b :: 0 <= a <= b < |s| ==> s[a] <= s[b]
  }

  /** Each element is larger than the one before it. */
  predicate AdjacentIncreasing(s: seq<nat>) {
    forall k :: 0 < k < |s| ==> s[k - 1] < s[k]
  }

  /** Each element is at least the one before it. */
  predicate AdjacentNonDecreasing(s: seq<nat>) {
    forall k :: 0 < k < |s| ==> s[k - 1] <= s[k]
  }

  /** Every element is at most `bound`: the bound test of the source admits `bound` itself. */
  predicate AllAtMost(s: seq<nat>, bound: nat) {
    forall k :: 0 <= k < |s| ==> s[k] <= bound
  }

  datatype SparsityPattern = SparsityPattern(majorOffsets: seq<nat>, minorIndices: seq<nat>, minorDim: nat)
  {
    /**
     * The offsets start at 0, never decrease and end at the number of stored
     * entries, so they cut the minor indices into consecutive lanes.
     */
    predicate OffsetsValid() {
      && |majorOffsets| >= 1
      && majorOffsets[0] == 0
      && NonDecreasing(majorOffsets)
      && majorOffsets[|majorOffsets| - 1] == |minorIndices|
    }

    /**
     * The format invariant: valid offsets; every lane is strictly increasing;
     * every minor index is at most (not below) the minor dimension.
     */
    predicate Valid() {
      && OffsetsValid()
      && AllAtMost(minorIndices, minorDim)
      && forall i :: 0 <= i < |majorOffsets| - 1 ==>
           StrictlyIncreasing(minorIndices[majorOffsets[i]..majorOffsets[i + 1]])
    }

    /** The major dimension: on a valid pattern, the number of lanes `Lane` can return. */
    function MajorDim(): (r: nat)
      requires |majorOffsets| > 0
      ensures Valid() ==> forall i: nat :: Lane(i).Some? <==> i < r
    {
      |majorOffsets| - 1
    }

    /** The number of explicitly stored entries: on valid offsets, the last offset. */
    function Nnz(): (r: nat)
      ensures OffsetsValid() ==> r == majorOffsets[|majorOffsets| - 1]
    {
      |minorIndices|
    }

    /**
     * The minor indices of lane `majorIndex`, or None when either of the two
     * offsets that bound it does not exist. A valid lane may be empty.
     */
    function Lane(majorIndex: nat): (r: Option<seq<nat>>)
      requires Valid()
      ensures r.None? <==> majorIndex + 1 >= |majorOffsets|
      ensures r.Some? ==> |r.value| == majorOffsets[majorIndex + 1] - majorOffsets[majorIndex]
      ensures r.Some? ==> StrictlyIncreasing(r.value) && AllAtMost(r.value, minorDim)
      ensures r.Some? ==> forall k :: 0 <= k < |r.value| ==>
                r.value[k] == minorIndices[majorOffsets[majorIndex] + k]
    {
      if majorIndex >= |majorOffsets| then None
      else if majorIndex + 1 >= |majorOffsets| then None
      else Some(minorIndices[majorOffsets[majorIndex]..majorOffsets[majorIndex + 1]])
    }
  }

  /** A pattern of the given dimensions with no stored entries. */
  function New(majorDim: nat, minorDim: nat): (p: SparsityPattern)
    ensures p.Valid()
    ensures p.MajorDim() == majorDim && p.minorDim == minorDim && p.Nnz() == 0
    ensures forall i :: 0 <= i < majorDim ==> p.Lane(i) == Some([])
  {
    SparsityPattern(seq(majorDim + 1, _ => 0), [], minorDim)
  }

  // ---------------------------------------------------------------------------
  // The checks of the validating constructor, as functions.
  // ---------------------------------------------------------------------------

  /**
   * The verdict on position k of one lane: the bound test comes first, then the
   * comparison with the previous element of the SAME lane (position 0 has none).
   */
  function ElementVerdict(minorDim: nat, lane: seq<nat>, k: nat): Option<SparseFormatError>
    requires k < |lane|
  {
    if lane[k] > minorDim then Some(IndexOutOfBounds)
    else if k > 0 && lane[k - 1] > lane[k] then Some(InvalidStructure)
    else if k > 0 && lane[k - 1] == lane[k] then Some(DuplicateEntry)
    else None
  }

  /** The verdict of the first position at or after `from` that fails, if any. */
  function FirstVerdict(minorDim: nat, lane: seq<nat>, from: nat): Option<SparseFormatError>
    requires from <= |lane|
    decreases |lane| - from
  {
    if from == |lane| then None
    else if ElementVerdict(minorDim, lane, from).Some? then ElementVerdict(minorDim, lane, from)
    else FirstVerdict(minorDim, lane, from + 1)
  }

  /**
   * What checking lane i decides: None when the lane passes, otherwise the
   * outcome of the whole constructor. In order: non-monotonic offsets, then the
   * slice panic, then the first failing element.
   */
  function LaneVerdict(minorDim: nat, offsets: seq<nat>, indices: seq<nat>, i: nat): Option<TryResult>
    requires i + 1 < |offsets|
  {
    if offsets[i] > offsets[i + 1] then Some(Err(InvalidStructure))
    else if offsets[i + 1] > |indices| then Some(Panic)
    else match FirstVerdict(minorDim, indices[offsets[i]..offsets[i + 1]], 0)
      case Some(e) => Some(Err(e))
      case None => None
  }

  /** Checks lanes `from`, `from + 1`, ... in turn; the first that fails decides. */
  function ScanLanes(minorDim: nat, offsets: seq<nat>, indices: seq<nat>, from: nat): (r: TryResult)
    decreases |offsets| - from
    ensures r.Ok? ==> r.pattern == SparsityPattern(offsets, indices, minorDim)
  {
    if from + 1 >= |offsets| then Ok(SparsityPattern(offsets, indices, minorDim))
    else match LaneVerdict(minorDim, offsets, indices, from)
      case Some(r) => r
      case None => ScanLanes(minorDim, offsets, indices, from + 1)
  }

  /** The outcome of `try_from_offsets_and_indices`, as a function of its arguments. */
  function TryFrom(majorDim: nat, minorDim: nat, offsets: seq<nat>, indices: seq<nat>): (r: TryResult)
    ensures r.Ok? ==> r.pattern == SparsityPattern(offsets, indices, minorDim)
    ensures r.Ok? ==> |offsets| == majorDim + 1 && r.pattern.MajorDim() == majorDim
  {
    if |offsets| != majorDim + 1 then Err(InvalidStructure)
    else if offsets[0] != 0 then Err(InvalidStructure)
    else if offsets[|offsets| - 1] != |indices| then Err(InvalidStructure)
    else ScanLanes(minorDim, offsets, indices, 0)
  }

  /** Lane i of the raw arrays satisfies everything the constructor checks about it. */
  predicate LaneWellFormed(minorDim: nat, offsets: seq<nat>, indices: seq<nat>, i: nat)
    requires i + 1 < |offsets|
  {
    && offsets[i] <= offsets[i + 1] <= |indices|
    && StrictlyIncreasing(indices[offsets[i]..offsets[i + 1]])
    && AllAtMost(indices[offsets[i]..offsets[i + 1]], minorDim)
  }

  // ---------------------------------------------------------------------------
  // The validating constructor.
  // ---------------------------------------------------------------------------

  /**
   * Validates the raw arrays in one forward pass and builds the pattern from
   * them unchanged, or reports the first failure in the order the source checks.
   */
  method TryFromOffsetsAndIndices(majorDim: nat, minorDim: nat, majorOffsets: seq<nat>, minorIndices: seq<nat>)
    returns (r: TryResult)
    ensures r == TryFrom(majorDim, minorDim, majorOffsets, minorIndices)
    ensures r.Ok? <==> |majorOffsets| == majorDim + 1 && SparsityPattern(majorOffsets, minorIndices, minorDim).Valid()
    ensures r.Ok? ==> r.pattern.majorOffsets == majorOffsets && r.pattern.minorIndices == minorIndices
                      && r.pattern.minorDim == minorDim && r.pattern.MajorDim() == majorDim
                      && r.pattern.Nnz() == |minorIndices|
    ensures |majorOffsets| != majorDim + 1 ==> r == Err(InvalidStructure)
    ensures |majorOffsets| == majorDim + 1 && majorOffsets[0] != 0 ==> r == Err(InvalidStructure)
    ensures |majorOffsets| == majorDim + 1 && majorOffsets[0] == 0 && majorOffsets[majorDim] != |minorIndices|
            ==> r == Err(InvalidStructure)
  {
    TryFromOkIff(majorDim, minorDim, majorOffsets, minorIndices);
    if |majorOffsets| != majorDim + 1 {
      return Err(InvalidStructure);
    }
    if majorOffsets[0] != 0 {
      return Err(InvalidStructure);
    } else if majorOffsets[|majorOffsets| - 1] != |minorIndices| {
      return Err(InvalidStructure);
    }
    for laneIdx := 0 to majorDim
      invariant TryFrom(majorDim, minorDim, majorOffsets, minorIndices)
                == ScanLanes(minorDim, majorOffsets, minorIndices, laneIdx)
    {
      var rangeStart := majorOffsets[laneIdx];
      var rangeEnd := majorOffsets[laneIdx + 1];
      if rangeStart > rangeEnd {
        return Err(InvalidStructure);
      }
      // Slicing past the end of the minor indices is a panic in the source.
      if rangeEnd > |minorIndices| {
        return Panic;
      }
      var lane := minorIndices[rangeStart..rangeEnd];
      var k := 0;
      var prev: Option<nat> := None;
      while k < |lane|
        invariant k <= |lane|
        invariant prev == if k == 0 then None else Some(lane[k - 1])
        invariant FirstVerdict(minorDim, lane, 0) == FirstVerdict(minorDim, lane, k)
      {
        var next := lane[k];
        if next > minorDim {
          return Err(IndexOutOfBounds);
        }
        if prev.Some? {
          if prev.value > next {
            return Err(InvalidStructure);
          } else if prev.value == next {
            return Err(DuplicateEntry);
          }
        }
        prev := Some(next);
        k := k + 1;
      }
    }
    r := Ok(SparsityPattern(majorOffsets, minorIndices, minorDim));
  }

  // ---------------------------------------------------------------------------
  // What the checks mean.
  // ---------------------------------------------------------------------------

  lemma {:induction false} ChainIncreasing(s: seq<nat>, a: nat, b: nat)
    requires AdjacentIncreasing(s) && a < b < |s|
    ensures s[a] < s[b]
  {
    if a + 1 < b {
      ChainIncreasing(s, a, b - 1);
    }
  }

  lemma {:induction false} ChainNonDecreasing(s: seq<nat>, a: nat, b: nat)
    requires AdjacentNonDecreasing(s) && a <= b < |s|
    ensures s[a] <= s[b]
  {
    if a < b {
      ChainNonDecreasing(s, a, b - 1);
    }
  }

  /** Comparing neighbours suffices for strict order. */
  lemma AdjacentIncreasingIff(s: seq<nat>)
    ensures AdjacentIncreasing(s) <==> StrictlyIncreasing(s)
  {
    if AdjacentIncreasing(s) {
      forall a, b | 0 <= a < b < |s| ensures s[a] < s[b] {
        ChainIncreasing(s, a, b);
      }
    }
  }

  /** Comparing neighbours suffices for monotonic offsets. */
  lemma AdjacentNonDecreasingIff(s: seq<nat>)
    ensures AdjacentNonDecreasing(s) <==> NonDecreasing(s)
  {
    if AdjacentNonDecreasing(s) {
      forall a, b | 0 <= a <= b < |s| ensures s[a] <= s[b] {
        ChainNonDecreasing(s, a, b);
      }
    }
  }

  lemma {:induction false} FirstVerdictNone(minorDim: nat, lane: seq<nat>, from: nat)
    requires from <= |lane|
    ensures FirstVerdict(minorDim, lane, from) == None <==>
            forall k :: from <= k < |lane| ==> ElementVerdict(minorDim, lane, k) == None
    decreases |lane| - from
  {
    if from < |lane| {
      FirstVerdictNone(minorDim, lane, from + 1);
    }
  }

  /**
   * A lane passes its element checks exactly when it is strictly increasing and
   * no index exceeds the minor dimension.
   */
  lemma LanePassesIff(minorDim: nat, lane: seq<nat>)
    ensures FirstVerdict(minorDim, lane, 0) == None <==> StrictlyIncreasing(lane) && AllAtMost(lane, minorDim)
  {
    FirstVerdictNone(minorDim, lane, 0);
    AdjacentIncreasingIff(lane);
    if FirstVerdict(minorDim, lane, 0) == None {
      forall k | 0 < k < |lane| ensures lane[k - 1] < lane[k] {
        assert ElementVerdict(minorDim, lane, k) == None;
      }
      forall k | 0 <= k < |lane| ensures lane[k] <= minorDim {
        assert ElementVerdict(minorDim, lane, k) == None;
      }
    } else if StrictlyIncreasing(lane) && AllAtMost(lane, minorDim) {
      forall k | 0 <= k < |lane| ensures ElementVerdict(minorDim, lane, k) == None {
        if k > 0 {
          assert lane[k - 1] < lane[k];
        }
      }
    }
  }

  /**
   * The first failing position of a lane decides its error, and the order of
   * the tests at that position (bound, unsorted, duplicate) decides the kind.
   */
  lemma {:induction false} FirstVerdictIsFirstFailure(minorDim: nat, lane: seq<nat>, from: nat, k: nat)
    requires from <= k < |lane|
    requires forall j :: from <= j < k ==> ElementVerdict(minorDim, lane, j) == None
    requires ElementVerdict(minorDim, lane, k).Some?
    ensures FirstVerdict(minorDim, lane, from) == ElementVerdict(minorDim, lane, k)
    decreases k - from
  {
    if from < k {
      assert ElementVerdict(minorDim, lane, from) == None;
      FirstVerdictIsFirstFailure(minorDim, lane, from + 1, k);
    }
  }

  /** A lane passes every check exactly when it is well formed. */
  lemma LaneVerdictNoneIff(minorDim: nat, offsets: seq<nat>, indices: seq<nat>, i: nat)
    requires i + 1 < |offsets|
    ensures LaneVerdict(minorDim, offsets, indices, i) == None <==> LaneWellFormed(minorDim, offsets, indices, i)
  {
    if offsets[i] <= offsets[i + 1] <= |indices| {
      LanePassesIff(minorDim, indices[offsets[i]..offsets[i + 1]]);
    }
  }

  lemma {:induction false} ScanLanesOkIff(minorDim: nat, offsets: seq<nat>, indices: seq<nat>, from: nat)
    ensures ScanLanes(minorDim, offsets, indices, from).Ok? <==>
            forall i :: from <= i < |offsets| - 1 ==> LaneVerdict(minorDim, offsets, indices, i) == None
    decreases |offsets| - from
  {
    if from + 1 < |offsets| {
      ScanLanesOkIff(minorDim, offsets, indices, from + 1);
    }
  }

  lemma {:induction false} ScanLanesFirstFailure(minorDim: nat, offsets: seq<nat>, indices: seq<nat>, from: nat, k: nat)
    requires from <= k && k + 1 < |offsets|
    requires forall j :: from <= j < k ==> LaneVerdict(minorDim, offsets, indices, j) == None
    requires LaneVerdict(minorDim, offsets, indices, k).Some?
    ensures ScanLanes(minorDim, offsets, indices, from) == LaneVerdict(minorDim, offsets, indices, k).value
    decreases k - from
  {
    if from < k {
      assert LaneVerdict(minorDim, offsets, indices, from) == None;
      ScanLanesFirstFailure(minorDim, offsets, indices, from + 1, k);
    }
  }

  /** Every stored position of a pattern with monotonic offsets lies in some lane. */
  lemma {:induction false} LaneContaining(offsets: seq<nat>, k: nat, hi: nat) returns (i: nat)
    requires NonDecreasing(offsets) && hi < |offsets| && offsets[0] <= k < offsets[hi]
    ensures i < hi && offsets[i] <= k < offsets[i + 1]
    decreases hi
  {
    if offsets[hi - 1] <= k {
      i := hi - 1;
    } else {
      i := LaneContaining(offsets, k, hi - 1);
    }
  }

  /** Well-formed lanes make a valid pattern. */
  lemma ValidFromLanes(minorDim: nat, offsets: seq<nat>, indices: seq<nat>)
    requires |offsets| >= 1 && offsets[0] == 0 && offsets[|offsets| - 1] == |indices|
    requires forall i :: 0 <= i < |offsets| - 1 ==> LaneWellFormed(minorDim, offsets, indices, i)
    ensures SparsityPattern(offsets, indices, minorDim).Valid()
  {
    var n := |offsets| - 1;
    assert AdjacentNonDecreasing(offsets) by {
      forall k | 0 < k < |offsets| ensures offsets[k - 1] <= offsets[k] {
        assert LaneWellFormed(minorDim, offsets, indices, k - 1);
      }
    }
    AdjacentNonDecreasingIff(offsets);
    forall k | 0 <= k < |indices| ensures indices[k] <= minorDim {
      var i := LaneContaining(offsets, k, n);
      assert LaneWellFormed(minorDim, offsets, indices, i);
      assert indices[offsets[i]..offsets[i + 1]][k - offsets[i]] == indices[k];
    }
    forall i | 0 <= i < n ensures StrictlyIncreasing(indices[offsets[i]..offsets[i + 1]]) {
      assert LaneWellFormed(minorDim, offsets, indices, i);
    }
  }

  /** Every lane of a valid pattern is well formed. */
  lemma LanesFromValid(p: SparsityPattern, i: nat)
    requires p.Valid() && i + 1 < |p.majorOffsets|
    ensures LaneWellFormed(p.minorDim, p.majorOffsets, p.minorIndices, i)
  {
    var offsets, indices := p.majorOffsets, p.minorIndices;
    assert offsets[i] <= offsets[i + 1] <= offsets[|offsets| - 1];
    var lane := indices[offsets[i]..offsets[i + 1]];
    forall m | 0 <= m < |lane| ensures lane[m] <= p.minorDim {
      assert lane[m] == indices[offsets[i] + m];
    }
  }

  /** The lane checks, taken together, establish exactly the format invariant. */
  lemma AllLanesWellFormedIff(minorDim: nat, offsets: seq<nat>, indices: seq<nat>)
    requires |offsets| >= 1 && offsets[0] == 0 && offsets[|offsets| - 1] == |indices|
    ensures (forall i :: 0 <= i < |offsets| - 1 ==> LaneWellFormed(minorDim, offsets, indices, i))
            <==> SparsityPattern(offsets, indices, minorDim).Valid()
  {
    if forall i :: 0 <= i < |offsets| - 1 ==> LaneWellFormed(minorDim, offsets, indices, i) {
      ValidFromLanes(minorDim, offsets, indices);
    }
    if SparsityPattern(offsets, indices, minorDim).Valid() {
      forall i | 0 <= i < |offsets| - 1 ensures LaneWellFormed(minorDim, offsets, indices, i) {
        LanesFromValid(SparsityPattern(offsets, indices, minorDim), i);
      }
    }
  }

  /**
   * The constructor succeeds exactly when the offsets have the declared length
   * and the raw arrays satisfy the format invariant; the pattern it returns holds
   * the arrays unchanged.
   */
  lemma TryFromOkIff(majorDim: nat, minorDim: nat, offsets: seq<nat>, indices: seq<nat>)
    ensures TryFrom(majorDim, minorDim, offsets, indices).Ok? <==>
            |offsets| == majorDim + 1 && SparsityPattern(offsets, indices, minorDim).Valid()
    ensures TryFrom(majorDim, minorDim, offsets, indices).Ok? ==>
            TryFrom(majorDim, minorDim, offsets, indices).pattern == SparsityPattern(offsets, indices, minorDim)
  {
    if |offsets| == majorDim + 1 && offsets[0] == 0 && offsets[|offsets| - 1] == |indices| {
      ScanLanesOkIff(minorDim, offsets, indices, 0);
      forall i | 0 <= i < |offsets| - 1
        ensures LaneVerdict(minorDim, offsets, indices, i) == None <==> LaneWellFormed(minorDim, offsets, indices, i)
      {
        LaneVerdictNoneIff(minorDim, offsets, indices, i);
      }
      AllLanesWellFormedIff(minorDim, offsets, indices);
    }
  }

  /**
   * Position m is the first of the lane that fails a check.
   */
  predicate FirstFailureAt(minorDim: nat, lane: seq<nat>, m: nat) {
    && m < |lane|
    && (forall j :: 0 <= j < m ==> ElementVerdict(minorDim, lane, j) == None)
    && ElementVerdict(minorDim, lane, m).Some?
  }

  /**
   * Lanes are checked in increasing order: when lanes 0 .. k-1 are well formed,
   * lane k decides. Non-monotonic offsets are reported first, then the slice
   * panic, then the first failing element of the lane, with that element's kind.
   */
  lemma TryFromFirstFailingLane(majorDim: nat, minorDim: nat, offsets: seq<nat>, indices: seq<nat>, k: nat, m: nat)
    requires |offsets| == majorDim + 1 && offsets[0] == 0 && offsets[majorDim] == |indices|
    requires k < majorDim
    requires forall j :: 0 <= j < k ==> LaneWellFormed(minorDim, offsets, indices, j)
    ensures offsets[k] > offsets[k + 1] ==> TryFrom(majorDim, minorDim, offsets, indices) == Err(InvalidStructure)
    ensures offsets[k] <= offsets[k + 1] && offsets[k + 1] > |indices| ==>
            TryFrom(majorDim, minorDim, offsets, indices) == Panic
    ensures offsets[k] <= offsets[k + 1] <= |indices|
            && FirstFailureAt(minorDim, indices[offsets[k]..offsets[k + 1]], m)
            ==> TryFrom(majorDim, minorDim, offsets, indices)
                == Err(ElementVerdict(minorDim, indices[offsets[k]..offsets[k + 1]], m).value)
  {
    forall j | 0 <= j < k ensures LaneVerdict(minorDim, offsets, indices, j) == None {
      LaneVerdictNoneIff(minorDim, offsets, indices, j);
    }
    if offsets[k] <= offsets[k + 1] <= |indices| {
      var lane := indices[offsets[k]..offsets[k + 1]];
      if FirstFailureAt(minorDim, lane, m) {
        FirstVerdictIsFirstFailure(minorDim, lane, 0, m);
        ScanLanesFirstFailure(minorDim, offsets, indices, 0, k);
      }
    } else {
      ScanLanesFirstFailure(minorDim, offsets, indices, 0, k);
    }
  }

  /**
   * Concrete outcomes: an index equal to the minor dimension is accepted; order
   * is never compared across a lane boundary; a decreasing inner offset is
   * reported by the lane loop when the last offset is right, and by the
   * last-offset test when it is not; an end offset past the indices that the
   * first/last checks let through makes the slice panic.
   */
  lemma Scenarios()
    ensures TryFrom(1, 4, [0, 1], [4]) == Ok(SparsityPattern([0, 1], [4], 4))
    ensures TryFrom(1, 4, [0, 1], [5]) == Err(IndexOutOfBounds)
    ensures TryFrom(2, 4, [0, 1, 2], [3, 1]).Ok?
    ensures TryFrom(2, 4, [0, 1, 1], [5]) == Err(IndexOutOfBounds)
    ensures TryFrom(2, 4, [0, 2, 2], [1, 1]) == Err(DuplicateEntry)
    ensures TryFrom(2, 4, [0, 2, 2], [2, 1]) == Err(InvalidStructure)
    ensures TryFrom(3, 4, [0, 2, 1, 3], [0, 1, 2]) == Err(InvalidStructure)
    ensures TryFrom(2, 4, [0, 2, 1], [0, 1, 0]) == Err(InvalidStructure)
    ensures TryFrom(2, 4, [0, 2, 1], [0]) == Panic
    ensures TryFrom(2, 4, [0, 5, 3], [0, 1, 2]) == Panic
  {
    var lanes: seq<nat> := [4];
    assert lanes[0..1] == [4];
    assert FirstVerdict(4, [4], 1) == None;
    lanes := [3, 1];
    assert lanes[0..1] == [3] && lanes[1..2] == [1];
    assert FirstVerdict(4, [3], 1) == None && FirstVerdict(4, [1], 1) == None;
    lanes := [1, 1];
    assert lanes[0..2] == [1, 1];
    assert FirstVerdict(4, [1, 1], 1) == Some(DuplicateEntry);
    lanes := [2, 1];
    assert lanes[0..2] == [2, 1];
    assert FirstVerdict(4, [2, 1], 1) == Some(InvalidStructure);
    lanes := [0, 1, 2];
    assert lanes[0..2] == [0, 1];
    assert FirstVerdict(4, [0, 1], 0) == None;
  }
}
