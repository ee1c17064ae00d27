/**
 * The lane-major entry iterator of a sparsity pattern. `EntrySequence` says
 * which (major, minor) pairs a pattern stores and in what order;
 * `SparsityPatternIter` produces them one at a time, draining the current
 * lane's tail and skipping empty lanes.
 */
module PatternIter {
  import opened Pattern

  /** Positions start .. end-1 of `indices`, each paired with major index i. */
  function Tagged(i: nat, indices: seq<nat>, start: nat, end: nat): seq<(nat, nat)>
    requires start <= end <= |indices|
    decreases end - start
  {
    if start == end then [] else [(i, indices[start])] + Tagged(i, indices, start + 1, end)
  }

  lemma {:induction false} TaggedAt(i: nat, indices: seq<nat>, start: nat, end: nat)
    requires start <= end <= |indices|
    ensures |Tagged(i, indices, start, end)| == end - start
    ensures forall k :: 0 <= k < end - start ==> Tagged(i, indices, start, end)[k] == (i, indices[start + k])
    decreases end - start
  {
    if start < end {
      TaggedAt(i, indices, start + 1, end);
      var es, rest := Tagged(i, indices, start, end), Tagged(i, indices, start + 1, end);
      assert es == [(i, indices[start])] + rest;
      forall k | 0 <= k < end - start ensures es[k] == (i, indices[start + k]) {
        if k > 0 {
          assert es[k] == rest[k - 1];
        }
      }
    }
  }

  /** The entries of lane i. */
  function LaneEntries(p: SparsityPattern, i: nat): seq<(nat, nat)>
    requires p.OffsetsValid() && i + 1 < |p.majorOffsets|
  {
    assert p.majorOffsets[i] <= p.majorOffsets[i + 1] <= p.majorOffsets[|p.majorOffsets| - 1];
    Tagged(i, p.minorIndices, p.majorOffsets[i], p.majorOffsets[i + 1])
  }

  /** The entries of lanes `from`, `from + 1`, ..., lane after lane. */
  function EntriesFrom(p: SparsityPattern, from: nat): seq<(nat, nat)>
    requires p.OffsetsValid()
    decreases |p.majorOffsets| - from
  {
    if from + 1 >= |p.majorOffsets| then []
    else LaneEntries(p, from) + EntriesFrom(p, from + 1)
  }

  /** Every stored entry of the pattern, in lane-major order. */
  function EntrySequence(p: SparsityPattern): seq<(nat, nat)>
    requires p.OffsetsValid()
  {
    EntriesFrom(p, 0)
  }

  /** Entry e stands for stored position k: k lies in lane e.0 and holds minor index e.1. */
  predicate EntryAt(p: SparsityPattern, e: (nat, nat), k: nat) {
    && e.0 + 1 < |p.majorOffsets|
    && p.majorOffsets[e.0] <= k < p.majorOffsets[e.0 + 1]
    && k < |p.minorIndices| && e.1 == p.minorIndices[k]
  }

  /** The entries of lanes `from`, ... stand for positions offsets[from], ..., nnz - 1 in turn. */
  lemma {:induction false} EntriesFromAt(p: SparsityPattern, from: nat)
    requires p.OffsetsValid() && from < |p.majorOffsets|
    ensures |EntriesFrom(p, from)| == p.Nnz() - p.majorOffsets[from]
    ensures forall j :: 0 <= j < |EntriesFrom(p, from)| ==>
              from <= EntriesFrom(p, from)[j].0 && EntryAt(p, EntriesFrom(p, from)[j], p.majorOffsets[from] + j)
    decreases |p.majorOffsets| - from
  {
    var o := p.majorOffsets;
    assert o[from] <= o[|o| - 1];
    if from + 1 < |o| {
      assert o[from] <= o[from + 1] <= o[|o| - 1];
      EntriesFromAt(p, from + 1);
      TaggedAt(from, p.minorIndices, o[from], o[from + 1]);
      var es, head, rest := EntriesFrom(p, from), LaneEntries(p, from), EntriesFrom(p, from + 1);
      assert es == head + rest;
      assert |head| == o[from + 1] - o[from];
      forall j | 0 <= j < |es| ensures from <= es[j].0 && EntryAt(p, es[j], o[from] + j) {
        if j < |head| {
          assert es[j] == head[j] == (from, p.minorIndices[o[from] + j]);
        } else {
          var r := j - |head|;
          assert es[j] == rest[r];
          assert from + 1 <= rest[r].0 && EntryAt(p, rest[r], o[from + 1] + r);
        }
      }
    }
  }

  /** There is one entry per stored position. */
  lemma EntrySequenceLength(p: SparsityPattern)
    requires p.OffsetsValid()
    ensures |EntrySequence(p)| == p.Nnz()
  {
    EntriesFromAt(p, 0);
  }

  /**
   * The pattern's entries are exactly its nnz stored positions: entry k pairs
   * minor index k with the lane whose offset range holds k.
   */
  lemma EntrySequenceSpec(p: SparsityPattern)
    requires p.Valid()
    ensures |EntrySequence(p)| == p.Nnz()
    ensures forall k :: 0 <= k < |EntrySequence(p)| ==>
              EntryAt(p, EntrySequence(p)[k], k) && EntrySequence(p)[k].1 <= p.minorDim
  {
    EntriesFromAt(p, 0);
  }

  /** Two stored positions k < l: the later one lies in a later lane, or in the same lane further right. */
  lemma PositionsOrdered(p: SparsityPattern, e: (nat, nat), f: (nat, nat), k: nat, l: nat)
    requires p.Valid() && k < l
    requires EntryAt(p, e, k) && EntryAt(p, f, l)
    ensures e.0 < f.0 || (e.0 == f.0 && e.1 < f.1)
  {
    var o := p.majorOffsets;
    var i := e.0;
    if f.0 == i {
      var lane := p.minorIndices[o[i]..o[i + 1]];
      assert StrictlyIncreasing(lane);
      assert lane[k - o[i]] == e.1 && lane[l - o[i]] == f.1;
    }
  }

  /**
   * Iteration is lane-major: the lane index never decreases, and within a lane
   * the minor index strictly increases.
   */
  lemma EntrySequenceSorted(p: SparsityPattern)
    requires p.Valid()
    ensures forall k, l :: 0 <= k < l < |EntrySequence(p)| ==>
              || EntrySequence(p)[k].0 < EntrySequence(p)[l].0
              || (EntrySequence(p)[k].0 == EntrySequence(p)[l].0 && EntrySequence(p)[k].1 < EntrySequence(p)[l].1)
  {
    var es := EntrySequence(p);
    EntriesFromAt(p, 0);
    forall k, l | 0 <= k < l < |es|
      ensures es[k].0 < es[l].0 || (es[k].0 == es[l].0 && es[k].1 < es[l].1)
    {
      PositionsOrdered(p, es[k], es[l], k, l);
    }
  }

  /** The minor indices of the entries in lane i, in order. */
  function MinorsIn(es: seq<(nat, nat)>, i: nat): seq<nat> {
    if es == [] then []
    else (if es[0].0 == i then [es[0].1] else []) + MinorsIn(es[1..], i)
  }

  lemma {:induction false} MinorsInConcat(a: seq<(nat, nat)>, b: seq<(nat, nat)>, i: nat)
    ensures MinorsIn(a + b, i) == MinorsIn(a, i) + MinorsIn(b, i)
  {
    if a == [] {
      assert a + b == b;
    } else {
      var c := a + b;
      assert c[0] == a[0];
      assert c[1..] == a[1..] + b;
      MinorsInConcat(a[1..], b, i);
      var h := if a[0].0 == i then [a[0].1] else [];
      assert MinorsIn(c, i) == h + MinorsIn(c[1..], i);
      assert MinorsIn(a, i) == h + MinorsIn(a[1..], i);
    }
  }

  lemma {:induction false} MinorsInTagged(j: nat, indices: seq<nat>, start: nat, end: nat, i: nat)
    requires start <= end <= |indices|
    ensures MinorsIn(Tagged(j, indices, start, end), i) == if i == j then indices[start..end] else []
    decreases end - start
  {
    if start < end {
      var first, rest := [(j, indices[start])], Tagged(j, indices, start + 1, end);
      assert Tagged(j, indices, start, end) == first + rest;
      MinorsInConcat(first, rest, i);
      assert first[1..] == [];
      assert MinorsIn(first, i) == if i == j then [indices[start]] else [];
      MinorsInTagged(j, indices, start + 1, end, i);
      assert indices[start..end] == [indices[start]] + indices[start + 1..end];
    }
  }

  lemma {:induction false} MinorsInEntriesFrom(p: SparsityPattern, from: nat, i: nat)
    requires p.Valid()
    ensures MinorsIn(EntriesFrom(p, from), i) == if from <= i && p.Lane(i).Some? then p.Lane(i).value else []
    decreases |p.majorOffsets| - from
  {
    var o := p.majorOffsets;
    if from + 1 < |o| {
      assert o[from] <= o[from + 1] <= o[|o| - 1];
      MinorsInConcat(LaneEntries(p, from), EntriesFrom(p, from + 1), i);
      MinorsInTagged(from, p.minorIndices, o[from], o[from + 1], i);
      MinorsInEntriesFrom(p, from + 1, i);
    }
  }

  /**
   * A lane holds exactly the minor indices that iteration pairs with its major
   * index, in the same order; an index with no lane gets none.
   */
  lemma LaneMatchesEntries(p: SparsityPattern, i: nat)
    requires p.Valid()
    ensures MinorsIn(EntrySequence(p), i) == if p.Lane(i).Some? then p.Lane(i).value else []
  {
    MinorsInEntriesFrom(p, 0, i);
  }

  /** An empty pattern has no entries. */
  lemma NewHasNoEntries(majorDim: nat, minorDim: nat)
    ensures EntrySequence(New(majorDim, minorDim)) == []
  {
    EntrySequenceSpec(New(majorDim, minorDim));
  }

  /**
   * Stored position k of lane i is the entry (i, minorIndices[k]), and it is
   * entry number k of the entry sequence.
   */
  lemma EntryOfPosition(p: SparsityPattern, i: nat, k: nat)
    requires p.OffsetsValid() && i + 1 < |p.majorOffsets|
    requires p.majorOffsets[i] <= k < p.majorOffsets[i + 1]
    ensures |EntrySequence(p)| == p.Nnz() && k < p.Nnz()
    ensures EntrySequence(p)[k] == (i, p.minorIndices[k])
  {
    var o := p.majorOffsets;
    EntriesFromAt(p, 0);
    assert o[i + 1] <= o[|o| - 1];
    assert EntryAt(p, EntriesFrom(p, 0)[k - o[0]], o[0] + (k - o[0]));
  }

  /**
   * Iterator over the stored entries of a pattern. The unconsumed tail of the
   * current lane is minorIndices[remainingStart..remainingEnd]; `Remaining` is
   * the ghost sequence of entries still to be produced.
   */
  class SparsityPatternIter {
    const majorOffsets: seq<nat>
    const minorIndices: seq<nat>
    var currentLaneIdx: nat
    var remainingStart: nat
    var remainingEnd: nat

    ghost const pattern: SparsityPattern
    ghost var Remaining: seq<(nat, nat)>

    /**
     * The tail lies in the current lane and ends where that lane ends (with a
     * single offset there is no lane and the tail is empty at 0), so the entries
     * still to come are those of the stored positions from remainingStart on.
     */
    ghost predicate Valid()
      reads this
    {
      && pattern.OffsetsValid()
      && majorOffsets == pattern.majorOffsets
      && minorIndices == pattern.minorIndices
      && currentLaneIdx < |majorOffsets|
      && majorOffsets[currentLaneIdx] <= remainingStart <= remainingEnd
      && remainingEnd == majorOffsets[if currentLaneIdx + 1 < |majorOffsets| then currentLaneIdx + 1 else currentLaneIdx]
      && remainingStart <= |EntrySequence(pattern)|
      && Remaining == EntrySequence(pattern)[remainingStart..]
    }

    /** Starts at lane 0 with that lane's whole range as the tail. */
    constructor FromPattern(p: SparsityPattern)
      requires p.Valid()
      ensures Valid() && pattern == p
      ensures currentLaneIdx == 0 && remainingStart == 0
      ensures remainingEnd == if |p.majorOffsets| > 1 then p.majorOffsets[1] else 0
      ensures Remaining == EntrySequence(p)
    {
      majorOffsets := p.majorOffsets;
      minorIndices := p.minorIndices;
      var firstLaneEnd := if |p.majorOffsets| > 1 then p.majorOffsets[1] else 0;
      currentLaneIdx := 0;
      remainingStart := 0;
      remainingEnd := firstLaneEnd;
      pattern := p;
      Remaining := EntrySequence(p);
    }

    /**
     * Produces the next entry, or None once every lane is done. After None the
     * state is unchanged, so every further call gives None as well.
     */
    method Next() returns (item: Option<(nat, nat)>)
      requires Valid()
      modifies this
      ensures Valid()
      ensures old(Remaining) == [] ==> item == None && Remaining == []
      ensures old(Remaining) != [] ==> item == Some(old(Remaining)[0]) && Remaining == old(Remaining)[1..]
    {
      if remainingStart < remainingEnd {
        EntryOfPosition(pattern, currentLaneIdx, remainingStart);
        item := Some((currentLaneIdx, minorIndices[remainingStart]));
        remainingStart := remainingStart + 1;
        Remaining := Remaining[1..];
        return;
      }
      while currentLaneIdx + 2 < |majorOffsets|
        invariant Valid() && remainingStart == remainingEnd
        invariant Remaining == old(Remaining)
        decreases |majorOffsets| - currentLaneIdx
      {
        currentLaneIdx := currentLaneIdx + 1;
        var lower := majorOffsets[currentLaneIdx];
        var upper := majorOffsets[currentLaneIdx + 1];
        if upper > lower {
          EntryOfPosition(pattern, currentLaneIdx, lower);
          remainingStart, remainingEnd := lower + 1, upper;
          Remaining := Remaining[1..];
          return Some((currentLaneIdx, minorIndices[lower]));
        }
      }
      EntriesFromAt(pattern, 0);
      return None;
    }
  }

  /** The iterator over a pattern's entries. */
  method Entries(p: SparsityPattern) returns (it: SparsityPatternIter)
    requires p.Valid()
    ensures fresh(it) && it.Valid() && it.pattern == p
    ensures it.Remaining == EntrySequence(p)
  {
    it := new SparsityPatternIter.FromPattern(p);
  }

  /** Drains a fresh iterator: it yields exactly nnz entries, the entry sequence. */
  method CollectEntries(p: SparsityPattern) returns (entries: seq<(nat, nat)>)
    requires p.Valid()
    ensures entries == EntrySequence(p)
    ensures |entries| == p.Nnz()
  {
    var it := Entries(p);
    ghost var all := it.Remaining;
    entries := [];
    while true
      invariant it.Valid() && it.pattern == p
      invariant entries + it.Remaining == all
      decreases |it.Remaining|
    {
      ghost var before := it.Remaining;
      var item := it.Next();
      if item.None? {
        break;
      }
      assert before == [item.value] + it.Remaining;
      entries := entries + [item.value];
    }
    EntrySequenceLength(p);
  }

  /** The worked example of the entry iterator's documentation. */
  lemma DocExample()
    ensures TryFrom(3, 4, [0, 2, 3, 4], [0, 2, 1, 0]) == Ok(SparsityPattern([0, 2, 3, 4], [0, 2, 1, 0], 4))
    ensures EntrySequence(SparsityPattern([0, 2, 3, 4], [0, 2, 1, 0], 4)) == [(0, 0), (0, 2), (1, 1), (2, 0)]
  {
    var p := SparsityPattern([0, 2, 3, 4], [0, 2, 1, 0], 4);
    var ind := p.minorIndices;
    assert ind[0..2] == [0, 2] && ind[2..3] == [1] && ind[3..4] == [0];
    assert FirstVerdict(4, [0, 2], 0) == None;
    assert FirstVerdict(4, [1], 0) == None && FirstVerdict(4, [0], 0) == None;
    assert LaneEntries(p, 0) == [(0, 0), (0, 2)];
    assert LaneEntries(p, 1) == [(1, 1)];
    assert LaneEntries(p, 2) == [(2, 0)];
  }
}
