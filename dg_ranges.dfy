// The cell-id dispatch of vtkDGOperation: half-open ranges of cell ids are
// mapped to evaluators in a std::map ordered by range start; a cell id is
// looked up by lower_bound, and Evaluate groups consecutive ids that fall in
// the same range into one evaluator call.  The map is modelled as its
// iteration order: a sequence of entries sorted by range start.
module DgRanges {
  import opened Common

  /** A half-open range [begin, end) of cell ids (vtkTypeUInt64 bounds). */
  datatype RangeKey = RangeKey(begin: nat, end: nat)
  {
    /** RangeKey::Contains. */
    predicate Contains(cellId: nat)
    {
      begin <= cellId < end
    }

    /** RangeKey::operator<: keys are ordered by their start alone. */
    predicate Less(other: RangeKey)
    {
      begin < other.begin
    }
  }

  /** Every id in the range lies in [begin, end). */
  lemma ContainsIsHalfOpen(key: RangeKey, cellId: nat)
    ensures key.Contains(cellId) <==> key.begin <= cellId && cellId < key.end
    ensures key.Contains(key.begin) <==> key.begin < key.end
    ensures !key.Contains(key.end)
  {
  }

  /** RangeKey::ContainedBy as written. */
  predicate ContainedByAsWritten(key: RangeKey, other: RangeKey)
  {
    other.begin >= key.begin && other.end < key.begin
  }

  /** As written, no key is contained by any range whose start does not exceed its end. */
  lemma ContainedByAsWrittenNeverHolds(key: RangeKey, other: RangeKey)
    requires other.begin <= other.end
    ensures !ContainedByAsWritten(key, other)
  {
  }

  /** Concretely: [2, 3) is not reported as contained by [0, 10). */
  lemma ContainedByCounterexample()
    ensures !ContainedByAsWritten(RangeKey(2, 3), RangeKey(0, 10))
    ensures ContainedBy(RangeKey(2, 3), RangeKey(0, 10))
  {
    ContainedByIsInclusion(RangeKey(2, 3), RangeKey(0, 10));
  }

  /** ContainedBy as evidently intended: this range lies inside the other. */
  predicate ContainedBy(key: RangeKey, other: RangeKey)
  {
    other.begin <= key.begin && key.end <= other.end
  }

  /** For a non-empty range, ContainedBy holds iff every id it contains is contained by the other. */
  lemma ContainedByIsInclusion(key: RangeKey, other: RangeKey)
    requires key.begin < key.end
    ensures ContainedBy(key, other) <==> forall id: nat :: key.Contains(id) ==> other.Contains(id)
  {
    if forall id: nat :: key.Contains(id) ==> other.Contains(id) {
      assert key.Contains(key.begin);
      assert key.Contains(key.end - 1);
    }
  }

  /** An abstract handle for a CellRangeEvaluator function. */
  type Evaluator = int

  datatype Entry = Entry(key: RangeKey, eval: Evaluator)

  /** The map invariant: entries in strictly increasing order of range start. */
  ghost predicate SortedByBegin(m: seq<Entry>)
  {
    forall i, j :: 0 <= i < j < |m| ==> m[i].key.begin < m[j].key.begin
  }

  /** The ranges do not overlap (a property of the registered sources, not of the map). */
  ghost predicate NonOverlapping(m: seq<Entry>)
  {
    forall i, j :: 0 <= i < j < |m| ==> m[i].key.end <= m[j].key.begin
  }

  /** map::lower_bound({cellId, _}): the first entry whose start is not below cellId. */
  function LowerBound(m: seq<Entry>, cellId: nat): (r: nat)
    ensures r <= |m|
    ensures forall j :: 0 <= j < r ==> m[j].key.begin < cellId
    ensures r < |m| ==> m[r].key.begin >= cellId
  {
    if |m| == 0 then 0
    else if m[0].key.begin >= cellId then 0
    else 1 + LowerBound(m[1..], cellId)
  }

  /** In a sorted map, lower_bound is the number of entries that start before cellId. */
  lemma LowerBoundSorted(m: seq<Entry>, cellId: nat)
    requires SortedByBegin(m)
    ensures forall j :: LowerBound(m, cellId) <= j < |m| ==> m[j].key.begin >= cellId
  {
    var r := LowerBound(m, cellId);
    if r < |m| {
      forall j | r < j < |m| ensures m[j].key.begin >= cellId {
        assert m[r].key.begin < m[j].key.begin;
      }
    }
  }

  /**
   * FindEvaluator: the entry whose range holds cellId, found at lower_bound
   * or just before it, or |m| (end) when there is none.
   */
  function FindEvaluator(m: seq<Entry>, cellId: nat): (r: nat)
    ensures r <= |m|
    ensures r < |m| ==> m[r].key.Contains(cellId)
  {
    var it := LowerBound(m, cellId);
    if it == |m| then
      if |m| == 0 then it
      else if m[|m| - 1].key.Contains(cellId) then |m| - 1
      else it
    else if m[it].key.Contains(cellId) then it
    else if it == 0 then |m|
    else if m[it - 1].key.Contains(cellId) then it - 1
    else |m|
  }

  /** With sorted, non-overlapping ranges, FindEvaluator finds the range holding cellId whenever there is one. */
  lemma FindEvaluatorComplete(m: seq<Entry>, cellId: nat, k: nat)
    requires SortedByBegin(m) && NonOverlapping(m)
    requires k < |m| && m[k].key.Contains(cellId)
    ensures FindEvaluator(m, cellId) == k
  {
    var it := LowerBound(m, cellId);
    LowerBoundSorted(m, cellId);
    if m[k].key.begin == cellId {
      assert it == k;
    } else {
      assert k < it;
    }
  }

  /** With sorted ranges, FindEvaluator reports end only when no range holds cellId. */
  lemma FindEvaluatorEnd(m: seq<Entry>, cellId: nat)
    requires SortedByBegin(m) && NonOverlapping(m)
    ensures FindEvaluator(m, cellId) == |m| <==> forall k :: 0 <= k < |m| ==> !m[k].key.Contains(cellId)
  {
    if FindEvaluator(m, cellId) == |m| {
      forall k | 0 <= k < |m| ensures !m[k].key.Contains(cellId) {
        if m[k].key.Contains(cellId) { FindEvaluatorComplete(m, cellId, k); }
      }
    }
  }

  /** map::find({begin, 0}): the entry whose key is equivalent (same start), or |m|. */
  function FindKey(m: seq<Entry>, begin: nat): (r: nat)
    ensures r <= |m|
    ensures r < |m| ==> m[r].key.begin == begin
  {
    var i := LowerBound(m, begin);
    if i < |m| && m[i].key.begin == begin then i else |m|
  }

  lemma FindKeyComplete(m: seq<Entry>, begin: nat, k: nat)
    requires SortedByBegin(m) && k < |m| && m[k].key.begin == begin
    ensures FindKey(m, begin) == k
  {
    LowerBoundSorted(m, begin);
  }

  /**
   * map[key] = f: an entry with the same start keeps its key (and so its
   * old end) and takes the new function; otherwise the entry is inserted in order.
   */
  function Assign(m: seq<Entry>, key: RangeKey, f: Evaluator): (r: seq<Entry>)
  {
    var i := LowerBound(m, key.begin);
    if i < |m| && m[i].key.begin == key.begin then m[i := Entry(m[i].key, f)]
    else m[..i] + [Entry(key, f)] + m[i..]
  }

  /** Assignment keeps the map sorted, makes the start map to f, and leaves every other start as it was. */
  lemma AssignProperties(m: seq<Entry>, key: RangeKey, f: Evaluator)
    requires SortedByBegin(m)
    ensures SortedByBegin(Assign(m, key, f))
    ensures FindKey(Assign(m, key, f), key.begin) < |Assign(m, key, f)|
    ensures Assign(m, key, f)[FindKey(Assign(m, key, f), key.begin)].eval == f
    ensures FindKey(m, key.begin) == |m| ==> Assign(m, key, f)[FindKey(Assign(m, key, f), key.begin)].key == key
    ensures FindKey(m, key.begin) < |m| ==> Assign(m, key, f)[FindKey(Assign(m, key, f), key.begin)].key == m[FindKey(m, key.begin)].key
    ensures forall e :: e in m && e.key.begin != key.begin ==> e in Assign(m, key, f)
    ensures forall e :: e in Assign(m, key, f) && e.key.begin != key.begin ==> e in m
  {
    var i := LowerBound(m, key.begin);
    var r := Assign(m, key, f);
    LowerBoundSorted(m, key.begin);
    if i < |m| && m[i].key.begin == key.begin {
      assert r == m[i := Entry(m[i].key, f)];
      ReplaceKeepsOthers(m, r, i, f);
      FindKeyComplete(r, key.begin, i);
      FindKeyComplete(m, key.begin, i);
    } else {
      assert r == m[..i] + [Entry(key, f)] + m[i..];
      InsertKeepsOthers(m, r, i, Entry(key, f));
      FindKeyComplete(r, key.begin, i);
      assert FindKey(m, key.begin) == |m|;
    }
  }

  /** Replacing the function of entry i keeps the starts, hence the order, and every other entry. */
  lemma ReplaceKeepsOthers(m: seq<Entry>, r: seq<Entry>, i: nat, f: Evaluator)
    requires SortedByBegin(m) && i < |m| && r == m[i := Entry(m[i].key, f)]
    ensures SortedByBegin(r)
    ensures forall e :: e in m && e.key.begin != m[i].key.begin ==> e in r
    ensures forall e :: e in r && e.key.begin != m[i].key.begin ==> e in m
  {
    forall e | e in m && e.key.begin != m[i].key.begin ensures e in r {
      var j :| 0 <= j < |m| && m[j] == e;
      assert r[j] == e;
    }
    forall e | e in r && e.key.begin != m[i].key.begin ensures e in m {
      var j :| 0 <= j < |r| && r[j] == e;
      assert m[j] == e;
    }
  }

  /** Inserting an entry at i, between the starts below and above it, keeps the order and every entry. */
  lemma InsertKeepsOthers(m: seq<Entry>, r: seq<Entry>, i: nat, x: Entry)
    requires SortedByBegin(m) && i <= |m| && r == m[..i] + [x] + m[i..]
    requires forall j :: 0 <= j < i ==> m[j].key.begin < x.key.begin
    requires forall j :: i <= j < |m| ==> m[j].key.begin > x.key.begin
    ensures SortedByBegin(r) && r[i] == x
    ensures forall e :: e in m ==> e in r
    ensures forall e :: e in r && e != x ==> e in m
  {
    assert forall j :: 0 <= j < i ==> r[j] == m[j];
    assert forall j :: i < j < |r| ==> r[j] == m[j - 1];
    forall e | e in m ensures e in r {
      var j :| 0 <= j < |m| && m[j] == e;
      if j < i { assert r[j] == e; } else { assert r[j + 1] == e; }
    }
    forall e | e in r && e != x ensures e in m {
      var j :| 0 <= j < |r| && r[j] == e;
      if j < i { assert m[j] == e; } else { assert m[j - 1] == e; }
    }
  }

  // ---- Cells and their sources --------------------------------------------

  /** A cell or side specification: its first cell id, how many it holds, and whether it is blanked. */
  datatype CellSource = CellSource(offset: nat, numCells: nat, blanked: bool)

  /** A vtkDGCell: the cell specification and its side specifications. */
  datatype DGCell = DGCell(cellSpec: CellSource, sideSpecs: seq<CellSource>)

  /**
   * How the attribute uses the shape: whether the shape is included, the
   * attribute's function space, and whether the shape attribute offers a
   * "BasisGradient" operator for the cell type.
   */
  datatype ShapeUse = ShapeUse(includeShape: bool, functionSpace: string, hasBasisGradient: bool)
  {
    /** HCURL and HDIV fields that include the shape need its gradient; without one AddSource throws. */
    predicate GradientMissing()
    {
      includeShape && (functionSpace == "HCURL" || functionSpace == "HDIV") && !hasBasisGradient
    }
  }

  /** Every specification of the cell, its own and its sides', is blanked. */
  predicate AllBlanked(cell: DGCell)
  {
    cell.cellSpec.blanked && forall i :: 0 <= i < |cell.sideSpecs| ==> cell.sideSpecs[i].blanked
  }

  /** The key AddSource registers: [Offset, Offset + number of connectivity tuples). */
  function SourceKey(source: CellSource): (r: RangeKey)
    ensures r.begin == source.offset && r.end - r.begin == source.numCells
    ensures forall id: nat :: r.Contains(id) <==> source.offset <= id < source.offset + source.numCells
  {
    RangeKey(source.offset, source.offset + source.numCells)
  }

  /** The specification a side-spec id names: -1 for the cell itself, otherwise a side. */
  function SpecFor(cell: DGCell, sideSpecId: int): CellSource
    requires -1 <= sideSpecId < |cell.sideSpecs|
  {
    if sideSpecId == -1 then cell.cellSpec else cell.sideSpecs[sideSpecId]
  }

  /** One call of an evaluator on the cell-id indices [begin, end) through entry `entry`. */
  datatype Run = Run(begin: nat, end: nat, entry: nat)

  /** A run is a maximal stretch of ids from its start that one entry holds, that entry being FindEvaluator's. */
  ghost predicate RunValid(m: seq<Entry>, cellIds: seq<nat>, r: Run)
  {
    r.begin < r.end <= |cellIds| && r.entry < |m|
    && r.entry == FindEvaluator(m, cellIds[r.begin])
    && (forall t :: r.begin <= t < r.end ==> m[r.entry].key.Contains(cellIds[t]))
    && (r.end == |cellIds| || !m[r.entry].key.Contains(cellIds[r.end]))
  }

  /** Runs are valid, in increasing order and within the first `upto` indices. */
  ghost predicate RunsOrdered(m: seq<Entry>, cellIds: seq<nat>, runs: seq<Run>, upto: nat)
  {
    (forall k :: 0 <= k < |runs| ==> RunValid(m, cellIds, runs[k]) && runs[k].end <= upto)
    && (forall k, l :: 0 <= k < l < |runs| ==> runs[k].end <= runs[l].begin)
  }

  ghost predicate InSomeRun(runs: seq<Run>, t: int)
  {
    exists k :: 0 <= k < |runs| && runs[k].begin <= t < runs[k].end
  }

  /** An index outside every run is one whose id no entry holds (a skipped, invalid id). */
  ghost predicate SkippedAreInvalid(m: seq<Entry>, cellIds: seq<nat>, runs: seq<Run>, upto: nat)
    requires upto <= |cellIds|
  {
    forall t :: 0 <= t < upto && !InSomeRun(runs, t) ==> FindEvaluator(m, cellIds[t]) == |m|
  }

  /** The operator: the evaluator map built from the cell and side specifications. */
  class DGOperation {
    var evaluators: seq<Entry>

    constructor ()
      ensures evaluators == []
    {
      evaluators := [];
    }

    /**
     * AddSource: a blanked source is not registered.  An unblanked source of
     * an attribute whose shape gradient is missing throws the logic_error
     * "No gradient operation for shape attribute.", reported as ok false,
     * before anything is registered; otherwise its key range maps to the
     * entry.
     */
    method AddSource(source: CellSource, entry: Evaluator, shape: ShapeUse) returns (ok: bool)
      modifies this
      ensures source.blanked ==> ok && evaluators == old(evaluators)
      ensures !source.blanked && shape.GradientMissing() ==> !ok && evaluators == old(evaluators)
      ensures !source.blanked && !shape.GradientMissing() ==>
                ok && evaluators == Assign(old(evaluators), SourceKey(source), entry)
    {
      if source.blanked {
        return true;
      }
      if shape.GradientMissing() {
        return false;
      }
      var key := SourceKey(source);
      evaluators := Assign(evaluators, key, entry);
      ok := true;
    }

    /**
     * The registration loop of Prepare: the cell specification, then each
     * side specification.  When the shape gradient is missing, the first
     * unblanked specification throws and ends the loop, so nothing is
     * registered and the call fails unless every specification is blanked.
     */
    method AddSources(cell: DGCell, cellEntry: Evaluator, sideEntries: seq<Evaluator>, shape: ShapeUse)
        returns (ok: bool)
      requires |sideEntries| == |cell.sideSpecs|
      requires SortedByBegin(evaluators)
      modifies this
      ensures SortedByBegin(evaluators)
      ensures !shape.GradientMissing() ==> ok && evaluators == AddAll(
        (if cell.cellSpec.blanked then old(evaluators) else Assign(old(evaluators), SourceKey(cell.cellSpec), cellEntry)),
        cell.sideSpecs, sideEntries, |cell.sideSpecs|)
      ensures shape.GradientMissing() ==> evaluators == old(evaluators) && (ok <==> AllBlanked(cell))
    {
      ok := AddSource(cell.cellSpec, cellEntry, shape);
      if !ok {
        return;
      }
      if !cell.cellSpec.blanked { AssignSorted(old(evaluators), SourceKey(cell.cellSpec), cellEntry); }
      ghost var start := evaluators;
      var i := 0;
      while i < |cell.sideSpecs|
        invariant 0 <= i <= |cell.sideSpecs|
        invariant !shape.GradientMissing() ==> evaluators == AddAll(start, cell.sideSpecs, sideEntries, i)
        invariant shape.GradientMissing() ==>
                    evaluators == old(evaluators) && cell.cellSpec.blanked && forall j :: 0 <= j < i ==> cell.sideSpecs[j].blanked
        invariant SortedByBegin(evaluators)
      {
        ghost var before := evaluators;
        ok := AddSource(cell.sideSpecs[i], sideEntries[i], shape);
        if !ok {
          return;
        }
        if !cell.sideSpecs[i].blanked { AssignSorted(before, SourceKey(cell.sideSpecs[i]), sideEntries[i]); }
        assert !shape.GradientMissing() ==> AddAll(start, cell.sideSpecs, sideEntries, i + 1) == evaluators;
        i := i + 1;
      }
    }

    /**
     * GetEvaluatorForSideSpec: nothing for a missing cell, an id below -1 or
     * past the side specifications, or a blanked specification; otherwise
     * the function of the entry whose key starts at the specification's offset.
     */
    function GetEvaluatorForSideSpec(cell: Option<DGCell>, sideSpecId: int): (r: Option<Evaluator>)
      reads this
      ensures cell.None? || sideSpecId < -1 ==> r.None?
      ensures cell.Some? && sideSpecId >= |cell.value.sideSpecs| ==> r.None?
      ensures cell.Some? && -1 <= sideSpecId < |cell.value.sideSpecs| && SpecFor(cell.value, sideSpecId).blanked ==> r.None?
      ensures r.Some? ==> cell.Some? && -1 <= sideSpecId < |cell.value.sideSpecs|
                          && exists k :: 0 <= k < |evaluators| && evaluators[k].key.begin == SpecFor(cell.value, sideSpecId).offset
                                         && evaluators[k].eval == r.value
    {
      if cell.None? || sideSpecId < -1 || sideSpecId >= |cell.value.sideSpecs| then None
      else
        var spec := SpecFor(cell.value, sideSpecId);
        if spec.blanked then None
        else
          var it := FindKey(evaluators, spec.offset);
          if it == |evaluators| then None else Some(evaluators[it].eval)
    }

    /**
     * Evaluate: false at once when the id and parametric-coordinate counts
     * differ; otherwise the ids are split into runs, each handed to one
     * evaluator, invalid ids are skipped, and the result says whether none was.
     */
    method Evaluate(cellIds: seq<nat>, rstTuples: nat) returns (ok: bool, runs: seq<Run>)
      ensures |cellIds| != rstTuples ==> !ok && runs == []
      ensures RunsOrdered(evaluators, cellIds, runs, |cellIds|)
      ensures |cellIds| == rstTuples ==> SkippedAreInvalid(evaluators, cellIds, runs, |cellIds|)
      ensures ok <==> |cellIds| == rstTuples && forall t :: 0 <= t < |cellIds| ==> InSomeRun(runs, t)
    {
      var nn := |cellIds|;
      runs := [];
      if nn != rstTuples {
        return false, runs;
      }
      ok := true;
      var ii := 0;
      while ii < nn
        invariant 0 <= ii <= nn
        invariant RunsOrdered(evaluators, cellIds, runs, ii)
        invariant SkippedAreInvalid(evaluators, cellIds, runs, ii)
        invariant ok <==> forall t :: 0 <= t < ii ==> InSomeRun(runs, t)
      {
        var eit := FindEvaluator(evaluators, cellIds[ii]);
        if eit == |evaluators| || !evaluators[eit].key.Contains(cellIds[ii]) {
          NotInRunsBeyond(runs, ii);
          ok := false;
          ii := ii + 1;
          continue;
        }
        var jj := ExtendRun(cellIds, evaluators[eit].key, ii);
        ghost var old_runs := runs;
        runs := runs + [Run(ii, jj, eit)];
        RunsExtended(evaluators, cellIds, old_runs, Run(ii, jj, eit), ii);
        ii := jj;
      }
    }
  }

  /** The inner loop of Evaluate: the first index after ii whose id the key does not hold. */
  method ExtendRun(cellIds: seq<nat>, key: RangeKey, ii: nat) returns (jj: nat)
    requires ii < |cellIds| && key.Contains(cellIds[ii])
    ensures ii < jj <= |cellIds|
    ensures forall t :: ii <= t < jj ==> key.Contains(cellIds[t])
    ensures jj == |cellIds| || !key.Contains(cellIds[jj])
  {
    jj := ii + 1;
    while jj < |cellIds|
      invariant ii < jj <= |cellIds|
      invariant forall t :: ii <= t < jj ==> key.Contains(cellIds[t])
    {
      if !key.Contains(cellIds[jj]) {
        break;
      }
      jj := jj + 1;
    }
  }

  /** Assignment keeps the map sorted by range start. */
  lemma AssignSorted(m: seq<Entry>, key: RangeKey, f: Evaluator)
    requires SortedByBegin(m)
    ensures SortedByBegin(Assign(m, key, f))
  {
    AssignProperties(m, key, f);
  }

  function AddAll(m: seq<Entry>, specs: seq<CellSource>, entries: seq<Evaluator>, n: nat): seq<Entry>
    requires n <= |specs| && |entries| == |specs|
  {
    if n == 0 then m
    else
      var prev := AddAll(m, specs, entries, n - 1);
      if specs[n - 1].blanked then prev else Assign(prev, SourceKey(specs[n - 1]), entries[n - 1])
  }

  /** After AddSource of an unblanked specification, GetEvaluatorForSideSpec returns the registered function. */
  lemma AddSourceThenGet(op: DGOperation, m0: seq<Entry>, cell: DGCell, sideSpecId: int, f: Evaluator)
    requires SortedByBegin(m0)
    requires -1 <= sideSpecId < |cell.sideSpecs| && !SpecFor(cell, sideSpecId).blanked
    requires op.evaluators == Assign(m0, SourceKey(SpecFor(cell, sideSpecId)), f)
    ensures op.GetEvaluatorForSideSpec(Some(cell), sideSpecId) == Some(f)
  {
    AssignProperties(m0, SourceKey(SpecFor(cell, sideSpecId)), f);
  }

  lemma NotInRunsBeyond(runs: seq<Run>, ii: nat)
    requires forall k :: 0 <= k < |runs| ==> runs[k].end <= ii
    ensures !InSomeRun(runs, ii)
  {
  }

  /** Appending a valid run that starts at ii keeps the run invariants of Evaluate up to its end. */
  lemma RunsExtended(m: seq<Entry>, cellIds: seq<nat>, runs: seq<Run>, r: Run, ii: nat)
    requires ii <= |cellIds|
    requires RunsOrdered(m, cellIds, runs, ii) && SkippedAreInvalid(m, cellIds, runs, ii)
    requires r.begin == ii && RunValid(m, cellIds, r)
    ensures RunsOrdered(m, cellIds, runs + [r], r.end)
    ensures SkippedAreInvalid(m, cellIds, runs + [r], r.end)
    ensures (forall t :: 0 <= t < ii ==> InSomeRun(runs, t)) <==> (forall t :: 0 <= t < r.end ==> InSomeRun(runs + [r], t))
  {
    RunsAppendOrdered(m, cellIds, runs, r, ii);
    forall t | 0 <= t < r.end
      ensures InSomeRun(runs + [r], t) <==> (t < ii && InSomeRun(runs, t)) || ii <= t
    {
      InSomeRunAppend(runs, r, t);
    }
  }

  lemma RunsAppendOrdered(m: seq<Entry>, cellIds: seq<nat>, runs: seq<Run>, r: Run, ii: nat)
    requires RunsOrdered(m, cellIds, runs, ii)
    requires r.begin == ii && RunValid(m, cellIds, r)
    ensures RunsOrdered(m, cellIds, runs + [r], r.end)
  {
    var runs' := runs + [r];
    assert forall k :: 0 <= k < |runs| ==> runs'[k] == runs[k];
    assert runs'[|runs|] == r;
  }

  /** The run appended at ii covers [ii, r.end); earlier indices are covered as before. */
  lemma InSomeRunAppend(runs: seq<Run>, r: Run, t: int)
    requires forall k :: 0 <= k < |runs| ==> runs[k].end <= r.begin
    requires r.begin <= r.end
    ensures InSomeRun(runs + [r], t) <==> (t < r.begin && InSomeRun(runs, t)) || r.begin <= t < r.end
  {
    var runs' := runs + [r];
    if InSomeRun(runs', t) {
      var k :| 0 <= k < |runs'| && runs'[k].begin <= t < runs'[k].end;
      if k < |runs| { assert runs'[k] == runs[k]; }
    }
    if t < r.begin && InSomeRun(runs, t) {
      var k :| 0 <= k < |runs| && runs[k].begin <= t < runs[k].end;
      assert runs'[k] == runs[k];
    }
    if r.begin <= t < r.end {
      assert runs'[|runs|] == r;
    }
  }
}
