/** PreMapper of the similarity step: each inverted-index posting list becomes
    one self-join task, or, when it is longer than lengthThreshold, splitNum
    segments with a self-join task per segment and a cross-join task per pair
    of segments. Tasks are keyed by (container id, flag); container ids come
    from two counters of the mapper instance. */
module Similarity {
  import opened Outcomes
  import opened Text
  import opened SplitPlan

  /** One context.write: the key (container id, flag) and the text of the task. */
  datatype Emission = Emission(id: int, flag: int, value: string)

  function Min(a: int, b: int): int
  {
    if a <= b then a else b
  }

  /** docsInSeg: n / k, rounded up. */
  function CeilDiv(n: nat, k: int): (d: nat)
    requires k > 0
  {
    if n % k != 0 then n / k + 1 else n / k
  }

  /** n / k rounded up is the least d with n <= d * k. */
  lemma CeilDivBounds(n: nat, k: int)
    requires k > 0
    ensures (CeilDiv(n, k) - 1) * k < n <= CeilDiv(n, k) * k
  {
    assert n == (n / k) * k + n % k;
  }

  /** A non-empty list has a positive segment size, and at least one segment. */
  lemma CeilDivPositive(n: nat, k: int)
    requires n > 0 && k > 0
    ensures CeilDiv(n, k) > 0
  {
    var d := CeilDiv(n, k);
    if d <= 0 {
      MulMono(d, 0, k);
    }
  }

  /** Entries i*d up to (i+1)*d of docs, cut to the list (Arrays.copyOfRange for
      the segments that getSegment does not reject). */
  function Segment(docs: seq<string>, i: int, d: nat): seq<string>
  {
    MulMono(i, i + 1, d);
    docs[Clamp(i * d, |docs|) .. Clamp((i + 1) * d, |docs|)]
  }

  function Clamp(x: int, n: nat): (r: nat)
    ensures r <= n
  {
    if x < 0 then 0 else Min(x, n)
  }

  /** getSegment: the comma join of segment i, or the exception the source
      raises, IllegalArgumentException from copyOfRange when the segment would
      start past the end, StringIndexOutOfBoundsException from arrToStr when
      it is empty. */
  function GetSegment(docs: seq<string>, i: nat, d: nat): (r: Outcome<string>)
    ensures r.Ok? <==> d > 0 && i * d < |docs|
    ensures r.Thrown? ==> r.exception == if i * d > |docs| then IllegalArgument else StringIndexOutOfBounds
  {
    MulMono(i, i + 1, d);
    var from, to := i * d, Min((i + 1) * d, |docs|);
    if from > to then Thrown(IllegalArgument)
    else if from == to then Thrown(StringIndexOutOfBounds)
    else Ok(Join(docs[from..to], ','))
  }

  /** The exception getSegment raises for segment m of a list of n entries cut
      every d entries when that segment has no entries: StringIndexOutOfBounds
      when it starts exactly at the end of the list, IllegalArgument past it. */
  function EmptySegmentError(n: nat, d: nat, m: nat): JavaException
  {
    if m * d == n then StringIndexOutOfBounds else IllegalArgument
  }

  /** Segment s of a list of n entries cut every d entries has entries: s is
      below the number of segments, which is n / d rounded up. */
  predicate SegmentOk(n: nat, d: nat, s: int)
  {
    d > 0 && 0 <= s < CeilDiv(n, d)
  }

  lemma SegmentOkMeans(n: nat, d: nat, s: int)
    requires d > 0
    ensures SegmentOk(n, d, s) <==> 0 <= s && s * d < n
  {
    var m: int := CeilDiv(n, d);
    if s < m {
      MulMono(s, m - 1, d);
    } else {
      MulMono(m, s, d);
    }
  }

  predicate UnitOk(n: nat, d: nat, u: Unit)
  {
    match u
    case SelfJoin(s) => SegmentOk(n, d, s)
    case CrossJoin(a, b) => SegmentOk(n, d, a) && SegmentOk(n, d, b)
  }

  /** The comma join of segment s; getSegment throws instead of producing it for
      an empty segment, and map never emits one (the empty text stands in). */
  function SegmentText(docs: seq<string>, s: int, d: nat): string
  {
    var seg := Segment(docs, s, d);
    if |seg| == 0 then [] else Join(seg, ',')
  }

  /** The value a task carries: its segment, or its two segments separated by '#'. */
  function UnitText(docs: seq<string>, d: nat, u: Unit): string
  {
    match u
    case SelfJoin(s) => SegmentText(docs, s, d)
    case CrossJoin(a, b) => SegmentText(docs, a, d) + "#" + SegmentText(docs, b, d)
  }

  /** The records written for units us, container ids counting up from base. */
  function Emissions(docs: seq<string>, d: nat, us: seq<Unit>, base: int): seq<Emission>
  {
    if |us| == 0 then []
    else
      var last := us[|us| - 1];
      Emissions(docs, d, us[..|us| - 1], base) + [Emission(base + |us| - 1, Flag(last), UnitText(docs, d, last))]
  }

  /** How many records carry flag f. */
  function CountEmitted(es: seq<Emission>, f: int): nat
  {
    CountEmittedPrefix(es, f, |es|)
  }

  function CountEmittedPrefix(es: seq<Emission>, f: int, n: nat): nat
    requires n <= |es|
  {
    if n == 0 then 0 else CountEmittedPrefix(es, f, n - 1) + (if es[n - 1].flag == f then 1 else 0)
  }

  lemma EmissionsSnoc(docs: seq<string>, d: nat, us: seq<Unit>, u: Unit, base: int)
    ensures Emissions(docs, d, us + [u], base)
         == Emissions(docs, d, us, base) + [Emission(base + |us|, Flag(u), UnitText(docs, d, u))]
  {
    assert (us + [u])[..|us|] == us;
  }

  /** Writing the record of unit u after those of us extends the output as Emissions says. */
  lemma AppendEmission(docs: seq<string>, d: nat, before: seq<Emission>, us: seq<Unit>, u: Unit, base: int, e: Emission)
    requires e == Emission(base + |us|, Flag(u), UnitText(docs, d, u))
    ensures before + Emissions(docs, d, us, base) + [e] == before + Emissions(docs, d, us + [u], base)
  {
    EmissionsSnoc(docs, d, us, u, base);
  }

  /** getSegment completes exactly for the segments that have entries, with their text. */
  lemma GetSegmentOk(docs: seq<string>, i: nat, d: nat)
    ensures GetSegment(docs, i, d).Ok? <==> SegmentOk(|docs|, d, i)
    ensures SegmentOk(|docs|, d, i) ==> GetSegment(docs, i, d) == Ok(SegmentText(docs, i, d))
  {
    if d > 0 {
      SegmentOkMeans(|docs|, d, i);
      MulMono(i, i + 1, d);
    }
  }

  /** Record p carries container id base + p and the flag and text of unit p. */
  lemma {:induction false} EmissionsAt(docs: seq<string>, d: nat, us: seq<Unit>, base: int)
    ensures |Emissions(docs, d, us, base)| == |us|
    ensures forall p :: 0 <= p < |us| ==>
      Emissions(docs, d, us, base)[p] == Emission(base + p, Flag(us[p]), UnitText(docs, d, us[p]))
    decreases |us|
  {
    if |us| > 0 {
      var front := us[..|us| - 1];
      EmissionsAt(docs, d, front, base);
      var es := Emissions(docs, d, us, base);
      forall p | 0 <= p < |us| - 1
        ensures es[p] == Emission(base + p, Flag(us[p]), UnitText(docs, d, us[p]))
      {
        assert es[p] == Emissions(docs, d, front, base)[p];
        assert front[p] == us[p];
      }
    }
  }

  /** As many records carry flag f as units have it. */
  lemma EmissionsCount(docs: seq<string>, d: nat, us: seq<Unit>, base: int, f: int)
    ensures CountEmitted(Emissions(docs, d, us, base), f) == CountFlag(us, f)
  {
    var es := Emissions(docs, d, us, base);
    EmissionsAt(docs, d, us, base);
    FlagsAgree(es, us, f, |us|);
  }

  lemma {:induction false} FlagsAgree(es: seq<Emission>, us: seq<Unit>, f: int, n: nat)
    requires n <= |us| == |es|
    requires forall p :: 0 <= p < |us| ==> es[p].flag == Flag(us[p])
    ensures CountEmittedPrefix(es, f, n) == CountPrefix(us, f, n)
  {
    if n > 0 {
      FlagsAgree(es, us, f, n - 1);
    }
  }

  /** Every unit of the plan has non-empty segments once segment k-1 does. */
  lemma PlanUnitsOk(k: nat, d: nat, n: nat)
    requires k > 0 && d > 0 && (k - 1) * d < n
    ensures forall u :: u in Plan(k) ==> UnitOk(n, d, u)
  {
    PlanMembers(k);
    SegmentOkMeans(n, d, k - 1);
  }

  /** The units emitted before getSegment fails at segment m. */
  function Interrupted(m: int): seq<Unit>
  {
    [SelfJoin(0)] + CrossRow(0, m)
  }

  /** The pass for segment 0 stopped at segment m has written Interrupted(m). */
  lemma FirstRowInterrupted(k: int, m: int)
    ensures RowsBefore(0, k) + [SelfJoin(0)] + CrossRow(0, m) == Interrupted(m)
  {
    assert RowsBefore(0, k) == [];
  }

  lemma InterruptedUnitsOk(d: nat, n: nat, m: int)
    requires d > 0 && 0 < n && m == CeilDiv(n, d)
    ensures forall u :: u in Interrupted(m) ==> UnitOk(n, d, u)
  {
    forall u | u in Interrupted(m) ensures UnitOk(n, d, u) {
      if u != SelfJoin(0) {
        var row := CrossRow(0, m);
        assert u in row;
        var t :| 0 <= t < |row| && row[t] == u;
      }
    }
  }

  /** The counters and output after one call of map, and how the call ended. */
  datatype MapResult = MapResult(smallIndex: int, bigIndex: int, emitted: seq<Emission>, status: Status)

  /** The long-list branch of map: the plan for k segments with container ids
      from big, or, when segment k-1 has no entries, the part of it emitted
      before getSegment throws. */
  function SplitLong(k: int, small: int, big: int, docs: seq<string>): (r: MapResult)
    requires k >= 2 && |docs| > 1
    ensures r.smallIndex == small && r.bigIndex == big + |r.emitted|
    ensures forall p :: 0 <= p < |r.emitted| ==> r.emitted[p].id == big + p
    ensures r.status == Completed <==> (k - 1) * CeilDiv(|docs|, k) < |docs|
  {
    var n := |docs|;
    var d := CeilDiv(n, k);
    var m := CeilDiv(n, d);
    CeilDivPositive(n, k);
    SegmentOkMeans(n, d, k - 1);
    if k <= m then
      EmissionsAt(docs, d, Plan(k), big);
      MapResult(small, big + |Plan(k)|, Emissions(docs, d, Plan(k), big), Completed)
    else
      EmissionsAt(docs, d, Interrupted(m), big);
      MapResult(small, big + |Interrupted(m)|, Emissions(docs, d, Interrupted(m), big),
                Threw(EmptySegmentError(n, d, m)))
  }

  /** The long-list split when every segment has entries. */
  lemma SplitLongCompletes(k: int, small: int, big: int, docs: seq<string>)
    requires k >= 2 && |docs| > 1
    requires k <= CeilDiv(|docs|, CeilDiv(|docs|, k))
    ensures SplitLong(k, small, big, docs)
         == MapResult(small, big + |Plan(k)|, Emissions(docs, CeilDiv(|docs|, k), Plan(k), big), Completed)
  {
    CeilDivPositive(|docs|, k);
  }

  /** The long-list split when segment m = ceil(n/d) is the first without entries. */
  lemma SplitLongThrows(k: int, small: int, big: int, docs: seq<string>)
    requires k >= 2 && |docs| > 1
    requires CeilDiv(|docs|, CeilDiv(|docs|, k)) < k
    ensures var d := CeilDiv(|docs|, k); var m := CeilDiv(|docs|, d);
      SplitLong(k, small, big, docs)
      == MapResult(small, big + |Interrupted(m)|, Emissions(docs, d, Interrupted(m), big),
                   Threw(EmptySegmentError(|docs|, d, m)))
  {
    CeilDivPositive(|docs|, k);
  }

  /** What map(value) does to counters smallIndex and bigIndex, given splitNum k,
      lengthThreshold thr and the comma-separated entries docs of value. */
  function MapSpec(k: int, thr: int, small: int, big: int, value: string, docs: seq<string>): (r: MapResult)
    requires k >= 2 && thr >= 1
    ensures |docs| <= 1 ==> r == MapResult(small, big, [], Completed)
    ensures 1 < |docs| <= thr ==> r == MapResult(small + 1, big, [Emission(small, 0, value)], Completed)
    ensures thr < |docs| ==> r == SplitLong(k, small, big, docs)
  {
    var n := |docs|;
    if n > thr then SplitLong(k, small, big, docs)
    else if n > 1 then MapResult(small + 1, big, [Emission(small, 0, value)], Completed)
    else MapResult(small, big, [], Completed)
  }

  /** The mapper instance: configuration read in setup, and the two counters. */
  class PreMapper {
    const splitNum: int
    const lengthThreshold: int
    /** Container ids for lists no longer than lengthThreshold. */
    var smallIndex: int
    /** Container ids for the segments of longer lists. */
    var bigIndex: int
    /** The records written to the task's output so far. */
    var written: seq<Emission>

    constructor (splitNum: int, lengthThreshold: int)
      requires splitNum >= 2 && lengthThreshold >= 1
      ensures this.splitNum == splitNum && this.lengthThreshold == lengthThreshold
      ensures smallIndex == 0 && bigIndex == 0 && written == []
    {
      this.splitNum := splitNum;
      this.lengthThreshold := lengthThreshold;
      smallIndex := 0;
      bigIndex := 0;
      written := [];
    }

    /** map for one posting list: value is its text, docs its entries (value split at ','). */
    method Map(value: string, docs: seq<string>) returns (status: Status)
      requires splitNum >= 2 && lengthThreshold >= 1
      modifies this
      ensures var r := MapSpec(splitNum, lengthThreshold, old(smallIndex), old(bigIndex), value, docs);
        smallIndex == r.smallIndex && bigIndex == r.bigIndex &&
        written == old(written) + r.emitted && status == r.status
    {
      var n := |docs|;
      if n > lengthThreshold {
        status := MapLong(docs);
      } else if n > 1 {
        written := written + [Emission(smallIndex, 0, value)];
        smallIndex := smallIndex + 1;
        status := Completed;
      } else {
        status := Completed;
      }
    }

    /** The branch of map for a list longer than lengthThreshold. */
    method MapLong(docs: seq<string>) returns (status: Status)
      requires splitNum >= 2 && |docs| > 1
      modifies this
      ensures var r := SplitLong(splitNum, old(smallIndex), old(bigIndex), docs);
        smallIndex == r.smallIndex && bigIndex == r.bigIndex &&
        written == old(written) + r.emitted && status == r.status
    {
      var docsInSeg := SegmentSize(|docs|);
      ghost var rows;
      status, rows := SplitRows(docs, docsInSeg);
      if status.Threw? {
        SplitLongThrows(splitNum, old(smallIndex), old(bigIndex), docs);
        return;
      }
      LastSegment(docs, docsInSeg, old(bigIndex), old(written));
      SplitLongCompletes(splitNum, old(smallIndex), old(bigIndex), docs);
    }

    /** The outer loop of map over segments 0 .. splitNum-2: each pass writes
        a row of the plan, and the first pass stops at a segment without entries.
        rows are the units whose records were written. */
    method SplitRows(docs: seq<string>, docsInSeg: nat) returns (status: Status, ghost rows: seq<Unit>)
      requires splitNum >= 2 && |docs| > 1 && docsInSeg > 0
      modifies this
      ensures smallIndex == old(smallIndex)
      ensures bigIndex == old(bigIndex) + |rows| && written == old(written) + Emissions(docs, docsInSeg, rows, old(bigIndex))
      ensures status.Completed? ==> splitNum <= CeilDiv(|docs|, docsInSeg) && rows == RowsBefore(splitNum - 1, splitNum)
      ensures status.Threw? ==>
        var m := CeilDiv(|docs|, docsInSeg);
        && splitNum > m
        && status == Threw(EmptySegmentError(|docs|, docsInSeg, m))
        && rows == Interrupted(m)
    {
      var i := 0;
      rows := [];
      while i < splitNum - 1
        invariant 0 <= i <= splitNum - 1
        invariant i > 0 ==> splitNum <= CeilDiv(|docs|, docsInSeg)
        invariant rows == RowsBefore(i, splitNum)
        invariant smallIndex == old(smallIndex) && bigIndex == old(bigIndex) + |rows|
        invariant written == old(written) + Emissions(docs, docsInSeg, rows, old(bigIndex))
      {
        status, rows := SplitRow(docs, docsInSeg, i, old(bigIndex), old(written));
        if status.Threw? {
          return;
        }
        i := i + 1;
      }
      status := Completed;
    }

    /** docsInSeg: the number of entries per segment, n / splitNum rounded up. */
    method SegmentSize(n: nat) returns (docsInSeg: nat)
      requires splitNum >= 2 && n > 0
      ensures docsInSeg == CeilDiv(n, splitNum) && docsInSeg > 0
    {
      docsInSeg := n / splitNum;
      if n % splitNum != 0 {
        docsInSeg := docsInSeg + 1;
      }
      CeilDivPositive(n, splitNum);
    }

    /** The self join of the last segment, which ends the plan. */
    method LastSegment(docs: seq<string>, docsInSeg: nat, ghost base: int, ghost before: seq<Emission>)
      requires splitNum >= 2 && docsInSeg > 0 && splitNum <= CeilDiv(|docs|, docsInSeg)
      requires bigIndex == base + |RowsBefore(splitNum - 1, splitNum)|
      requires written == before + Emissions(docs, docsInSeg, RowsBefore(splitNum - 1, splitNum), base)
      modifies this
      ensures smallIndex == old(smallIndex)
      ensures bigIndex == base + |Plan(splitNum)|
      ensures written == before + Emissions(docs, docsInSeg, Plan(splitNum), base)
    {
      ghost var units := RowsBefore(splitNum - 1, splitNum);
      GetSegmentOk(docs, splitNum - 1, docsInSeg);
      var lastSeg := GetSegment(docs, splitNum - 1, docsInSeg);
      AppendEmission(docs, docsInSeg, before, units, SelfJoin(splitNum - 1), base, Emission(bigIndex, 0, lastSeg.value));
      written := written + [Emission(bigIndex, 0, lastSeg.value)];
      bigIndex := bigIndex + 1;
      assert units + [SelfJoin(splitNum - 1)] == Plan(splitNum);
    }

    /** One pass of the outer loop of map: the self join of segment i, then its
        cross joins. Only the pass for segment 0 can meet a segment with no
        entries, and then it ends as getSegment throws. rows are the units
        written before and in this pass. */
    method SplitRow(docs: seq<string>, docsInSeg: nat, i: nat, ghost base: int, ghost before: seq<Emission>)
      returns (status: Status, ghost rows: seq<Unit>)
      requires i + 1 < splitNum && |docs| > 1 && docsInSeg > 0
      requires i > 0 ==> splitNum <= CeilDiv(|docs|, docsInSeg)
      requires bigIndex == base + |RowsBefore(i, splitNum)|
      requires written == before + Emissions(docs, docsInSeg, RowsBefore(i, splitNum), base)
      modifies this
      ensures smallIndex == old(smallIndex)
      ensures bigIndex == base + |rows| && written == before + Emissions(docs, docsInSeg, rows, base)
      ensures status.Completed? ==> splitNum <= CeilDiv(|docs|, docsInSeg) && rows == RowsBefore(i + 1, splitNum)
      ensures status.Threw? ==>
        var m := CeilDiv(|docs|, docsInSeg);
        && i == 0 && splitNum > m
        && status == Threw(EmptySegmentError(|docs|, docsInSeg, m))
        && rows == Interrupted(m)
    {
      ghost var units := RowsBefore(i, splitNum);
      ghost var m := CeilDiv(|docs|, docsInSeg);
      CeilDivPositive(|docs|, docsInSeg);
      assert SegmentOk(|docs|, docsInSeg, i);
      var partI := WriteSelfJoin(docs, docsInSeg, i, base, units, before);
      ghost var stop;
      status, stop := CrossJoinRow(docs, docsInSeg, i, partI, base, units + [SelfJoin(i)], before);
      rows := units + [SelfJoin(i)] + CrossRow(i, stop);
      if status.Threw? {
        assert i == 0 && stop == m;
        FirstRowInterrupted(splitNum, m);
      } else {
        assert stop == splitNum;
        RowsBeforeNext(i, splitNum);
      }
    }

    /** The self join that opens the pass for segment i: getSegment yields the
        segment's text, written with flag 0 and the next bigIndex. */
    method WriteSelfJoin(docs: seq<string>, docsInSeg: nat, i: nat,
                         ghost base: int, ghost units: seq<Unit>, ghost before: seq<Emission>)
      returns (partI: string)
      requires SegmentOk(|docs|, docsInSeg, i)
      requires bigIndex == base + |units| && written == before + Emissions(docs, docsInSeg, units, base)
      modifies this
      ensures partI == SegmentText(docs, i, docsInSeg)
      ensures smallIndex == old(smallIndex)
      ensures bigIndex == base + |units + [SelfJoin(i)]|
      ensures written == before + Emissions(docs, docsInSeg, units + [SelfJoin(i)], base)
    {
      GetSegmentOk(docs, i, docsInSeg);
      var seg := GetSegment(docs, i, docsInSeg);
      partI := seg.value;
      AppendEmission(docs, docsInSeg, before, units, SelfJoin(i), base, Emission(bigIndex, 0, partI));
      written := written + [Emission(bigIndex, 0, partI)];
      bigIndex := bigIndex + 1;
    }

    /** The inner loop of map for segment i, whose text is partI: the cross joins
        of segment i with segments i+1 .. splitNum-1, stopping at the first of them
        that has no entries. units are the units emitted before, from container id base. */
    method CrossJoinRow(docs: seq<string>, docsInSeg: nat, i: nat, partI: string,
                        ghost base: int, ghost units: seq<Unit>, ghost before: seq<Emission>)
      returns (status: Status, ghost stop: int)
      requires i + 1 < splitNum
      requires SegmentOk(|docs|, docsInSeg, i) && partI == SegmentText(docs, i, docsInSeg)
      requires bigIndex == base + |units| && written == before + Emissions(docs, docsInSeg, units, base)
      modifies this
      ensures smallIndex == old(smallIndex)
      ensures stop <= CeilDiv(|docs|, docsInSeg)
      ensures status.Completed? ==> stop == splitNum
      ensures status.Threw? ==>
        && stop == CeilDiv(|docs|, docsInSeg) < splitNum
        && status.exception == (if stop * docsInSeg == |docs| then StringIndexOutOfBounds else IllegalArgument)
      ensures bigIndex == base + |units + CrossRow(i, stop)|
      ensures written == before + Emissions(docs, docsInSeg, units + CrossRow(i, stop), base)
    {
      ghost var m := CeilDiv(|docs|, docsInSeg);
      var j := i + 1;
      assert units + CrossRow(i, j) == units;
      while j < splitNum
        invariant i + 1 <= j <= splitNum
        invariant j <= m
        invariant smallIndex == old(smallIndex) && bigIndex == base + |units + CrossRow(i, j)|
        invariant written == before + Emissions(docs, docsInSeg, units + CrossRow(i, j), base)
      {
        status := CrossJoinPair(docs, docsInSeg, i, j, partI, base, units + CrossRow(i, j), before);
        if status.Threw? {
          return status, j;
        }
        UnitsCrossRowSnoc(units, i, j);
        j := j + 1;
      }
      return Completed, j;
    }

    /** One pass of the inner loop of map: the cross join of segments i and j,
        or the exception getSegment throws when segment j has no entries. */
    method CrossJoinPair(docs: seq<string>, docsInSeg: nat, i: nat, j: nat, partI: string,
                         ghost base: int, ghost done: seq<Unit>, ghost before: seq<Emission>)
      returns (status: Status)
      requires SegmentOk(|docs|, docsInSeg, i) && partI == SegmentText(docs, i, docsInSeg)
      requires i < j <= CeilDiv(|docs|, docsInSeg)
      requires bigIndex == base + |done| && written == before + Emissions(docs, docsInSeg, done, base)
      modifies this
      ensures smallIndex == old(smallIndex)
      ensures status.Completed? ==>
        && j < CeilDiv(|docs|, docsInSeg)
        && bigIndex == base + |done + [CrossJoin(i, j)]|
        && written == before + Emissions(docs, docsInSeg, done + [CrossJoin(i, j)], base)
      ensures status.Threw? ==>
        var m := CeilDiv(|docs|, docsInSeg);
        && j == m
        && status.exception == (if m * docsInSeg == |docs| then StringIndexOutOfBounds else IllegalArgument)
        && bigIndex == old(bigIndex) && written == old(written)
    {
      GetSegmentOk(docs, j, docsInSeg);
      var partJ := GetSegment(docs, j, docsInSeg);
      if partJ.Thrown? {
        SegmentOkMeans(|docs|, docsInSeg, j);
        return Threw(partJ.exception);
      }
      AppendEmission(docs, docsInSeg, before, done, CrossJoin(i, j), base, Emission(bigIndex, 1, partI + "#" + partJ.value));
      written := written + [Emission(bigIndex, 1, partI + "#" + partJ.value)];
      bigIndex := bigIndex + 1;
      status := Completed;
    }
  }

}
