/** What map promises for a long posting list: how many tasks of each kind it
    writes, their container ids and order, how the segments cut the list, that
    every pair of entries meets in exactly one task, and how a task's text is
    read back. n is the length of the list, k = splitNum and d = docsInSeg. */
module SimilarityFacts {
  import opened Outcomes
  import opened Text
  import opened SplitPlan
  import opened Similarity

  /** The long-list branch of map runs to its end: segment k-1 has entries. */
  predicate Completes(k: int, docs: seq<string>)
  {
    k >= 2 && |docs| > 1 && (k - 1) * CeilDiv(|docs|, k) < |docs|
  }

  /** When segment k-1 has entries, map writes the whole plan and no exception escapes. */
  lemma LongListCompletes(k: int, small: int, big: int, docs: seq<string>)
    requires Completes(k, docs)
    ensures SplitLong(k, small, big, docs)
         == MapResult(small, big + |Plan(k)|, Emissions(docs, CeilDiv(|docs|, k), Plan(k), big), Completed)
  {
    var n := |docs|;
    var d := CeilDiv(n, k);
    CeilDivPositive(n, k);
    SegmentOkMeans(n, d, k - 1);
    assert k <= CeilDiv(n, d);
  }

  /** Exactly k self-join records (flag 0) and k(k-1)/2 cross-join records
      (flag 1); bigIndex moves on by k(k+1)/2, one id per record, and smallIndex
      stays. */
  lemma LongListCounts(k: int, small: int, big: int, docs: seq<string>)
    requires Completes(k, docs)
    ensures var r := SplitLong(k, small, big, docs);
      && r.status == Completed && r.smallIndex == small
      && |r.emitted| == r.bigIndex - big
      && CountEmitted(r.emitted, 0) == k
      && 2 * CountEmitted(r.emitted, 1) == k * (k - 1)
      && 2 * (r.bigIndex - big) == k * (k + 1)
  {
    var d := CeilDiv(|docs|, k);
    CeilDivBounds(|docs|, k);
    LongListCompletes(k, small, big, docs);
    PlanCounts(k);
    EmissionsAt(docs, d, Plan(k), big);
    EmissionsCount(docs, d, Plan(k), big, 0);
    EmissionsCount(docs, d, Plan(k), big, 1);
  }

  /** The emission order, for the records of the plan (what a completed long
      list writes, by LongListCompletes): the record for segments i <= j is
      number Position(k, i, j), so row i (the self join of segment i, then its
      cross joins with i+1 .. k-1) follows row i-1; it carries container id
      bigIndex + Position(k, i, j), flag 0 for a self join and 1 for a cross
      join, and segment i's text, or the texts of i and j around '#'. */
  lemma PlanRecordAt(k: nat, d: nat, docs: seq<string>, big: int, i: int, j: int)
    requires 0 <= i <= j < k
    ensures var es, p := Emissions(docs, d, Plan(k), big), Position(k, i, j);
      && 0 <= p < |es|
      && es[p] == Emission(big + p, if i == j then 0 else 1,
                           if i == j then SegmentText(docs, i, d)
                           else SegmentText(docs, i, d) + "#" + SegmentText(docs, j, d))
  {
    PlanAt(k, i, j);
    EmissionsAt(docs, d, Plan(k), big);
  }

  // ------------------------------------------------------------- segments

  /** Segments 0 .. i-1, one after the other. */
  function Segments(docs: seq<string>, d: nat, i: nat): seq<string>
  {
    if i == 0 then [] else Segments(docs, d, i - 1) + Segment(docs, i - 1, d)
  }

  lemma {:induction false} SegmentsPrefix(docs: seq<string>, d: nat, i: nat)
    ensures Segments(docs, d, i) == docs[..Clamp(i * d, |docs|)]
  {
    if i > 0 {
      SegmentsPrefix(docs, d, i - 1);
      MulMono(i - 1, i, d);
      var lo, hi := Clamp((i - 1) * d, |docs|), Clamp(i * d, |docs|);
      assert docs[..lo] + docs[lo..hi] == docs[..hi];
    }
  }

  /** Segment i holds entries i*d .. min((i+1)*d, n) - 1, and it has some exactly
      when i*d < n. */
  lemma SegmentBounds(docs: seq<string>, i: nat, d: nat)
    ensures var lo := i * d;
      lo < |docs| ==> Segment(docs, i, d) == docs[lo .. Min(lo + d, |docs|)]
    ensures |Segment(docs, i, d)| > 0 <==> d > 0 && i * d < |docs|
  {
    MulMono(i, i + 1, d);
  }

  /** When the list completes, each of the k segments has entries and, one after
      the other, they make up the whole list. */
  lemma SegmentsPartition(k: int, docs: seq<string>)
    requires Completes(k, docs)
    ensures var d := CeilDiv(|docs|, k);
      && (forall i :: 0 <= i < k ==> |Segment(docs, i, d)| > 0)
      && Segments(docs, d, k) == docs
  {
    forall i | 0 <= i < k ensures |Segment(docs, i, CeilDiv(|docs|, k))| > 0 {
      SegmentNonEmpty(k, docs, i);
    }
    SegmentsCover(k, CeilDiv(|docs|, k), docs);
  }

  lemma SegmentsCover(k: nat, d: nat, docs: seq<string>)
    requires |docs| <= k * d
    ensures Segments(docs, d, k) == docs
  {
    SegmentsPrefix(docs, d, k);
    assert docs[..|docs|] == docs;
  }

  lemma SegmentNonEmpty(k: int, docs: seq<string>, i: int)
    requires Completes(k, docs) && 0 <= i < k
    ensures |Segment(docs, i, CeilDiv(|docs|, k))| > 0
  {
    var d := CeilDiv(|docs|, k);
    MulMono(i, k - 1, d);
    SegmentBounds(docs, i, d);
  }

  /** The entry at a position of segment i is in that segment, at offset a - i*d. */
  lemma EntryInSegment(docs: seq<string>, a: int, i: int, d: nat)
    requires InSegment(a, i, d, |docs|)
    ensures 0 <= a - i * d < |Segment(docs, i, d)|
    ensures Segment(docs, i, d)[a - i * d] == docs[a]
  {
    MulMono(i, i + 1, d);
  }

  /** Every pair of positions a < b of a completed long list meets in exactly
      one task. With a in segment i and b in segment j, that task is the one
      written as record Position(k, i, j), and i <= j < k. */
  lemma LongListCoverage(k: int, small: int, big: int, docs: seq<string>, a: int, b: int, i: int, j: int)
    requires Completes(k, docs) && 0 <= a < b < |docs|
    requires InSegment(a, i, CeilDiv(|docs|, k), |docs|) && InSegment(b, j, CeilDiv(|docs|, k), |docs|)
    ensures var es, n, d := SplitLong(k, small, big, docs).emitted, |docs|, CeilDiv(|docs|, k);
      var p := Position(k, i, j);
      && 0 <= i <= j < k
      && 0 <= p < |Plan(k)| == |es| && es[p] == Emission(big + p, Flag(Plan(k)[p]), UnitText(docs, d, Plan(k)[p]))
      && Covers(Plan(k)[p], a, b, d, n)
      && forall q :: 0 <= q < |Plan(k)| && Covers(Plan(k)[q], a, b, d, n) ==> q == p
  {
    var d := CeilDiv(|docs|, k);
    LongListCompletes(k, small, big, docs);
    assert SplitLong(k, small, big, docs).emitted == Emissions(docs, d, Plan(k), big);
    CeilDivBounds(|docs|, k);
    PlanRecordCoverage(k, d, docs, big, a, b, i, j);
  }

  lemma PlanRecordCoverage(k: nat, d: int, docs: seq<string>, big: int, a: int, b: int, i: int, j: int)
    requires d > 0 && |docs| <= k * d && 0 <= a < b < |docs|
    requires InSegment(a, i, d, |docs|) && InSegment(b, j, d, |docs|)
    ensures var es, n, p := Emissions(docs, d, Plan(k), big), |docs|, Position(k, i, j);
      && 0 <= i <= j < k
      && 0 <= p < |Plan(k)| == |es| && es[p] == Emission(big + p, Flag(Plan(k)[p]), UnitText(docs, d, Plan(k)[p]))
      && Covers(Plan(k)[p], a, b, d, n)
      && forall q :: 0 <= q < |Plan(k)| && Covers(Plan(k)[q], a, b, d, n) ==> q == p
  {
    SegmentOf(a, d, |docs|);
    SegmentOf(b, d, |docs|);
    assert i == a / d && j == b / d;
    CoveredExactlyOnce(k, d, |docs|, a, b);
    EmissionsAt(docs, d, Plan(k), big);
  }

  // ------------------------------------------------------------ task texts

  lemma AllFreeSlice(docs: seq<string>, lo: int, hi: int, c: char)
    requires 0 <= lo <= hi <= |docs| && AllFree(docs, c)
    ensures AllFree(docs[lo..hi], c)
  {
    forall t | 0 <= t < hi - lo ensures c !in docs[lo..hi][t] {
      assert docs[lo..hi][t] == docs[lo + t];
    }
  }

  /** A self-join text cut at ',' gives back the entries of its segment, when no
      entry holds a ','. */
  lemma SegmentTextDecodes(docs: seq<string>, s: int, d: nat)
    requires AllFree(docs, ',') && |Segment(docs, s, d)| > 0
    ensures SplitOn(SegmentText(docs, s, d), ',') == Segment(docs, s, d)
  {
    MulMono(s, s + 1, d);
    AllFreeSlice(docs, Clamp(s * d, |docs|), Clamp((s + 1) * d, |docs|), ',');
    SplitJoin(Segment(docs, s, d), ',');
  }

  /** A cross-join text cut at '#' gives back the texts of its two segments,
      when no entry holds a '#'. */
  lemma CrossTextDecodes(docs: seq<string>, d: nat, a: int, b: int)
    requires AllFree(docs, '#') && |Segment(docs, a, d)| > 0 && |Segment(docs, b, d)| > 0
    ensures SplitOn(UnitText(docs, d, CrossJoin(a, b)), '#') == [SegmentText(docs, a, d), SegmentText(docs, b, d)]
  {
    var x, y := SegmentText(docs, a, d), SegmentText(docs, b, d);
    MulMono(a, a + 1, d);
    MulMono(b, b + 1, d);
    AllFreeSlice(docs, Clamp(a * d, |docs|), Clamp((a + 1) * d, |docs|), '#');
    AllFreeSlice(docs, Clamp(b * d, |docs|), Clamp((b + 1) * d, |docs|), '#');
    JoinFree(Segment(docs, a, d), ',', '#');
    JoinFree(Segment(docs, b, d), ',', '#');
    SplitAfterFreePrefix(y, [], '#');
    assert y + [] == y;
    assert SplitOn(y, '#') == [y];
    var tail := "#" + y;
    assert tail[1..] == y;
    assert SplitOn(tail, '#') == [[]] + [y];
    SplitAfterFreePrefix(x, tail, '#');
    assert x + [] == x;
    assert x + "#" + y == x + tail;
  }

  // ------------------------------------------------------- when map throws

  /** Once n > k(k-1) the list completes: d = ceil(n/k) is then at least k, and
      every segment up to k-1 starts before n. */
  lemma LongEnoughCompletes(k: int, docs: seq<string>)
    requires k >= 2 && |docs| > k * (k - 1)
    ensures Completes(k, docs)
  {
    var n, d := |docs|, CeilDiv(|docs|, k);
    CeilDivBounds(n, k);
    if d < k {
      MulMono(d, k - 1, k);
      assert false;
    }
    assert (k - 1) * d == d * k - d && (d - 1) * k == d * k - k;
  }

  /** With the configuration defaults (split.num 6, length.threshold 1000) map
      never throws: every list longer than the threshold completes. */
  lemma DefaultsNeverThrow(small: int, big: int, value: string, docs: seq<string>)
    ensures MapSpec(6, 1000, small, big, value, docs).status == Completed
  {
    if |docs| > 1000 {
      LongEnoughCompletes(6, docs);
      LongListCompletes(6, small, big, docs);
    }
  }

  /** A list of four entries cut into three segments of two: segment 2 is empty,
      so map has written the self join of segment 0 and its cross join with
      segment 1 when arrToStr throws StringIndexOutOfBoundsException. */
  lemma EmptyLastSegment(small: int, big: int)
    ensures MapSpec(3, 3, small, big, "a,b,c,d", ["a", "b", "c", "d"])
         == MapResult(small, big + 2, [Emission(big, 0, "a,b"), Emission(big + 1, 1, "a,b#c,d")],
                      Threw(StringIndexOutOfBounds))
  {
    var docs := ["a", "b", "c", "d"];
    assert CeilDiv(4, 3) == 2 && CeilDiv(4, 2) == 2;
    var us := Interrupted(2);
    assert us == [SelfJoin(0), CrossJoin(0, 1)];
    assert Segment(docs, 0, 2) == ["a", "b"] && Segment(docs, 1, 2) == ["c", "d"];
    assert SegmentText(docs, 0, 2) == "a,b" && SegmentText(docs, 1, 2) == "c,d";
    EmissionsSnoc(docs, 2, [SelfJoin(0)], CrossJoin(0, 1), big);
    EmissionsSnoc(docs, 2, [], SelfJoin(0), big);
    assert [] + [SelfJoin(0)] == [SelfJoin(0)];
    assert [SelfJoin(0)] + [CrossJoin(0, 1)] == us;
    assert UnitText(docs, 2, CrossJoin(0, 1)) == "a,b#c,d";
    assert Emissions(docs, 2, us, big) == [Emission(big, 0, "a,b"), Emission(big + 1, 1, "a,b#c,d")];
  }

  /** Five entries cut into four segments of two: segment 3 would start at 6,
      past the end, so Arrays.copyOfRange throws IllegalArgumentException after
      the self join of segment 0 and its cross joins with segments 1 and 2. */
  lemma SegmentPastEnd(small: int, big: int)
    ensures var r := MapSpec(4, 4, small, big, "a,b,c,d,e", ["a", "b", "c", "d", "e"]);
      r.status == Threw(IllegalArgument) && r.bigIndex == big + 3 && |r.emitted| == 3
  {
    assert CeilDiv(5, 4) == 2 && CeilDiv(5, 2) == 3;
    EmissionsAt(["a", "b", "c", "d", "e"], 2, Interrupted(3), big);
    assert Interrupted(3) == [SelfJoin(0), CrossJoin(0, 1), CrossJoin(0, 2)];
  }
}
