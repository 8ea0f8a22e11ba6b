/** The work units PreMapper.map emits for a posting list cut into k segments,
    in the order its two nested loops emit them, and the facts that make the
    split sound: how many units of each kind there are, where each one sits,
    and that every pair of positions is compared by exactly one unit. */
module SplitPlan {

  /** A self join of one segment (output flag 0) or a cross join of two (flag 1). */
  datatype Unit = SelfJoin(seg: int) | CrossJoin(left: int, right: int)

  function Flag(u: Unit): int
  {
    if u.SelfJoin? then 0 else 1
  }

  /** The segment whose row of the emission order holds u. */
  function Row(u: Unit): int
  {
    if u.SelfJoin? then u.seg else u.left
  }

  /** The units that belong to a split into k segments. */
  predicate InPlan(u: Unit, k: int)
  {
    match u
    case SelfJoin(s) => 0 <= s < k
    case CrossJoin(a, b) => 0 <= a < b < k
  }

  /** (i, i+1), ..., (i, stop-1): the cross joins the inner loop has emitted for
      segment i once j reaches stop. */
  function CrossRow(i: int, stop: int): seq<Unit>
  {
    if stop <= i + 1 then [] else seq(stop - i - 1, t => CrossJoin(i, i + 1 + t))
  }

  lemma CrossRowSnoc(i: int, j: int)
    requires i < j
    ensures CrossRow(i, j + 1) == CrossRow(i, j) + [CrossJoin(i, j)]
  {
    var a, b := CrossRow(i, j + 1), CrossRow(i, j) + [CrossJoin(i, j)];
    assert |a| == |b|;
    forall t | 0 <= t < |a| ensures a[t] == b[t] {
      if t < |a| - 1 {
        assert b[t] == CrossRow(i, j)[t];
      }
    }
  }

  /** The row up to next = j + 1 is the row up to j followed by (i, j). */
  lemma UnitsCrossRowSnoc(units: seq<Unit>, i: int, j: int)
    requires i < j
    ensures units + CrossRow(i, j + 1) == units + CrossRow(i, j) + [CrossJoin(i, j)]
  {
    CrossRowSnoc(i, j);
    assert units + (CrossRow(i, j) + [CrossJoin(i, j)]) == units + CrossRow(i, j) + [CrossJoin(i, j)];
  }

  /** Rows 0 .. i-1 of the emission order: row r is the self join of segment r
      followed by its cross joins with every later segment. */
  function RowsBefore(i: nat, k: int): seq<Unit>
  {
    if i == 0 then [] else RowsBefore(i - 1, k) + [SelfJoin(i - 1)] + CrossRow(i - 1, k)
  }

  /** Everything emitted for a list cut into k segments, in emission order. */
  function Plan(k: nat): seq<Unit>
  {
    RowsBefore(k, k)
  }

  /** Index in Plan(k) of the unit for segments i <= j (the self join when i == j). */
  function Position(k: int, i: int, j: int): int
  {
    i * (2 * k - i + 1) / 2 + (j - i)
  }

  /** How many of us carry flag f. */
  function CountFlag(us: seq<Unit>, f: int): nat
  {
    CountPrefix(us, f, |us|)
  }

  /** How many of the first n of us carry flag f. */
  function CountPrefix(us: seq<Unit>, f: int, n: nat): nat
    requires n <= |us|
  {
    if n == 0 then 0 else CountPrefix(us, f, n - 1) + (if Flag(us[n - 1]) == f then 1 else 0)
  }

  predicate Distinct(us: seq<Unit>)
  {
    forall p, q :: 0 <= p < q < |us| ==> us[p] != us[q]
  }

  lemma {:induction false} CountPrefixLeft(a: seq<Unit>, b: seq<Unit>, f: int, n: nat)
    requires n <= |a|
    ensures CountPrefix(a + b, f, n) == CountPrefix(a, f, n)
  {
    if n > 0 {
      CountPrefixLeft(a, b, f, n - 1);
      assert (a + b)[n - 1] == a[n - 1];
    }
  }

  lemma {:induction false} CountPrefixRight(a: seq<Unit>, b: seq<Unit>, f: int, n: nat)
    requires n <= |b|
    ensures CountPrefix(a + b, f, |a| + n) == CountPrefix(a, f, |a|) + CountPrefix(b, f, n)
  {
    if n == 0 {
      CountPrefixLeft(a, b, f, |a|);
    } else {
      CountPrefixRight(a, b, f, n - 1);
      assert (a + b)[|a| + n - 1] == b[n - 1];
    }
  }

  lemma CountFlagAppend(a: seq<Unit>, b: seq<Unit>, f: int)
    ensures CountFlag(a + b, f) == CountFlag(a, f) + CountFlag(b, f)
  {
    CountPrefixRight(a, b, f, |b|);
  }

  lemma {:induction false} CountCrossPrefix(i: int, stop: int, n: nat)
    requires n <= |CrossRow(i, stop)|
    ensures CountPrefix(CrossRow(i, stop), 0, n) == 0
    ensures CountPrefix(CrossRow(i, stop), 1, n) == n
  {
    if n > 0 {
      CountCrossPrefix(i, stop, n - 1);
      assert CrossRow(i, stop)[n - 1] == CrossJoin(i, i + n);
    }
  }

  lemma CountCrossRow(i: int, stop: int)
    ensures CountFlag(CrossRow(i, stop), 0) == 0
    ensures CountFlag(CrossRow(i, stop), 1) == |CrossRow(i, stop)|
  {
    CountCrossPrefix(i, stop, |CrossRow(i, stop)|);
  }

  /** (k-1) + (k-2) + ... + (k-i): the cross joins of rows 0 .. i-1. */
  function CrossTotal(i: nat, k: int): int
  {
    if i == 0 then 0 else CrossTotal(i - 1, k) + (k - i)
  }

  lemma {:induction false} CrossTotalClosed(i: nat, k: int)
    ensures 2 * CrossTotal(i, k) == i * (2 * k - i - 1)
  {
    if i > 0 {
      CrossTotalClosed(i - 1, k);
      assert (i - 1) * (2 * k - i) + 2 * (k - i) == i * (2 * k - i - 1);
    }
  }

  /** Row r holds one self join and k-1-r cross joins. */
  lemma CountRow(r: nat, k: int)
    requires r < k
    ensures |[SelfJoin(r)] + CrossRow(r, k)| == k - r
    ensures CountFlag([SelfJoin(r)] + CrossRow(r, k), 0) == 1
    ensures CountFlag([SelfJoin(r)] + CrossRow(r, k), 1) == k - 1 - r
  {
    var self := [SelfJoin(r)];
    assert CountPrefix(self, 0, 0) == 0 && CountPrefix(self, 1, 0) == 0;
    assert CountFlag(self, 0) == 1 && CountFlag(self, 1) == 0;
    CountCrossRow(r, k);
    CountFlagAppend([SelfJoin(r)], CrossRow(r, k), 0);
    CountFlagAppend([SelfJoin(r)], CrossRow(r, k), 1);
  }

  /** RowsBefore(i, k) is RowsBefore(i-1, k) followed by row i-1. */
  lemma RowsBeforeStep(i: nat, k: int)
    requires 0 < i
    ensures RowsBefore(i, k) == RowsBefore(i - 1, k) + ([SelfJoin(i - 1)] + CrossRow(i - 1, k))
  {
  }

  /** Row i follows rows 0 .. i-1. */
  lemma RowsBeforeNext(i: nat, k: int)
    ensures RowsBefore(i + 1, k) == RowsBefore(i, k) + [SelfJoin(i)] + CrossRow(i, k)
  {
  }

  lemma {:induction false} RowsBeforeLength(i: nat, k: int)
    requires i <= k
    ensures |RowsBefore(i, k)| == i + CrossTotal(i, k)
  {
    if i > 0 {
      RowsBeforeLength(i - 1, k);
      RowsBeforeStep(i, k);
      CountRow(i - 1, k);
    }
  }

  lemma {:induction false} RowsBeforeCount(i: nat, k: int, f: int)
    requires i <= k && (f == 0 || f == 1)
    ensures CountFlag(RowsBefore(i, k), f) == if f == 0 then i else CrossTotal(i, k)
  {
    if i > 0 {
      RowsBeforeCount(i - 1, k, f);
      RowsBeforeStep(i, k);
      CountRow(i - 1, k);
      CountFlagAppend(RowsBefore(i - 1, k), [SelfJoin(i - 1)] + CrossRow(i - 1, k), f);
    }
  }

  /** Row r contributes one self join and k-1-r cross joins. */
  lemma RowsBeforeCounts(i: nat, k: int)
    requires i <= k
    ensures |RowsBefore(i, k)| == i + CrossTotal(i, k)
    ensures CountFlag(RowsBefore(i, k), 0) == i
    ensures CountFlag(RowsBefore(i, k), 1) == CrossTotal(i, k)
  {
    RowsBeforeLength(i, k);
    RowsBeforeCount(i, k, 0);
    RowsBeforeCount(i, k, 1);
  }

  /** A split into k segments yields k self joins and k(k-1)/2 cross joins,
      k(k+1)/2 units in all. */
  lemma PlanCounts(k: nat)
    ensures 2 * |Plan(k)| == k * (k + 1)
    ensures CountFlag(Plan(k), 0) == k
    ensures 2 * CountFlag(Plan(k), 1) == k * (k - 1)
  {
    RowsBeforeCounts(k, k);
    CrossTotalClosed(k, k);
  }

  lemma {:induction false} RowsBeforePrefix(i: nat, i': nat, k: int)
    requires i <= i'
    ensures RowsBefore(i, k) <= RowsBefore(i', k)
    decreases i' - i
  {
    if i < i' {
      RowsBeforePrefix(i, i' - 1, k);
    }
  }

  /** The emission order: row by row, the self join of segment i comes right
      before its cross joins (i, i+1), ..., (i, k-1). */
  lemma PlanAt(k: nat, i: int, j: int)
    requires 0 <= i <= j < k
    ensures 0 <= Position(k, i, j) < |Plan(k)|
    ensures Plan(k)[Position(k, i, j)] == if i == j then SelfJoin(i) else CrossJoin(i, j)
  {
    var before := RowsBefore(i, k);
    RowsBeforeCounts(i, k);
    CrossTotalClosed(i, k);
    assert i * (2 * k - i + 1) == 2 * |before|;
    assert Position(k, i, j) == |before| + (j - i);
    RowsBeforePrefix(i + 1, k, k);
    var long := RowsBefore(i + 1, k);
    assert long == before + [SelfJoin(i)] + CrossRow(i, k);
    assert long[|before| + (j - i)] == if i == j then SelfJoin(i) else CrossJoin(i, j);
  }

  /** Plan(k) holds every unit for k segments, each exactly once. */
  lemma {:induction false} RowsBeforeMembers(i: nat, k: int)
    requires i <= k
    ensures forall u :: u in RowsBefore(i, k) <==> InPlan(u, k) && Row(u) < i
    ensures Distinct(RowsBefore(i, k))
  {
    if i > 0 {
      var prev := RowsBefore(i - 1, k);
      var row := CrossRow(i - 1, k);
      var tail := [SelfJoin(i - 1)] + row;
      RowsBeforeMembers(i - 1, k);
      assert RowsBefore(i, k) == prev + tail;
      forall u
        ensures u in tail <==> InPlan(u, k) && Row(u) == i - 1
      {
        if u.CrossJoin? && InPlan(u, k) && Row(u) == i - 1 {
          assert row[u.right - i] == u;
        }
      }
      assert Distinct(tail) by {
        forall p, q | 0 <= p < q < |tail| ensures tail[p] != tail[q] {
          if p > 0 {
            assert tail[p] == row[p - 1] && tail[q] == row[q - 1];
          }
        }
      }
      forall p, q | 0 <= p < q < |prev + tail|
        ensures (prev + tail)[p] != (prev + tail)[q]
      {
        if p < |prev| && q >= |prev| {
          assert (prev + tail)[p] in prev && (prev + tail)[q] in tail;
        } else if p >= |prev| {
          assert (prev + tail)[p] == tail[p - |prev|] && (prev + tail)[q] == tail[q - |prev|];
        }
      }
    }
  }

  lemma PlanMembers(k: nat)
    ensures forall u :: u in Plan(k) <==> InPlan(u, k)
    ensures Distinct(Plan(k))
  {
    RowsBeforeMembers(k, k);
  }

  /** Position a of a list of length n lies in segment i when segments hold d entries. */
  predicate InSegment(a: int, i: int, d: int, n: int)
  {
    0 <= i && i * d <= a < (i + 1) * d && 0 <= a < n
  }

  /** Unit u brings positions a and b together in one comparison task. */
  predicate Covers(u: Unit, a: int, b: int, d: int, n: int)
  {
    match u
    case SelfJoin(s) => InSegment(a, s, d, n) && InSegment(b, s, d, n)
    case CrossJoin(x, y) =>
      (InSegment(a, x, d, n) && InSegment(b, y, d, n)) || (InSegment(a, y, d, n) && InSegment(b, x, d, n))
  }

  lemma MulMono(x: int, y: int, d: int)
    requires x <= y && d >= 0
    ensures x * d <= y * d
  {
    assert y * d - x * d == (y - x) * d;
  }

  /** Every position lies in exactly one segment, the one numbered a / d. */
  lemma SegmentOf(a: int, d: int, n: int)
    requires d > 0 && 0 <= a < n
    ensures InSegment(a, a / d, d, n)
    ensures forall i :: InSegment(a, i, d, n) ==> i == a / d
  {
    var q := a / d;
    assert a == q * d + a % d;
    assert (q + 1) * d == q * d + d;
    forall i | InSegment(a, i, d, n) ensures i == q {
      if i < q {
        MulMono(i + 1, q, d);
      } else if i > q {
        MulMono(q + 1, i, d);
      }
    }
  }

  lemma SegmentOrder(a: int, b: int, d: int)
    requires d > 0 && 0 <= a <= b
    ensures a / d <= b / d
  {
    var p, q := a / d, b / d;
    assert a == p * d + a % d && b == q * d + b % d;
    if p > q {
      MulMono(q + 1, p, d);
    }
  }

  /** The pair a < b (positions in a list of length n <= k*d) is compared by
      the unit at Position(k, a/d, b/d) and by no other unit of the plan. */
  lemma CoveredExactlyOnce(k: nat, d: int, n: int, a: int, b: int)
    requires d > 0 && n <= k * d && 0 <= a < b < n
    ensures 0 <= a / d <= b / d < k
    ensures 0 <= Position(k, a / d, b / d) < |Plan(k)|
    ensures Covers(Plan(k)[Position(k, a / d, b / d)], a, b, d, n)
    ensures forall q :: 0 <= q < |Plan(k)| && Covers(Plan(k)[q], a, b, d, n) ==> q == Position(k, a / d, b / d)
  {
    var sa, sb := a / d, b / d;
    SegmentOf(a, d, n);
    SegmentOf(b, d, n);
    SegmentOrder(a, b, d);
    if sb >= k {
      MulMono(k, sb, d);
      assert false;
    }
    PlanAt(k, sa, sb);
    PlanMembers(k);
    var p := Position(k, sa, sb);
    var plan := Plan(k);
    forall q | 0 <= q < |plan| && Covers(plan[q], a, b, d, n) ensures q == p {
      assert plan[q] in plan;
      assert plan[q] == plan[p];
    }
  }
}
