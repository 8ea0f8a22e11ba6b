/** JoinReducer of the first link-back step: it walks the values of one group
    of the reduce-side join. A value tagged 1 is a cluster id from the minimum
    spanning tree result and replaces the stored id; any other value is an
    entry record whose key, the text before its first "::", is written out
    with the stored id. The stored id and the output key are fields of the
    reducer instance and keep their values from one group to the next. */
module LinkBack {
  import opened Outcomes
  import opened Decimal

  /** One value of a group, with the tag of the key it came with. */
  datatype TaggedValue = TaggedValue(tag: int, text: string)

  /** One context.write: (entry key, cluster id). */
  datatype Joined = Joined(key: string, clusterId: int)

  // ---------------------------------------------------------------- split("::")

  /** An occurrence of "::" starts at position p of s. */
  predicate SepAt(s: string, p: int)
  {
    0 <= p && p + 1 < |s| && s[p] == ':' && s[p + 1] == ':'
  }

  /** The pieces of s between the leftmost non-overlapping occurrences of "::",
      empty pieces included. */
  function Pieces(s: string): (r: seq<string>)
    ensures |r| > 0
    decreases |s|
  {
    if |s| < 2 then [s]
    else if s[0] == ':' && s[1] == ':' then [""] + Pieces(s[2..])
    else
      var rest := Pieces(s[1..]);
      [[s[0]] + rest[0]] + rest[1..]
  }

  /** ps without its trailing empty strings. */
  function StripTrailingEmpty(ps: seq<string>): (r: seq<string>)
    ensures r <= ps
    ensures |r| > 0 ==> r[|r| - 1] != ""
    ensures forall q :: |r| <= q < |ps| ==> ps[q] == ""
  {
    if |ps| > 0 && ps[|ps| - 1] == "" then StripTrailingEmpty(ps[..|ps| - 1]) else ps
  }

  /** String.split("::"): the pieces without the trailing empty ones; a string
      with no occurrence gives itself, the empty string included. */
  function SplitEntry(s: string): seq<string>
  {
    if |s| == 0 then [""] else StripTrailingEmpty(Pieces(s))
  }

  /** The text of s before its first "::", or all of s when it has none. */
  function EntryKey(s: string): (r: string)
    ensures r <= s
    ensures forall p :: 0 <= p < |r| ==> !SepAt(s, p)
    ensures |r| < |s| ==> SepAt(s, |r|)
    decreases |s|
  {
    if |s| < 2 then s
    else if s[0] == ':' && s[1] == ':' then ""
    else
      var rest := EntryKey(s[1..]);
      assert forall p :: 1 <= p < |s| ==> (SepAt(s, p) <==> SepAt(s[1..], p - 1));
      [s[0]] + rest
  }

  /** s is "::" repeated, possibly zero times. */
  predicate ColonPairs(s: string)
  {
    |s| % 2 == 0 && forall p :: 0 <= p < |s| ==> s[p] == ':'
  }

  /** s is "::" repeated one or more times. */
  predicate OnlySeparators(s: string)
  {
    |s| > 0 && ColonPairs(s)
  }

  predicate AllEmpty(ps: seq<string>)
  {
    forall q :: 0 <= q < |ps| ==> ps[q] == ""
  }

  lemma {:induction false} PiecesFirst(s: string)
    ensures Pieces(s)[0] == EntryKey(s)
    decreases |s|
  {
    if |s| >= 2 && !(s[0] == ':' && s[1] == ':') {
      PiecesFirst(s[1..]);
    }
  }

  /** Every piece is empty exactly when s is "::" repeated. */
  lemma {:induction false} PiecesAllEmpty(s: string)
    ensures AllEmpty(Pieces(s)) <==> ColonPairs(s)
    decreases |s|
  {
    var ps := Pieces(s);
    if |s| < 2 {
      assert ps[0] == s;
    } else if s[0] == ':' && s[1] == ':' {
      var tail := s[2..];
      var pt := Pieces(tail);
      PiecesAllEmpty(tail);
      assert ps == [""] + pt;
      if AllEmpty(pt) {
        forall q | 0 < q < |ps| ensures ps[q] == "" {
          assert ps[q] == pt[q - 1];
        }
      } else {
        var q :| 0 <= q < |pt| && pt[q] != "";
        assert ps[q + 1] == pt[q];
      }
      if ColonPairs(tail) {
        forall p | 2 <= p < |s| ensures s[p] == ':' {
          assert s[p] == tail[p - 2];
        }
      } else if |tail| % 2 == 0 {
        var p :| 0 <= p < |tail| && tail[p] != ':';
        assert s[p + 2] == tail[p];
      }
    } else {
      assert ps[0] != "";
      assert s[0] != ':' || s[1] != ':';
    }
  }

  /** split("::") gives no piece exactly for "::" repeated, and otherwise begins
      with the text before the first "::". */
  lemma SplitEntryFirst(s: string)
    ensures |SplitEntry(s)| == 0 <==> OnlySeparators(s)
    ensures |SplitEntry(s)| > 0 ==> SplitEntry(s)[0] == EntryKey(s)
  {
    if |s| > 0 {
      var ps := Pieces(s);
      var r := StripTrailingEmpty(ps);
      PiecesFirst(s);
      PiecesAllEmpty(s);
      if |r| > 0 {
        assert r[|r| - 1] == ps[|r| - 1] != "";
        assert r[0] == ps[0];
      }
    }
  }

  // ------------------------------------------------------------------ reduce

  /** State of the reducer after some values, and how processing ended. */
  datatype Trace = Trace(clusterId: int, outputKey: string, out: seq<Joined>, status: Status)

  /** t with pre written before its output. */
  function Extend(pre: seq<Joined>, t: Trace): Trace
  {
    Trace(t.clusterId, t.outputKey, pre + t.out, t.status)
  }

  /** The loop of reduce over values i .. |vs|-1, with stored id c and output key k:
      Integer.valueOf for a tag-1 value, split("::") and a write for any other.
      The first exception ends the loop with the state it had then. */
  function RunFrom(c: int, k: string, vs: seq<TaggedValue>, i: nat): Trace
    requires i <= |vs|
    decreases |vs| - i
  {
    if i == |vs| then Trace(c, k, [], Completed)
    else if vs[i].tag == 1 then
      match ParseInt(vs[i].text)
      case None => Trace(c, k, [], Threw(NumberFormat))
      case Some(id) => RunFrom(id, k, vs, i + 1)
    else
      var contents := SplitEntry(vs[i].text);
      if |contents| == 0 then Trace(c, k, [], Threw(ArrayIndexOutOfBounds))
      else Extend([Joined(contents[0], c)], RunFrom(c, contents[0], vs, i + 1))
  }

  /** reduce over all of vs. */
  function Run(c: int, k: string, vs: seq<TaggedValue>): Trace
  {
    RunFrom(c, k, vs, 0)
  }

  // ------------------------------------------------- reference definitions

  /** A value reduce processes without an exception. */
  predicate Good(v: TaggedValue)
  {
    if v.tag == 1 then ParseInt(v.text).Some? else !OnlySeparators(v.text)
  }

  /** The first position at or after i holding a value that is not good, or |vs|. */
  function FirstBad(vs: seq<TaggedValue>, i: nat): (b: nat)
    requires i <= |vs|
    ensures i <= b <= |vs|
    ensures forall p :: i <= p < b ==> Good(vs[p])
    ensures b < |vs| ==> !Good(vs[b])
    decreases |vs| - i
  {
    if i == |vs| then |vs| else if !Good(vs[i]) then i else FirstBad(vs, i + 1)
  }

  /** How many values at positions i .. p-1 are entry records (tag other than 1). */
  function Payloads(vs: seq<TaggedValue>, i: nat, p: nat): nat
    requires i <= p <= |vs|
    decreases p
  {
    if p == i then 0 else Payloads(vs, i, p - 1) + (if vs[p - 1].tag != 1 then 1 else 0)
  }

  /** The cluster id of the most recent tag-1 value before position p, looking
      back no further than i, and c when there is none. */
  function Latest(c: int, vs: seq<TaggedValue>, i: nat, p: nat): int
    requires i <= p <= |vs|
    decreases p
  {
    if p == i then c
    else if vs[p - 1].tag == 1 && ParseInt(vs[p - 1].text).Some? then ParseInt(vs[p - 1].text).value
    else Latest(c, vs, i, p - 1)
  }

  lemma {:induction false} PayloadsShift(vs: seq<TaggedValue>, i: nat, p: nat)
    requires i < p <= |vs|
    ensures Payloads(vs, i, p) == (if vs[i].tag != 1 then 1 else 0) + Payloads(vs, i + 1, p)
    decreases p
  {
    if p > i + 1 {
      PayloadsShift(vs, i, p - 1);
    }
  }

  lemma {:induction false} LatestShift(c: int, vs: seq<TaggedValue>, i: nat, p: nat)
    requires i < p <= |vs|
    ensures Latest(c, vs, i, p) == Latest(Latest(c, vs, i, i + 1), vs, i + 1, p)
    decreases p
  {
    if p > i + 1 {
      LatestShift(c, vs, i, p - 1);
    }
  }

  /** What reduce does from position i: it completes exactly when every value is
      good; otherwise it throws at the first bad value, NumberFormatException for
      a tag-1 value and ArrayIndexOutOfBoundsException for an entry record. It
      writes one record per entry record before that point, and ends with the id
      of the latest tag-1 value before it stored. */
  lemma {:induction false} RunOutcome(c: int, k: string, vs: seq<TaggedValue>, i: nat)
    requires i <= |vs|
    ensures var t, b := RunFrom(c, k, vs, i), FirstBad(vs, i);
      && (t.status.Completed? <==> b == |vs|)
      && (t.status.Threw? ==> b < |vs| && t.status.exception == if vs[b].tag == 1 then NumberFormat else ArrayIndexOutOfBounds)
      && |t.out| == Payloads(vs, i, b)
      && t.clusterId == Latest(c, vs, i, b)
    decreases |vs| - i
  {
    if i < |vs| {
      var v := vs[i];
      var b := FirstBad(vs, i);
      if v.tag == 1 {
        if ParseInt(v.text).Some? {
          RunOutcome(ParseInt(v.text).value, k, vs, i + 1);
          LatestShift(c, vs, i, b);
          PayloadsShift(vs, i, b);
        }
      } else {
        SplitEntryFirst(v.text);
        var contents := SplitEntry(v.text);
        if |contents| > 0 {
          RunOutcome(c, contents[0], vs, i + 1);
          LatestShift(c, vs, i, b);
          PayloadsShift(vs, i, b);
        }
      }
    }
  }

  /** The records reduce writes from position i on: the entry record at p, before
      the first bad value, is written at index Payloads(vs, i, p), with the text
      before its first "::" and the id of the latest tag-1 value before p. */
  lemma {:induction false} RunOutputs(c: int, k: string, vs: seq<TaggedValue>, i: nat)
    requires i <= |vs|
    ensures var t, b := RunFrom(c, k, vs, i), FirstBad(vs, i);
      forall p :: i <= p < b && vs[p].tag != 1 ==>
        Payloads(vs, i, p) < |t.out| && t.out[Payloads(vs, i, p)] == Joined(EntryKey(vs[p].text), Latest(c, vs, i, p))
    decreases |vs| - i
  {
    if i < |vs| {
      var v := vs[i];
      var b := FirstBad(vs, i);
      if v.tag == 1 {
        if ParseInt(v.text).Some? {
          var id := ParseInt(v.text).value;
          RunOutputs(id, k, vs, i + 1);
          forall p | i + 1 <= p < b
            ensures Latest(c, vs, i, p) == Latest(id, vs, i + 1, p)
            ensures Payloads(vs, i, p) == Payloads(vs, i + 1, p)
          {
            LatestShift(c, vs, i, p);
            PayloadsShift(vs, i, p);
          }
        }
      } else {
        SplitEntryFirst(v.text);
        var contents := SplitEntry(v.text);
        if |contents| > 0 {
          var key := contents[0];
          RunOutputs(c, key, vs, i + 1);
          var rest := RunFrom(c, key, vs, i + 1);
          var t := RunFrom(c, k, vs, i);
          assert t.out == [Joined(key, c)] + rest.out;
          forall p | i < p < b && vs[p].tag != 1
            ensures Payloads(vs, i, p) < |t.out| && t.out[Payloads(vs, i, p)] == Joined(EntryKey(vs[p].text), Latest(c, vs, i, p))
          {
            LatestShift(c, vs, i, p);
            PayloadsShift(vs, i, p);
            assert t.out[Payloads(vs, i, p)] == rest.out[Payloads(vs, i + 1, p)];
          }
        }
      }
    }
  }

  /** A group that starts with a tag-1 value Integer.valueOf reads as x and
      carries good entry records after it: each record is written with x, one
      per entry, in order. */
  lemma AssignedGroup(c: int, k: string, x: int, vs: seq<TaggedValue>)
    requires |vs| > 0 && vs[0].tag == 1 && ParseInt(vs[0].text) == Some(x)
    requires forall q :: 1 <= q < |vs| ==> vs[q].tag != 1 && !OnlySeparators(vs[q].text)
    ensures var t := Run(c, k, vs);
      && t.status == Completed && t.clusterId == x && |t.out| == |vs| - 1
      && forall q :: 1 <= q < |vs| ==> t.out[q - 1] == Joined(EntryKey(vs[q].text), x)
  {
    assert Good(vs[0]);
    FirstBadNone(vs, 0);
    RunOutcome(c, k, vs, 0);
    RunOutputs(c, k, vs, 0);
    PayloadsEntries(vs, |vs|);
    LatestAfterFirst(c, vs, x, |vs|);
    var t := Run(c, k, vs);
    forall q | 1 <= q < |vs| ensures t.out[q - 1] == Joined(EntryKey(vs[q].text), x) {
      PayloadsEntries(vs, q);
      LatestAfterFirst(c, vs, x, q);
    }
  }

  lemma {:induction false} FirstBadNone(vs: seq<TaggedValue>, i: nat)
    requires i <= |vs|
    requires forall p :: i <= p < |vs| ==> Good(vs[p])
    ensures FirstBad(vs, i) == |vs|
    decreases |vs| - i
  {
    if i < |vs| {
      FirstBadNone(vs, i + 1);
    }
  }

  lemma {:induction false} PayloadsEntries(vs: seq<TaggedValue>, p: nat)
    requires 1 <= p <= |vs| && vs[0].tag == 1
    requires forall q :: 1 <= q < |vs| ==> vs[q].tag != 1
    ensures Payloads(vs, 0, p) == p - 1
    decreases p
  {
    if p > 1 {
      PayloadsEntries(vs, p - 1);
    }
  }

  lemma {:induction false} LatestAfterFirst(c: int, vs: seq<TaggedValue>, x: int, p: nat)
    requires 1 <= p <= |vs| && vs[0].tag == 1 && ParseInt(vs[0].text) == Some(x)
    requires forall q :: 1 <= q < |vs| ==> vs[q].tag != 1
    ensures Latest(c, vs, 0, p) == x
    decreases p
  {
    if p > 1 {
      LatestAfterFirst(c, vs, x, p - 1);
    }
  }

  /** A group with no tag-1 value writes every entry with the id carried in from
      earlier groups (0 before the first assignment of the instance). */
  lemma {:induction false} OrphansKeepCarriedId(c: int, vs: seq<TaggedValue>, p: nat)
    requires p <= |vs|
    requires forall q :: 0 <= q < |vs| ==> vs[q].tag != 1
    ensures Latest(c, vs, 0, p) == c
    decreases p
  {
    if p > 0 {
      OrphansKeepCarriedId(c, vs, p - 1);
    }
  }

  /** Positions from |a| on in a + b are those of b. */
  lemma {:induction false} RunFromShift(c: int, k: string, a: seq<TaggedValue>, b: seq<TaggedValue>, j: nat)
    requires j <= |b|
    ensures RunFrom(c, k, a + b, |a| + j) == RunFrom(c, k, b, j)
    decreases |b| - j
  {
    if j < |b| {
      assert (a + b)[|a| + j] == b[j];
      var v := b[j];
      if v.tag == 1 {
        if ParseInt(v.text).Some? {
          RunFromShift(ParseInt(v.text).value, k, a, b, j + 1);
        }
      } else if |SplitEntry(v.text)| > 0 {
        RunFromShift(c, SplitEntry(v.text)[0], a, b, j + 1);
      }
    }
  }

  /** Two reduce calls in a row, the second starting from the state the first
      left, do what one call over both value sequences does: the stored id and
      key carry over from group to group. */
  lemma {:induction false} RunFromConcat(c: int, k: string, a: seq<TaggedValue>, b: seq<TaggedValue>, i: nat)
    requires i <= |a|
    requires RunFrom(c, k, a, i).status == Completed
    ensures var first := RunFrom(c, k, a, i);
      RunFrom(c, k, a + b, i) == Extend(first.out, Run(first.clusterId, first.outputKey, b))
    decreases |a| - i
  {
    var first := RunFrom(c, k, a, i);
    if i == |a| {
      RunFromShift(c, k, a, b, 0);
      assert [] + Run(c, k, b).out == Run(c, k, b).out;
    } else {
      assert (a + b)[i] == a[i];
      var v := a[i];
      if v.tag == 1 {
        RunFromConcat(ParseInt(v.text).value, k, a, b, i + 1);
      } else {
        var key := SplitEntry(v.text)[0];
        RunFromConcat(c, key, a, b, i + 1);
        var rest := RunFrom(c, key, a, i + 1);
        var second := Run(rest.clusterId, rest.outputKey, b);
        assert [Joined(key, c)] + (rest.out + second.out) == ([Joined(key, c)] + rest.out) + second.out;
      }
    }
  }

  lemma RunConcat(c: int, k: string, a: seq<TaggedValue>, b: seq<TaggedValue>)
    requires Run(c, k, a).status == Completed
    ensures var first := Run(c, k, a);
      Run(c, k, a + b) == Extend(first.out, Run(first.clusterId, first.outputKey, b))
  {
    RunFromConcat(c, k, a, b, 0);
  }

  /** One entry record processed: its record moves from the rest of the run to
      what has been written. */
  lemma PayloadStep(c: int, k: string, vs: seq<TaggedValue>, i: nat, pre: seq<Joined>)
    requires i < |vs| && vs[i].tag != 1 && |SplitEntry(vs[i].text)| > 0
    ensures var key := SplitEntry(vs[i].text)[0];
      Extend(pre, RunFrom(c, k, vs, i)) == Extend(pre + [Joined(key, c)], RunFrom(c, key, vs, i + 1))
  {
    var key := SplitEntry(vs[i].text)[0];
    var rest := RunFrom(c, key, vs, i + 1);
    assert pre + ([Joined(key, c)] + rest.out) == (pre + [Joined(key, c)]) + rest.out;
  }

  /** The reducer instance: the stored cluster id (outputValue) and output key
      are fields, set once when the instance is made and never reset. */
  class JoinReducer {
    /** outputValue: the cluster id of the latest tag-1 value seen. */
    var clusterId: int
    var outputKey: string
    /** The records written to the task's output so far. */
    var written: seq<Joined>

    constructor ()
      ensures clusterId == 0 && outputKey == "" && written == []
    {
      clusterId := 0;
      outputKey := "";
      written := [];
    }

    /** reduce for one group: groupId is the group part of the key, values the
        group's values with their tags. Nothing the method does depends on groupId. */
    method Reduce(groupId: string, values: seq<TaggedValue>) returns (status: Status)
      modifies this
      ensures var t := Run(old(clusterId), old(outputKey), values);
        clusterId == t.clusterId && outputKey == t.outputKey &&
        written == old(written) + t.out && status == t.status
    {
      ghost var c0, k0, w0 := clusterId, outputKey, written;
      ghost var out: seq<Joined> := [];
      var i := 0;
      while i < |values|
        invariant 0 <= i <= |values|
        invariant written == w0 + out
        invariant Run(c0, k0, values) == Extend(out, RunFrom(clusterId, outputKey, values, i))
      {
        var v := values[i];
        if v.tag == 1 {
          var id := ParseInt(v.text);
          if id.None? {
            assert out + [] == out;
            return Threw(NumberFormat);
          }
          clusterId := id.value;
        } else {
          var contents := SplitEntry(v.text);
          if |contents| == 0 {
            assert out + [] == out;
            return Threw(ArrayIndexOutOfBounds);
          }
          PayloadStep(clusterId, outputKey, values, i, out);
          outputKey := contents[0];
          written := written + [Joined(outputKey, clusterId)];
          assert written == w0 + (out + [Joined(outputKey, clusterId)]);
          out := out + [Joined(outputKey, clusterId)];
        }
        i := i + 1;
      }
      assert out + [] == out;
      status := Completed;
    }
  }
}
