/** Joining strings with a one-character separator, as PreMapper.arrToStr does,
    and its inverse, cutting a string at every occurrence of a character. */
module Text {

  /** No element of xs contains c. */
  predicate AllFree(xs: seq<string>, c: char)
  {
    forall t :: 0 <= t < |xs| ==> c !in xs[t]
  }

  /** What arrToStr's loop leaves in its StringBuilder: every element followed by sep. */
  function Terminated(xs: seq<string>, sep: char): string
  {
    if |xs| == 0 then [] else xs[0] + [sep] + Terminated(xs[1..], sep)
  }

  /** xs with sep between consecutive elements and none at the end (arrToStr). The
      source gets it by deleting the last character of the builder, which is why
      the list must not be empty. */
  function Join(xs: seq<string>, sep: char): (r: string)
    requires |xs| > 0
    ensures r + [sep] == Terminated(xs, sep)
    ensures xs[0] <= r
  {
    if |xs| == 1 then xs[0] else xs[0] + [sep] + Join(xs[1..], sep)
  }

  /** The pieces of s between occurrences of c, empty pieces included. */
  function SplitOn(s: string, c: char): (r: seq<string>)
    ensures |r| > 0
    ensures AllFree(r, c)
  {
    if |s| == 0 then [[]]
    else
      var rest := SplitOn(s[1..], c);
      if s[0] == c then [[]] + rest else [[s[0]] + rest[0]] + rest[1..]
  }

  /** Joining the pieces of s at c gives back s. */
  lemma {:induction false} JoinSplit(s: string, c: char)
    ensures Join(SplitOn(s, c), c) == s
    decreases |s|
  {
    if |s| > 0 {
      var rest := SplitOn(s[1..], c);
      JoinSplit(s[1..], c);
      assert s == [s[0]] + s[1..];
      if s[0] != c && |rest| > 1 {
        assert Join(rest, c) == rest[0] + [c] + Join(rest[1..], c);
      }
    }
  }

  /** A piece free of c followed by anything: the piece prefixes the first part of the rest. */
  lemma {:induction false} SplitAfterFreePrefix(x: string, t: string, c: char)
    requires c !in x
    ensures SplitOn(x + t, c) == [x + SplitOn(t, c)[0]] + SplitOn(t, c)[1..]
    decreases |x|
  {
    var r := SplitOn(t, c);
    if x == [] {
      assert x + t == t && x + r[0] == r[0];
      assert [r[0]] + r[1..] == r;
    } else {
      var s := x + t;
      assert s[0] == x[0] && x[0] != c;
      assert s[1..] == x[1..] + t;
      SplitAfterFreePrefix(x[1..], t, c);
      var rest := SplitOn(s[1..], c);
      assert rest == [x[1..] + r[0]] + r[1..];
      assert rest[0] == x[1..] + r[0] && rest[1..] == r[1..];
      assert [x[0]] + (x[1..] + r[0]) == x + r[0];
      assert SplitOn(s, c) == [[s[0]] + rest[0]] + rest[1..];
    }
  }

  /** Cutting a join at its separator gives back the list, when no element holds the separator. */
  lemma {:induction false} SplitJoin(xs: seq<string>, c: char)
    requires |xs| > 0 && AllFree(xs, c)
    ensures SplitOn(Join(xs, c), c) == xs
    decreases |xs|
  {
    if |xs| == 1 {
      SplitAfterFreePrefix(xs[0], [], c);
      assert xs[0] + [] == xs[0];
    } else {
      assert AllFree(xs[1..], c) by {
        forall t | 0 <= t < |xs[1..]| ensures c !in xs[1..][t] { assert xs[1..][t] == xs[t + 1]; }
      }
      assert c !in xs[0] by { assert xs[0] == xs[0 as int]; }
      var j := Join(xs[1..], c);
      SplitJoin(xs[1..], c);
      assert Join(xs, c) == xs[0] + ([c] + j);
      SplitAfterFreePrefix(xs[0], [c] + j, c);
      assert ([c] + j)[1..] == j;
      assert SplitOn([c] + j, c) == [[]] + xs[1..];
      assert xs[0] + [] == xs[0];
      assert [xs[0]] + xs[1..] == xs;
    }
  }

  /** A character that is neither the separator nor in any element is not in the join. */
  lemma {:induction false} JoinFree(xs: seq<string>, sep: char, c: char)
    requires |xs| > 0 && AllFree(xs, c) && c != sep
    ensures c !in Join(xs, sep)
    decreases |xs|
  {
    assert c !in xs[0] by { assert xs[0] == xs[0 as int]; }
    if |xs| > 1 {
      assert AllFree(xs[1..], c) by {
        forall t | 0 <= t < |xs[1..]| ensures c !in xs[1..][t] { assert xs[1..][t] == xs[t + 1]; }
      }
      JoinFree(xs[1..], sep, c);
    }
  }
}
