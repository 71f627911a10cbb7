/** Dot-separated paths: PHP's `explode('.', $path)` and its inverse. */
module Paths {

  /** `explode('.', s)`: the segments between the dots, in order. Never empty:
      the empty string yields one empty segment, and consecutive dots yield
      empty segments. No segment contains a dot. */
  function Split(s: string): (r: seq<string>)
    ensures |r| >= 1
    ensures forall i :: 0 <= i < |r| ==> '.' !in r[i]
  {
    if s == [] then [""]
    else if s[0] == '.' then [""] + Split(s[1..])
    else
      var t := Split(s[1..]);
      [[s[0]] + t[0]] + t[1..]
  }

  /** `implode('.', p)`: the segments glued with dots. */
  function Join(p: seq<string>): string
    requires |p| >= 1
  {
    if |p| == 1 then p[0] else p[0] + "." + Join(p[1..])
  }

  /** A path whose segments could all have come out of Split. */
  predicate DotFree(p: seq<string>)
  {
    forall i :: 0 <= i < |p| ==> '.' !in p[i]
  }

  /** Joining the segments of a split gives back the original string. */
  lemma {:induction false} JoinSplit(s: string)
    ensures Join(Split(s)) == s
  {
    if s == [] {
    } else if s[0] == '.' {
      JoinSplit(s[1..]);
      assert s == "." + s[1..];
    } else {
      JoinSplit(s[1..]);
      var t := Split(s[1..]);
      if |t| == 1 {
        assert Join(Split(s)) == [s[0]] + t[0];
      } else {
        assert Join(t) == t[0] + "." + Join(t[1..]);
        assert Join(Split(s)) == ([s[0]] + t[0]) + "." + Join(t[1..]);
      }
      assert s == [s[0]] + s[1..];
    }
  }

  /** A string without dots is a single segment. */
  lemma {:induction false} SplitNoDot(s: string)
    requires '.' !in s
    ensures Split(s) == [s]
  {
    if s != [] {
      assert '.' !in s[1..];
      SplitNoDot(s[1..]);
      assert s == [s[0]] + s[1..];
    }
  }

  /** Splitting distributes over a dot: the segments of `a.b` are those of `a`
      followed by those of `b`. */
  lemma {:induction false} SplitDot(a: string, b: string)
    ensures Split(a + "." + b) == Split(a) + Split(b)
  {
    if a == [] {
      assert a + "." + b == "." + b;
      assert ("." + b)[1..] == b;
    } else {
      assert (a + "." + b)[1..] == a[1..] + "." + b;
      SplitDot(a[1..], b);
    }
  }

  /** Splitting a join of dot-free segments gives back the segments: Split and
      Join are inverse bijections between strings and dot-free paths. */
  lemma {:induction false} SplitJoin(p: seq<string>)
    requires |p| >= 1 && DotFree(p)
    ensures Split(Join(p)) == p
  {
    SplitNoDot(p[0]);
    if |p| > 1 {
      SplitJoin(p[1..]);
      SplitDot(p[0], Join(p[1..]));
      assert [p[0]] + p[1..] == p;
    }
  }
}
