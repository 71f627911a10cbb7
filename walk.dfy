/** Walking a tree of PHP arrays along a path of keys: the write walk of
    `Data::set` and the read walk of `Data::fetchNode`, each against a plain
    reference lookup `At`. */
module Walk {
  import opened PhpArray
  import opened Paths

  /** The value found by following the keys of `p` from `v`, or None when a
      key is missing or a step lands on something that is not an array. This
      is the plain meaning of "the node at a path", with none of PHP's
      `isset` treatment of null or false. */
  function At(v: Value, p: seq<string>): Option<Value>
    decreases |p|
  {
    if p == [] then Some(v)
    else
      match v
      case Arr(m) =>
        (match Lookup(m, p[0])
         case Some(x) => At(x, p[1..])
         case None => None)
      case _ => None
  }

  /** What `get` can see at a path: a value that is there and is neither
      null (`isset` fails) nor false (the `false` that `fetchNode` returns
      for "not found" cannot be told apart from a stored false). */
  predicate Readable(r: Option<Value>)
  {
    r.Some? && r.value != Null && r.value != Bool(false)
  }

  /** The array a write descends into under `k`: the array already there, or
      a fresh empty one when the key is missing or holds anything else. */
  function ChildOrEmpty(m: Entries, k: string): (c: Entries)
    ensures Lookup(m, k).Some? && Lookup(m, k).value.Arr? ==> c == Lookup(m, k).value.entries
    ensures !(Lookup(m, k).Some? && Lookup(m, k).value.Arr?) ==> c == []
  {
    match Lookup(m, k)
    case Some(Arr(c)) => c
    case _ => []
  }

  /** The tree after `set`: every key of `p` but the last is made to hold an
      array (a missing, null or scalar value is replaced by an empty one), and
      the last key receives `v`, whatever it held before. */
  function SetIn(m: Entries, p: seq<string>, v: Value): Entries
    requires |p| >= 1
    decreases |p|
  {
    if |p| == 1 then Put(m, p[0], v)
    else Put(m, p[0], Arr(SetIn(ChildOrEmpty(m, p[0]), p[1..], v)))
  }

  /** `fetchNode`: `false` when some key before the last is missing or not an
      array, or when the last key is not set (missing or null); otherwise the
      value under the last key. The result is exactly what `At` finds, with
      "nothing" and null both turned into `false`. */
  function Fetch(m: Entries, p: seq<string>): (r: Value)
    requires |p| >= 1
    ensures r == (match At(Arr(m), p)
                  case Some(x) => if x == Null then Bool(false) else x
                  case None => Bool(false))
    ensures r != Null
    ensures Readable(At(Arr(m), p)) <==> r != Bool(false)
    decreases |p|
  {
    if |p| == 1 then
      match Lookup(m, p[0])
      case Some(x) => if x != Null then x else Bool(false)
      case None => Bool(false)
    else
      match Lookup(m, p[0])
      case Some(Arr(c)) => Fetch(c, p[1..])
      case _ => Bool(false)
  }

  /** The value under a key of a well-formed array is well formed. */
  lemma LookupWellFormed(m: Entries, k: string)
    requires WellFormed(Arr(m))
    ensures Lookup(m, k).Some? ==> WellFormed(Lookup(m, k).value)
  {
  }

  /** Whatever a path finds inside a well-formed value is well formed. */
  lemma {:induction false} AtWellFormed(v: Value, p: seq<string>)
    requires WellFormed(v) && At(v, p).Some?
    ensures WellFormed(At(v, p).value)
    decreases |p|
  {
    if p != [] {
      LookupWellFormed(v.entries, p[0]);
      AtWellFormed(Lookup(v.entries, p[0]).value, p[1..]);
    }
  }

  /** Nothing is found below an empty array. */
  lemma AtEmpty(p: seq<string>)
    requires |p| >= 1
    ensures At(Arr([]), p) == None
  {
  }

  /** After `set(p, v)` the path `p` holds `v`, and every path below `p` is
      exactly the corresponding path below `v`: the old value at the last key
      is replaced wholesale. */
  lemma {:induction false} SetAtBelow(m: Entries, p: seq<string>, v: Value, q: seq<string>)
    requires |p| >= 1
    ensures At(Arr(SetIn(m, p, v)), p + q) == At(v, q)
    decreases |p|
  {
    var r := SetIn(m, p, v);
    assert (p + q)[0] == p[0] && (p + q)[1..] == p[1..] + q;
    if |p| == 1 {
      assert Lookup(r, p[0]) == Some(v);
      assert p[1..] + q == q;
    } else {
      SetAtBelow(ChildOrEmpty(m, p[0]), p[1..], v, q);
    }
  }

  /** Two paths diverge when they differ at some position both have. */
  predicate Diverge(p: seq<string>, q: seq<string>)
  {
    exists i :: 0 <= i < |p| && i < |q| && p[i] != q[i]
  }

  /** After `set(p, v)` every path that branches off `p` finds what it found
      before: sibling keys at every level keep their values. */
  lemma {:induction false} SetAtDiverge(m: Entries, p: seq<string>, v: Value, q: seq<string>)
    requires |p| >= 1 && Diverge(p, q)
    ensures At(Arr(SetIn(m, p, v)), q) == At(Arr(m), q)
    decreases |p|
  {
    var r := SetIn(m, p, v);
    var i :| 0 <= i < |p| && i < |q| && p[i] != q[i];
    if p[0] != q[0] {
      assert Lookup(r, q[0]) == Lookup(m, q[0]);
    } else {
      assert i >= 1 && |p| >= 2 && |q| >= 2;
      var c := ChildOrEmpty(m, p[0]);
      assert Lookup(r, q[0]) == Some(Arr(SetIn(c, p[1..], v)));
      assert p[1..][i - 1] != q[1..][i - 1];
      SetAtDiverge(c, p[1..], v, q[1..]);
      match Lookup(m, p[0])
      case Some(x) =>
        if !x.Arr? {
          AtEmpty(q[1..]);
        }
      case None =>
        AtEmpty(q[1..]);
    }
  }

  /** After `set(p, v)` every proper prefix of `p` leads to an array: the
      intermediate levels exist, created empty where they were missing, null
      or scalar. */
  lemma {:induction false} SetAtPrefix(m: Entries, p: seq<string>, v: Value, n: nat)
    requires n < |p|
    ensures At(Arr(SetIn(m, p, v)), p[..n]).Some?
    ensures At(Arr(SetIn(m, p, v)), p[..n]).value.Arr?
    decreases |p|
  {
    var r := SetIn(m, p, v);
    if n > 0 {
      var c := ChildOrEmpty(m, p[0]);
      assert Lookup(r, p[0]) == Some(Arr(SetIn(c, p[1..], v)));
      SetAtPrefix(c, p[1..], v, n - 1);
      assert p[..n][1..] == p[1..][..n - 1];
    }
  }

  /** After `set(p, v)`, `fetchNode(p)` yields `v` unless `v` is null or
      false, in which case it reports the path as not found. */
  lemma SetFetch(m: Entries, p: seq<string>, v: Value)
    requires |p| >= 1
    ensures v != Null && v != Bool(false) ==> Fetch(SetIn(m, p, v), p) == v
    ensures v == Null || v == Bool(false) ==> Fetch(SetIn(m, p, v), p) == Bool(false)
  {
    SetAtBelow(m, p, v, []);
    assert p + [] == p;
  }

  /** Writing back the value a path already holds changes nothing. */
  lemma {:induction false} SetInSame(m: Entries, p: seq<string>, x: Value)
    requires |p| >= 1 && At(Arr(m), p) == Some(x)
    ensures SetIn(m, p, x) == m
    decreases |p|
  {
    if |p| == 1 {
      PutSame(m, p[0], x);
    } else {
      var c := ChildOrEmpty(m, p[0]);
      assert Lookup(m, p[0]) == Some(Arr(c));
      SetInSame(c, p[1..], x);
      PutSame(m, p[0], Arr(c));
    }
  }

  /** Two writes to the same path: the second one wins and the first leaves
      no trace. */
  lemma {:induction false} SetInTwice(m: Entries, p: seq<string>, v: Value, w: Value)
    requires |p| >= 1
    ensures SetIn(SetIn(m, p, v), p, w) == SetIn(m, p, w)
    decreases |p|
  {
    var r := SetIn(m, p, v);
    if |p| == 1 {
      PutPut(m, p[0], v, w);
    } else {
      var c := ChildOrEmpty(m, p[0]);
      assert ChildOrEmpty(r, p[0]) == SetIn(c, p[1..], v);
      SetInTwice(c, p[1..], v, w);
      PutPut(m, p[0], Arr(SetIn(c, p[1..], v)), Arr(SetIn(c, p[1..], w)));
    }
  }

  /** `set` keeps the tree a well-formed PHP array. */
  lemma {:induction false} SetInWellFormed(m: Entries, p: seq<string>, v: Value)
    requires |p| >= 1 && WellFormed(Arr(m)) && WellFormed(v)
    ensures WellFormed(Arr(SetIn(m, p, v)))
    decreases |p|
  {
    if |p| == 1 {
      PutWellFormed(m, p[0], v);
    } else {
      var c := ChildOrEmpty(m, p[0]);
      LookupWellFormed(m, p[0]);
      SetInWellFormed(c, p[1..], v);
      PutWellFormed(m, p[0], Arr(SetIn(c, p[1..], v)));
    }
  }

  /** The top-level keys after `set(p, v)` are the old ones, in the same
      order, followed by `p[0]` when it was not there. */
  lemma SetInTopKeys(m: Entries, p: seq<string>, v: Value)
    requires |p| >= 1
    ensures var r := SetIn(m, p, v);
            && (HasKey(m, p[0]) ==> |r| == |m|)
            && (!HasKey(m, p[0]) ==> |r| == |m| + 1 && r[|m|].0 == p[0])
            && forall j :: 0 <= j < |m| ==> r[j].0 == m[j].0
  {
  }
}
