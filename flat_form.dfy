/** The flat form of a tree (`'a.b.c' => leaf`), as produced by
    `Data::flatten` and consumed by `Data::unflatten`, and the array spread
    `[...$current, ...$data]` that merges two flat forms. */
module FlatForm {
  import opened PhpArray
  import opened Paths
  import opened Walk

  /** What the flat form holds under a key: anything but null or an array. */
  predicate IsLeaf(v: Value)
  {
    v != Null && !v.Arr?
  }

  /** A flat form: unique keys, leaf values only. */
  predicate IsFlat(f: Entries)
  {
    KeysUnique(f) && forall i :: 0 <= i < |f| ==> IsLeaf(f[i].1)
  }

  lemma PutFlat(f: Entries, k: string, v: Value)
    requires IsFlat(f) && IsLeaf(v)
    ensures IsFlat(Put(f, k, v))
  {
    PutKeysUnique(f, k, v);
    var r := Put(f, k, v);
    forall i | 0 <= i < |r|
      ensures IsLeaf(r[i].1)
    {
      assert r[i] in r;
    }
  }

  // ---------------------------------------------------------------------
  // flatten

  /** `flatten($m)`: every entry in order; an array is flattened recursively
      and its flat keys are put under `key.`, a null is skipped, anything
      else is put under its own key. Putting overwrites an earlier entry with
      the same flat key in place, so keys that contain dots can collide. The
      result holds only leaves, so null leaves and empty arrays vanish. */
  function Flatten(m: Entries): (f: Entries)
    ensures IsFlat(f)
    decreases Arr(m), |m| + 1
  {
    FlattenPrefixFlat(m, |m|);
    FlattenPrefix(m, |m|)
  }

  /** The result of flatten's outer loop after the first `n` entries. */
  function FlattenPrefix(m: Entries, n: nat): Entries
    requires n <= |m|
    decreases Arr(m), n, 0
  {
    if n == 0 then [] else FlattenInto(FlattenPrefix(m, n - 1), m[n - 1].0, m[n - 1].1)
  }

  /** One pass of flatten's outer loop: the entry `k => v` added to the flat
      form `acc`. */
  function FlattenInto(acc: Entries, k: string, v: Value): Entries
    decreases v, if v.Arr? then |v.entries| + 2 else 0, 0
  {
    if v.Arr? then
      var sub := Flatten(v.entries);
      PutPrefixed(acc, k, sub, |sub|)
    else if v == Null then acc
    else Put(acc, k, v)
  }

  /** Flatten's inner loop after the first `j` entries of the flattened child
      `sub`: each non-null one is put under `k.` followed by its own key. */
  function PutPrefixed(acc: Entries, k: string, sub: Entries, j: nat): Entries
    requires j <= |sub|
  {
    if j == 0 then acc
    else
      var a := PutPrefixed(acc, k, sub, j - 1);
      var v := sub[j - 1].1;
      if v != Null then Put(a, k + "." + sub[j - 1].0, v) else a
  }

  /** The outer loop only ever holds a flat form. */
  lemma {:induction false} FlattenPrefixFlat(m: Entries, n: nat)
    requires n <= |m|
    ensures IsFlat(FlattenPrefix(m, n))
    decreases Arr(m), n, 1
  {
    if n > 0 {
      FlattenPrefixFlat(m, n - 1);
      FlattenIntoFlat(FlattenPrefix(m, n - 1), m[n - 1].0, m[n - 1].1);
    }
  }

  /** One pass of the outer loop keeps the result flat. */
  lemma FlattenIntoFlat(acc: Entries, k: string, v: Value)
    requires IsFlat(acc)
    ensures IsFlat(FlattenInto(acc, k, v))
    decreases v, if v.Arr? then |v.entries| + 2 else 0, 1
  {
    if v.Arr? {
      var sub := Flatten(v.entries);
      PutPrefixedFlat(acc, k, sub, |sub|);
    } else if v != Null {
      PutFlat(acc, k, v);
    }
  }

  /** The inner loop keeps the result flat when the child's flat form holds
      no array. */
  lemma {:induction false} PutPrefixedFlat(acc: Entries, k: string, sub: Entries, j: nat)
    requires j <= |sub| && IsFlat(acc) && IsFlat(sub)
    ensures IsFlat(PutPrefixed(acc, k, sub, j))
  {
    if j > 0 {
      PutPrefixedFlat(acc, k, sub, j - 1);
      var v := sub[j - 1].1;
      if v != Null {
        PutFlat(PutPrefixed(acc, k, sub, j - 1), k + "." + sub[j - 1].0, v);
      }
    }
  }

  /** One more step of the inner loop: `f` is what the step makes of the
      state after `j` entries. */
  lemma PutPrefixedNext(acc: Entries, k: string, sub: Entries, j: nat, key: string, v: Value, f: Entries)
    requires j < |sub| && key == k + "." + sub[j].0 && v == sub[j].1
    requires f == if v != Null then Put(PutPrefixed(acc, k, sub, j), key, v) else PutPrefixed(acc, k, sub, j)
    ensures f == PutPrefixed(acc, k, sub, j + 1)
  {
  }

  // ---------------------------------------------------------------------
  // unflatten

  /** Unflatten's outer loop over the flat entries `f`, starting from `acc`:
      each entry is written as `set` would write it, at the path its key
      splits into. */
  function BuildOnto(acc: Entries, f: Entries): Entries
  {
    if f == [] then acc
    else SetIn(BuildOnto(acc, f[..|f| - 1]), Split(f[|f| - 1].0), f[|f| - 1].1)
  }

  /** `unflatten($m)`: re-flatten the input, then replay every flat entry into
      a fresh empty array. The result is a well-formed PHP array whose
      top-level keys contain no dot. */
  function Unflatten(m: Entries): (u: Entries)
    ensures WellFormed(Arr(u))
    ensures DotFreeKeys(u)
  {
    var f := Flatten(m);
    BuildOntoWellFormed([], f);
    BuildOntoTopKeys([], f);
    BuildOnto([], f)
  }

  /** One more step of the replay. */
  lemma BuildOntoNext(acc: Entries, f: Entries, i: nat)
    requires i < |f|
    ensures BuildOnto(acc, f[..i + 1]) == SetIn(BuildOnto(acc, f[..i]), Split(f[i].0), f[i].1)
  {
    assert f[..i + 1][..i] == f[..i];
  }

  /** Replaying well-formed values into a well-formed array keeps it well
      formed. */
  lemma {:induction false} BuildOntoWellFormed(acc: Entries, f: Entries)
    requires WellFormed(Arr(acc)) && forall i :: 0 <= i < |f| ==> WellFormed(f[i].1)
    ensures WellFormed(Arr(BuildOnto(acc, f)))
  {
    if f != [] {
      var g := f[..|f| - 1];
      BuildOntoWellFormed(acc, g);
      SetInWellFormed(BuildOnto(acc, g), Split(f[|f| - 1].0), f[|f| - 1].1);
    }
  }

  /** No top-level key contains a dot. */
  predicate DotFreeKeys(m: Entries)
  {
    forall i :: 0 <= i < |m| ==> '.' !in m[i].0
  }

  /** Replaying flat entries only ever adds first segments of split keys,
      which hold no dot, as top-level keys. */
  lemma {:induction false} BuildOntoTopKeys(acc: Entries, f: Entries)
    requires DotFreeKeys(acc)
    ensures DotFreeKeys(BuildOnto(acc, f))
  {
    if f != [] {
      var b := BuildOnto(acc, f[..|f| - 1]);
      BuildOntoTopKeys(acc, f[..|f| - 1]);
      var p := Split(f[|f| - 1].0);
      SetInTopKeys(b, p, f[|f| - 1].1);
      var r := SetIn(b, p, f[|f| - 1].1);
      forall i | 0 <= i < |r|
        ensures '.' !in r[i].0
      {
        if i < |b| {
          assert r[i].0 == b[i].0;
        }
      }
    }
  }

  // ---------------------------------------------------------------------
  // The round trip

  /** Trees that flattening loses nothing from: no null leaf, no empty array,
      no key containing a dot, and unique keys. */
  predicate Plain(v: Value)
    decreases v, 1
  {
    match v
    case Null => false
    case Arr(c) => |c| > 0 && PlainEntries(c)
    case _ => true
  }

  predicate PlainEntries(m: Entries)
    decreases Arr(m), 0
  {
    KeysUnique(m) && forall i :: 0 <= i < |m| ==> '.' !in m[i].0 && Plain(m[i].1)
  }

  /** The first segment of a flat key. */
  function Head(key: string): string
  {
    Split(key)[0]
  }

  lemma HeadDot(k: string, x: string)
    ensures Head(k + "." + x) == Head(k)
  {
    SplitDot(k, x);
  }

  lemma HeadNoDot(k: string)
    requires '.' !in k
    ensures Head(k) == k
  {
    SplitNoDot(k);
  }

  /** Flat keys of `Prefixed(k, s)` are `k.` followed by the keys of `s`. */
  function Prefixed(k: string, s: Entries): (r: Entries)
    ensures |r| == |s|
    ensures forall i :: 0 <= i < |s| ==> r[i] == (k + "." + s[i].0, s[i].1)
  {
    if s == [] then []
    else Prefixed(k, s[..|s| - 1]) + [(k + "." + s[|s| - 1].0, s[|s| - 1].1)]
  }

  /** What the entry `(k, v)` of a plain tree contributes to the flat form. */
  function Piece(k: string, v: Value): Entries
    decreases v
  {
    if v.Arr? then Prefixed(k, Flatten(v.entries)) else [(k, v)]
  }

  /** Every entry that flatten's inner loop adds starts with the segment `k`
      starts with. */
  lemma {:induction false} PutPrefixedHeads(acc: Entries, k: string, sub: Entries, j: nat)
    requires j <= |sub|
    ensures forall e :: e in PutPrefixed(acc, k, sub, j) ==> e in acc || Head(e.0) == Head(k)
  {
    if j > 0 {
      PutPrefixedHeads(acc, k, sub, j - 1);
      HeadDot(k, sub[j - 1].0);
      var a := PutPrefixed(acc, k, sub, j - 1);
      var v := sub[j - 1].1;
      if v != Null {
        assert PutPrefixed(acc, k, sub, j) == Put(a, k + "." + sub[j - 1].0, v);
      }
    }
  }

  /** `key` starts with the first segment of one of the first `n` keys of `m`. */
  predicate HeadAmong(key: string, m: Entries, n: nat)
    requires n <= |m|
  {
    exists j :: 0 <= j < n && Head(key) == Head(m[j].0)
  }

  /** Every entry that one pass of the outer loop adds starts with the
      segment `k` starts with. */
  lemma FlattenIntoHeads(acc: Entries, k: string, v: Value)
    ensures forall e :: e in FlattenInto(acc, k, v) ==> e in acc || Head(e.0) == Head(k)
  {
    if v.Arr? {
      var sub := Flatten(v.entries);
      PutPrefixedHeads(acc, k, sub, |sub|);
    }
  }

  /** Every flat key produced by the first `n` entries starts with the first
      segment of one of their keys. */
  lemma {:induction false} FlattenPrefixHeads(m: Entries, n: nat)
    requires n <= |m|
    ensures forall e :: e in FlattenPrefix(m, n) ==> HeadAmong(e.0, m, n)
  {
    if n > 0 {
      FlattenPrefixHeads(m, n - 1);
      var acc := FlattenPrefix(m, n - 1);
      FlattenIntoHeads(acc, m[n - 1].0, m[n - 1].1);
      forall e | e in FlattenPrefix(m, n)
        ensures HeadAmong(e.0, m, n)
      {
        if e in acc {
          assert HeadAmong(e.0, m, n - 1);
          var j :| 0 <= j < n - 1 && Head(e.0) == Head(m[j].0);
        } else {
          assert Head(e.0) == Head(m[n - 1].0);
        }
      }
    }
  }

  lemma PrefixCancel(k: string, x: string, y: string)
    requires k + "." + x == k + "." + y
    ensures x == y
  {
    assert x == (k + "." + x)[|k| + 1..];
    assert y == (k + "." + y)[|k| + 1..];
  }

  /** Into an accumulator whose keys all start with another segment, the inner
      loop appends the prefixed entries in order, overwriting nothing. */
  lemma {:induction false} PutPrefixedFresh(acc: Entries, k: string, sub: Entries, j: nat)
    requires j <= |sub| && IsFlat(sub) && '.' !in k
    requires forall e :: e in acc ==> Head(e.0) != k
    ensures PutPrefixed(acc, k, sub, j) == acc + Prefixed(k, sub[..j])
  {
    if j > 0 {
      PutPrefixedFresh(acc, k, sub, j - 1);
      var pre := Prefixed(k, sub[..j - 1]);
      var key := k + "." + sub[j - 1].0;
      var v := sub[j - 1].1;
      assert IsLeaf(v);
      FreshAfter(acc, k, sub, j - 1);
      PrefixedSnoc(k, sub, j - 1);
      assert PutPrefixed(acc, k, sub, j) == Put(acc + pre, key, v);
      assert acc + pre + [(key, v)] == acc + (pre + [(key, v)]);
    }
  }

  /** The next prefixed key is new to everything put so far. */
  lemma FreshAfter(acc: Entries, k: string, sub: Entries, n: nat)
    requires '.' !in k && n < |sub| && KeysUnique(sub)
    requires forall e :: e in acc ==> Head(e.0) != k
    ensures !HasKey(acc + Prefixed(k, sub[..n]), k + "." + sub[n].0)
  {
    FreshUnder(acc, k, sub[n].0);
    PrefixedFresh(k, sub, n);
    NoKeyConcat(acc, Prefixed(k, sub[..n]), k + "." + sub[n].0);
  }

  /** A key under `k.` is not among keys that start with another segment. */
  lemma FreshUnder(acc: Entries, k: string, x: string)
    requires '.' !in k
    requires forall e :: e in acc ==> Head(e.0) != k
    ensures !HasKey(acc, k + "." + x)
  {
    HeadDot(k, x);
    HeadNoDot(k);
    HasKeyIff(acc, k + "." + x);
  }

  /** Prefixing one more entry appends its prefixed form. */
  lemma PrefixedSnoc(k: string, s: Entries, n: nat)
    requires n < |s|
    ensures Prefixed(k, s[..n + 1]) == Prefixed(k, s[..n]) + [(k + "." + s[n].0, s[n].1)]
  {
    assert s[..n + 1][..n] == s[..n];
  }

  /** Within the flattened child, a later prefixed key never repeats an
      earlier one. */
  lemma PrefixedFresh(k: string, sub: Entries, n: nat)
    requires n < |sub| && KeysUnique(sub)
    ensures !HasKey(Prefixed(k, sub[..n]), k + "." + sub[n].0)
  {
    var pre := Prefixed(k, sub[..n]);
    HasKeyIff(pre, k + "." + sub[n].0);
    if HasKey(pre, k + "." + sub[n].0) {
      var t :| 0 <= t < |pre| && pre[t].0 == k + "." + sub[n].0;
      PrefixCancel(k, sub[t].0, sub[n].0);
    }
  }

  /** In a plain tree, each entry's contribution is appended to the flat form
      of the entries before it: no flat key is ever overwritten. */
  lemma FlattenPrefixStep(m: Entries, n: nat)
    requires PlainEntries(m) && 1 <= n <= |m|
    ensures FlattenPrefix(m, n) == FlattenPrefix(m, n - 1) + Piece(m[n - 1].0, m[n - 1].1)
  {
    HeadsBefore(m, n - 1);
    assert Plain(m[n - 1].1);
    FlattenIntoFresh(FlattenPrefix(m, n - 1), m[n - 1].0, m[n - 1].1);
  }

  /** One pass of the outer loop, for a non-null value under a dot-free key
      that no earlier flat key starts with, appends that entry's
      contribution. */
  lemma FlattenIntoFresh(acc: Entries, k: string, v: Value)
    requires '.' !in k && v != Null
    requires forall e :: e in acc ==> Head(e.0) != k
    ensures FlattenInto(acc, k, v) == acc + Piece(k, v)
  {
    if v.Arr? {
      var sub := Flatten(v.entries);
      PutPrefixedFresh(acc, k, sub, |sub|);
      assert sub[..|sub|] == sub;
    } else {
      FreshTop(acc, k);
    }
  }

  /** In a plain tree, no flat key produced by the first `n` entries starts
      with the key of entry `n`. */
  lemma HeadsBefore(m: Entries, n: nat)
    requires PlainEntries(m) && n < |m|
    ensures forall e :: e in FlattenPrefix(m, n) ==> Head(e.0) != m[n].0
  {
    FlattenPrefixHeads(m, n);
    HeadNoDot(m[n].0);
    forall e | e in FlattenPrefix(m, n)
      ensures Head(e.0) != m[n].0
    {
      assert HeadAmong(e.0, m, n);
      var j :| 0 <= j < n && Head(e.0) == Head(m[j].0);
      HeadNoDot(m[j].0);
    }
  }

  /** A dot-free key is not among keys that start with another segment. */
  lemma FreshTop(acc: Entries, k: string)
    requires '.' !in k
    requires forall e :: e in acc ==> Head(e.0) != k
    ensures !HasKey(acc, k)
  {
    HeadNoDot(k);
    HasKeyIff(acc, k);
  }

  /** Replaying `a + b` is replaying `a`, then `b` on the result. */
  lemma {:induction false} BuildOntoConcat(acc: Entries, a: Entries, b: Entries)
    ensures BuildOnto(acc, a + b) == BuildOnto(BuildOnto(acc, a), b)
  {
    if b == [] {
      assert a + b == a;
    } else {
      assert (a + b)[..|a + b| - 1] == a + b[..|b| - 1];
      BuildOntoConcat(acc, a, b[..|b| - 1]);
    }
  }

  /** Replaying the prefixed flat form of a child under a fresh dot-free key
      appends that key holding the child rebuilt on its own. */
  lemma {:induction false} BuildOntoPrefixed(acc: Entries, k: string, l: Entries)
    requires |l| >= 1 && '.' !in k && !HasKey(acc, k)
    ensures BuildOnto(acc, Prefixed(k, l)) == acc + [(k, Arr(BuildOnto([], l)))]
  {
    var p := Prefixed(k, l);
    var n := |l|;
    var x := l[n - 1];
    SplitDot(k, x.0);
    SplitNoDot(k);
    var segs := Split(k + "." + x.0);
    var rest := Split(x.0);
    assert segs == [k] + rest;
    assert segs[0] == k && segs[1..] == rest;
    assert p[n - 1] == (k + "." + x.0, x.1);
    assert BuildOnto(acc, p) == SetIn(BuildOnto(acc, p[..n - 1]), segs, x.1);
    assert BuildOnto([], l) == SetIn(BuildOnto([], l[..n - 1]), rest, x.1);
    if n == 1 {
      assert p[..0] == [] && l[..0] == [];
      assert ChildOrEmpty(acc, k) == [];
      assert SetIn(acc, segs, x.1) == Put(acc, k, Arr(SetIn([], rest, x.1)));
    } else {
      assert p[..n - 1] == Prefixed(k, l[..n - 1]);
      BuildOntoPrefixed(acc, k, l[..n - 1]);
      var b := BuildOnto([], l[..n - 1]);
      var a := acc + [(k, Arr(b))];
      assert BuildOnto(acc, p[..n - 1]) == a;
      PutLast(acc, k, Arr(b), Arr(SetIn(b, rest, x.1)));
      assert ChildOrEmpty(a, k) == b;
      assert SetIn(a, segs, x.1) == Put(a, k, Arr(SetIn(b, rest, x.1)));
    }
  }

  /** The key of entry `n - 1` of an array with unique keys does not occur
      before it. */
  lemma EntryFresh(m: Entries, n: nat)
    requires KeysUnique(m) && 1 <= n <= |m|
    ensures !HasKey(m[..n - 1], m[n - 1].0)
    ensures m[..n] == m[..n - 1] + [m[n - 1]]
  {
    HasKeyIff(m[..n - 1], m[n - 1].0);
  }

  /** Replaying a single leaf entry under a fresh dot-free key appends it. */
  lemma BuildOntoLeaf(acc: Entries, k: string, v: Value)
    requires '.' !in k && !HasKey(acc, k)
    ensures BuildOnto(acc, [(k, v)]) == acc + [(k, v)]
  {
    SplitNoDot(k);
    assert [(k, v)][..0] == [];
  }

  /** Replaying one entry's contribution under a fresh dot-free key appends
      that entry, given that its child (if any) rebuilds from its own flat
      form. */
  lemma BuildOntoPiece(acc: Entries, k: string, v: Value)
    requires '.' !in k && !HasKey(acc, k) && v != Null
    requires v.Arr? ==> |Flatten(v.entries)| >= 1 && BuildOnto([], Flatten(v.entries)) == v.entries
    ensures BuildOnto(acc, Piece(k, v)) == acc + [(k, v)]
    ensures |Piece(k, v)| >= 1
  {
    if v.Arr? {
      BuildOntoPrefixed(acc, k, Flatten(v.entries));
    } else {
      BuildOntoLeaf(acc, k, v);
    }
  }

  /** Rebuilding the flat form of the first `n` entries of a plain tree gives
      back exactly those entries, and a plain array with entries has a
      non-empty flat form. */
  lemma {:induction false} BuildFlattenPrefix(m: Entries, n: nat)
    requires PlainEntries(m) && n <= |m|
    ensures BuildOnto([], FlattenPrefix(m, n)) == m[..n]
    ensures n >= 1 ==> |FlattenPrefix(m, n)| >= 1
    decreases Arr(m), n
  {
    if n > 0 {
      var v := m[n - 1].1;
      PlainEntry(m, n - 1);
      FlattenPrefixStep(m, n);
      BuildFlattenPrefix(m, n - 1);
      EntryFresh(m, n);
      if v.Arr? {
        BuildFlattenPrefix(v.entries, |v.entries|);
        assert v.entries[..|v.entries|] == v.entries;
      }
      BuildOntoStep(FlattenPrefix(m, n - 1), m[..n - 1], m[n - 1].0, v);
    }
  }

  /** What a plain array says about one of its entries. */
  lemma PlainEntry(m: Entries, i: nat)
    requires PlainEntries(m) && i < |m|
    ensures '.' !in m[i].0 && m[i].1 != Null
    ensures m[i].1.Arr? ==> |m[i].1.entries| >= 1 && PlainEntries(m[i].1.entries)
  {
    assert Plain(m[i].1);
  }

  /** Replaying a flat form that rebuilds `prev`, followed by one entry's
      contribution under a fresh dot-free key, rebuilds `prev` with that
      entry appended. */
  lemma BuildOntoStep(f0: Entries, prev: Entries, k: string, v: Value)
    requires BuildOnto([], f0) == prev
    requires '.' !in k && !HasKey(prev, k) && v != Null
    requires v.Arr? ==> |Flatten(v.entries)| >= 1 && BuildOnto([], Flatten(v.entries)) == v.entries
    ensures BuildOnto([], f0 + Piece(k, v)) == prev + [(k, v)]
    ensures |f0 + Piece(k, v)| >= 1
  {
    BuildOntoConcat([], f0, Piece(k, v));
    BuildOntoPiece(prev, k, v);
  }

  /** Flattening an array that is already flat changes nothing. */
  lemma {:induction false} FlattenFlatPrefix(f: Entries, n: nat)
    requires IsFlat(f) && n <= |f|
    ensures FlattenPrefix(f, n) == f[..n]
  {
    if n > 0 {
      FlattenFlatPrefix(f, n - 1);
      EntryFresh(f, n);
      assert IsLeaf(f[n - 1].1);
    }
  }

  lemma FlattenIdempotent(f: Entries)
    requires IsFlat(f)
    ensures Flatten(f) == f
  {
    FlattenFlatPrefix(f, |f|);
    assert f[..|f|] == f;
  }

  /** `unflatten(flatten(T)) == T` for every plain tree T. */
  lemma RoundTrip(m: Entries)
    requires PlainEntries(m)
    ensures Unflatten(Flatten(m)) == m
  {
    FlattenIdempotent(Flatten(m));
    BuildFlattenPrefix(m, |m|);
    assert m[..|m|] == m;
  }

  // ---------------------------------------------------------------------
  // What the flat form holds, for any tree

  /** Trees whose keys are unique and hold no dot at every level. Unlike
      plain trees they may hold null leaves and empty arrays, as the store
      does after `set(p, null)`. */
  predicate Tidy(v: Value)
    decreases v, 1
  {
    match v
    case Arr(c) => TidyEntries(c)
    case _ => true
  }

  predicate TidyEntries(m: Entries)
    decreases Arr(m), 0
  {
    KeysUnique(m) && forall i :: 0 <= i < |m| ==> '.' !in m[i].0 && Tidy(m[i].1)
  }

  /** The inner loop brings in no entry but prefixed entries of the child. */
  lemma {:induction false} PutPrefixedFrom(acc: Entries, k: string, sub: Entries, j: nat)
    requires j <= |sub|
    ensures forall e :: e in PutPrefixed(acc, k, sub, j) ==>
              e in acc || exists i :: 0 <= i < j && e == (k + "." + sub[i].0, sub[i].1)
  {
    if j > 0 {
      PutPrefixedFrom(acc, k, sub, j - 1);
      var a := PutPrefixed(acc, k, sub, j - 1);
      if sub[j - 1].1 != Null {
        PutKeys(a, k + "." + sub[j - 1].0, sub[j - 1].1);
      }
    }
  }

  /** In an array with unique keys, looking up the key of an entry finds
      that entry's value. */
  lemma LookupEntry(m: Entries, j: nat)
    requires KeysUnique(m) && j < |m|
    ensures Lookup(m, m[j].0) == Some(m[j].1)
  {
    IndexOfFirst(m, m[j].0, j);
  }

  /** Following `[k] + q` is following `q` from what `k` holds. */
  lemma AtCons(m: Entries, k: string, x: Value, q: seq<string>)
    requires Lookup(m, k) == Some(x)
    ensures At(Arr(m), [k] + q) == At(x, q)
  {
    assert ([k] + q)[0] == k && ([k] + q)[1..] == q;
  }

  /** Every entry of the flat form of a tidy tree is a leaf of the tree,
      found at the path its key splits into. */
  lemma {:induction false} FlattenPrefixSound(m: Entries, n: nat)
    requires TidyEntries(m) && n <= |m|
    ensures forall e :: e in FlattenPrefix(m, n) ==> At(Arr(m), Split(e.0)) == Some(e.1)
    decreases Arr(m), n
  {
    if n > 0 {
      FlattenPrefixSound(m, n - 1);
      var acc := FlattenPrefix(m, n - 1);
      var (k, v) := m[n - 1];
      assert '.' !in k && Tidy(v);
      LookupEntry(m, n - 1);
      SplitNoDot(k);
      if v.Arr? {
        var sub := Flatten(v.entries);
        FlattenPrefixSound(v.entries, |v.entries|);
        PutPrefixedFrom(acc, k, sub, |sub|);
        forall e | e in FlattenPrefix(m, n) && e !in acc
          ensures At(Arr(m), Split(e.0)) == Some(e.1)
        {
          var i :| 0 <= i < |sub| && e == (k + "." + sub[i].0, sub[i].1);
          assert sub[i] in sub;
          SplitDot(k, sub[i].0);
          AtCons(m, k, v, Split(sub[i].0));
        }
      } else if v != Null {
        PutKeys(acc, k, v);
        assert At(Arr(m), [k]) == At(v, []);
      }
    }
  }

  lemma FlattenSound(m: Entries)
    requires TidyEntries(m)
    ensures forall e :: e in Flatten(m) ==> At(Arr(m), Split(e.0)) == Some(e.1)
  {
    FlattenPrefixSound(m, |m|);
  }

  /** The inner loop never loses a key. */
  lemma {:induction false} PutPrefixedKeeps(acc: Entries, k: string, sub: Entries, j: nat, x: string)
    requires j <= |sub| && HasKey(acc, x)
    ensures HasKey(PutPrefixed(acc, k, sub, j), x)
  {
    if j > 0 {
      PutPrefixedKeeps(acc, k, sub, j - 1, x);
      if sub[j - 1].1 != Null {
        PutHasKey(PutPrefixed(acc, k, sub, j - 1), k + "." + sub[j - 1].0, sub[j - 1].1, x);
      }
    }
  }

  /** The inner loop puts the prefixed key of every non-null child entry. */
  lemma {:induction false} PutPrefixedAdds(acc: Entries, k: string, sub: Entries, j: nat, i: nat)
    requires i < j <= |sub| && sub[i].1 != Null
    ensures HasKey(PutPrefixed(acc, k, sub, j), k + "." + sub[i].0)
  {
    var key := k + "." + sub[i].0;
    if j - 1 > i {
      PutPrefixedAdds(acc, k, sub, j - 1, i);
      if sub[j - 1].1 != Null {
        PutHasKey(PutPrefixed(acc, k, sub, j - 1), k + "." + sub[j - 1].0, sub[j - 1].1, key);
      }
    } else {
      PutHasKey(PutPrefixed(acc, k, sub, i), key, sub[i].1, key);
    }
  }

  /** The outer loop never loses a key. */
  lemma {:induction false} FlattenPrefixKeeps(m: Entries, a: nat, b: nat, x: string)
    requires a <= b <= |m| && HasKey(FlattenPrefix(m, a), x)
    ensures HasKey(FlattenPrefix(m, b), x)
  {
    if b > a {
      FlattenPrefixKeeps(m, a, b - 1, x);
      var acc := FlattenPrefix(m, b - 1);
      var v := m[b - 1].1;
      if v.Arr? {
        var sub := Flatten(v.entries);
        PutPrefixedKeeps(acc, m[b - 1].0, sub, |sub|, x);
      } else if v != Null {
        PutHasKey(acc, m[b - 1].0, v, x);
      }
    }
  }

  /** Every leaf of a tree, at any depth, gives its joined path a key in the
      flat form. */
  lemma {:induction false} FlattenHasKey(m: Entries, p: seq<string>, v: Value)
    requires |p| >= 1 && At(Arr(m), p) == Some(v) && IsLeaf(v)
    ensures HasKey(Flatten(m), Join(p))
    decreases |p|
  {
    var j := IndexOf(m, p[0]);
    var x := m[j].1;
    var acc := FlattenPrefix(m, j);
    if |p| == 1 {
      assert At(x, p[1..]) == Some(x);
      assert FlattenPrefix(m, j + 1) == Put(acc, p[0], v);
      PutHasKey(acc, p[0], v, p[0]);
    } else {
      var c := x.entries;
      var sub := Flatten(c);
      FlattenHasKey(c, p[1..], v);
      var i := IndexOf(sub, Join(p[1..]));
      assert sub[i].1 != Null;
      PutPrefixedAdds(acc, p[0], sub, |sub|, i);
    }
    FlattenPrefixKeeps(m, j + 1, |m|, Join(p));
  }

  /** `flatten` loses no leaf of a tidy tree: a leaf at a path of the tree is
      the value of the path's dot-joined key in the flat form. With
      `FlattenSound` this says the flat form holds exactly the leaves, and
      that null leaves and empty arrays vanish. */
  lemma FlattenComplete(m: Entries, p: seq<string>, v: Value)
    requires TidyEntries(m) && |p| >= 1 && DotFree(p)
    requires At(Arr(m), p) == Some(v) && IsLeaf(v)
    ensures Lookup(Flatten(m), Join(p)) == Some(v)
  {
    var f := Flatten(m);
    FlattenHasKey(m, p, v);
    var w := Lookup(f, Join(p)).value;
    assert f[IndexOf(f, Join(p))] in f;
    FlattenSound(m);
    SplitJoin(p);
  }

  // ---------------------------------------------------------------------
  // The array spread `[...$a, ...$b]`

  /** Spreading the entries `src` into `acc`, whose next free integer index is
      `next`: an integer key is dropped and the value appended under the next
      free index, any other key is assigned as `$acc[$k] = $v` would. Only
      renumbered entries ever hold integer keys, so the next free index is
      never already taken and the assignment of an integer entry is an
      append. */
  function SpreadOnto(acc: Entries, next: nat, src: Entries): (r: (Entries, nat))
    ensures r.1 >= next
  {
    if |src| == 0 then (acc, next)
    else SpreadEntry(SpreadOnto(acc, next, src[..|src| - 1]), src[|src| - 1])
  }

  /** One entry of a spread: an integer key is dropped and the value put
      under the next free index, which then moves on; any other key is
      assigned. */
  function SpreadEntry(prev: (Entries, nat), e: (string, Value)): (r: (Entries, nat))
    ensures r.1 >= prev.1
  {
    if IsIntKey(e.0) then (Put(prev.0, NatStr(prev.1), e.1), prev.1 + 1)
    else (Put(prev.0, e.0, e.1), prev.1)
  }

  /** `[...$a, ...$b]`: a fresh array that takes the entries of `a`, then
      those of `b`. */
  function Spread(a: Entries, b: Entries): Entries
  {
    var first := SpreadOnto([], 0, a);
    SpreadOnto(first.0, first.1, b).0
  }

  /** A key that is not an integer key ends up with the value of its last
      occurrence in `src`, or keeps the value it had in `acc`. */
  lemma {:induction false} SpreadOntoLookup(acc: Entries, next: nat, src: Entries, k: string)
    requires KeysUnique(src) && !IsIntKey(k)
    ensures Lookup(SpreadOnto(acc, next, src).0, k) ==
            if Lookup(src, k).Some? then Lookup(src, k) else Lookup(acc, k)
  {
    if src != [] {
      var init := src[..|src| - 1];
      var e := src[|src| - 1];
      assert src == init + [e];
      SpreadOntoLookup(acc, next, init, k);
      LookupSnoc(init, e.0, e.1, k);
      if IsIntKey(e.0) {
        NatStrIsIntKey(SpreadOnto(acc, next, init).1);
      } else if e.0 == k {
        HasKeyIff(init, k);
      }
    }
  }

  /** In `[...$a, ...$b]` with keys unique on both sides, a key that is not an
      integer key takes its value from `b` when `b` has it and from `a`
      otherwise: the right-hand side wins. */
  lemma SpreadLookup(a: Entries, b: Entries, k: string)
    requires KeysUnique(a) && KeysUnique(b) && !IsIntKey(k)
    ensures Lookup(Spread(a, b), k) ==
            if Lookup(b, k).Some? then Lookup(b, k) else Lookup(a, k)
  {
    var first := SpreadOnto([], 0, a);
    SpreadOntoLookup([], 0, a, k);
    SpreadOntoLookup(first.0, first.1, b, k);
  }

  /** The number of integer keys among `src`: how far spreading `src` moves
      the next free integer index. */
  function IntKeyCount(src: Entries): (n: nat)
    ensures n <= |src|
  {
    if |src| == 0 then 0
    else IntKeyCount(src[..|src| - 1]) + (if IsIntKey(src[|src| - 1].0) then 1 else 0)
  }

  /** Spreading moves the next free index on by one per integer key. */
  lemma {:induction false} SpreadOntoNextIndex(acc: Entries, next: nat, src: Entries)
    ensures SpreadOnto(acc, next, src).1 == next + IntKeyCount(src)
  {
    if |src| > 0 {
      SpreadOntoNextIndex(acc, next, src[..|src| - 1]);
    }
  }

  /** An integer key at position `i` is counted before every later position,
      so no two entries with integer keys are given the same new index. */
  lemma {:induction false} IntKeyCountGrows(src: Entries, i: nat, j: nat)
    requires i < j <= |src| && IsIntKey(src[i].0)
    ensures IntKeyCount(src[..i]) < IntKeyCount(src[..j])
  {
    var s := src[..j];
    assert s[..|s| - 1] == src[..j - 1];
    if j - 1 == i {
      assert s[|s| - 1] == src[i];
    } else {
      IntKeyCountGrows(src, i, j - 1);
    }
  }

  /** Spreading never touches an integer key below the next free index. */
  lemma {:induction false} SpreadOntoKeepsBelow(acc: Entries, next: nat, src: Entries, n: nat)
    requires n < next
    ensures Lookup(SpreadOnto(acc, next, src).0, NatStr(n)) == Lookup(acc, NatStr(n))
  {
    if |src| > 0 {
      SpreadOntoKeepsBelow(acc, next, src[..|src| - 1], n);
      SpreadEntryKeeps(SpreadOnto(acc, next, src[..|src| - 1]), src[|src| - 1], n);
    }
  }

  /** One spread step never touches an integer key below the next free
      index. */
  lemma SpreadEntryKeeps(prev: (Entries, nat), e: (string, Value), n: nat)
    requires n < prev.1
    ensures Lookup(SpreadEntry(prev, e).0, NatStr(n)) == Lookup(prev.0, NatStr(n))
  {
    if IsIntKey(e.0) {
      NatStrInjective(n, prev.1);
    } else {
      NatStrIsIntKey(n);
    }
  }

  /** One spread step on an integer key puts the value under the next free
      index and moves the index on. */
  lemma SpreadEntryIntKey(prev: (Entries, nat), e: (string, Value))
    requires IsIntKey(e.0)
    ensures Lookup(SpreadEntry(prev, e).0, NatStr(prev.1)) == Some(e.1)
    ensures SpreadEntry(prev, e).1 == prev.1 + 1
  {
  }

  /** Spreading `a + b` is spreading `a`, then `b` from where `a` left off. */
  lemma {:induction false} SpreadOntoConcat(acc: Entries, next: nat, a: Entries, b: Entries)
    ensures SpreadOnto(acc, next, a + b) == (var r := SpreadOnto(acc, next, a); SpreadOnto(r.0, r.1, b))
  {
    if |b| > 0 {
      assert (a + b)[..|a + b| - 1] == a + b[..|b| - 1];
      SpreadOntoConcat(acc, next, a, b[..|b| - 1]);
    } else {
      assert a + b == a;
    }
  }

  /** The renumbering rule: the entry at position `i` whose key is an integer
      key ends up under the next free index plus the number of integer keys
      before it, and no later entry moves it. */
  lemma SpreadOntoIntKey(acc: Entries, next: nat, src: Entries, i: nat)
    requires i < |src| && IsIntKey(src[i].0)
    ensures Lookup(SpreadOnto(acc, next, src).0, NatStr(next + IntKeyCount(src[..i]))) == Some(src[i].1)
  {
    var pre := src[..i];
    var e := src[i];
    var post := src[i + 1..];
    assert src == (pre + [e]) + post;
    SpreadOntoConcat(acc, next, pre + [e], post);
    SpreadOntoConcat(acc, next, pre, [e]);
    var r0 := SpreadOnto(acc, next, pre);
    SpreadOntoNextIndex(acc, next, pre);
    SpreadOntoOne(r0.0, r0.1, e);
    SpreadEntryIntKey(r0, e);
    var r1 := SpreadEntry(r0, e);
    SpreadOntoKeepsBelow(r1.0, r1.1, post, r0.1);
  }

  /** The first two indices a spread gives out. */
  lemma NatStrFirstTwo()
    ensures NatStr(0) == "0" && NatStr(1) == "1"
  {
    assert NatStr(0) == ['0'];
    assert NatStr(1) == ['1'];
  }

  /** Spreading a single entry is one spread step. */
  lemma SpreadOntoOne(acc: Entries, next: nat, e: (string, Value))
    ensures SpreadOnto(acc, next, [e]) == SpreadEntry((acc, next), e)
  {
    assert [e][..0] == [];
  }

  /** Spreading `["a"]` into an empty array keeps it as it is. */
  lemma SpreadListsFirst()
    ensures SpreadOnto([], 0, [("0", Str("a"))]) == ([("0", Str("a"))], 1)
  {
    assert IsIntKey("0");
    NatStrFirstTwo();
    SpreadOntoOne([], 0, ("0", Str("a")));
    assert !HasKey([], "0");
    assert Put([], "0", Str("a")) == [] + [("0", Str("a"))] == [("0", Str("a"))];
  }

  /** Spreading `["b"]` after it appends it under the next index, 1. */
  lemma SpreadListsSecond()
    ensures SpreadOnto([("0", Str("a"))], 1, [("0", Str("b"))]) == ([("0", Str("a")), ("1", Str("b"))], 2)
  {
    assert IsIntKey("0");
    NatStrFirstTwo();
    SpreadOntoOne([("0", Str("a"))], 1, ("0", Str("b")));
    assert !HasKey([("0", Str("a"))], "1");
    assert Put([("0", Str("a"))], "1", Str("b")) == [("0", Str("a")), ("1", Str("b"))];
  }

  /** For instance, spreading the list `["a"]` and the list `["b"]` gives
      `["a", "b"]`, not `["b"]`. */
  lemma SpreadListsExample()
    ensures Spread([("0", Str("a"))], [("0", Str("b"))]) == [("0", Str("a")), ("1", Str("b"))]
  {
    SpreadListsFirst();
    SpreadListsSecond();
  }
}
