/** The store itself: class `Data`, which keeps one nested PHP array and
    reads and writes it through dot-separated paths (`'db.host'` names the
    entry `host` of the array under `db`). */
module Store {
  import opened PhpArray
  import opened Paths
  import opened Walk
  import opened FlatForm

  /** Replaying entries whose keys hold no dot sets each of them as a
      top-level key: every key the entries carry takes the entry's value, and
      every other key keeps the value it had. */
  lemma {:induction false} BuildOntoTop(acc: Entries, u: Entries, k: string)
    requires KeysUnique(u) && DotFreeKeys(u)
    ensures Lookup(BuildOnto(acc, u), k) ==
            if Lookup(u, k).Some? then Lookup(u, k) else Lookup(acc, k)
  {
    if u != [] {
      var init := u[..|u| - 1];
      var e := u[|u| - 1];
      assert u == init + [e];
      BuildOntoTop(acc, init, k);
      SplitNoDot(e.0);
      LookupSnoc(init, e.0, e.1, k);
      if e.0 == k {
        HasKeyIff(init, k);
      }
    }
  }

  class Data {
    /** The stored tree. */
    var data: Entries

    /** Every PHP array has unique keys at every level, so every store the
        source can build is valid. No operation needs it: the methods state
        that they keep it (given a well-formed value to write), and the
        lemmas that need unique keys take it as a precondition. */
    predicate Valid()
      reads this
    {
      WellFormed(Arr(data))
    }

    /** A new store is empty. */
    constructor()
      ensures data == [] && Valid()
    {
      data := [];
    }

    // -------------------------------------------------------------------
    // Reading

    /** `fetchNode`: walk all keys of the path but the last, giving up with
        `false` as soon as one is missing or does not hold an array, then
        return the value under the last key when it is set, `false`
        otherwise. */
    method FetchNode(path: string) returns (r: Value)
      ensures r == Fetch(data, Split(path))
    {
      var segs := Split(path);
      var node := data;
      var i := 0;
      while i < |segs| - 1
        invariant 0 <= i <= |segs| - 1
        invariant Fetch(node, segs[i..]) == Fetch(data, segs)
      {
        var x := Lookup(node, segs[i]);
        assert segs[i..][0] == segs[i] && segs[i..][1..] == segs[i + 1..];
        if !(x.Some? && x.value.Arr?) {
          return Bool(false);
        }
        node := x.value.entries;
        i := i + 1;
      }
      var x := Lookup(node, segs[i]);
      assert segs[i..] == [segs[i]];
      if x.Some? && x.value != Null {
        r := x.value;
      } else {
        r := Bool(false);
      }
    }

    /** `get`: the value at the path, or `default` when `fetchNode` reports
        nothing, which it does for a missing path, a null and a stored
        `false` alike. */
    function Get(path: string, default: Value): (r: Value)
      reads this
      ensures Readable(At(Arr(data), Split(path))) ==> r == At(Arr(data), Split(path)).value
      ensures !Readable(At(Arr(data), Split(path))) ==> r == default
    {
      var node := Fetch(data, Split(path));
      if node != Bool(false) then node else default
    }

    /** `has`: whether `get` would find a value rather than fall back. */
    function Has(path: string): (r: bool)
      reads this
      ensures r <==> Readable(At(Arr(data), Split(path)))
      ensures r <==> Get(path, Null) != Null
    {
      Fetch(data, Split(path)) != Bool(false)
    }

    /** `getBool`: `default` when `get` finds nothing; otherwise true exactly
        for `true` and for values whose `intval` is 1 (such as `1`, `"1"`,
        `" 1abc"` or a non-empty array). */
    function GetBool(path: string, default: bool): (r: bool)
      reads this
      ensures !Has(path) ==> r == default
      ensures Has(path) ==> (r <==> var x := Get(path, Null); x == Bool(true) || IntVal(x) == 1)
    {
      var result := Get(path, Null);
      if result == Null then default else result == Bool(true) || IntVal(result) == 1
    }

    /** `getInt`: `default` when `get` finds nothing; otherwise `intval` of
        the value found. */
    function GetInt(path: string, default: int): (r: int)
      reads this
      ensures !Has(path) ==> r == default
      ensures Has(path) ==> r == IntVal(At(Arr(data), Split(path)).value)
    {
      var result := Get(path, Null);
      if result == Null then default else IntVal(result)
    }

    /** `getArray`: `default` when `get` finds nothing; an array found is
        returned as it is, and any other value is wrapped as `[0 => value]`. */
    function GetArray(path: string, default: Entries): (r: Entries)
      reads this
      ensures !Has(path) ==> r == default
      ensures Has(path) && At(Arr(data), Split(path)).value.Arr? ==>
                r == At(Arr(data), Split(path)).value.entries
      ensures Has(path) && !At(Arr(data), Split(path)).value.Arr? ==>
                r == [("0", At(Arr(data), Split(path)).value)]
    {
      var result := Get(path, Null);
      if result == Null then default
      else if result.Arr? then result.entries
      else [("0", result)]
    }

    /** `all`: the whole stored tree. Every path finds in it what it finds in
        the store, null leaves, `false` and empty arrays included, so every
        path `has` sees is a readable path of the result. */
    function All(): (r: Entries)
      reads this
      ensures forall p :: At(Arr(r), p) == At(Arr(data), p)
      ensures forall path :: Has(path) <==> Readable(At(Arr(r), Split(path)))
    {
      data
    }

    // -------------------------------------------------------------------
    // Writing

    /** The walk of `set` and `unflatten`: descend along `segs`, replacing
        every missing or non-array step by an empty array, then write `value`
        at the last key. PHP does this through a reference into the tree;
        here the arrays met on the way down are kept on a stack and rebuilt
        on the way back up, which has the same effect. */
    static method Assign(m: Entries, segs: seq<string>, value: Value) returns (r: Entries)
      requires |segs| >= 1
      ensures r == SetIn(m, segs, value)
    {
      var stack := [m];
      var i := 0;
      while i < |segs| - 1
        invariant 0 <= i <= |segs| - 1
        invariant |stack| == i + 1 && stack[0] == m
        invariant forall j :: 0 <= j < i ==> stack[j + 1] == ChildOrEmpty(stack[j], segs[j])
      {
        stack := stack + [ChildOrEmpty(stack[i], segs[i])];
        i := i + 1;
      }
      r := Put(stack[i], segs[i], value);
      assert segs[i..] == [segs[i]];
      while i > 0
        invariant 0 <= i <= |segs| - 1
        invariant r == SetIn(stack[i], segs[i..], value)
      {
        i := i - 1;
        assert segs[i..][0] == segs[i] && segs[i..][1..] == segs[i + 1..];
        r := Put(stack[i], segs[i], Arr(r));
      }
      assert segs[0..] == segs;
    }

    /** `set`: write `value` at the path. The path then reads back `value`
        (unless it is null or false, which `get` cannot tell from a missing
        path), and every path that branches off it reads what it read before. */
    method Set(path: string, value: Value)
      modifies this
      ensures data == SetIn(old(data), Split(path), value)
      ensures forall x :: Get(path, x) == if value != Null && value != Bool(false) then value else x
      ensures forall q, x :: Diverge(Split(path), Split(q)) ==> Get(q, x) == old(Get(q, x))
      ensures old(Valid()) && WellFormed(value) ==> Valid()
    {
      var m := data;
      data := Assign(data, Split(path), value);
      SetAtBelow(m, Split(path), value, []);
      assert Split(path) + [] == Split(path);
      forall q | Diverge(Split(path), Split(q))
        ensures At(Arr(data), Split(q)) == At(Arr(m), Split(q))
      {
        SetAtDiverge(m, Split(path), value, Split(q));
      }
      if WellFormed(Arr(m)) && WellFormed(value) {
        SetInWellFormed(m, Split(path), value);
      }
    }

    /** `def`: make sure the path holds a value; when `get` finds one it is
        written back (changing nothing), otherwise `default` is written. */
    method Def(path: string, default: Value)
      modifies this
      ensures data == SetIn(old(data), Split(path), old(Get(path, default)))
      ensures old(Has(path)) ==> data == old(data)
      ensures !old(Has(path)) ==> data == SetIn(old(data), Split(path), default)
      ensures default != Null && default != Bool(false) ==> Has(path)
      ensures old(Valid()) && WellFormed(default) ==> Valid()
    {
      var m := data;
      var value := Get(path, default);
      if Has(path) {
        SetInSame(m, Split(path), value);
      }
      if WellFormed(Arr(m)) && WellFormed(default) && Has(path) {
        AtWellFormed(Arr(m), Split(path));
      }
      Set(path, value);
    }

    /** `def` is idempotent: a second call with the same default leaves the
        store as the first call left it. */
    method DefTwice(path: string, default: Value)
      modifies this
      ensures data == SetIn(old(data), Split(path), old(Get(path, default)))
    {
      var p := Split(path);
      var g := Get(path, default);
      Def(path, default);
      SetFetch(old(data), p, g);
      assert Get(path, default) == g;
      Def(path, default);
      SetInTwice(old(data), p, g, g);
    }

    /** `erase`: fetches the value at the path into a local variable and
        unsets that variable, so the store is left as it was; in particular
        `has` still finds the path afterwards. */
    method Erase(path: string)
      ensures data == old(data)
      ensures Has(path) == old(Has(path))
    {
      var node := FetchNode(path);
    }

    /** `flatten`: the flat form of a tree, built by the two loops of the
        source, the inner one over the flat form of a child array. */
    static method Flatten(m: Entries) returns (f: Entries)
      ensures f == FlatForm.Flatten(m)
      decreases Arr(m), 0
    {
      f := [];
      var i := 0;
      while i < |m|
        invariant 0 <= i <= |m|
        invariant f == FlattenPrefix(m, i)
      {
        f := FlattenEntry(f, m[i].0, m[i].1);
        i := i + 1;
      }
    }

    /** One pass of flatten's outer loop: the entry `k => v` is added to the
        flat form `acc`. */
    static method FlattenEntry(acc: Entries, k: string, v: Value) returns (f: Entries)
      ensures f == FlattenInto(acc, k, v)
      decreases v, 1
    {
      if v.Arr? {
        var sub := Flatten(v.entries);
        f := PutUnder(acc, k, sub);
      } else if v != Null {
        f := Put(acc, k, v);
      } else {
        f := acc;
      }
    }

    /** Flatten's inner loop: every non-null entry of the flattened child
        `sub` is put under `k.` followed by its own key. */
    static method PutUnder(acc: Entries, k: string, sub: Entries) returns (f: Entries)
      ensures f == PutPrefixed(acc, k, sub, |sub|)
    {
      f := acc;
      var j := 0;
      while j < |sub|
        invariant 0 <= j <= |sub|
        invariant f == PutPrefixed(acc, k, sub, j)
      {
        var key := k + "." + sub[j].0;
        var v := sub[j].1;
        if v != Null {
          f := Put(f, key, v);
        }
        PutPrefixedNext(acc, k, sub, j, key, v, f);
        j := j + 1;
      }
    }

    /** `unflatten`: flatten the input, then replay every flat entry into an
        empty array with the walk of `set`. */
    static method Unflatten(m: Entries) returns (u: Entries)
      ensures u == FlatForm.Unflatten(m)
    {
      var f := Flatten(m);
      u := [];
      var i := 0;
      while i < |f|
        invariant 0 <= i <= |f|
        invariant u == BuildOnto([], f[..i])
      {
        BuildOntoNext([], f, i);
        u := Assign(u, Split(f[i].0), f[i].1);
        i := i + 1;
      }
      assert f[..|f|] == f;
    }

    /** `sets`. With `merge`, the flat forms of the store and of `input` are
        spread together (`input` wins on every shared flat key that is not an
        integer key) and the result is unflattened into a new tree. Without
        it, each top-level entry of the unflattened input is `set` in turn,
        which replaces that top-level key wholesale and leaves the others
        alone. */
    method Sets(input: Entries, merge: bool)
      modifies this
      ensures merge ==> data == FlatForm.Unflatten(Spread(FlatForm.Flatten(old(data)), FlatForm.Flatten(input)))
      ensures merge ==> Valid()
      ensures !merge ==> data == BuildOnto(old(data), FlatForm.Unflatten(input))
      ensures !merge ==> forall k :: (Lookup(data, k) ==
                if Lookup(FlatForm.Unflatten(input), k).Some? then Lookup(FlatForm.Unflatten(input), k)
                else Lookup(old(data), k))
      ensures !merge && old(Valid()) ==> Valid()
    {
      if merge {
        var current := Flatten(data);
        var flat := Flatten(input);
        data := Unflatten(Spread(current, flat));
        return;
      }
      var u := Unflatten(input);
      var i := 0;
      while i < |u|
        invariant 0 <= i <= |u|
        invariant data == BuildOnto(old(data), u[..i])
      {
        BuildOntoNext(old(data), u, i);
        Set(u[i].0, u[i].1);
        i := i + 1;
      }
      assert u[..|u|] == u;
      forall k
        ensures Lookup(data, k) == if Lookup(u, k).Some? then Lookup(u, k) else Lookup(old(data), k)
      {
        BuildOntoTop(old(data), u, k);
      }
      if old(Valid()) {
        BuildOntoWellFormed(old(data), u);
      }
    }
  }
}
