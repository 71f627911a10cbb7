# Data: a dot-path store over nested PHP arrays

This project models `JDZ\Utils\Data`. That class keeps one nested PHP array and
reads and writes it through dot-separated paths: `'db.host'` names the entry
`host` of the array stored under `db`. The model has five modules:

- `Paths`: `explode('.', ...)` as `Split`, and its inverse `Join`.
- `PhpArray`: the values the store holds and PHP's ordered arrays. It covers
  `$m[$k] = $v` (`Put`), which overwrites in place or appends, and `$m[$k]`
  (`Lookup`). It also covers the parts of `intval` the getters use, and the
  integer keys that the array spread renumbers.
- `Walk`: the write walk of `set` (`SetIn`) and the read walk of `fetchNode`
  (`Fetch`). Both are specified against a plain reference lookup `At` along a
  path of keys.
- `FlatForm`: `flatten`, `unflatten`, and the spread `[...$a, ...$b]` that
  merging `sets` uses. For every tree with unique, dot-free keys, nulls and
  empty arrays included, the flat form holds exactly the leaves of the tree,
  each under its dot-joined path (`FlattenSound`, `FlattenComplete`). The
  round trip `unflatten(flatten(T)) == T` is proved for every such tree
  without nulls or empty arrays.
- `Store`: class `Data`. Its field `data` is the stored tree. Its methods carry
  the loops of the PHP code and are proved equal to the functions of the
  modules above.

`Valid()` says that every array in the tree has unique keys, as every PHP array
does. `set`, `def` and both modes of `sets` keep it.

Three behaviours of the code are stated as they are and proved, not corrected:

- `get`, `has` and the typed getters cannot tell a stored `false` or `null` from
  a missing path. `fetchNode` returns `false` for "not found".
- `erase` unsets a local copy and leaves the store unchanged
  (`Store.Data.Erase`).
- Merging `sets` renumbers integer flat keys instead of overwriting them. Each
  such entry ends up under the starting index plus the number of integer
  keys before it (`FlatForm.SpreadOntoIntKey`), and later entries never
  touch an index already given out (`FlatForm.SpreadOntoKeepsBelow`). Every
  other flat key of the input wins (`FlatForm.SpreadLookup`).

## Model

| member | source | states |
|---|---|---|
| Paths.Split | src/Data.php:41 | `explode('.')` yields at least one segment, and no segment contains a dot |
| Paths.JoinSplit | src/Data.php:183 | gluing the segments of a split back with dots gives the original string |
| Paths.SplitJoin | src/Data.php:157 | splitting a dot-joined sequence of dot-free segments gives back those segments |
| Paths.SplitDot | src/Data.php:157 | the segments of `a.b` are those of `a` followed by those of `b`, which is what lets a flat key be taken apart level by level |
| PhpArray.Lookup | src/Data.php:131-132 | `$m[$k]` is present exactly when the key is, and it is the value of the first entry with that key |
| PhpArray.Put | src/Data.php:46 | after `$m[$k] = $v` the key reads `$v` and every other key reads as before; an existing key keeps the length, and a new key is appended at the end |
| PhpArray.PutKeys | src/Data.php:161 | assignment keeps every existing key at its position and brings in no entry other than `(k, v)` |
| PhpArray.PutHasKey | src/Data.php:157 | after an assignment the keys are exactly the old ones and the assigned one: no key is ever lost |
| PhpArray.PutKeysUnique | src/Data.php:161 | assignment keeps the keys of an array unique |
| PhpArray.PutWellFormed | src/Data.php:50 | assigning a well-formed value keeps a tree of arrays with unique keys well formed |
| PhpArray.PutSame | src/Data.php:45-46 | writing back the value a key already holds changes nothing |
| PhpArray.PutPut | src/Data.php:50 | of two assignments to the same key the second wins and the first leaves no trace |
| PhpArray.PutLast | src/Data.php:46 | reassigning a key that was just appended replaces only that last entry |
| PhpArray.LookupSnoc | src/Data.php:161 | after appending `(k, v)` the key `k` reads the appended value, or the first earlier one if `k` was already there, and other keys read as before |
| PhpArray.IsIntKey | src/Data.php:26 | the keys PHP stores as integers: `"0"`, or decimal digits without a leading zero, possibly after a minus sign |
| PhpArray.StrToInt | src/Data.php:79 | `intval` of a string: leading white space, an optional sign, then the longest run of decimal digits; the result is negative only when a minus sign leads |
| PhpArray.IntVal | src/Data.php:68 | `intval` of any stored value: null is 0, booleans are 0 or 1, integers are themselves, strings go through `StrToInt`, and an array is 1 when it has entries and 0 otherwise |
| PhpArray.StrToIntNatStr | src/Data.php:79 | `intval` reads back the decimal text of every natural number |
| PhpArray.StrToIntNonNumeric | src/Data.php:79 | `intval` of text that starts with neither a digit, a sign nor white space is 0 |
| PhpArray.NatStrIsIntKey | src/Data.php:26 | the decimal text of a natural number is a key that PHP stores as an integer |
| PhpArray.NatStrInjective | src/Data.php:26 | different indices get different decimal keys |
| Walk.Fetch | src/Data.php:116-136 | `fetchNode` yields exactly what the path leads to, with a missing path and a null both reported as `false`; it never yields null, and it yields `false` exactly when the path is not readable |
| Walk.SetIn | src/Data.php:38-52 | `set(p, v)` on a tree: each level of the path holds an array afterwards, reused when the key already holds one and a new empty one otherwise, and `v` is assigned under the last key |
| Walk.ChildOrEmpty | src/Data.php:45-46 | when the key holds an array the walk descends into that array, and in every other case (missing, null, scalar) into an empty one |
| Walk.SetAtBelow | src/Data.php:38-52 | after `set(p, v)` the path `p` and every path below it read what `v` holds there |
| Walk.SetAtDiverge | src/Data.php:38-52 | after `set(p, v)` every path that branches off `p` reads what it read before |
| Walk.SetAtPrefix | src/Data.php:44-49 | after `set(p, v)` every proper prefix of `p` leads to an array: missing, null and scalar levels are replaced by arrays |
| Walk.SetFetch | src/Data.php:38-52 | after `set(p, v)`, `fetchNode(p)` yields `v`, or `false` when `v` is null or false |
| Walk.SetInSame | src/Data.php:38-52 | writing the value a path already holds leaves the tree unchanged |
| Walk.SetInTwice | src/Data.php:38-52 | two `set`s on the same path are the second one alone |
| Walk.SetInWellFormed | src/Data.php:38-52 | `set` keeps the tree well formed |
| Walk.SetInTopKeys | src/Data.php:44-46 | `set` keeps the old top-level keys in order and appends the first segment when it is new |
| Walk.AtWellFormed | src/Data.php:93 | every value found inside a well-formed tree is well formed |
| FlatForm.Flatten | src/Data.php:146-166 | the result of `flatten` has unique keys and holds only leaves: no null and no array |
| FlatForm.FlattenPrefix | src/Data.php:153-163 | the outer loop of `flatten` over the first `n` entries |
| FlatForm.FlattenInto | src/Data.php:154-162 | one pass of the outer loop: an array's flat form is added under `key.`, a scalar is assigned, a null is skipped |
| FlatForm.PutPrefixed | src/Data.php:155-159 | the inner loop over the first `j` entries of a child's flat form: each non-null one is assigned under `key.k` |
| FlatForm.FlattenPrefixFlat | src/Data.php:153-163 | the outer loop of `flatten` only ever holds a flat form |
| FlatForm.FlattenIntoFlat | src/Data.php:154-162 | one pass of the outer loop keeps the result flat |
| FlatForm.PutPrefixedFlat | src/Data.php:155-159 | the inner loop keeps the result flat |
| FlatForm.PutPrefixedNext | src/Data.php:155-159 | one step of the inner loop puts a non-null entry under `key.k` and skips a null one |
| FlatForm.PutPrefixedHeads | src/Data.php:157 | every key the inner loop adds starts with the segment of the outer key |
| FlatForm.FlattenPrefixHeads | src/Data.php:153-163 | every flat key starts with the first segment of the top-level key it came from |
| FlatForm.PutPrefixedFresh | src/Data.php:155-159 | under an outer key that no earlier flat key starts with, the inner loop appends the prefixed entries in order and overwrites nothing |
| FlatForm.FlattenIntoFresh | src/Data.php:154-162 | in that case one pass of the outer loop appends that entry's contribution |
| FlatForm.FlattenPrefixStep | src/Data.php:153-163 | for a tree without nulls, empty arrays or dotted keys, each top-level entry's flat form is appended after those of the entries before it |
| FlatForm.BuildOnto | src/Data.php:182-194 | the loop of `unflatten`: each flat entry in turn is written with the walk of `set` at the path its key splits into |
| FlatForm.Unflatten | src/Data.php:176-197 | `unflatten` yields a well-formed tree whose top-level keys contain no dot |
| FlatForm.BuildOntoNext | src/Data.php:183-194 | each pass of unflatten's loop writes one flat entry at the path its key splits into |
| FlatForm.BuildOntoWellFormed | src/Data.php:183-194 | replaying well-formed entries keeps the tree well formed |
| FlatForm.BuildOntoTopKeys | src/Data.php:183-194 | replaying flat entries into an array whose top-level keys hold no dot keeps them dot-free, since only first segments of split keys are added |
| FlatForm.BuildOntoConcat | src/Data.php:183-194 | replaying `a + b` is replaying `a` and then `b` |
| FlatForm.BuildOntoPrefixed | src/Data.php:186-193 | replaying a child's flat form under a fresh key `k.` rebuilds the child under `k` |
| FlatForm.BuildFlattenPrefix | src/Data.php:146-197 | rebuilding the flat form of the first `n` entries of such a tree gives back exactly those entries |
| FlatForm.PutPrefixedFrom | src/Data.php:155-159 | the inner loop brings in no entry but the child's flat entries under `key.` |
| FlatForm.FlattenPrefixSound | src/Data.php:153-163 | for a tree with unique, dot-free keys at every level (nulls and empty arrays allowed), every entry the outer loop has produced is a leaf of the tree found at the path its key splits into |
| FlatForm.FlattenSound | src/Data.php:146-166 | every entry of `flatten` of such a tree is a leaf of the tree at the path its key splits into |
| FlatForm.PutPrefixedKeeps | src/Data.php:155-159 | the inner loop never loses a key |
| FlatForm.PutPrefixedAdds | src/Data.php:156-157 | the inner loop puts `key.k` for every non-null child entry `k` |
| FlatForm.FlattenPrefixKeeps | src/Data.php:153-163 | the outer loop never loses a key |
| FlatForm.FlattenHasKey | src/Data.php:146-166 | every leaf of any tree, at any depth, gives its dot-joined path a key in the flat form |
| FlatForm.FlattenComplete | src/Data.php:146-166 | for a tree with unique, dot-free keys, every leaf at a path is the value of the dot-joined path in `flatten`; with `FlattenSound`, the flat form holds exactly the leaves, and null leaves and empty arrays vanish |
| FlatForm.FlattenIdempotent | src/Data.php:146-166 | flattening a flat form changes nothing |
| FlatForm.RoundTrip | src/Data.php:146-197 | `unflatten(flatten(T)) == T` for every tree without nulls, empty arrays or dotted keys |
| FlatForm.Spread | src/Data.php:26 | `[...$a, ...$b]`: the entries of `$a` and then of `$b` are assigned in order, except that an integer key is dropped and its value put under the next free integer index |
| FlatForm.SpreadOnto | src/Data.php:26 | spreading never lowers the next free integer index |
| FlatForm.SpreadEntry | src/Data.php:26 | one entry of a spread never lowers the next free integer index |
| FlatForm.SpreadEntryIntKey | src/Data.php:26 | an entry with an integer key is put under the next free index, which then goes up by one |
| FlatForm.SpreadOntoNextIndex | src/Data.php:26 | after a spread the next free index has moved on by exactly the number of integer keys spread |
| FlatForm.IntKeyCountGrows | src/Data.php:26 | an entry with an integer key is counted before every later position, so no two such entries get the same index |
| FlatForm.SpreadEntryKeeps | src/Data.php:26 | one entry of a spread never touches an integer key below the next free index |
| FlatForm.SpreadOntoConcat | src/Data.php:26 | spreading `a + b` is spreading `a`, then `b` from where `a` left off |
| FlatForm.SpreadOntoIntKey | src/Data.php:26 | the renumbering rule: the `i`-th entry, when its key is an integer key, ends up under the starting index plus the number of integer keys before it |
| FlatForm.SpreadOntoKeepsBelow | src/Data.php:26 | a whole spread never touches an integer key below the next free index it started from, so no value put under an earlier index is lost |
| FlatForm.SpreadOntoLookup | src/Data.php:26 | a key that is not an integer key takes its value from the spread side when it is there and keeps its old value otherwise |
| FlatForm.SpreadLookup | src/Data.php:26 | in `[...$a, ...$b]` such a key takes its value from `$b` when `$b` has it and from `$a` otherwise |
| FlatForm.SpreadListsExample | src/Data.php:26 | integer keys are renumbered, not matched: `[...["a"], ...["b"]]` is `["a", "b"]` |
| Store.BuildOntoTop | src/Data.php:30-33 | replaying entries with dot-free keys gives each of those keys its entry's value and leaves every other top-level key alone |
| Store.Data.constructor | src/Data.php:19 | a new store is empty and valid |
| Store.Data.FetchNode | src/Data.php:116-136 | the loop of `fetchNode` computes `Fetch` of the tree and the split path |
| Store.Data.Get | src/Data.php:54-60 | a readable path yields its value; any other path yields the default |
| Store.Data.Has | src/Data.php:98-101 | true exactly when the path is readable, that is when `get` with a null default does not fall back |
| Store.Data.GetBool | src/Data.php:62-69 | the default for an unreadable path; otherwise true exactly for `true` or a value whose `intval` is 1 |
| Store.Data.GetInt | src/Data.php:71-80 | the default for an unreadable path; otherwise `intval` of the value found |
| Store.Data.GetArray | src/Data.php:82-89 | the default for an unreadable path; an array found as it is; any other value wrapped as `[0 => value]` |
| Store.Data.All | src/Data.php:111-114 | every path finds in the tree returned what it finds in the store, so the readable paths are exactly those `has` finds |
| Store.Data.Assign | src/Data.php:40-50 | the descend-and-rebuild walk computes `SetIn`, the tree after writing the value at the path |
| Store.Data.Set | src/Data.php:38-52 | the tree becomes `SetIn`; the path then reads the value (or the default when it is null or false); diverging paths read as before; validity is kept |
| Store.Data.Def | src/Data.php:91-96 | a readable path is left untouched; any other path gets the default written; a default other than null or false is readable afterwards; validity is kept |
| Store.Data.DefTwice | src/Data.php:91-96 | `def` twice with the same default leaves the store as one `def` does |
| Store.Data.Erase | src/Data.php:103-109 | the store is unchanged, and `has` answers as before |
| Store.Data.Flatten | src/Data.php:146-166 | the two loops of `flatten` compute `FlatForm.Flatten` |
| Store.Data.FlattenEntry | src/Data.php:154-162 | one pass of the outer loop computes `FlattenInto` |
| Store.Data.PutUnder | src/Data.php:155-159 | the inner loop computes `PutPrefixed` over the whole flattened child |
| Store.Data.Unflatten | src/Data.php:176-197 | the loops of `unflatten` compute `FlatForm.Unflatten` |
| Store.Data.Sets | src/Data.php:21-36 | merging: the tree is the unflattened spread of the two flat forms, and it is valid; replacing: every top-level key of the unflattened input takes that key's value, every other key keeps its value, and validity is kept |

## Left out

- Floats, objects and resources are not among the values modelled. Neither is
  PHP's conversion of values such as `1.5` or `true` into array keys.
- PhpArray.IntVal: `intval` on a string skips leading white space, reads an
  optional sign and the decimal digits that follow, and ignores the rest, so
  `"0x1A"` is 0 and `"012"` is 12 as in PHP. It leaves out 64-bit saturation
  and exponents (`"1e3"` is read as 1, not 1000). Integers are unbounded.
- PhpArray.IsIntKey: does not bound integer keys to PHP's 64-bit range. A
  longer digit string stays a string key in PHP.
- The `null` default of `flatten` and `unflatten`, which stands for
  `$this->data`, is not modelled. `sets` passes its arrays explicitly.
- PHP references (`&$this->data`) are modelled by value. `Assign` keeps the
  arrays it passes through and rebuilds them upward, with the same result.
  Aliasing between references is not modelled.
- The fluent `return $this` of `set`, `def`, `erase` and `sets` is not modelled.
  The methods change the store and return nothing.
- Default parameter values (`get(..., null)`, `getBool(..., false)`,
  `getInt(..., 0)`, `getArray(..., [])`, `def(..., '')`, `sets(..., true)`)
  are explicit arguments.
- FlatForm.Spread: the renumbering rule is proved for a spread from any
  start (`SpreadOntoIntKey`), but its two corollaries on `Spread(a, b)`
  itself are not stated: the integer-keyed entry at position `i` of `$a`
  ends up under the number of integer keys of `$a` before it, and that of
  `$b` under the count of `$a`'s integer keys plus those of `$b` before it.
  Both follow from `SpreadOntoIntKey`, `SpreadOntoNextIndex`,
  `IntKeyCountGrows` and `SpreadOntoKeepsBelow` applied to the two halves,
  since `Spread` is `SpreadOntoConcat`'s composition of the two.
- Store.Data.Sets: the merging case is stated through `Spread`, `Flatten` and
  `Unflatten`. Its effect on single keys is proved at the level of flat keys
  (`FlatForm.SpreadLookup`), not for paths of the resulting tree.
- `Valid()` (unique keys at every level) holds for every real PHP array. Some
  lemmas take it, or the tree shape needed for the round trip, as a
  precondition.
- The examples and tests that print or compare values are I/O and are not
  modelled.
