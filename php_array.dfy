/** PHP values and PHP's ordered arrays, as far as the store uses them.

    A PHP array is an ordered dictionary: iteration follows insertion order,
    assigning to an existing key keeps its position, and assigning to a new key
    appends it. Keys are modelled as strings throughout; PHP turns a decimal
    integer string such as "7" into the integer key 7 on every read and write,
    which is the same key either way, so the string form is faithful wherever
    keys are only compared. The one place where the distinction is visible
    (the array spread) uses `IsIntKey` below. */
module PhpArray {

  datatype Option<T> = None | Some(value: T)

  /** The values the store holds. Floats and objects are not modelled. */
  datatype Value =
    | Null
    | Bool(b: bool)
    | Int(i: int)
    | Str(s: string)
    | Arr(entries: seq<(string, Value)>)

  /** The entries of one PHP array, in iteration order. */
  type Entries = seq<(string, Value)>

  /** Position of the first entry with key `k`, or `|m|` when there is none. */
  function IndexOf(m: Entries, k: string): (i: nat)
    ensures i <= |m|
    ensures i < |m| ==> m[i].0 == k
    ensures forall j :: 0 <= j < i ==> m[j].0 != k
  {
    if m == [] then 0
    else if m[0].0 == k then 0
    else 1 + IndexOf(m[1..], k)
  }

  /** `array_key_exists($k, $m)`. */
  predicate HasKey(m: Entries, k: string)
  {
    IndexOf(m, k) < |m|
  }

  /** A key is present exactly when some entry carries it. */
  lemma HasKeyIff(m: Entries, k: string)
    ensures HasKey(m, k) <==> exists j :: 0 <= j < |m| && m[j].0 == k
  {
  }

  /** A key missing from both halves is missing from their concatenation. */
  lemma NoKeyConcat(a: Entries, b: Entries, k: string)
    requires !HasKey(a, k) && !HasKey(b, k)
    ensures !HasKey(a + b, k)
  {
    HasKeyIff(a, k);
    HasKeyIff(b, k);
    HasKeyIff(a + b, k);
  }

  /** `$m[$k]`, or None when the key is missing. */
  function Lookup(m: Entries, k: string): (r: Option<Value>)
    ensures r.Some? <==> HasKey(m, k)
    ensures r.Some? ==> m[IndexOf(m, k)] == (k, r.value)
  {
    var i := IndexOf(m, k);
    if i < |m| then Some(m[i].1) else None
  }

  /** IndexOf is determined by the first-occurrence property it ensures. */
  lemma IndexOfFirst(m: Entries, k: string, i: nat)
    requires i <= |m|
    requires i < |m| ==> m[i].0 == k
    requires forall j :: 0 <= j < i ==> m[j].0 != k
    ensures IndexOf(m, k) == i
  {
  }

  /** `$m[$k] = $v`: overwrite in place when the key exists, append otherwise. */
  function Put(m: Entries, k: string, v: Value): (r: Entries)
    ensures Lookup(r, k) == Some(v)
    ensures forall k' :: k' != k ==> Lookup(r, k') == Lookup(m, k')
    ensures HasKey(m, k) ==> |r| == |m|
    ensures !HasKey(m, k) ==> r == m + [(k, v)]
  {
    var i := IndexOf(m, k);
    var r := if i < |m| then m[i := (k, v)] else m + [(k, v)];
    PutIndex(m, k, v, r);
    r
  }

  /** Assigning keeps every existing key at its position, and brings in no
      entry but the assigned one. */
  lemma PutKeys(m: Entries, k: string, v: Value)
    ensures forall j :: 0 <= j < |m| ==> Put(m, k, v)[j].0 == m[j].0
    ensures forall e :: e in Put(m, k, v) ==> e == (k, v) || e in m
  {
  }

  lemma PutIndex(m: Entries, k: string, v: Value, r: Entries)
    requires IndexOf(m, k) < |m| ==> r == m[IndexOf(m, k) := (k, v)]
    requires IndexOf(m, k) == |m| ==> r == m + [(k, v)]
    ensures IndexOf(r, k) == IndexOf(m, k) && r[IndexOf(m, k)] == (k, v)
    ensures forall k' :: k' != k ==> IndexOf(r, k') == (if IndexOf(m, k') < |m| then IndexOf(m, k') else |r|)
  {
    PutShape(m, k, v, r);
    IndexOfFirst(r, k, IndexOf(m, k));
    forall k' | k' != k
      ensures IndexOf(r, k') == (if IndexOf(m, k') < |m| then IndexOf(m, k') else |r|)
    {
      SameKeysIndex(m, r, k', k);
    }
  }

  /** The shape of an assignment's result: the keys stay where they were,
      and the assigned entry sits at the first position of its key. */
  lemma PutShape(m: Entries, k: string, v: Value, r: Entries)
    requires IndexOf(m, k) < |m| ==> r == m[IndexOf(m, k) := (k, v)]
    requires IndexOf(m, k) == |m| ==> r == m + [(k, v)]
    ensures |r| == |m| || (|r| == |m| + 1 && r[|m|].0 == k)
    ensures forall j :: 0 <= j < |m| ==> r[j].0 == m[j].0
    ensures IndexOf(m, k) < |r| && r[IndexOf(m, k)] == (k, v)
    ensures forall j :: 0 <= j < IndexOf(m, k) ==> r[j].0 != k
  {
  }

  /** Looking up a key other than `k` gives the same position in `r` as in
      `m` when `r` agrees with `m` on every key but possibly one extra `k`. */
  lemma SameKeysIndex(m: Entries, r: Entries, k': string, k: string)
    requires k' != k
    requires |r| == |m| || (|r| == |m| + 1 && r[|m|].0 == k)
    requires forall j :: 0 <= j < |m| ==> r[j].0 == m[j].0
    ensures IndexOf(r, k') == (if IndexOf(m, k') < |m| then IndexOf(m, k') else |r|)
  {
    var n := IndexOf(m, k');
    if n < |m| {
      IndexOfFirst(r, k', n);
    } else {
      IndexOfFirst(r, k', |r|);
    }
  }

  /** No key occurs twice: every real PHP array has this shape. */
  predicate KeysUnique(m: Entries)
  {
    forall i, j :: 0 <= i < j < |m| ==> m[i].0 != m[j].0
  }

  /** A value every PHP array could be: keys unique at every level. */
  predicate WellFormed(v: Value)
    decreases v
  {
    match v
    case Arr(m) => KeysUnique(m) && forall i :: 0 <= i < |m| ==> WellFormed(m[i].1)
    case _ => true
  }

  /** After an assignment the keys are the old ones and the assigned one. */
  lemma PutHasKey(m: Entries, k: string, v: Value, x: string)
    ensures HasKey(Put(m, k, v), x) <==> x == k || HasKey(m, x)
  {
    var r := Put(m, k, v);
    assert Lookup(r, k).Some?;
    if x != k {
      assert Lookup(r, x) == Lookup(m, x);
    }
  }

  /** Assigning to a key never creates a duplicate. */
  lemma PutKeysUnique(m: Entries, k: string, v: Value)
    requires KeysUnique(m)
    ensures KeysUnique(Put(m, k, v))
  {
  }

  /** Assigning a well-formed value into a well-formed array keeps it well formed. */
  lemma PutWellFormed(m: Entries, k: string, v: Value)
    requires WellFormed(Arr(m)) && WellFormed(v)
    ensures WellFormed(Arr(Put(m, k, v)))
  {
    PutKeysUnique(m, k, v);
  }

  /** Re-assigning the value a key already holds changes nothing. */
  lemma PutSame(m: Entries, k: string, v: Value)
    requires Lookup(m, k) == Some(v)
    ensures Put(m, k, v) == m
  {
  }

  /** A second assignment to the same key wins, and the first leaves no trace. */
  lemma PutPut(m: Entries, k: string, v: Value, w: Value)
    ensures Put(Put(m, k, v), k, w) == Put(m, k, w)
  {
    var i := IndexOf(m, k);
    PutKeys(m, k, v);
    assert IndexOf(Put(m, k, v), k) == i;
  }

  /** Assigning to the key of the last entry, present nowhere else, replaces
      that entry. */
  lemma PutLast(m: Entries, k: string, v: Value, w: Value)
    requires !HasKey(m, k)
    ensures Lookup(m + [(k, v)], k) == Some(v)
    ensures Put(m + [(k, v)], k, w) == m + [(k, w)]
  {
    IndexOfFirst(m + [(k, v)], k, |m|);
  }

  /** Looking a key up after one more entry is appended: the earlier entries
      take precedence, since lookup finds the first occurrence. */
  lemma LookupSnoc(m: Entries, k: string, v: Value, k': string)
    ensures Lookup(m + [(k, v)], k') ==
            if Lookup(m, k').Some? then Lookup(m, k')
            else if k == k' then Some(v) else None
  {
    var r := m + [(k, v)];
    var n := IndexOf(m, k');
    if n < |m| {
      IndexOfFirst(r, k', n);
    } else if k == k' {
      IndexOfFirst(r, k', |m|);
    } else {
      IndexOfFirst(r, k', |r|);
    }
  }

  // ---------------------------------------------------------------------
  // Decimal strings: PHP's `intval` on strings and integer-like keys

  predicate IsDigit(c: char)
  {
    '0' <= c <= '9'
  }

  predicate AllDigits(s: string)
  {
    forall i :: 0 <= i < |s| ==> IsDigit(s[i])
  }

  /** The number written by a string of decimal digits. */
  function DecimalValue(d: string): nat
    requires AllDigits(d)
  {
    if d == [] then 0
    else 10 * DecimalValue(d[..|d| - 1]) + (d[|d| - 1] as int - '0' as int)
  }

  /** The canonical decimal form of `n`, without leading zeros. */
  function NatStr(n: nat): (s: string)
    ensures |s| >= 1 && AllDigits(s)
    ensures s[0] == '0' ==> n == 0
  {
    var d := [(n % 10 + '0' as int) as char];
    if n < 10 then d else NatStr(n / 10) + d
  }

  /** NatStr writes the number it is given. */
  lemma {:induction false} NatStrValue(n: nat)
    ensures DecimalValue(NatStr(n)) == n
  {
    if n >= 10 {
      NatStrValue(n / 10);
      var s := NatStr(n);
      assert s[..|s| - 1] == NatStr(n / 10);
    }
  }

  /** Length of the run of digits at the start of `s`. */
  function DigitRun(s: string): (n: nat)
    ensures n <= |s| && AllDigits(s[..n])
    ensures n < |s| ==> !IsDigit(s[n])
  {
    if s == [] || !IsDigit(s[0]) then 0 else 1 + DigitRun(s[1..])
  }

  predicate IsSpace(c: char)
  {
    c == ' ' || c == '\t' || c == '\n' || c == '\r' || c == '\U{B}' || c == '\U{C}'
  }

  /** `s` without its leading white space. */
  function TrimStart(s: string): (t: string)
    ensures |t| <= |s| && t == s[|s| - |t|..]
    ensures t != [] ==> !IsSpace(t[0])
  {
    if s != [] && IsSpace(s[0]) then TrimStart(s[1..]) else s
  }

  /** `intval($s)` for a string: leading white space, an optional sign, then
      the longest run of decimal digits; anything else reads as 0. */
  function StrToInt(s: string): (r: int)
    ensures r < 0 ==> TrimStart(s) != [] && TrimStart(s)[0] == '-'
  {
    var t := TrimStart(s);
    if t != [] && (t[0] == '-' || t[0] == '+') then
      var u := t[1..];
      var v: int := DecimalValue(u[..DigitRun(u)]);
      if t[0] == '-' then -v else v
    else
      DecimalValue(t[..DigitRun(t)])
  }

  /** intval reads back what NatStr writes, and text that starts with neither
      a digit, a sign nor white space reads as 0. */
  lemma StrToIntNatStr(n: nat)
    ensures StrToInt(NatStr(n)) == n
  {
    var s := NatStr(n);
    assert TrimStart(s) == s;
    assert DigitRun(s) == |s| by {
      DigitRunAll(s);
    }
    assert s[..|s|] == s;
    NatStrValue(n);
  }

  lemma {:induction false} DigitRunAll(s: string)
    requires AllDigits(s)
    ensures DigitRun(s) == |s|
  {
    if s != [] {
      DigitRunAll(s[1..]);
    }
  }

  lemma StrToIntNonNumeric(s: string)
    requires s != [] && !IsDigit(s[0]) && !IsSpace(s[0]) && s[0] != '-' && s[0] != '+'
    ensures StrToInt(s) == 0
  {
    assert DigitRun(s) == 0;
  }

  /** `intval($v)` for the values the store holds. An array converts to 1 when
      it has entries and to 0 when it is empty. */
  function IntVal(v: Value): int
  {
    match v
    case Null => 0
    case Bool(b) => if b then 1 else 0
    case Int(i) => i
    case Str(s) => StrToInt(s)
    case Arr(m) => if |m| == 0 then 0 else 1
  }

  /** A string key that PHP stores as an integer key: "0", or an optional
      minus sign followed by digits that do not start with 0. */
  predicate IsIntKey(s: string)
  {
    || s == "0"
    || (|s| >= 1 && '1' <= s[0] <= '9' && AllDigits(s))
    || (|s| >= 2 && s[0] == '-' && '1' <= s[1] <= '9' && AllDigits(s[1..]))
  }

  /** Every canonical decimal string is an integer key. */
  lemma NatStrIsIntKey(n: nat)
    ensures IsIntKey(NatStr(n))
  {
  }

  /** Different numbers get different decimal keys. */
  lemma NatStrInjective(a: nat, b: nat)
    requires a != b
    ensures NatStr(a) != NatStr(b)
  {
    StrToIntNatStr(a);
    StrToIntNatStr(b);
  }
}
