/** The small vocabulary every other module relies on: an option type, the
    Python string methods the source calls (`str.strip`, `str.upper`,
    `str.lower`, `str.replace`, `in`), the space-only trims of SQL Server
    (`LTRIM`, `RTRIM`, `TRIM`) and two sequence helpers. Case mapping covers
    ASCII and the Latin-1 letters, the alphabet the source's data is written in. */
module Base {

  datatype Option<T> = None | Some(value: T)

  // ---------------------------------------------------------------------
  // Character classes
  // ---------------------------------------------------------------------

  /** The characters Python's `str.isspace` accepts, which `str.strip()` and
      `str.split()` remove when called without arguments. */
  predicate IsSpace(c: char)
  {
    c == ' ' || ('\t' <= c <= '\r') || ('\U{1c}' <= c <= '\U{1f}') || c == '\U{85}' || c == '\U{a0}'
    || c == '\U{1680}' || ('\U{2000}' <= c <= '\U{200a}') || c == '\U{2028}' || c == '\U{2029}'
    || c == '\U{202f}' || c == '\U{205f}' || c == '\U{3000}'
  }

  /** The only character SQL Server's LTRIM, RTRIM and TRIM remove. */
  predicate IsBlank(c: char)
  {
    c == ' '
  }

  predicate IsLowerLetter(c: char)
  {
    ('a' <= c <= 'z') || ('\U{e0}' <= c <= '\U{fe}' && c != '\U{f7}')
  }

  predicate IsUpperLetter(c: char)
  {
    ('A' <= c <= 'Z') || ('\U{c0}' <= c <= '\U{de}' && c != '\U{d7}')
  }

  function UpperChar(c: char): (u: char)
    ensures !IsLowerLetter(u)
    ensures IsSpace(u) == IsSpace(c) && IsBlank(u) == IsBlank(c)
  {
    if IsLowerLetter(c) then (c as int - 32) as char else c
  }

  function LowerChar(c: char): (l: char)
    ensures !IsUpperLetter(l)
    ensures IsSpace(l) == IsSpace(c) && IsBlank(l) == IsBlank(c)
  {
    if IsUpperLetter(c) then (c as int + 32) as char else c
  }

  // ---------------------------------------------------------------------
  // Case mapping
  // ---------------------------------------------------------------------

  /** `s.upper()` (and SQL `UPPER`). */
  function Upper(s: string): (r: string)
    ensures |r| == |s|
    ensures forall i :: 0 <= i < |s| ==> r[i] == UpperChar(s[i])
  {
    seq(|s|, i requires 0 <= i < |s| => UpperChar(s[i]))
  }

  /** `s.lower()`. */
  function Lower(s: string): (r: string)
    ensures |r| == |s|
    ensures forall i :: 0 <= i < |s| ==> r[i] == LowerChar(s[i])
  {
    seq(|s|, i requires 0 <= i < |s| => LowerChar(s[i]))
  }

  lemma UpperIdempotent(s: string)
    ensures Upper(Upper(s)) == Upper(s)
  {
    assert forall i :: 0 <= i < |s| ==> UpperChar(UpperChar(s[i])) == UpperChar(s[i]);
  }

  // ---------------------------------------------------------------------
  // Trimming
  // ---------------------------------------------------------------------

  /** Removes the leading characters that satisfy `drop`. */
  function TrimStart(s: string, drop: char -> bool): (r: string)
    ensures |r| <= |s| && r == s[|s| - |r|..]
    ensures forall i :: 0 <= i < |s| - |r| ==> drop(s[i])
    ensures r == [] || !drop(r[0])
    decreases |s|
  {
    if s != [] && drop(s[0]) then TrimStart(s[1..], drop) else s
  }

  /** Removes the trailing characters that satisfy `drop`. */
  function TrimEnd(s: string, drop: char -> bool): (r: string)
    ensures |r| <= |s| && r == s[..|r|]
    ensures forall i :: |r| <= i < |s| ==> drop(s[i])
    ensures r == [] || !drop(r[|r| - 1])
    decreases |s|
  {
    if s != [] && drop(s[|s| - 1]) then TrimEnd(s[..|s| - 1], drop) else s
  }

  /** `r` is what is left of `s` once its leading and trailing whitespace
      is cut off: a slice of `s` with only whitespace before and after it,
      that neither starts nor ends with whitespace. */
  ghost predicate IsStripOf(s: string, r: string)
  {
    exists i, j :: 0 <= i <= j <= |s| && r == s[i..j]
      && (forall k :: 0 <= k < i ==> IsSpace(s[k]))
      && (forall k :: j <= k < |s| ==> IsSpace(s[k]))
      && (r == [] || (!IsSpace(r[0]) && !IsSpace(r[|r| - 1])))
  }

  /** Python's `s.strip()`: never longer than `s`, and neither starting nor
      ending with whitespace (`StripIsExact` says it is exactly the strip). */
  function Strip(s: string): (r: string)
    ensures |r| <= |s|
    ensures r == [] || (!IsSpace(r[0]) && !IsSpace(r[|r| - 1]))
  {
    TrimStart(TrimEnd(s, IsSpace), IsSpace)
  }

  /** `Strip` removes the surrounding whitespace of `s` and nothing else. */
  lemma StripIsExact(s: string)
    ensures IsStripOf(s, Strip(s))
  {
    var e := TrimEnd(s, IsSpace);
    var r := TrimStart(e, IsSpace);
    assert r == s[|e| - |r|..|e|];
    assert forall k :: 0 <= k < |e| - |r| ==> s[k] == e[k];
  }

  /** SQL Server's `LTRIM(RTRIM(s))` and `TRIM(s)`: only spaces are removed. */
  function SqlTrim(s: string): (r: string)
    ensures |r| <= |s|
    ensures r == [] || (!IsBlank(r[0]) && !IsBlank(r[|r| - 1]))
  {
    TrimStart(TrimEnd(s, IsBlank), IsBlank)
  }

  lemma TrimStartOfTrimmed(s: string, drop: char -> bool)
    requires s == [] || !drop(s[0])
    ensures TrimStart(s, drop) == s
  {
  }

  lemma TrimEndOfTrimmed(s: string, drop: char -> bool)
    requires s == [] || !drop(s[|s| - 1])
    ensures TrimEnd(s, drop) == s
  {
  }

  /** A string that neither starts nor ends with whitespace is its own strip. */
  lemma StripOfStripped(s: string)
    requires s == [] || (!IsSpace(s[0]) && !IsSpace(s[|s| - 1]))
    ensures Strip(s) == s
  {
    TrimEndOfTrimmed(s, IsSpace);
    TrimStartOfTrimmed(s, IsSpace);
  }

  /** Stripping twice is stripping once. */
  lemma StripIdempotent(s: string)
    ensures Strip(Strip(s)) == Strip(s)
  {
    StripOfStripped(Strip(s));
  }

  /** Normalising by strip-then-upper is idempotent: a normalised value
      compares equal to itself after a second normalisation. */
  lemma {:induction false} StripUpperIdempotent(s: string)
    ensures Upper(Strip(Upper(Strip(s)))) == Upper(Strip(s))
  {
    var t := Strip(s);
    var u := Upper(t);
    if u != [] {
      assert IsSpace(u[0]) == IsSpace(t[0]);
      assert IsSpace(u[|u| - 1]) == IsSpace(t[|t| - 1]);
    }
    StripOfStripped(u);
    UpperIdempotent(t);
  }

  // ---------------------------------------------------------------------
  // Searching and replacing
  // ---------------------------------------------------------------------

  predicate StartsWith(s: string, prefix: string)
  {
    |prefix| <= |s| && s[..|prefix|] == prefix
  }

  predicate EndsWith(s: string, suffix: string)
  {
    |suffix| <= |s| && s[|s| - |suffix|..] == suffix
  }

  /** Python's `sub in s`, and SQL's `s LIKE '%sub%'`. */
  predicate Contains(s: string, sub: string)
    decreases |s|
  {
    StartsWith(s, sub) || (s != [] && Contains(s[1..], sub))
  }

  /** Python's `s.replace(pat, rep)`: every non-overlapping occurrence of
      `pat`, scanning left to right, is replaced by `rep`. */
  function Replace(s: string, pat: string, rep: string): (r: string)
    requires pat != []
    ensures !Contains(s, pat) ==> r == s
    decreases |s|
  {
    if |s| < |pat| then s
    else if s[..|pat|] == pat then rep + Replace(s[|pat|..], pat, rep)
    else [s[0]] + Replace(s[1..], pat, rep)
  }

  // ---------------------------------------------------------------------
  // Sequences
  // ---------------------------------------------------------------------

  predicate Distinct<T(==)>(s: seq<T>)
  {
    forall i, j :: 0 <= i < j < |s| ==> s[i] != s[j]
  }

  /** Keeps the first occurrence of every element, in order (the effect of
      SQL's `SELECT DISTINCT` / `GROUP BY` on the rows it returns). */
  function Dedup<T(==,!new)>(s: seq<T>): (r: seq<T>)
    ensures Distinct(r)
    ensures forall x :: x in r <==> x in s
    ensures |r| <= |s|
    decreases |s|
  {
    if s == [] then []
    else
      var p := Dedup(s[..|s| - 1]);
      if s[|s| - 1] in p then p else p + [s[|s| - 1]]
  }

  /** The elements of `s` that pass `keep`, in order (a loop that appends
      the elements it keeps). */
  function Filter<T(!new)>(s: seq<T>, keep: T -> bool): (r: seq<T>)
    ensures |r| <= |s|
    ensures forall x :: x in r <==> x in s && keep(x)
    decreases |s|
  {
    if s == [] then []
    else
      var x := s[|s| - 1];
      assert forall y :: y in s <==> y in s[..|s| - 1] || y == x;
      Filter(s[..|s| - 1], keep) + (if keep(x) then [x] else [])
  }

  /** Filtering a concatenation filters each part. */
  lemma {:induction false} FilterConcat<T(!new)>(a: seq<T>, b: seq<T>, keep: T -> bool)
    ensures Filter(a + b, keep) == Filter(a, keep) + Filter(b, keep)
    decreases |b|
  {
    if b != [] {
      var front := b[..|b| - 1];
      assert (a + b)[..|a + b| - 1] == a + front;
      FilterConcat(a, front, keep);
    } else {
      assert a + b == a;
    }
  }

  /** Filtering a sequence that starts with an element that is kept. */
  lemma FilterConsKept<T(!new)>(x: T, s: seq<T>, keep: T -> bool)
    requires keep(x)
    ensures Filter([x] + s, keep) == [x] + Filter(s, keep)
  {
    FilterConcat([x], s, keep);
    assert Filter([x], keep) == [x] by { assert [x][..0] == []; }
  }

  /** Filtering a sequence that starts with an element that is dropped. */
  lemma FilterConsDropped<T(!new)>(x: T, s: seq<T>, keep: T -> bool)
    requires !keep(x)
    ensures Filter([x] + s, keep) == Filter(s, keep)
  {
    FilterConcat([x], s, keep);
    assert Filter([x], keep) == [] by { assert [x][..0] == []; }
  }

  /** Filtering a sequence that starts with `x`. */
  lemma FilterCons<T(!new)>(x: T, s: seq<T>, keep: T -> bool)
    ensures Filter([x] + s, keep) == (if keep(x) then [x] else []) + Filter(s, keep)
  {
    if keep(x) {
      FilterConsKept(x, s, keep);
    } else {
      FilterConsDropped(x, s, keep);
      assert [] + Filter(s, keep) == Filter(s, keep);
    }
  }

  /** The same element in front of two sequences that filter alike. */
  lemma FilterConsCongruent<T(!new)>(x: T, a: seq<T>, b: seq<T>, keep: T -> bool)
    requires Filter(a, keep) == Filter(b, keep)
    ensures Filter([x] + a, keep) == Filter([x] + b, keep)
  {
    FilterCons(x, a, keep);
    FilterCons(x, b, keep);
  }

  /** Nothing is dropped when everything passes. */
  lemma {:induction false} FilterAllKept<T(!new)>(s: seq<T>, keep: T -> bool)
    requires forall x :: x in s ==> keep(x)
    ensures Filter(s, keep) == s
    decreases |s|
  {
    if s != [] {
      assert s[0] in s && s == [s[0]] + s[1..];
      assert forall x :: x in s[1..] ==> x in s;
      FilterAllKept(s[1..], keep);
      FilterCons(s[0], s[1..], keep);
    }
  }

  /** One more element of the prefix: it is kept when it passes. */
  lemma FilterStep<T(!new)>(s: seq<T>, keep: T -> bool, i: nat)
    requires i < |s|
    ensures Filter(s[..i + 1], keep) == Filter(s[..i], keep) + (if keep(s[i]) then [s[i]] else [])
  {
    assert s[..i + 1][..i] == s[..i];
  }

  /** Filtering keeps a sequence free of repeats. */
  lemma {:induction false} FilterKeepsDistinct<T(!new)>(s: seq<T>, keep: T -> bool)
    requires Distinct(s)
    ensures Distinct(Filter(s, keep))
    decreases |s|
  {
    if s != [] {
      var front := s[..|s| - 1];
      assert Distinct(front) by {
        assert forall i :: 0 <= i < |front| ==> front[i] == s[i];
      }
      FilterKeepsDistinct(front, keep);
      assert s[|s| - 1] !in front;
    }
  }

  /** The keys the elements of `items` have. */
  function KeySet<T(==,!new), K>(items: seq<T>, key: T -> K): set<K>
  {
    set x | x in items :: key(x)
  }

  /** Keeps the first element of every `key` class, in order (a loop over
      `items` that skips keys it has already seen): no key twice, and every
      key of `items` still present. */
  function FirstPerKey<T(==,!new), K(==)>(items: seq<T>, key: T -> K): (r: seq<T>)
    ensures forall i, j :: 0 <= i < j < |r| ==> key(r[i]) != key(r[j])
    ensures forall x :: x in r ==> x in items
    ensures KeySet(r, key) == KeySet(items, key)
    ensures |r| <= |items|
    decreases |items|
  {
    if items == [] then []
    else
      var front := items[..|items| - 1];
      var last := items[|items| - 1];
      var p := FirstPerKey(front, key);
      assert items == front + [last];
      assert KeySet(items, key) == KeySet(front, key) + {key(last)};
      if key(last) in KeySet(p, key) then p
      else
        var r := p + [last];
        assert KeySet(r, key) == KeySet(p, key) + {key(last)};
        r
  }

  /** A prefix one longer is the prefix and the next element. */
  lemma PrefixSnoc<T>(s: seq<T>, i: nat)
    requires i < |s|
    ensures s[..i + 1] == s[..i] + [s[i]]
  {
  }

  /** One more element: it is kept exactly when its key is new, and its key
      joins the keys seen. */
  lemma FirstPerKeySnoc<T(!new), K>(items: seq<T>, x: T, key: T -> K)
    ensures KeySet(items + [x], key) == KeySet(items, key) + {key(x)}
    ensures FirstPerKey(items + [x], key) == if key(x) in KeySet(items, key) then FirstPerKey(items, key) else FirstPerKey(items, key) + [x]
  {
    assert (items + [x])[..|items|] == items;
    assert forall y :: y in items + [x] <==> y in items || y == x;
  }

  // ---------------------------------------------------------------------
  // Dictionaries
  // ---------------------------------------------------------------------

  /** A Python `dict`: its keys in insertion order and its contents. */
  datatype Dict<K(==,!new), V> = Dict(keys: seq<K>, values: map<K, V>)
  {
    /** The keys are listed once each, and exactly the keys are listed. */
    ghost predicate Valid()
    {
      Distinct(keys) && forall k :: k in values <==> k in keys
    }

    /** `d[k] = v`: a new key goes to the end, an existing one keeps its place. */
    function Put(k: K, v: V): (d: Dict<K, V>)
      requires Valid()
      ensures d.Valid()
      ensures d.values == values[k := v]
      ensures k in values ==> d.keys == keys
      ensures k !in values ==> d.keys == keys + [k]
    {
      if k in values then Dict(keys, values[k := v]) else Dict(keys + [k], values[k := v])
    }
  }

  function EmptyDict<K(==,!new), V>(): (d: Dict<K, V>)
    ensures d.Valid() && d.keys == [] && d.values == map[]
  {
    Dict([], map[])
  }

  /** The dict a loop builds by `d[key(x)] = val(x)` for every `x` of `items`
      that passes `keep`, in order: a later item with the same key replaces
      the value but keeps the key's place. */
  function IndexBy<T, K(==,!new), V>(items: seq<T>, keep: T -> bool, key: T -> K, val: T -> V): (d: Dict<K, V>)
    ensures d.Valid()
    ensures |d.keys| <= |items|
    decreases |items|
  {
    if items == [] then EmptyDict()
    else
      var x := items[|items| - 1];
      var d := IndexBy(items[..|items| - 1], keep, key, val);
      if keep(x) then d.Put(key(x), val(x)) else d
  }

  /** Every kept item has its key in the dict. */
  lemma {:induction false} IndexByCovers<T, K(!new), V>(items: seq<T>, keep: T -> bool, key: T -> K, val: T -> V, x: T)
    requires x in items && keep(x)
    ensures key(x) in IndexBy(items, keep, key, val).values
    decreases |items|
  {
    var front := items[..|items| - 1];
    if x != items[|items| - 1] {
      assert items == front + [items[|items| - 1]];
      assert x in front;
      IndexByCovers(front, keep, key, val, x);
    }
  }

  /** Every value in the dict is the value of a kept item filed under that key. */
  lemma {:induction false} IndexByValue<T(!new), K(!new), V>(items: seq<T>, keep: T -> bool, key: T -> K, val: T -> V, k: K)
    requires k in IndexBy(items, keep, key, val).values
    ensures exists x :: x in items && keep(x) && key(x) == k && IndexBy(items, keep, key, val).values[k] == val(x)
    decreases |items|
  {
    var front := items[..|items| - 1];
    var last := items[|items| - 1];
    if keep(last) && key(last) == k {
      assert last in items;
    } else {
      IndexByValue(front, keep, key, val, k);
      var x :| x in front && keep(x) && key(x) == k && IndexBy(front, keep, key, val).values[k] == val(x);
      assert x in items;
    }
  }

  /** The entries of a dict under `keys`, in order. */
  function ValuesAt<K(==,!new), V>(d: Dict<K, V>, keys: seq<K>): (r: seq<V>)
    requires forall k :: k in keys ==> k in d.values
    ensures |r| == |keys| && forall i :: 0 <= i < |keys| ==> r[i] == d.values[keys[i]]
  {
    seq(|keys|, i requires 0 <= i < |keys| => d.values[keys[i]])
  }

  // ---------------------------------------------------------------------
  // The loops that build dicts and lists
  // ---------------------------------------------------------------------

  /** `for x in items: if keep(x): d[key(x)] = val(x)`, starting from `{}`. */
  method BuildIndex<T, K(==,!new), V>(items: seq<T>, keep: T -> bool, key: T -> K, val: T -> V) returns (d: Dict<K, V>)
    ensures d == IndexBy(items, keep, key, val)
  {
    d := EmptyDict();
    var i := 0;
    while i < |items|
      invariant 0 <= i <= |items|
      invariant d == IndexBy(items[..i], keep, key, val)
    {
      assert items[..i + 1][..i] == items[..i];
      var x := items[i];
      if keep(x) {
        d := d.Put(key(x), val(x));
      }
      i := i + 1;
    }
    assert items[..i] == items;
  }

  /** `for x in s: if keep(x): r.append(x)`, starting from `[]`. */
  method SelectWhere<T(!new)>(s: seq<T>, keep: T -> bool) returns (r: seq<T>)
    ensures r == Filter(s, keep)
  {
    r := [];
    var i := 0;
    while i < |s|
      invariant 0 <= i <= |s|
      invariant r == Filter(s[..i], keep)
    {
      FilterStep(s, keep, i);
      if keep(s[i]) {
        r := r + [s[i]];
      }
      i := i + 1;
    }
    assert s[..i] == s;
  }
}
