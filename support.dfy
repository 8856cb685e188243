/**
 * Values shared by every part of the model: optional values, values that a
 * callable may compute, Ruby run-time values with their truthiness, the
 * insertion-ordered dictionary that Ruby's Hash is, and the few string
 * operations the documentation generator performs (prefix tests, substring
 * search, literal global substitution, ASCII down-casing).
 */
module Support {

  datatype Option<+T> = None | Some(value: T) {
    function GetOr(default: T): T {
      if Some? then value else default
    }
  }

  /** A configuration value that is given either literally or as a callable
      with no arguments; `Deferred` carries what the callable returns when the
      generator invokes it. */
  datatype Lazy<+T> = Literal(value: T) | Deferred(result: T) {
    function Force(): T {
      if Literal? then value else result
    }
  }

  /** The run-time values that appear as defaults and enumeration members. */
  datatype Value = Nil | Bool(b: bool) | Int(i: int) | Str(s: string)

  /** Ruby truthiness: only nil and false are false. */
  predicate Truthy(v: Value) {
    !(v.Nil? || v == Bool(false))
  }

  // ---------------------------------------------------------------------------
  // Sequences

  /** The elements of `s` that satisfy `p`, in their original order. */
  function Filter<T>(s: seq<T>, p: T -> bool): (r: seq<T>)
    ensures |r| <= |s|
    decreases |s|
  {
    if s == [] then []
    else Filter(s[..|s| - 1], p) + (if p(s[|s| - 1]) then [s[|s| - 1]] else [])
  }

  lemma {:induction false} FilterAppend<T>(s: seq<T>, t: seq<T>, p: T -> bool)
    ensures Filter(s + t, p) == Filter(s, p) + Filter(t, p)
    decreases |t|
  {
    if t == [] {
      assert s + t == s;
    } else {
      var t' := t[..|t| - 1];
      assert (s + t)[..|s + t| - 1] == s + t';
      FilterAppend(s, t', p);
    }
  }

  /** An element is kept exactly when it occurs and satisfies the predicate. */
  lemma {:induction false} FilterMember<T>(s: seq<T>, p: T -> bool, x: T)
    ensures x in Filter(s, p) <==> x in s && p(x)
    decreases |s|
  {
    if s != [] {
      FilterMember(s[..|s| - 1], p, x);
      assert s == s[..|s| - 1] + [s[|s| - 1]];
    }
  }

  /** Extending the filtered prefix by one element. */
  lemma FilterPrefix<T>(s: seq<T>, i: nat, p: T -> bool)
    requires i < |s|
    ensures Filter(s[..i + 1], p) == Filter(s[..i], p) + (if p(s[i]) then [s[i]] else [])
  {
    assert s[..i + 1][..i] == s[..i];
  }

  /** Filtering with two predicates that agree on every element gives the same sequence. */
  lemma {:induction false} FilterCongruent<T>(s: seq<T>, p: T -> bool, q: T -> bool)
    requires forall x :: x in s ==> p(x) == q(x)
    ensures Filter(s, p) == Filter(s, q)
    decreases |s|
  {
    if s != [] {
      FilterCongruent(s[..|s| - 1], p, q);
    }
  }

  /** Filtering twice is filtering once with the conjunction. */
  lemma {:induction false} FilterFilter<T>(s: seq<T>, p: T -> bool, q: T -> bool, pq: T -> bool)
    requires forall x :: x in s ==> pq(x) == (p(x) && q(x))
    ensures Filter(Filter(s, p), q) == Filter(s, pq)
    decreases |s|
  {
    if s != [] {
      var s' := s[..|s| - 1];
      var x := s[|s| - 1];
      FilterFilter(s', p, q, pq);
      FilterAppend(Filter(s', p), if p(x) then [x] else [], q);
      if p(x) {
        assert Filter([x], q) == (if q(x) then [x] else []) by {
          assert [x][..0] == [];
        }
      }
    }
  }

  /** Filtering keeps a sequence whose every element satisfies the predicate. */
  lemma {:induction false} FilterAll<T>(s: seq<T>, p: T -> bool)
    requires forall x :: x in s ==> p(x)
    ensures Filter(s, p) == s
    decreases |s|
  {
    if s != [] {
      FilterAll(s[..|s| - 1], p);
      assert s == s[..|s| - 1] + [s[|s| - 1]];
    }
  }

  /** The negation of a predicate. */
  function Not<T>(p: T -> bool): T -> bool {
    x => !p(x)
  }

  /** Every value but `k`. */
  function Except<T(==)>(k: T): T -> bool {
    x => x != k
  }

  /** `map`: `f` applied to each element, in order. */
  function MapSeq<A, B>(s: seq<A>, f: A --> B): (r: seq<B>)
    requires forall x :: x in s ==> f.requires(x)
    ensures |r| == |s|
    decreases |s|
  {
    if s == [] then []
    else
      assert forall x :: x in s[..|s| - 1] ==> x in s;
      MapSeq(s[..|s| - 1], f) + [f(s[|s| - 1])]
  }

  lemma {:induction false} MapSeqAt<A, B>(s: seq<A>, f: A --> B, i: nat)
    requires forall x :: x in s ==> f.requires(x)
    requires i < |s|
    ensures MapSeq(s, f)[i] == f(s[i])
    decreases |s|
  {
    assert forall x :: x in s[..|s| - 1] ==> x in s;
    if i < |s| - 1 {
      MapSeqAt(s[..|s| - 1], f, i);
    }
  }

  lemma MapSeqSnoc<A, B>(s: seq<A>, f: A --> B, j: nat)
    requires forall x :: x in s ==> f.requires(x)
    requires j < |s|
    ensures forall x :: x in s[..j] ==> f.requires(x)
    ensures MapSeq(s[..j + 1], f) == MapSeq(s[..j], f) + [f(s[j])]
  {
    assert s[..j + 1][..j] == s[..j];
    assert forall x :: x in s[..j + 1] ==> x in s;
  }

  /** The elements of `s` in the order of their first occurrence, each once. */
  function Nub<T(==,!new)>(s: seq<T>): (r: seq<T>)
    ensures forall x :: x in r <==> x in s
    decreases |s|
  {
    if s == [] then []
    else
      var init := s[..|s| - 1];
      assert s == init + [s[|s| - 1]];
      if s[|s| - 1] in init then Nub(init) else Nub(init) + [s[|s| - 1]]
  }

  /** Appending an element extends the first occurrences only when it is new. */
  lemma NubSnoc<T(!new)>(s: seq<T>, x: T)
    ensures Nub(s + [x]) == if x in s then Nub(s) else Nub(s) + [x]
  {
    assert (s + [x])[..|s|] == s;
  }

  ghost predicate Distinct<T>(s: seq<T>) {
    forall i, j :: 0 <= i < j < |s| ==> s[i] != s[j]
  }

  // ---------------------------------------------------------------------------
  // Insertion-ordered dictionaries (Ruby's Hash)

  /** `keys` records insertion order; assigning to a key that is already present
      changes its value but not its position. */
  datatype Dict<K(==), V> = Dict(keys: seq<K>, entries: map<K, V>) {

    /** Every key listed has an entry and every entry is listed. */
    ghost predicate Valid() {
      entries.Keys == (set k | k in keys)
    }

    function Get(k: K, default: V): V {
      if k in entries then entries[k] else default
    }

    function Put(k: K, v: V): (d: Dict<K, V>)
      ensures Valid() ==> d.Valid()
    {
      Dict(if k in entries then keys else keys + [k], entries[k := v])
    }

    /** `delete(k)`: the key and its entry go, the other keys keep their order. */
    function Remove(k: K): Dict<K, V> {
      Dict(Filter(keys, Except(k)), entries - {k})
    }
  }

  /** `reject`: the entries whose key satisfies `drop` removed, the others
      kept in their order. */
  function Rejected<K, V>(d: Dict<K, V>, drop: K -> bool): Dict<K, V> {
    Dict(Filter(d.keys, Not(drop)), map k | k in d.entries && !drop(k) :: d.entries[k])
  }

  /** Rejecting keeps exactly the keys `drop` does not hold of, each with its
      entry, and keeps the dictionary well formed. */
  lemma RejectedFacts<K(!new), V>(d: Dict<K, V>, drop: K -> bool)
    requires d.Valid()
    ensures Rejected(d, drop).Valid()
    ensures forall k :: k in Rejected(d, drop).entries <==> k in d.entries && !drop(k)
    ensures forall k :: k in Rejected(d, drop).entries ==> Rejected(d, drop).entries[k] == d.entries[k]
  {
    var r := Rejected(d, drop);
    forall x ensures x in r.entries.Keys <==> x in r.keys {
      FilterMember(d.keys, Not(drop), x);
    }
    assert r.entries.Keys == (set k | k in r.keys);
  }

  /** Assigning a key twice is assigning it the second value. */
  lemma PutTwice<K, V>(d: Dict<K, V>, k: K, a: V, b: V)
    ensures d.Put(k, a).Put(k, b) == d.Put(k, b)
  {
    assert d.entries[k := a][k := b] == d.entries[k := b];
  }

  /** No key is listed twice: assigning never duplicates a listed key. */
  lemma PutDistinct<K, V>(d: Dict<K, V>, k: K, v: V)
    requires d.Valid() && Distinct(d.keys)
    ensures Distinct(d.Put(k, v).keys)
  {
  }

  /** The hash obtained by assigning `vals[i]` to `keys[i]` for the first `n` positions in turn. */
  function Assigned<K(==), V>(keys: seq<K>, vals: seq<V>, n: nat): (d: Dict<K, V>)
    requires n <= |keys| == |vals|
    ensures d.Valid()
  {
    if n == 0 then Dict([], map[]) else Assigned(keys, vals, n - 1).Put(keys[n - 1], vals[n - 1])
  }

  /** A key is present exactly when it was assigned. */
  lemma {:induction false} AssignedMember<K, V>(keys: seq<K>, vals: seq<V>, n: nat, k: K)
    requires n <= |keys| == |vals|
    ensures k in Assigned(keys, vals, n).entries <==> k in keys[..n]
    decreases n
  {
    if n > 0 {
      AssignedMember(keys, vals, n - 1, k);
      assert keys[..n] == keys[..n - 1] + [keys[n - 1]];
    }
  }

  /** Storing the `n`-th of distinct keys into a hash keyed by the first
      `n - 1` appends it. */
  lemma PutDistinctKey<K, V>(prev: Dict<K, V>, v: V, keys: seq<K>, n: nat)
    requires 0 < n <= |keys| && Distinct(keys)
    requires prev.keys == keys[..n - 1]
    requires keys[n - 1] in prev.entries <==> keys[n - 1] in keys[..n - 1]
    ensures prev.Put(keys[n - 1], v).keys == keys[..n]
  {
    var k := keys[n - 1];
    var before := keys[..n - 1];
    forall i | 0 <= i < |before| ensures before[i] != k {
      assert before[i] == keys[i];
    }
    assert keys[..n] == before + [k];
  }

  /** Position `i` is the last of the first `n` that holds `k`. */
  predicate LastAt<K(==)>(keys: seq<K>, n: nat, k: K, i: nat) {
    i < n <= |keys| && keys[i] == k && forall j :: i < j < n ==> keys[j] != k
  }

  /** A present key holds the value of its last assignment. */
  lemma {:induction false} AssignedEntry<K, V>(keys: seq<K>, vals: seq<V>, n: nat, k: K)
    requires n <= |keys| == |vals| && k in Assigned(keys, vals, n).entries
    ensures exists i: nat :: LastAt(keys, n, k, i) && Assigned(keys, vals, n).entries[k] == vals[i]
    decreases n
  {
    if n == 0 {
      assert false;
    }
    var d := Assigned(keys, vals, n);
    var prev := Assigned(keys, vals, n - 1);
    assert d.entries == prev.entries[keys[n - 1] := vals[n - 1]];
    if keys[n - 1] == k {
      assert LastAt(keys, n, k, n - 1) && d.entries[k] == vals[n - 1];
    } else {
      AssignedEntry(keys, vals, n - 1, k);
      var i: nat :| LastAt(keys, n - 1, k, i) && prev.entries[k] == vals[i];
      assert LastAt(keys, n, k, i) && d.entries[k] == vals[i];
    }
  }

  function EmptyDict<K(==), V>(): (d: Dict<K, V>)
    ensures d.Valid() && d.keys == []
  {
    Dict([], map[])
  }

  // ---------------------------------------------------------------------------
  // Strings

  predicate StartsWith<T(==)>(s: seq<T>, p: seq<T>) {
    |p| <= |s| && s[..|p|] == p
  }

  lemma StartsWithTransitive<T>(a: seq<T>, b: seq<T>, c: seq<T>)
    requires StartsWith(a, b) && StartsWith(b, c)
    ensures StartsWith(a, c)
  {
    assert a[..|c|] == b[..|c|];
  }

  /** Ruby's `String#include?`. */
  predicate Contains(s: string, t: string)
    decreases |s|
  {
    StartsWith(s, t) || (|s| > 0 && Contains(s[1..], t))
  }

  /** The first index at which `p` occurs in `s`. */
  function IndexOf(s: string, p: string): (i: nat)
    requires Contains(s, p)
    ensures i + |p| <= |s| && s[i..i + |p|] == p
    ensures forall j :: 0 <= j < i ==> !StartsWith(s[j..], p)
    decreases |s|
  {
    if StartsWith(s, p) then 0
    else
      var i := IndexOf(s[1..], p);
      assert forall j :: 0 < j <= i ==> s[j..] == s[1..][j - 1..];
      1 + i
  }

  /** Ruby's `String#gsub` with a literal, non-empty pattern: occurrences are
      replaced from left to right and never overlap. */
  function ReplaceAll(s: string, pat: string, rep: string): string
    requires |pat| > 0
    decreases |s|
  {
    if s == [] then []
    else if StartsWith(s, pat) then rep + ReplaceAll(s[|pat|..], pat, rep)
    else [s[0]] + ReplaceAll(s[1..], pat, rep)
  }

  lemma Regroup<T>(a: seq<T>, b: seq<T>, c: seq<T>, d: seq<T>)
    ensures a + b + c + d == a + (b + c + d)
  {
  }

  lemma Regroup5<T>(a: seq<T>, b: seq<T>, c: seq<T>, d: seq<T>, e: seq<T>)
    ensures a + b + c + d + e == a + (b + c + d + e)
  {
  }

  /** A text shorter than the pattern does not contain it. */
  lemma {:induction false} ShorterNoMatch(s: string, pat: string)
    requires |s| < |pat|
    ensures !Contains(s, pat)
    decreases |s|
  {
    if s != [] {
      ShorterNoMatch(s[1..], pat);
    }
  }

  /** A stretch without the pattern's first character is copied unchanged. */
  lemma {:induction false} ReplaceAfterPlain(a: string, b: string, pat: string, rep: string)
    requires |pat| > 0 && pat[0] !in a
    ensures ReplaceAll(a + b, pat, rep) == a + ReplaceAll(b, pat, rep)
    decreases |a|
  {
    if a != [] {
      var s := a + b;
      assert s[0] == a[0] != pat[0];
      assert !StartsWith(s, pat) by {
        if |pat| <= |s| { assert s[..|pat|][0] == s[0]; }
      }
      assert s[1..] == a[1..] + b;
      assert pat[0] !in a[1..] by { assert forall x :: x in a[1..] ==> x in a; }
      ReplaceAfterPlain(a[1..], b, pat, rep);
      assert a == [a[0]] + a[1..];
    } else {
      assert a + b == b;
    }
  }

  /** An occurrence at the start is replaced, and the scan goes on after it. */
  lemma ReplaceAtStart(b: string, pat: string, rep: string)
    requires |pat| > 0
    ensures ReplaceAll(pat + b, pat, rep) == rep + ReplaceAll(b, pat, rep)
  {
    assert (pat + b)[..|pat|] == pat;
    assert (pat + b)[|pat|..] == b;
  }

  /** A single occurrence, after a stretch without the pattern's first character. */
  lemma ReplaceOnce(lead: string, pat: string, rest: string, rep: string)
    requires |pat| > 0 && pat[0] !in lead && ReplaceAll(rest, pat, rep) == rest
    ensures ReplaceAll(lead + pat + rest, pat, rep) == lead + rep + rest
  {
    assert lead + pat + rest == lead + (pat + rest);
    ReplaceAfterPlain(lead, pat + rest, pat, rep);
    ReplaceAtStart(rest, pat, rep);
  }

  /** Replacing one character by another changes exactly the positions that held it. */
  lemma {:induction false} ReplaceCharAt(s: string, c: char, d: char)
    ensures |ReplaceAll(s, [c], [d])| == |s|
    ensures forall i :: 0 <= i < |s| ==>
              ReplaceAll(s, [c], [d])[i] == (if s[i] == c then d else s[i])
    decreases |s|
  {
    if s != [] {
      ReplaceCharAt(s[1..], c, d);
    }
  }

  /** A pattern that does not occur leaves the string unchanged. */
  lemma {:induction false} ReplaceAbsent(s: string, pat: string, rep: string)
    requires |pat| > 0 && !Contains(s, pat)
    ensures ReplaceAll(s, pat, rep) == s
    decreases |s|
  {
    if s != [] {
      ReplaceAbsent(s[1..], pat, rep);
    }
  }

  predicate IsUpper(c: char) { 'A' <= c <= 'Z' }

  /** `[[:space:]]` on a Unicode string: the ASCII blanks and the other
      characters with the White_Space property. */
  predicate IsSpace(c: char) {
    || c == ' ' || '\t' <= c <= '\r' || c == '\U{85}' || c == '\U{A0}' || c == '\U{1680}'
    || '\U{2000}' <= c <= '\U{200A}' || c == '\U{2028}' || c == '\U{2029}' || c == '\U{202F}'
    || c == '\U{205F}' || c == '\U{3000}'
  }

  /** ActiveSupport's `blank?` on a string: empty or only whitespace. */
  predicate Blank(s: string) {
    forall i :: 0 <= i < |s| ==> IsSpace(s[i])
  }

  function LowerChar(c: char): char {
    if IsUpper(c) then (c as int + 32) as char else c
  }

  /** Ruby's `String#downcase` on ASCII text. */
  function Lower(s: string): (r: string)
    ensures |r| == |s|
    ensures forall i :: 0 <= i < |s| ==> r[i] == LowerChar(s[i])
  {
    seq(|s|, i requires 0 <= i < |s| => LowerChar(s[i]))
  }

  predicate IsLowerOrDigit(c: char) { 'a' <= c <= 'z' || '0' <= c <= '9' }

  /** The names `underscore` rewrites: those matching `/[A-Z-]|::/`. */
  predicate HasCamelMarks(s: string) {
    (exists i :: 0 <= i < |s| && (IsUpper(s[i]) || s[i] == '-')) || Contains(s, "::")
  }

  /** `/([A-Z]+)(?=[A-Z][a-z])|([a-z\d])(?=[A-Z])/` ends a match just before
      position `i`: a capital after a lower-case letter or a digit, or a
      capital that ends a run of capitals and starts a capitalised word. */
  predicate WordBoundary(w: string, i: nat)
    requires 0 < i < |w|
  {
    || (IsLowerOrDigit(w[i - 1]) && IsUpper(w[i]))
    || (IsUpper(w[i - 1]) && IsUpper(w[i]) && i + 1 < |w| && 'a' <= w[i + 1] <= 'z')
  }

  /** The word from position `i` on, with `_` inserted at every boundary. */
  function Snake(w: string, i: nat): (r: string)
    requires i <= |w|
    ensures |r| >= |w| - i
    ensures forall j :: 0 <= j < |r| && r[j] != '_' ==> exists k :: i <= k < |w| && w[k] == r[j]
    decreases |w| - i
  {
    if i == |w| then ""
    else
      var rest := Snake(w, i + 1);
      var r := (if 0 < i && WordBoundary(w, i) then "_" else "") + [w[i]] + rest;
      assert forall j :: 0 <= j < |rest| ==> r[|r| - |rest| + j] == rest[j];
      r
  }

  /** Without a word boundary, `Snake` copies the word. */
  lemma {:induction false} SnakeNoBoundary(w: string, i: nat)
    requires i <= |w|
    requires forall j :: 0 < j < |w| && i <= j ==> !WordBoundary(w, j)
    ensures Snake(w, i) == w[i..]
    decreases |w| - i
  {
    if i < |w| {
      SnakeNoBoundary(w, i + 1);
      assert w[i..] == [w[i]] + w[i + 1..];
    }
  }

  /** ActiveSupport's `underscore` with the default inflections, which define
      no acronym: `::` becomes `/`, `_` goes in at every word boundary, `-`
      becomes `_`, and the result is down-cased. */
  function Underscore(name: string): (r: string)
    ensures forall i :: 0 <= i < |r| ==> !IsUpper(r[i]) && r[i] != '-'
    ensures !HasCamelMarks(name) ==> r == name
  {
    if !HasCamelMarks(name) then name
    else
      var w := Snake(ReplaceAll(name, "::", "/"), 0);
      ReplaceCharAt(w, '-', '_');
      Lower(ReplaceAll(w, "-", "_"))
  }

  /** The I18n scope of a class: `name.underscore.gsub('/', '.')`. */
  function I18nScope(className: string): (r: string)
    ensures forall i :: 0 <= i < |r| ==> r[i] != '/' && !IsUpper(r[i])
  {
    ReplaceCharAt(Underscore(className), '/', '.');
    ReplaceAll(Underscore(className), "/", ".")
  }

  /** A class in a namespace: `Api::Users` has the scope `api.users`. */
  lemma ScopeOfNamespacedClass(name: string)
    requires name == "Api::Users"
    ensures I18nScope(name) == "api.users"
  {
    UnderscoreOfNamespacedClass(name);
    var lower := Underscore(name);
    ReplaceCharAt(lower, '/', '.');
  }

  /** `"Api::Users".underscore` is `api/users`. */
  lemma UnderscoreOfNamespacedClass(name: string)
    requires name == "Api::Users"
    ensures Underscore(name) == "api/users"
  {
    assert HasCamelMarks(name) by { assert IsUpper(name[0]); }
    SeparatorReplaced(name);
    var w := ReplaceAll(name, "::", "/");
    PathHasNoBoundary(w);
    PathLowered(w);
  }

  /** `Api::Users` with `::` turned into `/`. */
  lemma SeparatorReplaced(name: string)
    requires name == "Api::Users"
    ensures ReplaceAll(name, "::", "/") == "Api/Users"
  {
    ReplaceAfterPlain("Users", "", "::", "/");
    assert "Users" + "" == "Users";
    ReplaceOnce("Api", "::", "Users", "/");
    assert "Api" + "::" + "Users" == name;
  }

  /** `Api/Users` has no word boundary: each capital follows a `/` or starts the name. */
  lemma PathHasNoBoundary(w: string)
    requires w == "Api/Users"
    ensures Snake(w, 0) == w
  {
    SnakeNoBoundary(w, 0);
    assert w[0..] == w;
  }

  /** `Api/Users` has no dash, and down-cases to `api/users`. */
  lemma PathLowered(w: string)
    requires w == "Api/Users"
    ensures Lower(ReplaceAll(w, "-", "_")) == "api/users"
  {
    ReplaceCharAt(w, '-', '_');
    assert ReplaceAll(w, "-", "_") == w;
  }
}
