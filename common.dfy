/** Shared vocabulary of the server actions: the `{ success, error }` result
    union, the string order the database uses for text columns, the case
    mappings of the validators, and the row-set operations the ORM performs
    (filter, order by, enumerate a table). */
module Common {

  datatype Option<T> = None | Some(value: T)

  /** What a failed action reports. `ValidationError` stands for the opaque
      `result.error.format()` object, `DbError` for a database exception's own
      `error.message`, and `Message` for a fixed human-readable string. */
  datatype Error = ValidationError | DbError | Message(text: string)

  /** The `{ success: true }` / `{ success: false, error }` union returned by every action. */
  datatype Outcome = Success | Failure(error: Error)

  /** A validator's result: the parsed (possibly transformed) data or a validation error. */
  datatype Parsed<T> = Accepted(value: T) | Rejected

  // ---------------------------------------------------------------------------
  // String order: lexicographic by character, the order JavaScript's `<` on
  // strings and the ORM's `lt`/`gt`/`orderBy` on text columns use (JavaScript
  // compares UTF-16 code units; characters outside the BMP are not modelled).
  // ---------------------------------------------------------------------------

  predicate Less(a: string, b: string)
    decreases |a|
  {
    if |a| == 0 then |b| > 0
    else if |b| == 0 then false
    else if a[0] != b[0] then a[0] < b[0]
    else Less(a[1..], b[1..])
  }

  predicate LessEq(a: string, b: string) {
    a == b || Less(a, b)
  }

  lemma {:induction false} LessIrreflexive(a: string)
    ensures !Less(a, a)
  {
    if |a| > 0 {
      LessIrreflexive(a[1..]);
    }
  }

  lemma {:induction false} LessTransitive(a: string, b: string, c: string)
    requires Less(a, b) && Less(b, c)
    ensures Less(a, c)
  {
    if |a| > 0 && |b| > 0 && |c| > 0 && a[0] == b[0] && b[0] == c[0] {
      LessTransitive(a[1..], b[1..], c[1..]);
    }
  }

  /** Any two distinct strings are ordered one way or the other. */
  lemma {:induction false} LessTotal(a: string, b: string)
    ensures a == b || Less(a, b) || Less(b, a)
  {
    if |a| > 0 && |b| > 0 && a[0] == b[0] {
      LessTotal(a[1..], b[1..]);
      if a[1..] == b[1..] {
        assert a == [a[0]] + a[1..] && b == [b[0]] + b[1..];
      }
    }
  }

  // ---------------------------------------------------------------------------
  // Case mapping. JavaScript's `toUpperCase`/`toLowerCase` and the database's
  // case-insensitive match are modelled on ASCII letters only.
  // ---------------------------------------------------------------------------

  function UpperChar(c: char): char {
    if 'a' <= c <= 'z' then (c as int - 32) as char else c
  }

  function LowerChar(c: char): char {
    if 'A' <= c <= 'Z' then (c as int + 32) as char else c
  }

  predicate HasNoLowerCase(s: string) {
    forall i :: 0 <= i < |s| ==> !('a' <= s[i] <= 'z')
  }

  /** Two strings that differ at most in the case of their letters. */
  predicate SameIgnoringCase(a: string, b: string) {
    |a| == |b| && forall i :: 0 <= i < |a| ==> LowerChar(a[i]) == LowerChar(b[i])
  }

  /** `String.prototype.toUpperCase`: keeps the length, leaves no lower-case
      letter behind, and changes nothing but the case of letters. */
  function Upper(s: string): (r: string)
    ensures |r| == |s|
    ensures HasNoLowerCase(r)
    ensures SameIgnoringCase(r, s)
  {
    seq(|s|, i requires 0 <= i < |s| => UpperChar(s[i]))
  }

  function Lower(s: string): (r: string)
    ensures |r| == |s|
    ensures forall i :: 0 <= i < |r| ==> !('A' <= r[i] <= 'Z')
    ensures SameIgnoringCase(r, s)
  {
    seq(|s|, i requires 0 <= i < |s| => LowerChar(s[i]))
  }

  /** Strings that agree up to case have the same upper-case form. */
  lemma UpperOfSameIgnoringCase(a: string, b: string)
    requires SameIgnoringCase(a, b)
    ensures Upper(a) == Upper(b)
  {
    forall i | 0 <= i < |a|
      ensures UpperChar(a[i]) == UpperChar(b[i])
    {
      assert LowerChar(a[i]) == LowerChar(b[i]);
    }
  }

  predicate IsPrefix(p: string, s: string) {
    |p| <= |s| && s[..|p|] == p
  }

  /** `s` contains `q` as a contiguous substring (the empty string is in every string). */
  predicate Contains(s: string, q: string) {
    exists i :: 0 <= i <= |s| - |q| && OccursAt(s, q, i)
  }

  predicate OccursAt(s: string, q: string, i: int) {
    0 <= i <= |s| - |q| && s[i..i + |q|] == q
  }

  predicate ContainsIgnoringCase(s: string, q: string) {
    Contains(Lower(s), Lower(q))
  }

  // ---------------------------------------------------------------------------
  // Filtering and ordering rows.
  // ---------------------------------------------------------------------------

  /** The rows of `s` that satisfy `p`, each as often as in `s`, in the same order. */
  function Filter<T(!new)>(s: seq<T>, p: T -> bool): (r: seq<T>)
    ensures |r| <= |s|
    ensures forall x :: multiset(r)[x] == if p(x) then multiset(s)[x] else 0
    ensures forall i :: 0 <= i < |r| ==> p(r[i]) && r[i] in s
  {
    if s == [] then []
    else
      var rest := Filter(s[1..], p);
      assert s == [s[0]] + s[1..];
      if p(s[0]) then [s[0]] + rest else rest
  }

  /** Filtering a concatenation filters each part and keeps the parts in order. */
  lemma {:induction false} FilterAppend<T(!new)>(a: seq<T>, b: seq<T>, p: T -> bool)
    ensures Filter(a + b, p) == Filter(a, p) + Filter(b, p)
  {
    if a == [] {
      assert a + b == b;
    } else {
      assert (a + b)[1..] == a[1..] + b;
      FilterAppend(a[1..], b, p);
    }
  }

  /** What comes before an element in `s` stays before it in the result, and
      what comes after stays after it: the filter keeps the order of `s`. */
  lemma FilterKeepsOrder<T(!new)>(a: seq<T>, x: T, b: seq<T>, p: T -> bool)
    ensures Filter(a + [x] + b, p) == Filter(a, p) + (if p(x) then [x] else []) + Filter(b, p)
  {
    var single := if p(x) then [x] else [];
    assert Filter([x], p) == single by {
      assert [x][1..] == [];
    }
    FilterAppend(a, [x], p);
    FilterAppend(a + [x], b, p);
  }

  /** `leq` is a total preorder: what an ORM `orderBy` on one or more columns compares by. */
  ghost predicate TotalPreorder<T(!new)>(leq: (T, T) -> bool) {
    && (forall a, b :: leq(a, b) || leq(b, a))
    && (forall a, b, c :: leq(a, b) && leq(b, c) ==> leq(a, c))
  }

  predicate SortedBy<T>(s: seq<T>, leq: (T, T) -> bool) {
    forall i, j :: 0 <= i < j < |s| ==> leq(s[i], s[j])
  }

  function Insert<T(!new)>(x: T, s: seq<T>, leq: (T, T) -> bool): (r: seq<T>)
    requires TotalPreorder(leq) && SortedBy(s, leq)
    ensures multiset(r) == multiset(s) + multiset{x}
    ensures SortedBy(r, leq)
  {
    if s == [] then [x]
    else if leq(x, s[0]) then
      assert forall j :: 0 <= j < |s| ==> leq(s[0], s[j]);
      [x] + s
    else
      var rest := Insert(x, s[1..], leq);
      assert s == [s[0]] + s[1..];
      assert forall y :: y in multiset(rest) ==> leq(s[0], y) by {
        forall y | y in multiset(rest) ensures leq(s[0], y) {
          if y != x {
            assert y in multiset(s[1..]);
            var j :| 0 <= j < |s[1..]| && s[1..][j] == y;
            assert leq(s[0], s[j + 1]);
          }
        }
      }
      assert forall j :: 0 <= j < |rest| ==> rest[j] in multiset(rest);
      [s[0]] + rest
  }

  /** The rows of `s` ordered by `leq` (insertion sort): a permutation of `s` that is sorted. */
  function SortBy<T(!new)>(s: seq<T>, leq: (T, T) -> bool): (r: seq<T>)
    requires TotalPreorder(leq)
    ensures multiset(r) == multiset(s)
    ensures SortedBy(r, leq)
  {
    if s == [] then []
    else
      assert s == [s[0]] + s[1..];
      Insert(s[0], SortBy(s[1..], leq), leq)
  }

  /** Ascending order on a text key, as `orderBy: { key: 'asc' }`. */
  function ByText<T>(key: T -> string): (T, T) -> bool {
    (a: T, b: T) => LessEq(key(a), key(b))
  }

  /** Ascending order on a numeric key. */
  function ByNumber<T>(key: T -> int): (T, T) -> bool {
    (a: T, b: T) => key(a) <= key(b)
  }

  /** Descending order on a numeric key, as `orderBy: { key: 'desc' }`. */
  function ByNumberDesc<T>(key: T -> int): (T, T) -> bool {
    (a: T, b: T) => key(a) >= key(b)
  }

  lemma ByTextIsPreorder<T(!new)>(key: T -> string)
    ensures TotalPreorder(ByText(key))
  {
    forall a: T, b: T ensures ByText(key)(a, b) || ByText(key)(b, a) {
      LessTotal(key(a), key(b));
    }
    forall a: T, b: T, c: T | ByText(key)(a, b) && ByText(key)(b, c)
      ensures ByText(key)(a, c)
    {
      if key(a) != key(b) && key(b) != key(c) {
        LessTransitive(key(a), key(b), key(c));
      }
    }
  }

  lemma ByNumberIsPreorder<T(!new)>(key: T -> int)
    ensures TotalPreorder(ByNumber(key))
  {
  }

  lemma ByNumberDescIsPreorder<T(!new)>(key: T -> int)
    ensures TotalPreorder(ByNumberDesc(key))
  {
  }

  // ---------------------------------------------------------------------------
  // Tables: maps from a row id to the row.
  // ---------------------------------------------------------------------------

  /** The rows of a table as (id, row) pairs, each exactly once, in some order
      (the order in which the database happens to return them). */
  ghost function Enumerate<V(!new)>(m: map<string, V>): (r: seq<(string, V)>)
    ensures |r| == |m|
    ensures forall x :: multiset(r)[x] == if x.0 in m && m[x.0] == x.1 then 1 else 0
    decreases |m|
  {
    if |m| == 0 then []
    else
      var k :| k in m;
      var rest := Enumerate(m - {k});
      assert (k, m[k]) !in multiset(rest);
      [(k, m[k])] + rest
  }

  /** No two distinct rows share a natural key. */
  ghost predicate Unique<V, N>(rows: map<string, V>, key: V -> N) {
    forall a, b :: a in rows && b in rows && a != b ==> key(rows[a]) != key(rows[b])
  }

  /** The duplicate query: some row other than `except` already has key `n`
      (`findFirst({ where: { key: n, NOT: { id: except } } })`). */
  predicate Taken<V, N(==)>(rows: map<string, V>, key: V -> N, n: N, except: Option<string>) {
    exists k :: k in rows && Some(k) != except && key(rows[k]) == n
  }

  /** Writing a row under a key no other row holds keeps the keys unique,
      whether the row is new or replaces the one stored under `id`. */
  lemma PutKeepsUnique<V, N>(rows: map<string, V>, key: V -> N, id: string, v: V)
    requires Unique(rows, key)
    requires forall k :: k in rows && k != id ==> key(rows[k]) != key(v)
    ensures Unique(rows[id := v], key)
  {
  }

  lemma RemoveKeepsUnique<V, N>(rows: map<string, V>, key: V -> N, id: string)
    requires Unique(rows, key)
    ensures Unique(rows - {id}, key)
  {
  }

  /** An ordered read `findMany({ where, orderBy })`: every row that satisfies
      `p`, exactly once, with its id, ordered by `leq`. */
  ghost function Listing<V(!new)>(m: map<string, V>, p: V -> bool,
                                  leq: ((string, V), (string, V)) -> bool): (r: seq<(string, V)>)
    requires TotalPreorder(leq)
    ensures forall x :: multiset(r)[x] == if x.0 in m && m[x.0] == x.1 && p(x.1) then 1 else 0
    ensures SortedBy(r, leq)
  {
    SortBy(Rows(m, p), leq)
  }

  /** An unordered read `findMany({ where })`: every row that satisfies `p`,
      exactly once, with its id, in whatever order the database returns. */
  ghost function Rows<V(!new)>(m: map<string, V>, p: V -> bool): (r: seq<(string, V)>)
    ensures forall x :: multiset(r)[x] == if x.0 in m && m[x.0] == x.1 && p(x.1) then 1 else 0
  {
    Filter(Enumerate(m), (x: (string, V)) => p(x.1))
  }

  /** The `_count` of related rows: how many rows of `m` satisfy `p`. */
  function Count<V>(m: map<string, V>, p: V -> bool): (n: nat)
    ensures n <= |m|
  {
    var ks := Matching(m, p);
    SubsetCard(ks, m.Keys);
    |ks|
  }

  /** The ids of the rows of `m` that satisfy `p`. */
  function Matching<V>(m: map<string, V>, p: V -> bool): (ks: set<string>)
    ensures ks <= m.Keys
  {
    set k | k in m && p(m[k])
  }

  lemma SubsetCard<K>(a: set<K>, b: set<K>)
    requires a <= b
    ensures |a| <= |b|
  {
    if a != {} {
      var x :| x in a;
      SubsetCard(a - {x}, b - {x});
    }
  }

  /** Adding a row that the predicate rejects leaves the count unchanged. */
  lemma CountIgnoresRejected<V>(m: map<string, V>, p: V -> bool, k: string, v: V)
    requires k !in m && !p(v)
    ensures Count(m[k := v], p) == Count(m, p)
  {
    assert Matching(m[k := v], p) == Matching(m, p);
  }

  /** Adding a row that the predicate accepts counts one more. */
  lemma CountAddsAccepted<V>(m: map<string, V>, p: V -> bool, k: string, v: V)
    requires k !in m && p(v)
    ensures Count(m[k := v], p) == Count(m, p) + 1
  {
    assert Matching(m[k := v], p) == Matching(m, p) + {k};
  }

  /** A listing of every row has one entry per row. */
  lemma ListingLength<V(!new)>(rows: map<string, V>, ps: seq<(string, V)>)
    requires forall x :: multiset(ps)[x] == if x.0 in rows && rows[x.0] == x.1 then 1 else 0
    ensures |ps| == |rows|
  {
    ghost var e := Enumerate(rows);
    assert multiset(ps) == multiset(e);
    assert |ps| == |multiset(ps)| == |multiset(e)| == |e|;
  }

  /** What a listing's multiset description says entry by entry: every entry
      is a row that passes, and every row that passes is an entry. */
  lemma ListingCovers<V(!new)>(m: map<string, V>, p: V -> bool, ps: seq<(string, V)>)
    requires forall x :: multiset(ps)[x] == if x.0 in m && m[x.0] == x.1 && p(x.1) then 1 else 0
    ensures forall i :: 0 <= i < |ps| ==> ps[i].0 in m && m[ps[i].0] == ps[i].1 && p(ps[i].1)
    ensures forall k :: k in m && p(m[k]) ==> (k, m[k]) in ps
  {
    assert forall i :: 0 <= i < |ps| ==> ps[i] in multiset(ps);
    forall k | k in m && p(m[k]) ensures (k, m[k]) in ps {
      assert (k, m[k]) in multiset(ps);
    }
  }

  /** A listing that holds each row at most once never repeats an id. */
  lemma ListingDistinct<V(!new)>(m: map<string, V>, p: V -> bool, ps: seq<(string, V)>)
    requires forall x :: multiset(ps)[x] == if x.0 in m && m[x.0] == x.1 && p(x.1) then 1 else 0
    ensures forall i, j :: 0 <= i < j < |ps| ==> ps[i].0 != ps[j].0
  {
    forall i, j | 0 <= i < j < |ps| ensures ps[i].0 != ps[j].0 {
      assert ps[i] in multiset(ps) && ps[j] in multiset(ps);
      if ps[i].0 == ps[j].0 {
        TwiceCountsTwice(ps, i, j);
        assert false;
      }
    }
  }

  /** An element at two positions occurs at least twice. */
  lemma TwiceCountsTwice<T>(s: seq<T>, i: int, j: int)
    requires 0 <= i < j < |s| && s[i] == s[j]
    ensures multiset(s)[s[i]] >= 2
  {
    assert s == s[..j] + s[j..];
    assert s[i] in s[..j];
    assert s[j] == s[j..][0];
    assert multiset(s) == multiset(s[..j]) + multiset(s[j..]);
  }

  /** Every row that passes, as the position of its entry. */
  ghost predicate Covers<V>(m: map<string, V>, p: V -> bool, ps: seq<(string, V)>) {
    forall k :: k in m && p(m[k]) ==> exists i :: 0 <= i < |ps| && ps[i].0 == k
  }

  /** Entries that are rows passing `p`, with no id twice. */
  ghost predicate Faithful<V>(m: map<string, V>, p: V -> bool, ps: seq<(string, V)>) {
    && (forall i :: 0 <= i < |ps| ==> ps[i].0 in m && m[ps[i].0] == ps[i].1 && p(ps[i].1))
    && (forall i, j :: 0 <= i < j < |ps| ==> ps[i].0 != ps[j].0)
  }

  /** The multiset description of a listing, entry by entry. */
  lemma Entrywise<V(!new)>(m: map<string, V>, p: V -> bool, ps: seq<(string, V)>)
    requires forall x :: multiset(ps)[x] == if x.0 in m && m[x.0] == x.1 && p(x.1) then 1 else 0
    ensures Faithful(m, p, ps) && Covers(m, p, ps)
  {
    ListingCovers(m, p, ps);
    ListingDistinct(m, p, ps);
    forall k | k in m && p(m[k]) ensures exists i :: 0 <= i < |ps| && ps[i].0 == k {
      var i :| 0 <= i < |ps| && ps[i] == (k, m[k]);
    }
  }

  /** `Listing`, stated entry by entry. */
  ghost function Ordered<V(!new)>(m: map<string, V>, p: V -> bool,
                                  leq: ((string, V), (string, V)) -> bool): (r: seq<(string, V)>)
    requires TotalPreorder(leq)
    ensures Faithful(m, p, r) && Covers(m, p, r) && SortedBy(r, leq)
  {
    var r := Listing(m, p, leq);
    Entrywise(m, p, r);
    r
  }

  /** `Rows`, stated entry by entry. */
  ghost function Unordered<V(!new)>(m: map<string, V>, p: V -> bool): (r: seq<(string, V)>)
    ensures Faithful(m, p, r) && Covers(m, p, r)
  {
    var r := Rows(m, p);
    Entrywise(m, p, r);
    r
  }
}
