/** The LINQ operators the repository composes (`Where`, `FirstOrDefault`, `OrderBy`/`ThenBy`),
    over in-memory sequences. Strings are ordered by ordinal (code point) comparison. */
module Sequences {
  import opened Wrappers

  /** `r` is `s` with some elements removed and the rest in their original order. */
  predicate IsSubsequence<T(==)>(r: seq<T>, s: seq<T>)
    decreases |s|
  {
    r == [] || (s != [] && ((r[0] == s[0] && IsSubsequence(r[1..], s[1..])) || IsSubsequence(r, s[1..])))
  }

  /** `Where(p)`: keeps exactly the elements satisfying `p`, every copy of them, in order. */
  function Filter<T(==,!new)>(s: seq<T>, p: T -> bool): (r: seq<T>)
    ensures forall i | 0 <= i < |r| :: p(r[i])
    ensures forall x :: multiset(r)[x] == if p(x) then multiset(s)[x] else 0
    ensures IsSubsequence(r, s)
  {
    if s == [] then []
    else
      assert s == [s[0]] + s[1..];
      if p(s[0]) then [s[0]] + Filter(s[1..], p) else Filter(s[1..], p)
  }

  lemma {:induction false} FilterNone<T(!new)>(s: seq<T>, p: T -> bool)
    ensures Filter(s, p) == [] <==> forall j | 0 <= j < |s| :: !p(s[j])
  {
    if s != [] {
      FilterNone(s[1..], p);
      assert forall j | 1 <= j < |s| :: s[j] == s[1..][j - 1];
    }
  }

  /** When exactly one element satisfies `p`, `Where(p)` is that element alone. */
  lemma {:induction false} FilterUnique<T(!new)>(s: seq<T>, p: T -> bool, i: nat)
    requires i < |s| && p(s[i]) && forall j | 0 <= j < |s| && j != i :: !p(s[j])
    ensures Filter(s, p) == [s[i]]
  {
    assert forall j | 1 <= j < |s| :: s[j] == s[1..][j - 1];
    if i == 0 {
      FilterNone(s[1..], p);
    } else {
      FilterUnique(s[1..], p, i - 1);
    }
  }

  /** `Where(p)` has one element only when exactly one element satisfies `p`. */
  lemma {:induction false} FilterOne<T(!new)>(s: seq<T>, p: T -> bool)
    requires |Filter(s, p)| == 1
    ensures exists i | 0 <= i < |s| :: p(s[i]) && forall j | 0 <= j < |s| && j != i :: !p(s[j])
  {
    assert forall j | 1 <= j < |s| :: s[j] == s[1..][j - 1];
    if p(s[0]) {
      FilterNone(s[1..], p);
      assert p(s[0]) && forall j | 0 <= j < |s| && j != 0 :: !p(s[j]);
    } else {
      FilterOne(s[1..], p);
      var i :| 0 <= i < |s| - 1 && p(s[1..][i]) && forall j | 0 <= j < |s| - 1 && j != i :: !p(s[1..][j]);
      assert p(s[i + 1]) && forall j | 0 <= j < |s| && j != i + 1 :: !p(s[j]);
    }
  }

  /** Exactly one element of `s` satisfies `p`. */
  predicate ExactlyOne<T>(s: seq<T>, p: T -> bool) {
    exists i | 0 <= i < |s| :: p(s[i]) && forall j | 0 <= j < |s| && j != i :: !p(s[j])
  }

  /** `Where(p)` has exactly one element exactly when one element satisfies `p`. */
  lemma FilterExactlyOne<T(!new)>(s: seq<T>, p: T -> bool)
    ensures |Filter(s, p)| == 1 <==> ExactlyOne(s, p)
  {
    if |Filter(s, p)| == 1 {
      FilterOne(s, p);
    }
    if ExactlyOne(s, p) {
      var i :| 0 <= i < |s| && p(s[i]) && forall j | 0 <= j < |s| && j != i :: !p(s[j]);
      FilterUnique(s, p, i);
    }
  }

  /** `FirstOrDefault(p)`: the first element satisfying `p`, or null. */
  function FirstWhere<T>(s: seq<T>, p: T -> bool): (r: Option<T>)
    ensures r.None? <==> forall i | 0 <= i < |s| :: !p(s[i])
    ensures r.Some? ==> exists k | 0 <= k < |s| :: s[k] == r.value && p(s[k]) && forall j | 0 <= j < k :: !p(s[j])
  {
    if s == [] then None
    else if p(s[0]) then Some(s[0])
    else
      var r := FirstWhere(s[1..], p);
      assert r.Some? ==> exists k | 0 <= k < |s| :: s[k] == r.value && p(s[k]) && forall j | 0 <= j < k :: !p(s[j]) by {
        if r.Some? {
          var k :| 0 <= k < |s| - 1 && s[1..][k] == r.value && p(s[1..][k]) && forall j | 0 <= j < k :: !p(s[1..][j]);
          assert s[k + 1] == r.value && forall j | 0 <= j < k + 1 :: !p(s[j]);
        }
      }
      r
  }

  /** Ordinal comparison of strings: `a` sorts no later than `b`. */
  predicate StrLeq(a: string, b: string) {
    if a == [] then true
    else if b == [] then false
    else if a[0] != b[0] then a[0] < b[0]
    else StrLeq(a[1..], b[1..])
  }

  lemma {:induction false} StrLeqTotal(a: string, b: string)
    ensures StrLeq(a, b) || StrLeq(b, a)
  {
    if a != [] && b != [] && a[0] == b[0] {
      StrLeqTotal(a[1..], b[1..]);
    }
  }

  lemma {:induction false} StrLeqAntisymmetric(a: string, b: string)
    requires StrLeq(a, b) && StrLeq(b, a)
    ensures a == b
  {
    if a != [] && b != [] {
      StrLeqAntisymmetric(a[1..], b[1..]);
      assert a == [a[0]] + a[1..] && b == [b[0]] + b[1..];
    }
  }

  lemma {:induction false} StrLeqTransitive(a: string, b: string, c: string)
    requires StrLeq(a, b) && StrLeq(b, c)
    ensures StrLeq(a, c)
  {
    if a != [] && b != [] && c != [] && a[0] == b[0] && b[0] == c[0] {
      StrLeqTransitive(a[1..], b[1..], c[1..]);
    }
  }

  /** Lexicographic order on sort keys (`OrderBy(k0).ThenBy(k1)...`). */
  predicate KeysLeq(a: seq<string>, b: seq<string>) {
    if a == [] then true
    else if b == [] then false
    else if a[0] != b[0] then StrLeq(a[0], b[0])
    else KeysLeq(a[1..], b[1..])
  }

  lemma {:induction false} KeysLeqTotal(a: seq<string>, b: seq<string>)
    ensures KeysLeq(a, b) || KeysLeq(b, a)
  {
    if a != [] && b != [] {
      if a[0] == b[0] {
        KeysLeqTotal(a[1..], b[1..]);
      } else {
        StrLeqTotal(a[0], b[0]);
      }
    }
  }

  lemma {:induction false} KeysLeqTransitive(a: seq<string>, b: seq<string>, c: seq<string>)
    requires KeysLeq(a, b) && KeysLeq(b, c)
    ensures KeysLeq(a, c)
  {
    if a != [] && b != [] && c != [] {
      if a[0] == b[0] && b[0] == c[0] {
        KeysLeqTransitive(a[1..], b[1..], c[1..]);
      } else if a[0] == b[0] || b[0] == c[0] {
      } else {
        StrLeqTransitive(a[0], b[0], c[0]);
        if a[0] == c[0] {
          StrLeqAntisymmetric(a[0], b[0]);
        }
      }
    }
  }

  ghost predicate SortedBy<T>(s: seq<T>, key: T -> seq<string>) {
    forall i, j | 0 <= i < j < |s| :: KeysLeq(key(s[i]), key(s[j]))
  }

  /** Every element of `s` sorts no earlier than the key `k`. */
  ghost predicate AllAtLeast<T>(k: seq<string>, s: seq<T>, key: T -> seq<string>) {
    forall j | 0 <= j < |s| :: KeysLeq(k, key(s[j]))
  }

  lemma PrependSorted<T>(x: T, s: seq<T>, key: T -> seq<string>)
    requires SortedBy(s, key) && AllAtLeast(key(x), s, key)
    ensures SortedBy([x] + s, key)
  {
  }

  /** Inserts `x` before the first element it sorts no later than. */
  function Insert<T(==)>(x: T, s: seq<T>, key: T -> seq<string>): (r: seq<T>)
    ensures multiset(r) == multiset(s) + multiset{x}
  {
    if s == [] then [x]
    else if KeysLeq(key(x), key(s[0])) then [x] + s
    else
      assert s == [s[0]] + s[1..];
      [s[0]] + Insert(x, s[1..], key)
  }

  lemma {:induction false} InsertBound<T>(k: seq<string>, x: T, s: seq<T>, key: T -> seq<string>)
    requires AllAtLeast(k, s, key) && KeysLeq(k, key(x))
    ensures AllAtLeast(k, Insert(x, s, key), key)
  {
    if s != [] && !KeysLeq(key(x), key(s[0])) {
      InsertBound(k, x, s[1..], key);
    }
  }

  lemma {:induction false} InsertSorted<T>(x: T, s: seq<T>, key: T -> seq<string>)
    requires SortedBy(s, key)
    ensures SortedBy(Insert(x, s, key), key)
  {
    if s == [] {
    } else if KeysLeq(key(x), key(s[0])) {
      forall j | 0 <= j < |s| ensures KeysLeq(key(x), key(s[j])) {
        if j > 0 { KeysLeqTransitive(key(x), key(s[0]), key(s[j])); }
      }
      PrependSorted(x, s, key);
    } else {
      InsertSorted(x, s[1..], key);
      KeysLeqTotal(key(x), key(s[0]));
      InsertBound(key(s[0]), x, s[1..], key);
      PrependSorted(s[0], Insert(x, s[1..], key), key);
    }
  }

  /** `OrderBy(key)`: a permutation of `s` sorted by `key`. */
  function SortBy<T(==)>(s: seq<T>, key: T -> seq<string>): (r: seq<T>)
    ensures multiset(r) == multiset(s)
    ensures SortedBy(r, key)
  {
    if s == [] then []
    else
      assert s == [s[0]] + s[1..];
      var sorted := SortBy(s[1..], key);
      InsertSorted(s[0], sorted, key);
      Insert(s[0], sorted, key)
  }

  /** `Where` after `OrderBy` keeps the order: a filtered sorted sequence is sorted. */
  lemma {:induction false} FilterSorted<T(!new)>(s: seq<T>, p: T -> bool, key: T -> seq<string>)
    requires SortedBy(s, key)
    ensures SortedBy(Filter(s, p), key)
  {
    if s != [] {
      var rest := Filter(s[1..], p);
      FilterSorted(s[1..], p, key);
      if p(s[0]) {
        forall j | 0 <= j < |rest| ensures KeysLeq(key(s[0]), key(rest[j])) {
          assert multiset(rest)[rest[j]] > 0;
          assert rest[j] in s[1..];
        }
        PrependSorted(s[0], rest, key);
      }
    }
  }
}
