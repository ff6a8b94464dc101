/** Python's ordering of `str` values and its stable `sorted` / `list.sort`,
    which the store uses to order a transaction's tables and ORDER BY rows. */
module Sorting {
  import opened Base

  /** Python's `a < b` on strings: code point by code point, and a proper
      prefix before the longer string. */
  predicate Less(a: string, b: string)
    decreases |a|
  {
    if |a| == 0 then |b| > 0
    else if |b| == 0 then false
    else if a[0] != b[0] then a[0] < b[0]
    else Less(a[1..], b[1..])
  }

  lemma {:induction false} LessIrreflexive(a: string)
    ensures !Less(a, a)
    decreases |a|
  {
    if |a| > 0 {
      LessIrreflexive(a[1..]);
    }
  }

  lemma {:induction false} LessTransitive(a: string, b: string, c: string)
    requires Less(a, b) && Less(b, c)
    ensures Less(a, c)
    decreases |a|
  {
    if |a| > 0 && a[0] == b[0] && b[0] == c[0] {
      LessTransitive(a[1..], b[1..], c[1..]);
    }
  }

  /** Any two different strings are ordered one way or the other, and never both. */
  lemma {:induction false} LessTotal(a: string, b: string)
    ensures a == b || Less(a, b) || Less(b, a)
    ensures !(Less(a, b) && Less(b, a))
    decreases |a|
  {
    if |a| > 0 && |b| > 0 && a[0] == b[0] {
      LessTotal(a[1..], b[1..]);
      if a[1..] == b[1..] {
        assert a == [a[0]] + a[1..] && b == [b[0]] + b[1..];
      }
    }
  }

  /** Ascending by `key`: no element's key is below an earlier one's. */
  predicate SortedBy<T>(s: seq<T>, key: T -> string)
  {
    forall i, j :: 0 <= i < j < |s| ==> !Less(key(s[j]), key(s[i]))
  }

  lemma SortedFront<T>(x: T, s: seq<T>, key: T -> string)
    requires SortedBy(s, key)
    requires forall y :: y in s ==> !Less(key(y), key(x))
    ensures SortedBy([x] + s, key)
  {
    forall i, j | 0 <= i < j < |s| + 1
      ensures !Less(key(([x] + s)[j]), key(([x] + s)[i]))
    {
      assert ([x] + s)[j] == s[j - 1];
      if i > 0 {
        assert ([x] + s)[i] == s[i - 1];
      }
    }
  }

  lemma BelowFirst<T>(x: T, s: seq<T>, key: T -> string)
    requires SortedBy(s, key) && |s| > 0
    requires Less(key(x), key(s[0]))
    ensures forall y :: y in s ==> Less(key(x), key(y)) && !Less(key(y), key(x))
  {
    forall y | y in s ensures Less(key(x), key(y)) && !Less(key(y), key(x)) {
      var j :| 0 <= j < |s| && s[j] == y;
      if j > 0 {
        assert !Less(key(s[j]), key(s[0]));
        LessTotal(key(s[0]), key(y));
        if key(y) != key(s[0]) {
          LessTransitive(key(x), key(s[0]), key(y));
        }
      }
      LessTotal(key(x), key(y));
    }
  }

  /** Places `x` just before the first element whose key is greater than
      `x`'s, so after every element with an equal key. */
  function InsertBy<T>(s: seq<T>, x: T, key: T -> string): (r: seq<T>)
    ensures multiset(r) == multiset(s) + multiset{x}
    ensures |r| == |s| + 1
    ensures SortedBy(s, key) ==> SortedBy(r, key)
  {
    if |s| == 0 then [x]
    else if Less(key(x), key(s[0])) then
      FrontSorted(s, x, key);
      [x] + s
    else
      var rest := InsertBy(s[1..], x, key);
      assert s == [s[0]] + s[1..];
      RestSorted(s, x, key, rest);
      [s[0]] + rest
  }

  /** An element below the first of a sorted sequence goes in front. */
  lemma FrontSorted<T>(s: seq<T>, x: T, key: T -> string)
    requires |s| > 0 && Less(key(x), key(s[0]))
    ensures SortedBy(s, key) ==> SortedBy([x] + s, key)
  {
    if SortedBy(s, key) {
      BelowFirst(x, s, key);
      SortedFront(x, s, key);
    }
  }

  /** The first element of a sorted sequence stays in front of the rest
      with `x` inserted, when `x` is not below it. */
  lemma RestSorted<T>(s: seq<T>, x: T, key: T -> string, rest: seq<T>)
    requires |s| > 0 && !Less(key(x), key(s[0]))
    requires multiset(rest) == multiset(s[1..]) + multiset{x}
    requires SortedBy(s[1..], key) ==> SortedBy(rest, key)
    ensures SortedBy(s, key) ==> SortedBy([s[0]] + rest, key)
  {
    if SortedBy(s, key) {
      forall y | y in rest ensures !Less(key(y), key(s[0])) {
        assert y in multiset(rest);
        if y != x {
          assert y in multiset(s[1..]);
          var j :| 0 <= j < |s[1..]| && s[1..][j] == y;
          assert s[j + 1] == y;
        }
      }
      SortedFront(s[0], rest, key);
    }
  }

  /** Python's `sorted(s, key=key)`: a stable sort, here by insertion. A
      stable sort has one possible result, so this is the result Python's
      sort produces. */
  function SortBy<T>(s: seq<T>, key: T -> string): (r: seq<T>)
    ensures SortedBy(r, key)
    ensures multiset(r) == multiset(s)
    ensures |r| == |s|
  {
    if |s| == 0 then []
    else
      assert s == s[..|s| - 1] + [Last(s)];
      InsertBy(SortBy(s[..|s| - 1], key), Last(s), key)
  }

  /** The elements whose key is `k`, in their order in `s`. */
  function Matching<T>(s: seq<T>, key: T -> string, k: string): seq<T>
  {
    if |s| == 0 then []
    else (if key(s[0]) == k then [s[0]] else []) + Matching(s[1..], key, k)
  }

  lemma {:induction false} MatchingAppend<T>(a: seq<T>, b: seq<T>, key: T -> string, k: string)
    ensures Matching(a + b, key, k) == Matching(a, key, k) + Matching(b, key, k)
    decreases |a|
  {
    if |a| > 0 {
      assert (a + b)[1..] == a[1..] + b;
      MatchingAppend(a[1..], b, key, k);
    } else {
      assert a + b == b;
    }
  }

  lemma {:induction false} MatchingNone<T>(s: seq<T>, key: T -> string, k: string)
    requires forall y :: y in s ==> key(y) != k
    ensures Matching(s, key, k) == []
    decreases |s|
  {
    if |s| > 0 {
      assert forall y :: y in s[1..] ==> y in s;
      MatchingNone(s[1..], key, k);
    }
  }

  lemma MatchingCons<T>(y: T, s: seq<T>, key: T -> string, k: string)
    ensures Matching([y] + s, key, k) == (if key(y) == k then [y] else []) + Matching(s, key, k)
  {
    assert ([y] + s)[1..] == s;
  }

  lemma InsertFrontMatching<T>(s: seq<T>, x: T, key: T -> string, k: string)
    requires SortedBy(s, key) && |s| > 0
    requires Less(key(x), key(s[0]))
    ensures Matching([x] + s, key, k) == Matching(s, key, k) + (if key(x) == k then [x] else [])
  {
    MatchingCons(x, s, key, k);
    if key(x) == k {
      BelowFirst(x, s, key);
      LessIrreflexive(key(x));
      MatchingNone(s, key, k);
    }
  }

  lemma InsertByStep<T>(s: seq<T>, x: T, key: T -> string)
    requires |s| > 0 && !Less(key(x), key(s[0]))
    ensures InsertBy(s, x, key) == [s[0]] + InsertBy(s[1..], x, key)
  {
  }

  /** Inserting into a sorted sequence puts `x` after every element with
      the same key. */
  lemma {:induction false} InsertByMatching<T>(s: seq<T>, x: T, key: T -> string, k: string)
    requires SortedBy(s, key)
    ensures Matching(InsertBy(s, x, key), key, k)
            == Matching(s, key, k) + (if key(x) == k then [x] else [])
    decreases |s|
  {
    if |s| == 0 {
      MatchingCons(x, [], key, k);
    } else if Less(key(x), key(s[0])) {
      InsertFrontMatching(s, x, key, k);
    } else {
      assert SortedBy(s[1..], key);
      InsertByRestMatching(s, x, key, k);
    }
  }

  /** Putting one element in front of two sequences whose matches differ
      by a tail keeps them differing by that tail. */
  lemma ConsMatching<T>(y: T, r: seq<T>, s: seq<T>, tail: seq<T>, key: T -> string, k: string)
    requires Matching(r, key, k) == Matching(s, key, k) + tail
    ensures Matching([y] + r, key, k) == Matching([y] + s, key, k) + tail
  {
    assert ([y] + r)[1..] == r;
    assert ([y] + s)[1..] == s;
  }

  lemma {:induction false} InsertByRestMatching<T>(s: seq<T>, x: T, key: T -> string, k: string)
    requires |s| > 0 && SortedBy(s[1..], key) && !Less(key(x), key(s[0]))
    ensures Matching(InsertBy(s, x, key), key, k)
            == Matching(s, key, k) + (if key(x) == k then [x] else [])
    decreases |s|, 0
  {
    InsertByStep(s, x, key);
    InsertByMatching(s[1..], x, key, k);
    ConsMatching(s[0], InsertBy(s[1..], x, key), s[1..], if key(x) == k then [x] else [], key, k);
    assert [s[0]] + s[1..] == s;
  }

  lemma SortByStep<T>(s: seq<T>, key: T -> string)
    requires |s| > 0
    ensures SortBy(s, key) == InsertBy(SortBy(s[..|s| - 1], key), Last(s), key)
  {
  }

  lemma SnocMatching<T>(s: seq<T>, y: T, key: T -> string, k: string)
    ensures Matching(s + [y], key, k) == Matching(s, key, k) + (if key(y) == k then [y] else [])
  {
    MatchingAppend(s, [y], key, k);
    assert [y][1..] == [];
  }

  /** The sort is stable: the elements sharing any one key keep their order. */
  lemma {:induction false} SortByStable<T>(s: seq<T>, key: T -> string, k: string)
    ensures Matching(SortBy(s, key), key, k) == Matching(s, key, k)
    decreases |s|
  {
    if |s| > 0 {
      var init := s[..|s| - 1];
      InitLast(s);
      SortByStep(s, key);
      SortByStable(init, key, k);
      InsertByMatching(SortBy(init, key), Last(s), key, k);
      SnocMatching(init, Last(s), key, k);
    }
  }

  /** A stable sort cut short keeps, for every key, a prefix of the
      elements with that key in their input order. */
  lemma {:induction false} MatchingPrefix<T>(s: seq<T>, n: nat, key: T -> string, k: string)
    requires n <= |s|
    ensures Matching(s[..n], key, k) <= Matching(s, key, k)
  {
    assert s == s[..n] + s[n..];
    MatchingAppend(s[..n], s[n..], key, k);
  }

  /** How many elements Python's `s[:limit]` keeps of `n`: a limit that is
      not negative caps the count, a negative one leaves out that many from
      the end, and the count never drops below zero. */
  function Kept(n: nat, limit: int): (k: nat)
    ensures k <= n
  {
    if 0 <= limit then (if n <= limit then n else limit)
    else if n + limit < 0 then 0
    else n + limit
  }

  /** Python's `s[:limit]`: the first `limit` elements, or all of them when
      there are no more than `limit`; a negative limit leaves out the last
      `-limit` elements. */
  function Take<T>(s: seq<T>, limit: int): (r: seq<T>)
    ensures 0 <= limit ==> |r| == if |s| <= limit then |s| else limit
    ensures limit < 0 ==> |r| == if |s| + limit < 0 then 0 else |s| + limit
    ensures r == s[..|r|]
    ensures multiset(r) <= multiset(s)
  {
    var n := Kept(|s|, limit);
    assert s == s[..n] + s[n..];
    s[..n]
  }
}
