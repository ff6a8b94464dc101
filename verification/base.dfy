/** Shared vocabulary of the table store model: optional values, results that
    carry one of the store's error outcomes, and sequence helpers for the
    Python dicts and sets the store is built from. */
module Base {

  datatype Option<+T> = None | Some(value: T)

  /** Every way an operation of the store can be refused or fail. Outcomes the
      source only prints and those it raises as exceptions are both failures
      here: either way the operation stops and the caller sees one message. */
  datatype Error =
    | ReadOnlyViolation                       // write in a read-only transaction
    | ColumnCountMismatch                     // value count differs from column count
    | DuplicateValue(column: string, value: string)
    | TableExists(table: string)
    | TableNotFound(table: string)
    | ColumnNotFound(column: string)
    | ColumnExists(column: string)
    | OrderByNotSelected(column: string)      // `headers.index` raises ValueError
    | PrimaryKeyNotColumn(key: string)
    | UniqueKeyNotColumn(key: string)
    | PrimaryKeyDrop(column: string)          // the primary key column cannot be dropped
    | MissingPrimaryKey                       // CREATE TABLE without PRIMARY KEY
    | EmptyFile(table: string)                // `lines[0]` of an empty data file
    | NoColumns                               // `headers[0]` / `next(iter(...))` of a table without columns
    | MetadataNotLoaded(table: string)        // direct lookup in the metadata cache
    | MissingEquals                           // a condition without `=`
    | KeywordMissing(keyword: string)         // `str.index` of an absent keyword

  datatype Result<+T> = Success(value: T) | Failure(error: Error)

  /** No element occurs twice. */
  predicate Distinct<T(==)>(s: seq<T>)
  {
    forall i, j :: 0 <= i < j < |s| ==> s[i] != s[j]
  }

  function Last<T>(s: seq<T>): T
    requires |s| > 0
  {
    s[|s| - 1]
  }

  lemma InitLast<T>(s: seq<T>)
    requires |s| > 0
    ensures s[..|s| - 1] + [Last(s)] == s
  {
  }

  /** Every element of a sub-multiset's sequence is an element of the larger one. */
  lemma SubMultisetIn<T>(a: seq<T>, b: seq<T>)
    requires multiset(a) <= multiset(b)
    ensures forall x :: x in a ==> x in b
  {
    forall x | x in a ensures x in b {
      assert x in multiset(a);
    }
  }

  /** The distinct elements of `s` in first-occurrence order: the key order of
      a Python dict built from `s`, and the members of `set(s)`. */
  function Dedup<T(==,!new)>(s: seq<T>): (r: seq<T>)
    ensures Distinct(r)
    ensures forall x :: x in r <==> x in s
    ensures Distinct(s) ==> r == s
  {
    if |s| == 0 then []
    else
      var prev := Dedup(s[..|s| - 1]);
      if Last(s) in prev then prev else prev + [Last(s)]
  }

  /** `Dedup` lists the distinct elements in the order of their first
      occurrence, which is how a Python dict orders keys inserted from `s`. */
  lemma {:induction false} DedupOrder<T(!new)>(s: seq<T>)
    ensures forall i, j :: 0 <= i < j < |Dedup(s)| ==> IndexOf(s, Dedup(s)[i]) < IndexOf(s, Dedup(s)[j])
    decreases |s|
  {
    if |s| > 0 {
      var init := s[..|s| - 1];
      var prev := Dedup(init);
      DedupOrder(init);
      InitLast(s);
      forall x | x in init ensures IndexOf(s, x) == IndexOf(init, x) {
        IndexOfPrefix(init, [Last(s)], x);
      }
      if Last(s) !in prev {
        assert forall j :: 0 <= j < |init| ==> s[j] == init[j] != Last(s);
      }
    }
  }

  /** The first occurrence of an element of `a` in `a + b` is the one in `a`. */
  lemma IndexOfPrefix<T>(a: seq<T>, b: seq<T>, x: T)
    requires x in a
    ensures x in a + b && IndexOf(a + b, x) == IndexOf(a, x)
  {
    var k := IndexOf(a, x);
    assert (a + b)[k] == x;
    assert forall j :: 0 <= j < k ==> (a + b)[j] == a[j];
  }

  /** `set.add`: `x` joins the members unless it is one already. */
  function Add<T(==,!new)>(s: seq<T>, x: T): (r: seq<T>)
    requires Distinct(s)
    ensures Distinct(r)
    ensures forall y :: y in r <==> y in s || y == x
  {
    if x in s then s else s + [x]
  }

  /** `set.discard`: every occurrence of `x` leaves, the rest keep their order. */
  function Discard<T(==,!new)>(s: seq<T>, x: T): (r: seq<T>)
    ensures Distinct(s) ==> Distinct(r)
    ensures forall y :: y in r <==> y in s && y != x
    ensures |r| <= |s|
  {
    if |s| == 0 then []
    else
      var rest := Discard(s[1..], x);
      assert Distinct(s) ==> s[0] !in s[1..];
      (if s[0] == x then [] else [s[0]]) + rest
  }

  /** `s.index(x)`: the position of the first occurrence of `x`. */
  function IndexOf<T(==)>(s: seq<T>, x: T): (i: nat)
    requires x in s
    ensures i < |s| && s[i] == x
    ensures forall j :: 0 <= j < i ==> s[j] != x
  {
    if s[0] == x then 0 else 1 + IndexOf(s[1..], x)
  }

  /** `s` without the element at position `i`. */
  function RemoveAt<T(==,!new)>(s: seq<T>, i: nat): (r: seq<T>)
    requires i < |s|
    ensures |r| == |s| - 1
    ensures forall j :: 0 <= j < i ==> r[j] == s[j]
    ensures forall j :: i <= j < |r| ==> r[j] == s[j + 1]
    ensures r == s[..i] + s[i + 1..]
    ensures Distinct(s) ==> Distinct(r) && forall x :: x in r <==> x in s && x != s[i]
  {
    var r := s[..i] + s[i + 1..];
    assert forall x :: x in s && x != s[i] ==> x in r by {
      forall x | x in s && x != s[i] ensures x in r {
        var j :| 0 <= j < |s| && s[j] == x;
        if j < i { assert r[j] == x; } else { assert r[j - 1] == x; }
      }
    }
    r
  }
}
