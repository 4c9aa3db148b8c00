/** Sequence helpers used by the tables of the store: uniqueness of a key
    column and the order-preserving filter that a DELETE performs. */
module Seqs {

  /** No two rows of `s` agree on `key`: the meaning of a primary key or a
      unique index over the column that `key` projects. */
  predicate DistinctBy<T, K(==)>(s: seq<T>, key: T -> K) {
    forall i, j | 0 <= i < j < |s| :: key(s[i]) != key(s[j])
  }

  /** Appending a row whose key is new keeps the key unique. */
  lemma DistinctByAppend<T, K>(s: seq<T>, x: T, key: T -> K)
    requires DistinctBy(s, key)
    requires forall y | y in s :: key(y) != key(x)
    ensures DistinctBy(s + [x], key)
  {
  }

  /** The rows of `s` that satisfy `keep`, in their original order. */
  function Filter<T>(s: seq<T>, keep: T -> bool): (r: seq<T>)
    ensures |r| <= |s|
    ensures forall x | x in r :: x in s && keep(x)
    ensures forall x | x in s && keep(x) :: x in r
  {
    if s == [] then []
    else if keep(s[0]) then [s[0]] + Filter(s[1..], keep)
    else Filter(s[1..], keep)
  }

  /** Filtering never breaks the uniqueness of a key: the survivors are a
      subsequence of the original rows. */
  lemma {:induction false} FilterPreservesDistinctBy<T, K>(s: seq<T>, keep: T -> bool, key: T -> K)
    requires DistinctBy(s, key)
    ensures DistinctBy(Filter(s, keep), key)
  {
    if s != [] {
      var rest := s[1..];
      assert DistinctBy(rest, key) by {
        forall i, j | 0 <= i < j < |rest|
          ensures key(rest[i]) != key(rest[j])
        {
          assert rest[i] == s[i + 1] && rest[j] == s[j + 1];
        }
      }
      FilterPreservesDistinctBy(rest, keep, key);
      if keep(s[0]) {
        var f := Filter(rest, keep);
        var t := [s[0]] + f;
        forall i, j | 0 <= i < j < |t|
          ensures key(t[i]) != key(t[j])
        {
          if i == 0 {
            assert t[j] in rest;
            var k :| 0 <= k < |rest| && rest[k] == t[j];
            assert s[k + 1] == t[j];
          } else {
            assert t[i] == f[i - 1] && t[j] == f[j - 1];
          }
        }
      }
    }
  }

  /** Filtering rows none of which is kept leaves nothing. */
  lemma {:induction false} FilterKeepsNothing<T>(s: seq<T>, keep: T -> bool)
    requires forall x | x in s :: !keep(x)
    ensures Filter(s, keep) == []
  {
    if s != [] {
      assert forall x | x in s[1..] :: x in s;
      FilterKeepsNothing(s[1..], keep);
    }
  }

  lemma ConcatAssoc<T>(a: seq<T>, b: seq<T>, c: seq<T>)
    ensures a + b + c == a + (b + c)
  {
  }

  /** Filtering distributes over concatenation. */
  lemma {:induction false} FilterConcat<T>(a: seq<T>, b: seq<T>, keep: T -> bool)
    ensures Filter(a + b, keep) == Filter(a, keep) + Filter(b, keep)
  {
    if a != [] {
      assert (a + b)[1..] == a[1..] + b;
      FilterConcat(a[1..], b, keep);
    } else {
      assert a + b == b;
    }
  }

  /** Filtering distributes over appending a row. */
  lemma {:induction false} FilterAppend<T>(s: seq<T>, x: T, keep: T -> bool)
    ensures Filter(s + [x], keep) == Filter(s, keep) + (if keep(x) then [x] else [])
  {
    if s != [] {
      assert (s + [x])[1..] == s[1..] + [x];
      FilterAppend(s[1..], x, keep);
    } else {
      assert (s + [x])[1..] == [];
    }
  }
}
