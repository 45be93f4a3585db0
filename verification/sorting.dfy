/** Sorting by a string key under an abstract comparison. The generator sorts
    with culture-sensitive String.CompareTo; here that comparison is the
    parameter `le` ("a sorts no later than b"), assumed only to be a total
    preorder where sortedness is claimed. */
module Sorting {

  ghost predicate TotalPreorder(le: (string, string) -> bool) {
    && (forall a, b :: le(a, b) || le(b, a))
    && (forall a, b, c :: le(a, b) && le(b, c) ==> le(a, c))
  }

  ghost predicate SortedOn<T>(xs: seq<T>, key: T -> string, le: (string, string) -> bool) {
    forall i, j | 0 <= i < j < |xs| :: le(key(xs[i]), key(xs[j]))
  }

  /** Inserts `x` before the first element that does not sort before it. */
  function Insert<T>(x: T, xs: seq<T>, key: T -> string, le: (string, string) -> bool): (r: seq<T>)
    ensures multiset(r) == multiset(xs) + multiset{x}
    ensures |r| == |xs| + 1
  {
    if |xs| == 0 then [x]
    else if le(key(x), key(xs[0])) then [x] + xs
    else
      assert xs == [xs[0]] + xs[1..];
      [xs[0]] + Insert(x, xs[1..], key, le)
  }

  /** The list sorted by `key` under `le`: a permutation of the input. */
  function SortOn<T>(xs: seq<T>, key: T -> string, le: (string, string) -> bool): (r: seq<T>)
    ensures multiset(r) == multiset(xs)
    ensures |r| == |xs|
  {
    if |xs| == 0 then []
    else
      assert xs == [xs[0]] + xs[1..];
      Insert(xs[0], SortOn(xs[1..], key, le), key, le)
  }

  lemma {:induction false} InsertSorted<T>(x: T, xs: seq<T>, key: T -> string, le: (string, string) -> bool)
    requires TotalPreorder(le)
    requires SortedOn(xs, key, le)
    ensures SortedOn(Insert(x, xs, key, le), key, le)
  {
    if |xs| > 0 && !le(key(x), key(xs[0])) {
      var tail := Insert(x, xs[1..], key, le);
      InsertSorted(x, xs[1..], key, le);
      assert le(key(xs[0]), key(x));
      assert forall k | 0 <= k < |tail| :: le(key(xs[0]), key(tail[k])) by {
        forall k | 0 <= k < |tail| ensures le(key(xs[0]), key(tail[k])) {
          assert tail[k] in multiset(tail);
          assert tail[k] == x || tail[k] in multiset(xs[1..]);
          if tail[k] != x {
            var m :| 0 <= m < |xs[1..]| && xs[1..][m] == tail[k];
            assert xs[1..][m] == xs[m + 1];
          }
        }
      }
      var r := [xs[0]] + tail;
      assert forall i, j | 0 <= i < j < |r| :: le(key(r[i]), key(r[j])) by {
        forall i, j | 0 <= i < j < |r| ensures le(key(r[i]), key(r[j])) {
          if i > 0 {
            assert r[i] == tail[i - 1] && r[j] == tail[j - 1];
          } else {
            assert r[j] == tail[j - 1];
          }
        }
      }
    } else if |xs| > 0 {
      var r := [x] + xs;
      assert forall i, j | 0 <= i < j < |r| :: le(key(r[i]), key(r[j])) by {
        forall i, j | 0 <= i < j < |r| ensures le(key(r[i]), key(r[j])) {
          if i > 0 {
            assert r[i] == xs[i - 1] && r[j] == xs[j - 1];
          } else {
            assert r[j] == xs[j - 1];
            assert le(key(xs[0]), key(xs[j - 1])) || j - 1 == 0;
          }
        }
      }
    }
  }

  /** Under a total preorder the result of `SortOn` is sorted. */
  lemma {:induction false} SortOnSorted<T>(xs: seq<T>, key: T -> string, le: (string, string) -> bool)
    requires TotalPreorder(le)
    ensures SortedOn(SortOn(xs, key, le), key, le)
  {
    if |xs| > 0 {
      SortOnSorted(xs[1..], key, le);
      InsertSorted(xs[0], SortOn(xs[1..], key, le), key, le);
    }
  }

  /** Elements are kept: every input element is in the output and vice versa. */
  lemma SortOnSameElements<T>(xs: seq<T>, key: T -> string, le: (string, string) -> bool)
    ensures forall x :: x in SortOn(xs, key, le) <==> x in xs
  {
    var r := SortOn(xs, key, le);
    forall x ensures x in r <==> x in xs {
      assert x in r <==> x in multiset(r);
      assert x in xs <==> x in multiset(xs);
    }
  }
}
