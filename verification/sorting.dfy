/** Ordering records by an integer key, as the services do with password
    priorities: `ORDER BY priority ASC` in the store and `sort.Slice` on the
    inputs. The model sorts stably by insertion. */
module Sorting {

  ghost predicate SortedBy<T>(s: seq<T>, key: T -> int) {
    forall i, j :: 0 <= i < j < |s| ==> key(s[i]) <= key(s[j])
  }

  /** Insert `x` after every element whose key is not greater than its own. */
  function InsertBy<T>(x: T, s: seq<T>, key: T -> int): (r: seq<T>)
    ensures |r| == |s| + 1
  {
    if |s| == 0 || key(x) < key(s[0]) then [x] + s
    else [s[0]] + InsertBy(x, s[1..], key)
  }

  function SortBy<T>(s: seq<T>, key: T -> int): (r: seq<T>)
    ensures |r| == |s|
  {
    if |s| == 0 then [] else InsertBy(s[0], SortBy(s[1..], key), key)
  }

  lemma {:induction false} InsertByElements<T>(x: T, s: seq<T>, key: T -> int)
    ensures multiset(InsertBy(x, s, key)) == multiset(s) + multiset{x}
    decreases |s|
  {
    if |s| > 0 && key(x) >= key(s[0]) {
      InsertByElements(x, s[1..], key);
      assert s == [s[0]] + s[1..];
    }
  }

  /** Sorting keeps the elements, each as often as it occurs. */
  lemma {:induction false} SortByElements<T>(s: seq<T>, key: T -> int)
    ensures multiset(SortBy(s, key)) == multiset(s)
    decreases |s|
  {
    if |s| > 0 {
      SortByElements(s[1..], key);
      InsertByElements(s[0], SortBy(s[1..], key), key);
      assert s == [s[0]] + s[1..];
    }
  }

  lemma {:induction false} InsertBySorted<T>(x: T, s: seq<T>, key: T -> int)
    requires SortedBy(s, key)
    ensures SortedBy(InsertBy(x, s, key), key)
    ensures |s| > 0 && key(x) >= key(s[0]) ==> InsertBy(x, s, key)[0] == s[0]
    decreases |s|
  {
    if |s| > 0 && key(x) >= key(s[0]) {
      var rest := InsertBy(x, s[1..], key);
      InsertBySorted(x, s[1..], key);
      InsertByFirst(x, s[1..], key);
      var r := [s[0]] + rest;
      forall i, j | 0 <= i < j < |r|
        ensures key(r[i]) <= key(r[j])
      {
        if i == 0 {
          assert r[j] == rest[j - 1];
        } else {
          assert r[i] == rest[i - 1] && r[j] == rest[j - 1];
        }
      }
    }
  }

  /** Every key in an insertion result is the inserted key or one of the
      original keys. */
  lemma {:induction false} InsertByFirst<T>(x: T, s: seq<T>, key: T -> int)
    ensures forall k :: 0 <= k < |InsertBy(x, s, key)| ==>
      key(InsertBy(x, s, key)[k]) == key(x) || exists m :: 0 <= m < |s| && key(InsertBy(x, s, key)[k]) == key(s[m])
    decreases |s|
  {
    if |s| > 0 && key(x) >= key(s[0]) {
      InsertByFirst(x, s[1..], key);
      var r := InsertBy(x, s, key);
      forall k | 1 <= k < |r|
        ensures key(r[k]) == key(x) || exists m :: 0 <= m < |s| && key(r[k]) == key(s[m])
      {
        assert r[k] == InsertBy(x, s[1..], key)[k - 1];
        if key(r[k]) != key(x) {
          var m :| 0 <= m < |s[1..]| && key(r[k]) == key(s[1..][m]);
          assert s[1..][m] == s[m + 1];
        }
      }
      assert key(r[0]) == key(s[0]);
    }
  }

  /** The result of sorting is ordered by the key. */
  lemma {:induction false} SortBySorted<T>(s: seq<T>, key: T -> int)
    ensures SortedBy(SortBy(s, key), key)
    decreases |s|
  {
    if |s| > 0 {
      SortBySorted(s[1..], key);
      InsertBySorted(s[0], SortBy(s[1..], key), key);
    }
  }
}
