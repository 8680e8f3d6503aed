/** Generic sequence helpers for the in-memory tables: filtering (a query-set `filter`),
    lookup by primary key (`get(pk=...)`), and a stable sort by an integer key
    (an `order_by`). */
module Seqs {
  import opened Wrappers

  /** The elements of `s` that satisfy `keep`, in their original order. */
  function Filter<T(==, !new)>(s: seq<T>, keep: T -> bool): (r: seq<T>)
    ensures |r| <= |s|
    ensures forall x :: x in r <==> x in s && keep(x)
  {
    assert s != [] ==> s == [s[0]] + s[1..];
    if s == [] then []
    else if keep(s[0]) then [s[0]] + Filter(s[1..], keep)
    else Filter(s[1..], keep)
  }

  /** Filtering keeps every passing element as often as it occurs, and drops the others. */
  lemma {:induction false} FilterMultiset<T(!new)>(s: seq<T>, keep: T -> bool)
    ensures forall x :: multiset(Filter(s, keep))[x] == if keep(x) then multiset(s)[x] else 0
  {
    if s != [] {
      assert s == [s[0]] + s[1..];
      FilterMultiset(s[1..], keep);
    }
  }

  /** The set of keys that occur in `s`. */
  function Ids<T(==)>(s: seq<T>, key: T -> nat): set<nat>
  {
    set x | x in s :: key(x)
  }

  /** No two positions of `s` carry the same key (a primary-key constraint). */
  ghost predicate UniqueBy<T>(s: seq<T>, key: T -> nat)
  {
    forall i, j :: 0 <= i < j < |s| ==> key(s[i]) != key(s[j])
  }

  /** The first element of `s` whose key is `k`, if any. */
  function FindBy<T(==)>(s: seq<T>, key: T -> nat, k: nat): (r: Option<T>)
    ensures r.Some? ==> r.value in s && key(r.value) == k
    ensures r.None? <==> k !in Ids(s, key)
  {
    if s == [] then None
    else if key(s[0]) == k then Some(s[0])
    else FindBy(s[1..], key, k)
  }

  /** Under a primary-key constraint, looking up an element's key finds that element. */
  lemma {:induction false} FindByUnique<T>(s: seq<T>, key: T -> nat, x: T)
    requires UniqueBy(s, key)
    requires x in s
    ensures FindBy(s, key, key(x)) == Some(x)
  {
    if s[0] != x {
      var k :| 0 <= k < |s| && s[k] == x;
      assert k > 0;
      assert s[1..][k - 1] == x;
      FindByUnique(s[1..], key, x);
    }
  }

  /** Rewriting every element of `s` by a key-preserving `f` rewrites what a lookup finds by `f`. */
  lemma {:induction false} FindByMapped<T>(s: seq<T>, t: seq<T>, key: T -> nat, f: T -> T, k: nat)
    requires |t| == |s|
    requires forall i :: 0 <= i < |s| ==> t[i] == f(s[i]) && key(t[i]) == key(s[i])
    ensures FindBy(t, key, k) == match FindBy(s, key, k) case Some(x) => Some(f(x)) case None => None
  {
    if s != [] && key(s[0]) != k {
      FindByMapped(s[1..], t[1..], key, f, k);
    }
  }

  /** Filtering a table keeps its primary-key constraint. */
  lemma {:induction false} FilterUnique<T(!new)>(s: seq<T>, keep: T -> bool, key: T -> nat)
    requires UniqueBy(s, key)
    ensures UniqueBy(Filter(s, keep), key)
  {
    if s != [] {
      FilterUnique(s[1..], keep, key);
      if keep(s[0]) {
        var rest := Filter(s[1..], keep);
        var r := [s[0]] + rest;
        forall i, j | 0 <= i < j < |r| ensures key(r[i]) != key(r[j]) {
          if i == 0 {
            assert r[j] in s[1..];
            var k :| 0 <= k < |s[1..]| && s[1..][k] == r[j];
            assert s[k + 1] == r[j];
          } else {
            assert r[i] == rest[i - 1] && r[j] == rest[j - 1];
          }
        }
      }
    }
  }

  /** Filtering keeps a sequence whose every element passes. */
  lemma {:induction false} FilterKeepsAll<T(!new)>(s: seq<T>, keep: T -> bool)
    requires forall x :: x in s ==> keep(x)
    ensures Filter(s, keep) == s
  {
    if s != [] {
      assert forall x :: x in s[1..] ==> x in s;
      FilterKeepsAll(s[1..], keep);
    }
  }

  /** A prefix whose every element fails contributes nothing to a filter. */
  lemma {:induction false} FilterSkipsPrefix<T(!new)>(a: seq<T>, b: seq<T>, keep: T -> bool)
    requires forall x :: x in a ==> !keep(x)
    ensures Filter(a + b, keep) == Filter(b, keep)
  {
    if a != [] {
      var ab := a + b;
      assert ab[0] == a[0] && ab[1..] == a[1..] + b;
      assert !keep(ab[0]);
      assert Filter(ab, keep) == Filter(ab[1..], keep);
      assert forall x :: x in a[1..] ==> x in a;
      FilterSkipsPrefix(a[1..], b, keep);
    } else {
      assert a + b == b;
    }
  }

  /** The keys of a non-empty sequence: its head's and its tail's. */
  lemma IdsCons<T>(s: seq<T>, key: T -> nat)
    requires s != []
    ensures Ids(s, key) == {key(s[0])} + Ids(s[1..], key)
  {
    forall k | k in Ids(s, key) ensures k in {key(s[0])} + Ids(s[1..], key) {
      var x :| x in s && key(x) == k;
      var i :| 0 <= i < |s| && s[i] == x;
      if i > 0 {
        assert s[1..][i - 1] == x;
      }
    }
    forall k | k in Ids(s[1..], key) ensures k in Ids(s, key) {
      var x :| x in s[1..] && key(x) == k;
      assert x in s;
    }
  }

  /** The tail of a sequence with distinct keys has distinct keys, none of them the head's. */
  lemma UniqueTail<T>(s: seq<T>, key: T -> nat)
    requires UniqueBy(s, key) && s != []
    ensures UniqueBy(s[1..], key) && key(s[0]) !in Ids(s[1..], key)
  {
    var t := s[1..];
    forall i, j | 0 <= i < j < |t| ensures key(t[i]) != key(t[j]) {
      assert t[i] == s[i + 1] && t[j] == s[j + 1];
    }
  }

  /** Appending an element with a new key keeps the primary-key constraint. */
  lemma AppendUnique<T>(s: seq<T>, key: T -> nat, x: T)
    requires UniqueBy(s, key)
    requires key(x) !in Ids(s, key)
    ensures UniqueBy(s + [x], key)
  {
    var r := s + [x];
    forall i, j | 0 <= i < j < |r| ensures key(r[i]) != key(r[j]) {
      if j == |s| {
        assert r[i] in s;
      } else {
        assert r[i] == s[i] && r[j] == s[j];
      }
    }
  }

  /** In a sequence with distinct keys every element occurs once. */
  lemma UniqueOccursOnce<T>(s: seq<T>, key: T -> nat, a: nat)
    requires UniqueBy(s, key) && a < |s|
    ensures multiset(s)[s[a]] == 1
  {
    var x := s[a];
    assert s == s[..a] + [x] + s[a + 1..];
    forall c | 0 <= c < |s| && c != a ensures s[c] != x {
      assert key(s[c]) != key(s[a]);
    }
    assert x !in s[..a] && x !in s[a + 1..];
  }

  /** Reordering a sequence with distinct keys keeps its keys distinct. */
  lemma PermutationKeepsUnique<T>(s: seq<T>, t: seq<T>, key: T -> nat)
    requires UniqueBy(s, key) && multiset(t) == multiset(s)
    ensures UniqueBy(t, key)
  {
    forall i, j | 0 <= i < j < |t| ensures key(t[i]) != key(t[j]) {
      if key(t[i]) == key(t[j]) {
        assert t[i] in multiset(s) && t[j] in multiset(s);
        var a :| 0 <= a < |s| && s[a] == t[i];
        var b :| 0 <= b < |s| && s[b] == t[j];
        assert a == b;
        assert t == t[..j] + t[j..];
        assert t[i] in t[..j] && t[j] in t[j..];
        UniqueOccursOnce(s, key, a);
      }
    }
  }

  /** `s` is in non-decreasing order of `key`. */
  ghost predicate SortedBy<T>(s: seq<T>, key: T -> int)
  {
    forall i, j :: 0 <= i < j < |s| ==> key(s[i]) <= key(s[j])
  }

  /** Inserts `x` into the sorted `s`, before every element whose key is not smaller. */
  function InsertBy<T(==, !new)>(x: T, s: seq<T>, key: T -> int): (r: seq<T>)
    requires SortedBy(s, key)
    ensures SortedBy(r, key)
    ensures multiset(r) == multiset(s) + multiset{x}
    ensures forall y :: y in r <==> y == x || y in s
  {
    if s == [] || key(x) <= key(s[0]) then [x] + s
    else
      var rest := InsertBy(x, s[1..], key);
      assert s == [s[0]] + s[1..];
      assert forall y :: y in rest ==> key(s[0]) <= key(y);
      [s[0]] + rest
  }

  /** A stable insertion sort of `s` by ascending `key`. */
  function SortBy<T(==, !new)>(s: seq<T>, key: T -> int): (r: seq<T>)
    ensures SortedBy(r, key)
    ensures forall y :: y in r <==> y in s
  {
    if s == [] then []
    else
      assert s == [s[0]] + s[1..];
      InsertBy(s[0], SortBy(s[1..], key), key)
  }

  /** Sorting only reorders: every element keeps its multiplicity. */
  lemma {:induction false} SortByPermutes<T(!new)>(s: seq<T>, key: T -> int)
    ensures multiset(SortBy(s, key)) == multiset(s)
  {
    if s != [] {
      assert s == [s[0]] + s[1..];
      SortByPermutes(s[1..], key);
    }
  }
}
