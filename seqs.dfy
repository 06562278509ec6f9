/**
 * Sequence operations that the table queries are built from: a filter (a
 * MongoDB `find`, `deleteOne`, `deleteMany` or `$pull` with a condition), the
 * first index satisfying a condition (a MongoDB `findOne`) and key uniqueness
 * (the `_id` primary key).
 */
module Seqs {
  import opened Common

  /** The elements of `s` that satisfy `p`, in their original order. */
  function Filter<T(!new)>(s: seq<T>, p: T -> bool): (r: seq<T>)
    ensures |r| <= |s|
    ensures forall x :: multiset(r)[x] == if p(x) then multiset(s)[x] else 0
    ensures forall x :: x in r <==> x in s && p(x)
    decreases |s|
  {
    if s == [] then []
    else
      assert s == [s[0]] + s[1..];
      if p(s[0]) then [s[0]] + Filter(s[1..], p) else Filter(s[1..], p)
  }

  /** Every occurrence of `x` removed, as MongoDB's `$pull` does on an array field. */
  function RemoveAll<T(==,!new)>(s: seq<T>, x: T): (r: seq<T>)
    ensures x !in r
    ensures forall y :: y != x ==> multiset(r)[y] == multiset(s)[y]
    ensures x !in s ==> r == s
  {
    assert x !in s ==> Filter(s, IsNot(x)) == s by {
      if x !in s { FilterAllPass(s, IsNot(x)); }
    }
    Filter(s, IsNot(x))
  }

  function IsNot<T(==)>(x: T): T -> bool { (y: T) => y != x }

  /** The index of the first element satisfying `p`, if there is one. */
  function IndexWhere<T>(s: seq<T>, p: T -> bool): (k: Option<nat>)
    ensures k.Some? ==> k.value < |s| && p(s[k.value])
    ensures k.Some? ==> forall j | 0 <= j < k.value :: !p(s[j])
    ensures k.None? <==> forall j | 0 <= j < |s| :: !p(s[j])
    decreases |s|
  {
    if s == [] then None
    else if p(s[0]) then Some(0)
    else match IndexWhere(s[1..], p)
      case None => None
      case Some(i) => Some(i + 1)
  }

  /** No two elements of `s` have the same key. */
  ghost predicate UniqueKeys<T, K>(s: seq<T>, key: T -> K) {
    forall i, j | 0 <= i < j < |s| :: key(s[i]) != key(s[j])
  }

  /** Under unique keys, an element is determined by its key. */
  lemma UniqueKeysSame<T, K>(s: seq<T>, key: T -> K, x: T, y: T)
    requires UniqueKeys(s, key) && x in s && y in s && key(x) == key(y)
    ensures x == y
  {
    var i :| 0 <= i < |s| && s[i] == x;
    var j :| 0 <= j < |s| && s[j] == y;
    UniqueKeysAt(s, key, i, j);
  }

  /** The keys of a tail are unique when those of the whole sequence are. */
  lemma UniqueKeysTail<T, K>(s: seq<T>, key: T -> K)
    requires s != [] && UniqueKeys(s, key)
    ensures UniqueKeys(s[1..], key)
    ensures forall y | y in s[1..] :: key(y) != key(s[0])
  {
    var rest := s[1..];
    forall i, j | 0 <= i < j < |rest| ensures key(rest[i]) != key(rest[j]) {
      assert rest[i] == s[i + 1] && rest[j] == s[j + 1];
    }
    forall y | y in rest ensures key(y) != key(s[0]) {
      var m :| 0 <= m < |rest| && rest[m] == y;
      assert s[m + 1] == y;
    }
  }

  /** A new head whose key occurs nowhere in a key-unique tail keeps keys unique. */
  lemma UniqueKeysCons<T, K>(x: T, t: seq<T>, key: T -> K)
    requires UniqueKeys(t, key) && forall y | y in t :: key(y) != key(x)
    ensures UniqueKeys([x] + t, key)
  {
    var r := [x] + t;
    forall i, j | 0 <= i < j < |r| ensures key(r[i]) != key(r[j]) {
      assert r[j] == t[j - 1];
      if i > 0 { assert r[i] == t[i - 1]; }
    }
  }

  /** Distinct positions of a key-unique sequence hold distinct keys. */
  lemma UniqueKeysAt<T, K>(s: seq<T>, key: T -> K, i: nat, j: nat)
    requires UniqueKeys(s, key) && i < |s| && j < |s|
    ensures i != j ==> key(s[i]) != key(s[j])
  {
    if j < i { assert key(s[j]) != key(s[i]); }
  }

  /** Appending an element with a new key keeps keys unique. */
  lemma UniqueKeysAppend<T, K>(s: seq<T>, x: T, key: T -> K)
    requires UniqueKeys(s, key) && forall y | y in s :: key(y) != key(x)
    ensures UniqueKeys(s + [x], key)
  {
    var r := s + [x];
    forall i, j | 0 <= i < j < |r| ensures key(r[i]) != key(r[j]) {
      assert r[i] == s[i];
      if j < |s| { assert r[j] == s[j]; } else { assert s[i] in s; }
    }
  }

  /** Replacing an element by one with the same key keeps keys unique. */
  lemma UniqueKeysUpdate<T, K>(s: seq<T>, k: nat, v: T, key: T -> K)
    requires UniqueKeys(s, key) && k < |s| && key(v) == key(s[k])
    ensures UniqueKeys(s[k := v], key)
  {
    var r := s[k := v];
    forall i, j | 0 <= i < j < |r| ensures key(r[i]) != key(r[j]) {
      assert key(r[i]) == key(s[i]) && key(r[j]) == key(s[j]);
    }
  }

  /** Filtering never creates a duplicate key. */
  lemma {:induction false} FilterKeepsUniqueKeys<T(!new), K>(s: seq<T>, p: T -> bool, key: T -> K)
    requires UniqueKeys(s, key)
    ensures UniqueKeys(Filter(s, p), key)
    decreases |s|
  {
    if s != [] {
      UniqueKeysTail(s, key);
      FilterKeepsUniqueKeys(s[1..], p, key);
      if p(s[0]) {
        UniqueKeysCons(s[0], Filter(s[1..], p), key);
      }
    }
  }

  /** Appending one element to the input appends it to the output when it passes. */
  lemma {:induction false} FilterAppend<T(!new)>(s: seq<T>, x: T, p: T -> bool)
    ensures Filter(s + [x], p) == Filter(s, p) + (if p(x) then [x] else [])
    decreases |s|
  {
    if s == [] {
      assert [] + [x] == [x];
      assert [x][1..] == [];
    } else {
      assert (s + [x])[0] == s[0];
      assert (s + [x])[1..] == s[1..] + [x];
      FilterAppend(s[1..], x, p);
    }
  }

  /** A filter that every element passes changes nothing. */
  lemma {:induction false} FilterAllPass<T(!new)>(s: seq<T>, p: T -> bool)
    requires forall x | x in s :: p(x)
    ensures Filter(s, p) == s
    decreases |s|
  {
    if s != [] {
      assert forall x | x in s[1..] :: x in s;
      FilterAllPass(s[1..], p);
      assert s == [s[0]] + s[1..];
    }
  }

  /** Two conditions that agree on every element of `s` filter it alike. */
  lemma {:induction false} FilterAgree<T(!new)>(s: seq<T>, p: T -> bool, q: T -> bool)
    requires forall x | x in s :: p(x) == q(x)
    ensures Filter(s, p) == Filter(s, q)
    decreases |s|
  {
    if s != [] {
      assert forall x | x in s[1..] :: x in s;
      FilterAgree(s[1..], p, q);
    }
  }

  /** Filtering by `p` and then by `q` is filtering by their conjunction `r`. */
  lemma {:induction false} FilterTwice<T(!new)>(s: seq<T>, p: T -> bool, q: T -> bool, r: T -> bool)
    requires forall x | x in s :: (p(x) && q(x)) == r(x)
    ensures Filter(Filter(s, p), q) == Filter(s, r)
    decreases |s|
  {
    if s != [] {
      assert forall x | x in s[1..] :: x in s;
      FilterTwice(s[1..], p, q, r);
      var t := Filter(s[1..], p);
      if p(s[0]) {
        assert Filter(s, p) == [s[0]] + t;
        assert ([s[0]] + t)[0] == s[0] && ([s[0]] + t)[1..] == t;
      }
    }
  }

  /** Pushing an absent element and pulling it again restores the array. */
  lemma {:induction false} PullAfterPush<T(!new)>(s: seq<T>, x: T)
    requires x !in s
    ensures RemoveAll(s + [x], x) == s
  {
    FilterAppend(s, x, IsNot(x));
    FilterAllPass(s, IsNot(x));
  }
}
