/** Searching, removing and filtering on sequences: the language in which the buffer is specified. */
module Lists {

  ghost predicate Distinct<T(!new)>(s: seq<T>) {
    forall i, j | 0 <= i < j < |s| :: s[i] != s[j]
  }

  ghost predicate IsFirst(keys: seq<int>, key: int, i: int) {
    0 <= i < |keys| && keys[i] == key && forall j | 0 <= j < i :: keys[j] != key
  }

  lemma {:induction false} FirstExists(keys: seq<int>, key: int, n: nat)
    requires n < |keys| && keys[n] == key
    ensures exists i :: IsFirst(keys, key, i)
  {
    if j :| 0 <= j < n && keys[j] == key {
      FirstExists(keys, key, j);
    } else {
      assert IsFirst(keys, key, n);
    }
  }

  /** Where the first occurrence of `key` is, or |keys| when there is none. */
  ghost function FirstIndex(keys: seq<int>, key: int): (r: nat)
    ensures r <= |keys|
    ensures r < |keys| ==> keys[r] == key
    ensures forall j | 0 <= j < r :: keys[j] != key
    ensures r < |keys| <==> key in keys
  {
    if key in keys then
      var n :| 0 <= n < |keys| && keys[n] == key;
      FirstExists(keys, key, n);
      var i :| IsFirst(keys, key, i);
      i
    else |keys|
  }

  /** Among the first `n` keys the one at `m` is the first minimum. */
  ghost predicate LeadsUpTo(keys: seq<int>, m: nat, n: nat)
    requires m < n <= |keys|
  {
    (forall j | 0 <= j < n :: keys[m] <= keys[j]) && forall j | 0 <= j < m :: keys[m] < keys[j]
  }

  /** `i` is the first position that attains the minimum. */
  ghost predicate IsFirstMin(keys: seq<int>, i: int) {
    0 <= i < |keys| && LeadsUpTo(keys, i, |keys|)
  }

  /** The first position that attains the minimum. */
  ghost function FirstMin(keys: seq<int>): (r: nat)
    requires keys != []
    ensures IsFirstMin(keys, r)
  {
    ScanFindsFirstMin(keys, |keys|);
    FirstMinUpTo(keys, |keys|)
  }

  ghost function FirstMinUpTo(keys: seq<int>, n: nat): (r: nat)
    requires 0 < n <= |keys|
    ensures r < n
  {
    if n == 1 then 0
    else
      var m := FirstMinUpTo(keys, n - 1);
      if keys[n - 1] < keys[m] then n - 1 else m
  }

  lemma {:induction false} ScanFindsFirstMin(keys: seq<int>, n: nat)
    requires 0 < n <= |keys|
    ensures LeadsUpTo(keys, FirstMinUpTo(keys, n), n)
  {
    if n > 1 {
      ScanFindsFirstMin(keys, n - 1);
    }
  }

  /** The first position attaining the minimum is the first one holding that value. */
  lemma FirstMinIsFirstIndex(keys: seq<int>, i: int)
    requires IsFirstMin(keys, i)
    ensures FirstIndex(keys, keys[i]) == i
  {
  }

  function RemoveAt<T>(s: seq<T>, i: nat): (r: seq<T>)
    requires i < |s|
    ensures |r| == |s| - 1
    ensures forall j | 0 <= j < i :: r[j] == s[j]
    ensures forall j | i <= j < |r| :: r[j] == s[j + 1]
  {
    s[..i] + s[i + 1..]
  }

  lemma RemoveAtMembers<T>(s: seq<T>, i: nat)
    requires i < |s|
    ensures forall x | x in RemoveAt(s, i) :: x in s
    ensures forall x | x in s && x != s[i] :: x in RemoveAt(s, i)
    ensures multiset(s) == multiset(RemoveAt(s, i)) + multiset{s[i]}
  {
    assert s == s[..i] + [s[i]] + s[i + 1..];
    forall x | x in s && x != s[i]
      ensures x in RemoveAt(s, i)
    {
      var j :| 0 <= j < |s| && s[j] == x;
      assert RemoveAt(s, i)[if j < i then j else j - 1] == x;
    }
  }

  lemma RemoveAtDistinct(s: seq<int>, i: nat)
    requires i < |s| && Distinct(s)
    ensures Distinct(RemoveAt(s, i))
    ensures s[i] !in RemoveAt(s, i)
  {
  }

  /** Pigeonhole: distinct numbers of the range lo..hi are at most hi - lo many. */
  lemma {:induction false} DistinctInRange(s: seq<int>, lo: int, hi: int)
    requires lo <= hi
    requires Distinct(s)
    requires forall x | x in s :: lo <= x < hi
    ensures |s| <= hi - lo
    decreases hi - lo
  {
    if s != [] {
      assert s[0] in s;
      var i := FirstIndex(s, hi - 1);
      if i < |s| {
        RemoveAtDistinct(s, i);
        RemoveAtMembers(s, i);
        DistinctInRange(RemoveAt(s, i), lo, hi - 1);
      } else {
        DistinctInRange(s, lo, hi - 1);
      }
    }
  }

  /** Pigeonhole, the other way: a list that holds all of lo..hi has at least hi - lo elements. */
  lemma {:induction false} CoversRange(s: seq<int>, lo: int, hi: int)
    requires lo <= hi
    requires forall x | lo <= x < hi :: x in s
    ensures |s| >= hi - lo
    decreases hi - lo
  {
    if lo < hi {
      var i := FirstIndex(s, hi - 1);
      RemoveAtMembers(s, i);
      CoversRange(RemoveAt(s, i), lo, hi - 1);
    }
  }

  /** Repeatedly taking the first minimum out. */
  ghost function PopMinUntilEmpty(keys: seq<int>): (r: seq<int>)
    decreases |keys|
  {
    if keys == [] then []
    else [keys[FirstMin(keys)]] + PopMinUntilEmpty(RemoveAt(keys, FirstMin(keys)))
  }

  ghost predicate Sorted(keys: seq<int>) {
    forall i, j | 0 <= i < j < |keys| :: keys[i] <= keys[j]
  }

  lemma {:induction false} PopMinSorts(keys: seq<int>)
    ensures multiset(PopMinUntilEmpty(keys)) == multiset(keys)
    ensures Sorted(PopMinUntilEmpty(keys))
    decreases |keys|
  {
    if keys != [] {
      var i := FirstMin(keys);
      var rest := RemoveAt(keys, i);
      PopMinSorts(rest);
      RemoveAtMembers(keys, i);
      SmallestFirst(keys[i], rest, PopMinUntilEmpty(rest));
    }
  }

  lemma SmallestFirst(least: int, rest: seq<int>, tail: seq<int>)
    requires forall j | 0 <= j < |rest| :: least <= rest[j]
    requires multiset(tail) == multiset(rest) && Sorted(tail)
    ensures Sorted([least] + tail)
  {
    forall j | 0 <= j < |tail|
      ensures least <= tail[j]
    {
      SameMembers(tail, rest, j);
    }
  }

  lemma SameMembers(a: seq<int>, b: seq<int>, j: nat)
    requires multiset(a) == multiset(b) && j < |a|
    ensures a[j] in b
  {
    assert a[j] in multiset(a);
  }
}
