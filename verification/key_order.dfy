/** Ordering facts about key sequences, shared by the leaf and the internal
    node operations of the B+Tree. */
module KeyOrder {

  /** Non-decreasing order: the order in which a node keeps its valid keys. */
  predicate Sorted(ks: seq<int>) {
    forall i, j | 0 <= i < j < |ks| :: ks[i] <= ks[j]
  }

  /** Number of keys that are at most `key`. In a sorted sequence this is the
      slot a new `key` takes when it goes after every equal key, and the child
      an insertion descends into. */
  function CountAtMost(ks: seq<int>, key: int): (c: nat)
    ensures c <= |ks|
  {
    if |ks| == 0 then 0
    else (if ks[0] <= key then 1 else 0) + CountAtMost(ks[1..], key)
  }

  /** `x` placed at position `i` of `s`, later elements moved one place right. */
  function InsertAt<T>(s: seq<T>, i: nat, x: T): (r: seq<T>)
    requires i <= |s|
    ensures |r| == |s| + 1
  {
    s[..i] + [x] + s[i..]
  }

  /** An element of `InsertAt(s, i, x)` is `x` or an element of `s`. */
  lemma InsertAtMembers<T>(s: seq<T>, i: nat, x: T)
    requires i <= |s|
    ensures forall y | y in InsertAt(s, i, x) :: y == x || y in s
  {
    assert s == s[..i] + s[i..];
  }

  lemma ConcatMembers<T>(a: seq<T>, b: seq<T>, s: seq<T>)
    requires a + b == s
    ensures (forall y | y in a :: y in s) && (forall y | y in b :: y in s)
  {
    forall y | y in a
      ensures y in s
    {
      var j :| 0 <= j < |a| && a[j] == y;
      assert s[j] == y;
    }
    forall y | y in b
      ensures y in s
    {
      var j :| 0 <= j < |b| && b[j] == y;
      assert s[|a| + j] == y;
    }
  }

  /** In a sorted sequence, the keys before `CountAtMost` are at most `key` and
      the keys from it on are greater. */
  lemma {:induction false} CountAtMostSplits(ks: seq<int>, key: int)
    requires Sorted(ks)
    ensures forall i | 0 <= i < CountAtMost(ks, key) :: ks[i] <= key
    ensures forall i | CountAtMost(ks, key) <= i < |ks| :: key < ks[i]
  {
    if |ks| > 0 {
      var tail := ks[1..];
      assert Sorted(tail);
      CountAtMostSplits(tail, key);
      if ks[0] <= key {
        forall i | 0 <= i < CountAtMost(ks, key)
          ensures ks[i] <= key
        {
          if i > 0 { assert ks[i] == tail[i - 1]; }
        }
        forall i | CountAtMost(ks, key) <= i < |ks|
          ensures key < ks[i]
        {
          assert ks[i] == tail[i - 1];
        }
      } else {
        forall i | 0 <= i < |ks|
          ensures key < ks[i]
        {
          assert ks[0] <= ks[i] || i == 0;
        }
        CountAtMostNone(tail, key);
      }
    }
  }

  /** A sequence whose keys all exceed `key` has no key at most `key`. */
  lemma {:induction false} CountAtMostNone(ks: seq<int>, key: int)
    requires forall i | 0 <= i < |ks| :: key < ks[i]
    ensures CountAtMost(ks, key) == 0
  {
    if |ks| > 0 {
      assert forall i | 0 <= i < |ks[1..]| :: ks[1..][i] == ks[i + 1];
      CountAtMostNone(ks[1..], key);
    }
  }

  /** Conversely, a position `p` that separates the keys at most `key` from the
      greater ones is `CountAtMost(ks, key)`, sorted or not. */
  lemma {:induction false} CountAtMostAt(ks: seq<int>, key: int, p: nat)
    requires p <= |ks|
    requires forall i | 0 <= i < p :: ks[i] <= key
    requires forall i | p <= i < |ks| :: key < ks[i]
    ensures CountAtMost(ks, key) == p
  {
    if |ks| > 0 {
      var tail := ks[1..];
      if p == 0 {
        CountAtMostNone(ks, key);
      } else {
        assert forall i | 0 <= i < p - 1 :: tail[i] == ks[i + 1];
        assert forall i | p - 1 <= i < |tail| :: tail[i] == ks[i + 1];
        CountAtMostAt(tail, key, p - 1);
      }
    }
  }

  /** Placing a key after every key at most itself keeps a sorted sequence sorted. */
  lemma InsertAtCountSorted(ks: seq<int>, key: int)
    requires Sorted(ks)
    ensures Sorted(InsertAt(ks, CountAtMost(ks, key), key))
  {
    var p := CountAtMost(ks, key);
    CountAtMostSplits(ks, key);
    var r := InsertAt(ks, p, key);
    assert forall i | 0 <= i < p :: r[i] == ks[i];
    assert r[p] == key;
    assert forall i | p < i < |r| :: r[i] == ks[i - 1];
  }

  /** A sequence is its prefix before `k`, its element at `k` and the rest. */
  lemma SplitAround<T>(s: seq<T>, k: nat)
    requires k < |s|
    ensures s == s[..k] + [s[k]] + s[k + 1..]
  {
  }

  /** A sequence is its prefix before `k` followed by the rest. */
  lemma SplitAt<T>(s: seq<T>, k: nat)
    requires k <= |s|
    ensures s == s[..k] + s[k..]
  {
  }

  /** Every slice of a sorted sequence is sorted. */
  lemma SortedSlice(ks: seq<int>, a: nat, b: nat)
    requires Sorted(ks) && a <= b <= |ks|
    ensures Sorted(ks[a..b])
  {
    var s := ks[a..b];
    forall i, j | 0 <= i < j < |s|
      ensures s[i] <= s[j]
    {
      assert s[i] == ks[a + i] && s[j] == ks[a + j];
    }
  }
}
