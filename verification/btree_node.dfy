/** Leaf and internal pages of the B+Tree index as typed records, and the four
    in-page operations of btree.cpp: insertion into a leaf with room, the
    split of a full leaf, insertion into an internal node with room, and the
    split of a full internal node.

    A node is a set of fixed-capacity arrays with a validity bitmap, as on
    the page. The capacity of a node is the length of its bitmap; the
    operations never change it. Only the valid slots carry meaning: the
    stale values left in free slots are modelled exactly (a freshly
    allocated page is zero-filled) but no contract depends on them. */
module BTreeNode {
  import opened KeyOrder
  import opened Flags

  type PageId = nat

  /** Locator of a record in the indexed relation. */
  datatype RecordId = RecordId(pageNo: PageId, slotNo: nat)

  /** One (key, record locator) pair of a leaf. */
  datatype Entry = Entry(key: int, rid: RecordId)

  /** A leaf page: parallel key and locator arrays, a validity bitmap and the
      page id of the right sibling (0 ends the leaf chain). */
  datatype LeafNode = LeafNode(keys: seq<int>, rids: seq<RecordId>, valid: seq<bool>, rightSib: PageId)

  /** An internal page: keys with a validity bitmap and one more child slot
      than key slots. Level 1 means the children are leaves, level 0 that
      they are internal nodes. */
  datatype InternalNode = InternalNode(level: int, keys: seq<int>, children: seq<PageId>, valid: seq<bool>)

  /** The leaf and the new right sibling after a leaf split, and the key
      reported to the parent. */
  datatype LeafHalves = LeafHalves(left: LeafNode, right: LeafNode, separator: int)

  /** The node and its new right neighbour after an internal split, and the
      middle key pushed up to the parent. */
  datatype InternalHalves = InternalHalves(left: InternalNode, right: InternalNode, promoted: int)

  // ---------------------------------------------------------------------------
  // Bitmaps
  // ---------------------------------------------------------------------------

  /** A bitmap of `cap` slots whose first `n` slots are valid. */
  function Bitmap(cap: nat, n: nat): seq<bool> {
    seq(cap, i => i < n)
  }

  /** All valid slots come first: no gap in the middle of the array. */
  predicate Packed(valid: seq<bool>) {
    valid == Bitmap(|valid|, CountTrue(valid))
  }

  lemma {:induction false} CountTrueBitmap(cap: nat, n: nat)
    requires n <= cap
    ensures CountTrue(Bitmap(cap, n)) == n
    ensures Packed(Bitmap(cap, n))
  {
    if cap > 0 {
      var b := Bitmap(cap, n);
      if n == 0 {
        assert b[1..] == Bitmap(cap - 1, 0);
        CountTrueBitmap(cap - 1, 0);
      } else {
        assert b[1..] == Bitmap(cap - 1, n - 1);
        CountTrueBitmap(cap - 1, n - 1);
      }
    }
  }

  function Zeros(n: nat): seq<int> {
    seq(n, _ => 0)
  }

  function NoRids(n: nat): seq<RecordId> {
    seq(n, _ => RecordId(0, 0))
  }

  function NoPages(n: nat): seq<PageId> {
    seq(n, _ => 0)
  }

  // ---------------------------------------------------------------------------
  // Well-formed nodes and their contents
  // ---------------------------------------------------------------------------

  predicate LeafShaped(nd: LeafNode) {
    |nd.keys| == |nd.valid| && |nd.rids| == |nd.valid|
  }

  /** A leaf whose valid entries are packed at the front in ascending key order. */
  predicate LeafWF(nd: LeafNode) {
    LeafShaped(nd) && Packed(nd.valid) && Sorted(nd.keys[..CountTrue(nd.valid)])
  }

  predicate LeafOK(nd: LeafNode, cap: nat) {
    LeafWF(nd) && |nd.valid| == cap
  }

  /** The entries in slots `i` onwards whose valid bit is set, in slot order:
      what a scan of the leaf from slot `i` sees. */
  function LiveFrom(nd: LeafNode, i: nat): seq<Entry>
    decreases |nd.valid| - i
  {
    if i >= |nd.valid| || i >= |nd.keys| || i >= |nd.rids| then []
    else (if nd.valid[i] then [Entry(nd.keys[i], nd.rids[i])] else []) + LiveFrom(nd, i + 1)
  }

  /** The entries a leaf holds. */
  function Entries(nd: LeafNode): seq<Entry> {
    LiveFrom(nd, 0)
  }

  function Pairs(keys: seq<int>, rids: seq<RecordId>, n: nat): (es: seq<Entry>)
    requires n <= |keys| && n <= |rids|
    ensures |es| == n
  {
    seq(n, j requires 0 <= j < n => Entry(keys[j], rids[j]))
  }

  function KeysOf(es: seq<Entry>): (ks: seq<int>)
    ensures |ks| == |es|
  {
    seq(|es|, i requires 0 <= i < |es| => es[i].key)
  }

  /** Reference for a leaf insertion: the entry goes after every entry whose
      key is at most its own. */
  function InsertSorted(es: seq<Entry>, e: Entry): seq<Entry> {
    InsertAt(es, CountAtMost(KeysOf(es), e.key), e)
  }

  predicate InternalShaped(nd: InternalNode) {
    |nd.keys| == |nd.valid| && |nd.children| == |nd.valid| + 1
  }

  /** The valid keys of an internal node. */
  function Keys(nd: InternalNode): (ks: seq<int>)
    requires InternalShaped(nd)
    ensures |ks| == CountTrue(nd.valid)
  {
    nd.keys[..CountTrue(nd.valid)]
  }

  /** The children in use: one more than the valid keys. */
  function Children(nd: InternalNode): (cs: seq<PageId>)
    requires InternalShaped(nd)
    ensures |cs| == CountTrue(nd.valid) + 1
  {
    nd.children[..CountTrue(nd.valid) + 1]
  }

  predicate InternalWF(nd: InternalNode) {
    InternalShaped(nd) && Packed(nd.valid) && Sorted(Keys(nd))
  }

  /** A well-formed internal node of capacity `cap`; the code never builds an
      internal node without a key (insertEntryUpdate asserts it). */
  predicate InternalOK(nd: InternalNode, cap: nat) {
    InternalWF(nd) && |nd.valid| == cap && 0 < CountTrue(nd.valid)
  }

  lemma {:induction false} LiveFromPacked(nd: LeafNode, i: nat)
    requires LeafShaped(nd) && Packed(nd.valid)
    ensures LiveFrom(nd, i) ==
              if i < CountTrue(nd.valid) then Pairs(nd.keys, nd.rids, CountTrue(nd.valid))[i..] else []
    decreases |nd.valid| - i
  {
    var n := CountTrue(nd.valid);
    if i < |nd.valid| {
      LiveFromPacked(nd, i + 1);
      assert nd.valid[i] == (i < n) by {
        assert nd.valid == Bitmap(|nd.valid|, n);
      }
      if i < n {
        var ps := Pairs(nd.keys, nd.rids, n);
        assert ps[i..] == [ps[i]] + ps[i + 1..];
      }
    }
  }

  /** The entries of a packed leaf are its first `CountTrue(valid)` slots. */
  lemma EntriesPacked(nd: LeafNode)
    requires LeafShaped(nd) && Packed(nd.valid)
    ensures Entries(nd) == Pairs(nd.keys, nd.rids, CountTrue(nd.valid))
    ensures KeysOf(Entries(nd)) == nd.keys[..CountTrue(nd.valid)]
  {
    LiveFromPacked(nd, 0);
  }

  // ---------------------------------------------------------------------------
  // Slot searches
  // ---------------------------------------------------------------------------

  /** The slot search of leafNodeInsert, nonLeafNodeInsert and of the descent
      in insertEntryUpdate: the first slot from `i` on that is free or holds a
      key greater than `key`. */
  function FreeOrGreater(keys: seq<int>, valid: seq<bool>, key: int, i: nat): (p: nat)
    requires |keys| == |valid| && i <= |valid|
    ensures i <= p <= |valid|
    ensures forall j | i <= j < p :: valid[j] && keys[j] <= key
    ensures p < |valid| ==> !valid[p] || key < keys[p]
    decreases |valid| - i
  {
    if i == |valid| || !valid[i] || key < keys[i] then i
    else FreeOrGreater(keys, valid, key, i + 1)
  }

  /** The slot search of the two split routines, which see a full node: the
      first slot from `i` on whose key is greater than `key`. */
  function FirstGreater(keys: seq<int>, key: int, i: nat): (p: nat)
    requires i <= |keys|
    ensures i <= p <= |keys|
    ensures forall j | i <= j < p :: keys[j] <= key
    ensures p < |keys| ==> key < keys[p]
    decreases |keys| - i
  {
    if i == |keys| || key < keys[i] then i
    else FirstGreater(keys, key, i + 1)
  }

  /** The first loop of the scan descent: the first slot from `i` on that is
      valid and holds a key greater than `low`. */
  function FirstValidGreater(keys: seq<int>, valid: seq<bool>, low: int, i: nat): (p: nat)
    requires |keys| == |valid| && i <= |valid|
    ensures i <= p <= |valid|
    ensures forall j | i <= j < p :: !valid[j] || keys[j] <= low
    ensures p < |valid| ==> valid[p] && low < keys[p]
    decreases |valid| - i
  {
    if i == |valid| || (valid[i] && low < keys[i]) then i
    else FirstValidGreater(keys, valid, low, i + 1)
  }

  /** The fallback loop of the scan descent: the first free slot from `i` on. */
  function FirstFree(valid: seq<bool>, i: nat): (p: nat)
    requires i <= |valid|
    ensures i <= p <= |valid|
    ensures forall j | i <= j < p :: valid[j]
    ensures p < |valid| ==> !valid[p]
    decreases |valid| - i
  {
    if i == |valid| || !valid[i] then i
    else FirstFree(valid, i + 1)
  }

  /** On a packed node with sorted keys, the free-or-greater search stops at
      the number of valid keys that are at most `key`. */
  lemma FreeOrGreaterCounts(keys: seq<int>, valid: seq<bool>, key: int)
    requires |keys| == |valid| && Packed(valid) && Sorted(keys[..CountTrue(valid)])
    ensures FreeOrGreater(keys, valid, key, 0) == CountAtMost(keys[..CountTrue(valid)], key)
    ensures FreeOrGreater(keys, valid, key, 0) <= CountTrue(valid)
  {
    var n := CountTrue(valid);
    var ks := keys[..n];
    var p := FreeOrGreater(keys, valid, key, 0);
    assert valid == Bitmap(|valid|, n);
    assert n < |valid| ==> !valid[n];
    assert p <= n;
    assert forall i | 0 <= i < p :: ks[i] <= key;
    assert p < n ==> key < ks[p];
    assert forall i | p <= i < n :: ks[p] <= ks[i];
    CountAtMostAt(ks, key, p);
  }

  /** On a full node with sorted keys, the split search also stops at the
      number of keys that are at most `key`. */
  lemma FirstGreaterCounts(keys: seq<int>, key: int)
    requires Sorted(keys)
    ensures FirstGreater(keys, key, 0) == CountAtMost(keys, key)
  {
    CountAtMostAt(keys, key, FirstGreater(keys, key, 0));
  }

  /** Descent in insertEntryUpdate (lines 842-876): on a well-formed internal
      node the child taken is the number of keys at most `key`; when the
      search runs off the valid keys, the key before the stop is at most
      `key`, as line 876 asserts. */
  lemma DescentChild(nd: InternalNode, key: int)
    requires InternalWF(nd) && 0 < CountTrue(nd.valid)
    ensures var pos := FreeOrGreater(nd.keys, nd.valid, key, 0);
            && pos == CountAtMost(Keys(nd), key)
            && pos < |Children(nd)|
            && (pos == |nd.valid| || !nd.valid[pos] ==> 0 < pos && nd.keys[pos - 1] <= key)
  {
    FreeOrGreaterCounts(nd.keys, nd.valid, key);
    var pos := FreeOrGreater(nd.keys, nd.valid, key, 0);
    assert nd.valid == Bitmap(|nd.valid|, CountTrue(nd.valid));
    assert pos == |nd.valid| || !nd.valid[pos] ==> pos == CountTrue(nd.valid);
  }

  /** The child insertEntryUpdate descends into for `key` (lines 842-876). */
  function ChildFor(nd: InternalNode, key: int): PageId
    requires InternalShaped(nd)
  {
    nd.children[FreeOrGreater(nd.keys, nd.valid, key, 0)]
  }

  /** The descent takes the child after every valid key at most `key`. */
  lemma ChildForIsChild(nd: InternalNode, key: int)
    requires InternalWF(nd) && 0 < CountTrue(nd.valid)
    ensures ChildFor(nd, key) == Children(nd)[CountAtMost(Keys(nd), key)]
    ensures ChildFor(nd, key) in Children(nd)
  {
    DescentChild(nd, key);
  }

  /** Child taken by a range scan at a node above level 1 (lines 187-202): the
      first key greater than `low` if there is one, else the last child. */
  function ScanUpperSlot(nd: InternalNode, low: int): (p: nat)
    requires InternalShaped(nd)
    ensures p <= |nd.valid|
  {
    var i := FirstValidGreater(nd.keys, nd.valid, low, 0);
    if i == |nd.valid| then FirstFree(nd.valid, 0) else i
  }

  /** Child taken by a range scan at a level-1 node (lines 234-249): the first
      key greater than `low` if there is one, else the child one left of the
      last (the stop of the fallback loop minus one). */
  function ScanLeafSlot(nd: InternalNode, low: int): (p: nat)
    requires InternalShaped(nd) && Packed(nd.valid) && 0 < CountTrue(nd.valid)
    ensures p <= |nd.valid|
  {
    var i := FirstValidGreater(nd.keys, nd.valid, low, 0);
    if i == |nd.valid| then
      var f := FirstFree(nd.valid, 0);
      assert nd.valid[0] by { assert nd.valid == Bitmap(|nd.valid|, CountTrue(nd.valid)); }
      f - 1
    else i
  }

  /** What the two scan descents pick on a well-formed node: above level 1 the
      child after the keys at most `low`; at level 1 the same child unless no
      key exceeds `low`, in which case one child to its left. */
  lemma ScanSlots(nd: InternalNode, low: int)
    requires InternalWF(nd) && 0 < CountTrue(nd.valid)
    ensures ScanUpperSlot(nd, low) == CountAtMost(Keys(nd), low)
    ensures ScanLeafSlot(nd, low) ==
              if CountAtMost(Keys(nd), low) == CountTrue(nd.valid) then CountTrue(nd.valid) - 1
              else CountAtMost(Keys(nd), low)
  {
    var n := CountTrue(nd.valid);
    var ks := Keys(nd);
    var c := CountAtMost(ks, low);
    assert nd.valid == Bitmap(|nd.valid|, n);
    CountAtMostSplits(ks, low);
    var i := FirstValidGreater(nd.keys, nd.valid, low, 0);
    var f := FirstFree(nd.valid, 0);
    assert forall j | 0 <= j < n :: nd.keys[j] == ks[j];
    assert c < n ==> nd.valid[c] && low < nd.keys[c];
    assert c < n ==> i == c;
    assert c == n ==> i == |nd.valid|;
    assert n < |nd.valid| ==> !nd.valid[n];
    assert f == n;
  }

  // ---------------------------------------------------------------------------
  // Leaf insertion (leafNodeInsert)
  // ---------------------------------------------------------------------------

  /** The array after the shifting loop of an insertion at slot `i` and the
      write of `x` there: each later slot whose left neighbour was valid takes
      the neighbour's value, the other slots are untouched. */
  function ShiftIn<T>(s: seq<T>, valid: seq<bool>, i: nat, x: T): (r: seq<T>)
    requires |s| == |valid| && i < |s|
    ensures |r| == |s|
  {
    seq(|s|, k requires 0 <= k < |s| => if k == i then x else if k > i && valid[k - 1] then s[k - 1] else s[k])
  }

  /** leafNodeInsert: insert in place into a leaf that has a free slot. */
  function LeafInsert(nd: LeafNode, key: int, rid: RecordId): (r: LeafNode)
    requires LeafWF(nd) && CountTrue(nd.valid) < |nd.valid|
    ensures LeafShaped(r) && |r.valid| == |nd.valid| && r.rightSib == nd.rightSib
  {
    var i := FreeOrGreater(nd.keys, nd.valid, key, 0);
    FreeOrGreaterCounts(nd.keys, nd.valid, key);
    if !nd.valid[i] then
      nd.(keys := nd.keys[i := key], rids := nd.rids[i := rid], valid := nd.valid[i := true])
    else
      nd.(keys := ShiftIn(nd.keys, nd.valid, i, key), rids := ShiftIn(nd.rids, nd.valid, i, rid),
          valid := ShiftIn(nd.valid, nd.valid, i, true))
  }

  /** On a packed bitmap with `n` valid slots and room for one more, writing
      `x` at slot `i <= n` (a plain write when the slot is free, the shifting
      loop otherwise) leaves `x` inserted at `i` into the valid prefix. */
  lemma ShiftPrefix<T>(s: seq<T>, valid: seq<bool>, n: nat, i: nat, x: T)
    requires |s| == |valid| && valid == Bitmap(|valid|, n) && i <= n < |valid|
    ensures (if !valid[i] then s[i := x] else ShiftIn(s, valid, i, x))[..n + 1] == InsertAt(s[..n], i, x)
  {
    var w := InsertAt(s[..n], i, x);
    if !valid[i] {
      assert i == n;
      assert s[i := x][..n + 1] == s[..n] + [x];
    } else {
      var r := ShiftIn(s, valid, i, x);
      forall j | 0 <= j < n + 1
        ensures r[j] == w[j]
      {
        if j < i {
          assert w[j] == s[j];
        } else if j > i {
          assert valid[j - 1];
          assert w[j] == s[j - 1];
        }
      }
    }
  }

  /** The same write on the bitmap itself makes the first `n + 1` slots valid. */
  lemma ShiftBitmap(valid: seq<bool>, n: nat, i: nat)
    requires valid == Bitmap(|valid|, n) && i <= n < |valid|
    ensures (if !valid[i] then valid[i := true] else ShiftIn(valid, valid, i, true)) == Bitmap(|valid|, n + 1)
    ensures CountTrue(Bitmap(|valid|, n + 1)) == n + 1
  {
    CountTrueBitmap(|valid|, n + 1);
  }

  /** Pairing arrays whose prefixes had a key and a locator inserted at `i`
      inserts their entry at `i`. */
  lemma PairsInsert(keys: seq<int>, rids: seq<RecordId>, keys2: seq<int>, rids2: seq<RecordId>,
                    n: nat, i: nat, key: int, rid: RecordId)
    requires n <= |keys| && n <= |rids| && n + 1 <= |keys2| && n + 1 <= |rids2| && i <= n
    requires keys2[..n + 1] == InsertAt(keys[..n], i, key) && rids2[..n + 1] == InsertAt(rids[..n], i, rid)
    ensures Pairs(keys2, rids2, n + 1) == InsertAt(Pairs(keys, rids, n), i, Entry(key, rid))
  {
    var got := Pairs(keys2, rids2, n + 1);
    var want := InsertAt(Pairs(keys, rids, n), i, Entry(key, rid));
    forall j | 0 <= j < n + 1
      ensures got[j] == want[j]
    {
      assert keys2[j] == keys2[..n + 1][j] && rids2[j] == rids2[..n + 1][j];
      if j < i {
        assert want[j] == Pairs(keys, rids, n)[j];
      } else if j > i {
        assert want[j] == Pairs(keys, rids, n)[j - 1];
      }
    }
  }

  /** InsertSorted keeps a sorted entry list sorted and adds exactly one entry. */
  lemma InsertSortedFacts(es: seq<Entry>, e: Entry)
    requires Sorted(KeysOf(es))
    ensures KeysOf(InsertSorted(es, e)) == InsertAt(KeysOf(es), CountAtMost(KeysOf(es), e.key), e.key)
    ensures Sorted(KeysOf(InsertSorted(es, e)))
    ensures multiset(InsertSorted(es, e)) == multiset(es) + multiset{e}
  {
    var p := CountAtMost(KeysOf(es), e.key);
    var r := InsertSorted(es, e);
    assert KeysOf(r) == InsertAt(KeysOf(es), p, e.key) by {
      var a := KeysOf(r);
      var b := InsertAt(KeysOf(es), p, e.key);
      assert |a| == |b|;
      forall j | 0 <= j < |a|
        ensures a[j] == b[j]
      {
        if j < p {
          assert r[j] == es[j];
        } else if j > p {
          assert r[j] == es[j - 1];
        }
      }
    }
    InsertAtCountSorted(KeysOf(es), e.key);
    assert es == es[..p] + es[p..];
  }

  /** leafNodeInsert on a packed ascending leaf with a free slot: the leaf stays
      packed and ascending, holds one more entry, and its entries are the old
      ones with the new pair placed after every entry of key at most its own. */
  lemma LeafInsertCorrect(nd: LeafNode, key: int, rid: RecordId)
    requires LeafWF(nd) && CountTrue(nd.valid) < |nd.valid|
    ensures var r := LeafInsert(nd, key, rid);
            && LeafOK(r, |nd.valid|)
            && CountTrue(r.valid) == CountTrue(nd.valid) + 1
            && Entries(r) == InsertSorted(Entries(nd), Entry(key, rid))
            && multiset(Entries(r)) == multiset(Entries(nd)) + multiset{Entry(key, rid)}
  {
    var n := CountTrue(nd.valid);
    var r := LeafInsert(nd, key, rid);
    var i := FreeOrGreater(nd.keys, nd.valid, key, 0);
    FreeOrGreaterCounts(nd.keys, nd.valid, key);
    EntriesPacked(nd);
    ShiftBitmap(nd.valid, n, i);
    ShiftPrefix(nd.keys, nd.valid, n, i, key);
    ShiftPrefix(nd.rids, nd.valid, n, i, rid);
    PairsInsert(nd.keys, nd.rids, r.keys, r.rids, n, i, key, rid);
    EntriesPacked(r);
    InsertSortedFacts(Entries(nd), Entry(key, rid));
  }

  // ---------------------------------------------------------------------------
  // Leaf split (leafNodeInsertSplit)
  // ---------------------------------------------------------------------------

  /** leafNodeInsertSplit: merge the new pair into a full leaf, keep the lower
      (C+1)/2 entries in place, move the rest to the fresh page `newPid`, and
      link the fresh page in right after the leaf. */
  function LeafInsertSplit(nd: LeafNode, key: int, rid: RecordId, newPid: PageId): (r: LeafHalves)
    requires LeafWF(nd) && CountTrue(nd.valid) == |nd.valid| && 2 <= |nd.valid|
    ensures LeafShaped(r.left) && LeafShaped(r.right)
    ensures |r.left.valid| == |nd.valid| && |r.right.valid| == |nd.valid|
  {
    var cap := |nd.valid|;
    var pos := FirstGreater(nd.keys, key, 0);
    var keyBuf := InsertAt(nd.keys, pos, key);
    var ridBuf := InsertAt(nd.rids, pos, rid);
    var k := (cap + 1) / 2;
    var left := LeafNode(keyBuf[..k] + nd.keys[k..], ridBuf[..k] + nd.rids[k..], Bitmap(cap, k), newPid);
    var right := LeafNode(keyBuf[k..] + Zeros(k - 1), ridBuf[k..] + NoRids(k - 1), Bitmap(cap, cap + 1 - k),
                          nd.rightSib);
    LeafHalves(left, right, keyBuf[k])
  }

  /** The key buffer of leafNodeInsertSplit is in ascending order. */
  lemma LeafMergeSorted(nd: LeafNode, key: int)
    requires LeafWF(nd) && CountTrue(nd.valid) == |nd.valid|
    ensures Sorted(InsertAt(nd.keys, FirstGreater(nd.keys, key, 0), key))
  {
    assert nd.keys[..|nd.valid|] == nd.keys;
    FirstGreaterCounts(nd.keys, key);
    InsertAtCountSorted(nd.keys, key);
  }

  /** The merge buffers of leafNodeInsertSplit hold the sorted merge, in
      ascending key order. */
  lemma LeafMergeBuffer(nd: LeafNode, key: int, rid: RecordId)
    requires LeafWF(nd) && CountTrue(nd.valid) == |nd.valid|
    ensures var pos := FirstGreater(nd.keys, key, 0);
            var kb := InsertAt(nd.keys, pos, key);
            var rb := InsertAt(nd.rids, pos, rid);
            && Sorted(kb)
            && Pairs(kb, rb, |nd.valid| + 1) == InsertSorted(Entries(nd), Entry(key, rid))
  {
    var cap := |nd.valid|;
    LeafMergeSorted(nd, key);
    EntriesPacked(nd);
    FirstGreaterCounts(nd.keys, key);
    var pos := FirstGreater(nd.keys, key, 0);
    var kb, rb := InsertAt(nd.keys, pos, key), InsertAt(nd.rids, pos, rid);
    assert nd.keys[..cap] == nd.keys && nd.rids[..cap] == nd.rids;
    assert kb[..cap + 1] == kb && rb[..cap + 1] == rb;
    PairsInsert(nd.keys, nd.rids, kb, rb, cap, pos, key, rid);
    assert Entries(nd) == Pairs(nd.keys, nd.rids, cap);
    assert CountAtMost(KeysOf(Entries(nd)), key) == pos;
  }

  /** A leaf whose first `b - a` slots are valid and hold slots a..b of
      ascending key and locator buffers is well formed and holds those
      pairs. */
  lemma LeafFromBuffer(nd: LeafNode, kb: seq<int>, rb: seq<RecordId>, a: nat, b: nat)
    requires LeafShaped(nd) && |kb| == |rb| && a <= b <= |kb| && Sorted(kb) && b - a <= |nd.valid|
    requires nd.valid == Bitmap(|nd.valid|, b - a)
    requires nd.keys[..b - a] == kb[a..b] && nd.rids[..b - a] == rb[a..b]
    ensures LeafWF(nd) && CountTrue(nd.valid) == b - a && Entries(nd) == Pairs(kb, rb, |kb|)[a..b]
  {
    var n := b - a;
    CountTrueBitmap(|nd.valid|, n);
    EntriesPacked(nd);
    SortedSlice(kb, a, b);
    var got := Pairs(nd.keys, nd.rids, n);
    var want := Pairs(kb, rb, |kb|)[a..b];
    forall j | 0 <= j < n
      ensures got[j] == want[j]
    {
      assert nd.keys[j] == nd.keys[..n][j] && nd.rids[j] == nd.rids[..n][j];
    }
    assert got == want;
  }

  /** The leaf keeps the first (C+1)/2 entries of the merge and now links to
      the fresh page. */
  lemma LeafSplitLeft(nd: LeafNode, key: int, rid: RecordId, newPid: PageId)
    requires LeafWF(nd) && CountTrue(nd.valid) == |nd.valid| && 2 <= |nd.valid|
    ensures var r := LeafInsertSplit(nd, key, rid, newPid);
            var merged := InsertSorted(Entries(nd), Entry(key, rid));
            var k := (|nd.valid| + 1) / 2;
            && |merged| == |nd.valid| + 1
            && LeafOK(r.left, |nd.valid|) && CountTrue(r.left.valid) == k
            && Entries(r.left) == merged[..k] && r.left.rightSib == newPid
  {
    var cap := |nd.valid|;
    var r := LeafInsertSplit(nd, key, rid, newPid);
    var k := (cap + 1) / 2;
    var pos := FirstGreater(nd.keys, key, 0);
    var kb := InsertAt(nd.keys, pos, key);
    var rb := InsertAt(nd.rids, pos, rid);
    LeafMergeBuffer(nd, key, rid);
    assert r.left.keys[..k] == kb[0..k];
    assert r.left.rids[..k] == rb[0..k];
    LeafFromBuffer(r.left, kb, rb, 0, k);
  }

  /** The fresh page receives the other C+1-(C+1)/2 entries of the merge and
      links to the leaf's old right sibling; the separator is the first of
      them. */
  lemma LeafSplitRight(nd: LeafNode, key: int, rid: RecordId, newPid: PageId)
    requires LeafWF(nd) && CountTrue(nd.valid) == |nd.valid| && 2 <= |nd.valid|
    ensures var r := LeafInsertSplit(nd, key, rid, newPid);
            var merged := InsertSorted(Entries(nd), Entry(key, rid));
            var k := (|nd.valid| + 1) / 2;
            && |merged| == |nd.valid| + 1
            && LeafOK(r.right, |nd.valid|) && CountTrue(r.right.valid) == |nd.valid| + 1 - k
            && Entries(r.right) == merged[k..] && r.right.rightSib == nd.rightSib
            && r.separator == merged[k].key
  {
    var cap := |nd.valid|;
    var r := LeafInsertSplit(nd, key, rid, newPid);
    var k := (cap + 1) / 2;
    var pos := FirstGreater(nd.keys, key, 0);
    var kb := InsertAt(nd.keys, pos, key);
    var rb := InsertAt(nd.rids, pos, rid);
    LeafMergeBuffer(nd, key, rid);
    assert r.right.keys[..cap + 1 - k] == kb[k..cap + 1];
    assert r.right.rids[..cap + 1 - k] == rb[k..cap + 1];
    LeafFromBuffer(r.right, kb, rb, k, cap + 1);
  }

  /** leafNodeInsertSplit on a full packed ascending leaf: the leaf keeps the
      first (C+1)/2 entries of the sorted merge and the fresh page the other
      C+1-(C+1)/2; together they are exactly the merge. The separator is the
      fresh page's first key, and the chain becomes leaf, fresh page, old
      right sibling. */
  lemma LeafInsertSplitCorrect(nd: LeafNode, key: int, rid: RecordId, newPid: PageId)
    requires LeafWF(nd) && CountTrue(nd.valid) == |nd.valid| && 2 <= |nd.valid|
    ensures var r := LeafInsertSplit(nd, key, rid, newPid);
            var merged := InsertSorted(Entries(nd), Entry(key, rid));
            var k := (|nd.valid| + 1) / 2;
            && LeafOK(r.left, |nd.valid|) && LeafOK(r.right, |nd.valid|)
            && CountTrue(r.left.valid) == k && CountTrue(r.right.valid) == |nd.valid| + 1 - k
            && |merged| == |nd.valid| + 1
            && Entries(r.left) == merged[..k] && Entries(r.right) == merged[k..]
            && Entries(r.left) + Entries(r.right) == merged
            && multiset(Entries(r.left)) + multiset(Entries(r.right))
               == multiset(Entries(nd)) + multiset{Entry(key, rid)}
            && r.separator == Entries(r.right)[0].key
            && r.left.rightSib == newPid && r.right.rightSib == nd.rightSib
  {
    var k := (|nd.valid| + 1) / 2;
    var merged := InsertSorted(Entries(nd), Entry(key, rid));
    LeafSplitLeft(nd, key, rid, newPid);
    LeafSplitRight(nd, key, rid, newPid);
    EntriesPacked(nd);
    InsertSortedFacts(Entries(nd), Entry(key, rid));
    SplitAt(merged, k);
  }

  // ---------------------------------------------------------------------------
  // Internal insertion (nonLeafNodeInsert)
  // ---------------------------------------------------------------------------

  /** The child array after the shifting loop of an internal insertion at key
      slot `i` and the write of `child` right of that key. */
  function ShiftChildrenIn(children: seq<PageId>, valid: seq<bool>, i: nat, child: PageId): (r: seq<PageId>)
    requires |children| == |valid| + 1 && i < |valid|
    ensures |r| == |children|
  {
    seq(|children|, j requires 0 <= j < |children| =>
      if j == i + 1 then child else if j > i + 1 && valid[j - 2] then children[j - 1] else children[j])
  }

  /** The children after an insertion at key slot `i` of a packed node with
      room: `child` inserted right of the new key into the children in use. */
  lemma ShiftChildrenPrefix(children: seq<PageId>, valid: seq<bool>, n: nat, i: nat, child: PageId)
    requires |children| == |valid| + 1 && valid == Bitmap(|valid|, n) && i <= n < |valid|
    ensures (if !valid[i] then children[i + 1 := child] else ShiftChildrenIn(children, valid, i, child))[..n + 2]
            == InsertAt(children[..n + 1], i + 1, child)
  {
    var w := InsertAt(children[..n + 1], i + 1, child);
    if !valid[i] {
      assert i == n;
      assert children[i + 1 := child][..n + 2] == children[..n + 1] + [child];
    } else {
      var r := ShiftChildrenIn(children, valid, i, child);
      forall j | 0 <= j < n + 2
        ensures r[j] == w[j]
      {
        if j < i + 1 {
          assert w[j] == children[j];
        } else if j > i + 1 {
          assert valid[j - 2];
          assert w[j] == children[j - 1];
        }
      }
    }
  }

  /** nonLeafNodeInsert: insert a separator and the page right of it into an
      internal node that has a free key slot. */
  function InternalInsert(nd: InternalNode, key: int, child: PageId): (r: InternalNode)
    requires InternalWF(nd) && CountTrue(nd.valid) < |nd.valid|
    ensures InternalShaped(r) && |r.valid| == |nd.valid| && r.level == nd.level
  {
    var i := FreeOrGreater(nd.keys, nd.valid, key, 0);
    FreeOrGreaterCounts(nd.keys, nd.valid, key);
    if !nd.valid[i] then
      nd.(keys := nd.keys[i := key], children := nd.children[i + 1 := child], valid := nd.valid[i := true])
    else
      nd.(keys := ShiftIn(nd.keys, nd.valid, i, key), children := ShiftChildrenIn(nd.children, nd.valid, i, child),
          valid := ShiftIn(nd.valid, nd.valid, i, true))
  }

  /** nonLeafNodeInsert on a well-formed node with room: the key lands at its
      sorted position i (after equal keys), later keys move right, the new
      child lands at i+1 and the other children keep their order, so there
      is still one more child than keys. */
  lemma InternalInsertCorrect(nd: InternalNode, key: int, child: PageId)
    requires InternalWF(nd) && CountTrue(nd.valid) < |nd.valid|
    ensures var r := InternalInsert(nd, key, child);
            var i := CountAtMost(Keys(nd), key);
            && InternalWF(r) && r.level == nd.level
            && CountTrue(r.valid) == CountTrue(nd.valid) + 1
            && Keys(r) == InsertAt(Keys(nd), i, key)
            && Children(r) == InsertAt(Children(nd), i + 1, child)
            && |Children(r)| == |Keys(r)| + 1
  {
    InternalInsertShape(nd, key, child);
    InternalInsertKeys(nd, key, child);
    InternalInsertChildren(nd, key, child);
    InsertAtCountSorted(Keys(nd), key);
  }

  /** The bitmap after nonLeafNodeInsert has one more valid slot at the front. */
  lemma InternalInsertShape(nd: InternalNode, key: int, child: PageId)
    requires InternalWF(nd) && CountTrue(nd.valid) < |nd.valid|
    ensures var r := InternalInsert(nd, key, child);
            && r.valid == Bitmap(|nd.valid|, CountTrue(nd.valid) + 1)
            && CountTrue(r.valid) == CountTrue(nd.valid) + 1 && Packed(r.valid)
  {
    var n := CountTrue(nd.valid);
    var i := FreeOrGreater(nd.keys, nd.valid, key, 0);
    FreeOrGreaterCounts(nd.keys, nd.valid, key);
    assert nd.valid == Bitmap(|nd.valid|, n);
    ShiftBitmap(nd.valid, n, i);
    CountTrueBitmap(|nd.valid|, n + 1);
  }

  /** The keys after nonLeafNodeInsert: `key` after every key at most itself. */
  lemma InternalInsertKeys(nd: InternalNode, key: int, child: PageId)
    requires InternalWF(nd) && CountTrue(nd.valid) < |nd.valid|
    ensures var r := InternalInsert(nd, key, child);
            Keys(r) == InsertAt(Keys(nd), CountAtMost(Keys(nd), key), key)
  {
    var n := CountTrue(nd.valid);
    var r := InternalInsert(nd, key, child);
    var i := FreeOrGreater(nd.keys, nd.valid, key, 0);
    FreeOrGreaterCounts(nd.keys, nd.valid, key);
    InternalInsertShape(nd, key, child);
    ShiftPrefix(nd.keys, nd.valid, n, i, key);
    assert r.keys == if !nd.valid[i] then nd.keys[i := key] else ShiftIn(nd.keys, nd.valid, i, key);
  }

  /** The children after nonLeafNodeInsert: `child` right after the new key. */
  lemma InternalInsertChildren(nd: InternalNode, key: int, child: PageId)
    requires InternalWF(nd) && CountTrue(nd.valid) < |nd.valid|
    ensures var r := InternalInsert(nd, key, child);
            Children(r) == InsertAt(Children(nd), CountAtMost(Keys(nd), key) + 1, child)
  {
    var n := CountTrue(nd.valid);
    var r := InternalInsert(nd, key, child);
    var i := FreeOrGreater(nd.keys, nd.valid, key, 0);
    FreeOrGreaterCounts(nd.keys, nd.valid, key);
    InternalInsertShape(nd, key, child);
    ShiftChildrenPrefix(nd.children, nd.valid, n, i, child);
    assert r.children ==
      if !nd.valid[i] then nd.children[i + 1 := child] else ShiftChildrenIn(nd.children, nd.valid, i, child);
  }

  // ---------------------------------------------------------------------------
  // Internal split (nonLeafNodeInsertSplit)
  // ---------------------------------------------------------------------------

  /** nonLeafNodeInsertSplit: merge the separator and its right child into a
      full internal node, keep the keys left of the middle in place, move the
      keys right of it to a fresh page of the same level, and push the middle
      key up. */
  function InternalInsertSplit(nd: InternalNode, key: int, child: PageId): (r: InternalHalves)
    requires InternalWF(nd) && CountTrue(nd.valid) == |nd.valid| && 2 <= |nd.valid|
    ensures InternalShaped(r.left) && InternalShaped(r.right)
    ensures |r.left.valid| == |nd.valid| && |r.right.valid| == |nd.valid|
  {
    var cap := |nd.valid|;
    var pos := FirstGreater(nd.keys, key, 0);
    var keyBuf := InsertAt(nd.keys, pos, key);
    var pidBuf := InsertAt(nd.children, pos + 1, child);
    var k := (cap + 1) / 2;
    var left := InternalNode(nd.level, keyBuf[..k] + nd.keys[k..], pidBuf[..k + 1] + nd.children[k + 1..],
                             Bitmap(cap, k));
    InternalHalves(left, RightHalf(nd.level, keyBuf, pidBuf, cap, k), keyBuf[k])
  }

  /** The fresh node of nonLeafNodeInsertSplit: the keys of the merge buffer
      after the middle slot `k` and the children after the left half's, the
      rest of the slots zero and free. */
  function RightHalf(level: int, keyBuf: seq<int>, pidBuf: seq<PageId>, cap: nat, k: nat): (r: InternalNode)
    requires |keyBuf| == cap + 1 && |pidBuf| == cap + 2 && k < cap
    ensures InternalShaped(r) && |r.valid| == cap
  {
    InternalNode(level, keyBuf[k + 1..] + Zeros(k), pidBuf[k + 1..] + NoPages(k), Bitmap(cap, cap - k))
  }

  /** An internal node whose first `n` keys and `n + 1` children are slices of
      ascending keys and of a child list is well formed. */
  lemma InternalFromSlices(nd: InternalNode, n: nat, keys: seq<int>, a: nat, kids: seq<PageId>, b: nat)
    requires InternalShaped(nd) && n <= |nd.valid| && nd.valid == Bitmap(|nd.valid|, n)
    requires a + n <= |keys| && b + n + 1 <= |kids| && Sorted(keys)
    requires nd.keys[..n] == keys[a..a + n] && nd.children[..n + 1] == kids[b..b + n + 1]
    ensures InternalWF(nd) && CountTrue(nd.valid) == n
    ensures 0 < n ==> InternalOK(nd, |nd.valid|)
    ensures Keys(nd) == keys[a..a + n] && Children(nd) == kids[b..b + n + 1]
  {
    CountTrueBitmap(|nd.valid|, n);
    SortedSlice(keys, a, a + n);
  }

  /** The merge buffers of nonLeafNodeInsertSplit are the node's keys and
      children with the new separator at its sorted position. */
  lemma InternalSplitBuffers(nd: InternalNode, key: int, child: PageId)
    requires InternalWF(nd) && CountTrue(nd.valid) == |nd.valid| && 2 <= |nd.valid|
    ensures var i := CountAtMost(Keys(nd), key);
            var pos := FirstGreater(nd.keys, key, 0);
            && pos == i
            && InsertAt(nd.keys, pos, key) == InsertAt(Keys(nd), i, key)
            && InsertAt(nd.children, pos + 1, child) == InsertAt(Children(nd), i + 1, child)
            && Sorted(InsertAt(Keys(nd), i, key))
  {
    assert nd.valid == Bitmap(|nd.valid|, |nd.valid|);
    assert Keys(nd) == nd.keys;
    assert Children(nd) == nd.children;
    FirstGreaterCounts(nd.keys, key);
    InsertAtCountSorted(Keys(nd), key);
  }

  /** The key buffer of nonLeafNodeInsertSplit is in ascending order. */
  lemma InternalMergeSorted(nd: InternalNode, key: int)
    requires InternalWF(nd) && CountTrue(nd.valid) == |nd.valid|
    ensures Sorted(InsertAt(nd.keys, FirstGreater(nd.keys, key, 0), key))
  {
    assert nd.keys == Keys(nd);
    FirstGreaterCounts(nd.keys, key);
    InsertAtCountSorted(nd.keys, key);
  }

  /** The left half of nonLeafNodeInsertSplit keeps the first (C+1)/2 keys of
      the merge buffer and the children around them. */
  lemma InternalSplitLeft(nd: InternalNode, key: int, child: PageId)
    requires InternalWF(nd) && CountTrue(nd.valid) == |nd.valid| && 2 <= |nd.valid|
    ensures var r := InternalInsertSplit(nd, key, child);
            var k := (|nd.valid| + 1) / 2;
            var pos := FirstGreater(nd.keys, key, 0);
            var kb := InsertAt(nd.keys, pos, key);
            var cb := InsertAt(nd.children, pos + 1, child);
            && InternalOK(r.left, |nd.valid|) && CountTrue(r.left.valid) == k
            && Keys(r.left) == kb[..k] && Children(r.left) == cb[..k + 1]
  {
    InternalMergeSorted(nd, key);
    var r := InternalInsertSplit(nd, key, child);
    var k := (|nd.valid| + 1) / 2;
    var pos := FirstGreater(nd.keys, key, 0);
    var kb := InsertAt(nd.keys, pos, key);
    var cb := InsertAt(nd.children, pos + 1, child);
    assert 1 <= k;
    assert r.left.keys[..k] == kb[0..k];
    assert r.left.children[..k + 1] == cb[0..k + 1];
    InternalFromSlices(r.left, k, kb, 0, cb, 0);
    assert kb[0..k] == kb[..k] && cb[0..k + 1] == cb[..k + 1];
  }

  /** The right half of nonLeafNodeInsertSplit receives the keys of the merge
      buffer after the middle one and the children after the left half's. */
  lemma InternalSplitRight(nd: InternalNode, key: int, child: PageId)
    requires InternalWF(nd) && CountTrue(nd.valid) == |nd.valid| && 2 <= |nd.valid|
    ensures var r := InternalInsertSplit(nd, key, child);
            var cap := |nd.valid|;
            var k := (cap + 1) / 2;
            var pos := FirstGreater(nd.keys, key, 0);
            var kb := InsertAt(nd.keys, pos, key);
            var cb := InsertAt(nd.children, pos + 1, child);
            && InternalOK(r.right, cap) && CountTrue(r.right.valid) == cap - k
            && Keys(r.right) == kb[k + 1..] && Children(r.right) == cb[k + 1..]
            && r.promoted == kb[k]
  {
    var cap := |nd.valid|;
    var k := (cap + 1) / 2;
    var pos := FirstGreater(nd.keys, key, 0);
    var kb := InsertAt(nd.keys, pos, key);
    var cb := InsertAt(nd.children, pos + 1, child);
    HalfBounds(cap);
    SplitRightIs(nd, key, child);
    InternalMergeSorted(nd, key);
    InternalRightHalf(nd.level, kb, cb, cap, k);
  }

  /** The fresh node of nonLeafNodeInsertSplit is built from the merge
      buffers, after their middle slot. */
  lemma SplitRightIs(nd: InternalNode, key: int, child: PageId)
    requires InternalWF(nd) && CountTrue(nd.valid) == |nd.valid| && 2 <= |nd.valid|
    ensures var cap := |nd.valid|;
            var pos := FirstGreater(nd.keys, key, 0);
            var kb := InsertAt(nd.keys, pos, key);
            var r := InternalInsertSplit(nd, key, child);
            && r.right == RightHalf(nd.level, kb, InsertAt(nd.children, pos + 1, child), cap, (cap + 1) / 2)
            && r.promoted == kb[(cap + 1) / 2]
  {
  }

  /** The middle slot of a split of a node of capacity at least 2 leaves
      keys on both sides. */
  lemma HalfBounds(cap: nat)
    requires 2 <= cap
    ensures 1 <= (cap + 1) / 2 < cap
  {
  }

  /** A node holding the keys of a sorted buffer after slot `k` and the
      children after slot `k`, padded to capacity, is consistent. */
  lemma InternalRightHalf(level: int, kb: seq<int>, cb: seq<PageId>, cap: nat, k: nat)
    requires |kb| == cap + 1 && |cb| == cap + 2 && Sorted(kb) && k < cap
    ensures var right := RightHalf(level, kb, cb, cap, k);
            && InternalOK(right, cap) && CountTrue(right.valid) == cap - k
            && Keys(right) == kb[k + 1..] && Children(right) == cb[k + 1..]
  {
    var right := RightHalf(level, kb, cb, cap, k);
    assert right.keys[..cap - k] == kb[k + 1..cap + 1];
    assert right.children[..cap - k + 1] == cb[k + 1..cap + 2];
    InternalFromSlices(right, cap - k, kb, k + 1, cb, k + 1);
  }

  /** nonLeafNodeInsertSplit on a full well-formed node: the promoted key is the
      middle key of the merge and is kept in neither half; the left half holds
      the (C+1)/2 keys before it and the right half the C-(C+1)/2 keys after
      it; each half has one more child than keys, the children of the merge
      are split between them in order, and the new node copies the level. */
  lemma InternalInsertSplitCorrect(nd: InternalNode, key: int, child: PageId)
    requires InternalWF(nd) && CountTrue(nd.valid) == |nd.valid| && 2 <= |nd.valid|
    ensures var r := InternalInsertSplit(nd, key, child);
            var cap := |nd.valid|;
            var k := (cap + 1) / 2;
            var i := CountAtMost(Keys(nd), key);
            var keys := InsertAt(Keys(nd), i, key);
            var kids := InsertAt(Children(nd), i + 1, child);
            && InternalOK(r.left, cap) && InternalOK(r.right, cap)
            && CountTrue(r.left.valid) == k && CountTrue(r.right.valid) == cap - k
            && r.promoted == keys[k]
            && Keys(r.left) == keys[..k] && Keys(r.right) == keys[k + 1..]
            && Keys(r.left) + [r.promoted] + Keys(r.right) == keys
            && Children(r.left) == kids[..k + 1] && Children(r.right) == kids[k + 1..]
            && Children(r.left) + Children(r.right) == kids
            && r.left.level == nd.level && r.right.level == nd.level
  {
    InternalSplitLeft(nd, key, child);
    InternalSplitRight(nd, key, child);
    var k := (|nd.valid| + 1) / 2;
    var i := CountAtMost(Keys(nd), key);
    var keys := InsertAt(Keys(nd), i, key);
    var kids := InsertAt(Children(nd), i + 1, child);
    InternalSplitBuffers(nd, key, child);
    SplitAround(keys, k);
    SplitAt(kids, k + 1);
  }

  /** A node takes the new child: after nonLeafNodeInsert it is one of the
      node's children. */
  lemma InternalInsertTakes(nd: InternalNode, key: int, child: PageId)
    requires InternalWF(nd) && CountTrue(nd.valid) < |nd.valid|
    ensures child in Children(InternalInsert(nd, key, child))
  {
    InternalInsertCorrect(nd, key, child);
    var i := CountAtMost(Keys(nd), key);
    assert InsertAt(Children(nd), i + 1, child)[i + 1] == child;
  }

  /** After nonLeafNodeInsertSplit the new child is a child of one of the
      halves, and the key that goes up is at most every key of the upper
      half. */
  lemma InternalSplitTakes(nd: InternalNode, key: int, child: PageId)
    requires InternalWF(nd) && CountTrue(nd.valid) == |nd.valid| && 2 <= |nd.valid|
    ensures var r := InternalInsertSplit(nd, key, child);
            && (child in Children(r.left) || child in Children(r.right))
            && forall x | x in Keys(r.right) :: r.promoted <= x
  {
    var r := InternalInsertSplit(nd, key, child);
    var k := (|nd.valid| + 1) / 2;
    var i := CountAtMost(Keys(nd), key);
    var keys := InsertAt(Keys(nd), i, key);
    var kids := InsertAt(Children(nd), i + 1, child);
    InternalInsertSplitCorrect(nd, key, child);
    InsertAtCountSorted(Keys(nd), key);
    assert kids[i + 1] == child;
    assert child in Children(r.left) + Children(r.right);
    forall x | x in Keys(r.right)
      ensures r.promoted <= x
    {
      var j :| 0 <= j < |keys[k + 1..]| && keys[k + 1..][j] == x;
      assert x == keys[k + 1 + j];
    }
  }

  // ---------------------------------------------------------------------------
  // Fresh nodes
  // ---------------------------------------------------------------------------

  /** The first root leaf: a zero-filled page with every slot free and no
      sibling. */
  function EmptyLeaf(cap: nat): LeafNode {
    LeafNode(Zeros(cap), NoRids(cap), Bitmap(cap, 0), 0)
  }

  /** A new root: one key, the old root on its left and the split-off page on
      its right. */
  function NewRoot(cap: nat, level: int, key: int, left: PageId, right: PageId): InternalNode
    requires 1 <= cap
  {
    InternalNode(level, [key] + Zeros(cap - 1), [left, right] + NoPages(cap - 1), Bitmap(cap, 1))
  }

  lemma EmptyLeafFacts(cap: nat)
    ensures LeafOK(EmptyLeaf(cap), cap) && CountTrue(EmptyLeaf(cap).valid) == 0
    ensures Entries(EmptyLeaf(cap)) == []
  {
    CountTrueBitmap(cap, 0);
    EntriesPacked(EmptyLeaf(cap));
  }

  /** A new root holds exactly one key and two children: the tree grew by one level. */
  lemma NewRootFacts(cap: nat, level: int, key: int, left: PageId, right: PageId)
    requires 1 <= cap
    ensures var r := NewRoot(cap, level, key, left, right);
            && InternalOK(r, cap) && r.level == level
            && Keys(r) == [key] && Children(r) == [left, right]
  {
    CountTrueBitmap(cap, 1);
  }
}
