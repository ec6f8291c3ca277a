/** The range scan of the B+Tree index: startScan positions a cursor on a
    leaf, scanNext walks the leaf chain from the cursor and returns the next
    record whose key lies in the range, endScan closes the cursor. The index
    itself is not changed by a scan. */
module BTreeScan {
  import opened KeyOrder
  import opened BTreeNode
  import opened Flags
  import opened BTreeIndex
  import opened Results

  /** Comparison operators of a range bound. */
  datatype Operator = LT | LTE | GTE | GT

  datatype ScanError = BadScanParam | BadOpcodes | ScanNotInitialized | ScanCompleted | Corrupt

  /** How an operation that only fails by raising ends. */
  datatype Status = Done | Raised(error: ScanError)

  /** The scan fields of the index object: whether a scan is running, its
      bounds, and the cursor (the current leaf and the next slot to look at). */
  datatype ScanState = ScanState(executing: bool, lowVal: int, lowOp: Operator, highVal: int, highOp: Operator,
                                 currentPageNum: PageId, nextEntry: nat)

  /** A key at which the scan stops: it is beyond the high bound. */
  predicate Ends(s: ScanState, key: int) {
    if s.highOp == LT then key >= s.highVal else key > s.highVal
  }

  /** A key the scan returns: it satisfies the low bound (GT strictly,
      anything else inclusively) and the high bound (LT strictly, anything
      else inclusively). */
  predicate Matches(s: ScanState, key: int) {
    && (if s.lowOp == GT then key > s.lowVal else key >= s.lowVal)
    && (if s.highOp == LT then key < s.highVal else key <= s.highVal)
  }

  /** Only the cursor differs between the two scan states. */
  predicate SameBounds(a: ScanState, b: ScanState) {
    b == a.(currentPageNum := b.currentPageNum, nextEntry := b.nextEntry)
  }

  // ---------------------------------------------------------------------------
  // startScan
  // ---------------------------------------------------------------------------

  /** The descent of startScan from internal page `pid` to the leaf where
      the scan starts. Above level 1 it follows the first key greater than
      `low` (the last child if none); at level 1 it does the same except
      that, when no key is greater than `low`, it takes the child one left
      of the last. */
  function Descend(idx: Index, pid: PageId, low: int, fuel: nat): (r: Result<PageId, ScanError>)
    requires IndexOK(idx)
    ensures r.Ok? ==> IsLeaf(idx.store, r.value)
    ensures r.Err? ==> r.error == Corrupt
    decreases fuel
  {
    if fuel == 0 || !IsInternal(idx.store, pid) then Err(Corrupt)
    else
      var nd := idx.store[pid].node;
      assert PageOK(idx.store, idx.store[pid], idx.leafCap, idx.nodeCap);
      ScanSlots(nd, low);
      if nd.level == 0 then Descend(idx, nd.children[ScanUpperSlot(nd, low)], low, fuel - 1)
      else
        var p := ScanLeafSlot(nd, low);
        assert nd.children[p] == Children(nd)[p];
        Ok(nd.children[p])
  }

  /** One step of the descent, stated through the number of keys at most
      `low`: a level-0 node goes on into that child; a level-1 node ends in
      that child unless every key is at most `low`, and then in the one
      before it. */
  lemma DescendStep(idx: Index, pid: PageId, low: int, fuel: nat)
    requires IndexOK(idx) && IsInternal(idx.store, pid) && 0 < fuel
    ensures var nd := idx.store[pid].node;
            var n := CountTrue(nd.valid);
            var c := CountAtMost(Keys(nd), low);
            && c <= n
            && Descend(idx, pid, low, fuel) ==
                 if nd.level == 0 then Descend(idx, Children(nd)[c], low, fuel - 1)
                 else Ok(Children(nd)[if c == n then n - 1 else c])
  {
    var nd := idx.store[pid].node;
    assert PageOK(idx.store, idx.store[pid], idx.leafCap, idx.nodeCap);
    ScanSlots(nd, low);
  }

  /** startScan: record the bounds, reject an empty range (BadScanParam) and
      then bounds of the wrong direction (BadOpcodes), then start the scan and
      place the cursor at slot 0 of the leaf the descent reaches, or of the
      root leaf. With nothing inserted yet the cursor is left as it was. The
      fields set before an exception stay set. */
  function StartScan(idx: Index, s: ScanState, lowVal: int, lowOp: Operator, highVal: int, highOp: Operator)
    : (r: (ScanState, Status))
    requires IndexOK(idx)
    ensures r.1 == Raised(BadScanParam) <==> lowVal > highVal
    ensures r.1 == Raised(BadOpcodes) <==>
              lowVal <= highVal && (lowOp !in {GT, GTE} || highOp !in {LT, LTE})
    ensures r.0.executing <==> s.executing || r.1 !in {Raised(BadScanParam), Raised(BadOpcodes)}
    ensures r.0.lowVal == lowVal && r.0.highVal == highVal
    ensures r.1 != Raised(BadScanParam) ==> r.0.lowOp == lowOp && r.0.highOp == highOp
    ensures r.1 == Raised(BadScanParam) ==> r.0 == s.(lowVal := lowVal, highVal := highVal)
    ensures r.1 == Done && idx.rootPageNum != 0 ==> IsLeaf(idx.store, r.0.currentPageNum) && r.0.nextEntry == 0
    ensures r.1 == Raised(Corrupt) ==> idx.hasNonLeaf
  {
    var s1 := s.(lowVal := lowVal, highVal := highVal);
    if lowVal > highVal then (s1, Raised(BadScanParam))
    else
      var s2 := s1.(lowOp := lowOp, highOp := highOp);
      if !(lowOp == GT || lowOp == GTE) || !(highOp == LT || highOp == LTE) then (s2, Raised(BadOpcodes))
      else
        var s3 := s2.(executing := true);
        if idx.hasNonLeaf then
          match Descend(idx, idx.rootPageNum, lowVal, |idx.store|)
          case Ok(leaf) => (s3.(currentPageNum := leaf, nextEntry := 0), Done)
          case Err(e) => (s3, Raised(e))
        else if idx.rootPageNum != 0 then (s3.(currentPageNum := idx.rootPageNum, nextEntry := 0), Done)
        else (s3, Done)
  }

  // ---------------------------------------------------------------------------
  // scanNext
  // ---------------------------------------------------------------------------

  /** Where the slot loop over one leaf stops. */
  datatype LeafStop = NotHere | EndAt | Hit(slot: nat)

  /** The slot loop of scanNext over `leaf` from slot `i`: the first valid
      slot whose key ends the scan or matches the range. */
  function LeafScan(leaf: LeafNode, s: ScanState, i: nat): (r: LeafStop)
    ensures r.Hit? ==> i <= r.slot < |leaf.valid| && r.slot < |leaf.keys| && r.slot < |leaf.rids|
    decreases |leaf.valid| - i
  {
    if i >= |leaf.valid| || i >= |leaf.keys| || i >= |leaf.rids| then NotHere
    else if leaf.valid[i] && Ends(s, leaf.keys[i]) then EndAt
    else if leaf.valid[i] && Matches(s, leaf.keys[i]) then Hit(i)
    else LeafScan(leaf, s, i + 1)
  }

  /** scanNext from the cursor of `s`: scan the current leaf from the next
      slot; at the end of a leaf, move to slot 0 of its right sibling, or
      complete when there is none. A match moves the cursor past its slot;
      the cursor moves made before completion stay. */
  function ScanFrom(store: map<PageId, Page>, s: ScanState, fuel: nat): (r: (ScanState, Result<RecordId, ScanError>))
    ensures SameBounds(s, r.0)
    decreases fuel
  {
    if fuel == 0 || !IsLeaf(store, s.currentPageNum) then (s, Err(Corrupt))
    else
      var leaf := store[s.currentPageNum].leaf;
      match LeafScan(leaf, s, s.nextEntry)
      case Hit(j) => (s.(nextEntry := j + 1), Ok(leaf.rids[j]))
      case EndAt => (s, Err(ScanCompleted))
      case NotHere =>
        if leaf.rightSib == 0 then (s, Err(ScanCompleted))
        else ScanFrom(store, s.(currentPageNum := leaf.rightSib, nextEntry := 0), fuel - 1)
  }

  /** scanNext: with nothing inserted the scan is complete at once; otherwise
      it goes on from the cursor. The code only asserts that a scan is
      running, so that is the caller's obligation. */
  function ScanNext(idx: Index, s: ScanState): (r: (ScanState, Result<RecordId, ScanError>))
    requires s.executing
    ensures SameBounds(s, r.0)
    ensures idx.rootPageNum == 0 ==> r == (s, Err(ScanCompleted))
  {
    if idx.rootPageNum == 0 then (s, Err(ScanCompleted))
    else ScanFrom(idx.store, s, |idx.store|)
  }

  // ---------------------------------------------------------------------------
  // The entries still ahead of the cursor
  // ---------------------------------------------------------------------------

  /** The entries ahead of a cursor at slot `i` of leaf `pid`: the live
      entries of that leaf from slot `i`, then those of every leaf along the
      sibling chain. None when the chain reaches a page that is not a leaf
      or is longer than `fuel` leaves. */
  function Pending(store: map<PageId, Page>, pid: PageId, i: nat, fuel: nat): Option<seq<Entry>>
    decreases fuel
  {
    if fuel == 0 || !IsLeaf(store, pid) then None
    else
      var leaf := store[pid].leaf;
      if leaf.rightSib == 0 then Some(LiveFrom(leaf, i))
      else
        match Pending(store, leaf.rightSib, 0, fuel - 1)
        case None => None
        case Some(rest) => Some(LiveFrom(leaf, i) + rest)
  }

  /** Position of the first entry of `es` at which a scan stops: one that
      ends the scan or matches the range; `|es|` when there is none. */
  function Seek(es: seq<Entry>, s: ScanState): (k: nat)
    ensures k <= |es|
    ensures forall j | 0 <= j < k :: !Ends(s, es[j].key) && !Matches(s, es[j].key)
    ensures k < |es| ==> Ends(s, es[k].key) || Matches(s, es[k].key)
  {
    if |es| == 0 then 0
    else if Ends(s, es[0].key) || Matches(s, es[0].key) then 0
    else 1 + Seek(es[1..], s)
  }

  /** Seeking through two sequences in turn. */
  lemma SeekAppend(a: seq<Entry>, b: seq<Entry>, s: ScanState)
    ensures Seek(a + b, s) == if Seek(a, s) < |a| then Seek(a, s) else |a| + Seek(b, s)
  {
    var k := Seek(a, s);
    if k < |a| {
      assert (a + b)[k] == a[k];
      assert forall j | 0 <= j < k :: (a + b)[j] == a[j];
      SeekFirst(a + b, s, k);
    } else {
      var m := Seek(b, s);
      var c := a + b;
      assert forall j | 0 <= j < |a| :: c[j] == a[j];
      assert forall j | 0 <= j < |b| :: c[|a| + j] == b[j];
      SeekFirst(c, s, |a| + m);
    }
  }

  /** A position before which nothing stops the scan and at which it stops
      (or the end) is the position `Seek` finds. */
  lemma {:induction false} SeekFirst(es: seq<Entry>, s: ScanState, k: nat)
    requires k <= |es|
    requires forall j | 0 <= j < k :: !Ends(s, es[j].key) && !Matches(s, es[j].key)
    requires k < |es| ==> Ends(s, es[k].key) || Matches(s, es[k].key)
    ensures Seek(es, s) == k
  {
    if 0 < k {
      assert forall j | 0 <= j < k - 1 :: es[1..][j] == es[j + 1];
      SeekFirst(es[1..], s, k - 1);
    }
  }

  /** The slot loop over one leaf agrees with `Seek` over the leaf's live
      entries from the same slot: no stop, a key that ends the scan, or the
      matching entry, after which the live entries are the rest. */
  predicate LeafScanAgrees(leaf: LeafNode, s: ScanState, i: nat) {
    StopAgrees(leaf, s, LeafScan(leaf, s, i), LiveFrom(leaf, i))
  }

  /** The stop `stop` of the slot loop agrees with `Seek` over the entries
      `es` it saw. */
  predicate StopAgrees(leaf: LeafNode, s: ScanState, stop: LeafStop, es: seq<Entry>) {
    var k := Seek(es, s);
    match stop
    case NotHere => k == |es|
    case EndAt => k < |es| && Ends(s, es[k].key)
    case Hit(j) => k < |es| && !Ends(s, es[k].key) && Matches(s, es[k].key)
                   && j < |leaf.keys| && j < |leaf.rids|
                   && es[k] == Entry(leaf.keys[j], leaf.rids[j]) && LiveFrom(leaf, j + 1) == es[k + 1..]
  }

  lemma {:induction false} LeafScanSeek(leaf: LeafNode, s: ScanState, i: nat)
    ensures LeafScanAgrees(leaf, s, i)
    decreases |leaf.valid| - i
  {
    if i < |leaf.valid| && i < |leaf.keys| && i < |leaf.rids| {
      if leaf.valid[i] && (Ends(s, leaf.keys[i]) || Matches(s, leaf.keys[i])) {
        StopHere(leaf, s, i);
      } else {
        LeafScanSeek(leaf, s, i + 1);
        if leaf.valid[i] {
          SeekSkip(leaf, s, i);
        } else {
          SkipFree(leaf, s, i);
        }
      }
    }
  }

  /** A free slot is passed over. */
  lemma SkipFree(leaf: LeafNode, s: ScanState, i: nat)
    requires i < |leaf.valid| && i < |leaf.keys| && i < |leaf.rids| && !leaf.valid[i]
    requires LeafScanAgrees(leaf, s, i + 1)
    ensures LeafScanAgrees(leaf, s, i)
  {
    assert LiveFrom(leaf, i) == LiveFrom(leaf, i + 1);
    assert LeafScan(leaf, s, i) == LeafScan(leaf, s, i + 1);
    assert StopAgrees(leaf, s, LeafScan(leaf, s, i + 1), LiveFrom(leaf, i + 1));
  }

  /** A live slot at which the scan stops is the first entry seen. */
  lemma StopHere(leaf: LeafNode, s: ScanState, i: nat)
    requires i < |leaf.valid| && i < |leaf.keys| && i < |leaf.rids| && leaf.valid[i]
    requires Ends(s, leaf.keys[i]) || Matches(s, leaf.keys[i])
    ensures LeafScanAgrees(leaf, s, i)
  {
    var es := LiveFrom(leaf, i);
    assert es == [Entry(leaf.keys[i], leaf.rids[i])] + LiveFrom(leaf, i + 1);
    assert Seek(es, s) == 0;
    assert es[1..] == LiveFrom(leaf, i + 1);
  }

  /** A live slot at which the scan does not stop is passed over. */
  lemma SeekSkip(leaf: LeafNode, s: ScanState, i: nat)
    requires i < |leaf.valid| && i < |leaf.keys| && i < |leaf.rids| && leaf.valid[i]
    requires !Ends(s, leaf.keys[i]) && !Matches(s, leaf.keys[i])
    requires LeafScanAgrees(leaf, s, i + 1)
    ensures LeafScanAgrees(leaf, s, i)
  {
    var es := LiveFrom(leaf, i);
    var rest := LiveFrom(leaf, i + 1);
    assert es == [Entry(leaf.keys[i], leaf.rids[i])] + rest;
    assert es[1..] == rest;
    assert Seek(es, s) == 1 + Seek(rest, s);
    var m := Seek(rest, s);
    if m < |rest| {
      assert es[1 + m] == rest[m];
      assert es[2 + m..] == rest[m + 1..];
    }
  }

  /** A longer chain allowance does not change the entries ahead. */
  lemma {:induction false} PendingMono(store: map<PageId, Page>, pid: PageId, i: nat, fuel: nat)
    requires Pending(store, pid, i, fuel).Some?
    ensures Pending(store, pid, i, fuel + 1) == Pending(store, pid, i, fuel)
    decreases fuel
  {
    var leaf := store[pid].leaf;
    if leaf.rightSib != 0 {
      PendingMono(store, leaf.rightSib, 0, fuel - 1);
    }
  }

  /** scanNext from the cursor against its reference, for the entries `es`
      ahead of the cursor (see `ScanFromSeek`). */
  ghost predicate ScanAgrees(store: map<PageId, Page>, s: ScanState, fuel: nat, es: seq<Entry>) {
    var r := ScanFrom(store, s, fuel);
    Reports(store, fuel, s, es, Seek(es, s), r.0, r.1)
  }

  /** Outcome `r` and new cursor `s'` are what the reference predicts when
      the first stop among the entries `es` ahead is at `k`. */
  ghost predicate Reports(store: map<PageId, Page>, fuel: nat, s: ScanState, es: seq<Entry>, k: nat,
                          s': ScanState, r: Result<RecordId, ScanError>)
    requires k <= |es|
  {
    && (r == Err(ScanCompleted) <==> k == |es| || Ends(s, es[k].key))
    && (r.Ok? <==> k < |es| && !Ends(s, es[k].key))
    && (r.Ok? ==> Matches(s, es[k].key) && r.value == es[k].rid
                  && Pending(store, s'.currentPageNum, s'.nextEntry, fuel) == Some(es[k + 1..]))
  }

  /** scanNext against its reference: with `es` the entries ahead of the
      cursor, the scan completes exactly when the first entry at which it
      stops is missing or beyond the high bound; otherwise it returns that
      entry's record, which matches the range, and the entries ahead of the
      new cursor are those after it. */
  lemma {:induction false} ScanFromSeek(store: map<PageId, Page>, s: ScanState, fuel: nat, es: seq<Entry>)
    requires Pending(store, s.currentPageNum, s.nextEntry, fuel) == Some(es)
    ensures ScanAgrees(store, s, fuel, es)
    decreases fuel
  {
    var leaf := store[s.currentPageNum].leaf;
    if leaf.rightSib == 0 {
      ScanLastLeaf(store, s, fuel, es);
    } else {
      var rest :| Pending(store, leaf.rightSib, 0, fuel - 1) == Some(rest);
      if LeafScan(leaf, s, s.nextEntry) == NotHere {
        var s2 := s.(currentPageNum := leaf.rightSib, nextEntry := 0);
        ScanFromSeek(store, s2, fuel - 1, rest);
        ScanPassLeaf(store, s, fuel, es, rest);
      } else {
        ScanStopInLeaf(store, s, fuel, es, rest);
      }
    }
  }

  /** On the last leaf of the chain the entries ahead are the leaf's own. */
  lemma ScanLastLeaf(store: map<PageId, Page>, s: ScanState, fuel: nat, es: seq<Entry>)
    requires Pending(store, s.currentPageNum, s.nextEntry, fuel) == Some(es)
    requires store[s.currentPageNum].leaf.rightSib == 0
    ensures ScanAgrees(store, s, fuel, es)
  {
    var leaf := store[s.currentPageNum].leaf;
    LeafScanSeek(leaf, s, s.nextEntry);
    assert es == LiveFrom(leaf, s.nextEntry);
    match LeafScan(leaf, s, s.nextEntry)
    case Hit(j) =>
      assert Pending(store, s.currentPageNum, j + 1, fuel) == Some(LiveFrom(leaf, j + 1));
    case EndAt =>
    case NotHere =>
  }

  /** A stop within the current leaf, which has a right sibling, is the
      first stop among all the entries ahead. */
  lemma ScanStopInLeaf(store: map<PageId, Page>, s: ScanState, fuel: nat, es: seq<Entry>, rest: seq<Entry>)
    requires Pending(store, s.currentPageNum, s.nextEntry, fuel) == Some(es)
    requires store[s.currentPageNum].leaf.rightSib != 0
    requires Pending(store, store[s.currentPageNum].leaf.rightSib, 0, fuel - 1) == Some(rest)
    requires LeafScan(store[s.currentPageNum].leaf, s, s.nextEntry) != NotHere
    ensures ScanAgrees(store, s, fuel, es)
  {
    var leaf := store[s.currentPageNum].leaf;
    var here := LiveFrom(leaf, s.nextEntry);
    LeafScanSeek(leaf, s, s.nextEntry);
    assert es == here + rest;
    SeekAppend(here, rest, s);
    var k := Seek(here, s);
    assert es[k] == here[k];
    match LeafScan(leaf, s, s.nextEntry)
    case Hit(j) =>
      assert Pending(store, s.currentPageNum, j + 1, fuel) == Some(LiveFrom(leaf, j + 1) + rest);
      assert es[k + 1..] == here[k + 1..] + rest;
    case EndAt =>
  }

  /** With no stop in the current leaf, the scan goes on at slot 0 of the
      right sibling, past the leaf's entries. */
  lemma ScanPassLeaf(store: map<PageId, Page>, s: ScanState, fuel: nat, es: seq<Entry>, rest: seq<Entry>)
    requires Pending(store, s.currentPageNum, s.nextEntry, fuel) == Some(es)
    requires store[s.currentPageNum].leaf.rightSib != 0
    requires Pending(store, store[s.currentPageNum].leaf.rightSib, 0, fuel - 1) == Some(rest)
    requires LeafScan(store[s.currentPageNum].leaf, s, s.nextEntry) == NotHere
    requires ScanAgrees(store, s.(currentPageNum := store[s.currentPageNum].leaf.rightSib, nextEntry := 0),
                        fuel - 1, rest)
    ensures ScanAgrees(store, s, fuel, es)
  {
    var leaf := store[s.currentPageNum].leaf;
    var here := LiveFrom(leaf, s.nextEntry);
    var s2 := s.(currentPageNum := leaf.rightSib, nextEntry := 0);
    PassLeafFacts(store, s, fuel, es, rest);
    AgreesPast(store, s, s2, fuel, here, rest);
  }

  /** The scan agrees with its reference over `here + rest` when it goes on
      from `s2` with no stop in `here` and agrees there over `rest`. */
  lemma AgreesPast(store: map<PageId, Page>, s: ScanState, s2: ScanState, fuel: nat, here: seq<Entry>, rest: seq<Entry>)
    requires SameBounds(s, s2) && 0 < fuel && Seek(here, s) == |here|
    requires ScanFrom(store, s, fuel) == ScanFrom(store, s2, fuel - 1)
    requires ScanAgrees(store, s2, fuel - 1, rest)
    ensures ScanAgrees(store, s, fuel, here + rest)
  {
    SeekPast(here, rest, s);
    SeekSameBounds(rest, s, s2);
    var m := Seek(rest, s2);
    var res := ScanFrom(store, s2, fuel - 1);
    if res.1.Ok? {
      PendingMono(store, res.0.currentPageNum, res.0.nextEntry, fuel - 1);
    }
    ReportsPast(store, fuel, s, s2, here, rest, m, res.0, res.1);
  }

  /** Passing a leaf with no stop: the entries ahead are the leaf's, in none
      of which the scan stops, then the sibling's; the scan goes on at slot 0
      of the sibling. */
  lemma PassLeafFacts(store: map<PageId, Page>, s: ScanState, fuel: nat, es: seq<Entry>, rest: seq<Entry>)
    requires Pending(store, s.currentPageNum, s.nextEntry, fuel) == Some(es)
    requires store[s.currentPageNum].leaf.rightSib != 0
    requires Pending(store, store[s.currentPageNum].leaf.rightSib, 0, fuel - 1) == Some(rest)
    requires LeafScan(store[s.currentPageNum].leaf, s, s.nextEntry) == NotHere
    ensures var leaf := store[s.currentPageNum].leaf;
            var here := LiveFrom(leaf, s.nextEntry);
            && es == here + rest && Seek(here, s) == |here| && 0 < fuel
            && ScanFrom(store, s, fuel)
               == ScanFrom(store, s.(currentPageNum := leaf.rightSib, nextEntry := 0), fuel - 1)
  {
    LeafScanSeek(store[s.currentPageNum].leaf, s, s.nextEntry);
  }

  /** What the reference predicts after the entries `here` is what it
      predicts over `here + rest` when nothing in `here` stops the scan. */
  lemma ReportsPast(store: map<PageId, Page>, fuel: nat, s: ScanState, s2: ScanState, here: seq<Entry>,
                    rest: seq<Entry>, m: nat, s': ScanState, r: Result<RecordId, ScanError>)
    requires SameBounds(s, s2) && 0 < fuel && m <= |rest|
    requires Reports(store, fuel - 1, s2, rest, m, s', r)
    requires r.Ok? ==> Pending(store, s'.currentPageNum, s'.nextEntry, fuel) == Some(rest[m + 1..])
    ensures Reports(store, fuel, s, here + rest, |here| + m, s', r)
  {
    var es := here + rest;
    if m < |rest| {
      assert es[|here| + m] == rest[m];
      assert es[|here| + m + 1..] == rest[m + 1..];
    }
  }

  /** When nothing in `a` stops the scan, seeking through `a + b` is seeking
      through `b`, shifted by `|a|`. */
  lemma SeekPast(a: seq<Entry>, b: seq<Entry>, s: ScanState)
    requires Seek(a, s) == |a|
    ensures var m := Seek(b, s);
            && Seek(a + b, s) == |a| + m
            && (m < |b| ==> (a + b)[|a| + m] == b[m] && (a + b)[|a| + m + 1..] == b[m + 1..])
  {
    SeekAppend(a, b, s);
    var m := Seek(b, s);
    if m < |b| {
      assert (a + b)[|a| + m + 1..] == b[m + 1..];
    }
  }

  /** `Seek` only looks at the bounds. */
  lemma SeekSameBounds(es: seq<Entry>, a: ScanState, b: ScanState)
    requires SameBounds(a, b)
    ensures Seek(es, a) == Seek(es, b)
  {
    SeekFirst(es, b, Seek(es, a));
  }

  /** scanNext as a whole: with `es` the entries ahead of the cursor, it
      returns the record of the first entry that matches the range unless an
      entry beyond the high bound comes first, and then completes; a returned
      entry is consumed, so the entries ahead of the new cursor are the rest. */
  lemma ScanNextSeek(idx: Index, s: ScanState, es: seq<Entry>)
    requires s.executing && idx.rootPageNum != 0
    requires Pending(idx.store, s.currentPageNum, s.nextEntry, |idx.store|) == Some(es)
    ensures var (s', r) := ScanNext(idx, s);
            var k := Seek(es, s);
            && (r == Err(ScanCompleted) <==> k == |es| || Ends(s, es[k].key))
            && (r.Ok? <==> !(r == Err(ScanCompleted)))
            && (r.Ok? ==> Matches(s, es[k].key) && r.value == es[k].rid && s'.executing
                          && Pending(idx.store, s'.currentPageNum, s'.nextEntry, |idx.store|) == Some(es[k + 1..]))
  {
    ScanFromSeek(idx.store, s, |idx.store|, es);
  }

  /** Completion is final: once scanNext has completed, asking again from the
      state it left completes again without moving the cursor. */
  lemma {:induction false} ScanFromCompletedStays(store: map<PageId, Page>, s: ScanState, fuel: nat, again: nat)
    requires ScanFrom(store, s, fuel).1 == Err(ScanCompleted) && 0 < again
    ensures var s' := ScanFrom(store, s, fuel).0;
            ScanFrom(store, s', again) == (s', Err(ScanCompleted))
    decreases fuel
  {
    var leaf := store[s.currentPageNum].leaf;
    match LeafScan(leaf, s, s.nextEntry)
    case Hit(j) =>
    case EndAt =>
    case NotHere =>
      if leaf.rightSib != 0 {
        ScanFromCompletedStays(store, s.(currentPageNum := leaf.rightSib, nextEntry := 0), fuel - 1, again);
      }
  }

  lemma ScanNextCompletedStays(idx: Index, s: ScanState)
    requires s.executing && ScanNext(idx, s).1 == Err(ScanCompleted)
    ensures var s' := ScanNext(idx, s).0;
            s'.executing && ScanNext(idx, s') == (s', Err(ScanCompleted))
  {
    if idx.rootPageNum != 0 {
      ScanFromCompletedStays(idx.store, s, |idx.store|, |idx.store|);
    }
  }

  // ---------------------------------------------------------------------------
  // endScan
  // ---------------------------------------------------------------------------

  /** endScan: without a running scan it raises ScanNotInitialized; otherwise
      it stops the scan and resets the next slot. */
  function EndScan(s: ScanState): (r: (ScanState, Status))
    ensures r.1 == Done <==> s.executing
    ensures r.1 != Done ==> r.1 == Raised(ScanNotInitialized) && r.0 == s
    ensures !r.0.executing
  {
    if !s.executing then (s, Raised(ScanNotInitialized))
    else (s.(executing := false, nextEntry := 0), Done)
  }

  /** A scan that started can be ended, once: ending it again raises
      ScanNotInitialized. */
  lemma StartEndScan(idx: Index, s: ScanState, lowVal: int, lowOp: Operator, highVal: int, highOp: Operator)
    requires IndexOK(idx)
    ensures var (s1, st) := StartScan(idx, s, lowVal, lowOp, highVal, highOp);
            st == Done ==> EndScan(s1).1 == Done && EndScan(EndScan(s1).0).1 == Raised(ScanNotInitialized)
  {
  }
}
