/** Insertion into the B+Tree index: insertEntryUpdate and insertEntry of
    btree.cpp. The descent below the root is a recursive function over the
    page store that reports to its caller whether the node it was given
    split; insertEntry adds the two ways the tree grows by a level (the
    first split of a root leaf, and a split that reaches an internal root).

    Tree recursion is bounded by the number of pages of the file: a descent
    that takes more steps than there are pages can only be cycling through
    a damaged file, and ends with `Corrupt`, as does reading a page of a
    kind the code does not expect there (the code reinterprets the bytes). */
module BTreeInsert {
  import opened KeyOrder
  import opened BTreeNode
  import opened Flags
  import opened BTreeIndex
  import opened Results

  /** `Corrupt` is not an error the code raises: it marks a damaged file,
      where the code's behaviour is undefined. */
  datatype IndexError = Corrupt

  /** What a call of insertEntryUpdate tells its caller (`needsUpate` and
      `feedbackTuple`): the node took the insertion, or it split and the
      caller must insert `key` with the fresh page `pageNo` to its right. */
  datatype Feedback = Absorbed | Promote(key: int, pageNo: PageId)

  /** Only the pages and the page counter differ: the fields the index keeps
      in memory are those of `a`. */
  predicate OnlyPages(a: Index, b: Index) {
    b == a.(store := b.store, nextPage := b.nextPage)
  }

  /** The end of insertEntryUpdate at an internal node `node` stored at `pid`,
      once a child split and reported (`key`, `child`): nonLeafNodeInsert
      when the node has a free key slot, else nonLeafNodeInsertSplit onto a
      fresh page, whose middle key goes up. */
  function AbsorbOrSplit(idx: Index, pid: PageId, node: InternalNode, key: int, child: PageId): (r: (Index, Feedback))
    requires InternalWF(node) && 2 <= |node.valid|
  {
    if CountTrue(node.valid) < |node.valid| then
      (idx.(store := idx.store[pid := InternalPage(InternalInsert(node, key, child))]), Absorbed)
    else
      var newPid := idx.nextPage;
      var h := InternalInsertSplit(node, key, child);
      (idx.(store := idx.store[newPid := InternalPage(h.right)][pid := InternalPage(h.left)], nextPage := newPid + 1),
       Promote(h.promoted, newPid))
  }

  /** The leaf part of insertEntryUpdate (lines 885-912 of the code):
      leafNodeInsert into the leaf at `lp` when it has a free slot, else
      leafNodeInsertSplit onto a fresh page, reported to the caller with its
      first key. */
  function LeafStep(idx: Index, lp: PageId, key: int, rid: RecordId): (r: (Index, Feedback))
    requires IndexOK(idx) && IsLeaf(idx.store, lp)
  {
    assert PageOK(idx.store, idx.store[lp], idx.leafCap, idx.nodeCap);
    var leaf := idx.store[lp].leaf;
    if CountTrue(leaf.valid) < |leaf.valid| then
      (idx.(store := idx.store[lp := LeafPage(LeafInsert(leaf, key, rid))]), Absorbed)
    else
      var newLeaf := idx.nextPage;
      var h := LeafInsertSplit(leaf, key, rid, newLeaf);
      (idx.(store := idx.store[newLeaf := LeafPage(h.right)][lp := LeafPage(h.left)], nextPage := newLeaf + 1),
       Promote(h.separator, newLeaf))
  }

  /** The node part of insertEntryUpdate once the child has been dealt with:
      nothing to do if the child absorbed the insertion, else absorb or
      split. */
  function Finish(idx: Index, pid: PageId, node: InternalNode, fb: Feedback): (r: (Index, Feedback))
    requires InternalWF(node) && 2 <= |node.valid|
  {
    match fb
    case Absorbed => (idx, Absorbed)
    case Promote(k, p) => AbsorbOrSplit(idx, pid, node, k, p)
  }

  /** insertEntryUpdate at the internal page `pid` (lines 842-1000 of the
      code): take the child after every key at most `key`; at level 1 insert
      into that leaf, otherwise recurse into it; then absorb a split of the
      child or split in turn. The node is the one read before the descent,
      as the code keeps it. */
  function InsertBelow(idx: Index, key: int, rid: RecordId, pid: PageId, fuel: nat): (r: Result<(Index, Feedback), IndexError>)
    requires IndexOK(idx)
    decreases fuel
  {
    if fuel == 0 || !IsInternal(idx.store, pid) then Err(Corrupt)
    else
      assert PageOK(idx.store, idx.store[pid], idx.leafCap, idx.nodeCap);
      var node := idx.store[pid].node;
      var childPid := ChildFor(node, key);
      if node.level == 1 then
        if !IsLeaf(idx.store, childPid) then Err(Corrupt)
        else
          var step := LeafStep(idx, childPid, key, rid);
          Ok(Finish(step.0, pid, node, step.1))
      else
        match InsertBelow(idx, key, rid, childPid, fuel - 1)
        case Err(e) => Err(e)
        case Ok(step) => Ok(Finish(step.0, pid, node, step.1))
  }

  /** Points the in-memory fields and the header page at a new root. */
  function SetRoot(idx: Index, root: PageId, hasNonLeaf: bool): (r: Index)
    requires HeaderSynced(idx)
    ensures HeaderSynced(r) && r.rootPageNum == root && r.hasNonLeaf == hasNonLeaf
  {
    var meta := idx.store[idx.headerPageNum].meta;
    idx.(store := idx.store[idx.headerPageNum := HeaderPage(meta.(rootPageNo := root, hasNonLeaf := hasNonLeaf))],
         rootPageNum := root, hasNonLeaf := hasNonLeaf)
  }

  /** The first insertion: a fresh page becomes the root leaf, starting
      empty with no sibling, and takes the pair. */
  function FirstInsert(idx: Index, key: int, rid: RecordId): (r: Index)
    requires IndexOK(idx)
  {
    var pid := idx.nextPage;
    EmptyLeafFacts(idx.leafCap);
    var leaf := LeafInsert(EmptyLeaf(idx.leafCap), key, rid);
    SetRoot(idx.(store := idx.store[pid := LeafPage(leaf)], nextPage := pid + 1), pid, false)
  }

  /** A fresh root on the next free page with the single key `key` between
      `left` (the old root) and `right` (the page split off it), recorded in
      the header. */
  function GrowRoot(idx: Index, level: int, key: int, left: PageId, right: PageId): (r: Index)
    requires HeaderSynced(idx) && 1 <= idx.nodeCap && idx.headerPageNum < idx.nextPage
  {
    var newRoot := idx.nextPage;
    var store := idx.store[newRoot := InternalPage(NewRoot(idx.nodeCap, level, key, left, right))];
    SetRoot(idx.(store := store, nextPage := newRoot + 1), newRoot, true)
  }

  /** insertEntry: insert a (key, record) pair. While the root is a leaf,
      the first insertion allocates it, a root leaf with room takes the pair,
      and a full root leaf splits under a fresh level-1 root. Otherwise the
      pair goes down from the root, and a split that comes back up to the
      root puts a fresh level-0 root over it. */
  function InsertEntry(idx: Index, key: int, rid: RecordId): (r: Result<Index, IndexError>)
    requires IndexOK(idx)
  {
    if !idx.hasNonLeaf then
      if idx.rootPageNum == 0 then Ok(FirstInsert(idx, key, rid))
      else
        match LeafStep(idx, idx.rootPageNum, key, rid)
        case (b, Absorbed) => Ok(b)
        case (b, Promote(k, p)) => Ok(GrowRoot(b, 1, k, idx.rootPageNum, p))
    else
      match InsertBelow(idx, key, rid, idx.rootPageNum, |idx.store|)
      case Err(e) => Err(e)
      case Ok((b, Absorbed)) => Ok(b)
      case Ok((b, Promote(k, p))) =>
        InsertBelowCorrect(idx, key, rid, idx.rootPageNum, |idx.store|);
        Ok(GrowRoot(b, 0, k, idx.rootPageNum, p))
  }

  // ---------------------------------------------------------------------------
  // The descent
  // ---------------------------------------------------------------------------

  /** One step of insertEntryUpdate's descent for `key`: from an internal page
      to the child it takes; the descent stays at any other page. */
  function Hop(idx: Index, key: int, x: PageId): PageId {
    if IsInternal(idx.store, x) && InternalShaped(idx.store[x].node) then ChildFor(idx.store[x].node, key) else x
  }

  /** The page the descent for `key` reaches from `x` after `n` steps. */
  function Walk(idx: Index, key: int, x: PageId, n: nat): PageId
    decreases n
  {
    if n == 0 then x else Walk(idx, key, Hop(idx, key, x), n - 1)
  }

  /** The pages the descent for `key` visits from `x` within `n` steps. */
  function Path(idx: Index, key: int, x: PageId, n: nat): set<PageId> {
    set k: nat | k <= n :: Walk(idx, key, x, k)
  }

  /** An internal node above level 1: the descent goes on below it. */
  predicate Deep(idx: Index, x: PageId) {
    IsInternal(idx.store, x) && idx.store[x].node.level != 1
  }

  /** `a` steps and then `b` more are `a + b` steps. */
  lemma {:induction false} WalkAdd(idx: Index, key: int, x: PageId, a: nat, b: nat)
    ensures Walk(idx, key, x, a + b) == Walk(idx, key, Walk(idx, key, x, a), b)
    decreases a
  {
    if a > 0 {
      WalkAdd(idx, key, Hop(idx, key, x), a - 1, b);
    }
  }

  /** The pages visited from `x` within `n` steps are `x` and those visited
      from the page after it within `n - 1`. */
  lemma PathStep(idx: Index, key: int, x: PageId, n: nat)
    requires 0 < n
    ensures Path(idx, key, x, n) == {x} + Path(idx, key, Hop(idx, key, x), n - 1)
  {
    var y := Hop(idx, key, x);
    assert Walk(idx, key, x, 0) == x;
    forall k: nat | k <= n - 1
      ensures Walk(idx, key, y, k) in Path(idx, key, x, n)
    {
      assert Walk(idx, key, x, k + 1) == Walk(idx, key, y, k);
    }
    forall k: nat | 0 < k <= n
      ensures Walk(idx, key, x, k) in Path(idx, key, y, n - 1)
    {
      assert Walk(idx, key, x, k) == Walk(idx, key, y, k - 1);
    }
  }

  /** Once the descent is past the deep nodes it never reaches one again:
      below a level-1 node is a leaf, where it stays. */
  lemma {:induction false} StaysShallow(idx: Index, key: int, x: PageId, a: nat, b: nat)
    requires IndexOK(idx) && a <= b && !Deep(idx, Walk(idx, key, x, a))
    ensures !Deep(idx, Walk(idx, key, x, b))
    decreases b - a
  {
    if a < b {
      var y := Walk(idx, key, x, a);
      WalkAdd(idx, key, x, a, 1);
      assert Walk(idx, key, x, a + 1) == Hop(idx, key, y);
      if IsInternal(idx.store, y) {
        assert PageOK(idx.store, idx.store[y], idx.leafCap, idx.nodeCap);
        ChildForIsChild(idx.store[y].node, key);
      }
      StaysShallow(idx, key, x, a + 1, b);
    }
  }

  /** A descent through deep nodes that comes back to a page it visited goes
      round for ever: every page it reaches is deep. */
  lemma {:induction false} CycleDeep(idx: Index, key: int, x: PageId, i: nat, j: nat, k: nat)
    requires i < j && Walk(idx, key, x, i) == Walk(idx, key, x, j)
    requires forall m: nat | m < j :: Deep(idx, Walk(idx, key, x, m))
    ensures Deep(idx, Walk(idx, key, x, k))
    decreases k
  {
    if k >= j {
      WalkAdd(idx, key, x, j, k - j);
      WalkAdd(idx, key, x, i, k - j);
      CycleDeep(idx, key, x, i, j, i + (k - j));
    }
  }

  /** More elements than a set holds, all drawn from it: two are equal. */
  lemma {:induction false} Pigeonhole<T>(s: seq<T>, pool: set<T>)
    requires forall m | 0 <= m < |s| :: s[m] in pool
    requires |pool| < |s|
    ensures exists i, j | 0 <= i < j < |s| :: s[i] == s[j]
    decreases |s|
  {
    if s[0] in s[1..] {
      var j :| 0 <= j < |s[1..]| && s[1..][j] == s[0];
      assert s[0] == s[j + 1];
    } else {
      var rest := pool - {s[0]};
      assert |rest| == |pool| - 1;
      forall m | 0 <= m < |s[1..]|
        ensures s[1..][m] in rest
      {
        assert s[1..][m] == s[m + 1];
      }
      Pigeonhole(s[1..], rest);
      var i, j :| 0 <= i < j < |s[1..]| && s[1..][i] == s[1..][j];
      assert s[i + 1] == s[j + 1];
    }
  }

  /** One level of insertEntryUpdate from an internal page: it fails exactly
      when the page is deep and the call on the child the descent picks
      fails; below a level-1 node that child is a leaf. */
  lemma InsertBelowUnfold(idx: Index, key: int, rid: RecordId, pid: PageId, fuel: nat)
    requires IndexOK(idx) && IsInternal(idx.store, pid) && 0 < fuel
    ensures Deep(idx, pid) ==> IsInternal(idx.store, Hop(idx, key, pid))
    ensures !Deep(idx, pid) ==> IsLeaf(idx.store, Hop(idx, key, pid))
    ensures InsertBelow(idx, key, rid, pid, fuel).Err?
            <==> Deep(idx, pid) && InsertBelow(idx, key, rid, Hop(idx, key, pid), fuel - 1).Err?
  {
    assert PageOK(idx.store, idx.store[pid], idx.leafCap, idx.nodeCap);
    ChildForIsChild(idx.store[pid].node, key);
  }

  /** insertEntryUpdate from an internal page fails exactly when every page
      the descent reaches within the fuel is deep: it meets no level-1 node
      before the fuel runs out. */
  lemma {:induction false} InsertBelowFails(idx: Index, key: int, rid: RecordId, pid: PageId, fuel: nat)
    requires IndexOK(idx) && IsInternal(idx.store, pid)
    ensures InsertBelow(idx, key, rid, pid, fuel).Err? <==> AllDeep(idx, key, pid, fuel)
    decreases fuel
  {
    if fuel > 0 {
      InsertBelowUnfold(idx, key, rid, pid, fuel);
      var c := Hop(idx, key, pid);
      assert Walk(idx, key, pid, 0) == pid;
      if Deep(idx, pid) {
        InsertBelowFails(idx, key, rid, c, fuel - 1);
        AllDeepShift(idx, key, pid, fuel);
      } else {
        assert !InsertBelow(idx, key, rid, pid, fuel).Err?;
        assert !Deep(idx, Walk(idx, key, pid, 0));
      }
    }
  }

  /** The descent from `x` stays on deep pages for its first `n` steps. */
  predicate AllDeep(idx: Index, key: int, x: PageId, n: nat) {
    forall k: nat | k < n :: Deep(idx, Walk(idx, key, x, k))
  }

  /** From a deep page, the descent stays on deep pages for `n` steps
      exactly when it does for `n - 1` steps from the page after it. */
  lemma AllDeepShift(idx: Index, key: int, pid: PageId, n: nat)
    requires Deep(idx, pid) && 0 < n
    ensures AllDeep(idx, key, pid, n) <==> AllDeep(idx, key, Hop(idx, key, pid), n - 1)
  {
    var c := Hop(idx, key, pid);
    assert Walk(idx, key, pid, 0) == pid;
    if forall k: nat | k < n :: Deep(idx, Walk(idx, key, pid, k)) {
      forall k: nat | k < n - 1
        ensures Deep(idx, Walk(idx, key, c, k))
      {
        assert Walk(idx, key, pid, k + 1) == Walk(idx, key, c, k);
      }
    }
    if forall k: nat | k < n - 1 :: Deep(idx, Walk(idx, key, c, k)) {
      forall k: nat | k < n
        ensures Deep(idx, Walk(idx, key, pid, k))
      {
        if k > 0 {
          assert Walk(idx, key, pid, k) == Walk(idx, key, c, k - 1);
        }
      }
    }
  }

  /** A successful descent from a deep page never comes back to it. */
  lemma NoReturn(idx: Index, key: int, rid: RecordId, pid: PageId, fuel: nat, n: nat)
    requires IndexOK(idx) && Deep(idx, pid) && InsertBelow(idx, key, rid, pid, fuel).Ok? && 1 <= n
    ensures Walk(idx, key, pid, n) != pid
  {
    if Walk(idx, key, pid, n) == pid {
      assert Walk(idx, key, pid, 0) == pid;
      if forall m: nat | m < n :: Deep(idx, Walk(idx, key, pid, m)) {
        forall k: nat | k < fuel
          ensures Deep(idx, Walk(idx, key, pid, k))
        {
          CycleDeep(idx, key, pid, 0, n, k);
        }
        InsertBelowFails(idx, key, rid, pid, fuel);
      } else {
        var m: nat :| m < n && !Deep(idx, Walk(idx, key, pid, m));
        StaysShallow(idx, key, pid, m, n);
      }
    }
  }

  /** The descent from `x` never leaves the deep pages. */
  ghost predicate DeepForever(idx: Index, key: int, x: PageId) {
    forall n: nat :: Deep(idx, Walk(idx, key, x, n))
  }

  /** A successful descent from a deep page is not among the pages the
      descent visits from its child. */
  lemma NotOnPath(idx: Index, key: int, rid: RecordId, pid: PageId, fuel: nat)
    requires IndexOK(idx) && Deep(idx, pid) && 0 < fuel && InsertBelow(idx, key, rid, Hop(idx, key, pid), fuel - 1).Ok?
    ensures pid !in Path(idx, key, Hop(idx, key, pid), fuel - 1)
  {
    var c := Hop(idx, key, pid);
    InsertBelowUnfold(idx, key, rid, pid, fuel);
    forall k: nat | k <= fuel - 1
      ensures Walk(idx, key, c, k) != pid
    {
      assert Walk(idx, key, pid, k + 1) == Walk(idx, key, c, k);
      NoReturn(idx, key, rid, pid, fuel, k + 1);
    }
  }

  /** insertEntry fails exactly when the root is internal and the descent
      from it never meets a level-1 node: it goes round a cycle of internal
      pages, where the code would recurse without end. */
  lemma InsertEntryFails(idx: Index, key: int, rid: RecordId)
    requires IndexOK(idx)
    ensures InsertEntry(idx, key, rid).Err? <==> idx.hasNonLeaf && DeepForever(idx, key, idx.rootPageNum)
  {
    InsertEntryErr(idx, key, rid);
    if idx.hasNonLeaf {
      var root := idx.rootPageNum;
      InsertBelowFails(idx, key, rid, root, |idx.store|);
      if AllDeep(idx, key, root, |idx.store|) {
        DeepCycle(idx, key, root);
      }
    }
  }

  /** insertEntry fails only by the descent from an internal root failing. */
  lemma InsertEntryErr(idx: Index, key: int, rid: RecordId)
    requires IndexOK(idx)
    ensures InsertEntry(idx, key, rid).Err?
            <==> idx.hasNonLeaf && InsertBelow(idx, key, rid, idx.rootPageNum, |idx.store|).Err?
  {
  }

  /** A descent that stays on deep pages for as many steps as there are
      pages goes round a cycle, and so stays on deep pages for ever. */
  lemma DeepCycle(idx: Index, key: int, root: PageId)
    requires IndexOK(idx) && AllDeep(idx, key, root, |idx.store|)
    ensures DeepForever(idx, key, root)
  {
    var f := |idx.store|;
    var s := seq(f, k requires 0 <= k < f => Walk(idx, key, root, k));
    var pool := idx.store.Keys - {idx.headerPageNum};
    forall m | 0 <= m < |s|
      ensures s[m] in pool
    {
      assert Deep(idx, Walk(idx, key, root, m));
    }
    assert |pool| == f - 1;
    Pigeonhole(s, pool);
    var i, j :| 0 <= i < j < |s| && s[i] == s[j];
    forall n: nat
      ensures Deep(idx, Walk(idx, key, root, n))
    {
      CycleDeep(idx, key, root, i, j, n);
    }
  }

  // ---------------------------------------------------------------------------
  // Correctness
  // ---------------------------------------------------------------------------

  /** The page-level facts of nonLeafNodeInsert used by the index: a
      consistent node of the same level whose children are the old ones and
      the new one. */
  lemma InternalInsertPage(node: InternalNode, key: int, child: PageId)
    requires InternalWF(node) && CountTrue(node.valid) < |node.valid|
    ensures var r := InternalInsert(node, key, child);
            && InternalOK(r, |node.valid|) && r.level == node.level
            && forall c | c in Children(r) :: c in Children(node) || c == child
  {
    InternalInsertCorrect(node, key, child);
    InsertAtMembers(Children(node), CountAtMost(Keys(node), key) + 1, child);
  }

  /** The page-level facts of nonLeafNodeInsertSplit used by the index. */
  lemma InternalSplitPages(node: InternalNode, key: int, child: PageId)
    requires InternalWF(node) && CountTrue(node.valid) == |node.valid| && 2 <= |node.valid|
    ensures var h := InternalInsertSplit(node, key, child);
            && InternalOK(h.left, |node.valid|) && InternalOK(h.right, |node.valid|)
            && h.left.level == node.level && h.right.level == node.level
            && (forall c | c in Children(h.left) :: c in Children(node) || c == child)
            && (forall c | c in Children(h.right) :: c in Children(node) || c == child)
  {
    var h := InternalInsertSplit(node, key, child);
    var kids := InsertAt(Children(node), CountAtMost(Keys(node), key) + 1, child);
    InternalInsertSplitCorrect(node, key, child);
    InsertAtMembers(Children(node), CountAtMost(Keys(node), key) + 1, child);
    ConcatMembers(Children(h.left), Children(h.right), kids);
  }

  /** The page-level facts of leafNodeInsert used by the index. */
  lemma LeafInsertPage(leaf: LeafNode, key: int, rid: RecordId)
    requires LeafWF(leaf) && CountTrue(leaf.valid) < |leaf.valid|
    ensures var r := LeafInsert(leaf, key, rid);
            && LeafOK(r, |leaf.valid|) && r.rightSib == leaf.rightSib
            && PageEntries(LeafPage(r)) == PageEntries(LeafPage(leaf)) + multiset{Entry(key, rid)}
  {
    LeafInsertCorrect(leaf, key, rid);
  }

  /** The page-level facts of leafNodeInsertSplit used by the index. */
  lemma LeafSplitPages(leaf: LeafNode, key: int, rid: RecordId, newPid: PageId)
    requires LeafWF(leaf) && CountTrue(leaf.valid) == |leaf.valid| && 2 <= |leaf.valid|
    ensures var h := LeafInsertSplit(leaf, key, rid, newPid);
            && LeafOK(h.left, |leaf.valid|) && LeafOK(h.right, |leaf.valid|)
            && h.left.rightSib == newPid && h.right.rightSib == leaf.rightSib
            && PageEntries(LeafPage(h.left)) + PageEntries(LeafPage(h.right))
               == PageEntries(LeafPage(leaf)) + multiset{Entry(key, rid)}
  {
    LeafInsertSplitCorrect(leaf, key, rid, newPid);
  }

  /** Absorbing a child's split in a node with room (nonLeafNodeInsert)
      keeps the index consistent and its entries unchanged. */
  lemma AbsorbCorrect(idx: Index, pid: PageId, node: InternalNode, key: int, child: PageId)
    requires IndexOK(idx) && IsInternal(idx.store, pid)
    requires PageOK(idx.store, InternalPage(node), idx.leafCap, idx.nodeCap)
    requires if node.level == 1 then IsLeaf(idx.store, child) else IsInternal(idx.store, child)
    requires CountTrue(node.valid) < |node.valid|
    ensures var b := idx.(store := idx.store[pid := InternalPage(InternalInsert(node, key, child))]);
            && IndexOK(b) && Grows(idx, b) && AllEntries(b.store) == AllEntries(idx.store)
  {
    var nd := InternalInsert(node, key, child);
    InternalInsertPage(node, key, child);
    assert ChildrenOK(idx.store[pid := InternalPage(nd)], nd);
    WriteKeepsOK(idx, pid, InternalPage(nd), idx.nextPage);
    EntriesUpdateEmpty(idx.store, pid, InternalPage(nd));
  }

  /** Splitting a full node (nonLeafNodeInsertSplit) onto the fresh page
      `idx.nextPage` keeps the index consistent and its entries unchanged;
      the fresh page is an internal node of the node's level. */
  lemma SplitCorrect(idx: Index, pid: PageId, node: InternalNode, key: int, child: PageId)
    requires IndexOK(idx) && IsInternal(idx.store, pid)
    requires PageOK(idx.store, InternalPage(node), idx.leafCap, idx.nodeCap)
    requires if node.level == 1 then IsLeaf(idx.store, child) else IsInternal(idx.store, child)
    requires CountTrue(node.valid) == |node.valid|
    ensures var newPid := idx.nextPage;
            var h := InternalInsertSplit(node, key, child);
            var b := idx.(store := idx.store[newPid := InternalPage(h.right)][pid := InternalPage(h.left)],
                          nextPage := newPid + 1);
            && IndexOK(b) && Grows(idx, b) && AllEntries(b.store) == AllEntries(idx.store)
            && newPid !in idx.store && IsInternal(b.store, newPid) && b.store[newPid].node.level == node.level
  {
    var newPid := idx.nextPage;
    var h := InternalInsertSplit(node, key, child);
    InternalSplitPages(node, key, child);
    assert newPid !in idx.store;
    var s1 := idx.store[newPid := InternalPage(h.right)];
    var s2 := s1[pid := InternalPage(h.left)];
    assert ChildrenOK(s2, h.left);
    assert ChildrenOK(s2, h.right);
    WriteSplitOK(idx, pid, InternalPage(h.left), InternalPage(h.right));
    EntriesUpdateEmpty(idx.store, newPid, InternalPage(h.right));
    EntriesUpdateEmpty(s1, pid, InternalPage(h.left));
  }

  /** `p` is a page new in `b` (not a page of `a`) that was split off a page
      of the kind `leaf` names, reported with the key `k`: the first key of
      a leaf, or a key at most every key of an internal node. */
  ghost predicate SplitOff(a: Index, b: Index, k: int, p: PageId, leaf: bool) {
    && p !in a.store
    && (if leaf then
          IsLeaf(b.store, p) && 0 < |Entries(b.store[p].leaf)| && k == Entries(b.store[p].leaf)[0].key
        else
          IsInternal(b.store, p) && InternalShaped(b.store[p].node)
          && forall x | x in Keys(b.store[p].node) :: k <= x)
  }

  /** The node `node` at page `pid` took the page `cp` split off its child,
      with key `ck`: in place when it had a free key slot (nonLeafNodeInsert),
      reporting no split; otherwise (nonLeafNodeInsertSplit) its lower half
      stays at `pid`, its upper half is on the page it reports, and the key
      it reports is the one that went up. */
  ghost predicate Took(node: InternalNode, ck: int, cp: PageId, pid: PageId, b: Index, fb: Feedback)
    requires InternalWF(node) && 2 <= |node.valid|
  {
    if CountTrue(node.valid) < |node.valid| then
      fb.Absorbed? && pid in b.store && b.store[pid] == InternalPage(InternalInsert(node, ck, cp))
    else
      var h := InternalInsertSplit(node, ck, cp);
      && fb.Promote? && fb.key == h.promoted
      && pid in b.store && b.store[pid] == InternalPage(h.left)
      && fb.pageNo in b.store && b.store[fb.pageNo] == InternalPage(h.right)
  }

  /** Page `q` of `b` is an internal node with `p` among its children. */
  predicate ParentOf(b: Index, q: PageId, p: PageId) {
    q in b.store && b.store[q].InternalPage? && InternalShaped(b.store[q].node) && p in Children(b.store[q].node)
  }

  /** Some internal node of `b` has `p` among its children. */
  ghost predicate Parented(b: Index, p: PageId) {
    exists q :: ParentOf(b, q, p)
  }

  /** Every page new in `b` is a child of an internal node, or the page split
      off last, which `fb` hands up to the caller. */
  ghost predicate Placed(a: Index, b: Index, fb: Feedback) {
    forall p | p in b.store && p !in a.store :: (fb.Promote? && p == fb.pageNo) || Parented(b, p)
  }

  /** Absorbing a child's split (nonLeafNodeInsert, or nonLeafNodeInsertSplit
      when the node is full) keeps the index consistent and its entries
      unchanged. It writes only the node's page and the fresh page
      `idx.nextPage`, takes the new child under the node or its upper half,
      and reports a split with the key that went up. */
  ghost predicate TookChild(idx: Index, pid: PageId, node: InternalNode, key: int, child: PageId, b: Index, fb: Feedback)
    requires InternalWF(node) && 2 <= |node.valid|
  {
    && IndexOK(b) && Grows(idx, b) && OnlyPages(idx, b)
    && AllEntries(b.store) == AllEntries(idx.store)
    && (fb.Promote? <==> CountTrue(node.valid) == idx.nodeCap)
    && Took(node, key, child, pid, b, fb)
    && (fb.Promote? ==> fb.pageNo == idx.nextPage && SplitOff(idx, b, fb.key, fb.pageNo, false)
                        && b.store[fb.pageNo].node.level == node.level)
    && (ParentOf(b, pid, child) || (fb.Promote? && ParentOf(b, fb.pageNo, child)))
    && (forall q | q in idx.store && q != pid :: b.store[q] == idx.store[q])
    && (forall q | q in b.store && q !in idx.store :: fb.Promote? && q == fb.pageNo)
  }

  lemma AbsorbOrSplitCorrect(idx: Index, pid: PageId, node: InternalNode, key: int, child: PageId)
    requires IndexOK(idx) && IsInternal(idx.store, pid)
    requires PageOK(idx.store, InternalPage(node), idx.leafCap, idx.nodeCap)
    requires if node.level == 1 then IsLeaf(idx.store, child) else IsInternal(idx.store, child)
    ensures var (b, fb) := AbsorbOrSplit(idx, pid, node, key, child);
            TookChild(idx, pid, node, key, child, b, fb)
  {
    if CountTrue(node.valid) < |node.valid| {
      AbsorbTook(idx, pid, node, key, child);
    } else {
      SplitTook(idx, pid, node, key, child);
    }
  }

  lemma AbsorbTook(idx: Index, pid: PageId, node: InternalNode, key: int, child: PageId)
    requires IndexOK(idx) && IsInternal(idx.store, pid)
    requires PageOK(idx.store, InternalPage(node), idx.leafCap, idx.nodeCap)
    requires if node.level == 1 then IsLeaf(idx.store, child) else IsInternal(idx.store, child)
    requires CountTrue(node.valid) < |node.valid|
    ensures var (b, fb) := AbsorbOrSplit(idx, pid, node, key, child);
            TookChild(idx, pid, node, key, child, b, fb)
  {
    AbsorbCorrect(idx, pid, node, key, child);
    InternalInsertTakes(node, key, child);
  }

  lemma SplitTook(idx: Index, pid: PageId, node: InternalNode, key: int, child: PageId)
    requires IndexOK(idx) && IsInternal(idx.store, pid)
    requires PageOK(idx.store, InternalPage(node), idx.leafCap, idx.nodeCap)
    requires if node.level == 1 then IsLeaf(idx.store, child) else IsInternal(idx.store, child)
    requires CountTrue(node.valid) == |node.valid|
    ensures var (b, fb) := AbsorbOrSplit(idx, pid, node, key, child);
            TookChild(idx, pid, node, key, child, b, fb)
  {
    var h := InternalInsertSplit(node, key, child);
    SplitCorrect(idx, pid, node, key, child);
    InternalSplitTakes(node, key, child);
    assert idx.nextPage !in idx.store;
  }

  /** The index `b` is `idx` with one more entry: consistent, same in-memory
      fields and header, no page lost or retyped, exactly one entry added. */
  ghost predicate Adds(idx: Index, key: int, rid: RecordId, b: Index) {
    && IndexOK(b) && Grows(idx, b) && OnlyPages(idx, b)
    && AllEntries(b.store) == AllEntries(idx.store) + multiset{Entry(key, rid)}
  }

  /** Inserting into a leaf with room, in place: the index stays consistent
      and gains exactly the new entry. */
  lemma LeafAbsorbCorrect(idx: Index, lp: PageId, key: int, rid: RecordId)
    requires IndexOK(idx) && IsLeaf(idx.store, lp)
    requires CountTrue(idx.store[lp].leaf.valid) < idx.leafCap
    ensures Adds(idx, key, rid, LeafStep(idx, lp, key, rid).0) && LeafStep(idx, lp, key, rid).1.Absorbed?
  {
    assert PageOK(idx.store, idx.store[lp], idx.leafCap, idx.nodeCap);
    var leaf := idx.store[lp].leaf;
    var nl := LeafInsert(leaf, key, rid);
    LeafInsertPage(leaf, key, rid);
    WriteKeepsOK(idx, lp, LeafPage(nl), idx.nextPage);
    EntriesUpdate(idx.store, lp, LeafPage(nl));
    var a0, a1 := AllEntries(idx.store), AllEntries(idx.store[lp := LeafPage(nl)]);
    var po := PageEntries(idx.store[lp]);
    assert a1 + po == a0 + multiset{Entry(key, rid)} + po;
    MultisetCancel(a1, a0 + multiset{Entry(key, rid)}, po);
  }

  /** Splitting a full leaf onto the fresh page `idx.nextPage`: the index stays
      consistent and the fresh page is a leaf. */
  lemma LeafSplitOK(idx: Index, lp: PageId, key: int, rid: RecordId)
    requires IndexOK(idx) && IsLeaf(idx.store, lp)
    requires CountTrue(idx.store[lp].leaf.valid) == idx.leafCap
    ensures var (b, fb) := LeafStep(idx, lp, key, rid);
            && IndexOK(b) && Grows(idx, b) && OnlyPages(idx, b)
            && fb.Promote? && fb.pageNo !in idx.store && IsLeaf(b.store, fb.pageNo)
  {
    assert PageOK(idx.store, idx.store[lp], idx.leafCap, idx.nodeCap);
    var leaf := idx.store[lp].leaf;
    var newLeaf := idx.nextPage;
    var h := LeafInsertSplit(leaf, key, rid, newLeaf);
    LeafSplitPages(leaf, key, rid, newLeaf);
    LeafSplitWrite(idx, lp, h.left, h.right);
  }

  /** Writing the halves of a split leaf: the left half over the leaf,
      linked to the right half on the fresh page, which takes over the
      leaf's sibling. */
  lemma LeafSplitWrite(idx: Index, lp: PageId, left: LeafNode, right: LeafNode)
    requires IndexOK(idx) && IsLeaf(idx.store, lp)
    requires LeafOK(left, idx.leafCap) && LeafOK(right, idx.leafCap)
    requires left.rightSib == idx.nextPage && right.rightSib == idx.store[lp].leaf.rightSib
    ensures var b := idx.(store := idx.store[idx.nextPage := LeafPage(right)][lp := LeafPage(left)],
                          nextPage := idx.nextPage + 1);
            IndexOK(b) && Grows(idx, b) && IsLeaf(b.store, idx.nextPage)
  {
    assert PageOK(idx.store, idx.store[lp], idx.leafCap, idx.nodeCap);
    var s2 := idx.store[idx.nextPage := LeafPage(right)][lp := LeafPage(left)];
    assert IsLeaf(s2, idx.nextPage);
    assert right.rightSib != 0 ==> IsLeaf(s2, right.rightSib);
    WriteSplitOK(idx, lp, LeafPage(left), LeafPage(right));
  }

  /** Splitting a full leaf: the file gains exactly the new entry. */
  lemma LeafSplitEntries(idx: Index, lp: PageId, key: int, rid: RecordId)
    requires IndexOK(idx) && IsLeaf(idx.store, lp)
    requires CountTrue(idx.store[lp].leaf.valid) == idx.leafCap
    ensures AllEntries(LeafStep(idx, lp, key, rid).0.store) == AllEntries(idx.store) + multiset{Entry(key, rid)}
  {
    assert PageOK(idx.store, idx.store[lp], idx.leafCap, idx.nodeCap);
    var leaf := idx.store[lp].leaf;
    var newLeaf := idx.nextPage;
    var h := LeafInsertSplit(leaf, key, rid, newLeaf);
    LeafSplitPages(leaf, key, rid, newLeaf);
    assert newLeaf !in idx.store;
    var s1 := idx.store[newLeaf := LeafPage(h.right)];
    var e := Entry(key, rid);
    var pl, pr, po := PageEntries(LeafPage(h.left)), PageEntries(LeafPage(h.right)), PageEntries(idx.store[lp]);
    var a0, a1, a2 := AllEntries(idx.store), AllEntries(s1), AllEntries(s1[lp := LeafPage(h.left)]);
    assert a1 == a0 + pr by {
      EntriesUpdate(idx.store, newLeaf, LeafPage(h.right));
    }
    assert a2 + po == a1 + pl by {
      assert s1[lp] == idx.store[lp];
      EntriesUpdate(s1, lp, LeafPage(h.left));
    }
    assert pl + pr == po + multiset{e};
    SplitSum(a0, a1, a2, pl, pr, po, multiset{e});
  }

  lemma SplitSum<T>(a0: multiset<T>, a1: multiset<T>, a2: multiset<T>, pl: multiset<T>, pr: multiset<T>,
                   po: multiset<T>, e: multiset<T>)
    requires a1 == a0 + pr && a2 + po == a1 + pl && pl + pr == po + e
    ensures a2 == a0 + e
  {
    forall x
      ensures a2[x] == (a0 + e)[x]
    {
      assert (a2 + po)[x] == (a1 + pl)[x];
      assert (pl + pr)[x] == (po + e)[x];
    }
  }

  /** What the leaf part of insertEntryUpdate leaves behind (see
      `LeafStepCorrect`). */
  ghost predicate LeafStepped(idx: Index, lp: PageId, key: int, rid: RecordId, b: Index, fb: Feedback)
    requires IsLeaf(idx.store, lp)
  {
    var leaf := idx.store[lp].leaf;
    && Adds(idx, key, rid, b) && LeafOK(leaf, idx.leafCap) && 2 <= idx.leafCap
    && (fb.Promote? <==> CountTrue(leaf.valid) == idx.leafCap)
    && lp in b.store
    && (fb.Absorbed? ==> b.store[lp] == LeafPage(LeafInsert(leaf, key, rid)))
    && (fb.Promote? ==>
          var h := LeafInsertSplit(leaf, key, rid, fb.pageNo);
          && fb.pageNo in b.store && fb.pageNo == idx.nextPage && fb.key == h.separator
          && b.store[lp] == LeafPage(h.left) && b.store[fb.pageNo] == LeafPage(h.right)
          && b.store[lp].leaf.rightSib == fb.pageNo
          && SplitOff(idx, b, fb.key, fb.pageNo, true))
    && (forall q | q in idx.store && q != lp :: b.store[q] == idx.store[q])
    && (forall q | q in b.store && q !in idx.store :: fb.Promote? && q == fb.pageNo)
  }

  lemma LeafAbsorbStep(idx: Index, lp: PageId, key: int, rid: RecordId)
    requires IndexOK(idx) && IsLeaf(idx.store, lp) && CountTrue(idx.store[lp].leaf.valid) < idx.leafCap
    ensures LeafStepped(idx, lp, key, rid, LeafStep(idx, lp, key, rid).0, LeafStep(idx, lp, key, rid).1)
  {
    assert PageOK(idx.store, idx.store[lp], idx.leafCap, idx.nodeCap);
    LeafAbsorbCorrect(idx, lp, key, rid);
  }

  lemma LeafSplitStep(idx: Index, lp: PageId, key: int, rid: RecordId)
    requires IndexOK(idx) && IsLeaf(idx.store, lp) && CountTrue(idx.store[lp].leaf.valid) == idx.leafCap
    ensures LeafStepped(idx, lp, key, rid, LeafStep(idx, lp, key, rid).0, LeafStep(idx, lp, key, rid).1)
  {
    assert PageOK(idx.store, idx.store[lp], idx.leafCap, idx.nodeCap);
    var leaf := idx.store[lp].leaf;
    var h := LeafInsertSplit(leaf, key, rid, idx.nextPage);
    var (b, fb) := LeafStep(idx, lp, key, rid);
    assert fb == Promote(h.separator, idx.nextPage);
    assert b.store == idx.store[idx.nextPage := LeafPage(h.right)][lp := LeafPage(h.left)];
    LeafSplitOK(idx, lp, key, rid);
    LeafSplitEntries(idx, lp, key, rid);
    LeafInsertSplitCorrect(leaf, key, rid, idx.nextPage);
    assert SplitOff(idx, b, fb.key, fb.pageNo, true);
  }

  /** The leaf part of insertEntryUpdate adds exactly the new entry and writes
      only the leaf and, when it splits, the fresh page. The leaf splits
      exactly when it is full: it then keeps the lower half of the merge and
      links to the fresh page `idx.nextPage`, which takes the upper half and
      is reported with its first key. Otherwise the leaf takes the pair in
      place. */
  lemma LeafStepCorrect(idx: Index, lp: PageId, key: int, rid: RecordId)
    requires IndexOK(idx) && IsLeaf(idx.store, lp)
    ensures var (b, fb) := LeafStep(idx, lp, key, rid);
            LeafStepped(idx, lp, key, rid, b, fb)
  {
    assert PageOK(idx.store, idx.store[lp], idx.leafCap, idx.nodeCap);
    if CountTrue(idx.store[lp].leaf.valid) < idx.leafCap {
      LeafAbsorbStep(idx, lp, key, rid);
    } else {
      LeafSplitStep(idx, lp, key, rid);
    }
  }

  /** What a successful insertEntryUpdate at internal page `pid` achieves,
      having written only pages in `touched`:
      - the index has exactly one more entry (see `Adds`);
      - a node with a free key slot reports no split, and a reported split
        names a fresh internal page of the node's level, with a key at most
        every key on it;
      - the node is unchanged and reports no split, or it took a page split
        off its child (see `Took`);
      - every page new in `b` is a child of an internal node or the page
        reported up;
      - no page outside `touched` changed. */
  ghost predicate InsertedBelow(idx: Index, key: int, rid: RecordId, pid: PageId, touched: set<PageId>,
                                b: Index, fb: Feedback) {
    && Adds(idx, key, rid, b)
    && IsInternal(idx.store, pid) && pid in b.store
    && InternalWF(idx.store[pid].node) && 2 <= |idx.store[pid].node.valid|
    && (CountTrue(idx.store[pid].node.valid) < idx.nodeCap ==> fb.Absorbed?)
    && (fb.Promote? ==> SplitOff(idx, b, fb.key, fb.pageNo, false)
                        && b.store[fb.pageNo].node.level == idx.store[pid].node.level)
    && ((fb.Absorbed? && b.store[pid] == idx.store[pid])
        || exists ck: int, cp: PageId :: SplitOff(idx, b, ck, cp, idx.store[pid].node.level == 1)
                                        && Took(idx.store[pid].node, ck, cp, pid, b, fb))
    && Placed(idx, b, fb)
    && forall q | q in idx.store && q !in touched :: q in b.store && b.store[q] == idx.store[q]
  }

  lemma GrowsTrans(a: Index, b: Index, c: Index)
    requires Grows(a, b) && Grows(b, c)
    ensures Grows(a, c)
  {
  }

  lemma InsertedBelowWider(idx: Index, key: int, rid: RecordId, pid: PageId, t1: set<PageId>, t2: set<PageId>,
                           b: Index, fb: Feedback)
    requires InsertedBelow(idx, key, rid, pid, t1, b, fb) && t1 <= t2
    ensures InsertedBelow(idx, key, rid, pid, t2, b, fb)
  {
  }

  /** After the node took the page its child reported, every page new since
      `idx` is still placed: the reported page under the node or its upper
      half, the others under the nodes that held them, which the node's own
      write does not touch. */
  lemma PlacedAfterTake(idx: Index, idx1: Index, b: Index, pid: PageId, fb1: Feedback, fb: Feedback)
    requires IndexOK(idx) && IsInternal(idx.store, pid) && Grows(idx, idx1) && Grows(idx1, b)
    requires idx1.store[pid] == idx.store[pid]
    requires fb1.Promote? && Placed(idx, idx1, fb1)
    requires ParentOf(b, pid, fb1.pageNo) || (fb.Promote? && ParentOf(b, fb.pageNo, fb1.pageNo))
    requires forall q | q in idx1.store && q != pid :: b.store[q] == idx1.store[q]
    requires forall q | q in b.store && q !in idx1.store :: fb.Promote? && q == fb.pageNo
    ensures Placed(idx, b, fb)
  {
    assert PageOK(idx.store, idx.store[pid], idx.leafCap, idx.nodeCap);
    forall p | p in b.store && p !in idx.store
      ensures (fb.Promote? && p == fb.pageNo) || Parented(b, p)
    {
      if p == fb1.pageNo {
        if ParentOf(b, pid, p) {
          assert Parented(b, p);
        } else {
          assert ParentOf(b, fb.pageNo, p);
        }
      } else if p in idx1.store {
        assert Parented(idx1, p);
        var q :| ParentOf(idx1, q, p);
        assert q != pid by {
          assert forall c | c in Children(idx.store[pid].node) :: c in idx.store;
        }
        assert ParentOf(b, q, p);
      }
    }
  }

  /** Finishing at the node: after a child step that added the entry, wrote
      only pages in `touched` (not the node's), placed every page it created
      and reported any split with a fresh page of the kind the node's level
      expects, absorbing or splitting completes an insertion below the
      node. */
  lemma FinishCorrect(idx: Index, key: int, rid: RecordId, pid: PageId, touched: set<PageId>, all: set<PageId>,
                      idx1: Index, fb1: Feedback)
    requires IndexOK(idx) && IsInternal(idx.store, pid) && pid !in touched && all == touched + {pid}
    requires PageOK(idx.store, idx.store[pid], idx.leafCap, idx.nodeCap)
    requires Adds(idx, key, rid, idx1) && Placed(idx, idx1, fb1)
    requires fb1.Promote? ==> SplitOff(idx, idx1, fb1.key, fb1.pageNo, idx.store[pid].node.level == 1)
    requires forall q | q in idx.store && q !in touched :: q in idx1.store && idx1.store[q] == idx.store[q]
    ensures var r := Finish(idx1, pid, idx.store[pid].node, fb1);
            InsertedBelow(idx, key, rid, pid, all, r.0, r.1)
  {
    var node := idx.store[pid].node;
    if fb1.Promote? {
      var leaf := node.level == 1;
      PageOKMono(idx.store, idx1.store, InternalPage(node), idx.leafCap, idx.nodeCap);
      AbsorbOrSplitCorrect(idx1, pid, node, fb1.key, fb1.pageNo);
      var r := AbsorbOrSplit(idx1, pid, node, fb1.key, fb1.pageNo);
      var b, fb := r.0, r.1;
      GrowsTrans(idx, idx1, b);
      assert b.store[fb1.pageNo] == idx1.store[fb1.pageNo];
      assert SplitOff(idx, b, fb1.key, fb1.pageNo, leaf) && Took(node, fb1.key, fb1.pageNo, pid, b, fb);
      PlacedAfterTake(idx, idx1, b, pid, fb1, fb);
    }
  }

  /** At a level-1 node: the leaf step and the node's own step together
      complete an insertion below the node that writes only the node and
      the leaf. */
  lemma LeafFinishCorrect(idx: Index, key: int, rid: RecordId, pid: PageId, childPid: PageId)
    requires IndexOK(idx) && IsInternal(idx.store, pid) && idx.store[pid].node.level == 1
    requires IsLeaf(idx.store, childPid)
    ensures var step := LeafStep(idx, childPid, key, rid);
            var r := Finish(step.0, pid, idx.store[pid].node, step.1);
            InsertedBelow(idx, key, rid, pid, {childPid, pid}, r.0, r.1)
  {
    assert PageOK(idx.store, idx.store[pid], idx.leafCap, idx.nodeCap);
    var step := LeafStep(idx, childPid, key, rid);
    LeafStepCorrect(idx, childPid, key, rid);
    assert Placed(idx, step.0, step.1);
    FinishCorrect(idx, key, rid, pid, {childPid}, {childPid, pid}, step.0, step.1);
  }

  /** At a level-0 node: an insertion completed below the child that did not
      write the node, followed by the node's own step, completes an
      insertion below the node. */
  lemma InnerFinishCorrect(idx: Index, key: int, rid: RecordId, pid: PageId, childPid: PageId, touched: set<PageId>,
                           all: set<PageId>, b: Index, fb: Feedback)
    requires IndexOK(idx) && IsInternal(idx.store, pid) && idx.store[pid].node.level != 1 && pid !in touched
    requires InsertedBelow(idx, key, rid, childPid, touched, b, fb) && all == touched + {pid}
    ensures var r := Finish(b, pid, idx.store[pid].node, fb);
            InsertedBelow(idx, key, rid, pid, all, r.0, r.1)
  {
    assert PageOK(idx.store, idx.store[pid], idx.leafCap, idx.nodeCap);
    FinishCorrect(idx, key, rid, pid, touched, all, b, fb);
  }

  /** insertEntryUpdate below the root: when it succeeds the index gains
      exactly the new entry and stays consistent, its in-memory fields and
      header page untouched; only pages on the descent from `pid` change,
      every page it creates is placed, and the node either stays as it was
      or took the page split off its child (see `InsertedBelow`). */
  lemma {:induction false} InsertBelowCorrect(idx: Index, key: int, rid: RecordId, pid: PageId, fuel: nat)
    requires IndexOK(idx)
    ensures var r := InsertBelow(idx, key, rid, pid, fuel);
            r.Ok? ==> InsertedBelow(idx, key, rid, pid, Path(idx, key, pid, fuel), r.value.0, r.value.1)
    decreases fuel, 1
  {
    if fuel > 0 && IsInternal(idx.store, pid) {
      assert PageOK(idx.store, idx.store[pid], idx.leafCap, idx.nodeCap);
      var node := idx.store[pid].node;
      var childPid := ChildFor(node, key);
      ChildForIsChild(node, key);
      PathStep(idx, key, pid, fuel);
      assert Hop(idx, key, pid) == childPid;
      if node.level == 1 {
        LeafFinishCorrect(idx, key, rid, pid, childPid);
        var step := LeafStep(idx, childPid, key, rid);
        var r := Finish(step.0, pid, node, step.1);
        assert childPid == Walk(idx, key, childPid, 0);
        InsertedBelowWider(idx, key, rid, pid, {childPid, pid}, Path(idx, key, pid, fuel), r.0, r.1);
      } else {
        DeepFinishCorrect(idx, key, rid, pid, childPid, fuel);
      }
    }
  }

  /** At a level-0 node: the descent into the child, when it succeeds,
      followed by the node's own step, completes an insertion below the
      node. The descent does not come back to the node, so the child's
      writes leave the node as the code read it. */
  lemma {:induction false} DeepFinishCorrect(idx: Index, key: int, rid: RecordId, pid: PageId, childPid: PageId,
                                             fuel: nat)
    requires IndexOK(idx) && IsInternal(idx.store, pid) && idx.store[pid].node.level != 1 && 0 < fuel
    requires childPid == Hop(idx, key, pid)
    ensures var r := InsertBelow(idx, key, rid, childPid, fuel - 1);
            r.Ok? ==> var f := Finish(r.value.0, pid, idx.store[pid].node, r.value.1);
                      InsertedBelow(idx, key, rid, pid, Path(idx, key, pid, fuel), f.0, f.1)
    decreases fuel, 0
  {
    var r := InsertBelow(idx, key, rid, childPid, fuel - 1);
    if r.Ok? {
      var (b, fb) := r.value;
      var t := Path(idx, key, childPid, fuel - 1);
      var all := Path(idx, key, pid, fuel);
      ChildInserted(idx, key, rid, childPid, fuel - 1, b, fb);
      NotOnPath(idx, key, rid, pid, fuel);
      PathStep(idx, key, pid, fuel);
      assert all == t + {pid};
      InnerFinishCorrect(idx, key, rid, pid, childPid, t, all, b, fb);
    }
  }

  /** `InsertBelowCorrect` for a result already known to be `Ok((b, fb))`. */
  lemma {:induction false} ChildInserted(idx: Index, key: int, rid: RecordId, pid: PageId, fuel: nat, b: Index,
                                         fb: Feedback)
    requires IndexOK(idx) && InsertBelow(idx, key, rid, pid, fuel) == Ok((b, fb))
    ensures InsertedBelow(idx, key, rid, pid, Path(idx, key, pid, fuel), b, fb)
    decreases fuel, 2
  {
    InsertBelowCorrect(idx, key, rid, pid, fuel);
  }

  // ---------------------------------------------------------------------------
  // insertEntry
  // ---------------------------------------------------------------------------

  /** Pointing the header and the in-memory fields at a root page of the
      right kind keeps the index consistent and its pages and entries as
      they were. */
  lemma SetRootCorrect(idx: Index, root: PageId, hasNonLeaf: bool)
    requires IndexOK(idx) && root != 0
    requires if hasNonLeaf then IsInternal(idx.store, root) else IsLeaf(idx.store, root)
    ensures var b := SetRoot(idx, root, hasNonLeaf);
            && IndexOK(b) && Grows(idx, b) && AllEntries(b.store) == AllEntries(idx.store)
  {
    var b := SetRoot(idx, root, hasNonLeaf);
    var h := idx.headerPageNum;
    SetRootPages(idx, root, hasNonLeaf);
    assert root in b.store && SameKind(idx.store[root], b.store[root]);
    EntriesUpdateEmpty(idx.store, h, b.store[h]);
  }

  /** Rewriting the header page keeps every page consistent and every page
      of its kind. */
  lemma SetRootPages(idx: Index, root: PageId, hasNonLeaf: bool)
    requires IndexOK(idx)
    ensures var b := SetRoot(idx, root, hasNonLeaf);
            && Grows(idx, b) && (forall p | p in b.store :: 0 < p < b.nextPage)
            && forall p | p in b.store :: PageOK(b.store, b.store[p], b.leafCap, b.nodeCap)
  {
    var b := SetRoot(idx, root, hasNonLeaf);
    var h := idx.headerPageNum;
    assert b.store.Keys == idx.store.Keys;
    assert forall p | p in idx.store :: SameKind(idx.store[p], b.store[p]);
    forall p | p in b.store
      ensures PageOK(b.store, b.store[p], b.leafCap, b.nodeCap)
    {
      if p != h {
        PageOKMono(idx.store, b.store, idx.store[p], idx.leafCap, idx.nodeCap);
      }
    }
  }

  /** A fresh root over `left` and `right`, written on the next free page and
      made the root: the index stays consistent with the same entries. */
  lemma GrowCorrect(idx: Index, level: int, key: int, left: PageId, right: PageId)
    requires IndexOK(idx) && (level == 0 || level == 1)
    requires if level == 1 then IsLeaf(idx.store, left) && IsLeaf(idx.store, right)
             else IsInternal(idx.store, left) && IsInternal(idx.store, right)
    ensures var b := GrowRoot(idx, level, key, left, right);
            && IndexOK(b) && Grows(idx, b) && AllEntries(b.store) == AllEntries(idx.store)
            && b.rootPageNum == idx.nextPage && b.rootPageNum !in idx.store && IsInternal(b.store, b.rootPageNum)
            && b.hasNonLeaf && b.store[b.rootPageNum].node == NewRoot(idx.nodeCap, level, key, left, right)
  {
    var newRoot := idx.nextPage;
    var nd := NewRoot(idx.nodeCap, level, key, left, right);
    NewRootFacts(idx.nodeCap, level, key, left, right);
    assert newRoot !in idx.store;
    var s1 := idx.store[newRoot := InternalPage(nd)];
    assert ChildrenOK(s1, nd);
    WriteKeepsOK(idx, newRoot, InternalPage(nd), newRoot + 1);
    EntriesUpdateEmpty(idx.store, newRoot, InternalPage(nd));
    var idx1 := idx.(store := s1, nextPage := newRoot + 1);
    SetRootCorrect(idx1, newRoot, true);
    GrowsTrans(idx, idx1, SetRoot(idx1, newRoot, true));
  }

  /** Growing a root writes only the fresh root page and the header page. */
  lemma GrowKeeps(idx: Index, level: int, key: int, left: PageId, right: PageId)
    requires HeaderSynced(idx) && 1 <= idx.nodeCap && idx.headerPageNum < idx.nextPage && idx.nextPage !in idx.store
    ensures var g := GrowRoot(idx, level, key, left, right);
            forall q | q in idx.store && q != idx.headerPageNum :: q in g.store && g.store[q] == idx.store[q]
  {
  }

  /** A split and a take recorded on pages that a later step leaves alone
      still hold after it. */
  lemma TookKept(a: Index, b: Index, g: Index, node: InternalNode, ck: int, cp: PageId, pid: PageId, fb: Feedback, leaf: bool)
    requires InternalWF(node) && 2 <= |node.valid|
    requires SplitOff(a, b, ck, cp, leaf) && Took(node, ck, cp, pid, b, fb)
    requires b.headerPageNum != cp && b.headerPageNum != pid && (fb.Promote? ==> b.headerPageNum != fb.pageNo)
    requires forall q | q in b.store && q != b.headerPageNum :: q in g.store && g.store[q] == b.store[q]
    ensures SplitOff(a, g, ck, cp, leaf) && Took(node, ck, cp, pid, g, fb)
  {
  }

  /** The tree grew by a level over the old root: the new root is a fresh
      internal page holding just the key `k` between the old root and the
      page `p` split off it, at level 1 when the old root was a leaf and at
      level 0 otherwise. */
  ghost predicate GrewOver(idx: Index, b: Index, k: int, p: PageId) {
    && b.rootPageNum !in idx.store && IsInternal(b.store, b.rootPageNum) && b.hasNonLeaf && 1 <= idx.nodeCap
    && b.store[b.rootPageNum].node == NewRoot(idx.nodeCap, if idx.hasNonLeaf then 0 else 1, k, idx.rootPageNum, p)
    && SplitOff(idx, b, k, p, !idx.hasNonLeaf)
  }

  /** The first insertion allocates the root leaf holding just the new pair. */
  lemma FirstInsertCorrect(idx: Index, key: int, rid: RecordId)
    requires IndexOK(idx) && idx.rootPageNum == 0
    ensures var b := FirstInsert(idx, key, rid);
            && IndexOK(b) && Grows(idx, b)
            && AllEntries(b.store) == AllEntries(idx.store) + multiset{Entry(key, rid)}
            && b.rootPageNum == idx.nextPage && !b.hasNonLeaf && IsLeaf(b.store, b.rootPageNum)
            && Entries(b.store[b.rootPageNum].leaf) == [Entry(key, rid)]
            && forall p | p in b.store && p !in idx.store :: p == b.rootPageNum
  {
    var pid := idx.nextPage;
    EmptyLeafFacts(idx.leafCap);
    var empty := EmptyLeaf(idx.leafCap);
    var leaf := LeafInsert(empty, key, rid);
    LeafInsertCorrect(empty, key, rid);
    assert Entries(leaf) == [Entry(key, rid)];
    var idx1 := idx.(store := idx.store[pid := LeafPage(leaf)], nextPage := pid + 1);
    FirstLeafWrite(idx, leaf, key, rid);
    SetRootCorrect(idx1, pid, false);
    GrowsTrans(idx, idx1, SetRoot(idx1, pid, false));
  }

  /** Writing the first leaf, holding just the new pair and no sibling, onto
      the fresh page `idx.nextPage`. */
  lemma FirstLeafWrite(idx: Index, leaf: LeafNode, key: int, rid: RecordId)
    requires IndexOK(idx) && LeafOK(leaf, idx.leafCap) && leaf.rightSib == 0
    requires Entries(leaf) == [Entry(key, rid)]
    ensures var idx1 := idx.(store := idx.store[idx.nextPage := LeafPage(leaf)], nextPage := idx.nextPage + 1);
            && IndexOK(idx1) && Grows(idx, idx1) && IsLeaf(idx1.store, idx.nextPage)
            && AllEntries(idx1.store) == AllEntries(idx.store) + multiset{Entry(key, rid)}
  {
    var pid := idx.nextPage;
    assert pid !in idx.store;
    WriteKeepsOK(idx, pid, LeafPage(leaf), pid + 1);
    EntriesUpdate(idx.store, pid, LeafPage(leaf));
  }

  /** What a successful insertion promises: the index stays consistent, no
      page is lost or changes kind, its entries gain exactly the new pair,
      and every page it creates is the root or a child of an internal node. */
  ghost predicate Inserted(idx: Index, key: int, rid: RecordId, b: Index) {
    && IndexOK(b) && Grows(idx, b)
    && AllEntries(b.store) == AllEntries(idx.store) + multiset{Entry(key, rid)}
    && forall p | p in b.store && p !in idx.store :: p == b.rootPageNum || Parented(b, p)
  }

  /** Growing over the old root after a split keeps what the split promised
      and adds the fresh root over the old root and the split-off page; only
      the header and the new root's page are written. */
  lemma GrowOverCorrect(idx: Index, key: int, rid: RecordId, b: Index, level: int, k: int, p: PageId)
    requires IndexOK(idx) && idx.rootPageNum != 0 && level == (if idx.hasNonLeaf then 0 else 1)
    requires Adds(idx, key, rid, b) && Placed(idx, b, Promote(k, p))
    requires SplitOff(idx, b, k, p, level == 1)
    requires if level == 1 then IsLeaf(idx.store, idx.rootPageNum) else IsInternal(idx.store, idx.rootPageNum)
    ensures var g := GrowRoot(b, level, k, idx.rootPageNum, p);
            && Inserted(idx, key, rid, g) && GrewOver(idx, g, k, p)
            && forall q | q in b.store && q != b.headerPageNum :: q in g.store && g.store[q] == b.store[q]
  {
    GrowOverShape(idx, key, rid, b, level, k, p);
    GrowOverPlaced(idx, key, rid, b, level, k, p);
  }

  lemma GrowOverShape(idx: Index, key: int, rid: RecordId, b: Index, level: int, k: int, p: PageId)
    requires IndexOK(idx) && idx.rootPageNum != 0 && level == (if idx.hasNonLeaf then 0 else 1)
    requires Adds(idx, key, rid, b) && SplitOff(idx, b, k, p, level == 1)
    requires if level == 1 then IsLeaf(idx.store, idx.rootPageNum) else IsInternal(idx.store, idx.rootPageNum)
    ensures var g := GrowRoot(b, level, k, idx.rootPageNum, p);
            && IndexOK(g) && Grows(idx, g)
            && AllEntries(g.store) == AllEntries(idx.store) + multiset{Entry(key, rid)}
            && GrewOver(idx, g, k, p)
            && forall q | q in b.store && q != b.headerPageNum :: q in g.store && g.store[q] == b.store[q]
  {
    var left := idx.rootPageNum;
    assert left in b.store && SameKind(idx.store[left], b.store[left]);
    GrowCorrect(b, level, k, left, p);
    GrowKeeps(b, level, k, left, p);
    GrowsTrans(idx, b, GrowRoot(b, level, k, left, p));
    assert b.nextPage !in idx.store;
  }

  lemma GrowOverPlaced(idx: Index, key: int, rid: RecordId, b: Index, level: int, k: int, p: PageId)
    requires IndexOK(idx) && idx.rootPageNum != 0 && level == (if idx.hasNonLeaf then 0 else 1)
    requires Adds(idx, key, rid, b) && Placed(idx, b, Promote(k, p))
    requires SplitOff(idx, b, k, p, level == 1)
    requires if level == 1 then IsLeaf(idx.store, idx.rootPageNum) else IsInternal(idx.store, idx.rootPageNum)
    ensures var g := GrowRoot(b, level, k, idx.rootPageNum, p);
            forall x | x in g.store && x !in idx.store :: x == g.rootPageNum || Parented(g, x)
  {
    var left := idx.rootPageNum;
    var g := GrowRoot(b, level, k, left, p);
    NewRootFacts(b.nodeCap, level, k, left, p);
    assert b.nextPage !in b.store;
    GrowKeeps(b, level, k, left, p);
    assert ParentOf(g, g.rootPageNum, p);
    forall x | x in g.store && x !in idx.store
      ensures x == g.rootPageNum || Parented(g, x)
    {
      if x != g.rootPageNum && x != p {
        assert x in b.store;
        var q :| ParentOf(b, q, x);
        assert q != b.headerPageNum;
        assert ParentOf(g, q, x);
      }
    }
  }

  /** Inserting while the root is a leaf always succeeds. The root stays
      where it is exactly when the root leaf has room, and then takes the
      pair; a full root leaf splits, keeping the lower half of the merge, the
      upper half goes to the next free page, and the tree grows a level-1
      root over the two. */
  lemma RootLeafCorrect(idx: Index, key: int, rid: RecordId)
    requires IndexOK(idx) && !idx.hasNonLeaf && idx.rootPageNum != 0
    ensures var r := InsertEntry(idx, key, rid);
            var leaf := idx.store[idx.rootPageNum].leaf;
            && r.Ok? && Inserted(idx, key, rid, r.value) && LeafOK(leaf, idx.leafCap)
            && (r.value.rootPageNum == idx.rootPageNum <==> CountTrue(leaf.valid) < idx.leafCap)
            && (r.value.rootPageNum == idx.rootPageNum ==>
                  r.value.store[idx.rootPageNum] == LeafPage(LeafInsert(leaf, key, rid)))
            && (r.value.rootPageNum != idx.rootPageNum ==>
                  var h := LeafInsertSplit(leaf, key, rid, idx.nextPage);
                  && r.value.store[idx.rootPageNum] == LeafPage(h.left)
                  && r.value.store[idx.nextPage] == LeafPage(h.right)
                  && GrewOver(idx, r.value, h.separator, idx.nextPage))
  {
    LeafStepCorrect(idx, idx.rootPageNum, key, rid);
    match LeafStep(idx, idx.rootPageNum, key, rid)
    case (b, Absorbed) =>
    case (b, Promote(k, p)) =>
      GrowOverCorrect(idx, key, rid, b, 1, k, p);
  }

  /** Inserting below an internal root: when it succeeds, only the header,
      new pages and pages on the descent from the root change. The root stays
      where it is unless a split reached it, which happens only when the root
      node is full; then the root's page keeps the lower half of its split,
      the split-off page the upper half, and a fresh level-0 root goes over
      both. */
  lemma RootInternalCorrect(idx: Index, key: int, rid: RecordId)
    requires IndexOK(idx) && idx.hasNonLeaf
    ensures var r := InsertEntry(idx, key, rid);
            var root := idx.rootPageNum;
            && IsInternal(idx.store, root)
            && InternalWF(idx.store[root].node) && 2 <= |idx.store[root].node.valid|
            && (r.Ok? ==> Inserted(idx, key, rid, r.value))
            && (r.Ok? ==> forall q | q in idx.store && q != idx.headerPageNum && q !in Path(idx, key, root, |idx.store|)
                             :: q in r.value.store && r.value.store[q] == idx.store[q])
            && (r.Ok? && CountTrue(idx.store[root].node.valid) < idx.nodeCap ==> r.value.rootPageNum == root)
            && (r.Ok? && r.value.rootPageNum != root ==>
                  exists ck: int, cp: PageId, k: int, p: PageId ::
                    && SplitOff(idx, r.value, ck, cp, idx.store[root].node.level == 1)
                    && Took(idx.store[root].node, ck, cp, root, r.value, Promote(k, p))
                    && GrewOver(idx, r.value, k, p))
  {
    var root := idx.rootPageNum;
    assert PageOK(idx.store, idx.store[root], idx.leafCap, idx.nodeCap);
    var node := idx.store[root].node;
    InsertBelowCorrect(idx, key, rid, root, |idx.store|);
    match InsertBelow(idx, key, rid, root, |idx.store|)
    case Err(e) =>
    case Ok((b, Absorbed)) =>
    case Ok((b, Promote(k, p))) =>
      GrowOverCorrect(idx, key, rid, b, 0, k, p);
      var g := GrowRoot(b, 0, k, root, p);
      var ck, cp :| SplitOff(idx, b, ck, cp, node.level == 1) && Took(node, ck, cp, root, b, Promote(k, p));
      TookKept(idx, b, g, node, ck, cp, root, Promote(k, p), node.level == 1);
  }

  /** insertEntry as a whole: a successful insertion adds exactly the new
      pair and keeps the index consistent, the index always has a root
      afterwards, and a root that moved is a fresh internal page over the
      old one and the page split off it. It fails exactly when the root is
      internal and the descent from it goes round a cycle of deep nodes. */
  lemma InsertEntryCorrect(idx: Index, key: int, rid: RecordId)
    requires IndexOK(idx)
    ensures var r := InsertEntry(idx, key, rid);
            && (r.Ok? ==> Inserted(idx, key, rid, r.value) && r.value.rootPageNum != 0
                          && (idx.hasNonLeaf ==> r.value.hasNonLeaf))
            && (r.Ok? && idx.rootPageNum != 0 && r.value.rootPageNum != idx.rootPageNum ==>
                  exists k: int, p: PageId :: GrewOver(idx, r.value, k, p))
            && (r.Err? <==> idx.hasNonLeaf && DeepForever(idx, key, idx.rootPageNum))
  {
    InsertEntryFails(idx, key, rid);
    if !idx.hasNonLeaf {
      if idx.rootPageNum == 0 {
        FirstInsertCorrect(idx, key, rid);
      } else {
        RootLeafCorrect(idx, key, rid);
      }
    } else {
      RootInternalCorrect(idx, key, rid);
    }
  }
}
