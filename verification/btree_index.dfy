/** The index file of the B+Tree as a store of typed pages: a header page
    with the index meta information, leaf pages and internal pages. This
    module states what a consistent index file is, what entries it holds,
    and how the header, the root and the in-memory fields agree. */
module BTreeIndex {
  import opened KeyOrder
  import opened BTreeNode

  /** Attribute types of an indexed column; only integer keys are indexed. */
  datatype AttrType = Integer | Double | Text

  /** The header page contents: the index name, the indexed attribute, the
      root page and whether the root is an internal node. */
  datatype IndexMeta = IndexMeta(relationName: string, attrByteOffset: int, attrType: AttrType,
                                 rootPageNo: PageId, hasNonLeaf: bool)

  datatype Page = HeaderPage(meta: IndexMeta) | LeafPage(leaf: LeafNode) | InternalPage(node: InternalNode)

  /** The index: node capacities (INTARRAYLEAFSIZE, INTARRAYNONLEAFSIZE), the
      pages of the index file and the next page number the file hands out,
      and the fields the index object keeps in memory. */
  datatype Index = Index(leafCap: nat, nodeCap: nat, store: map<PageId, Page>, nextPage: PageId,
                         headerPageNum: PageId, rootPageNum: PageId, hasNonLeaf: bool)

  predicate IsLeaf(store: map<PageId, Page>, p: PageId) {
    p in store && store[p].LeafPage?
  }

  predicate IsInternal(store: map<PageId, Page>, p: PageId) {
    p in store && store[p].InternalPage?
  }

  predicate SameKind(a: Page, b: Page) {
    a.HeaderPage? == b.HeaderPage? && a.LeafPage? == b.LeafPage? && a.InternalPage? == b.InternalPage?
  }

  /** The children of an internal node are pages of the level below: leaves
      under a level-1 node, internal nodes under a level-0 node. */
  predicate ChildrenOK(store: map<PageId, Page>, nd: InternalNode)
    requires InternalShaped(nd)
  {
    forall c | c in Children(nd) :: if nd.level == 1 then IsLeaf(store, c) else IsInternal(store, c)
  }

  /** A page is consistent: nodes are well formed at the index's capacities, a
      leaf's right sibling is 0 or a leaf, and an internal node is at level 0
      or 1 with children of the right kind. */
  predicate PageOK(store: map<PageId, Page>, pg: Page, leafCap: nat, nodeCap: nat) {
    match pg
    case HeaderPage(_) => true
    case LeafPage(leaf) => LeafOK(leaf, leafCap) && (leaf.rightSib == 0 || IsLeaf(store, leaf.rightSib))
    case InternalPage(nd) => InternalOK(nd, nodeCap) && (nd.level == 0 || nd.level == 1) && ChildrenOK(store, nd)
  }

  /** The header page records the root page and whether the root is internal,
      as the in-memory fields do. */
  predicate HeaderSynced(idx: Index) {
    && idx.headerPageNum in idx.store && idx.store[idx.headerPageNum].HeaderPage?
    && idx.store[idx.headerPageNum].meta.rootPageNo == idx.rootPageNum
    && idx.store[idx.headerPageNum].meta.hasNonLeaf == idx.hasNonLeaf
  }

  /** Consistency of the whole index: capacities of at least 2, page numbers
      below the next one the file will hand out (page 0 is never a page),
      every page consistent, the header in sync, and the root either absent
      (0, nothing inserted yet) or a page of the kind `hasNonLeaf` says. */
  predicate IndexOK(idx: Index) {
    && 2 <= idx.leafCap && 2 <= idx.nodeCap
    && (forall p | p in idx.store :: 0 < p < idx.nextPage)
    && (forall p | p in idx.store :: PageOK(idx.store, idx.store[p], idx.leafCap, idx.nodeCap))
    && HeaderSynced(idx)
    && (idx.rootPageNum == 0 ==> !idx.hasNonLeaf)
    && (idx.rootPageNum != 0 && idx.hasNonLeaf ==> IsInternal(idx.store, idx.rootPageNum))
    && (idx.rootPageNum != 0 && !idx.hasNonLeaf ==> IsLeaf(idx.store, idx.rootPageNum))
  }

  /** `b` is `a` after pages were rewritten in place or appended: same
      capacities and header page number, no page lost, no page changed kind,
      no page number handed out twice. */
  predicate Grows(a: Index, b: Index) {
    && b.leafCap == a.leafCap && b.nodeCap == a.nodeCap && b.headerPageNum == a.headerPageNum
    && a.nextPage <= b.nextPage
    && forall p | p in a.store :: p in b.store && SameKind(a.store[p], b.store[p])
  }

  // ---------------------------------------------------------------------------
  // Creating and reopening an index file
  // ---------------------------------------------------------------------------

  /** A new index file (constructor, file absent): the header is the first
      page of the file, records the index name and attribute, no root and no
      internal node. */
  function NewIndex(leafCap: nat, nodeCap: nat, indexName: string, attrByteOffset: int): (idx: Index)
    requires 2 <= leafCap && 2 <= nodeCap
    ensures IndexOK(idx) && idx.headerPageNum == 1 && idx.rootPageNum == 0 && !idx.hasNonLeaf
    ensures idx.store.Keys == {1} && idx.nextPage == 2
    ensures idx.store[1].meta.relationName == indexName && idx.store[1].meta.attrType == Integer
    ensures idx.store[1].meta.attrByteOffset == attrByteOffset
  {
    Index(leafCap, nodeCap, map[1 := HeaderPage(IndexMeta(indexName, attrByteOffset, Integer, 0, false))],
          2, 1, 0, false)
  }

  /** Reopening an existing index file (constructor, file present): the root
      page and the internal-node flag come from the header on page 1. */
  function Reopen(leafCap: nat, nodeCap: nat, store: map<PageId, Page>, nextPage: PageId): (r: Option<Index>)
  {
    if 1 in store && store[1].HeaderPage? then
      Some(Index(leafCap, nodeCap, store, nextPage, 1, store[1].meta.rootPageNo, store[1].meta.hasNonLeaf))
    else None
  }

  datatype Option<T> = None | Some(value: T)

  /** An index whose header is in sync reopens to the same index: the header
      alone carries what the in-memory fields hold. */
  lemma ReopenRestores(idx: Index)
    requires IndexOK(idx) && idx.headerPageNum == 1
    ensures Reopen(idx.leafCap, idx.nodeCap, idx.store, idx.nextPage) == Some(idx)
  {
  }

  // ---------------------------------------------------------------------------
  // The entries of an index file
  // ---------------------------------------------------------------------------

  /** The (key, record) pairs a page holds: the valid entries of a leaf. */
  function PageEntries(pg: Page): multiset<Entry> {
    if pg.LeafPage? then multiset(Entries(pg.leaf)) else multiset{}
  }

  /** The entries of the pages `ps` of `store`. */
  ghost function EntriesIn(store: map<PageId, Page>, ps: set<PageId>): multiset<Entry>
    requires ps <= store.Keys
    decreases ps
  {
    if ps == {} then multiset{}
    else
      var p :| p in ps;
      PageEntries(store[p]) + EntriesIn(store, ps - {p})
  }

  /** Every entry of every leaf page of the index file. */
  ghost function AllEntries(store: map<PageId, Page>): multiset<Entry> {
    EntriesIn(store, store.Keys)
  }

  /** Any page of `ps` can be taken out first. */
  lemma {:induction false} EntriesInPick(store: map<PageId, Page>, ps: set<PageId>, q: PageId)
    requires ps <= store.Keys && q in ps
    ensures EntriesIn(store, ps) == PageEntries(store[q]) + EntriesIn(store, ps - {q})
    decreases ps
  {
    var p :| p in ps && EntriesIn(store, ps) == PageEntries(store[p]) + EntriesIn(store, ps - {p});
    if p != q {
      EntriesInPick(store, ps - {p}, q);
      EntriesInPick(store, ps - {q}, p);
      assert ps - {p} - {q} == ps - {q} - {p};
    }
  }

  /** Pages outside `ps` do not contribute. */
  lemma {:induction false} EntriesInFrame(s1: map<PageId, Page>, s2: map<PageId, Page>, ps: set<PageId>)
    requires ps <= s1.Keys && ps <= s2.Keys
    requires forall p | p in ps :: s1[p] == s2[p]
    ensures EntriesIn(s1, ps) == EntriesIn(s2, ps)
    decreases ps
  {
    if ps != {} {
      var p :| p in ps;
      EntriesInPick(s1, ps, p);
      EntriesInPick(s2, ps, p);
      EntriesInFrame(s1, s2, ps - {p});
    }
  }

  /** Rewriting page `q`: its old entries leave, its new entries arrive. */
  lemma EntriesUpdate(store: map<PageId, Page>, q: PageId, pg: Page)
    ensures q in store ==>
              AllEntries(store[q := pg]) + PageEntries(store[q]) == AllEntries(store) + PageEntries(pg)
    ensures q !in store ==> AllEntries(store[q := pg]) == AllEntries(store) + PageEntries(pg)
  {
    EntriesRest(store, q, pg);
    if q in store {
      EntriesInPick(store, store.Keys, q);
    } else {
      assert store.Keys == store.Keys - {q};
    }
  }

  /** The entries of `store[q := pg]` are those of `pg` and of the pages of
      `store` other than `q`. */
  lemma EntriesRest(store: map<PageId, Page>, q: PageId, pg: Page)
    ensures AllEntries(store[q := pg]) == PageEntries(pg) + EntriesIn(store, store.Keys - {q})
  {
    var s2 := store[q := pg];
    var rest := store.Keys - {q};
    EntriesInPick(s2, s2.Keys, q);
    assert s2.Keys - {q} == rest;
    EntriesInFrame(store, s2, rest);
  }

  lemma MultisetCancel<T>(a: multiset<T>, b: multiset<T>, c: multiset<T>)
    requires a + c == b + c
    ensures a == b
  {
    forall x
      ensures a[x] == b[x]
    {
      assert (a + c)[x] == (b + c)[x];
    }
  }

  /** Rewriting a page that holds no entries with another that holds none
      leaves the entries of the file as they were. */
  lemma EntriesUpdateEmpty(store: map<PageId, Page>, q: PageId, pg: Page)
    requires q in store ==> !store[q].LeafPage?
    requires !pg.LeafPage?
    ensures AllEntries(store[q := pg]) == AllEntries(store)
  {
    EntriesUpdate(store, q, pg);
    var a, b := AllEntries(store[q := pg]), AllEntries(store);
    assert PageEntries(pg) == multiset{};
    assert q in store ==> PageEntries(store[q]) == multiset{};
    assert a + multiset{} == a && b + multiset{} == b;
  }

  // ---------------------------------------------------------------------------
  // Consistency under page updates
  // ---------------------------------------------------------------------------

  /** A page consistent in a store stays so when pages keep their kinds. */
  lemma PageOKMono(s1: map<PageId, Page>, s2: map<PageId, Page>, pg: Page, leafCap: nat, nodeCap: nat)
    requires PageOK(s1, pg, leafCap, nodeCap)
    requires forall p | p in s1 :: p in s2 && SameKind(s1[p], s2[p])
    ensures PageOK(s2, pg, leafCap, nodeCap)
  {
    if pg.InternalPage? {
      var nd := pg.node;
      forall c | c in Children(nd)
        ensures if nd.level == 1 then IsLeaf(s2, c) else IsInternal(s2, c)
      {
        assert c in s1;
      }
    }
  }

  /** Writing consistent pages over pages of the same kind, or onto fresh
      page numbers below the new `nextPage`, keeps the index consistent. */
  lemma WriteKeepsOK(idx: Index, q: PageId, pg: Page, next: PageId)
    requires IndexOK(idx) && idx.nextPage <= next && 0 < q < next && q != idx.headerPageNum
    requires q in idx.store ==> SameKind(idx.store[q], pg)
    requires PageOK(idx.store[q := pg], pg, idx.leafCap, idx.nodeCap)
    ensures var b := idx.(store := idx.store[q := pg], nextPage := next);
            IndexOK(b) && Grows(idx, b)
  {
    var b := idx.(store := idx.store[q := pg], nextPage := next);
    forall p | p in b.store
      ensures PageOK(b.store, b.store[p], b.leafCap, b.nodeCap)
    {
      if p != q {
        PageOKMono(idx.store, b.store, idx.store[p], idx.leafCap, idx.nodeCap);
      }
    }
    assert HeaderSynced(b);
    assert idx.rootPageNum != 0 && idx.hasNonLeaf ==> IsInternal(b.store, idx.rootPageNum);
    assert idx.rootPageNum != 0 && !idx.hasNonLeaf ==> IsLeaf(b.store, idx.rootPageNum);
    assert forall p | p in b.store :: 0 < p < b.nextPage;
    assert Grows(idx, b);
  }
  /** Splitting page `q`: writing its right half onto the fresh page
      `idx.nextPage` and its left half over it, both consistent in the
      resulting store, keeps the index consistent. */
  lemma WriteSplitOK(idx: Index, q: PageId, left: Page, right: Page)
    requires IndexOK(idx) && q in idx.store && q != idx.headerPageNum
    requires SameKind(idx.store[q], left) && !right.HeaderPage?
    requires var s := idx.store[idx.nextPage := right][q := left];
             PageOK(s, left, idx.leafCap, idx.nodeCap) && PageOK(s, right, idx.leafCap, idx.nodeCap)
    ensures var b := idx.(store := idx.store[idx.nextPage := right][q := left], nextPage := idx.nextPage + 1);
            IndexOK(b) && Grows(idx, b)
  {
    var n := idx.nextPage;
    assert n !in idx.store;
    var s1 := idx.store[n := right];
    var s2 := s1[q := left];
    PageOKMono(s2, s1, right, idx.leafCap, idx.nodeCap);
    WriteKeepsOK(idx, n, right, n + 1);
    var idx1 := idx.(store := s1, nextPage := n + 1);
    WriteKeepsOK(idx1, q, left, n + 1);
  }
}
