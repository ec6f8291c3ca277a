/** The state of the buffer manager: the frame descriptor table, the buffer
    pool, the directory from (file, page number) to the frame holding the
    page, and the clock hand; the files on disk the pages come from; and the
    invariant tying the directory to the frames. */
module BufferState {

  /** A file; 0 stands for the null file pointer of a cleared frame. */
  type FileId = nat
  const NoFile: FileId := 0

  /** A page number within a file; 0 is the invalid page number a cleared
      frame records. */
  type PageNo = nat

  /** The contents of a page. */
  type Data = seq<bv8>

  /** The pages of the files on disk, by file and page number. */
  type Disk = map<(FileId, PageNo), Data>

  /** One frame descriptor. */
  datatype BufDesc = BufDesc(file: FileId, pageNo: PageNo, frameNo: nat, pinCnt: nat,
                             dirty: bool, valid: bool, refbit: bool)

  /** The buffer manager: the number of frames, their descriptors and
      contents, the directory of resident pages and the clock hand. */
  datatype BufMgr = BufMgr(numBufs: nat, table: seq<BufDesc>, pool: seq<Data>,
                           dir: map<(FileId, PageNo), nat>, clockHand: nat)

  /** The page a descriptor describes. */
  function Key(d: BufDesc): (FileId, PageNo) {
    (d.file, d.pageNo)
  }

  /** Clear: the frame holds no page; only its frame number is kept. */
  function Clear(d: BufDesc): (r: BufDesc)
    ensures !r.valid && r.pinCnt == 0 && !r.dirty && !r.refbit && r.file == NoFile
    ensures r.frameNo == d.frameNo
  {
    BufDesc(NoFile, 0, d.frameNo, 0, false, false, false)
  }

  /** Set: the frame holds page `p` of file `f`, pinned once, recently
      referenced and clean. */
  function Set(d: BufDesc, f: FileId, p: PageNo): (r: BufDesc)
    ensures r.valid && r.pinCnt == 1 && !r.dirty && r.refbit && Key(r) == (f, p)
    ensures r.frameNo == d.frameNo
  {
    BufDesc(f, p, d.frameNo, 1, false, true, true)
  }

  /** The table, the pool and the clock hand have the sizes the number of
      frames gives them. */
  predicate Shaped(bm: BufMgr) {
    0 < bm.numBufs && |bm.table| == bm.numBufs && |bm.pool| == bm.numBufs && bm.clockHand < bm.numBufs
  }

  /** The buffer manager invariant: frame `i` is numbered `i`; a frame that
      holds no page is cleared and one that holds a page names a file; and
      the directory maps (f, p) to frame `i` exactly when frame `i` holds
      page `p` of file `f`, so no page is resident twice. */
  predicate Valid(bm: BufMgr) {
    && Shaped(bm)
    && (forall i | 0 <= i < |bm.table| :: bm.table[i].frameNo == i)
    && (forall i | 0 <= i < |bm.table| :: !bm.table[i].valid ==> bm.table[i] == Clear(bm.table[i]))
    && (forall i | 0 <= i < |bm.table| :: bm.table[i].valid ==> bm.table[i].file != NoFile)
    && (forall k | k in bm.dir :: bm.dir[k] < |bm.table| && bm.table[bm.dir[k]].valid
                                  && Key(bm.table[bm.dir[k]]) == k)
    && (forall i | 0 <= i < |bm.table| :: bm.table[i].valid ==>
                                            Key(bm.table[i]) in bm.dir && bm.dir[Key(bm.table[i])] == i)
  }

  /** Every resident page is a page of its file on disk. */
  predicate OnDisk(bm: BufMgr, disk: Disk) {
    forall k | k in bm.dir :: k in disk
  }

  /** The constructor: `bufs` cleared frames numbered 0 to bufs-1, empty
      pages in the pool, nothing resident, and the clock hand on the last
      frame so that the first advance moves it to frame 0. */
  function Init(bufs: nat): (bm: BufMgr)
    requires 0 < bufs
    ensures Valid(bm) && bm.numBufs == bufs && bm.dir == map[] && bm.clockHand == bufs - 1
    ensures forall i | 0 <= i < bufs :: !bm.table[i].valid && bm.table[i].frameNo == i
  {
    BufMgr(bufs, seq(bufs, (i: nat) => BufDesc(NoFile, 0, i, 0, false, false, false)),
           seq(bufs, i => []), map[], bufs - 1)
  }

  /** advanceClock: the hand moves to the next frame, wrapping around after
      the last. */
  function AdvanceClock(bm: BufMgr): (r: BufMgr)
    requires Shaped(bm)
    ensures Shaped(r) && r == bm.(clockHand := r.clockHand)
    ensures r.clockHand == if bm.clockHand == bm.numBufs - 1 then 0 else bm.clockHand + 1
  {
    NextModulo(bm.clockHand, bm.numBufs);
    bm.(clockHand := (bm.clockHand + 1) % bm.numBufs)
  }

  /** One past a position on a clock of `n` frames, taken modulo `n`. */
  lemma NextModulo(h: nat, n: nat)
    requires h < n
    ensures (h + 1) % n == if h == n - 1 then 0 else h + 1
  {
    if h == n - 1 {
      assert h + 1 == n;
    } else {
      assert 0 <= h + 1 < n;
    }
  }

  /** The clock advanced `k` times. */
  function AdvanceBy(bm: BufMgr, k: nat): (r: BufMgr)
    requires Shaped(bm)
    ensures Shaped(r)
    decreases k
  {
    if k == 0 then bm else AdvanceBy(AdvanceClock(bm), k - 1)
  }

  /** Advancing `k` times, at most a full turn, moves the hand `k` frames
      on, wrapping around past the last frame; nothing else changes. */
  lemma {:induction false} AdvanceByMoves(bm: BufMgr, k: nat)
    requires Shaped(bm) && k <= bm.numBufs
    ensures var h := bm.clockHand + k;
            AdvanceBy(bm, k) == bm.(clockHand := if h < bm.numBufs then h else h - bm.numBufs)
    decreases k
  {
    if k > 0 {
      AdvanceByMoves(AdvanceClock(bm), k - 1);
    }
  }

  /** A full turn of the clock brings the hand back where it was. */
  lemma FullTurn(bm: BufMgr)
    requires Shaped(bm)
    ensures AdvanceBy(bm, bm.numBufs) == bm
  {
    AdvanceByMoves(bm, bm.numBufs);
  }
}
