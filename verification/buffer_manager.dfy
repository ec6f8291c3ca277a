/** The operations of the buffer manager: the clock sweep that finds a frame
    (allocBuf), reading, unpinning, allocating and disposing of pages, and
    flushing the pages of a file. Each takes the manager and the disk and
    gives back both, with the outcome. */
module BufferManager {
  import opened BufferState
  import opened Results

  datatype BufError = BufferExceeded | PageNotPinned | PagePinned | BadBuffer | InvalidPage

  /** How an operation that only fails by raising ends. */
  datatype Status = Done | Raised(error: BufError)

  /** A frame the clock may hand out: empty, or holding an unpinned page. */
  predicate Free(d: BufDesc) {
    !d.valid || d.pinCnt == 0
  }

  // ---------------------------------------------------------------------------
  // The clock order
  // ---------------------------------------------------------------------------

  /** The frame `e + 1` places past the hand, for `e` below numBufs: the
      frame the sweep looks at in the `e+1`-th step of a turn. */
  function Ahead(bm: BufMgr, e: nat): (r: nat)
    requires Shaped(bm) && e < bm.numBufs
    ensures r < bm.numBufs
  {
    var k := bm.clockHand + 1 + e;
    if k < bm.numBufs then k else k - bm.numBufs
  }

  /** How many steps of a turn pass before the sweep reaches frame `j`. */
  function Offset(bm: BufMgr, j: nat): (e: nat)
    requires Shaped(bm) && j < bm.numBufs
    ensures e < bm.numBufs && Ahead(bm, e) == j
  {
    if bm.clockHand < j then j - bm.clockHand - 1 else j + bm.numBufs - bm.clockHand - 1
  }

  /** `Offset` undoes `Ahead`. */
  lemma OffsetAhead(bm: BufMgr, e: nat)
    requires Shaped(bm) && e < bm.numBufs
    ensures Offset(bm, Ahead(bm, e)) == e
  {
  }

  /** A frame the clock stops at: a free one, whose reference bit must also
      be clear while `clean` holds (on the first turn, before the sweep has
      cleared the bits). */
  predicate Stops(d: BufDesc, clean: bool) {
    Free(d) && (clean ==> !d.refbit)
  }

  /** The first step, from step `e` of a turn on, at which the clock meets a
      frame it stops at; numBufs when there is none. */
  function FirstFrom(bm: BufMgr, e: nat, clean: bool): (r: nat)
    requires Shaped(bm) && e <= bm.numBufs
    ensures e <= r <= bm.numBufs
    ensures r < bm.numBufs ==> Stops(bm.table[Ahead(bm, r)], clean)
    ensures forall x | e <= x < r :: !Stops(bm.table[Ahead(bm, x)], clean)
    decreases bm.numBufs - e
  {
    if e == bm.numBufs then e
    else if Stops(bm.table[Ahead(bm, e)], clean) then e
    else FirstFrom(bm, e + 1, clean)
  }

  /** A frame the clock stops at is not passed by the search for the first
      one. */
  lemma FirstFromFinds(bm: BufMgr, clean: bool, j: nat)
    requires Shaped(bm) && j < bm.numBufs && Stops(bm.table[j], clean)
    ensures FirstFrom(bm, 0, clean) <= Offset(bm, j) < bm.numBufs
  {
  }

  /** The frame allocBuf hands out, counting from the frame after the hand:
      the first free frame whose reference bit is clear; failing that, the
      first free frame; numBufs when no frame is free. */
  function Victim(bm: BufMgr): (v: nat)
    requires Shaped(bm)
    ensures v <= bm.numBufs
    ensures v < bm.numBufs <==> exists j | 0 <= j < bm.numBufs :: Free(bm.table[j])
    ensures v < bm.numBufs ==> Free(bm.table[v])
    ensures (exists j | 0 <= j < bm.numBufs :: Stops(bm.table[j], true)) ==> v < bm.numBufs && !bm.table[v].refbit
  {
    var c := FirstFrom(bm, 0, true);
    var f := FirstFrom(bm, 0, false);
    if c < bm.numBufs then Ahead(bm, c)
    else if f < bm.numBufs then (NoneStops(bm, true); Ahead(bm, f))
    else (NoneStops(bm, false); bm.numBufs)
  }

  /** When the search over a whole turn comes back empty, the clock stops
      at no frame. */
  lemma NoneStops(bm: BufMgr, clean: bool)
    requires Shaped(bm) && FirstFrom(bm, 0, clean) == bm.numBufs
    ensures forall j | 0 <= j < bm.numBufs :: !Stops(bm.table[j], clean)
  {
    forall j | 0 <= j < bm.numBufs
      ensures !Stops(bm.table[j], clean)
    {
      if Stops(bm.table[j], clean) {
        FirstFromFinds(bm, clean, j);
      }
    }
  }

  /** The descriptor frame `j` has after the sweep that hands out
      `Victim(bm)`: its reference bit survives only when the first turn
      stopped before reaching it. */
  function Swept(bm: BufMgr, j: nat): (d: BufDesc)
    requires Shaped(bm) && j < bm.numBufs
  {
    bm.table[j].(refbit := bm.table[j].refbit && FirstFrom(bm, 0, true) <= Offset(bm, j))
  }

  // ---------------------------------------------------------------------------
  // allocBuf
  // ---------------------------------------------------------------------------

  /** What handing out frame `i` did to the manager and the disk: the hand is
      on `i`, which is `Victim(bm)`; the frame was free and is now cleared,
      its page (if any) gone from the directory and written back if it was
      dirty; every other frame lost its reference bit exactly when the
      sweep passed it. */
  predicate Claimed(bm: BufMgr, disk: Disk, a: BufMgr, da: Disk, i: nat) {
    && Shaped(bm) && i < bm.numBufs && i == Victim(bm)
    && a.numBufs == bm.numBufs && a.pool == bm.pool && |a.table| == |bm.table| && a.clockHand == i
    && Free(bm.table[i])
    && a.table[i] == Clear(bm.table[i])
    && (forall j | 0 <= j < |bm.table| && j != i :: a.table[j] == Swept(bm, j))
    && a.dir == bm.dir - {Key(bm.table[i])}
    && da == if bm.table[i].valid && bm.table[i].dirty then disk[Key(bm.table[i]) := bm.pool[i]] else disk
  }

  /** Clearing a frame that holds a page and dropping that page from the
      directory keeps the invariant. */
  lemma EvictValid(bm: BufMgr, h: nat)
    requires Valid(bm) && h < bm.numBufs && bm.table[h].valid
    ensures Valid(bm.(dir := bm.dir - {Key(bm.table[h])}, table := bm.table[h := Clear(bm.table[h])]))
  {
    var b := bm.(dir := bm.dir - {Key(bm.table[h])}, table := bm.table[h := Clear(bm.table[h])]);
    forall k | k in b.dir
      ensures b.dir[k] < |b.table| && b.table[b.dir[k]].valid && Key(b.table[b.dir[k]]) == k
    {
      assert bm.dir[k] != h;
    }
  }

  /** `cur` differs from `bm` only in the clock hand and in reference bits
      that were set in `bm` and are now clear. */
  predicate RefbitsCleared(bm: BufMgr, cur: BufMgr) {
    && |bm.table| == bm.numBufs && Shaped(cur) && cur == bm.(table := cur.table, clockHand := cur.clockHand)
    && forall j | 0 <= j < bm.numBufs ::
         cur.table[j] == bm.table[j].(refbit := cur.table[j].refbit) && (cur.table[j].refbit ==> bm.table[j].refbit)
  }

  /** The sweep invariant of allocBuf: the manager stays consistent and
      differs from where the sweep started only in the clock hand and in
      reference bits it cleared; a frame noted pinned holds a pinned page
      and has its reference bit clear. */
  predicate SweepInv(bm: BufMgr, cur: BufMgr, pinned: seq<bool>) {
    && RefbitsCleared(bm, cur)
    && |pinned| == bm.numBufs
    && (forall j | 0 <= j < bm.numBufs && pinned[j] ::
          cur.table[j].valid && cur.table[j].pinCnt != 0 && !cur.table[j].refbit)
  }

  /** A manager that differs from a consistent one only in reference bits
      and the clock hand is consistent. */
  lemma SweepValid(bm: BufMgr, cur: BufMgr, pinned: seq<bool>)
    requires Valid(bm) && SweepInv(bm, cur, pinned)
    ensures Valid(cur)
  {
    forall i | 0 <= i < |cur.table| && !cur.table[i].valid
      ensures cur.table[i] == Clear(cur.table[i])
    {
      assert bm.table[i] == Clear(bm.table[i]);
    }
  }

  /** Advancing the hand keeps the sweep invariant. */
  lemma AdvanceStep(bm: BufMgr, cur: BufMgr, pinned: seq<bool>)
    requires SweepInv(bm, cur, pinned)
    ensures SweepInv(bm, AdvanceClock(cur), pinned)
  {
  }

  /** Passing over a referenced frame, clearing its bit. */
  lemma RefbitStep(bm: BufMgr, cur: BufMgr, pinned: seq<bool>, h: nat)
    requires SweepInv(bm, cur, pinned) && h < bm.numBufs && cur.table[h].refbit
    ensures SweepInv(bm, cur.(table := cur.table[h := cur.table[h].(refbit := false)]), pinned)
  {
  }

  /** Noting a pinned frame. */
  lemma PinnedStep(bm: BufMgr, cur: BufMgr, pinned: seq<bool>, h: nat)
    requires SweepInv(bm, cur, pinned) && h < bm.numBufs
    requires cur.table[h].valid && !cur.table[h].refbit && cur.table[h].pinCnt != 0
    ensures SweepInv(bm, cur, pinned[h := true])
  {
  }

  /** Where the hand is after `t` steps of the sweep, on its first turn
      (`t <= numBufs`) or its second. */
  function Hand(bm: BufMgr, t: nat): (h: nat)
    requires Shaped(bm) && t <= 2 * bm.numBufs
    ensures h < bm.numBufs
  {
    if t == 0 then bm.clockHand
    else if t <= bm.numBufs then Ahead(bm, t - 1)
    else Ahead(bm, t - 1 - bm.numBufs)
  }

  /** The sweep after `t` steps. On the first turn it has passed no frame it
      could stop at, and has cleared the reference bits of the frames it
      passed. On the second turn it found no free frame with its bit clear
      on the first, every bit is clear, and every frame it passed is noted
      pinned. */
  ghost predicate Trail(bm: BufMgr, cur: BufMgr, pinned: seq<bool>, t: nat)
    requires Shaped(bm)
  {
    var n := bm.numBufs;
    && |cur.table| == n && |pinned| == n
    && t <= 2 * n && cur.clockHand == Hand(bm, t)
    && (t <= n ==>
          && t <= FirstFrom(bm, 0, true)
          && forall j | 0 <= j < n :: cur.table[j].refbit == (bm.table[j].refbit && t <= Offset(bm, j)))
    && (n <= t ==>
          && FirstFrom(bm, 0, true) == n && t - n <= FirstFrom(bm, 0, false)
          && forall j | 0 <= j < n :: !cur.table[j].refbit && (Offset(bm, j) < t - n ==> pinned[j]))
  }

  /** The sweep invariant and the trail together. */
  ghost predicate Sweeping(bm: BufMgr, cur: BufMgr, pinned: seq<bool>, t: nat) {
    Shaped(bm) && SweepInv(bm, cur, pinned) && Trail(bm, cur, pinned, t)
  }

  /** The sweep starts on its first turn with nothing passed. */
  lemma TrailStart(bm: BufMgr)
    requires Valid(bm)
    ensures Sweeping(bm, bm, seq(bm.numBufs, _ => false), 0)
  {
  }

  /** Advancing the hand after `t` steps brings it onto the frame of step
      `t + 1`. */
  lemma HandNext(bm: BufMgr, t: nat)
    requires Shaped(bm) && t < 2 * bm.numBufs
    ensures var h := Hand(bm, t);
            (if h == bm.numBufs - 1 then 0 else h + 1) == Ahead(bm, if t < bm.numBufs then t else t - bm.numBufs)
  {
  }

  /** While some frame is not noted pinned, the sweep has a step left, and
      advancing the hand brings it onto the next frame of the turn. */
  lemma TrailLook(bm: BufMgr, cur: BufMgr, pinned: seq<bool>, t: nat)
    requires Sweeping(bm, cur, pinned, t)
    requires exists j | 0 <= j < bm.numBufs :: !pinned[j]
    ensures t < 2 * bm.numBufs
    ensures AdvanceClock(cur).clockHand == Step(bm, t)
  {
    var j :| 0 <= j < bm.numBufs && !pinned[j];
    assert Offset(bm, j) < bm.numBufs;
    HandNext(bm, t);
  }

  /** The frame the hand is on at step `t + 1`. */
  function Step(bm: BufMgr, t: nat): (h: nat)
    requires Shaped(bm) && t < 2 * bm.numBufs
    ensures h < bm.numBufs
  {
    Ahead(bm, if t < bm.numBufs then t else t - bm.numBufs)
  }

  /** The sweep stopped on `Victim(bm)`, a free frame whose reference bit is
      clear, having cleared exactly the reference bits that `Swept` clears. */
  predicate StoppedAt(bm: BufMgr, cur: BufMgr)
    requires Shaped(bm)
  {
    && |cur.table| == bm.numBufs && cur.clockHand < bm.numBufs && cur.clockHand == Victim(bm)
    && Free(cur.table[cur.clockHand]) && !cur.table[cur.clockHand].refbit
    && forall j | 0 <= j < bm.numBufs :: cur.table[j] == Swept(bm, j)
  }

  /** A frame the hand stops at on either turn is `Victim(bm)`, and the
      reference bits are then those `Swept` gives. */
  lemma TrailFound(bm: BufMgr, before: BufMgr, cur: BufMgr, pinned: seq<bool>, t: nat)
    requires Valid(bm) && Sweeping(bm, before, pinned, t) && t < 2 * bm.numBufs
    requires cur == AdvanceClock(before) && cur.clockHand == Step(bm, t)
    requires var h := cur.clockHand; !cur.table[h].valid || (!cur.table[h].refbit && cur.table[h].pinCnt == 0)
    ensures Valid(cur) && RefbitsCleared(bm, cur) && StoppedAt(bm, cur)
  {
    var h := Step(bm, t);
    AdvanceValid(bm, before, cur, pinned);
    assert Free(bm.table[h]);
    if t < bm.numBufs {
      FoundFirst(bm, before, pinned, t);
    } else {
      FoundSecond(bm, before, pinned, t);
    }
  }

  lemma FoundFirst(bm: BufMgr, cur: BufMgr, pinned: seq<bool>, t: nat)
    requires Shaped(bm) && Trail(bm, cur, pinned, t) && t < bm.numBufs
    requires Free(bm.table[Ahead(bm, t)]) && !cur.table[Ahead(bm, t)].refbit
    ensures Ahead(bm, t) == Victim(bm)
    ensures forall j | 0 <= j < bm.numBufs :: cur.table[j].refbit == Swept(bm, j).refbit
  {
    var h := Ahead(bm, t);
    OffsetAhead(bm, t);
    assert Stops(bm.table[h], true);
    FirstFromFinds(bm, true, h);
  }

  lemma FoundSecond(bm: BufMgr, cur: BufMgr, pinned: seq<bool>, t: nat)
    requires Shaped(bm) && Trail(bm, cur, pinned, t) && bm.numBufs <= t < 2 * bm.numBufs
    requires Free(bm.table[Ahead(bm, t - bm.numBufs)])
    ensures Ahead(bm, t - bm.numBufs) == Victim(bm)
    ensures forall j | 0 <= j < bm.numBufs :: cur.table[j].refbit == Swept(bm, j).refbit
  {
    var h := Ahead(bm, t - bm.numBufs);
    OffsetAhead(bm, t - bm.numBufs);
    assert Stops(bm.table[h], false);
    FirstFromFinds(bm, false, h);
  }

  /** Clearing a set reference bit, which happens on the first turn only. */
  lemma TrailRefbit(bm: BufMgr, before: BufMgr, cur: BufMgr, pinned: seq<bool>, t: nat)
    requires Valid(bm) && Sweeping(bm, before, pinned, t) && t < 2 * bm.numBufs
    requires cur == AdvanceClock(before) && cur.clockHand == Step(bm, t) && cur.table[cur.clockHand].refbit
    ensures var h := cur.clockHand;
            Sweeping(bm, cur.(table := cur.table[h := cur.table[h].(refbit := false)]), pinned, t + 1)
  {
    assert t < bm.numBufs;
    RefbitStep(bm, cur, pinned, cur.clockHand);
    RefbitFirst(bm, before, pinned, t);
  }

  lemma RefbitFirst(bm: BufMgr, cur: BufMgr, pinned: seq<bool>, t: nat)
    requires Shaped(bm) && Trail(bm, cur, pinned, t) && t < bm.numBufs
    requires bm.table[Ahead(bm, t)].refbit
    ensures var h := Ahead(bm, t);
            Trail(bm, cur.(clockHand := h, table := cur.table[h := cur.table[h].(refbit := false)]), pinned, t + 1)
  {
    OffsetAhead(bm, t);
  }

  /** Noting a pinned frame, on either turn. */
  lemma TrailPinned(bm: BufMgr, before: BufMgr, cur: BufMgr, pinned: seq<bool>, t: nat)
    requires Valid(bm) && Sweeping(bm, before, pinned, t) && t < 2 * bm.numBufs
    requires cur == AdvanceClock(before) && cur.clockHand == Step(bm, t)
    requires var h := cur.clockHand; cur.table[h].valid && !cur.table[h].refbit && cur.table[h].pinCnt != 0
    ensures Sweeping(bm, cur, pinned[cur.clockHand := true], t + 1)
  {
    var h := cur.clockHand;
    AdvanceStep(bm, before, pinned);
    PinnedStep(bm, cur, pinned, h);
    assert !Free(bm.table[h]);
    if t < bm.numBufs {
      PinnedFirst(bm, before, pinned, t);
    } else {
      PinnedSecond(bm, before, pinned, t);
    }
  }

  lemma PinnedFirst(bm: BufMgr, cur: BufMgr, pinned: seq<bool>, t: nat)
    requires Shaped(bm) && Trail(bm, cur, pinned, t) && t < bm.numBufs
    requires !Free(bm.table[Ahead(bm, t)]) && !cur.table[Ahead(bm, t)].refbit
    ensures var h := Ahead(bm, t); Trail(bm, cur.(clockHand := h), pinned[h := true], t + 1)
  {
    OffsetAhead(bm, t);
  }

  lemma PinnedSecond(bm: BufMgr, cur: BufMgr, pinned: seq<bool>, t: nat)
    requires Shaped(bm) && Trail(bm, cur, pinned, t) && bm.numBufs <= t < 2 * bm.numBufs
    requires !Free(bm.table[Ahead(bm, t - bm.numBufs)])
    ensures var h := Ahead(bm, t - bm.numBufs); Trail(bm, cur.(clockHand := h), pinned[h := true], t + 1)
  {
    OffsetAhead(bm, t - bm.numBufs);
  }

  /** Where the sweep stopped: on a frame that is free with its reference
      bit clear, or after noting every frame pinned. */
  datatype SweepEnd = Found | AllPinned

  /** The clock loop of allocBuf: advance the hand, stop at an empty frame,
      clear a set reference bit and go on, note a pinned frame and go on,
      stop at an unpinned frame with its reference bit clear; give up once
      every frame has been noted pinned. It stops on `Victim(bm)`, within
      two turns of the clock. */
  method Sweep(bm: BufMgr) returns (cur: BufMgr, end: SweepEnd)
    requires Valid(bm)
    ensures Valid(cur) && RefbitsCleared(bm, cur)
    ensures end == Found ==> StoppedAt(bm, cur)
    ensures end == AllPinned ==> forall j | 0 <= j < bm.numBufs :: !Free(bm.table[j]) && !cur.table[j].refbit
  {
    var n := bm.numBufs;
    var pinned := seq(n, _ => false);
    cur := bm;
    ghost var t: nat := 0;
    TrailStart(bm);
    while true
      invariant Sweeping(bm, cur, pinned, t)
      decreases 2 * n - t
    {
      var before := cur;
      cur := AdvanceClock(cur);
      var h := cur.clockHand;
      if forall j | 0 <= j < n :: pinned[j] {
        AllPinnedEnd(bm, before, cur, pinned);
        return cur, AllPinned;
      }
      TrailLook(bm, before, pinned, t);
      var d := cur.table[h];
      if !d.valid {
        TrailFound(bm, before, cur, pinned, t);
        return cur, Found;
      }
      if d.refbit {
        TrailRefbit(bm, before, cur, pinned, t);
        cur := cur.(table := cur.table[h := d.(refbit := false)]);
        t := t + 1;
        continue;
      }
      if d.pinCnt != 0 {
        TrailPinned(bm, before, cur, pinned, t);
        pinned := pinned[h := true];
        t := t + 1;
        continue;
      }
      TrailFound(bm, before, cur, pinned, t);
      return cur, Found;
    }
  }

  /** Every frame noted pinned: none is free, and none has its reference bit
      set. */
  /** One more move of the hand keeps the pool consistent and only clears refbits. */
  lemma AdvanceValid(bm: BufMgr, before: BufMgr, cur: BufMgr, pinned: seq<bool>)
    requires Valid(bm) && SweepInv(bm, before, pinned) && cur == AdvanceClock(before)
    ensures SweepInv(bm, cur, pinned) && Valid(cur) && RefbitsCleared(bm, cur)
  {
    AdvanceStep(bm, before, pinned);
    SweepValid(bm, cur, pinned);
  }

  lemma AllPinnedEnd(bm: BufMgr, before: BufMgr, cur: BufMgr, pinned: seq<bool>)
    requires Valid(bm) && SweepInv(bm, before, pinned) && cur == AdvanceClock(before)
    requires forall j | 0 <= j < bm.numBufs :: pinned[j]
    ensures Valid(cur) && RefbitsCleared(bm, cur)
    ensures forall j | 0 <= j < bm.numBufs :: !Free(bm.table[j]) && !cur.table[j].refbit
  {
    AdvanceValid(bm, before, cur, pinned);
    forall j | 0 <= j < bm.numBufs
      ensures !Free(bm.table[j]) && !cur.table[j].refbit
    {
      assert pinned[j];
      assert cur.table[j] == bm.table[j].(refbit := cur.table[j].refbit);
    }
  }

  /** Taking the frame the sweep stopped on. */
  lemma TakeFrame(bm: BufMgr, disk: Disk, cur: BufMgr)
    requires Valid(bm) && Valid(cur) && RefbitsCleared(bm, cur) && StoppedAt(bm, cur)
    ensures var h := cur.clockHand;
            var d := cur.table[h];
            var b := if d.valid then cur.(dir := cur.dir - {Key(d)}, table := cur.table[h := Clear(d)]) else cur;
            var w := if d.valid && d.dirty then disk[Key(d) := cur.pool[h]] else disk;
            Valid(b) && Claimed(bm, disk, b, w, h) && (OnDisk(bm, disk) ==> OnDisk(b, w))
    ensures exists j | 0 <= j < bm.numBufs :: Free(bm.table[j])
  {
    var h := cur.clockHand;
    var d := cur.table[h];
    if d.valid {
      EvictValid(cur, h);
    } else {
      assert bm.table[h] == Clear(bm.table[h]);
      assert Key(bm.table[h]) !in bm.dir;
      assert bm.dir - {Key(bm.table[h])} == bm.dir;
    }
  }

  /** allocBuf: sweep the clock (see `Sweep`). An empty frame is handed out
      as it is; an occupied one has its page written back if dirty and
      dropped from the directory, and is cleared. When every frame has been
      noted pinned, BufferExceeded is raised. */
  method AllocBuf(bm: BufMgr, disk: Disk) returns (r: BufMgr, disk': Disk, res: Result<nat, BufError>)
    requires Valid(bm)
    ensures Valid(r) && (OnDisk(bm, disk) ==> OnDisk(r, disk'))
    ensures res.Ok? <==> exists j | 0 <= j < bm.numBufs :: Free(bm.table[j])
    ensures res.Ok? ==> Claimed(bm, disk, r, disk', res.value)
    ensures res.Err? ==> && res.error == BufferExceeded && disk' == disk
                         && r == bm.(table := r.table, clockHand := r.clockHand) && Shaped(r)
                         && forall j | 0 <= j < bm.numBufs :: r.table[j] == bm.table[j].(refbit := false)
  {
    var cur, end := Sweep(bm);
    if end == AllPinned {
      r, disk', res := cur, disk, Err(BufferExceeded);
      return;
    }
    TakeFrame(bm, disk, cur);
    var h := cur.clockHand;
    var d := cur.table[h];
    if !d.valid {
      r, disk', res := cur, disk, Ok(h);
      return;
    }
    var written := if d.dirty then disk[Key(d) := cur.pool[h]] else disk;
    r, disk', res := cur.(dir := cur.dir - {Key(d)}, table := cur.table[h := Clear(d)]), written, Ok(h);
  }

  // ---------------------------------------------------------------------------
  // readPage
  // ---------------------------------------------------------------------------

  /** A hit: the frame is referenced and pinned once more. */
  function PinHit(bm: BufMgr, i: nat): (r: BufMgr)
    requires Valid(bm) && i < bm.numBufs && bm.table[i].valid
    ensures Valid(r) && r.dir == bm.dir && r.pool == bm.pool
    ensures r.table[i] == bm.table[i].(refbit := true, pinCnt := bm.table[i].pinCnt + 1)
    ensures forall j | 0 <= j < bm.numBufs && j != i :: r.table[j] == bm.table[j]
  {
    bm.(table := bm.table[i := bm.table[i].(refbit := true, pinCnt := bm.table[i].pinCnt + 1)])
  }

  /** Installing page `p` of file `f` with contents `data` in frame `i`. */
  function Install(a: BufMgr, i: nat, f: FileId, p: PageNo, data: Data): (r: BufMgr)
    requires Valid(a) && i < a.numBufs && !a.table[i].valid && (f, p) !in a.dir && f != NoFile
    ensures Valid(r) && r.numBufs == a.numBufs && r.clockHand == a.clockHand && r.dir == a.dir[(f, p) := i]
    ensures r.table[i] == Set(a.table[i], f, p) && r.pool[i] == data
    ensures forall j | 0 <= j < a.numBufs && j != i :: r.table[j] == a.table[j] && r.pool[j] == a.pool[j]
  {
    a.(table := a.table[i := Set(a.table[i], f, p)], pool := a.pool[i := data], dir := a.dir[(f, p) := i])
  }

  /** readPage: a resident page is pinned again in place. Otherwise a frame
      is claimed, the page is read from its file into it, and the frame and
      the directory record it. The file layer raises InvalidPage for a page
      the file does not hold; the claimed frame then stays cleared. */
  method ReadPage(bm: BufMgr, disk: Disk, f: FileId, p: PageNo)
    returns (r: BufMgr, disk': Disk, res: Result<nat, BufError>)
    requires Valid(bm) && f != NoFile
    ensures Valid(r) && (OnDisk(bm, disk) ==> OnDisk(r, disk'))
    ensures (f, p) in bm.dir ==> res == Ok(bm.dir[(f, p)]) && r == PinHit(bm, bm.dir[(f, p)]) && disk' == disk
    ensures (f, p) !in bm.dir && res.Ok? ==>
              (f, p) in disk && exists a :: Claimed(bm, disk, a, disk', res.value) && Valid(a)
                                            && r == Install(a, res.value, f, p, disk[(f, p)])
    ensures res == Err(BufferExceeded) <==>
              (f, p) !in bm.dir && forall j | 0 <= j < bm.numBufs :: !Free(bm.table[j])
    ensures res == Err(InvalidPage) <==>
              (f, p) !in bm.dir && (f, p) !in disk && exists j | 0 <= j < bm.numBufs :: Free(bm.table[j])
    ensures res.Ok? ==> res.value < r.numBufs && r.table[res.value].valid && Key(r.table[res.value]) == (f, p)
    ensures res == Err(BufferExceeded) ==>
              && disk' == disk && r.dir == bm.dir && r.pool == bm.pool && r.numBufs == bm.numBufs
              && |r.table| == |bm.table| && forall j | 0 <= j < bm.numBufs :: r.table[j] == bm.table[j].(refbit := false)
    ensures res == Err(InvalidPage) ==> Claimed(bm, disk, r, disk', r.clockHand)
  {
    if (f, p) in bm.dir {
      var i := bm.dir[(f, p)];
      r, disk', res := PinHit(bm, i), disk, Ok(i);
    } else {
      var a, da, got := AllocBuf(bm, disk);
      if got.Err? {
        r, disk', res := a, da, got;
        return;
      }
      var i := got.value;
      if (f, p) !in disk {
        r, disk', res := a, da, Err(InvalidPage);
        return;
      }
      r, disk', res := Install(a, i, f, p, disk[(f, p)]), da, Ok(i);
    }
  }

  // ---------------------------------------------------------------------------
  // unPinPage
  // ---------------------------------------------------------------------------

  /** unPinPage: nothing happens for a page that is not resident;
      PageNotPinned is raised for a resident page nobody pins; otherwise
      the pin count drops by one and the frame becomes dirty if the caller
      says so (a dirty frame stays dirty). */
  function UnPinPage(bm: BufMgr, f: FileId, p: PageNo, dirty: bool): (r: (BufMgr, Status))
    requires Valid(bm)
    ensures Valid(r.0) && r.0.dir == bm.dir && r.0.pool == bm.pool && r.0.clockHand == bm.clockHand
    ensures (f, p) !in bm.dir ==> r == (bm, Done)
    ensures (f, p) in bm.dir ==>
              var i := bm.dir[(f, p)];
              && (r.1 == Raised(PageNotPinned) <==> bm.table[i].pinCnt == 0)
              && (r.1 == Raised(PageNotPinned) ==> r.0 == bm)
              && (r.1 == Done ==> && r.0.table[i].pinCnt + 1 == bm.table[i].pinCnt
                                  && r.0.table[i].dirty == (bm.table[i].dirty || dirty)
                                  && r.0.table[i] == bm.table[i].(pinCnt := r.0.table[i].pinCnt,
                                                                  dirty := r.0.table[i].dirty))
              && (forall j | 0 <= j < bm.numBufs && j != i :: r.0.table[j] == bm.table[j])
    ensures forall j | 0 <= j < bm.numBufs :: bm.table[j].dirty ==> r.0.table[j].dirty
    ensures r.1 == Done || r.1 == Raised(PageNotPinned)
  {
    if (f, p) !in bm.dir then (bm, Done)
    else
      var i := bm.dir[(f, p)];
      var d := bm.table[i];
      if d.pinCnt == 0 then (bm, Raised(PageNotPinned))
      else
        var d1 := if dirty then d.(dirty := dirty) else d;
        (bm.(table := bm.table[i := d1.(pinCnt := d1.pinCnt - 1)]), Done)
  }

  /** Pinning a resident page and unpinning it clean gives the pin count
      back: only the reference bit stays set. */
  lemma PinThenUnpin(bm: BufMgr, f: FileId, p: PageNo)
    requires Valid(bm) && (f, p) in bm.dir
    ensures var i := bm.dir[(f, p)];
            UnPinPage(PinHit(bm, i), f, p, false) == (bm.(table := bm.table[i := bm.table[i].(refbit := true)]), Done)
  {
    var i := bm.dir[(f, p)];
    var b := PinHit(bm, i);
    assert b.table[i := b.table[i].(pinCnt := b.table[i].pinCnt - 1)] == bm.table[i := bm.table[i].(refbit := true)];
  }

  // ---------------------------------------------------------------------------
  // flushFile
  // ---------------------------------------------------------------------------

  /** The frame loop of flushFile from frame `i`: every frame recording file
      `f` must hold a page (else BadBuffer) that nobody pins (else
      PagePinned); its page is written back if dirty, dropped from the
      directory and the frame cleared. Frames flushed before an exception
      stay flushed. */
  function FlushFrom(bm: BufMgr, disk: Disk, f: FileId, i: nat): (r: (BufMgr, Disk, Status))
    requires Shaped(bm)
    ensures Shaped(r.0) && r.0.numBufs == bm.numBufs && r.0.pool == bm.pool && r.0.clockHand == bm.clockHand
    decreases |bm.table| - i
  {
    if i >= |bm.table| then (bm, disk, Done)
    else
      var d := bm.table[i];
      if d.file != f then FlushFrom(bm, disk, f, i + 1)
      else if !d.valid then (bm, disk, Raised(BadBuffer))
      else if d.pinCnt != 0 then (bm, disk, Raised(PagePinned))
      else
        var disk1 := if d.dirty then disk[Key(d) := bm.pool[i]] else disk;
        FlushFrom(bm.(dir := bm.dir - {Key(d)}, table := bm.table[i := Clear(d)]), disk1, f, i + 1)
  }

  function FlushFile(bm: BufMgr, disk: Disk, f: FileId): (r: (BufMgr, Disk, Status))
    requires Shaped(bm)
    ensures Shaped(r.0)
  {
    FlushFrom(bm, disk, f, 0)
  }

  /** What flushing file `f` from frame `i` on promises for a consistent
      manager: BadBuffer never happens; PagePinned is raised exactly when a
      frame of `f` from `i` on is pinned; on success every such frame is
      cleared and its dirty page written back; frames of other files and
      pages of other files on disk are untouched. */
  ghost predicate Flushed(bm: BufMgr, disk: Disk, f: FileId, i: nat, r: BufMgr, d: Disk, st: Status)
    requires Shaped(bm)
  {
    FlushedFrames(bm, f, i, r, st) && FlushedDisk(bm, disk, f, i, r, d, st)
  }

  /** The frame and directory half of `Flushed`. */
  ghost predicate FlushedFrames(bm: BufMgr, f: FileId, i: nat, r: BufMgr, st: Status)
    requires Shaped(bm)
  {
    && Valid(r)
    && st != Raised(BadBuffer)
    && (st == Raised(PagePinned) <==>
          exists j | i <= j < bm.numBufs :: bm.table[j].file == f && bm.table[j].pinCnt != 0)
    && |r.table| == bm.numBufs
    && (forall j | 0 <= j < bm.numBufs && bm.table[j].file != f :: r.table[j] == bm.table[j])
    && (forall j | 0 <= j < i && j < bm.numBufs :: r.table[j] == bm.table[j])
    && (st == Done ==> forall j | i <= j < bm.numBufs && bm.table[j].file == f :: r.table[j] == Clear(bm.table[j]))
    && (st == Done ==> forall k | k in r.dir :: k in bm.dir && k.0 != f)
  }

  /** Page `k` is held dirty by a frame of file `f` from frame `i` on, so
      flushing from `i` writes it back. */
  predicate Written(bm: BufMgr, f: FileId, i: nat, k: (FileId, PageNo)) {
    exists j | i <= j < |bm.table| :: bm.table[j].file == f && bm.table[j].dirty && Key(bm.table[j]) == k
  }

  /** The disk half of `Flushed`: no page leaves the disk, a page nobody
      writes back keeps its contents, and on success every dirty page of
      the file is on disk with the contents of its frame. */
  ghost predicate FlushedDisk(bm: BufMgr, disk: Disk, f: FileId, i: nat, r: BufMgr, d: Disk, st: Status)
    requires Shaped(bm)
  {
    && (OnDisk(bm, disk) ==> OnDisk(r, d))
    && (st == Done ==> forall j | i <= j < bm.numBufs && bm.table[j].file == f && bm.table[j].dirty ::
                         Key(bm.table[j]) in d && d[Key(bm.table[j])] == bm.pool[j])
    && (forall k | k in disk :: k in d)
    && (forall k | k in d && !Written(bm, f, i, k) :: k in disk && d[k] == disk[k])
  }

  lemma {:induction false} FlushFromCorrect(bm: BufMgr, disk: Disk, f: FileId, i: nat)
    requires Valid(bm) && f != NoFile && i <= bm.numBufs
    requires forall k | k in bm.dir && k.0 == f :: bm.dir[k] >= i
    ensures var (r, d, st) := FlushFrom(bm, disk, f, i);
            Flushed(bm, disk, f, i, r, d, st)
    decreases |bm.table| - i
  {
    if i < |bm.table| {
      var dd := bm.table[i];
      if dd.file != f {
        FlushFromCorrect(bm, disk, f, i + 1);
        FlushSkip(bm, disk, f, i);
      } else if dd.pinCnt != 0 {
        assert bm.table[i].file == f && bm.table[i].pinCnt != 0;
      } else {
        FlushStep(bm, disk, f, i);
      }
    } else {
      assert forall k | k in bm.dir :: k.0 != f;
    }
  }

  /** A frame of another file is skipped over. */
  lemma FlushSkip(bm: BufMgr, disk: Disk, f: FileId, i: nat)
    requires Shaped(bm) && i < bm.numBufs && bm.table[i].file != f
    requires var (r, d, st) := FlushFrom(bm, disk, f, i + 1);
             Flushed(bm, disk, f, i + 1, r, d, st)
    ensures var (r, d, st) := FlushFrom(bm, disk, f, i);
            Flushed(bm, disk, f, i, r, d, st)
  {
    var (r, d, st) := FlushFrom(bm, disk, f, i + 1);
    FlushSkipFrames(bm, f, i, r, st);
    FlushSkipDisk(bm, disk, f, i, r, d, st);
  }

  lemma FlushSkipFrames(bm: BufMgr, f: FileId, i: nat, r: BufMgr, st: Status)
    requires Shaped(bm) && i < bm.numBufs && bm.table[i].file != f
    requires FlushedFrames(bm, f, i + 1, r, st)
    ensures FlushedFrames(bm, f, i, r, st)
  {
    if st == Raised(PagePinned) {
      var j :| i + 1 <= j < bm.numBufs && bm.table[j].file == f && bm.table[j].pinCnt != 0;
      assert i <= j;
    }
  }

  lemma FlushSkipDisk(bm: BufMgr, disk: Disk, f: FileId, i: nat, r: BufMgr, d: Disk, st: Status)
    requires Shaped(bm) && i < bm.numBufs && bm.table[i].file != f
    requires FlushedDisk(bm, disk, f, i + 1, r, d, st)
    ensures FlushedDisk(bm, disk, f, i, r, d, st)
  {
    forall k | k in d && !Written(bm, f, i, k)
      ensures k in disk && d[k] == disk[k]
    {
      assert !Written(bm, f, i + 1, k);
    }
  }

  /** Frame `i` of `bm` cleared and its page dropped from the directory. */
  function Evict(bm: BufMgr, i: nat): BufMgr
    requires i < |bm.table|
  {
    bm.(dir := bm.dir - {Key(bm.table[i])}, table := bm.table[i := Clear(bm.table[i])])
  }

  /** Frames: flushing from `i + 1` after evicting frame `i` of the file
      flushes from `i`. */
  lemma FlushStepFrames(bm: BufMgr, f: FileId, i: nat, r: BufMgr, st: Status)
    requires Shaped(bm) && i < bm.numBufs && bm.table[i].file == f && bm.table[i].pinCnt == 0
    requires FlushedFrames(Evict(bm, i), f, i + 1, r, st)
    ensures FlushedFrames(bm, f, i, r, st)
  {
    var b := Evict(bm, i);
    assert forall j | 0 <= j < bm.numBufs && j != i :: b.table[j] == bm.table[j];
    if st == Raised(PagePinned) {
      var j :| i + 1 <= j < b.numBufs && b.table[j].file == f && b.table[j].pinCnt != 0;
      assert bm.table[j].file == f && bm.table[j].pinCnt != 0;
    }
    if st == Done {
      forall k | k in r.dir
        ensures k in bm.dir && k.0 != f
      {
        assert k in b.dir;
      }
    }
  }

  /** No later frame of the file holds the page frame `i` holds. */
  lemma KeyOnlyAt(bm: BufMgr, f: FileId, i: nat)
    requires Valid(bm) && f != NoFile && i < bm.numBufs && bm.table[i].file == f
    ensures forall j | i < j < bm.numBufs && bm.table[j].file == f :: Key(bm.table[j]) != Key(bm.table[i])
  {
    forall j | i < j < bm.numBufs && bm.table[j].file == f
      ensures Key(bm.table[j]) != Key(bm.table[i])
    {
      assert bm.table[j].valid && bm.table[i].valid;
    }
  }

  /** Evicting frame `i` of the file keeps the manager consistent, and the
      pages of the file left in the directory sit in frames after `i`. */
  lemma EvictNext(bm: BufMgr, f: FileId, i: nat)
    requires Valid(bm) && f != NoFile && i < bm.numBufs && bm.table[i].file == f
    requires forall k | k in bm.dir && k.0 == f :: bm.dir[k] >= i
    ensures Valid(Evict(bm, i))
    ensures forall k | k in Evict(bm, i).dir && k.0 == f :: Evict(bm, i).dir[k] >= i + 1
  {
    var b := Evict(bm, i);
    assert bm.table[i].valid;
    EvictValid(bm, i);
    forall k | k in b.dir && k.0 == f
      ensures b.dir[k] >= i + 1
    {
      assert bm.dir[k] != i;
    }
  }

  /** The disk: flushing from `i + 1` after writing frame `i` back (if
      dirty) and evicting it flushes from `i`. */
  lemma FlushStepDisk(bm: BufMgr, disk: Disk, f: FileId, i: nat, r: BufMgr, d: Disk, st: Status)
    requires Shaped(bm) && i < bm.numBufs && bm.table[i].file == f
    requires forall j | i < j < bm.numBufs && bm.table[j].file == f :: Key(bm.table[j]) != Key(bm.table[i])
    requires var dd := bm.table[i];
             FlushedDisk(Evict(bm, i), if dd.dirty then disk[Key(dd) := bm.pool[i]] else disk, f, i + 1, r, d, st)
    ensures FlushedDisk(bm, disk, f, i, r, d, st)
  {
    var dd := bm.table[i];
    var b := Evict(bm, i);
    var disk1 := if dd.dirty then disk[Key(dd) := bm.pool[i]] else disk;
    assert forall j | 0 <= j < bm.numBufs && j != i :: b.table[j] == bm.table[j];
    assert OnDisk(bm, disk) ==> OnDisk(b, disk1);
    forall k | k in d && !Written(bm, f, i, k)
      ensures k in disk && d[k] == disk[k]
    {
      assert !Written(b, f, i + 1, k);
    }
    if dd.dirty {
      assert !Written(b, f, i + 1, Key(dd));
    }
  }

  /** An unpinned frame of the file is written back if dirty and cleared. */
  lemma FlushStep(bm: BufMgr, disk: Disk, f: FileId, i: nat)
    requires Valid(bm) && f != NoFile && i < bm.numBufs && bm.table[i].file == f && bm.table[i].pinCnt == 0
    requires forall k | k in bm.dir && k.0 == f :: bm.dir[k] >= i
    ensures var (r, d, st) := FlushFrom(bm, disk, f, i);
            Flushed(bm, disk, f, i, r, d, st)
    decreases |bm.table| - i, 0
  {
    var dd := bm.table[i];
    var disk1 := if dd.dirty then disk[Key(dd) := bm.pool[i]] else disk;
    EvictNext(bm, f, i);
    FlushFromCorrect(Evict(bm, i), disk1, f, i + 1);
    KeyOnlyAt(bm, f, i);
    var (r, d, st) := FlushFrom(Evict(bm, i), disk1, f, i + 1);
    FlushStepFrames(bm, f, i, r, st);
    FlushStepDisk(bm, disk, f, i, r, d, st);
    assert dd.valid;
  }

  /** flushFile as a whole, for a consistent manager. */
  lemma FlushFileCorrect(bm: BufMgr, disk: Disk, f: FileId)
    requires Valid(bm) && f != NoFile
    ensures var (r, d, st) := FlushFile(bm, disk, f);
            && Flushed(bm, disk, f, 0, r, d, st)
            && (st == Done ==> forall j | 0 <= j < bm.numBufs :: r.table[j].file != f)
            && (forall k | k in d && k.0 != f :: k in disk && d[k] == disk[k])
  {
    FlushFromCorrect(bm, disk, f, 0);
    var (r, d, st) := FlushFile(bm, disk, f);
    forall k | k in d && k.0 != f
      ensures k in disk && d[k] == disk[k]
    {
      assert !Written(bm, f, 0, k);
    }
  }

  // ---------------------------------------------------------------------------
  // allocPage and disposePage
  // ---------------------------------------------------------------------------

  /** allocPage: the file hands out the new page `pageNo` with contents
      `blank`, which reaches the disk first; then a frame is claimed and the
      page installed in it and recorded in the directory. */
  method AllocPage(bm: BufMgr, disk: Disk, f: FileId, pageNo: PageNo, blank: Data)
    returns (r: BufMgr, disk': Disk, res: Result<nat, BufError>)
    requires Valid(bm) && OnDisk(bm, disk) && f != NoFile && (f, pageNo) !in disk
    ensures Valid(r) && OnDisk(r, disk')
    ensures (f, pageNo) in disk' && disk'[(f, pageNo)] == blank
    ensures res.Ok? <==> exists j | 0 <= j < bm.numBufs :: Free(bm.table[j])
    ensures res.Ok? ==> exists a :: Claimed(bm, disk[(f, pageNo) := blank], a, disk', res.value) && Valid(a)
                                    && r == Install(a, res.value, f, pageNo, blank)
    ensures res.Ok? ==> r.dir[(f, pageNo)] == res.value && r.pool[res.value] == blank
    ensures res.Err? ==> res.error == BufferExceeded && r.dir == bm.dir && disk' == disk[(f, pageNo) := blank]
    ensures res.Err? ==> && r.numBufs == bm.numBufs && r.pool == bm.pool && |r.table| == |bm.table|
                         && forall j | 0 <= j < bm.numBufs :: r.table[j] == bm.table[j].(refbit := false)
  {
    var disk1 := disk[(f, pageNo) := blank];
    var a, da, got := AllocBuf(bm, disk1);
    if got.Err? {
      r, disk', res := a, da, got;
      return;
    }
    var i := got.value;
    r, disk', res := Install(a, i, f, pageNo, blank), da, Ok(i);
  }

  /** disposePage: a resident page is dropped from its frame and from the
      directory, pinned or not and without writing it back; the page is
      deleted from its file in any case. */
  function DisposePage(bm: BufMgr, disk: Disk, f: FileId, p: PageNo): (r: (BufMgr, Disk))
    requires Valid(bm)
    ensures Valid(r.0) && (OnDisk(bm, disk) ==> OnDisk(r.0, r.1))
    ensures (f, p) !in r.0.dir && r.1 == disk - {(f, p)}
    ensures r.0.dir == bm.dir - {(f, p)} && r.0.pool == bm.pool && r.0.clockHand == bm.clockHand
    ensures (f, p) in bm.dir ==> r.0.table[bm.dir[(f, p)]] == Clear(bm.table[bm.dir[(f, p)]])
    ensures forall j | 0 <= j < bm.numBufs && ((f, p) !in bm.dir || j != bm.dir[(f, p)]) :: r.0.table[j] == bm.table[j]
  {
    if (f, p) in bm.dir then
      var i := bm.dir[(f, p)];
      EvictValid(bm, i);
      (bm.(table := bm.table[i := Clear(bm.table[i])], dir := bm.dir - {(f, p)}), disk - {(f, p)})
    else (bm, disk - {(f, p)})
  }

  /** Disposing of a page right after it was installed undoes the
      installation: the frame is cleared again and the page is gone from the
      directory and from the disk. */
  lemma InstallThenDispose(a: BufMgr, disk: Disk, i: nat, f: FileId, p: PageNo, data: Data)
    requires Valid(a) && i < a.numBufs && !a.table[i].valid && (f, p) !in a.dir && f != NoFile
    ensures DisposePage(Install(a, i, f, p, data), disk, f, p) == (a.(pool := a.pool[i := data]), disk - {(f, p)})
  {
    var b := Install(a, i, f, p, data);
    assert b.table[i := Clear(b.table[i])] == a.table;
    assert b.dir - {(f, p)} == a.dir;
  }
}
