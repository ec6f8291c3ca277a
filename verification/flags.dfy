/** Counting the set flags of a boolean array: the valid slots of a node's
    bitmap, the frames the clock sweep has noted pinned, the reference bits
    still set. */
module Flags {

  /** Number of set flags, counted over the whole array. */
  function CountTrue(bs: seq<bool>): (c: nat)
    ensures c <= |bs|
  {
    if |bs| == 0 then 0 else (if bs[0] then 1 else 0) + CountTrue(bs[1..])
  }

  /** Changing one flag changes the count by what was removed and added. */
  lemma {:induction false} CountTrueUpdate(bs: seq<bool>, j: nat, b: bool)
    requires j < |bs|
    ensures CountTrue(bs[j := b]) + (if bs[j] then 1 else 0) == CountTrue(bs) + (if b then 1 else 0)
  {
    if j == 0 {
      assert bs[j := b][1..] == bs[1..];
    } else {
      assert bs[j := b][1..] == bs[1..][j - 1 := b];
      CountTrueUpdate(bs[1..], j - 1, b);
    }
  }
}
