/** How the blocks behind the buffers grow, when they are grown, and when their contents are moved. */
module BlockSizes {
  import opened Text
  import opened Buffers
  import opened Framing

  function Power(b: nat, k: nat): nat {
    if k == 0 then 1 else b * Power(b, k - 1)
  }

  function GrownTimes(w: Window, k: nat): (w': Window)
    requires w.Valid()
    ensures w'.Valid()
    decreases k
  {
    if k == 0 then w else GrownTimes(w, k - 1).Grow()
  }

  /** 8 bytes at first, then 8 K, 64 K, 512 K, and twice as much from there on. */
  lemma {:induction false} SizesOfABlock(w: Window, k: nat)
    requires w.Valid() && w.total == ZERO_BUFFER_SIZE
    ensures GrownTimes(w, k).total
         == if k == 0 then 8 else if k <= 3 then 1024 * Power(8, k) else 512 * 1024 * Power(2, k - 3)
    decreases k
  {
    if k > 0 {
      SizesOfABlock(w, k - 1);
      assert Power(8, 1) == 8 && Power(8, 2) == 64 && Power(8, 3) == 512;
      if k > 3 {
        AtLeastOne(k - 4);
      }
    }
  }

  lemma {:induction false} AtLeastOne(k: nat)
    ensures Power(2, k) >= 1
  {
    if k > 0 {
      AtLeastOne(k - 1);
    }
  }

  /**
   recv asks for a larger block exactly when this one is full and compaction cannot help; a block that
   is not full is left as it is, and a full one that can be compacted is.
   */
  lemma ReclaimDecides(w: Window)
    requires w.Valid()
    ensures var r := w.Reclaim();
            && (w.Space() > 0 ==> r == w)
            && (w.Space() == 0 && w.off > w.total / 2 ==> r.off == 0 && r.total == w.total)
            && (w.Space() == 0 && w.off <= w.total / 2 ==> r.off == w.off && r.total == w.Grow().total)
  {
  }

  /** Append grows the block exactly if the data does not fit behind the contents. */
  lemma AppendGrowsIff(w: Window, data: string)
    requires w.Valid()
    ensures w.Append(data).total > w.total <==> |data| > w.total - (w.off + |w.contents|)
    ensures w.Append(data).total == w.total ==> w.Append(data) == w.(contents := w.contents + data)
  {
  }

  /** A record is given room for a length line of 16 bytes, however short the line is. */
  lemma AppendRecordGrowsIff(w: Window, s: string)
    requires w.Valid() && |s| < INT32_LIMIT
    ensures w.AppendRecord(s).total > w.total <==> 16 + |s| + 1 > w.total - (w.off + |w.contents|)
  {
    hide Record;
    RecordLength(s);
  }

  /** After the first read or write the contents start in the first half of the block. */
  lemma ReadAndWriteCompact(w: Window, n: nat)
    requires w.Valid() && n <= |w.contents|
    ensures var r := ReadableWindow(w);
            r.off <= r.total / 2 && (r.off == w.off || r.off == 0)
    ensures var r := WrittenWindow(w, n);
            r.off <= r.total / 2 && (r.off == w.off + n || r.off == 0)
    ensures w.total == ZERO_BUFFER_SIZE ==> ReadableWindow(w).total == WrittenWindow(w, n).total == 8 * 1024
    ensures w.total != ZERO_BUFFER_SIZE ==> ReadableWindow(w).total == WrittenWindow(w, n).total == w.total
  {
  }
}
