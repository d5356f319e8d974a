/** Where a segment's records are in the whole log, and that segments are in order. */
module Placement {
  import opened Batches
  import opened Index
  import opened Recovery
  import opened SegmentFile
  import opened StoreState
  import opened StoreSteps
  import opened Reading

  /** Segment `i`, the active one being the last. */
  function Seg(s: Store, i: nat): SegState
    requires i <= |s.front|
  {
    if i < |s.front| then s.front[i] else s.active
  }

  lemma {:induction false} FlattenConcat(a: seq<Batch>, b: seq<Batch>)
    ensures Flatten(a + b) == Flatten(a) + Flatten(b)
    decreases |b|
  {
    if b == [] {
      assert a + b == a;
    } else {
      var (init, last) := (b[..|b| - 1], b[|b| - 1]);
      assert (a + b)[..|a + b| - 1] == a + init;
      FlattenConcat(a, init);
    }
  }

  lemma {:induction false} FlatOffsets(bs: seq<Batch>, base: nat)
    requires Run(bs, base)
    ensures forall i | 0 <= i < |Flatten(bs)| :: Flatten(bs)[i].offset == base + i
    decreases |bs|
  {
    hide ValidBatch, Pos, LogPrefix, Off;
    if bs != [] {
      var (init, last) := (bs[..|bs| - 1], bs[|bs| - 1]);
      AgreeAll(init, bs);
      FlatOffsets(init, base);
      RunAt(bs, base, |bs| - 1);
      BatchOffsets(last, base + Off(bs, |bs| - 1));
      hide Run;
    }
  }

  lemma BatchOffsets(b: Batch, start: nat)
    requires ValidBatch(b, start)
    ensures forall j | 0 <= j < |b.records| :: b.records[j].offset == start + j
  {
  }

  lemma {:induction false} ChainSplit(front: seq<SegState>, i: nat) returns (rest: seq<Batch>)
    requires i < |front|
    ensures Chain(front) == Chain(front[..i]) + front[i].batches + rest
    decreases |front|
  {
    var n := |front| - 1;
    if i == n {
      rest := [];
    } else {
      var rest' := ChainSplit(front[..n], i);
      assert front[..n][..i] == front[..i];
      rest := rest' + front[n].batches;
    }
  }

  lemma FrontUpTo(front: seq<SegState>, last: nat, i: nat, lim: Limits)
    requires ValidFront(front, last, lim) && i < |front|
    ensures ValidFront(front[..i], front[i].base, lim)
    ensures NextBase(front[..i], front[i].base, 0) == NextBase(front, last, 0)
    ensures ValidSeg(front[i], lim) && ClosedSeg(front[i]) && front[i].next == NextBase(front, last, i + 1)
  {
    hide ValidSeg, ClosedSeg;
  }

  /** The history around the batches of a segment. */
  lemma SegmentIn(s: Store, i: nat, lim: Limits) returns (pre: seq<Batch>, post: seq<Batch>)
    requires ValidStore(s, lim) && i <= |s.front|
    ensures Model(s).history == pre + Seg(s, i).batches + post && Count(pre) == Seg(s, i).base
  {
    hide ValidSeg, ClosedSeg, Run, Off, Chain, ValidTail, Durable;
    if i == |s.front| {
      HistoryRun(s, lim);
      pre, post := Before(s), [];
      assert Before(s) + s.active.batches + [] == Before(s) + s.active.batches;
    } else {
      var (init, seg) := (s.front[..i], s.front[i]);
      FrontUpTo(s.front, s.active.base, i, lim);
      ChainRun(init, seg.base, lim);
      RunConcat(s.gone, Chain(init), 0);
      var rest := ChainSplit(s.front, i);
      pre, post := s.gone + Chain(init), rest + s.active.batches;
      assert s.gone + (Chain(init) + seg.batches + rest) + s.active.batches == pre + seg.batches + post;
    }
  }

  lemma SegValid(s: Store, i: nat, lim: Limits)
    requires ValidStore(s, lim) && i <= |s.front|
    ensures ValidSeg(Seg(s, i), lim)
    ensures i < |s.front| ==> Seg(s, i).next == Seg(s, i + 1).base && Seg(s, i).base < Seg(s, i).next
    ensures i == |s.front| ==> Seg(s, i).next == s.logEnd
    ensures Seg(s, i).base <= Seg(s, i).next
  {
    hide ValidSeg, Run, ValidTail, Off;
    if i < |s.front| {
      FrontUpTo(s.front, s.active.base, i, lim);
      SegRun(s.front[i], lim);
      Same(s.front[i].batches, 0, |s.front[i].batches|);
      PosZero(s.front[i].batches);
    } else {
      SegSizes(s.active, lim);
    }
  }

  /** The slice of a flat list that a run of batches fills. */
  lemma FlatSlice(pre: seq<Batch>, bs: seq<Batch>, post: seq<Batch>, all: seq<Batch>)
    requires all == pre + bs + post
    ensures Count(pre) + Count(bs) <= |Flatten(all)|
    ensures Flatten(all)[Count(pre)..Count(pre) + Count(bs)] == Flatten(bs)
  {
    hide Off;
    FlattenConcat(pre + bs, post);
    FlattenConcat(pre, bs);
    hide Flatten;
  }

  /** Every segment is where the reader expects it. */
  lemma SegmentPlaced(s: Store, i: nat, lim: Limits)
    requires ValidStore(s, lim) && i <= |s.front|
    ensures var g := Seg(s, i);
            Placed(g.log.bytes, g.size, g.base, g.entries, g.batches, Flatten(Model(s).history))
    ensures |Flatten(Model(s).history)| == s.logEnd
    ensures Seg(s, i).next == Seg(s, i).base + Count(Seg(s, i).batches)
  {
    hide ValidStore, Model, Off, Run, Sound, LogBytes, Flatten;
    var g := Seg(s, i);
    HistoryRun(s, lim);
    FlatOffsets(Model(s).history, 0);
    SegValid(s, i, lim);
    SegReads(g, lim);
    var pre, post := SegmentIn(s, i, lim);
    FlatSlice(pre, g.batches, post, Model(s).history);
  }

  lemma SegReads(s: SegState, lim: Limits)
    requires ValidSeg(s, lim)
    ensures Run(s.batches, s.base) && LogBytes(s.batches) <= s.log.bytes && s.size == Size(s.batches)
            && Sound(s.entries, s.batches)
    ensures s.next == s.base + Count(s.batches)
  {
    hide Run, Off, Pos, Sound, EntriesOn, Indexable, LogBytes;
  }

  /** Segments end in order. */
  lemma {:induction false} NextInOrder(s: Store, i: nat, j: nat, lim: Limits)
    requires ValidStore(s, lim) && i <= j <= |s.front|
    ensures Seg(s, i).next <= Seg(s, j).next && Seg(s, i).base <= Seg(s, j).base
    decreases j - i
  {
    hide ValidStore, ValidSeg;
    if i < j {
      NextInOrder(s, i, j - 1, lim);
      SegValid(s, j - 1, lim);
      SegValid(s, j, lim);
    }
  }

  lemma FirstSegment(s: Store, lim: Limits)
    requires ValidStore(s, lim)
    ensures Seg(s, 0).base == s.earliest
  {
    hide ValidSeg, Run, ValidTail, Off;
  }
}
