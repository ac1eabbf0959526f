/** The blocks the schedule grid draws between gridStart and gridEnd:
    finished time records clipped to the window, and one live block per
    running dock. */
module Schedule {
  import opened Domain

  datatype Block = Block(dockId: string, dockName: string, startMs: int, endMs: int, labelText: string, live: bool)

  function Max(a: int, b: int): int { if a >= b then a else b }
  function Min(a: int, b: int): int { if a <= b then a else b }

  /** A record shows on the grid when it ends after the window opens and
      starts before it closes. */
  predicate Overlaps(r: TimeRecord, gridStart: int, gridEnd: int)
  {
    r.endMs > gridStart && r.startMs < gridEnd
  }

  /** A record's block: its interval cut down to the window. */
  function FixedBlock(r: TimeRecord, gridStart: int, gridEnd: int): (b: Block)
    ensures b.dockId == r.dockId && b.dockName == r.dockName && b.labelText == r.labelText && !b.live
    ensures gridStart <= b.startMs && b.endMs <= gridEnd
    ensures b.startMs >= r.startMs && (b.startMs == r.startMs || b.startMs == gridStart)
    ensures b.endMs <= r.endMs && (b.endMs == r.endMs || b.endMs == gridEnd)
    ensures b.startMs <= b.endMs <==> r.startMs <= r.endMs && r.startMs <= gridEnd && gridStart <= r.endMs && gridStart <= gridEnd
  {
    Block(r.dockId, r.dockName, Max(r.startMs, gridStart), Min(r.endMs, gridEnd), r.labelText, false)
  }

  /** fixedBlocks: the overlapping records, in record order, clipped. */
  function FixedBlocks(records: seq<TimeRecord>, gridStart: int, gridEnd: int): (bs: seq<Block>)
    ensures |bs| <= |records|
    ensures forall b :: b in bs <==> exists r :: r in records && Overlaps(r, gridStart, gridEnd) && b == FixedBlock(r, gridStart, gridEnd)
    ensures forall b :: b in bs ==> !b.live
    ensures gridStart < gridEnd ==>
      forall b :: b in bs ==> gridStart <= b.startMs < gridEnd && gridStart < b.endMs <= gridEnd
    ensures gridStart < gridEnd && (forall r :: r in records ==> r.startMs <= r.endMs) ==>
      forall b :: b in bs ==> b.startMs <= b.endMs
  {
    if records == [] then []
    else
      var rest := FixedBlocks(records[1..], gridStart, gridEnd);
      assert forall r :: r in records <==> r == records[0] || r in records[1..];
      if Overlaps(records[0], gridStart, gridEnd) then [FixedBlock(records[0], gridStart, gridEnd)] + rest else rest
  }

  /** Clipping keeps the order of the records: the blocks of a + b are those
      of a followed by those of b. */
  lemma {:induction false} FixedBlocksConcat(a: seq<TimeRecord>, b: seq<TimeRecord>, gridStart: int, gridEnd: int)
    ensures FixedBlocks(a + b, gridStart, gridEnd) == FixedBlocks(a, gridStart, gridEnd) + FixedBlocks(b, gridStart, gridEnd)
    decreases |a|
  {
    if a == [] {
      assert a + b == b;
    } else {
      assert (a + b)[0] == a[0];
      assert (a + b)[1..] == a[1..] + b;
      FixedBlocksConcat(a[1..], b, gridStart, gridEnd);
    }
  }

  /** The label of a live block: the label captured at start, or a generic
      "in progress" label. */
  function RunningLabel(d: Dock): (l: string)
    ensures l != ""
    ensures d.runningLabel.Some? && d.runningLabel.value != "" ==> l == d.runningLabel.value
  {
    if d.runningLabel.Some? && d.runningLabel.value != "" then d.runningLabel.value else "작업중"
  }

  /** A dock's timer is running when startedAt is set. */
  predicate Running(d: Dock)
  {
    d.startedAt.Some?
  }

  /** A running dock's block: from its start (or the window's opening) to
      now (or the window's close). It runs forward exactly when the timer
      started by now and by the close, and the window has opened by now. */
  function LiveBlock(d: Dock, now: int, gridStart: int, gridEnd: int): (b: Block)
    requires d.startedAt.Some?
    ensures b.dockId == d.id && b.dockName == d.name && b.labelText == RunningLabel(d) && b.live
    ensures gridStart <= b.startMs && b.endMs <= gridEnd
    ensures b.startMs >= d.startedAt.value && (b.startMs == d.startedAt.value || b.startMs == gridStart)
    ensures b.endMs <= now && (b.endMs == now || b.endMs == gridEnd)
    ensures b.startMs <= b.endMs <==>
      d.startedAt.value <= now && d.startedAt.value <= gridEnd && gridStart <= now && gridStart <= gridEnd
  {
    Block(d.id, d.name, Max(d.startedAt.value, gridStart), Min(now, gridEnd), RunningLabel(d), true)
  }

  /** runningBlocks as written: every running dock whose timer started before
      the window closes, from its start (or the window's opening) to now (or
      the window's close). Nothing checks that now is past the opening, so
      the block is known to run forward only once the window has opened. */
  function RunningBlocks(docks: seq<Dock>, now: int, gridStart: int, gridEnd: int): (bs: seq<Block>)
    ensures |bs| <= |docks|
    ensures forall b :: b in bs <==> exists d :: d in docks && Running(d) && d.startedAt.value < gridEnd && b == LiveBlock(d, now, gridStart, gridEnd)
    ensures forall b :: b in bs ==> b.live
    ensures gridStart < gridEnd && gridStart <= now && (forall d :: d in docks && d.startedAt.Some? ==> d.startedAt.value <= now) ==>
      forall b :: b in bs ==> gridStart <= b.startMs <= b.endMs <= gridEnd
  {
    if docks == [] then []
    else
      var rest := RunningBlocks(docks[1..], now, gridStart, gridEnd);
      var d := docks[0];
      assert forall x :: x in docks <==> x == d || x in docks[1..];
      if Running(d) && d.startedAt.value < gridEnd then [LiveBlock(d, now, gridStart, gridEnd)] + rest else rest
  }

  /** As written, before the window opens a timer started earlier that day
      yields a block that ends before it starts. */
  lemma RunningBlockBeforeOpening()
    ensures var d := Dock("dock_1", "Dock 1", Loading, None, [], Some(1000), Some("로딩"));
      var bs := RunningBlocks([d], 2000, 5000, 10000);
      |bs| == 1 && bs[0].startMs == 5000 && bs[0].endMs == 2000 && bs[0].endMs < bs[0].startMs
  {
    var d := Dock("dock_1", "Dock 1", Loading, None, [], Some(1000), Some("로딩"));
    assert RunningBlocks([d], 2000, 5000, 10000) == [LiveBlock(d, 2000, 5000, 10000)] + RunningBlocks([], 2000, 5000, 10000);
  }

  /** runningBlocks keeps the dock order: the blocks of a + b are those of
      a followed by those of b. */
  lemma {:induction false} RunningBlocksConcat(a: seq<Dock>, b: seq<Dock>, now: int, gridStart: int, gridEnd: int)
    ensures RunningBlocks(a + b, now, gridStart, gridEnd) == RunningBlocks(a, now, gridStart, gridEnd) + RunningBlocks(b, now, gridStart, gridEnd)
    decreases |a|
  {
    if a == [] {
      assert a + b == b;
    } else {
      assert (a + b)[0] == a[0];
      assert (a + b)[1..] == a[1..] + b;
      RunningBlocksConcat(a[1..], b, now, gridStart, gridEnd);
    }
  }

  /** A single dock gives exactly one block when its timer runs and started
      before the window closes, and none otherwise. */
  lemma RunningBlocksOne(d: Dock, now: int, gridStart: int, gridEnd: int)
    ensures RunningBlocks([d], now, gridStart, gridEnd) ==
      if Running(d) && d.startedAt.value < gridEnd then [LiveBlock(d, now, gridStart, gridEnd)] else []
  {
    assert [d][1..] == [];
  }

  /** runningBlocks with the window test the record blocks use: the running
      interval [startedAt, now] must overlap the window. Every live block
      then lies inside the window and runs forward, whatever the time of day. */
  function LiveBlocks(docks: seq<Dock>, now: int, gridStart: int, gridEnd: int): (bs: seq<Block>)
    ensures |bs| <= |docks|
    ensures forall b :: b in bs <==> exists d :: d in docks && Running(d) && d.startedAt.value < gridEnd && now > gridStart && b == LiveBlock(d, now, gridStart, gridEnd)
    ensures forall b :: b in bs ==> b.live
    ensures gridStart < gridEnd && (forall d :: d in docks && d.startedAt.Some? ==> d.startedAt.value <= now) ==>
      forall b :: b in bs ==> gridStart <= b.startMs <= b.endMs <= gridEnd
  {
    if docks == [] then []
    else
      var rest := LiveBlocks(docks[1..], now, gridStart, gridEnd);
      var d := docks[0];
      assert forall x :: x in docks <==> x == d || x in docks[1..];
      if Running(d) && d.startedAt.value < gridEnd && now > gridStart then [LiveBlock(d, now, gridStart, gridEnd)] + rest else rest
  }

  /** The corrected live blocks keep the dock order too. */
  lemma {:induction false} LiveBlocksConcat(a: seq<Dock>, b: seq<Dock>, now: int, gridStart: int, gridEnd: int)
    ensures LiveBlocks(a + b, now, gridStart, gridEnd) == LiveBlocks(a, now, gridStart, gridEnd) + LiveBlocks(b, now, gridStart, gridEnd)
    decreases |a|
  {
    if a == [] {
      assert a + b == b;
    } else {
      assert (a + b)[0] == a[0];
      assert (a + b)[1..] == a[1..] + b;
      LiveBlocksConcat(a[1..], b, now, gridStart, gridEnd);
    }
  }

  /** Corrected: a single dock gives exactly one block when its running
      interval overlaps the window, and none otherwise. */
  lemma LiveBlocksOne(d: Dock, now: int, gridStart: int, gridEnd: int)
    ensures LiveBlocks([d], now, gridStart, gridEnd) ==
      if Running(d) && d.startedAt.value < gridEnd && now > gridStart then [LiveBlock(d, now, gridStart, gridEnd)] else []
  {
    assert [d][1..] == [];
  }

  /** Once the window has opened the corrected blocks are the ones as written. */
  lemma {:induction false} LiveBlocksAgree(docks: seq<Dock>, now: int, gridStart: int, gridEnd: int)
    requires now > gridStart
    ensures LiveBlocks(docks, now, gridStart, gridEnd) == RunningBlocks(docks, now, gridStart, gridEnd)
    decreases |docks|
  {
    if docks != [] {
      LiveBlocksAgree(docks[1..], now, gridStart, gridEnd);
    }
  }

  /** blocks: the record blocks, then the running ones, as written. Where
      they lie and in what order is stated by BlocksInWindow, and how they
      relate to the corrected composition by BlocksAgree and
      BlocksBeforeOpening. */
  function Blocks(docks: seq<Dock>, records: seq<TimeRecord>, now: int, gridStart: int, gridEnd: int): (bs: seq<Block>)
    ensures |bs| <= |records| + |docks|
  {
    FixedBlocks(records, gridStart, gridEnd) + RunningBlocks(docks, now, gridStart, gridEnd)
  }

  /** blocks with the corrected live blocks. */
  function CorrectedBlocks(docks: seq<Dock>, records: seq<TimeRecord>, now: int, gridStart: int, gridEnd: int): (bs: seq<Block>)
    ensures |bs| <= |records| + |docks|
  {
    FixedBlocks(records, gridStart, gridEnd) + LiveBlocks(docks, now, gridStart, gridEnd)
  }

  /** Once the window has opened, the corrected composition draws exactly
      what the program draws. */
  lemma BlocksAgree(docks: seq<Dock>, records: seq<TimeRecord>, now: int, gridStart: int, gridEnd: int)
    requires now > gridStart
    ensures CorrectedBlocks(docks, records, now, gridStart, gridEnd) == Blocks(docks, records, now, gridStart, gridEnd)
  {
    LiveBlocksAgree(docks, now, gridStart, gridEnd);
  }

  /** Record blocks that are not live followed by blocks that are: the
      first k positions are not live and the rest are. */
  lemma LiveSplit(fs: seq<Block>, ls: seq<Block>)
    requires forall b :: b in fs ==> !b.live
    requires forall b :: b in ls ==> b.live
    ensures var bs := fs + ls;
      (forall i :: 0 <= i < |fs| ==> !bs[i].live) && (forall i :: |fs| <= i < |bs| ==> bs[i].live)
  {
    var bs := fs + ls;
    forall i | 0 <= i < |bs|
      ensures i < |fs| ==> !bs[i].live
      ensures i >= |fs| ==> bs[i].live
    {
      if i < |fs| {
        assert bs[i] == fs[i] && fs[i] in fs;
      } else {
        assert bs[i] == ls[i - |fs|] && ls[i - |fs|] in ls;
      }
    }
  }

  /** Once the window has opened, every block drawn lies inside the window
      and runs forward; record blocks come first and are not live, running
      blocks follow. */
  lemma BlocksInWindow(docks: seq<Dock>, records: seq<TimeRecord>, now: int, gridStart: int, gridEnd: int)
    requires gridStart < gridEnd && gridStart < now
    requires forall d :: d in docks && d.startedAt.Some? ==> d.startedAt.value <= now
    requires forall r :: r in records ==> r.startMs <= r.endMs
    ensures forall b :: b in Blocks(docks, records, now, gridStart, gridEnd) ==>
      gridStart <= b.startMs <= b.endMs <= gridEnd
    ensures var bs := Blocks(docks, records, now, gridStart, gridEnd);
      var k := |FixedBlocks(records, gridStart, gridEnd)|;
      (forall i :: 0 <= i < k ==> !bs[i].live) && (forall i :: k <= i < |bs| ==> bs[i].live)
  {
    LiveSplit(FixedBlocks(records, gridStart, gridEnd), RunningBlocks(docks, now, gridStart, gridEnd));
  }

  /** With the corrected live blocks the same holds at any time of day,
      also before the window opens. */
  lemma CorrectedBlocksInWindow(docks: seq<Dock>, records: seq<TimeRecord>, now: int, gridStart: int, gridEnd: int)
    requires gridStart < gridEnd
    requires forall d :: d in docks && d.startedAt.Some? ==> d.startedAt.value <= now
    requires forall r :: r in records ==> r.startMs <= r.endMs
    ensures forall b :: b in CorrectedBlocks(docks, records, now, gridStart, gridEnd) ==>
      gridStart <= b.startMs <= b.endMs <= gridEnd
    ensures var bs := CorrectedBlocks(docks, records, now, gridStart, gridEnd);
      var k := |FixedBlocks(records, gridStart, gridEnd)|;
      (forall i :: 0 <= i < k ==> !bs[i].live) && (forall i :: k <= i < |bs| ==> bs[i].live)
  {
    LiveSplit(FixedBlocks(records, gridStart, gridEnd), LiveBlocks(docks, now, gridStart, gridEnd));
  }

  /** Before the window opens the drawn blocks include a backward one:
      the counterexample of RunningBlockBeforeOpening, seen through blocks. */
  lemma BlocksBeforeOpening()
    ensures var d := Dock("dock_1", "Dock 1", Loading, None, [], Some(1000), Some("로딩"));
      var bs := Blocks([d], [], 2000, 5000, 10000);
      |bs| == 1 && bs[0].endMs < bs[0].startMs && CorrectedBlocks([d], [], 2000, 5000, 10000) == []
  {
    var d := Dock("dock_1", "Dock 1", Loading, None, [], Some(1000), Some("로딩"));
    RunningBlockBeforeOpening();
    assert FixedBlocks([], 5000, 10000) == [];
    assert Blocks([d], [], 2000, 5000, 10000) == RunningBlocks([d], 2000, 5000, 10000);
    assert LiveBlocks([d], 2000, 5000, 10000) == [] + LiveBlocks([], 2000, 5000, 10000);
  }
}
