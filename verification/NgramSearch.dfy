/** The back-pointer table over the frames of a search: the index of each frame's first entry, the reset
    between frames and the choice of an exit (src/ngram_search.c and the callers in
    src/ngram_search_fwdtree.c). */
module NgramSearch {
  import Hmm
  import opened NgramTable

  /** marks[f] splits the table into the entries of frames before f and those from f on. */
  predicate MarkAt(t: Table, m: int, f: int) {
    && 0 <= m <= |t.entries|
    && forall i :: 0 <= i < |t.entries| ==> (i < m <==> t.entries[i].frame < f)
  }

  predicate MarksRight(t: Table, marks: seq<int>, frame: int) {
    0 <= frame < |marks| && forall f :: 0 <= f <= frame ==> MarkAt(t, marks[f], f)
  }

  /** What a save or a pruning leaves: the old entries' frames, and at most a new entry of this frame. */
  lemma FramesKept(ws: Words, s: Search, op: Op)
    requires OpOk(ws, s, op) && !op.NextFrame?
    ensures var t, r := s.table, Apply(ws, s, op).table;
      && |t.entries| <= |r.entries|
      && forall i :: 0 <= i < |r.entries| ==>
        r.entries[i].frame == if i < |t.entries| then t.entries[i].frame else s.frame
  {
    if op.SaveWord? && s.table.lat[op.w] != NO_BP {
      SaveMoreKeeps(ws, s.table, s.frame, op.w, op.score, op.path, op.rc);
    }
  }

  lemma FramesWithin(ws: Words, s: Search, i: nat)
    requires SearchInv(ws, s) && i < |s.table.entries|
    ensures 0 <= s.table.entries[i].frame <= s.frame
  {
    hide Remembered, PathsBack, OnePerFrame, SlicesDisjoint, LatCurrent, IsTable;
  }

  /** Saves and pruning leave the marks right: new entries are of the latest frame. */
  lemma ApplyKeepsMarks(ws: Words, s: Search, op: Op, marks: seq<int>)
    requires OpOk(ws, s, op) && !op.NextFrame? && MarksRight(s.table, marks, s.frame)
    ensures MarksRight(Apply(ws, s, op).table, marks, s.frame)
  {
    var r := Apply(ws, s, op).table;
    FramesKept(ws, s, op);
    hide Apply, OpOk;
    forall f | 0 <= f <= s.frame ensures MarkAt(r, marks[f], f) {
      assert MarkAt(s.table, marks[f], f);
    }
  }

  /** The mark set when a frame begins. */
  lemma NextMark(ws: Words, s: Search, marks: seq<int>, marks': seq<int>)
    requires SearchInv(ws, s) && IsTable(ws, s.table) && MarksRight(s.table, marks, s.frame) && s.frame + 1 < |marks'|
    requires forall f :: 0 <= f <= s.frame ==> marks'[f] == marks[f]
    requires marks'[s.frame + 1] == |s.table.entries|
    ensures MarksRight(Apply(ws, s, NextFrame).table, marks', s.frame + 1)
  {
    hide SearchInv, IsTable;
    forall i: nat | i < |s.table.entries| ensures s.table.entries[i].frame < s.frame + 1 {
      FramesWithin(ws, s, i);
    }
    forall f | 0 <= f <= s.frame + 1 ensures MarkAt(s.table, marks'[f], f) {
      assert f <= s.frame ==> MarkAt(s.table, marks[f], f);
    }
  }

  /** The words with entries of the current frame have them after its mark. */
  lemma LatAfterMark(ws: Words, s: Search, marks: seq<int>)
    requires SearchInv(ws, s) && MarksRight(s.table, marks, s.frame)
    ensures 0 <= marks[s.frame] <= |s.table.entries| && |s.table.lat| == |ws|
    ensures forall w :: 0 <= w < |ws| && s.table.lat[w] != NO_BP ==> marks[s.frame] <= s.table.lat[w]
  {
    hide Remembered, PathsBack, OnePerFrame, SlicesDisjoint, FramesOrdered;
    assert MarkAt(s.table, marks[s.frame], s.frame);
  }

  lemma MarksRise(t: Table, m: int, f: int, m': int, f': int)
    requires MarkAt(t, m, f) && MarkAt(t, m', f') && f <= f'
    ensures m <= m'
  {
    if m > 0 {
      assert t.entries[m - 1].frame < f;
    }
  }

  // ---- the exit

  /** Entry i is in the last frame before f0 that has entries. */
  predicate LastBefore(t: Table, f0: int, i: int) {
    && 0 <= i < |t.entries| && t.entries[i].frame < f0
    && forall j :: 0 <= j < |t.entries| && t.entries[j].frame < f0 ==> t.entries[j].frame <= t.entries[i].frame
  }

  /** The final word of that frame if it has one, else its best entry above the floor, the first on ties. */
  ghost predicate IsExit(t: Table, finish: nat, f0: int, exit: int) {
    if exit == NO_BP then
      forall i :: LastBefore(t, f0, i) ==> t.entries[i].wid != finish && t.entries[i].score <= Hmm.WORST_SCORE
    else
      && LastBefore(t, f0, exit)
      && (t.entries[exit].wid == finish ||
          (t.entries[exit].score > Hmm.WORST_SCORE && forall i :: LastBefore(t, f0, i) ==>
             t.entries[i].wid != finish && t.entries[i].score <= t.entries[exit].score
             && (i < exit ==> t.entries[i].score < t.entries[exit].score)))
  }

  /** There is only one. */
  lemma ExitUnique(t: Table, finish: nat, f0: int, a: int, b: int)
    requires OnePerFrame(t) && IsExit(t, finish, f0, a) && IsExit(t, finish, f0, b)
    ensures a == b
  {
    if a != NO_BP && b != NO_BP {
      assert t.entries[a].frame == t.entries[b].frame;
    }
  }

  /** The marks before f0 tell where its last frame with entries is. */
  lemma InFrame(t: Table, marks: seq<int>, frame: int, f: int, f0: int, i: int)
    requires MarksRight(t, marks, frame) && 0 <= f < f0 <= frame && 0 <= i < |t.entries|
    requires marks[f] < marks[f + 1] == marks[f0]
    ensures LastBefore(t, f0, i) <==> marks[f] <= i < marks[f0]
  {
    assert MarkAt(t, marks[f], f) && MarkAt(t, marks[f + 1], f + 1) && MarkAt(t, marks[f0], f0);
    var j := marks[f];
    assert t.entries[j].frame == f;
  }

  /** Where the scan back ends: the entries between the two marks are those of the last frame before f0. */
  ghost predicate InRange(t: Table, f0: int, first: int, end: int) {
    && 0 <= first <= end <= |t.entries|
    && forall i :: 0 <= i < |t.entries| ==> (LastBefore(t, f0, i) <==> first <= i < end)
  }

  lemma ScanFacts(t: Table, marks: seq<int>, frame: int, f: int, f0: int)
    requires MarksRight(t, marks, frame) && FramesOrdered(t, frame) && -1 <= f < f0 <= frame
    requires marks[f + 1] == marks[f0] && (f >= 0 ==> marks[f] != marks[f0])
    ensures 0 <= marks[f0] <= |t.entries|
    ensures f < 0 ==> forall i :: !LastBefore(t, f0, i)
    ensures f >= 0 ==> marks[f] < marks[f0] && InRange(t, f0, marks[f], marks[f0])
  {
    assert MarkAt(t, marks[f0], f0) && MarkAt(t, marks[f + 1], f + 1);
    if f >= 0 {
      assert MarkAt(t, marks[f], f);
      MarksRise(t, marks[f], f, marks[f + 1], f + 1);
      hide MarkAt, MarksRight, LastBefore, FramesOrdered;
      forall i | 0 <= i < |t.entries| ensures LastBefore(t, f0, i) <==> marks[f] <= i < marks[f0] {
        InFrame(t, marks, frame, f, f0, i);
      }
    }
  }

  /** What the scan of a range of entries finds. */
  ghost predicate BestOfRange(t: Table, finish: nat, first: int, end: int, exit: int)
    requires 0 <= first <= end <= |t.entries|
  {
    var es := t.entries;
    if exit == NO_BP then
      forall i :: first <= i < end ==> es[i].wid != finish && es[i].score <= Hmm.WORST_SCORE
    else
      && first <= exit < end
      && (es[exit].wid == finish ||
          (es[exit].score > Hmm.WORST_SCORE && forall i :: first <= i < end ==>
             es[i].wid != finish && es[i].score <= es[exit].score && (i < exit ==> es[i].score < es[exit].score)))
  }

  lemma RangeIsExit(t: Table, finish: nat, f0: int, first: int, end: int, exit: int)
    requires InRange(t, f0, first, end) && BestOfRange(t, finish, first, end, exit)
    ensures IsExit(t, finish, f0, exit) && (first < end <==> exists i :: LastBefore(t, f0, i))
  {
    assert forall i :: LastBefore(t, f0, i) ==> 0 <= i < |t.entries|;
    if first < end {
      assert LastBefore(t, f0, first);
    }
    hide LastBefore;
  }

  lemma NothingBefore(t: Table, finish: nat, f0: int)
    requires forall i :: !LastBefore(t, f0, i)
    ensures IsExit(t, finish, f0, NO_BP)
  {
    hide LastBefore;
  }

  lemma InRangeBounds(t: Table, f0: int, first: int, end: int)
    requires InRange(t, f0, first, end)
    ensures 0 <= first <= end <= |t.entries|
  {
  }

  class NgramState {
    const bp: BpTable
    var bpTableIdx: array<int>
    var nFrame: nat

    ghost predicate Valid()
      reads this, bp, bp.bpTable, bp.bscoreStack, bp.wordLatIdx
    {
      bp.Valid() && bpTableIdx != bp.bscoreStack && bpTableIdx != bp.wordLatIdx && nFrame < bpTableIdx.Length
    }

    constructor (ws: Words, nCi: nat, latsize: nat, nFrameAlloc: nat)
      requires latsize > 0 && nCi <= latsize * 20 && forall w :: 0 <= w < |ws| ==> ws[w].nRc <= nCi
      requires nFrameAlloc > 0
      ensures Valid() && bp.Abs() == Begin(ws).table && nFrame == 0 && bp.ws == ws && bpTableIdx[0] == 0
      ensures bp.bpTable.Length == latsize
      ensures fresh(bp) && fresh(bp.bpTable) && fresh(bp.bscoreStack) && fresh(bp.wordLatIdx) && fresh(bpTableIdx)
    {
      bp := new BpTable(ws, nCi, latsize);
      bpTableIdx := new int[nFrameAlloc](_ => 0);
      nFrame := 0;
    }

    /** ngram_search_mark_bptable. */
    method MarkBptable(frameIdx: nat)
      requires frameIdx < 2 * bpTableIdx.Length
      modifies this`bpTableIdx, bpTableIdx
      ensures bpTableIdx == old(bpTableIdx) || fresh(bpTableIdx)
      ensures old(bpTableIdx.Length) <= bpTableIdx.Length && frameIdx < bpTableIdx.Length
      ensures bpTableIdx[frameIdx] == bp.bpidx
      ensures forall f :: 0 <= f < old(bpTableIdx.Length) && f != frameIdx ==> bpTableIdx[f] == old(bpTableIdx[f])
    {
      if frameIdx >= bpTableIdx.Length {
        var wider := new int[2 * bpTableIdx.Length](_ => 0);
        forall f | 0 <= f < bpTableIdx.Length {
          wider[f] := bpTableIdx[f];
        }
        bpTableIdx := wider;
      }
      bpTableIdx[frameIdx] := bp.bpidx;
    }

    /** The end of a frame: the words that have entries of it are reset, and the next frame is marked. */
    method EndFrame()
      requires Valid() && 0 <= bpTableIdx[nFrame] <= bp.bpidx
      requires forall w :: 0 <= w < |bp.ws| && bp.wordLatIdx[w] != NO_BP ==> bpTableIdx[nFrame] <= bp.wordLatIdx[w]
      modifies this, bp.wordLatIdx, bpTableIdx
      ensures Valid() && bp.Abs() == Reset(bp.ws, old(bp.Abs())) && nFrame == old(nFrame) + 1
      ensures bpTableIdx == old(bpTableIdx) || fresh(bpTableIdx)
      ensures bpTableIdx[nFrame] == bp.bpidx
      ensures forall f :: 0 <= f < nFrame ==> bpTableIdx[f] == old(bpTableIdx[f])
    {
      hide IsTable, Reset;
      bp.ResetFrame(bpTableIdx[nFrame]);
      nFrame := nFrame + 1;
      ghost var t := bp.Abs();
      MarkBptable(nFrame);
      assert bp.Abs() == t;
    }

    /** An entry pruned from its frame. */
    method Invalidate(i: nat)
      requires Valid() && i < bp.bpidx
      modifies bp.bpTable
      ensures Valid() && bp.Abs() == Dropped(bp.ws, old(bp.Abs()), i)
    {
      bp.bpTable[i] := bp.bpTable[i].(valid := false);
      assert bp.bpTable[..bp.bpidx] == Dropped(bp.ws, old(bp.Abs()), i).entries;
    }

    /** One operation in place. */
    method Perform(op: Op, ghost s: Search)
      requires Valid() && bp.Abs() == s.table && nFrame == s.frame && OpOk(bp.ws, s, op)
      requires SearchInv(bp.ws, s) && MarksRight(s.table, bpTableIdx[..], nFrame)
      modifies this, bp, bp.bpTable, bp.bscoreStack, bp.wordLatIdx, bpTableIdx
      ensures Valid() && var r := Apply(bp.ws, s, op);
        && bp.Abs() == r.table && nFrame == r.frame
        && SearchInv(bp.ws, r) && MarksRight(r.table, bpTableIdx[..], nFrame)
      ensures bp.bpTable == old(bp.bpTable) || fresh(bp.bpTable)
      ensures bp.bscoreStack == old(bp.bscoreStack) || fresh(bp.bscoreStack)
      ensures bpTableIdx == old(bpTableIdx) || fresh(bpTableIdx)
    {
      hide SearchInv, MarksRight, IsTable, Reset, CanSave, NgramTable.Save, Dropped;
      ApplyKeepsInv(bp.ws, s, op);
      ghost var marks := bpTableIdx[..];
      if !op.NextFrame? {
        ApplyKeepsMarks(bp.ws, s, op, marks);
      }
      match op
      case NextFrame =>
        LatAfterMark(bp.ws, s, marks);
        assert forall w :: 0 <= w < |bp.ws| ==> bp.wordLatIdx[w] == s.table.lat[w];
        EndFrame();
        NextMark(bp.ws, s, marks, bpTableIdx[..]);
      case SaveWord(w, score, path, rc) =>
        bp.SaveBp(nFrame, w, score, path, rc);
      case Invalidate(i) =>
        Invalidate(i);
    }

    /** A run in place, operation by operation. */
    method ReplayFrom(ops: seq<Op>, ghost s: Search)
      requires Valid() && bp.Abs() == s.table && nFrame == s.frame && RunOk(bp.ws, s, ops)
      requires SearchInv(bp.ws, s) && MarksRight(s.table, bpTableIdx[..], nFrame)
      modifies this, bp, bp.bpTable, bp.bscoreStack, bp.wordLatIdx, bpTableIdx
      ensures Valid() && var r := ApplyAll(bp.ws, s, ops);
        bp.Abs() == r.table && nFrame == r.frame && MarksRight(r.table, bpTableIdx[..], nFrame)
      decreases |ops|
    {
      hide SearchInv, MarksRight, IsTable, Apply, OpOk, CanSave;
      if ops != [] {
        Perform(ops[0], s);
        ReplayFrom(ops[1..], Apply(bp.ws, s, ops[0]));
      }
    }

    /** Any disciplined run from the empty table. */
    method Replay(ops: seq<Op>)
      requires Valid() && bp.Abs() == Begin(bp.ws).table && nFrame == 0 && bpTableIdx[0] == 0
      requires RunOk(bp.ws, Begin(bp.ws), ops)
      modifies this, bp, bp.bpTable, bp.bscoreStack, bp.wordLatIdx, bpTableIdx
      ensures Valid() && var s := ApplyAll(bp.ws, Begin(bp.ws), ops);
        && bp.Abs() == s.table && nFrame == s.frame && SearchInv(bp.ws, s)
        && MarksRight(s.table, bpTableIdx[..], nFrame)
    {
      assert MarkAt(Begin(bp.ws).table, 0, 0);
      assert MarksRight(Begin(bp.ws).table, bpTableIdx[..], 0);
      hide SearchInv, MarksRight, IsTable, Begin, ApplyAll, RunOk;
      BeginInv(bp.ws);
      RunFromBegin(bp.ws, ops);
      ReplayFrom(ops, Begin(bp.ws));
    }

    /** The final word among the entries of a frame, or the best of them. */
    method ScanExits(first: nat, end: nat, finish: nat) returns (exit: int, best: int)
      requires bp.Valid() && first <= end <= bp.bpidx
      ensures BestOfRange(bp.Abs(), finish, first, end, exit)
      ensures exit != NO_BP ==> best == bp.Abs().entries[exit].score
    {
      exit, best := NO_BP, Hmm.WORST_SCORE;
      ghost var es := bp.Abs().entries;
      for i := first to end
        invariant exit == NO_BP ==> best == Hmm.WORST_SCORE
        invariant exit != NO_BP ==> first <= exit < i && best == es[exit].score > Hmm.WORST_SCORE
        invariant forall k :: first <= k < i ==>
          es[k].wid != finish && es[k].score <= best && (k < exit ==> es[k].score < best)
      {
        assert es[i] == bp.bpTable[i];
        if bp.bpTable[i].wid == finish || bp.bpTable[i].score > best {
          exit, best := i, bp.bpTable[i].score;
        }
        if bp.bpTable[i].wid == finish {
          return;
        }
      }
    }

    /** The scan back to the last frame before f0 with entries in it. */
    method ScanBack(f0: nat) returns (f: int)
      requires f0 < bpTableIdx.Length
      ensures -1 <= f < f0 && bpTableIdx[f + 1] == bpTableIdx[f0] && (f >= 0 ==> bpTableIdx[f] != bpTableIdx[f0])
    {
      var end := bpTableIdx[f0];
      f := f0;
      while f >= 0 && bpTableIdx[f] == end
        invariant -1 <= f <= f0 && (f < f0 ==> bpTableIdx[f + 1] == end)
      {
        f := f - 1;
      }
    }

    /** The exit among the entries of frames before f0: asserted says whether the check of the end index
        against the capacity of the table passes. */
    method ExitBefore(f0: nat, finish: nat) returns (exit: int, best: int, asserted: bool)
      requires Valid() && MarksRight(bp.Abs(), bpTableIdx[..], nFrame) && FramesOrdered(bp.Abs(), nFrame)
      requires f0 <= nFrame
      ensures IsExit(bp.Abs(), finish, f0, exit) && (exit != NO_BP ==> best == bp.Abs().entries[exit].score)
      ensures asserted <==> (exists i :: LastBefore(bp.Abs(), f0, i)) ==> bpTableIdx[f0] < bp.bpTable.Length
    {
      hide IsTable, IsExit, InRange, BestOfRange, LastBefore, MarksRight, FramesOrdered;
      exit, best, asserted := NO_BP, Hmm.WORST_SCORE, true;
      ghost var t := bp.Abs();
      var f := ScanBack(f0);
      ScanFacts(t, bpTableIdx[..], nFrame, f, f0);
      if f < 0 {
        NothingBefore(t, finish, f0);
        return;
      }
      asserted := bpTableIdx[f0] < bp.bpTable.Length;
      InRangeBounds(t, f0, bpTableIdx[f], bpTableIdx[f0]);
      exit, best := ScanExits(bpTableIdx[f], bpTableIdx[f0], finish);
      RangeIsExit(t, finish, f0, bpTableIdx[f], bpTableIdx[f0], exit);
    }

    /** ngram_search_find_exit. */
    method FindExit(frameIdx: int, finish: nat) returns (exit: int, best: int, asserted: bool)
      requires Valid() && MarksRight(bp.Abs(), bpTableIdx[..], nFrame) && FramesOrdered(bp.Abs(), nFrame)
      requires -1 <= frameIdx
      ensures nFrame == 0 ==> exit == NO_BP && asserted
      ensures nFrame > 0 ==>
        var f0 := if frameIdx == -1 || frameIdx >= nFrame then nFrame - 1 else frameIdx;
        && IsExit(bp.Abs(), finish, f0, exit) && (exit != NO_BP ==> best == bp.Abs().entries[exit].score)
        && (asserted <==> (exists i :: LastBefore(bp.Abs(), f0, i)) ==> bpTableIdx[f0] < bp.bpTable.Length)
    {
      hide IsTable, IsExit, LastBefore, MarksRight, FramesOrdered;
      if nFrame == 0 {
        return NO_BP, Hmm.WORST_SCORE, true;
      }
      exit, best, asserted := ExitBefore(if frameIdx == -1 || frameIdx >= nFrame then nFrame - 1 else frameIdx, finish);
    }
  }

  /** The table of one word saved once, in frame 0. */
  predicate IsSingle(t: Table) {
    t.entries == [Bp(0, 0, NO_BP, 0, -1, true)] && |t.lat| == 1 && -1 <= t.lat[0] <= 0
  }

  method SaveOne(ws: Words) returns (n: NgramState)
    requires ws == [Word(0, true, "a")]
    ensures fresh(n) && fresh(n.bp) && fresh(n.bp.wordLatIdx) && fresh(n.bpTableIdx) && n.bp.ws == ws
    ensures n.Valid() && IsSingle(n.bp.Abs()) && n.nFrame == 0 && n.bpTableIdx[0] == 0 && n.bp.bpTable.Length == 1
  {
    n := new NgramState(ws, 0, 1, 4);
    n.bp.SaveBp(0, 0, 0, NO_BP, 0);
  }

  lemma SingleFacts(t: Table, marks: seq<int>)
    requires IsSingle(t) && |marks| > 2 && marks[0] == 0 && marks[1] == 1 && marks[2] == 1
    ensures MarksRight(t, marks, 2) && FramesOrdered(t, 2) && LastBefore(t, 1, 0)
  {
    assert MarkAt(t, 0, 0) && MarkAt(t, 1, 1) && MarkAt(t, 1, 2);
  }

  /** A table that is exactly full when the exit is looked for fails the check of the end index. */
  method FullTableTrips(finish: nat) returns (asserted: bool)
    ensures !asserted
  {
    var n := SaveOne([Word(0, true, "a")]);
    hide IsTable, MarksRight, FramesOrdered, LastBefore, IsExit;
    assert n.bp.bpidx == |n.bp.Abs().entries|;
    n.EndFrame();
    assert IsSingle(n.bp.Abs());
    n.EndFrame();
    assert IsSingle(n.bp.Abs());
    SingleFacts(n.bp.Abs(), n.bpTableIdx[..]);
    var exit, best;
    exit, best, asserted := n.FindExit(-1, finish);
  }
}
