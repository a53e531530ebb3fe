/** The back-pointer table of the n-gram search and its score stack (src/ngram_search.c).

    One entry per word and frame; a word of several phones owns a slice of the score stack, one slot per
    right-context senone sequence. */
module NgramTable {
  import Hmm
  import HypString

  const NO_BP: int := -1

  /** `spoken` words appear in hypotheses, spelled `base`; `nRc` is the number of right-context sequences of
      the last two phones, 0 for a word of one phone. */
  datatype Word = Word(nRc: nat, spoken: bool, base: string)
  type Words = seq<Word>

  datatype Bp = Bp(frame: int, wid: nat, bp: int, score: int, sIdx: int, valid: bool)

  datatype Table = Table(entries: seq<Bp>, stack: seq<int>, lat: seq<int>)

  predicate IsTable(ws: Words, t: Table) {
    && |t.lat| == |ws|
    && (forall i :: 0 <= i < |t.entries| ==> t.entries[i].wid < |ws|)
    && (forall w :: 0 <= w < |ws| ==> -1 <= t.lat[w] < |t.entries|)
    && (forall w :: 0 <= w < |ws| && t.lat[w] != NO_BP ==> t.entries[t.lat[w]].wid == w)
    && (forall i :: 0 <= i < |t.entries| ==>
         if ws[t.entries[i].wid].nRc == 0 then t.entries[i].sIdx == -1
         else 0 <= t.entries[i].sIdx && t.entries[i].sIdx + ws[t.entries[i].wid].nRc <= |t.stack|)
  }

  /** What the source demands: a word of the dictionary, a right context it models, and a path that is
      already in the table. */
  predicate CanSave(ws: Words, t: Table, w: nat, path: int, rc: nat) {
    && IsTable(ws, t) && w < |ws| && -1 <= path < |t.entries|
    && (if ws[w].nRc == 0 then rc == 0 else rc < ws[w].nRc)
    && (t.lat[w] != NO_BP ==> path != NO_BP && path != t.lat[w])
  }

  /** ngram_search_save_bp. */
  function Save(ws: Words, t: Table, frame: int, w: nat, score: int, path: int, rc: nat): (r: Table)
    requires CanSave(ws, t, w, path, rc)
    ensures IsTable(ws, r)
  {
    if t.lat[w] != NO_BP then
      var bp := t.lat[w];
      var e := t.entries[bp];
      Table(if e.score < score then t.entries[bp := e.(score := score, bp := path)] else t.entries,
            if e.sIdx != -1 then t.stack[e.sIdx + rc := score] else t.stack, t.lat)
    else
      var n := ws[w].nRc;
      var slice := seq(n, k => if k == rc then score else Hmm.WORST_SCORE);
      Table(t.entries + [Bp(frame, w, path, score, if n == 0 then -1 else |t.stack|, true)],
            t.stack + slice, t.lat[w := |t.entries|])
  }

  /** The callers' reset at the end of a frame: the words with entries of this frame have none in the next. */
  function Reset(ws: Words, t: Table): (r: Table)
    requires IsTable(ws, t)
    ensures IsTable(ws, r)
  {
    t.(lat := seq(|t.lat|, _ => NO_BP))
  }

  /** An entry pruned to keep the number of words per frame down stays in the table, marked. */
  function Dropped(ws: Words, t: Table, i: nat): (r: Table)
    requires IsTable(ws, t) && i < |t.entries|
    ensures IsTable(ws, r)
  {
    t.(entries := t.entries[i := t.entries[i].(valid := false)])
  }

  // ---- what the table remembers of every save

  datatype Key = Key(frame: int, wid: nat, rc: nat)
  datatype Saved = Saved(score: int, path: int)
  type Log = map<Key, Saved>

  function SlotScore(log: Log, k: Key): int {
    if k in log then log[k].score else Hmm.WORST_SCORE
  }

  function RcCount(ws: Words, w: nat): nat
    requires w < |ws|
  {
    if ws[w].nRc == 0 then 1 else ws[w].nRc
  }

  predicate HasSaved(log: Log, k: Key, score: int, path: int) {
    k in log && log[k] == Saved(score, path)
  }

  /** (score, path) is the best of the saves of a word in a frame, over its n right contexts. */
  ghost predicate BestIn(log: Log, frame: int, w: nat, n: nat, score: int, path: int) {
    && (exists rc :: 0 <= rc < n && HasSaved(log, Key(frame, w, rc), score, path))
    && (forall rc :: 0 <= rc < n ==> SlotScore(log, Key(frame, w, rc)) <= score)
  }

  /** Slot by slot, what was saved for each right context. */
  predicate SlotsIn(log: Log, frame: int, w: nat, slice: seq<int>) {
    forall rc :: 0 <= rc < |slice| ==> slice[rc] == SlotScore(log, Key(frame, w, rc))
  }

  function Slice(ws: Words, t: Table, i: nat): (r: seq<int>)
    requires IsTable(ws, t) && i < |t.entries|
    ensures |r| == ws[t.entries[i].wid].nRc
  {
    var e := t.entries[i];
    if e.sIdx == -1 then [] else t.stack[e.sIdx..e.sIdx + ws[e.wid].nRc]
  }

  /** Entry i holds the best save of its word and frame, with that save's path, and its slice holds what was
      saved for each right context. */
  ghost predicate Remembered(ws: Words, t: Table, log: Log, i: nat)
    requires IsTable(ws, t) && i < |t.entries|
  {
    var e := t.entries[i];
    BestIn(log, e.frame, e.wid, RcCount(ws, e.wid), e.score, e.bp) && SlotsIn(log, e.frame, e.wid, Slice(ws, t, i))
  }

  predicate PathsBack(t: Table) {
    forall i {:trigger t.entries[i].bp} :: 0 <= i < |t.entries| ==>
      -1 <= t.entries[i].bp < i && (t.entries[i].bp >= 0 ==> t.entries[t.entries[i].bp].frame < t.entries[i].frame)
  }

  predicate FramesOrdered(t: Table, frame: int) {
    && (forall i, j :: 0 <= i < j < |t.entries| ==> t.entries[i].frame <= t.entries[j].frame)
    && (forall i :: 0 <= i < |t.entries| ==> 0 <= t.entries[i].frame <= frame)
  }

  /** At most one entry per word and frame. */
  predicate OnePerFrame(t: Table) {
    forall i, j :: 0 <= i < j < |t.entries| && t.entries[i].wid == t.entries[j].wid ==>
      t.entries[i].frame != t.entries[j].frame
  }

  predicate SlicesDisjoint(ws: Words, t: Table)
    requires IsTable(ws, t)
  {
    forall i, j :: 0 <= i < j < |t.entries| && t.entries[i].sIdx != -1 && t.entries[j].sIdx != -1 ==>
      t.entries[i].sIdx + ws[t.entries[i].wid].nRc <= t.entries[j].sIdx
  }

  /** The index by word names the entries of the current frame. */
  predicate LatCurrent(ws: Words, t: Table, frame: int)
    requires IsTable(ws, t)
  {
    && (forall w :: 0 <= w < |ws| && t.lat[w] != NO_BP ==> t.entries[t.lat[w]].frame == frame)
    && (forall i :: 0 <= i < |t.entries| && t.entries[i].frame == frame ==> t.lat[t.entries[i].wid] == i)
  }

  ghost predicate HasEntry(t: Table, k: Key) {
    exists i :: 0 <= i < |t.entries| && t.entries[i].wid == k.wid && t.entries[i].frame == k.frame
  }

  predicate Structure(ws: Words, t: Table, frame: int) {
    && frame >= 0 && IsTable(ws, t) && PathsBack(t) && FramesOrdered(t, frame) && OnePerFrame(t)
    && SlicesDisjoint(ws, t) && LatCurrent(ws, t, frame)
  }

  ghost predicate Inv(ws: Words, t: Table, log: Log, frame: int) {
    && Structure(ws, t, frame)
    && (forall i :: 0 <= i < |t.entries| ==> Remembered(ws, t, log, i))
    && (forall k :: k in log ==> k.frame <= frame && HasEntry(t, k))
  }

  /** The caller's discipline: a path from an earlier frame, each word and right context once a frame, and
      a score that is not the floor. */
  predicate Disciplined(ws: Words, t: Table, log: Log, frame: int, w: nat, score: int, path: int, rc: nat) {
    && CanSave(ws, t, w, path, rc) && score > Hmm.WORST_SCORE
    && (path >= 0 ==> t.entries[path].frame < frame)
    && Key(frame, w, rc) !in log
  }

  // ---- the log: one more save

  lemma BestKept(log: Log, key: Key, saved: Saved, frame: int, w: nat, n: nat, score: int, path: int)
    requires BestIn(log, frame, w, n, score, path) && (key.frame != frame || key.wid != w)
    ensures BestIn(log[key := saved], frame, w, n, score, path)
  {
    var rc :| 0 <= rc < n && HasSaved(log, Key(frame, w, rc), score, path);
    assert HasSaved(log[key := saved], Key(frame, w, rc), score, path);
  }

  /** A further save replaces the best when it is strictly better. */
  lemma BestUpdated(log: Log, key: Key, saved: Saved, n: nat, score: int, path: int)
    requires BestIn(log, key.frame, key.wid, n, score, path) && key.rc < n && key !in log
    ensures var log' := log[key := saved];
      if score < saved.score then BestIn(log', key.frame, key.wid, n, saved.score, saved.path)
      else BestIn(log', key.frame, key.wid, n, score, path)
  {
    var log' := log[key := saved];
    var rc :| 0 <= rc < n && HasSaved(log, Key(key.frame, key.wid, rc), score, path);
    assert HasSaved(log', Key(key.frame, key.wid, rc), score, path);
    assert HasSaved(log', Key(key.frame, key.wid, key.rc), saved.score, saved.path);
    forall c | 0 <= c < n ensures SlotScore(log', Key(key.frame, key.wid, c)) <= Hmm.Max(score, saved.score) {
      assert SlotScore(log, Key(key.frame, key.wid, c)) <= score;
    }
  }

  lemma BestFirst(log: Log, key: Key, saved: Saved, n: nat)
    requires key.rc < n && saved.score > Hmm.WORST_SCORE && forall c: nat :: Key(key.frame, key.wid, c) !in log
    ensures BestIn(log[key := saved], key.frame, key.wid, n, saved.score, saved.path)
  {
    assert HasSaved(log[key := saved], Key(key.frame, key.wid, key.rc), saved.score, saved.path);
  }

  lemma EntryMeansLat(ws: Words, t: Table, frame: int, k: Key)
    requires Structure(ws, t, frame) && k.wid < |ws| && k.frame == frame
    ensures HasEntry(t, k) ==> t.lat[k.wid] != NO_BP
  {
  }

  lemma NewKeyIsFirst(ws: Words, t: Table, log: Log, frame: int, w: nat, c: nat)
    requires Inv(ws, t, log, frame) && w < |ws| && t.lat[w] == NO_BP
    ensures Key(frame, w, c) !in log
  {
    hide Remembered, Structure;
    EntryMeansLat(ws, t, frame, Key(frame, w, c));
  }

  // ---- the first save of a word in a frame

  lemma SaveNewRemembered(ws: Words, t: Table, log: Log, frame: int, w: nat, score: int, path: int, rc: nat, i: nat)
    requires Inv(ws, t, log, frame) && Disciplined(ws, t, log, frame, w, score, path, rc) && t.lat[w] == NO_BP
    requires i <= |t.entries|
    ensures Remembered(ws, Save(ws, t, frame, w, score, path, rc), log[Key(frame, w, rc) := Saved(score, path)], i)
  {
    hide BestIn, PathsBack, FramesOrdered, OnePerFrame, SlicesDisjoint;
    var key, saved := Key(frame, w, rc), Saved(score, path);
    var r := Save(ws, t, frame, w, score, path, rc);
    if i < |t.entries| {
      assert Remembered(ws, t, log, i);
      var e := t.entries[i];
      assert e.frame != frame || e.wid != w;
      BestKept(log, key, saved, e.frame, e.wid, RcCount(ws, e.wid), e.score, e.bp);
      assert Slice(ws, r, i) == Slice(ws, t, i);
    } else {
      forall c: nat ensures Key(frame, w, c) !in log {
        NewKeyIsFirst(ws, t, log, frame, w, c);
      }
      BestFirst(log, key, saved, RcCount(ws, w));
    }
  }

  lemma SaveNewPaths(ws: Words, t: Table, frame: int, w: nat, score: int, path: int, rc: nat)
    requires Structure(ws, t, frame) && CanSave(ws, t, w, path, rc) && t.lat[w] == NO_BP
    requires path >= 0 ==> t.entries[path].frame < frame
    ensures var r := Save(ws, t, frame, w, score, path, rc);
      PathsBack(r) && FramesOrdered(r, frame) && OnePerFrame(r)
  {
    hide SlicesDisjoint;
  }

  lemma SaveNewSlices(ws: Words, t: Table, frame: int, w: nat, score: int, path: int, rc: nat)
    requires Structure(ws, t, frame) && CanSave(ws, t, w, path, rc) && t.lat[w] == NO_BP
    ensures var r := Save(ws, t, frame, w, score, path, rc); SlicesDisjoint(ws, r) && LatCurrent(ws, r, frame)
  {
    hide PathsBack, FramesOrdered, OnePerFrame;
  }

  // ---- a further right context of the same word in the frame

  lemma SaveMoreSame(ws: Words, t: Table, log: Log, frame: int, w: nat, score: int, path: int, rc: nat)
    requires Inv(ws, t, log, frame) && Disciplined(ws, t, log, frame, w, score, path, rc) && t.lat[w] != NO_BP
    ensures var r, log' := Save(ws, t, frame, w, score, path, rc), log[Key(frame, w, rc) := Saved(score, path)];
      Remembered(ws, r, log', t.lat[w])
  {
    hide BestIn, PathsBack, FramesOrdered, OnePerFrame, SlicesDisjoint;
    var i := t.lat[w];
    assert Remembered(ws, t, log, i);
    var e := t.entries[i];
    BestUpdated(log, Key(frame, w, rc), Saved(score, path), RcCount(ws, w), e.score, e.bp);
    var r := Save(ws, t, frame, w, score, path, rc);
    assert e.sIdx != -1 ==> Slice(ws, r, i) == Slice(ws, t, i)[rc := score];
  }

  lemma SaveMoreOther(ws: Words, t: Table, log: Log, frame: int, w: nat, score: int, path: int, rc: nat, i: nat)
    requires Inv(ws, t, log, frame) && Disciplined(ws, t, log, frame, w, score, path, rc) && t.lat[w] != NO_BP
    requires i < |t.entries| && i != t.lat[w]
    ensures var r, log' := Save(ws, t, frame, w, score, path, rc), log[Key(frame, w, rc) := Saved(score, path)];
      Remembered(ws, r, log', i)
  {
    hide BestIn, PathsBack, FramesOrdered;
    assert Remembered(ws, t, log, i);
    var r := Save(ws, t, frame, w, score, path, rc);
    var bp := t.lat[w];
    var e, d := t.entries[i], t.entries[bp];
    assert e.frame != frame || e.wid != w;
    BestKept(log, Key(frame, w, rc), Saved(score, path), e.frame, e.wid, RcCount(ws, e.wid), e.score, e.bp);
    assert e.sIdx != -1 && d.sIdx != -1 ==> e.sIdx + ws[e.wid].nRc <= d.sIdx || d.sIdx + ws[d.wid].nRc <= e.sIdx;
    assert Slice(ws, r, i) == Slice(ws, t, i);
  }

  /** What a further save writes. */
  lemma SaveMoreIs(ws: Words, t: Table, frame: int, w: nat, score: int, path: int, rc: nat)
    requires CanSave(ws, t, w, path, rc) && t.lat[w] != NO_BP
    ensures 0 <= t.lat[w] < |t.entries|
    ensures var r, bp := Save(ws, t, frame, w, score, path, rc), t.lat[w];
      var e := t.entries[bp];
      && (e.sIdx != -1 ==> 0 <= e.sIdx && e.sIdx + rc < |t.stack|)
      && r.entries == (if e.score < score then t.entries[bp := e.(score := score, bp := path)] else t.entries)
      && r.stack == (if e.sIdx != -1 then t.stack[e.sIdx + rc := score] else t.stack) && r.lat == t.lat
  {
  }

  /** A further save touches scores, paths and slots only. */
  lemma SaveMoreKeeps(ws: Words, t: Table, frame: int, w: nat, score: int, path: int, rc: nat)
    requires CanSave(ws, t, w, path, rc) && t.lat[w] != NO_BP
    ensures var r := Save(ws, t, frame, w, score, path, rc);
      && |r.entries| == |t.entries| && r.lat == t.lat
      && forall i :: 0 <= i < |r.entries| ==>
        && r.entries[i].frame == t.entries[i].frame && r.entries[i].wid == t.entries[i].wid
        && r.entries[i].sIdx == t.entries[i].sIdx
        && (r.entries[i].bp == t.entries[i].bp || (i == t.lat[w] && r.entries[i].bp == path))
  {
  }

  lemma SaveMoreStructure(ws: Words, t: Table, frame: int, w: nat, score: int, path: int, rc: nat)
    requires Structure(ws, t, frame) && CanSave(ws, t, w, path, rc) && t.lat[w] != NO_BP
    requires path >= 0 ==> t.entries[path].frame < frame
    ensures Structure(ws, Save(ws, t, frame, w, score, path, rc), frame)
  {
    hide Save;
    SaveMoreKeeps(ws, t, frame, w, score, path, rc);
    assert path < t.lat[w];
  }

  /** Every disciplined save keeps all invariants of the table. */
  lemma SaveKeepsInv(ws: Words, t: Table, log: Log, frame: int, w: nat, score: int, path: int, rc: nat)
    requires Inv(ws, t, log, frame) && Disciplined(ws, t, log, frame, w, score, path, rc)
    ensures Inv(ws, Save(ws, t, frame, w, score, path, rc), log[Key(frame, w, rc) := Saved(score, path)], frame)
  {
    hide Remembered, PathsBack, FramesOrdered, OnePerFrame, SlicesDisjoint, LatCurrent;
    var key := Key(frame, w, rc);
    var r, log' := Save(ws, t, frame, w, score, path, rc), log[key := Saved(score, path)];
    if t.lat[w] == NO_BP {
      SaveNewPaths(ws, t, frame, w, score, path, rc);
      SaveNewSlices(ws, t, frame, w, score, path, rc);
      forall i | 0 <= i < |r.entries| ensures Remembered(ws, r, log', i) {
        SaveNewRemembered(ws, t, log, frame, w, score, path, rc, i);
      }
    } else {
      SaveMoreStructure(ws, t, frame, w, score, path, rc);
      SaveMoreSame(ws, t, log, frame, w, score, path, rc);
      forall i | 0 <= i < |r.entries| ensures Remembered(ws, r, log', i) {
        if i != t.lat[w] {
          SaveMoreOther(ws, t, log, frame, w, score, path, rc, i);
        }
      }
    }
    forall k | k in log' ensures k.frame <= frame && HasEntry(r, k) {
      EntryStays(ws, t, log, frame, w, score, path, rc, k);
    }
  }

  lemma EntryStays(ws: Words, t: Table, log: Log, frame: int, w: nat, score: int, path: int, rc: nat, k: Key)
    requires Inv(ws, t, log, frame) && Disciplined(ws, t, log, frame, w, score, path, rc)
    requires k in log || k == Key(frame, w, rc)
    ensures k.frame <= frame && HasEntry(Save(ws, t, frame, w, score, path, rc), k)
  {
    hide Remembered, PathsBack, FramesOrdered, OnePerFrame, SlicesDisjoint;
    var r := Save(ws, t, frame, w, score, path, rc);
    if k in log {
      var i :| 0 <= i < |t.entries| && t.entries[i].wid == k.wid && t.entries[i].frame == k.frame;
      assert r.entries[i].wid == k.wid && r.entries[i].frame == k.frame;
    } else {
      var i := if t.lat[w] == NO_BP then |t.entries| else t.lat[w];
      assert r.entries[i].wid == w && r.entries[i].frame == frame;
    }
  }

  lemma ResetStructure(ws: Words, t: Table, frame: int)
    requires Structure(ws, t, frame)
    ensures Structure(ws, Reset(ws, t), frame + 1)
  {
    hide IsTable, PathsBack, FramesOrdered, OnePerFrame, SlicesDisjoint, LatCurrent;
    SameSlices(ws, t);
    SamePaths(t, Reset(ws, t), frame);
    NoneCurrent(ws, t, frame);
  }

  lemma SamePaths(t: Table, r: Table, frame: int)
    requires r.entries == t.entries && PathsBack(t) && FramesOrdered(t, frame) && OnePerFrame(t)
    ensures PathsBack(r) && FramesOrdered(r, frame + 1) && OnePerFrame(r)
  {
  }

  lemma NoneCurrent(ws: Words, t: Table, frame: int)
    requires IsTable(ws, t) && FramesOrdered(t, frame)
    ensures LatCurrent(ws, Reset(ws, t), frame + 1)
  {
  }

  lemma SameSlices(ws: Words, t: Table)
    requires IsTable(ws, t) && SlicesDisjoint(ws, t)
    ensures SlicesDisjoint(ws, Reset(ws, t))
  {
  }

  /** Starting the next frame keeps them too. */
  lemma ResetKeepsInv(ws: Words, t: Table, log: Log, frame: int)
    requires Inv(ws, t, log, frame)
    ensures Inv(ws, Reset(ws, t), log, frame + 1)
  {
    hide Remembered, PathsBack, FramesOrdered, OnePerFrame, SlicesDisjoint, LatCurrent;
    var r := Reset(ws, t);
    ResetStructure(ws, t, frame);
    forall i | 0 <= i < |r.entries| ensures Remembered(ws, r, log, i) {
      SameMemory(ws, t, log, i);
    }
    forall k | k in log ensures HasEntry(r, k) {
      var i :| 0 <= i < |t.entries| && t.entries[i].wid == k.wid && t.entries[i].frame == k.frame;
      assert r.entries[i].wid == k.wid;
    }
  }

  lemma SameMemory(ws: Words, t: Table, log: Log, i: nat)
    requires IsTable(ws, t) && i < |t.entries| && Remembered(ws, t, log, i)
    ensures Remembered(ws, Reset(ws, t), log, i)
  {
    hide BestIn, SlotsIn;
    assert Slice(ws, Reset(ws, t), i) == Slice(ws, t, i);
  }

  lemma DroppedStructure(ws: Words, t: Table, frame: int, i: nat)
    requires Structure(ws, t, frame) && i < |t.entries|
    ensures Structure(ws, Dropped(ws, t, i), frame)
  {
    var r := Dropped(ws, t, i);
    forall k | 0 <= k < |t.entries| ensures r.entries[k].(valid := true) == t.entries[k].(valid := true) {
    }
    hide Dropped, IsTable;
    assert SlicesDisjoint(ws, r) && LatCurrent(ws, r, frame) by { hide PathsBack, FramesOrdered, OnePerFrame; }
    assert PathsBack(r) by { hide FramesOrdered, OnePerFrame, SlicesDisjoint, LatCurrent; }
    assert FramesOrdered(r, frame) by { hide PathsBack, OnePerFrame, SlicesDisjoint, LatCurrent; }
    assert OnePerFrame(r) by { hide PathsBack, FramesOrdered, SlicesDisjoint, LatCurrent; }
    hide PathsBack, FramesOrdered, OnePerFrame, SlicesDisjoint, LatCurrent;
  }

  /** Marking an entry keeps them too. */
  lemma DroppedKeepsInv(ws: Words, t: Table, log: Log, frame: int, i: nat)
    requires Inv(ws, t, log, frame) && i < |t.entries|
    ensures Inv(ws, Dropped(ws, t, i), log, frame)
  {
    hide PathsBack, FramesOrdered, OnePerFrame, SlicesDisjoint, LatCurrent, BestIn, SlotsIn;
    var r := Dropped(ws, t, i);
    DroppedStructure(ws, t, frame, i);
    forall k | 0 <= k < |r.entries| ensures Remembered(ws, r, log, k) {
      assert Remembered(ws, t, log, k);
      assert Slice(ws, r, k) == Slice(ws, t, k);
    }
    forall k | k in log ensures HasEntry(r, k) {
      var j :| 0 <= j < |t.entries| && t.entries[j].wid == k.wid && t.entries[j].frame == k.frame;
      assert r.entries[j].wid == k.wid;
    }
  }

  /** The score of an entry of a multi-phone word is the maximum of its slice. */
  lemma ScoreIsSliceMax(ws: Words, t: Table, log: Log, frame: int, i: nat)
    requires Inv(ws, t, log, frame) && i < |t.entries| && ws[t.entries[i].wid].nRc > 0
    ensures t.entries[i].score in Slice(ws, t, i)
    ensures forall x :: x in Slice(ws, t, i) ==> x <= t.entries[i].score
  {
    hide PathsBack, FramesOrdered, OnePerFrame, SlicesDisjoint, LatCurrent;
    assert Remembered(ws, t, log, i);
    var e := t.entries[i];
    var rc :| 0 <= rc < RcCount(ws, e.wid) && HasSaved(log, Key(e.frame, e.wid, rc), e.score, e.bp);
    assert Slice(ws, t, i)[rc] == e.score;
  }

  // ---- whole runs

  /** Invalidate is what pruning to a number of words per frame does to an entry. */
  datatype Op = NextFrame | SaveWord(w: nat, score: int, path: int, rc: nat) | Invalidate(i: nat)

  datatype Search = Search(table: Table, log: Log, frame: int)

  function Begin(ws: Words): (s: Search)
    ensures IsTable(ws, s.table)
  {
    Search(Table([], [], seq(|ws|, _ => NO_BP)), map[], 0)
  }

  /** A save must be disciplined, an entry to invalidate must be there; a new frame may start at any time. */
  predicate OpOk(ws: Words, s: Search, op: Op) {
    && IsTable(ws, s.table)
    && (op.SaveWord? ==> Disciplined(ws, s.table, s.log, s.frame, op.w, op.score, op.path, op.rc))
    && (op.Invalidate? ==> op.i < |s.table.entries|)
  }

  function Apply(ws: Words, s: Search, op: Op): (r: Search)
    requires OpOk(ws, s, op)
    ensures IsTable(ws, r.table)
  {
    match op
    case NextFrame => Search(Reset(ws, s.table), s.log, s.frame + 1)
    case SaveWord(w, score, path, rc) =>
      Search(Save(ws, s.table, s.frame, w, score, path, rc), s.log[Key(s.frame, w, rc) := Saved(score, path)], s.frame)
    case Invalidate(i) => s.(table := Dropped(ws, s.table, i))
  }

  predicate RunOk(ws: Words, s: Search, ops: seq<Op>)
    decreases |ops|
  {
    ops == [] || (OpOk(ws, s, ops[0]) && RunOk(ws, Apply(ws, s, ops[0]), ops[1..]))
  }

  function ApplyAll(ws: Words, s: Search, ops: seq<Op>): (r: Search)
    requires RunOk(ws, s, ops)
    decreases |ops|
  {
    if ops == [] then s else ApplyAll(ws, Apply(ws, s, ops[0]), ops[1..])
  }

  /** All saves are above the floor, as the callers' discipline has it. */
  ghost predicate AboveWorst(log: Log) {
    forall k :: k in log ==> log[k].score > Hmm.WORST_SCORE
  }

  lemma {:induction false} RunSavesAbove(ws: Words, s: Search, ops: seq<Op>)
    requires RunOk(ws, s, ops) && AboveWorst(s.log)
    ensures AboveWorst(ApplyAll(ws, s, ops).log)
    decreases |ops|
  {
    hide Save, Dropped, IsTable;
    if ops != [] {
      RunSavesAbove(ws, Apply(ws, s, ops[0]), ops[1..]);
    }
  }

  /** An entry is valid from its first save until it is invalidated. */
  lemma {:induction false} ValidExactly(ws: Words, s: Search, ops: seq<Op>, i: nat)
    requires RunOk(ws, s, ops) && i < |ApplyAll(ws, s, ops).table.entries|
    ensures ApplyAll(ws, s, ops).table.entries[i].valid <==>
      Invalidate(i) !in ops && (i < |s.table.entries| ==> s.table.entries[i].valid)
    decreases |ops|
  {
    if ops != [] {
      ValidExactly(ws, Apply(ws, s, ops[0]), ops[1..], i);
      hide IsTable, Disciplined;
      assert Invalidate(i) in ops <==> ops[0] == Invalidate(i) || Invalidate(i) in ops[1..];
    }
  }

  /** The frame of a search is the number of frames that were ended. */
  function FramesIn(ops: seq<Op>): nat {
    if ops == [] then 0 else (if ops[0].NextFrame? then 1 else 0) + FramesIn(ops[1..])
  }

  lemma {:induction false} FrameIsCount(ws: Words, s: Search, ops: seq<Op>)
    requires RunOk(ws, s, ops)
    ensures ApplyAll(ws, s, ops).frame == s.frame + FramesIn(ops)
    decreases |ops|
  {
    if ops != [] {
      hide IsTable, Disciplined, Save, Dropped;
      FrameIsCount(ws, Apply(ws, s, ops[0]), ops[1..]);
    }
  }

  ghost predicate SearchInv(ws: Words, s: Search) {
    Inv(ws, s.table, s.log, s.frame)
  }

  lemma ApplyKeepsInv(ws: Words, s: Search, op: Op)
    requires OpOk(ws, s, op) && SearchInv(ws, s)
    ensures SearchInv(ws, Apply(ws, s, op))
  {
    hide Inv, Disciplined;
    match op
    case NextFrame => ResetKeepsInv(ws, s.table, s.log, s.frame);
    case SaveWord(w, score, path, rc) => SaveKeepsInv(ws, s.table, s.log, s.frame, w, score, path, rc);
    case Invalidate(i) => DroppedKeepsInv(ws, s.table, s.log, s.frame, i);
  }

  /** The table invariant over any run of disciplined saves and frame changes. */
  lemma {:induction false} RunKeepsInv(ws: Words, s: Search, ops: seq<Op>)
    requires SearchInv(ws, s) && RunOk(ws, s, ops)
    ensures SearchInv(ws, ApplyAll(ws, s, ops))
    decreases |ops|
  {
    if ops != [] {
      hide SearchInv, Apply, OpOk;
      ApplyKeepsInv(ws, s, ops[0]);
      RunKeepsInv(ws, Apply(ws, s, ops[0]), ops[1..]);
    }
  }

  lemma BeginInv(ws: Words)
    ensures SearchInv(ws, Begin(ws))
  {
  }

  /** Hence at every moment of a search that starts with an empty table. */
  lemma RunFromBegin(ws: Words, ops: seq<Op>)
    requires RunOk(ws, Begin(ws), ops)
    ensures SearchInv(ws, ApplyAll(ws, Begin(ws), ops)) && ApplyAll(ws, Begin(ws), ops).frame == FramesIn(ops)
  {
    FrameIsCount(ws, Begin(ws), ops);
    BeginInv(ws);
    RunKeepsInv(ws, Begin(ws), ops);
  }

  /** When a frame has just begun every entry is of an earlier one. */
  lemma FreshFrame(ws: Words, s: Search)
    requires SearchInv(ws, s) && forall w :: 0 <= w < |ws| ==> s.table.lat[w] == NO_BP
    ensures FramesOrdered(s.table, s.frame - 1)
  {
    hide Remembered, PathsBack, OnePerFrame, SlicesDisjoint;
    assert forall i :: 0 <= i < |s.table.entries| ==> s.table.entries[i].frame != s.frame;
  }

  // ---- backtraces

  /** The entries on the way back from bp, first to last. */
  function Chain(t: Table, bp: int): (r: seq<nat>)
    requires PathsBack(t) && -1 <= bp < |t.entries|
    ensures forall k :: 0 <= k < |r| ==> r[k] < |t.entries|
    decreases bp
  {
    if bp == NO_BP then [] else Chain(t, t.entries[bp].bp) + [bp]
  }

  /** Along a backtrace indices and frames strictly increase, and each entry is the path of the next. */
  lemma {:induction false} ChainIsPath(t: Table, bp: int)
    requires PathsBack(t) && -1 <= bp < |t.entries|
    ensures var c := Chain(t, bp);
      && (c != [] ==> c[|c| - 1] == bp && t.entries[c[0]].bp == NO_BP)
      && (forall k :: 1 <= k < |c| ==> t.entries[c[k]].bp == c[k - 1] && c[k - 1] < c[k]
                                       && t.entries[c[k - 1]].frame < t.entries[c[k]].frame)
    decreases bp
  {
    if bp != NO_BP {
      var prev := t.entries[bp].bp;
      ChainIsPath(t, prev);
      var d, c := Chain(t, prev), Chain(t, bp);
      assert prev < bp && (prev >= 0 ==> t.entries[prev].frame < t.entries[bp].frame);
      hide PathsBack, Chain;
      assert c == d + [bp];
      forall k | 1 <= k < |c|
        ensures t.entries[c[k]].bp == c[k - 1] && c[k - 1] < c[k] && t.entries[c[k - 1]].frame < t.entries[c[k]].frame
      {
        assert k < |d| ==> c[k] == d[k];
        assert c[k - 1] == d[k - 1];
      }
    }
  }

  function SpokenWords(ws: Words, t: Table, chain: seq<nat>): seq<string>
    requires IsTable(ws, t) && forall k :: 0 <= k < |chain| ==> chain[k] < |t.entries|
  {
    if chain == [] then []
    else
      var e := t.entries[chain[|chain| - 1]];
      SpokenWords(ws, t, chain[..|chain| - 1]) + if ws[e.wid].spoken then [ws[e.wid].base] else []
  }

  /** The places of a backtrace whose words are spoken. */
  function Saying(ws: Words, t: Table, chain: seq<nat>): set<nat>
    requires IsTable(ws, t) && forall k :: 0 <= k < |chain| ==> chain[k] < |t.entries|
  {
    set n: nat | n < |chain| && ws[t.entries[chain[n]].wid].spoken
  }

  predicate Spells(ws: Words, t: Table, chain: seq<nat>, at: seq<nat>, words: seq<string>)
    requires IsTable(ws, t) && forall k :: 0 <= k < |chain| ==> chain[k] < |t.entries|
  {
    && |at| == |words|
    && forall i :: 0 <= i < |at| ==> at[i] < |chain| && words[i] == ws[t.entries[chain[at[i]]].wid].base
  }

  lemma SayingSnoc(ws: Words, t: Table, chain: seq<nat>)
    requires IsTable(ws, t) && (forall k :: 0 <= k < |chain| ==> chain[k] < |t.entries|) && chain != []
    ensures var m := |chain| - 1; var before := Saying(ws, t, chain[..m]);
      && (forall n :: n in before ==> n < m)
      && Saying(ws, t, chain) == if ws[t.entries[chain[m]].wid].spoken then before + {m} else before
  {
    hide IsTable;
  }

  /** The words of a backtrace are the base spellings of exactly those that are spoken, in order. */
  lemma {:induction false} SpokenReports(ws: Words, t: Table, chain: seq<nat>) returns (at: seq<nat>)
    requires IsTable(ws, t) && forall k :: 0 <= k < |chain| ==> chain[k] < |t.entries|
    ensures HypString.InOrder(at, Saying(ws, t, chain)) && Spells(ws, t, chain, at, SpokenWords(ws, t, chain))
    decreases |chain|
  {
    at := [];
    if chain != [] {
      hide IsTable;
      var m := |chain| - 1;
      at := SpokenReports(ws, t, chain[..m]);
      SayingSnoc(ws, t, chain);
      if ws[t.entries[chain[m]].wid].spoken {
        hide Saying;
        HypString.InOrderSnoc(at, Saying(ws, t, chain[..m]), m);
        at := at + [m];
      }
    }
  }

  function WordsTo(ws: Words, t: Table, bp: int): seq<string>
    requires IsTable(ws, t) && PathsBack(t) && -1 <= bp < |t.entries|
  {
    SpokenWords(ws, t, Chain(t, bp))
  }

  /** One step of either pass of the backtrace. */
  lemma StepBack(ws: Words, t: Table, bp: int)
    requires IsTable(ws, t) && PathsBack(t) && 0 <= bp < |t.entries|
    ensures var w, before := ws[t.entries[bp].wid], WordsTo(ws, t, t.entries[bp].bp);
      && WordsTo(ws, t, bp) == before + (if w.spoken then [w.base] else [])
      && HypString.Size(WordsTo(ws, t, bp)) == HypString.Size(before) + (if w.spoken then |w.base| + 1 else 0)
      && |Chain(t, bp)| == |Chain(t, t.entries[bp].bp)| + 1
  {
    var e := t.entries[bp];
    var c := Chain(t, bp);
    assert c[..|c| - 1] == Chain(t, e.bp);
    var more := if ws[e.wid].spoken then [ws[e.wid].base] else [];
    HypString.SizeSnoc(WordsTo(ws, t, e.bp), more);
    assert ws[e.wid].spoken ==> more[1..] == [];
  }

  lemma AtEnd(ws: Words, t: Table)
    requires IsTable(ws, t) && PathsBack(t)
    ensures WordsTo(ws, t, NO_BP) == [] && HypString.Size(WordsTo(ws, t, NO_BP)) == 0 && Chain(t, NO_BP) == []
  {
  }

  // ---- the table in memory

  class BpTable {
    const ws: Words
    const nCi: nat
    var bpTable: array<Bp>
    var bscoreStack: array<int>
    const wordLatIdx: array<int>
    var bpidx: nat
    var bssHead: nat

    ghost predicate Valid()
      reads this, bpTable, bscoreStack, wordLatIdx
    {
      && bpidx <= bpTable.Length && bpTable.Length > 0
      && bssHead <= bscoreStack.Length && nCi <= bscoreStack.Length && bscoreStack.Length > 0
      && (forall w :: 0 <= w < |ws| ==> ws[w].nRc <= nCi)
      && bscoreStack != wordLatIdx
      && IsTable(ws, Abs())
    }

    function Abs(): Table
      reads this, bpTable, bscoreStack, wordLatIdx
      requires bpidx <= bpTable.Length && bssHead <= bscoreStack.Length
    {
      Table(bpTable[..bpidx], bscoreStack[..bssHead], wordLatIdx[..])
    }

    /** ngram_search_init's tables: `latsize` entries and twenty slots for each. */
    constructor (ws: Words, nCi: nat, latsize: nat)
      requires latsize > 0 && nCi <= latsize * 20 && forall w :: 0 <= w < |ws| ==> ws[w].nRc <= nCi
      ensures Valid() && Abs() == Begin(ws).table && this.ws == ws && bpTable.Length == latsize
      ensures fresh(bpTable) && fresh(bscoreStack) && fresh(wordLatIdx)
    {
      this.ws, this.nCi := ws, nCi;
      bpTable := new Bp[latsize](_ => Bp(0, 0, 0, 0, 0, false));
      bscoreStack := new int[latsize * 20](_ => 0);
      wordLatIdx := new int[|ws|](_ => NO_BP);
      bpidx, bssHead := 0, 0;
    }

    /** Expand the entry table if necessary: there is room for one more. */
    method ExpandEntries()
      requires Valid()
      modifies this`bpTable
      ensures Valid() && Abs() == old(Abs()) && bpidx < bpTable.Length
      ensures bpTable == old(bpTable) || fresh(bpTable)
      ensures bpTable.Length == old(bpTable.Length) * if bpidx == old(bpTable.Length) then 2 else 1
    {
      if bpidx >= bpTable.Length {
        var wider := new Bp[bpTable.Length * 2](_ => Bp(0, 0, 0, 0, 0, false));
        forall i | 0 <= i < bpTable.Length {
          wider[i] := bpTable[i];
        }
        ghost var was := bpTable[..bpidx];
        bpTable := wider;
        assert bpTable[..bpidx] == was;
      }
    }

    /** Expand the score stack if necessary: there is room for a slice of any size. */
    method ExpandStack()
      requires Valid()
      modifies this`bscoreStack
      ensures Valid() && Abs() == old(Abs()) && bssHead + nCi <= bscoreStack.Length
      ensures bscoreStack == old(bscoreStack) || fresh(bscoreStack)
    {
      if bssHead >= bscoreStack.Length - nCi {
        var wider := new int[bscoreStack.Length * 2](_ => 0);
        forall i | 0 <= i < bscoreStack.Length {
          wider[i] := bscoreStack[i];
        }
        ghost var was := bscoreStack[..bssHead];
        bscoreStack := wider;
        assert bscoreStack[..bssHead] == was;
      }
    }

    /** ngram_search_save_bp.  The language-model words of an entry are not kept here. */
    method SaveBp(frame: int, w: nat, score: int, path: int, rc: nat)
      requires Valid() && CanSave(ws, Abs(), w, path, rc)
      modifies this`bpTable, this`bscoreStack, this`bpidx, this`bssHead, bpTable, bscoreStack, wordLatIdx
      ensures Valid() && Abs() == Save(ws, old(Abs()), frame, w, score, path, rc)
      ensures bpTable == old(bpTable) || fresh(bpTable)
      ensures bscoreStack == old(bscoreStack) || fresh(bscoreStack)
      ensures bpTable.Length == old(bpTable.Length) * if bpidx > old(bpTable.Length) then 2 else 1
    {
      var bp := wordLatIdx[w];
      if bp != NO_BP {
        UpdateBp(bp, frame, w, score, path, rc);
      } else {
        ExpandEntries();
        ExpandStack();
        NewBp(frame, w, score, path, rc);
      }
    }

    /** Keep only the best scoring entry, but the scores of all right contexts. */
    method UpdateBp(bp: nat, ghost frame: int, w: nat, score: int, path: int, rc: nat)
      requires Valid() && CanSave(ws, Abs(), w, path, rc) && bp == wordLatIdx[w]
      modifies bpTable, bscoreStack
      ensures Valid() && Abs() == Save(ws, old(Abs()), frame, w, score, path, rc)
    {
      ghost var t := Abs();
      ghost var r := Save(ws, t, frame, w, score, path, rc);
      SaveMoreIs(ws, t, frame, w, score, path, rc);
      assert bp < bpidx && t.entries[bp] == bpTable[bp];
      hide IsTable, CanSave, Save;
      if bpTable[bp].score < score {
        if bpTable[bp].bp != path {
          bpTable[bp] := bpTable[bp].(bp := path);
        }
        bpTable[bp] := bpTable[bp].(score := score);
      }
      assert bpTable[..bpidx] == r.entries;
      if bpTable[bp].sIdx != -1 {
        bscoreStack[bpTable[bp].sIdx + rc] := score;
      }
      assert bscoreStack[..bssHead] == r.stack;
    }

    method NewBp(frame: int, w: nat, score: int, path: int, rc: nat)
      requires Valid() && CanSave(ws, Abs(), w, path, rc) && wordLatIdx[w] == NO_BP
      requires bpidx < bpTable.Length && bssHead + nCi <= bscoreStack.Length
      modifies this`bpidx, this`bssHead, bpTable, bscoreStack, wordLatIdx
      ensures Valid() && Abs() == Save(ws, old(Abs()), frame, w, score, path, rc)
    {
      assert w < wordLatIdx.Length;
      hide IsTable;
      ghost var t := Abs();
      ghost var r := Save(ws, t, frame, w, score, path, rc);
      var rcsize := ws[w].nRc;
      wordLatIdx[w] := bpidx;
      bpTable[bpidx] := Bp(frame, w, path, score, if rcsize == 0 then -1 else bssHead, true);
      assert bpTable[..bpidx + 1] == r.entries && wordLatIdx[..] == r.lat && bscoreStack[..bssHead] == t.stack;
      FillSlice(rcsize, score, rc);
      assert bscoreStack[..bssHead + rcsize] == r.stack;
      bpidx := bpidx + 1;
      bssHead := bssHead + rcsize;
    }

    /** The new slice: the floor everywhere but at the saved right context. */
    method FillSlice(rcsize: nat, score: int, rc: nat)
      requires bssHead + rcsize <= bscoreStack.Length && (rcsize != 0 ==> rc < rcsize)
      modifies bscoreStack
      ensures bscoreStack[..bssHead + rcsize]
           == old(bscoreStack[..bssHead]) + seq(rcsize, k => if k == rc then score else Hmm.WORST_SCORE)
    {
      for i := 0 to rcsize
        invariant bscoreStack[..bssHead] == old(bscoreStack[..bssHead])
        invariant forall k :: bssHead <= k < bssHead + i ==> bscoreStack[k] == Hmm.WORST_SCORE
      {
        bscoreStack[bssHead + i] := Hmm.WORST_SCORE;
      }
      if rcsize != 0 {
        bscoreStack[bssHead + rc] := score;
      }
    }

    /** The callers' loop over the entries of the frame just ended. */
    method ResetFrame(first: nat)
      requires Valid() && first <= bpidx
      requires forall w :: 0 <= w < |ws| && wordLatIdx[w] != NO_BP ==> first <= wordLatIdx[w]
      modifies wordLatIdx
      ensures Valid() && Abs() == Reset(ws, old(Abs()))
    {
      for i := first to bpidx
        invariant bpTable[..bpidx] == old(bpTable[..bpidx]) && bscoreStack[..bssHead] == old(bscoreStack[..bssHead])
        invariant forall w :: 0 <= w < |ws| ==>
          wordLatIdx[w] == NO_BP || (wordLatIdx[w] == old(wordLatIdx[w]) && i <= wordLatIdx[w])
      {
        wordLatIdx[bpTable[i].wid] := NO_BP;
        assert forall w :: 0 <= w < |ws| && old(wordLatIdx[w]) == i ==> bpTable[i].wid == w by {
          assert forall w :: 0 <= w < |ws| ==> old(Abs()).lat[w] == old(wordLatIdx[w]);
          assert old(Abs()).entries[i] == bpTable[i];
        }
      }
    }

    /** ngram_search_bp_iter: count the entries of the backtrace, then fill an array of that size from its end. */
    method BpIter(bp0: int) returns (ids: array<int>)
      requires Valid() && PathsBack(Abs()) && -1 <= bp0 < bpidx
      ensures fresh(ids) && ids[..] == Chain(Abs(), bp0)
    {
      ghost var t := Abs();
      var n, bp := 0, bp0;
      while bp != NO_BP
        invariant -1 <= bp < bpidx && n + |Chain(t, bp)| == |Chain(t, bp0)|
        decreases bp
      {
        assert bpTable[bp] == t.entries[bp];
        bp := bpTable[bp].bp;
        n := n + 1;
      }
      ids := new int[n](_ => 0);
      var cur := n;
      bp := bp0;
      while bp != NO_BP
        invariant -1 <= bp < bpidx && cur == |Chain(t, bp)| <= n && fresh(ids)
        invariant Chain(t, bp) + ids[cur..] == Chain(t, bp0)
        decreases bp
      {
        assert bpTable[bp] == t.entries[bp];
        cur := cur - 1;
        ids[cur] := bp;
        assert ids[cur..] == [bp] + ids[cur + 1..];
        bp := bpTable[bp].bp;
      }
      assert ids[0..] == ids[..];
    }

    /** ngram_search_bp_hyp: the second pass visits the same chain as the first and fills the buffer exactly. */
    method BpHyp(bp0: int) returns (hyp: seq<string>)
      requires Valid() && PathsBack(Abs()) && -1 <= bp0 < bpidx
      ensures hyp == if WordsTo(ws, Abs(), bp0) == [] then [] else [HypString.Join(WordsTo(ws, Abs(), bp0))]
    {
      hide WordsTo, Chain, HypString.Join, HypString.Size, HypString.Tail, HypString.HypBuffer.Holds;
      ghost var t := Abs();
      AtEnd(ws, t);
      var len, bp := 0, bp0;
      while bp != NO_BP
        invariant -1 <= bp < bpidx
        invariant len + HypString.Size(WordsTo(ws, t, bp)) == HypString.Size(WordsTo(ws, t, bp0))
        decreases bp
      {
        StepBack(ws, t, bp);
        var e := bpTable[bp];
        assert e == t.entries[bp];
        bp := e.bp;
        if ws[e.wid].spoken {
          len := len + |ws[e.wid].base| + 1;
        }
      }
      HypString.SizeZero(WordsTo(ws, t, bp0));
      if len == 0 {
        return [];
      }
      var h := new HypString.HypBuffer(len);
      bp := bp0;
      ghost var done: seq<string> := [];
      while bp != NO_BP
        invariant -1 <= bp < bpidx && h.Valid() && fresh(h) && fresh(h.buf) && h.buf.Length == len && Abs() == t
        invariant WordsTo(ws, t, bp0) == WordsTo(ws, t, bp) + done
        invariant var left := HypString.Size(WordsTo(ws, t, bp));
          h.Holds(done, left > 0) && h.c == if left > 0 then left - 1 else 0
        decreases bp
      {
        StepBack(ws, t, bp);
        var e := bpTable[bp];
        assert e == t.entries[bp];
        bp := e.bp;
        if ws[e.wid].spoken {
          h.Prepend(ws[e.wid].base, done);
          done := [ws[e.wid].base] + done;
        }
      }
      assert WordsTo(ws, t, bp0) == done;
      h.HoldsAll(done);
      var text := h.Text();
      hyp := [text];
    }

    /** ngram_search_exit_score: the path score with which entry bp leaves into right context rc. */
    method ExitScore(bp: nat, rc: nat) returns (score: int)
      requires Valid() && bp < bpidx && rc < RcCount(ws, bpTable[bp].wid)
      ensures forall log, frame :: Inv(ws, Abs(), log, frame) ==>
        score == if ws[bpTable[bp].wid].nRc == 0 then bpTable[bp].score
                 else SlotScore(log, Key(bpTable[bp].frame, bpTable[bp].wid, rc))
    {
      ghost var t := Abs();
      var e := bpTable[bp];
      assert e == t.entries[bp];
      if ws[e.wid].nRc == 0 {
        score := e.score;
      } else {
        score := bscoreStack[e.sIdx + rc];
        assert e.sIdx >= 0 && Slice(ws, t, bp) == t.stack[e.sIdx..e.sIdx + ws[e.wid].nRc];
        assert score == t.stack[e.sIdx + rc] == Slice(ws, t, bp)[rc];
        forall log, frame | Inv(ws, t, log, frame) ensures score == SlotScore(log, Key(e.frame, e.wid, rc)) {
          assert Remembered(ws, t, log, bp);
        }
      }
    }
  }
}
