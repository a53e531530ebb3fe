/** Grammar decoding finds the best alignment: over whole utterances, with beams wide enough to prune nothing,
    the exit chosen at the end has the best score of all alignments with the grammar, and its backtrace spells
    one that has it. */
module FsgBest {
  import opened Hmm
  import opened HmmUnrolled
  import opened Fsg
  import opened FsgHistory
  import opened FsgStep
  import opened FsgSound
  import opened FsgPaths
  import opened FsgFlow
  import opened FsgLossless
  import opened FsgRun
  import opened FsgAligns
  import opened FsgOptimal
  import opened FsgResult

  // ---- the start of an utterance

  /** Before the first frame there are only the root, its null transitions and the words entered from them. */
  lemma AtTimeZero(k: Task, a: Align)
    requires IsTask(k) && Valid(k, a) && Time(a) == 0
    ensures a.Root? || (a.Null? && a.prev.Root?) || (a.Word? && EndsWord(a.prev) && Time(a.prev) == 0)
  {
    hide IsTask;
  }

  lemma StartTable(k: Task)
    requires IsTask(k)
    ensures k.u.sil < k.lt.nCi && IsGrammar(k.g) && At(k, 0).entries == StartEntries(k.g, k.lt, k.u.sil, k.u.wbeam)
  {
    hide WordTrans, IsPnode, HmmsFit, IsFrame, NullOffers, IsCovered;
  }

  lemma StartServes(k: Task, a: Align, c: nat)
    requires IsTask(k) && Wide(k, 0) && Valid(k, a) && EndsWord(a) && Time(a) == 0 && c in RcOf(k, a)
    ensures Served(k, At(k, 0).entries, 0, a, c)
  {
    StartTable(k);
    AtTimeZero(k, a);
    hide IsTask, At, Links;
    var root := RootEntry(k.u.sil);
    var es := At(k, 0).entries;
    if a.Root? {
      assert EntryFor(k, es[0], a, c);
    } else {
      var x := NullEntry(root, 0, a.link);
      InNullOffers(k.g, [root], 0, 1, k.u.wbeam, x);
      assert NullOf(k.g, [root], 0, a.link, k.u.wbeam, x);
      var offers := NullOffers(k.g, [root], 0, 1, k.u.wbeam);
      var j :| 0 <= j < |offers| && offers[j] == x;
      assert es[j + 1] == x && EntryFor(k, x, a, c);
    }
  }

  lemma RootNull(k: Task, l: Link, x: Entry)
    requires IsTask(k) && k.g.start < |k.g.arcs| && l in k.g.arcs[k.g.start] && l.wid == -1
    requires x == NullEntry(RootEntry(k.u.sil), 0, l) && Back(k, 0, 0) == []
    ensures IsAligned(k, x, 0)
  {
    hide IsTask, Back;
    assert Valid(k, Root) && Total(k, Root) == 0 && Spelt(k, Root) == [] && Time(Root) == 0;
    var a := Null(Root, l);
    assert Valid(k, a) && Total(k, a) == x.score && Spelt(k, a) == BackFrom(k, 0, x);
    assert x.lc == LcOf(k, a) && x.rc <= RcOf(k, a);
    assert EntryOf(k, x, a, 0);
  }

  lemma StartAligned(k: Task, j: nat)
    requires IsTask(k) && Wide(k, 0) && j < |At(k, 0).entries|
    ensures IsAligned(k, At(k, 0).entries[j], 0)
  {
    StartTable(k);
    BackOf(k, 0, 0);
    hide IsTask, At, Wide, Back;
    var root := RootEntry(k.u.sil);
    if j == 0 {
      assert EntryOf(k, root, Root, 0);
    } else {
      var x := At(k, 0).entries[j];
      assert x == NullOffers(k.g, [root], 0, 1, k.u.wbeam)[j - 1];
      InNullOffers(k.g, [root], 0, 1, k.u.wbeam, x);
      var h, l :| 0 <= h < 1 && NullOf(k.g, [root], h, l, k.u.wbeam, x);
      RootNull(k, l, x);
    }
  }

  lemma StartNode(k: Task, i: nat)
    requires IsTask(k) && i < |k.lt.nodes|
    ensures |At(k, 0).hmms| == |k.lt.nodes| == |k.hmms| && k.lt.nEmit > 0
    ensures IsState(At(k, 0).hmms[i], k.lt.nEmit) && IsState(k.hmms[i], k.lt.nEmit)
    ensures BestOffered(k.g, k.lt, At(k, 0).entries, 0, |At(k, 0).entries|, i, k.u.beam, k.hmms[i], At(k, 0).hmms[i])
    ensures Raised(k.hmms[i], At(k, 0).hmms[i], 0) && IsCleared(k.hmms[i])
  {
    hide WordTrans, BestOffered, Raised, IsPnode, IsFrame, IsCleared, IsCovered;
    StartTable(k);
    var es := At(k, 0).entries;
    WordTransBest(k.g, k.lt, Act(k.hmms, []), es, 0, |es|, 0, k.u.beam, i);
    WordsRaise(k.g, k.lt, Act(k.hmms, []), es, 0, |es|, 0, k.u.beam, i);
  }

  lemma StartUpper(k: Task, a: Align)
    requires IsTask(k) && Wide(k, 0) && Valid(k, a) && InNode(a) && Time(a) == 0
    ensures NodeOf(a) < |At(k, 0).hmms| && StateOf(a) < k.lt.nEmit && IsState(At(k, 0).hmms[NodeOf(a)], k.lt.nEmit)
    ensures Total(k, a) <= At(k, 0).hmms[NodeOf(a)].score[StateOf(a)]
  {
    hide At, Raised, IsCovered, HmmsFit, IsPnode;
    AtTimeZero(k, a);
    var p, r := a.prev, a.node;
    StartNode(k, r);
    var c := k.lt.nodes[r].ciExt;
    StartServes(k, p, c);
    hide IsTask;
    var es := At(k, 0).entries;
    var j :| 0 <= j < |es| && EntryFor(k, es[j], p, c);
    assert Offers(k.g, k.lt, es[j], r, k.u.beam, es[j].score + k.lt.nodes[r].logs2prob);
  }

  lemma StartAttained(k: Task, i: nat, s: nat)
    requires IsTask(k) && Wide(k, 0) && i < |At(k, 0).hmms| && s < k.lt.nEmit && IsState(At(k, 0).hmms[i], k.lt.nEmit)
    requires At(k, 0).hmms[i].score[s] > WORST_SCORE
    ensures HasAlign(k, 0, i, s, At(k, 0).hmms[i].score[s], Back(k, 0, At(k, 0).hmms[i].hist[s]))
  {
    hide IsTask, Wide, At, Offers, HasAlign, Back, IsAligned;
    StartNode(k, i);
    var es, after := At(k, 0).entries, At(k, 0).hmms[i];
    RaisedScore(k.hmms[i], after, 0, s);
    var j :| 0 <= j < |es| && Offers(k.g, k.lt, es[j], i, k.u.beam, after.score[0]) && after.hist[0] == j;
    StartAligned(k, j);
    WordAligned(k, 0, es[j], i, k.u.beam, after.score[0]);
    BackOf(k, 0, j);
  }

  lemma StartShape(k: Task, i: nat)
    requires IsTask(k) && i < |At(k, 0).hmms|
    ensures Shape(KindOf(k.lt.nEmit), At(k, 0).hmms[i])
  {
    hide IsTask, At;
    StartNode(k, i);
    RaisedShape(KindOf(k.lt.nEmit), k.hmms[i], At(k, 0).hmms[i], 0);
  }

  lemma StartUpperIn(k: Task)
    requires IsTask(k) && Wide(k, 0)
    ensures UpperIn(k, At(k, 0).hmms, 0)
  {
    hide Wide, At, Valid, Total, IsTask;
    var hmms := At(k, 0).hmms;
    forall a | Valid(k, a) && InNode(a) && Time(a) == 0
      ensures NodeOf(a) < |hmms| && StateOf(a) < k.lt.nEmit && Total(k, a) <= hmms[NodeOf(a)].score[StateOf(a)]
    {
      StartUpper(k, a);
    }
  }

  lemma StartAttainedIn(k: Task)
    requires IsTask(k) && Wide(k, 0)
    ensures AttainedIn(k, At(k, 0).hmms, 0)
  {
    hide Wide, At, HasAlign, Back, IsTask;
    var hmms := At(k, 0).hmms;
    forall i, s | 0 <= i < |hmms| && 0 <= s < k.lt.nEmit && hmms[i].score[s] > WORST_SCORE
      ensures HasAlign(k, 0, i, s, hmms[i].score[s], Back(k, 0, hmms[i].hist[s]))
    {
      StartAttained(k, i, s);
    }
  }

  lemma StartIsBest(k: Task)
    requires IsTask(k) && Wide(k, 0)
    ensures BestBefore(k, At(k, 0), 0)
  {
    StartUpperIn(k);
    StartAttainedIn(k);
    RunIsActiveExact(k.g, k.lt, k.u, k.hmms, 0);
    RootIsFirst(k.g, k.lt, k.u, k.hmms, 0);
    hide Wide, UpperIn, AttainedIn, Shape, ActiveExact;
    forall i | 0 <= i < |At(k, 0).hmms| ensures Shape(KindOf(k.lt.nEmit), At(k, 0).hmms[i]) {
      StartShape(k, i);
    }
  }

  // ---- whole utterances

  lemma Narrower(k: Task, n: nat, m: nat)
    requires IsTask(k) && m <= n <= |k.u.frames| && Wide(k, n)
    ensures Wide(k, m)
  {
  }

  /** Before every frame every state of every node holds the best score of the alignments that are there, with a
      history that leads back along one of them. */
  lemma {:induction false} RunIsBest(k: Task, n: nat)
    requires IsTask(k) && n <= |k.u.frames| && Wide(k, n)
    ensures BestBefore(k, At(k, n), n)
  {
    hide IsTask, Wide, At, BestBefore;
    if n == 0 {
      StartIsBest(k);
    } else {
      Narrower(k, n, n - 1);
      RunIsBest(k, n - 1);
      NextIsBest(k, n - 1);
    }
  }

  /** Where the entries made in the latest frame begin. */
  function Latest(k: Task, n: nat): nat
    requires IsTask(k) && n <= |k.u.frames|
  {
    if n == 0 then 0 else |At(k, n - 1).entries|
  }

  lemma LatestServes(k: Task, n: nat, a: Align, c: nat)
    requires IsTask(k) && n <= |k.u.frames| && Wide(k, n)
    requires Valid(k, a) && EndsWord(a) && Time(a) == n && c in RcOf(k, a)
    ensures Served(k, At(k, n).entries, Latest(k, n), a, c)
  {
    hide IsTask, Wide, At, BestBefore, Served;
    if n == 0 {
      StartServes(k, a, c);
    } else {
      Narrower(k, n, n - 1);
      RunIsBest(k, n - 1);
      EntriesUpper(k, n - 1, a, c);
    }
  }

  lemma LatestAligned(k: Task, n: nat, j: nat)
    requires IsTask(k) && n <= |k.u.frames| && Wide(k, n) && Latest(k, n) <= j < |At(k, n).entries|
    ensures IsAligned(k, At(k, n).entries[j], n)
  {
    hide IsTask, Wide, At, BestBefore, IsAligned;
    if n == 0 {
      StartAligned(k, j);
    } else {
      Narrower(k, n, n - 1);
      RunIsBest(k, n - 1);
      EntriesAligned(k, n - 1, j);
    }
  }

  /** The word exits of every frame are the best there are, for every right context. */
  lemma ExitsAreBest(k: Task, n: nat)
    requires IsTask(k) && n <= |k.u.frames| && Wide(k, n)
    ensures UpperEntries(k, At(k, n).entries, Latest(k, n), n)
    ensures AttainedEntries(k, At(k, n).entries, Latest(k, n), n)
  {
    hide IsTask, Wide, At, Valid, Latest;
    forall a, c | Valid(k, a) && EndsWord(a) && Time(a) == n && c in RcOf(k, a)
      ensures Served(k, At(k, n).entries, Latest(k, n), a, c)
    {
      LatestServes(k, n, a, c);
    }
    forall j | Latest(k, n) <= j < |At(k, n).entries| ensures IsAligned(k, At(k, n).entries[j], n) {
      LatestAligned(k, n, j);
    }
  }

  // ---- the result

  /** An alignment of the first n frames that ends a word, in the final state if that is asked for. */
  predicate Complete(k: Task, n: nat, final: bool, a: Align)
    requires IsTask(k)
  {
    Valid(k, a) && EndsWord(a) && Time(a) == n && (final ==> DestOf(k, a) == k.g.final)
  }

  lemma FrameAt(k: Task, n: nat)
    requires IsTask(k) && n <= |k.u.frames|
    ensures At(k, n).frame == n && At(k, n).entries != []
  {
    RootIsFirst(k.g, k.lt, k.u, k.hmms, n);
  }

  lemma StepFrames(g: Grammar, lt: Lextree, s: State, f: Frame, j: nat)
    requires Fit(g, lt, s) && IsFrame(lt, f) && Sound(g, lt, s) && AboveFloor(g, lt, s, f)
    requires j < |Step(g, lt, s, f).entries|
    ensures var e := Step(g, lt, s, f).entries[j]; e.frame <= s.frame && (e.frame == s.frame <==> j >= |s.entries|)
  {
    hide IsLextree, HmmsFit, IsFrame, Step, Histories, Chained, AboveFloor;
    StepKeepsSound(g, lt, s, f);
    StepExtends(g, lt, s, f);
    if j < |s.entries| {
      assert Step(g, lt, s, f).entries[j] == s.entries[j];
    }
  }

  /** The entries of the latest frame are those that carry its number. */
  lemma LatestFrame(k: Task, n: nat, j: nat)
    requires IsTask(k) && 0 < n <= |k.u.frames| && Wide(k, n) && j < |At(k, n).entries|
    ensures At(k, n).entries[j].frame == n - 1 <==> j >= Latest(k, n)
    ensures 1 <= Latest(k, n) && At(k, n).entries[j].frame < n
  {
    hide IsLextree, HmmsFit, Step, Sound, IsCovered, Evaluated, Valid, Total, Clean;
    WideIsSound(k, n, n - 1);
    assert PassesAt(k, n - 1);
    FrameAt(k, n - 1);
    StepFrames(k.g, k.lt, At(k, n - 1), k.u.frames[n - 1], j);
  }

  lemma SomeContext(k: Task, a: Align) returns (c: nat)
    requires IsTask(k) && Valid(k, a) && EndsWord(a)
    ensures c in RcOf(k, a)
  {
    var e := if a.Null? then a.prev else a;
    if e.Exit? {
      NodeFacts(k, NodeOf(e));
    }
    assert 0 in ALL_CONTEXTS;
    hide IsTask;
    assert RcOf(k, e) != {};
    c :| c in RcOf(k, e);
  }

  /** Entry i ends in the latest frame (and in the final state, if that is asked for). */
  predicate IsExit(k: Task, n: nat, final: bool, i: nat)
    requires IsTask(k) && n <= |k.u.frames|
  {
    var es := At(k, n).entries;
    es != [] && es[|es| - 1].frame == n - 1 && Acceptable(k.g, es, |es| - 1, final, i)
  }

  /** An alignment that ends a word has an entry that is as good. */
  lemma ServedBy(k: Task, n: nat, final: bool, a: Align) returns (i: nat)
    requires IsTask(k) && 0 < n <= |k.u.frames| && Wide(k, n) && Complete(k, n, final, a)
    ensures IsExit(k, n, final, i) && At(k, n).entries[i].score >= Total(k, a)
  {
    hide IsTask, Wide, At, Latest, Valid, Total;
    var c := SomeContext(k, a);
    LatestServes(k, n, a, c);
    var es := At(k, n).entries;
    i :| Latest(k, n) <= i < |es| && EntryFor(k, es[i], a, c);
    LatestFrame(k, n, i);
    LatestFrame(k, n, |es| - 1);
  }

  /** An exit of the latest frame is a complete alignment, and leads back along it. */
  lemma AlignmentOf(k: Task, n: nat, final: bool, i: nat) returns (a: Align)
    requires IsTask(k) && 0 < n <= |k.u.frames| && Wide(k, n) && IsExit(k, n, final, i)
    ensures Complete(k, n, final, a) && Total(k, a) == At(k, n).entries[i].score
    ensures Chained(k.g, At(k, n).entries) && Spelt(k, a) == Links(k.g, At(k, n).entries, i)
  {
    hide IsTask, Wide, At, Latest, Valid, Total, Spelt, Links, Histories, FramesOrdered, Chained;
    LatestFrame(k, n, i);
    LatestAligned(k, n, i);
    var e := At(k, n).entries[i];
    a :| EntryOf(k, e, a, n) && EndsWord(a) && Time(a) == n;
    BackOf(k, n, i);
    WideIsSound(k, n, n);
  }

  /** There is an exit to find exactly when some alignment of the frames so far ends a word there. */
  lemma ExitExists(k: Task, n: nat, final: bool)
    requires IsTask(k) && 0 < n <= |k.u.frames| && Wide(k, n)
    ensures (exists a :: Complete(k, n, final, a)) <==> exists i: nat :: IsExit(k, n, final, i)
  {
    hide IsTask, Wide, Complete, IsExit;
    if a :| Complete(k, n, final, a) {
      var i := ServedBy(k, n, final, a);
    }
    if i: nat :| IsExit(k, n, final, i) {
      var a := AlignmentOf(k, n, final, i);
    }
  }

  /** The exit chosen has the best score of all alignments of the frames so far with the grammar that end a word
      (in the final state, if that is asked for), and its backtrace spells the words of one that has this score. */
  lemma DecodingIsOptimal(k: Task, n: nat, final: bool, r: nat, score: int)
    requires IsTask(k) && 0 < n <= |k.u.frames| && Wide(k, n) && IsExit(k, n, final, r)
    requires BestExit(k.g, At(k, n).entries, |At(k, n).entries| - 1, final, r, score)
    ensures forall a :: Complete(k, n, final, a) ==> Total(k, a) <= score
    ensures Chained(k.g, At(k, n).entries)
    ensures exists a :: Complete(k, n, final, a) && Total(k, a) == score
                        && Spelt(k, a) == Links(k.g, At(k, n).entries, r)
  {
    hide IsTask, Wide, At, Acceptable, Valid, Total, Links, Spelt, Chained;
    forall a | Complete(k, n, final, a) ensures Total(k, a) <= score {
      var i := ServedBy(k, n, final, a);
    }
    var a := AlignmentOf(k, n, final, r);
  }

  lemma {:induction false} EntryIsLive(k: Task, n: nat, j: nat)
    requires IsTask(k) && n <= |k.u.frames| && Wide(k, n) && j < |At(k, n).entries|
    ensures At(k, n).entries[j].score > WORST_SCORE
    decreases n
  {
    hide IsTask, Wide, At, Valid, Total, BackFrom;
    if j >= Latest(k, n) {
      LatestAligned(k, n, j);
      var a :| EntryOf(k, At(k, n).entries[j], a, n) && EndsWord(a) && Time(a) == n;
      WideIsLive(k, n);
      AlignIsLive(k, n, a);
    } else {
      Narrower(k, n, n - 1);
      EntryIsLive(k, n - 1, j);
      TableGrows(k, n - 1);
    }
  }

  /** The table is as reading a result off it demands, and its last entry is where the backward scan stops. */
  lemma TableIsReadable(k: Task, n: nat)
    requires IsTask(k) && 0 < n <= |k.u.frames| && Wide(k, n)
    ensures var es := At(k, n).entries;
      && IsGrammar(k.g) && es != [] && Chained(k.g, es) && FramesOrdered(es, es[|es| - 1].frame + 1)
      && (forall i :: 0 <= i < |es| ==> es[i].score > INT_MIN)
      && At(k, n).frame == n && (|es| > 1 ==> IsLast(es, n - 1, |es| - 1))
  {
    hide Wide, At, Chained, FramesOrdered, Histories;
    StartTable(k);
    WideIsSound(k, n, n);
    FrameAt(k, n);
    hide IsTask;
    var es := At(k, n).entries;
    forall i | 0 <= i < |es| ensures es[i].score > INT_MIN {
      EntryIsLive(k, n, i);
    }
    LastFrameBounds(es, n);
  }

  lemma LastFrameBounds(es: seq<Entry>, n: int)
    requires es != [] && FramesOrdered(es, n)
    ensures FramesOrdered(es, es[|es| - 1].frame + 1) && es[|es| - 1].frame < n
  {
  }
}
