/** Optimality of grammar decoding: with beams wide enough to prune nothing, the search finds at every frame
    the best score of all alignments, in every state of every node and for every word exit. */
module FsgOptimal {
  import opened Basics
  import opened Hmm
  import opened HmmOptimal
  import opened HmmUnrolled
  import opened Fsg
  import opened FsgHistory
  import opened FsgStep
  import opened FsgSound
  import opened FsgPaths
  import opened FsgFlow
  import opened FsgLossless
  import opened FsgRun
  import opened FsgAligns

  /** An alignment in a state of a node, with its score and the transitions it has taken. */
  ghost predicate Placed(k: Task, a: Align, t: nat, i: nat, s: nat, v: int, ls: seq<Link>)
    requires IsTask(k)
  {
    && Valid(k, a) && InNode(a) && Time(a) == t && NodeOf(a) == i && StateOf(a) == s
    && Total(k, a) == v && Spelt(k, a) == ls
  }

  ghost predicate HasAlign(k: Task, t: nat, i: nat, s: nat, v: int, ls: seq<Link>)
    requires IsTask(k)
  {
    exists a :: Placed(k, a, t, i, s, v, ls)
  }

  ghost predicate Leaving(k: Task, a: Align, t: nat, i: nat, v: int, ls: seq<Link>)
    requires IsTask(k)
  {
    Valid(k, a) && a.Leave? && Time(a) == t && NodeOf(a) == i && Total(k, a) == v && Spelt(k, a) == ls
  }

  /** The transitions read off the table after n frames, back from entry h. */
  function Back(k: Task, n: nat, h: int): seq<Link>
    requires IsTask(k) && n <= |k.u.frames|
  {
    Trace(k.g, At(k, n).entries, h)
  }

  function Trace(g: Grammar, es: seq<Entry>, h: int): seq<Link> {
    if Chained(g, es) && 0 <= h < |es| then Links(g, es, h) else []
  }

  /** No alignment beats what the state it is in holds. */
  ghost predicate UpperIn(k: Task, hmms: seq<HmmState>, t: nat)
    requires IsTask(k) && HmmsFit(k.lt, hmms)
  {
    forall a :: Valid(k, a) && InNode(a) && Time(a) == t ==>
      NodeOf(a) < |hmms| && StateOf(a) < k.lt.nEmit && Total(k, a) <= hmms[NodeOf(a)].score[StateOf(a)]
  }

  /** What a live state holds is the score of an alignment, and its history leads back along that alignment. */
  ghost predicate AttainedIn(k: Task, hmms: seq<HmmState>, t: nat)
    requires IsTask(k) && HmmsFit(k.lt, hmms) && t <= |k.u.frames|
  {
    forall i, s :: 0 <= i < |hmms| && 0 <= s < k.lt.nEmit && hmms[i].score[s] > WORST_SCORE ==>
      HasAlign(k, t, i, s, hmms[i].score[s], Back(k, t, hmms[i].hist[s]))
  }

  ghost predicate Shapes(k: Task, hmms: seq<HmmState>) {
    forall i :: 0 <= i < |hmms| ==> Shape(KindOf(k.lt.nEmit), hmms[i])
  }

  /** Before a frame every state of every node holds the best score of the alignments that are there. */
  ghost predicate BestBefore(k: Task, s: State, n: nat)
    requires IsTask(k) && Fit(k.g, k.lt, s) && n <= |k.u.frames|
  {
    && UpperIn(k, s.hmms, n) && AttainedIn(k, s.hmms, n) && Shapes(k, s.hmms) && ActiveExact(s) && s.frame == n
  }

  // ---- backtraces

  /** Wide beams keep the run sound. */
  lemma {:induction false} WideIsSound(k: Task, n: nat, m: nat)
    requires IsTask(k) && m <= n <= |k.u.frames| && Wide(k, n)
    ensures Sound(k.g, k.lt, At(k, m))
    decreases m
  {
    hide Step, Start, Sound, IsPnode, HmmsFit, IsFrame, IsCovered;
    if m == 0 {
      StartIsSound(k.g, k.lt, k.u.sil, k.u.beam, k.u.wbeam, k.hmms);
    } else {
      WideIsSound(k, n, m - 1);
      assert PassesAt(k, m - 1);
      StepKeepsSound(k.g, k.lt, At(k, m - 1), k.u.frames[m - 1]);
    }
  }

  lemma {:induction false} LinksGrow(g: Grammar, es: seq<Entry>, more: seq<Entry>, h: int)
    requires Chained(g, es) && Chained(g, more) && es <= more && h < |es|
    ensures Trace(g, more, h) == Trace(g, es, h)
    decreases h
  {
    if h > 0 {
      assert Follows(g, es, h);
      LinksGrow(g, es, more, es[h].pred);
    }
  }

  lemma TableGrows(k: Task, n: nat)
    requires IsTask(k) && n < |k.u.frames|
    ensures At(k, n).entries <= At(k, n + 1).entries
  {
    hide IsLextree, HmmsFit, IsFrame, Step;
    StepExtends(k.g, k.lt, At(k, n), k.u.frames[n]);
  }

  /** A frame leaves the backtraces of earlier entries as they are. */
  lemma BackGrows(k: Task, n: nat, h: int)
    requires IsTask(k) && n < |k.u.frames| && Wide(k, n + 1) && h < |At(k, n).entries|
    ensures Back(k, n + 1, h) == Back(k, n, h)
  {
    hide IsTask, Wide, At, Links, Chained, Histories, Trace, Fit, FramesOrdered;
    WideIsSound(k, n + 1, n);
    WideIsSound(k, n + 1, n + 1);
    TableGrows(k, n);
    LinksGrow(k.g, At(k, n).entries, At(k, n + 1).entries, h);
  }

  lemma HistKeeps(k: Task, n: nat, i: nat, s: nat)
    requires IsTask(k) && n < |k.u.frames| && Wide(k, n + 1) && i < |At(k, n).hmms| && s < |At(k, n).hmms[i].hist|
    ensures Back(k, n + 1, At(k, n).hmms[i].hist[s]) == Back(k, n, At(k, n).hmms[i].hist[s])
  {
    WideIsSound(k, n + 1, n);
    hide IsTask, Wide, At, Back, Chained;
    assert NodeHist(k.g, At(k, n).entries, k.lt.nodes[i].tree, At(k, n).hmms[i]);
    BackGrows(k, n, At(k, n).hmms[i].hist[s]);
  }

  /** An entry's backtrace is its predecessor's and its own transition. */
  lemma BackOf(k: Task, n: nat, j: nat)
    requires IsTask(k) && n <= |k.u.frames| && Wide(k, n) && j < |At(k, n).entries|
    ensures var e := At(k, n).entries[j];
      Back(k, n, j) == if e.link.Some? then Back(k, n, e.pred) + [e.link.value] else []
  {
    WideIsSound(k, n, n);
    hide IsTask, Wide, At, Histories;
    if j > 0 {
      assert Follows(k.g, At(k, n).entries, j);
    }
  }

  // ---- evaluation

  function EvH(k: Task, n: nat): (r: seq<HmmState>)
    requires IsTask(k) && n < |k.u.frames|
    ensures HmmsFit(k.lt, r)
  {
    Evaluated(k.g, k.lt, At(k, n), k.u.frames[n]).0
  }

  lemma NodeFacts(k: Task, i: nat)
    requires IsTask(k) && i < |k.lt.nodes|
    ensures IsPnode(k.g, k.lt, k.lt.nodes[i]) && IsCovered(k.lt.nodes[i].tp, k.lt.nEmit)
    ensures |k.lt.nodes[i].senid| == k.lt.nEmit && IsTmat(k.lt.nodes[i].tp, k.lt.nEmit)
  {
  }

  /** The senone scores the evaluator of a node is given. */
  function Em(k: Task, t: nat, i: nat): (em: seq<int>)
    requires IsTask(k) && t < |k.u.frames| && i < |k.lt.nodes|
    ensures |em| == k.lt.nEmit
  {
    Emissions(Context(k.u.frames[t].senscr, []), false, k.lt.nodes[i].senid)
  }

  lemma EmBounds(k: Task, n: nat, i: nat)
    requires IsTask(k) && n < |k.u.frames| && i < |k.lt.nodes|
    ensures IsEmission(Em(k, n, i)) && NonPositive(Em(k, n, i))
  {
    var f := k.u.frames[n];
    assert IsFrame(k.lt, f) && IdsOk(Context(f.senscr, []), false, k.lt.nodes[i].senid);
  }

  lemma EvalOf(k: Task, n: nat, i: nat)
    requires IsTask(k) && n < |k.u.frames| && i < |k.lt.nodes| && ActiveExact(At(k, n))
    ensures var s := At(k, n); NodesFit(k.lt, s.active) && |s.hmms| == |k.lt.nodes| && IsState(s.hmms[i], k.lt.nEmit)
    ensures IsTmat(k.lt.nodes[i].tp, k.lt.nEmit)
    ensures var s := At(k, n);
      EvH(k, n)[i] == if i in s.active then VitEval(k.lt.nodes[i].tp, Em(k, n, i), false, s.hmms[i]) else s.hmms[i]
  {
    NodeFacts(k, i);
    var s := At(k, n);
    hide IsCovered, VitEval, EvalFrom, ActiveExact, IsPnode;
    assert NoDup(s.active) by { ActiveNoDup(s); }
    if s.active != [] {
      EvalFromEach(k.g, k.lt, k.u.frames[n], s.hmms, WORST_SCORE, s.active, i);
    }
  }

  lemma ActiveNoDup(s: State)
    requires ActiveExact(s)
    ensures NoDup(s.active)
  {
  }

  lemma InactiveCleared(s: State, i: nat)
    requires ActiveExact(s) && i < |s.hmms| && i !in s.active
    ensures s.hmms[i] == Cleared(s.hmms[i])
  {
  }

  lemma Placeable(k: Task, a: Align)
    requires IsTask(k) && Valid(k, a) && (InNode(a) || a.Leave?)
    ensures NodeOf(a) < |k.lt.nodes| && (InNode(a) ==> StateOf(a) < k.lt.nEmit)
  {
  }

  /** Every alignment there is passes the thresholds of its frame, so it is live. */
  lemma WideIsLive(k: Task, n: nat)
    requires IsTask(k) && n <= |k.u.frames| && Wide(k, n)
    ensures AllLive(k, n)
  {
    forall a | Valid(k, a) && Time(a) <= n ensures Total(k, a) > WORST_SCORE {
      if Time(a) > 0 {
        assert PassesAt(k, Time(a) - 1);
      }
    }
  }

  lemma AlignIsLive(k: Task, n: nat, a: Align)
    requires IsTask(k) && AllLive(k, n) && Valid(k, a) && Time(a) <= n
    ensures Total(k, a) > WORST_SCORE
  {
  }

  /** A live state's best alignment spends the frame. */
  lemma SpendFrame(k: Task, n: nat, i: nat, s: nat, to: nat, v: int, ls: seq<Link>)
    returns (p: Align)
    requires IsTask(k) && n < |k.u.frames| && i < |k.lt.nodes| && s < k.lt.nEmit && to <= k.lt.nEmit
    requires IsTmat(k.lt.nodes[i].tp, |k.lt.nodes[i].tp|) && |k.lt.nodes[i].tp| == k.lt.nEmit
    requires HasAlign(k, n, i, s, v, ls) && Arc(k.lt.nodes[i].tp, s, to)
    ensures Placed(k, p, n, i, s, v, ls)
    ensures var a := if to < k.lt.nEmit then Spend(p, to) else Leave(p);
      && Valid(k, a) && Time(a) == n + 1 && NodeOf(a) == i && (to < k.lt.nEmit ==> StateOf(a) == to)
      && Total(k, a) == v + Em(k, n, i)[s] - k.lt.nodes[i].tp[s][to] && Spelt(k, a) == ls
  {
    hide IsTask;
    p :| Placed(k, p, n, i, s, v, ls);
  }

  lemma NodeSafe(k: Task, n: nat, i: nat)
    requires IsTask(k) && n < |k.u.frames| && AllLive(k, n + 1) && i < |k.lt.nodes| && BestBefore(k, At(k, n), n)
    ensures IsTmat(k.lt.nodes[i].tp, k.lt.nEmit) && IsState(At(k, n).hmms[i], k.lt.nEmit)
    ensures SafeStep(k.lt.nodes[i].tp, Em(k, n, i), At(k, n).hmms[i])
  {
    var st, tp, em := At(k, n).hmms[i], k.lt.nodes[i].tp, Em(k, n, i);
    NodeFacts(k, i);
    hide IsTask, AllLive, At, IsPnode, UpperIn, Shapes, ActiveExact;
    forall s: nat, to: nat | s < |em| && to < |em| && Alive(st, s) && Arc(tp, s, to)
      ensures Cand(tp, em, st, s, to) > WORST_SCORE
    {
      assert HasAlign(k, n, i, s, st.score[s], Back(k, n, st.hist[s]));
      var p := SpendFrame(k, n, i, s, to, st.score[s], Back(k, n, st.hist[s]));
      AlignIsLive(k, n + 1, Spend(p, to));
    }
  }

  lemma NodeStep(k: Task, n: nat, i: nat)
    requires IsTask(k) && n < |k.u.frames| && AllLive(k, n + 1) && i in At(k, n).active && BestBefore(k, At(k, n), n)
    ensures i < |k.lt.nodes| && IsTmat(k.lt.nodes[i].tp, k.lt.nEmit) && IsState(At(k, n).hmms[i], k.lt.nEmit)
    ensures StepOptimal(k.lt.nodes[i].tp, Em(k, n, i), At(k, n).hmms[i], EvH(k, n)[i])
    ensures Shape(KindOf(k.lt.nEmit), EvH(k, n)[i])
  {
    EvalOf(k, n, i);
    NodeFacts(k, i);
    EmBounds(k, n, i);
    NodeSafe(k, n, i);
    hide IsTask, AllLive, At, IsPnode, StepOptimal, SafeStep, Shape, Eval3, Eval5, EvalAny, EvH;
    assert Shape(KindOf(k.lt.nEmit), At(k, n).hmms[i]);
    StepKind(KindOf(k.lt.nEmit), k.lt.nodes[i].tp, Em(k, n, i), At(k, n).hmms[i]);
  }

  /** Where an alignment is before the frame, its node is active. */
  lemma ActiveThere(k: Task, n: nat, p: Align)
    requires IsTask(k) && n < |k.u.frames| && AllLive(k, n + 1) && BestBefore(k, At(k, n), n)
    requires Valid(k, p) && InNode(p) && Time(p) == n
    ensures NodeOf(p) < |k.lt.nodes| && StateOf(p) < k.lt.nEmit && NodeOf(p) in At(k, n).active
    ensures IsState(At(k, n).hmms[NodeOf(p)], k.lt.nEmit)
    ensures Total(k, p) <= At(k, n).hmms[NodeOf(p)].score[StateOf(p)]
  {
    hide IsTask, AllLive, At, Shapes, AttainedIn;
    Placeable(k, p);
    AlignIsLive(k, n + 1, p);
    var s := At(k, n);
    if NodeOf(p) !in s.active {
      InactiveCleared(s, NodeOf(p));
    }
  }

  /** What an alignment that has spent the frame finds in its node. */
  lemma EvUpper(k: Task, n: nat, a: Align)
    requires IsTask(k) && n < |k.u.frames| && AllLive(k, n + 1) && BestBefore(k, At(k, n), n)
    requires Valid(k, a) && (a.Spend? || a.Leave?) && Time(a) == n + 1
    ensures NodeOf(a) < |k.lt.nodes| && NodeOf(a) in At(k, n).active
    ensures var r := EvH(k, n)[NodeOf(a)];
      && (a.Spend? ==> a.state < k.lt.nEmit && Total(k, a) <= r.score[a.state]) && (a.Leave? ==> Total(k, a) <= r.out)
      && Total(k, a) <= r.best
  {
    var p := a.prev;
    ActiveThere(k, n, p);
    AlignIsLive(k, n + 1, a);
    SpentTotal(k, a);
    NodeStep(k, n, NodeOf(p));
    hide IsTask, AllLive, At, BestBefore, Shape, EvH, Valid, Total;
    StepReaches(k.lt.nodes[NodeOf(p)].tp, Em(k, n, NodeOf(p)), At(k, n).hmms[NodeOf(p)], EvH(k, n)[NodeOf(p)],
                StateOf(p), if a.Spend? then a.state else k.lt.nEmit, Total(k, a));
  }

  /** The score of an alignment that has just spent a frame. */
  lemma SpentTotal(k: Task, a: Align)
    requires IsTask(k) && Valid(k, a) && (a.Spend? || a.Leave?)
    ensures Valid(k, a.prev) && InNode(a.prev) && Time(a) == Time(a.prev) + 1 && NodeOf(a) == NodeOf(a.prev)
    ensures var to := if a.Spend? then a.state else k.lt.nEmit;
      && CanSpend(k, a.prev, to) && (a.Spend? ==> to < k.lt.nEmit)
      && Total(k, a) == Total(k, a.prev) + Em(k, Time(a.prev), NodeOf(a.prev))[StateOf(a.prev)]
                        - k.lt.nodes[NodeOf(a.prev)].tp[StateOf(a.prev)][to]
  {
    hide IsTask;
  }

  /** An optimal step takes a live candidate to its destination. */
  lemma StepReaches(tp: Tmat, em: seq<int>, st: HmmState, r: HmmState, from: nat, to: nat, v: int)
    requires IsTmat(tp, |em|) && IsState(st, |em|) && StepOptimal(tp, em, st, r)
    requires from < |em| && to <= |em| && Arc(tp, from, to) && WORST_SCORE < v <= Cand(tp, em, st, from, to)
    ensures (if to < |em| then r.score[to] else r.out) >= v && r.best >= v
  {
    if to < |em| {
      assert BestInto(tp, em, st, to, r.score[to], r.hist[to]);
    }
  }

  /** What a live state of an active node holds after the frame, or its exit, comes from an alignment there. */
  lemma EvSource(k: Task, n: nat, i: nat, to: nat) returns (a: Align, from: nat)
    requires IsTask(k) && n < |k.u.frames| && AllLive(k, n + 1) && BestBefore(k, At(k, n), n) && i in At(k, n).active
    requires i < |k.lt.nodes| && to <= k.lt.nEmit
    requires (if to < k.lt.nEmit then EvH(k, n)[i].score[to] else EvH(k, n)[i].out) > WORST_SCORE
    ensures from < k.lt.nEmit && from < |At(k, n).hmms[i].hist|
    ensures var h := At(k, n).hmms[i].hist[from];
      && h == (if to < k.lt.nEmit then EvH(k, n)[i].hist[to] else EvH(k, n)[i].outHist)
      && (to < k.lt.nEmit ==> Placed(k, a, n + 1, i, to, EvH(k, n)[i].score[to], Back(k, n, h)))
      && (to == k.lt.nEmit ==> Leaving(k, a, n + 1, i, EvH(k, n)[i].out, Back(k, n, h)))
  {
    hide AllLive, At, UpperIn, Shape, Shapes, EvH, ActiveExact, Back, IsPnode;
    EmBounds(k, n, i);
    NodeFacts(k, i);
    NodeStep(k, n, i);
    hide IsTask;
    var st, tp, em, r := At(k, n).hmms[i], k.lt.nodes[i].tp, Em(k, n, i), EvH(k, n)[i];
    var v, h := if to < |em| then r.score[to] else r.out, if to < |em| then r.hist[to] else r.outHist;
    assert BestInto(tp, em, st, to, v, h);
    from :| 0 <= from < |em| && Arc(tp, from, to) && Cand(tp, em, st, from, to) == v && st.hist[from] == h;
    assert HasAlign(k, n, i, from, st.score[from], Back(k, n, h));
    var p := SpendFrame(k, n, i, from, to, st.score[from], Back(k, n, h));
    a := if to < |em| then Spend(p, to) else Leave(p);
  }

  /** What a node holds after the frame was spent in it. */
  lemma EvAttained(k: Task, n: nat, i: nat, to: nat)
    requires IsTask(k) && n < |k.u.frames| && Wide(k, n + 1) && BestBefore(k, At(k, n), n) && i < |k.lt.nodes|
    requires to < k.lt.nEmit && EvH(k, n)[i].score[to] > WORST_SCORE
    ensures HasAlign(k, n + 1, i, to, EvH(k, n)[i].score[to], Back(k, n + 1, EvH(k, n)[i].hist[to]))
  {
    hide IsTask, Wide, AllLive, At, UpperIn, AttainedIn, Shapes, EvH, ActiveExact, VitEval, Back, IsTmat;
    EvalOf(k, n, i);
    if i !in At(k, n).active {
      InactiveCleared(At(k, n), i);
    } else {
      WideIsLive(k, n + 1);
      var a, from := EvSource(k, n, i, to);
      HistKeeps(k, n, i, from);
    }
  }

  lemma EvLeaves(k: Task, n: nat, i: nat) returns (a: Align)
    requires IsTask(k) && n < |k.u.frames| && Wide(k, n + 1) && BestBefore(k, At(k, n), n) && i in At(k, n).active
    requires i < |k.lt.nodes| && EvH(k, n)[i].out > WORST_SCORE
    ensures Leaving(k, a, n + 1, i, EvH(k, n)[i].out, Back(k, n + 1, EvH(k, n)[i].outHist))
  {
    hide IsTask, Wide, AllLive, At, BestBefore, EvH, Back, Leaving, Placed;
    WideIsLive(k, n + 1);
    var from: nat;
    a, from := EvSource(k, n, i, k.lt.nEmit);
    HistKeeps(k, n, i, from);
  }

  // ---- word exits

  /** An entry that serves alignment a in right context c at least as well. */
  predicate EntryFor(k: Task, e: Entry, a: Align, c: nat)
    requires IsTask(k) && Valid(k, a)
  {
    Dest(k.g, e) == DestOf(k, a) && e.lc == LcOf(k, a) && c in e.rc && e.score >= Total(k, a)
  }

  /** The transitions read off the table after n frames, back from an entry of it or about to be. */
  function BackFrom(k: Task, n: nat, e: Entry): seq<Link>
    requires IsTask(k) && n <= |k.u.frames|
  {
    if e.link.Some? then Back(k, n, e.pred) + [e.link.value] else []
  }

  /** An entry that is alignment a, with part of its right contexts, and leads back along it. */
  predicate EntryOf(k: Task, e: Entry, a: Align, n: nat)
    requires IsTask(k) && n <= |k.u.frames|
  {
    && Valid(k, a) && Dest(k.g, e) == DestOf(k, a) && e.lc == LcOf(k, a) && e.rc <= RcOf(k, a) && e.score == Total(k, a)
    && Spelt(k, a) == BackFrom(k, n, e)
  }

  ghost predicate Served(k: Task, es: seq<Entry>, lo: nat, a: Align, c: nat)
    requires IsTask(k) && Valid(k, a)
  {
    exists j :: lo <= j < |es| && EntryFor(k, es[j], a, c)
  }

  ghost predicate UpperEntries(k: Task, es: seq<Entry>, lo: nat, t: nat)
    requires IsTask(k)
  {
    forall a, c :: Valid(k, a) && EndsWord(a) && Time(a) == t && c in RcOf(k, a) ==> Served(k, es, lo, a, c)
  }

  ghost predicate IsAligned(k: Task, e: Entry, t: nat)
    requires IsTask(k) && t <= |k.u.frames|
  {
    exists a :: EntryOf(k, e, a, t) && EndsWord(a) && Time(a) == t
  }

  ghost predicate AttainedEntries(k: Task, es: seq<Entry>, lo: nat, t: nat)
    requires IsTask(k) && t <= |k.u.frames|
  {
    forall j :: lo <= j < |es| ==> IsAligned(k, es[j], t)
  }

  function Exits(k: Task, n: nat): (x: seq<Entry>)
    requires IsTask(k) && n < |k.u.frames|
    ensures AllFit(x, k.g.nState, k.lt.nCi)
  {
    Propagated(k.g, k.lt, At(k, n), k.u.frames[n]).exits
  }

  /** The exits offered in a frame: those of the active leaves. */
  lemma ExitsAre(k: Task, n: nat)
    requires IsTask(k) && n < |k.u.frames|
    ensures NodesFit(k.lt, At(k, n).active) && NonEmptyContexts(Exits(k, n))
    ensures ExitsOf(k.g, k.lt, EvH(k, n), At(k, n).active, At(k, n).frame, Limits(k, n), [], Exits(k, n))
  {
    hide At, ExitsOf, PruneFrom, NonEmptyContexts, Evaluated, IsFrame, ThresholdsOf;
    var s := At(k, n);
    assert NonEmptyContexts([]) by { NoneEmpty(); }
    PruneExits(k.g, k.lt, Prop(Act(EvH(k, n), []), []), s.active, s.frame, Limits(k, n));
    ExitsHaveContexts(k.g, k.lt, Prop(Act(EvH(k, n), []), []), s.active, s.frame, Limits(k, n));
  }

  lemma NoneEmpty()
    ensures NonEmptyContexts([])
  {
  }

  lemma WidePasses(k: Task, n: nat)
    requires IsTask(k) && n < |k.u.frames| && Wide(k, n + 1)
    ensures PassesAt(k, n)
  {
  }

  /** An alignment that has just ended a word is among the exits. */
  lemma ExitUpper(k: Task, n: nat, a: Align) returns (x: Entry)
    requires IsTask(k) && n < |k.u.frames| && Wide(k, n + 1) && BestBefore(k, At(k, n), n)
    requires Valid(k, a) && a.Exit? && Time(a) == n + 1
    ensures x in Exits(k, n) && x.rc == RcOf(k, a) && x.link.Some? && x.score >= Total(k, a)
    ensures Dest(k.g, x) == DestOf(k, a) && x.lc == LcOf(k, a)
  {
    hide Wide, AllLive, At, BestBefore, EvH, Exits, Limits, IsPnode, NonEmptyContexts;
    var i := NodeOf(a.prev);
    WideIsLive(k, n + 1);
    EvUpper(k, n, a.prev);
    ExitsAre(k, n);
    assert PassesAt(k, n) by { WidePasses(k, n); }
    hide IsTask;
    assert NodeOf(a) == i;
    x :| x in Exits(k, n) && Offered(k.g, k.lt, EvH(k, n)[i], i, At(k, n).frame, Limits(k, n), x);
  }

  lemma ExitSource(k: Task, n: nat, x: Entry) returns (i: nat)
    requires IsTask(k) && n < |k.u.frames| && x in Exits(k, n)
    ensures i in At(k, n).active && i < |k.lt.nodes|
    ensures Offered(k.g, k.lt, EvH(k, n)[i], i, At(k, n).frame, Limits(k, n), x)
  {
    ExitsAre(k, n);
    hide At, EvH, Exits, Limits, Offered, IsTask;
    assert FromLeaf(k.g, k.lt, EvH(k, n), At(k, n).active, At(k, n).frame, Limits(k, n), x);
    i :| i in At(k, n).active && Offered(k.g, k.lt, EvH(k, n)[i], i, At(k, n).frame, Limits(k, n), x);
  }

  /** An exit alignment and the entry offered for it. */
  lemma ExitIsEntry(k: Task, l: Align, t: nat, i: nat, st: HmmState, frame: int, th: Thresholds, x: Entry)
    requires IsTask(k) && i < |k.lt.nodes| && t <= |k.u.frames| && Offered(k.g, k.lt, st, i, frame, th, x)
    requires Leaving(k, l, t, i, st.out, Back(k, t, st.outHist))
    ensures EntryOf(k, x, Exit(l), t) && Time(Exit(l)) == t && x.link.Some?
  {
    hide IsTask, Back;
    var a := Exit(l);
    assert NodeOf(a) == i && Valid(k, a) && Total(k, a) == st.out;
  }

  /** Every exit offered is an alignment that has just ended a word. */
  lemma ExitAligned(k: Task, n: nat, x: Entry) returns (a: Align)
    requires IsTask(k) && n < |k.u.frames| && Wide(k, n + 1) && BestBefore(k, At(k, n), n) && x in Exits(k, n)
    ensures EntryOf(k, x, a, n + 1) && a.Exit? && Time(a) == n + 1 && x.link.Some?
  {
    hide IsTask, At, BestBefore, EvH, Exits, Limits, Leaving, EntryOf, Back;
    assert PassesAt(k, n);
    var i := ExitSource(k, n, x);
    var l := EvLeaves(k, n, i);
    ExitIsEntry(k, l, n + 1, i, EvH(k, n)[i], At(k, n).frame, Limits(k, n), x);
    a := Exit(l);
  }

  lemma TableFits(k: Task, n: nat)
    requires IsTask(k) && n <= |k.u.frames|
    ensures IsGrammar(k.g) && EntriesFit(k.g, k.lt, At(k, n).entries)
  {
    hide At;
  }

  /** The table after a frame. */
  lemma TableAfter(k: Task, n: nat)
    requires IsTask(k) && n < |k.u.frames|
    requires IsGrammar(k.g) && EntriesFit(k.g, k.lt, At(k, n).entries)
    ensures At(k, n + 1).entries == PrunedTable(k.g, k.lt, At(k, n).entries, Exits(k, n), Limits(k, n).word)
  {
    hide IsLextree, HmmsFit, IsFrame, Propagated, Evaluated, WordTrans, Sweep, WithNulls, WithExits, Wide;
  }

  lemma ServesFor(k: Task, e: Entry, x: Entry, a: Align, c: nat)
    requires IsTask(k) && Valid(k, a) && Serves(e, x, c)
    requires Dest(k.g, x) == DestOf(k, a) && x.lc == LcOf(k, a) && x.score >= Total(k, a)
    ensures EntryFor(k, e, a, c)
  {
  }

  /** Every alignment that ends a word in the frame, by a word exit or a null transition after one, has an entry
      for each of its right contexts that serves it as well. */
  lemma EntriesUpper(k: Task, n: nat, a: Align, c: nat)
    requires IsTask(k) && n < |k.u.frames| && Wide(k, n + 1) && BestBefore(k, At(k, n), n)
    requires Valid(k, a) && EndsWord(a) && Time(a) == n + 1 && c in RcOf(k, a)
    ensures Served(k, At(k, n + 1).entries, |At(k, n).entries|, a, c)
  {
    TableFits(k, n);
    TableAfter(k, n);
    ExitsAre(k, n);
    assert PassesAt(k, n);
    hide IsTask, Wide, BestBefore, Exits, Limits, At, PrunedTable, WithExits, Serves, ExitsOf, NonEmptyContexts, AllFit;
    var es, xs, w := At(k, n).entries, Exits(k, n), Limits(k, n).word;
    if a.Exit? {
      var x := ExitUpper(k, n, a);
      var j := ExitIsServed(k.g, k.lt, es, xs, w, x, c);
      ServesFor(k, At(k, n + 1).entries[j], x, a, c);
    } else {
      NullUpper(k, n, a, c);
    }
  }

  lemma NullUpper(k: Task, n: nat, a: Align, c: nat)
    requires IsTask(k) && n < |k.u.frames| && Wide(k, n + 1) && BestBefore(k, At(k, n), n)
    requires Valid(k, a) && a.Null? && Time(a) == n + 1 && c in RcOf(k, a)
    ensures Served(k, At(k, n + 1).entries, |At(k, n).entries|, a, c)
  {
    TableFits(k, n);
    TableAfter(k, n);
    ExitsAre(k, n);
    assert PassesAt(k, n);
    var es, xs, w := At(k, n).entries, Exits(k, n), Limits(k, n).word;
    assert Total(k, a) > w;
    hide IsTask, Wide, BestBefore, Exits, Limits, At, PrunedTable, WithExits, ExitsOf, NonEmptyContexts, AllFit;
    var x := ExitUpper(k, n, a.prev);
    var kx := ExitIsServed(k.g, k.lt, es, xs, w, x, c);
    assert NullEntry(x, 0, a.link).score >= Total(k, a);
    var j := NullIsServed(k.g, k.lt, es, xs, w, x, 0, kx, a.link, c);
    hide Serves;
    ServesFor(k, At(k, n + 1).entries[j], NullEntry(x, 0, a.link), a, c);
  }

  /** A survivor of the exits is an alignment. */
  lemma SurvivorAligned(k: Task, n: nat, x: Entry) returns (a: Align)
    requires IsTask(k) && n < |k.u.frames| && Wide(k, n + 1) && BestBefore(k, At(k, n), n)
    requires x in Survivors(Exits(k, n), k.g.nState, k.lt.nCi)
    ensures EntryOf(k, x, a, n + 1) && a.Exit? && Time(a) == n + 1
  {
    hide IsTask, Wide, BestBefore, Exits, At, Survivors, AllFit, Back;
    var o := SurvivorIsOffer(Exits(k, n), k.g.nState, k.lt.nCi, x);
    a := ExitAligned(k, n, o);
  }

  /** Entry x is o sent through the null transition l, with part of its contexts. */
  predicate SentThrough(g: Grammar, o: Entry, l: Link, x: Entry) {
    && Dest(g, o) < |g.arcs| && l in g.arcs[Dest(g, o)] && l.wid == -1 && x.link == Some(l)
    && x.score == o.score + ShiftedProb(l) && x.lc == o.lc && x.rc <= o.rc
  }

  /** Entry x is the one at its predecessor's index, a survivor of the exits, sent through a null transition. */
  ghost predicate FromSurvivor(g: Grammar, table: seq<Entry>, exits: seq<Entry>, nState: nat, nCi: nat, x: Entry)
    requires AllFit(exits, nState, nCi)
  {
    && 0 <= x.pred < |table| && table[x.pred] in Survivors(exits, nState, nCi)
    && exists l :: SentThrough(g, table[x.pred], l, x)
  }

  /** What is new in the table: survivors of the exits, and what survives of their null transitions. */
  lemma PrunedSource(g: Grammar, lt: Lextree, es: seq<Entry>, exits: seq<Entry>, w: int, j: nat)
    requires IsGrammar(g) && EntriesFit(g, lt, es) && AllFit(exits, g.nState, lt.nCi)
    requires |es| <= j < |PrunedTable(g, lt, es, exits, w)|
    ensures var table := PrunedTable(g, lt, es, exits, w);
      table[j] in Survivors(exits, g.nState, lt.nCi) || FromSurvivor(g, table, exits, g.nState, lt.nCi, table[j])
  {
    var e1 := WithExits(g, lt, es, exits);
    var x := PrunedTable(g, lt, es, exits, w)[j];
    if j >= |e1| {
      var nulls := NullOffers(g, e1, |es|, |e1|, w);
      NullOffersFit(g, lt, e1, |es|, |e1|, w);
      assert x == Survivors(nulls, g.nState, lt.nCi)[j - |e1|];
      hide Survivors, NullOffers, AllFit;
      var n := SurvivorIsOffer(nulls, g.nState, lt.nCi, x);
      InNullOffers(g, e1, |es|, |e1|, w, n);
      var i, l :| |es| <= i < |e1| && NullOf(g, e1, i, l, w, n);
      assert PrunedTable(g, lt, es, exits, w)[i] == e1[i] && SentThrough(g, e1[i], l, x);
    }
  }

  lemma SentAligned(k: Task, o: Entry, l: Link, x: Entry, p: Align, t: nat)
    requires IsTask(k) && t <= |k.u.frames| && EntryOf(k, o, p, t) && p.Exit? && Time(p) == t
    requires SentThrough(k.g, o, l, x) && Back(k, t, x.pred) == BackFrom(k, t, o)
    ensures IsAligned(k, x, t)
  {
    hide IsTask, Back;
    assert EntryOf(k, x, Null(p, l), t);
  }

  /** Every entry made in the frame is an alignment. */
  lemma EntriesAligned(k: Task, n: nat, j: nat)
    requires IsTask(k) && n < |k.u.frames| && Wide(k, n + 1) && BestBefore(k, At(k, n), n)
    requires |At(k, n).entries| <= j < |At(k, n + 1).entries|
    ensures IsAligned(k, At(k, n + 1).entries[j], n + 1)
  {
    hide IsTask, Wide, BestBefore, Exits, Limits, At, Survivors, AllFit, PrunedTable, EntriesFit, EntryOf, SentThrough,
         Back;
    TableFits(k, n);
    TableAfter(k, n);
    var x := At(k, n + 1).entries[j];
    PrunedSource(k.g, k.lt, At(k, n).entries, Exits(k, n), Limits(k, n).word, j);
    if x in Survivors(Exits(k, n), k.g.nState, k.lt.nCi) {
      var a := SurvivorAligned(k, n, x);
    } else {
      var o := At(k, n + 1).entries[x.pred];
      var l :| SentThrough(k.g, o, l, x);
      var p := SurvivorAligned(k, n, o);
      BackOf(k, n + 1, x.pred);
      SentAligned(k, o, l, x, p, n + 1);
    }
  }

  // ---- nodes in the next frame

  /** A node after pruning and propagation, and after the word transitions. */
  function Mid(k: Task, n: nat): (r: seq<HmmState>)
    requires IsTask(k) && n < |k.u.frames|
    ensures HmmsFit(k.lt, r)
  {
    Propagated(k.g, k.lt, At(k, n), k.u.frames[n]).act.hmms
  }

  function Fin(k: Task, n: nat): (r: seq<HmmState>)
    requires IsTask(k) && n < |k.u.frames|
    ensures HmmsFit(k.lt, r)
  {
    Entering(k.g, k.lt, At(k, n), k.u.frames[n]).hmms
  }

  lemma MidFlows(k: Task, n: nat, i: nat)
    requires IsTask(k) && n < |k.u.frames| && i < |k.lt.nodes|
    ensures NodesFit(k.lt, At(k, n).active)
    ensures Flowed(k.lt, EvH(k, n), At(k, n).active, At(k, n).frame, Limits(k, n), i, Mid(k, n)[i])
  {
    hide At, Flowed, PruneFrom, Evaluated, IsFrame, ThresholdsOf;
    var s := At(k, n);
    PruneFlows(k.g, k.lt, Prop(Act(EvH(k, n), []), []), s.active, s.frame, Limits(k, n), i);
  }

  lemma FinRaises(k: Task, n: nat, i: nat)
    requires IsTask(k) && n < |k.u.frames| && i < |k.lt.nodes|
    ensures Raised(Mid(k, n)[i], Fin(k, n)[i], At(k, n).frame + 1)
  {
    hide At, Propagated, Evaluated, IsFrame, Step, WordTrans, Raised, IsPnode, IsCovered, HmmsFit;
    var s, f := At(k, n), k.u.frames[n];
    var es := Step(k.g, k.lt, s, f).entries;
    StepExtends(k.g, k.lt, s, f);
    var best := Evaluated(k.g, k.lt, s, f).1;
    var a := Propagated(k.g, k.lt, s, f).act;
    WordsRaise(k.g, k.lt, a, es, |s.entries|, |es|, s.frame + 1, best + f.beam, i);
  }

  lemma FinBest(k: Task, n: nat, i: nat)
    requires IsTask(k) && n < |k.u.frames| && i < |k.lt.nodes|
    ensures var es, lo := At(k, n + 1).entries, |At(k, n).entries|;
      && lo <= |es| && IsState(Mid(k, n)[i], k.lt.nEmit) && IsState(Fin(k, n)[i], k.lt.nEmit) && k.lt.nEmit > 0
      && BestOffered(k.g, k.lt, es, lo, |es|, i, Limits(k, n).main, Mid(k, n)[i], Fin(k, n)[i])
  {
    hide Propagated, Evaluated, IsFrame, Step, WordTrans, Raised, BestOffered, IsPnode, IsCovered, Clean;
    var s, f := At(k, n), k.u.frames[n];
    var es := Step(k.g, k.lt, s, f).entries;
    StepExtends(k.g, k.lt, s, f);
    assert At(k, n + 1) == Step(k.g, k.lt, s, f);
    hide At;
    var best := Evaluated(k.g, k.lt, s, f).1;
    var a := Propagated(k.g, k.lt, s, f).act;
    WordTransBest(k.g, k.lt, a, es, |s.entries|, |es|, s.frame + 1, best + f.beam, i);
  }

  lemma SweptAre(k: Task, n: nat, i: nat)
    requires IsTask(k) && n < |k.u.frames| && i < |k.lt.nodes|
    ensures |At(k, n + 1).hmms| == |k.lt.nodes|
    ensures At(k, n + 1).hmms[i]
         == if i in At(k, n).active && Fin(k, n)[i].frame == At(k, n).frame then Cleared(Fin(k, n)[i]) else Fin(k, n)[i]
  {
    var s, f := At(k, n), k.u.frames[n];
    assert At(k, n + 1) == Step(k.g, k.lt, s, f);
    hide At, Propagated, Evaluated, IsFrame, WordTrans, Sweep, IsPnode, WithNulls, WithExits;
    SweepEach(k.lt, Fin(k, n), s.active, s.frame);
  }

  /** Raising the score of state 0 lowers none. */
  lemma RaisedScore(a: HmmState, b: HmmState, nf: int, s: nat)
    requires Raised(a, b, nf) && s < |a.score|
    ensures s < |b.score| && b.score[s] >= a.score[s] && (s > 0 ==> b.score[s] == a.score[s])
  {
    assert s > 0 ==> b.score[s] == b.score[1..][s - 1];
  }

  /** What an alignment that is in a node for the next frame finds there, before the sweep. */
  lemma FinUpper(k: Task, n: nat, a: Align)
    requires IsTask(k) && n < |k.u.frames| && Wide(k, n + 1) && BestBefore(k, At(k, n), n)
    requires Valid(k, a) && InNode(a) && Time(a) == n + 1
    ensures NodeOf(a) < |k.lt.nodes| && StateOf(a) < k.lt.nEmit
    ensures Total(k, a) <= Fin(k, n)[NodeOf(a)].score[StateOf(a)]
  {
    Placeable(k, a);
    var i := NodeOf(a);
    NodeFacts(k, i);
    MidFlows(k, n, i);
    FinRaises(k, n, i);
    hide IsTask, Wide, AllLive, BestBefore, Mid, Fin, EvH, At, Limits, Flowed, IsPnode, IsCovered;
    assert Raised(EvH(k, n)[i], Mid(k, n)[i], At(k, n).frame + 1) by { FlowedRaises(k, n, i); }
    if a.Spend? {
      WideIsLive(k, n + 1);
      EvUpper(k, n, a);
      RaisedScore(EvH(k, n)[i], Mid(k, n)[i], At(k, n).frame + 1, a.state);
      RaisedScore(Mid(k, n)[i], Fin(k, n)[i], At(k, n).frame + 1, a.state);
    } else if a.Down? {
      DownUpper(k, n, a);
      RaisedScore(Mid(k, n)[i], Fin(k, n)[i], At(k, n).frame + 1, 0);
    } else {
      WordUpper(k, n, a);
    }
  }

  lemma FlowedRaises(k: Task, n: nat, i: nat)
    requires IsTask(k) && n < |k.u.frames| && i < |k.lt.nodes| && NodesFit(k.lt, At(k, n).active)
    requires Flowed(k.lt, EvH(k, n), At(k, n).active, At(k, n).frame, Limits(k, n), i, Mid(k, n)[i])
    ensures Raised(EvH(k, n)[i], Mid(k, n)[i], At(k, n).frame + 1)
  {
  }

  lemma DownUpper(k: Task, n: nat, a: Align)
    requires IsTask(k) && n < |k.u.frames| && Wide(k, n + 1) && BestBefore(k, At(k, n), n)
    requires Valid(k, a) && a.Down? && Time(a) == n + 1
    ensures a.node < |k.lt.nodes| && k.lt.nEmit > 0 && Total(k, a) <= Mid(k, n)[a.node].score[0]
  {
    hide Wide, AllLive, BestBefore, Mid, EvH, At, Limits, IsPnode, IsCovered;
    var i := NodeOf(a.prev);
    WideIsLive(k, n + 1);
    EvUpper(k, n, a.prev);
    MidFlows(k, n, a.node);
    NodeFacts(k, a.node);
    assert PassesAt(k, n) by { WidePasses(k, n); }
    assert Total(k, a.prev) > Limits(k, n).main && Total(k, a.prev) > Limits(k, n).phone;
    assert Total(k, a) > Limits(k, n).main;
    hide IsTask, PassesAt;
    assert Total(k, a) == Total(k, a.prev) + k.lt.nodes[a.node].logs2prob;
    assert Gives(k.lt, EvH(k, n)[i], i, a.node, Limits(k, n));
  }

  lemma WordUpper(k: Task, n: nat, a: Align)
    requires IsTask(k) && n < |k.u.frames| && Wide(k, n + 1) && BestBefore(k, At(k, n), n)
    requires Valid(k, a) && a.Word? && Time(a) == n + 1
    ensures a.node < |k.lt.nodes| && k.lt.nEmit > 0 && Total(k, a) <= Fin(k, n)[a.node].score[0]
  {
    hide Wide, BestBefore, Fin, At, Limits, Mid, IsPnode, IsCovered;
    var p, r := a.prev, a.node;
    var c := k.lt.nodes[r].ciExt;
    EntriesUpper(k, n, p, c);
    FinBest(k, n, r);
    assert PassesAt(k, n) by { WidePasses(k, n); }
    assert Total(k, a) > Limits(k, n).main;
    hide IsTask, PassesAt;
    var es, lo := At(k, n + 1).entries, |At(k, n).entries|;
    var j :| lo <= j < |es| && EntryFor(k, es[j], p, c);
    assert Total(k, a) == Total(k, p) + k.lt.nodes[r].logs2prob;
    assert Offers(k.g, k.lt, es[j], r, Limits(k, n).main, es[j].score + k.lt.nodes[r].logs2prob);
  }

  /** A node is swept only when nothing is alive in it. */
  lemma SweptIsDead(k: Task, n: nat, i: nat, s: nat)
    requires IsTask(k) && n < |k.u.frames| && Wide(k, n + 1) && BestBefore(k, At(k, n), n)
    requires i in At(k, n).active && i < |k.lt.nodes| && Fin(k, n)[i].frame == At(k, n).frame && s < k.lt.nEmit
    ensures Fin(k, n)[i].score[s] <= Limits(k, n).main || Fin(k, n)[i].score[s] <= WORST_SCORE
  {
    WideIsLive(k, n + 1);
    NodeStep(k, n, i);
    MidFlows(k, n, i);
    FinRaises(k, n, i);
    EvaluatedActivity(k.g, k.lt, At(k, n), k.u.frames[n]);
    assert EvH(k, n)[i].frame == At(k, n).frame by { EvFrame(k, n, i); }
    hide IsTask, Wide, AllLive, BestBefore, Mid, Fin, EvH, At, Limits, BestInto, Shape;
    assert Fin(k, n)[i] == Mid(k, n)[i] == EvH(k, n)[i];
    assert EvH(k, n)[i].best < Limits(k, n).main;
    assert EvH(k, n)[i].score[s] <= Max(EvH(k, n)[i].best, WORST_SCORE);
  }

  lemma EvFrame(k: Task, n: nat, i: nat)
    requires IsTask(k) && n < |k.u.frames| && i < |k.lt.nodes| && i in At(k, n).active
    requires Activity(At(k, n).active, At(k, n).frame, Act(EvH(k, n), []))
    ensures EvH(k, n)[i].frame == At(k, n).frame
  {
    hide At, EvH;
    assert i !in [];
  }

  lemma NextUpper(k: Task, n: nat, a: Align)
    requires IsTask(k) && n < |k.u.frames| && Wide(k, n + 1) && BestBefore(k, At(k, n), n)
    requires Valid(k, a) && InNode(a) && Time(a) == n + 1
    ensures NodeOf(a) < |k.lt.nodes| == |At(k, n + 1).hmms| && StateOf(a) < k.lt.nEmit
    ensures IsState(At(k, n + 1).hmms[NodeOf(a)], k.lt.nEmit)
    ensures Total(k, a) <= At(k, n + 1).hmms[NodeOf(a)].score[StateOf(a)]
  {
    WideIsLive(k, n + 1);
    FinUpper(k, n, a);
    SweptAre(k, n, NodeOf(a));
    AlignIsLive(k, n + 1, a);
    assert PassesAt(k, n);
    assert Total(k, a) > Limits(k, n).main;
    hide IsTask, Wide, AllLive, BestBefore, Fin, At, Limits, PassesAt;
    if NodeOf(a) in At(k, n).active && Fin(k, n)[NodeOf(a)].frame == At(k, n).frame {
      SweptIsDead(k, n, NodeOf(a), StateOf(a));
    }
  }

  // ---- what a node holds in the next frame is an alignment

  /** A child takes an alignment that leaves its parent. */
  lemma DownAligned(k: Task, l: Align, t: nat, i: nat, c: nat, v: int, ls: seq<Link>)
    requires IsTask(k) && Leaving(k, l, t, i, v, ls) && i < |k.lt.nodes| && c < |k.lt.nodes|
    requires !k.lt.nodes[i].leaf && c in k.lt.nodes[i].children
    ensures HasAlign(k, t, c, 0, v + k.lt.nodes[c].logs2prob, ls)
  {
    hide IsTask;
    assert Placed(k, Down(l, c), t, c, 0, v + k.lt.nodes[c].logs2prob, ls);
  }

  /** State 0 of a node holds what it held, or what an active node has given it. */
  lemma FlowSource(lt: Lextree, hmms: seq<HmmState>, active: seq<nat>, frame: int, th: Thresholds, c: nat, r: HmmState)
    returns (j: int)
    requires |hmms| == |lt.nodes| && c < |lt.nodes| && NodesFit(lt, active)
    requires Flowed(lt, hmms, active, frame, th, c, r)
    ensures Raised(hmms[c], r, frame + 1)
    ensures if j < 0 then Took(hmms[c], r, 0, 0, false)
            else j < |hmms| && j in active && Given(lt, hmms[c], hmms[j], j, c, th, r)
  {
    j := -1;
    if !Took(hmms[c], r, 0, 0, false) {
      hide Took, Gives;
      j :| j in active && Given(lt, hmms[c], hmms[j], j, c, th, r);
    }
  }

  lemma WidePhone(k: Task, n: nat)
    requires IsTask(k) && n < |k.u.frames| && Wide(k, n + 1)
    ensures Limits(k, n).phone > WORST_SCORE
  {
    assert PassesAt(k, n);
  }

  lemma MidAttained(k: Task, n: nat, i: nat, s: nat)
    requires IsTask(k) && n < |k.u.frames| && Wide(k, n + 1) && BestBefore(k, At(k, n), n) && i < |k.lt.nodes|
    requires s < k.lt.nEmit && IsState(Mid(k, n)[i], k.lt.nEmit) && Mid(k, n)[i].score[s] > WORST_SCORE
    ensures HasAlign(k, n + 1, i, s, Mid(k, n)[i].score[s], Back(k, n + 1, Mid(k, n)[i].hist[s]))
  {
    hide Wide, AllLive, BestBefore, Mid, EvH, At, Limits, PassesAt, HasAlign, Back, Leaving, NodesFit, Flowed,
         IsPnode, IsCovered;
    MidFlows(k, n, i);
    assert Limits(k, n).phone > WORST_SCORE by { WidePhone(k, n); }
    hide IsTask;
    var st, r := EvH(k, n)[i], Mid(k, n)[i];
    var j := FlowSource(k.lt, EvH(k, n), At(k, n).active, At(k, n).frame, Limits(k, n), i, r);
    RaisedScore(st, r, At(k, n).frame + 1, s);
    if s > 0 || j < 0 {
      EvAttained(k, n, i, s);
    } else {
      var l := EvLeaves(k, n, j);
      DownAligned(k, l, n + 1, j, i, EvH(k, n)[j].out, Back(k, n + 1, EvH(k, n)[j].outHist));
    }
  }

  /** A root takes an alignment that has ended a word. */
  lemma WordAligned(k: Task, n: nat, e: Entry, i: nat, thresh: int, v: int)
    requires IsTask(k) && n <= |k.u.frames| && i < |k.lt.nodes| && IsAligned(k, e, n)
    requires Offers(k.g, k.lt, e, i, thresh, v)
    ensures HasAlign(k, n, i, 0, v, BackFrom(k, n, e))
  {
    hide IsTask, BackFrom;
    var a :| EntryOf(k, e, a, n) && EndsWord(a) && Time(a) == n;
    assert Placed(k, Word(a, i), n, i, 0, v, BackFrom(k, n, e));
  }

  lemma FinAttained(k: Task, n: nat, i: nat, s: nat)
    requires IsTask(k) && n < |k.u.frames| && Wide(k, n + 1) && BestBefore(k, At(k, n), n) && i < |k.lt.nodes|
    requires s < k.lt.nEmit && IsState(Fin(k, n)[i], k.lt.nEmit) && Fin(k, n)[i].score[s] > WORST_SCORE
    ensures HasAlign(k, n + 1, i, s, Fin(k, n)[i].score[s], Back(k, n + 1, Fin(k, n)[i].hist[s]))
  {
    hide IsTask, Wide, BestBefore, Mid, Fin, At, Limits, HasAlign, Back, Offers, IsAligned;
    FinRaises(k, n, i);
    FinBest(k, n, i);
    var before, after := Mid(k, n)[i], Fin(k, n)[i];
    RaisedScore(before, after, At(k, n).frame + 1, s);
    if s > 0 || (after.score[0] == before.score[0] && after.hist[0] == before.hist[0]) {
      MidAttained(k, n, i, s);
    } else {
      var es, lo := At(k, n + 1).entries, |At(k, n).entries|;
      var j :| lo <= j < |es| && Offers(k.g, k.lt, es[j], i, Limits(k, n).main, after.score[0]) && after.hist[0] == j;
      EntriesAligned(k, n, j);
      WordAligned(k, n + 1, es[j], i, Limits(k, n).main, after.score[0]);
      BackOf(k, n + 1, j);
    }
  }

  lemma NextAttained(k: Task, n: nat, i: nat, s: nat)
    requires IsTask(k) && n < |k.u.frames| && Wide(k, n + 1) && BestBefore(k, At(k, n), n) && i < |k.lt.nodes|
    requires |At(k, n + 1).hmms| == |k.lt.nodes| && IsState(At(k, n + 1).hmms[i], k.lt.nEmit) && s < k.lt.nEmit
    requires At(k, n + 1).hmms[i].score[s] > WORST_SCORE
    ensures HasAlign(k, n + 1, i, s, At(k, n + 1).hmms[i].score[s], Back(k, n + 1, At(k, n + 1).hmms[i].hist[s]))
  {
    hide IsTask, Wide, BestBefore, Fin, At, HasAlign, Back;
    SweptAre(k, n, i);
    FinAttained(k, n, i, s);
  }

  /** Entering keeps a shape, and so does clearing. */
  lemma RaisedShape(kind: Kind, a: HmmState, b: HmmState, nf: int)
    requires Shape(kind, a) && Raised(a, b, nf)
    ensures Shape(kind, b) && Shape(kind, Cleared(b))
  {
    assert forall s :: 0 < s < |a.score| ==> b.score[s] == b.score[1..][s - 1] == a.score[s];
  }

  lemma NextShape(k: Task, n: nat, i: nat)
    requires IsTask(k) && n < |k.u.frames| && Wide(k, n + 1) && BestBefore(k, At(k, n), n) && i < |k.lt.nodes|
    ensures |At(k, n + 1).hmms| == |k.lt.nodes| && Shape(KindOf(k.lt.nEmit), At(k, n + 1).hmms[i])
  {
    WideIsLive(k, n + 1);
    hide IsTask, Wide, AllLive, At, Mid, Fin, EvH, Shape, Limits, UpperIn, AttainedIn, ActiveExact, StepOptimal,
         VitEval;
    SweptAre(k, n, i);
    EvalOf(k, n, i);
    if i in At(k, n).active {
      NodeStep(k, n, i);
    }
    MidFlows(k, n, i);
    FinRaises(k, n, i);
    RaisedTrans(EvH(k, n)[i], Mid(k, n)[i], Fin(k, n)[i], At(k, n).frame + 1);
    RaisedShape(KindOf(k.lt.nEmit), EvH(k, n)[i], Fin(k, n)[i], At(k, n).frame + 1);
  }

  lemma NextUpperIn(k: Task, n: nat)
    requires IsTask(k) && n < |k.u.frames| && Wide(k, n + 1) && BestBefore(k, At(k, n), n)
    ensures UpperIn(k, At(k, n + 1).hmms, n + 1)
  {
    hide Wide, At, Valid, Total, BestBefore, IsTask;
    var hmms := At(k, n + 1).hmms;
    forall a | Valid(k, a) && InNode(a) && Time(a) == n + 1
      ensures NodeOf(a) < |hmms| && StateOf(a) < k.lt.nEmit && Total(k, a) <= hmms[NodeOf(a)].score[StateOf(a)]
    {
      NextUpper(k, n, a);
    }
  }

  lemma NextAttainedIn(k: Task, n: nat)
    requires IsTask(k) && n < |k.u.frames| && Wide(k, n + 1) && BestBefore(k, At(k, n), n)
    ensures AttainedIn(k, At(k, n + 1).hmms, n + 1)
  {
    hide Wide, At, HasAlign, Back, BestBefore, IsTask;
    var hmms := At(k, n + 1).hmms;
    forall i, m | 0 <= i < |hmms| && 0 <= m < k.lt.nEmit && hmms[i].score[m] > WORST_SCORE
      ensures HasAlign(k, n + 1, i, m, hmms[i].score[m], Back(k, n + 1, hmms[i].hist[m]))
    {
      NextAttained(k, n, i, m);
    }
  }

  lemma NextShapes(k: Task, n: nat)
    requires IsTask(k) && n < |k.u.frames| && Wide(k, n + 1) && BestBefore(k, At(k, n), n)
    ensures Shapes(k, At(k, n + 1).hmms)
  {
    hide Wide, At, Shape, BestBefore, IsTask;
    var hmms := At(k, n + 1).hmms;
    forall i | 0 <= i < |hmms| ensures Shape(KindOf(k.lt.nEmit), hmms[i]) {
      NextShape(k, n, i);
    }
  }

  /** A frame keeps it: what was best before the frame is best before the next one. */
  lemma NextIsBest(k: Task, n: nat)
    requires IsTask(k) && n < |k.u.frames| && Wide(k, n + 1) && BestBefore(k, At(k, n), n)
    ensures BestBefore(k, At(k, n + 1), n + 1)
  {
    NextUpperIn(k, n);
    NextAttainedIn(k, n);
    NextShapes(k, n);
    RunIsActiveExact(k.g, k.lt, k.u, k.hmms, n + 1);
    RootIsFirst(k.g, k.lt, k.u, k.hmms, n + 1);
    hide Wide, UpperIn, AttainedIn, Shapes, ActiveExact;
  }
}
