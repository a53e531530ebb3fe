/** Soundness of grammar decoding: on every run whose phone and word thresholds stay above WORST_SCORE,
    every history entry continues the path of its predecessor, so every backtrace is a path of the
    grammar from its start state. */
module FsgPaths {
  import opened Hmm
  import opened HmmOptimal
  import opened HmmUnrolled
  import opened Fsg
  import opened FsgHistory
  import opened FsgStep

  /** A history index of a node in the tree of grammar state `tree`. */
  predicate HistIn(g: Grammar, es: seq<Entry>, tree: nat, h: int) {
    h == -1 || (0 <= h < |es| && Dest(g, es[h]) == tree)
  }

  /** All histories of a node belong to its tree, and whatever is alive has one. */
  predicate NodeHist(g: Grammar, es: seq<Entry>, tree: nat, st: HmmState) {
    && |st.score| == |st.hist| > 0
    && (forall k :: 0 <= k < |st.hist| ==> HistIn(g, es, tree, st.hist[k]))
    && HistIn(g, es, tree, st.outHist)
    && (forall k :: 0 <= k < |st.score| && st.score[k] > WORST_SCORE ==> st.hist[k] >= 0 && st.hist[0] >= 0)
    && (st.out > WORST_SCORE ==> st.outHist >= 0 && st.hist[0] >= 0)
  }

  predicate Histories(g: Grammar, lt: Lextree, es: seq<Entry>, hmms: seq<HmmState>) {
    |hmms| == |lt.nodes| && forall i :: 0 <= i < |hmms| ==> NodeHist(g, es, lt.nodes[i].tree, hmms[i])
  }

  /** Entry i follows its predecessor by a transition of the grammar. */
  predicate Follows(g: Grammar, es: seq<Entry>, i: nat)
    requires i < |es|
  {
    && es[i].link.Some? && IsArc(g, es[i].link.value)
    && 0 <= es[i].pred < i && Dest(g, es[es[i].pred]) == es[i].link.value.from
  }

  predicate Chained(g: Grammar, es: seq<Entry>) {
    && es != [] && es[0].link.None? && es[0].pred == -1
    && forall i :: 1 <= i < |es| ==> Follows(g, es, i)
  }

  /** Frames never decrease along the table. */
  predicate FramesOrdered(es: seq<Entry>, frame: int) {
    && (forall i, j :: 0 <= i < j < |es| ==> es[i].frame <= es[j].frame)
    && (forall i :: 0 <= i < |es| ==> es[i].frame < frame)
  }

  predicate Sound(g: Grammar, lt: Lextree, s: State) {
    Histories(g, lt, s.entries, s.hmms) && Chained(g, s.entries) && FramesOrdered(s.entries, s.frame)
  }

  // ---- evaluation

  lemma EvalHist3(g: Grammar, es: seq<Entry>, tree: nat, tp: Tmat, em: seq<int>, st: HmmState)
    requires |em| == 3 && IsTmat(tp, 3) && IsState(st, 3) && NonPositive(em) && NodeHist(g, es, tree, st)
    ensures NodeHist(g, es, tree, Eval3(tp, em, st))
  {
    hide Eval3, HistIn;
    Eval3Fields(tp, em, st);
  }

  lemma EvalHist5(g: Grammar, es: seq<Entry>, tree: nat, tp: Tmat, em: seq<int>, st: HmmState)
    requires |em| == 5 && IsTmat(tp, 5) && IsState(st, 5) && NonPositive(em) && NodeHist(g, es, tree, st)
    ensures NodeHist(g, es, tree, Eval5(tp, em, st))
  {
    hide Eval5, HistIn, Best5;
    Eval5Fields(tp, em, st);
  }

  lemma EvalHistAny(g: Grammar, es: seq<Entry>, tree: nat, tp: Tmat, em: seq<int>, st: HmmState)
    requires |em| > 0 && IsTmat(tp, |em|) && IsState(st, |em|) && NonPositive(em) && NodeHist(g, es, tree, st)
    ensures NodeHist(g, es, tree, EvalAny(tp, em, false, st))
  {
    hide EvalAny, HistIn, AnyPick, AnyOut, SenStage, MaxSeq;
    EvalAnyApplied(tp, em, false, st);
    AnyStepOptimal(tp, em, false, st);
    AnyPickFromBelow(tp, SenStage(st.score, em));
    var r := EvalAny(tp, em, false, st);
    forall k | 0 <= k < |em| && r.score[k] > WORST_SCORE ensures r.hist[k] >= 0 && r.hist[0] >= 0 {
      assert BestInto(tp, em, st, k, r.score[k], r.hist[k]);
    }
  }

  lemma EvalNodeHist(g: Grammar, lt: Lextree, es: seq<Entry>, f: Frame, i: nat, st: HmmState)
    requires IsLextree(g, lt) && i < |lt.nodes| && IsFrame(lt, f) && IsState(st, lt.nEmit)
    requires NodeHist(g, es, lt.nodes[i].tree, st)
    ensures NodeHist(g, es, lt.nodes[i].tree, EvalNode(lt, f, i, st))
  {
    hide NodeHist, Eval3, Eval5, EvalAny;
    var em := Emissions(Context(f.senscr, []), false, lt.nodes[i].senid);
    assert NonPositive(em);
    if |em| == 5 {
      EvalHist5(g, es, lt.nodes[i].tree, lt.nodes[i].tp, em, st);
    } else if |em| == 3 {
      EvalHist3(g, es, lt.nodes[i].tree, lt.nodes[i].tp, em, st);
    } else {
      EvalHistAny(g, es, lt.nodes[i].tree, lt.nodes[i].tp, em, st);
    }
  }

  lemma {:induction false} EvalFromHist(g: Grammar, lt: Lextree, es: seq<Entry>, f: Frame, hmms: seq<HmmState>,
                                        best: int, active: seq<nat>)
    requires IsLextree(g, lt) && IsFrame(lt, f) && HmmsFit(lt, hmms) && NodesFit(lt, active)
      && Histories(g, lt, es, hmms)
    ensures Histories(g, lt, es, EvalFrom(g, lt, f, hmms, best, active).0)
    decreases |active|
  {
    if active != [] {
      hide NodeHist, EvalNode;
      var st := EvalNode(lt, f, active[0], hmms[active[0]]);
      EvalNodeHist(g, lt, es, f, active[0], hmms[active[0]]);
      EvalFromHist(g, lt, es, f, hmms[active[0] := st], if st.best > best then st.best else best, active[1..]);
    }
  }

  // ---- pruning and propagation

  lemma TryEnterHist(g: Grammar, lt: Lextree, es: seq<Entry>, a: Act, node: nat, newscore: int, hist: int, nf: int,
      thresh: int)
    requires ActFit(lt, a) && node < |lt.nodes| && Histories(g, lt, es, a.hmms)
    requires 0 <= hist < |es| && Dest(g, es[hist]) == lt.nodes[node].tree
    ensures Histories(g, lt, es, TryEnter(lt, a, node, newscore, hist, nf, thresh).hmms)
  {
    var st := a.hmms[node];
    assert NodeHist(g, es, lt.nodes[node].tree, st);
    assert NodeHist(g, es, lt.nodes[node].tree, Entered(st, newscore, hist, nf));
  }

  lemma {:induction false} TransHist(g: Grammar, lt: Lextree, es: seq<Entry>, a: Act, out: int, outHist: int, nf: int,
                                     thresh: int, children: seq<nat>, tree: nat)
    requires ActFit(lt, a) && NodesFit(lt, children) && Histories(g, lt, es, a.hmms)
    requires forall k :: 0 <= k < |children| ==> lt.nodes[children[k]].tree == tree
    requires 0 <= outHist < |es| && Dest(g, es[outHist]) == tree
    ensures Histories(g, lt, es, TransFrom(lt, a, out, outHist, nf, thresh, children).hmms)
    decreases |children|
  {
    if children != [] {
      hide Histories, TryEnter, IsTmat, HmmsFit, IsPnode;
      var sc := out + lt.nodes[children[0]].logs2prob;
      TryEnterHist(g, lt, es, a, children[0], sc, outHist, nf, thresh);
      TransHist(g, lt, es, TryEnter(lt, a, children[0], sc, outHist, nf, thresh), out, outHist, nf, thresh,
                children[1..], tree);
    }
  }

  /** An exit offered to the history: a transition of the grammar out of the state its predecessor ends in. */
  predicate GoodOffer(g: Grammar, es: seq<Entry>, e: Entry, frame: int) {
    && e.link.Some? && IsArc(g, e.link.value) && e.frame == frame
    && 0 <= e.pred < |es| && Dest(g, es[e.pred]) == e.link.value.from
  }

  predicate GoodOffers(g: Grammar, es: seq<Entry>, offers: seq<Entry>, frame: int) {
    forall i :: 0 <= i < |offers| ==> GoodOffer(g, es, offers[i], frame)
  }

  predicate Above(th: Thresholds) {
    th.phone > WORST_SCORE && th.word > WORST_SCORE
  }

  lemma PruneNodeHist(g: Grammar, lt: Lextree, es: seq<Entry>, p: Prop, i: nat, frame: int, th: Thresholds)
    requires IsLextree(g, lt) && PropFit(g, lt, p) && i < |lt.nodes| && Above(th)
    requires Histories(g, lt, es, p.act.hmms) && GoodOffers(g, es, p.exits, frame)
    ensures var r := PruneNode(g, lt, p, i, frame, th);
      Histories(g, lt, es, r.act.hmms) && GoodOffers(g, es, r.exits, frame)
  {
    var st, node := p.act.hmms[i], lt.nodes[i];
    var a := Stay(lt, p.act, i, frame);
    assert NodeHist(g, es, node.tree, st);
    assert Histories(g, lt, es, a.hmms);
    if !node.leaf && st.out >= th.phone {
      TransHist(g, lt, es, a, st.out, st.outHist, frame + 1, th.main, node.children, node.tree);
    }
  }

  /** The assumption on the word threshold cannot be spared.  A leaf that is alive but whose exit nothing has
      reached, as after its first frame, is offered to the history without a predecessor if and only if the
      word threshold is not above WORST_SCORE. */
  lemma UnreachedExitExact(g: Grammar, lt: Lextree, es: seq<Entry>, p: Prop, i: nat, frame: int, th: Thresholds)
    requires IsLextree(g, lt) && PropFit(g, lt, p) && i < |lt.nodes| && lt.nodes[i].leaf
    requires GoodOffers(g, es, p.exits, frame)
    requires var st := p.act.hmms[i]; st.out == WORST_SCORE && st.outHist == -1 && st.best >= th.main
    ensures GoodOffers(g, es, PruneNode(g, lt, p, i, frame, th).exits, frame) <==> th.word > WORST_SCORE
  {
    var r := PruneNode(g, lt, p, i, frame, th);
    if th.word <= WORST_SCORE {
      assert r.exits[|p.exits|].pred == -1;
      assert !GoodOffer(g, es, r.exits[|p.exits|], frame);
    }
  }

  /** Such a leaf: entered, evaluated once, and without a transition from its first state to the exit. */
  lemma FirstFrameUnreached(tp: Tmat, em: seq<int>, st: HmmState, score: int, hist: int, frame: int)
    requires IsTmat(tp, |em|) && |em| > 0 && IsState(st, |em|) && NonPositive(em) && st == Cleared(st)
    requires !Arc(tp, 0, |em|)
    ensures var r := EvalAny(tp, em, false, Entered(st, score, hist, frame)); r.out <= WORST_SCORE && r.outHist == -1
  {
    hide EvalAny, Scan;
    var e := Entered(st, score, hist, frame);
    EvalAnyApplied(tp, em, false, e);
    ScanBest(tp, SenStage(e.score, em), |em|, |em|, Pick(WORST_SCORE, -1));
  }

  lemma {:induction false} PruneHist(g: Grammar, lt: Lextree, es: seq<Entry>, p: Prop, active: seq<nat>, frame: int,
      th: Thresholds)
    requires IsLextree(g, lt) && PropFit(g, lt, p) && NodesFit(lt, active) && Above(th)
    requires Histories(g, lt, es, p.act.hmms) && GoodOffers(g, es, p.exits, frame)
    ensures var r := PruneFrom(g, lt, p, active, frame, th);
      Histories(g, lt, es, r.act.hmms) && GoodOffers(g, es, r.exits, frame)
    decreases |active|
  {
    if active != [] {
      hide Histories, GoodOffers, PruneNode;
      PruneNodeHist(g, lt, es, p, active[0], frame, th);
      PruneHist(g, lt, es, PruneNode(g, lt, p, active[0], frame, th), active[1..], frame, th);
    }
  }

  // ---- the table grows by good offers only

  lemma AppendGood(g: Grammar, es: seq<Entry>, more: seq<Entry>, frame: int)
    requires Chained(g, es) && FramesOrdered(es, frame + 1) && GoodOffers(g, es, more, frame)
    ensures Chained(g, es + more) && FramesOrdered(es + more, frame + 1)
  {
    var all := es + more;
    forall i | 1 <= i < |all| ensures Follows(g, all, i) {
      if i < |es| {
        assert Follows(g, es, i);
      } else {
        assert GoodOffer(g, es, more[i - |es|], frame);
      }
    }
  }

  lemma SurvivorsGood(g: Grammar, lt: Lextree, es: seq<Entry>, offers: seq<Entry>, frame: int)
    requires AllFit(offers, g.nState, lt.nCi) && GoodOffers(g, es, offers, frame)
    ensures GoodOffers(g, es, Survivors(offers, g.nState, lt.nCi), frame)
  {
    var ss := Survivors(offers, g.nState, lt.nCi);
    forall i | 0 <= i < |ss| ensures GoodOffer(g, es, ss[i], frame) {
      var o := SurvivorIsOffer(offers, g.nState, lt.nCi, ss[i]);
      assert ss[i].link == o.link && ss[i].pred == o.pred && ss[i].frame == o.frame;
    }
  }

  lemma NullsGood(g: Grammar, lt: Lextree, es: seq<Entry>, lo: nat, hi: nat, thresh: int, frame: int)
    requires lo <= hi <= |es| && IsGrammar(g) && EntriesFit(g, lt, es)
    requires forall i :: lo <= i < hi ==> es[i].frame == frame
    ensures GoodOffers(g, es, NullOffers(g, es, lo, hi, thresh), frame)
  {
    var ns := NullOffers(g, es, lo, hi, thresh);
    forall i | 0 <= i < |ns| ensures GoodOffer(g, es, ns[i], frame) {
      InNullOffers(g, es, lo, hi, thresh, ns[i]);
      var k, l :| lo <= k < hi && NullOf(g, es, k, l, thresh, ns[i]);
    }
  }

  lemma LongerTable(g: Grammar, lt: Lextree, es: seq<Entry>, more: seq<Entry>, hmms: seq<HmmState>)
    requires Histories(g, lt, es, hmms)
    ensures Histories(g, lt, es + more, hmms)
  {
    forall i | 0 <= i < |hmms| ensures NodeHist(g, es + more, lt.nodes[i].tree, hmms[i]) {
      assert NodeHist(g, es, lt.nodes[i].tree, hmms[i]);
      forall h | HistIn(g, es, lt.nodes[i].tree, h) ensures HistIn(g, es + more, lt.nodes[i].tree, h) {
      }
    }
  }

  // ---- word transitions and the sweep

  lemma {:induction false} RootsHist(g: Grammar, lt: Lextree, es: seq<Entry>, a: Act, bpidx: nat, roots: seq<nat>,
      nf: int, thresh: int)
    requires ActFit(lt, a) && NodesFit(lt, roots) && Histories(g, lt, es, a.hmms) && bpidx < |es|
    requires forall k :: 0 <= k < |roots| ==> lt.nodes[roots[k]].tree == Dest(g, es[bpidx])
    ensures Histories(g, lt, es, WordRoots(lt, a, es[bpidx], bpidx, roots, nf, thresh).hmms)
    decreases |roots|
  {
    if roots != [] {
      hide Histories, TryEnter;
      var before, root := roots[..|roots| - 1], roots[|roots| - 1];
      RootsHist(g, lt, es, a, bpidx, before, nf, thresh);
      TryEnterHist(g, lt, es, WordRoots(lt, a, es[bpidx], bpidx, before, nf, thresh), root,
                   es[bpidx].score + lt.nodes[root].logs2prob, bpidx, nf, thresh);
    }
  }

  lemma {:induction false} WordsHist(g: Grammar, lt: Lextree, a: Act, es: seq<Entry>, lo: nat, hi: nat, nf: int,
      thresh: int)
    requires IsLextree(g, lt) && ActFit(lt, a) && EntriesFit(g, lt, es) && lo <= hi <= |es|
      && Histories(g, lt, es, a.hmms)
    ensures Histories(g, lt, es, WordTrans(g, lt, a, es, lo, hi, nf, thresh).hmms)
    decreases hi
  {
    if lo < hi {
      hide Histories;
      WordsHist(g, lt, a, es, lo, hi - 1, nf, thresh);
      RootsHist(g, lt, es, WordTrans(g, lt, a, es, lo, hi - 1, nf, thresh), hi - 1,
                lt.roots[Dest(g, es[hi - 1])], nf, thresh);
    }
  }

  lemma {:induction false} SweepHist(g: Grammar, lt: Lextree, es: seq<Entry>, hmms: seq<HmmState>, active: seq<nat>,
      frame: int)
    requires lt.nEmit > 0 && HmmsFit(lt, hmms) && NodesFit(lt, active) && Histories(g, lt, es, hmms)
    ensures Histories(g, lt, es, Sweep(lt, hmms, active, frame))
    decreases |active|
  {
    if active != [] {
      assert NodeHist(g, es, lt.nodes[active[0]].tree, Cleared(hmms[active[0]]));
      SweepHist(g, lt, es, if hmms[active[0]].frame == frame then hmms[active[0] := Cleared(hmms[active[0]])] else hmms,
                active[1..], frame);
    }
  }

  // ---- whole runs

  /** The thresholds this frame prunes with stay above the floor. */
  predicate AboveFloor(g: Grammar, lt: Lextree, s: State, f: Frame)
    requires Fit(g, lt, s) && IsFrame(lt, f)
  {
    Above(ThresholdsOf(Evaluated(g, lt, s, f).1, f))
  }

  lemma StepExits(g: Grammar, lt: Lextree, s: State, f: Frame)
    requires Fit(g, lt, s) && IsFrame(lt, f) && Sound(g, lt, s) && AboveFloor(g, lt, s, f)
    ensures var p := Propagated(g, lt, s, f);
      Histories(g, lt, s.entries, p.act.hmms) && GoodOffers(g, s.entries, p.exits, s.frame)
  {
    hide Histories, EvalFrom, PruneFrom;
    var ev := Evaluated(g, lt, s, f);
    if s.active != [] {
      EvalFromHist(g, lt, s.entries, f, s.hmms, WORST_SCORE, s.active);
    }
    PruneHist(g, lt, s.entries, Prop(Act(ev.0, []), []), s.active, s.frame, ThresholdsOf(ev.1, f));
  }

  lemma StepTable(g: Grammar, lt: Lextree, s: State, f: Frame)
    requires Fit(g, lt, s) && IsFrame(lt, f) && Sound(g, lt, s) && AboveFloor(g, lt, s, f)
    ensures var es := Step(g, lt, s, f).entries;
      && Chained(g, es) && FramesOrdered(es, s.frame + 1) && s.entries <= es
      && forall i :: |s.entries| <= i < |es| ==> es[i].frame == s.frame
  {
    hide Propagated, WordTrans, Sweep, Survivors, NullOffers, Chained, FramesOrdered, Histories, GoodOffers;
    var p := Propagated(g, lt, s, f);
    StepExits(g, lt, s, f);
    var e0 := s.entries;
    assert FramesOrdered(e0, s.frame + 1) by { Later(e0, s.frame); }
    var more := Survivors(p.exits, g.nState, lt.nCi);
    SurvivorsGood(g, lt, e0, p.exits, s.frame);
    AppendGood(g, e0, more, s.frame);
    var e1 := WithExits(g, lt, e0, p.exits);
    var th := Evaluated(g, lt, s, f).1 + f.wbeam;
    GoodFrames(g, e0, more, s.frame);
    NullOffersFit(g, lt, e1, |e0|, |e1|, th);
    NullsGood(g, lt, e1, |e0|, |e1|, th, s.frame);
    var nulls := NullOffers(g, e1, |e0|, |e1|, th);
    SurvivorsGood(g, lt, e1, nulls, s.frame);
    AppendGood(g, e1, Survivors(nulls, g.nState, lt.nCi), s.frame);
    GoodFrames(g, e1, Survivors(nulls, g.nState, lt.nCi), s.frame);
  }

  lemma Later(es: seq<Entry>, frame: int)
    requires FramesOrdered(es, frame)
    ensures FramesOrdered(es, frame + 1)
  {
  }

  lemma GoodFrames(g: Grammar, es: seq<Entry>, more: seq<Entry>, frame: int)
    requires GoodOffers(g, es, more, frame)
    ensures forall i :: |es| <= i < |es + more| ==> (es + more)[i].frame == frame
  {
    forall i | |es| <= i < |es + more| ensures (es + more)[i].frame == frame {
      assert GoodOffer(g, es, more[i - |es|], frame);
    }
  }

  /** One step keeps the search sound; the asserted frame of every propagated entry is the current one. */
  lemma StepKeepsSound(g: Grammar, lt: Lextree, s: State, f: Frame)
    requires Fit(g, lt, s) && IsFrame(lt, f) && Sound(g, lt, s) && AboveFloor(g, lt, s, f)
    ensures Sound(g, lt, Step(g, lt, s, f))
    ensures var es := Step(g, lt, s, f).entries; forall i :: |s.entries| <= i < |es| ==> es[i].frame == s.frame
  {
    hide Histories, Chained, FramesOrdered, Propagated, WordTrans, Sweep, WithNulls, WithExits;
    StepTable(g, lt, s, f);
    StepExits(g, lt, s, f);
    var es := Step(g, lt, s, f).entries;
    var p := Propagated(g, lt, s, f);
    var best := Evaluated(g, lt, s, f).1;
    LongerTable(g, lt, s.entries, es[|s.entries|..], p.act.hmms);
    assert s.entries + es[|s.entries|..] == es;
    WordsHist(g, lt, p.act, es, |s.entries|, |es|, s.frame + 1, best + f.beam);
    SweepHist(g, lt, es, WordTrans(g, lt, p.act, es, |s.entries|, |es|, s.frame + 1, best + f.beam).hmms,
              s.active, s.frame);
  }

  lemma StartIsSound(g: Grammar, lt: Lextree, sil: nat, beam: int, wbeam: int, hmms: seq<HmmState>)
    requires IsLextree(g, lt) && HmmsFit(lt, hmms) && sil < lt.nCi
    requires forall i :: 0 <= i < |hmms| ==> hmms[i] == Cleared(hmms[i])
    ensures Sound(g, lt, Start(g, lt, sil, beam, wbeam, hmms))
  {
    var root := [RootEntry(sil)];
    var nulls := NullOffers(g, root, 0, 1, wbeam);
    NullsGood(g, lt, root, 0, 1, wbeam, -1);
    AppendGood(g, root, nulls, -1);
    var es := StartEntries(g, lt, sil, wbeam);
    forall i | 0 <= i < |hmms| ensures NodeHist(g, es, lt.nodes[i].tree, hmms[i]) {
    }
    WordsHist(g, lt, Act(hmms, []), es, 0, |es|, 0, beam);
  }
}
