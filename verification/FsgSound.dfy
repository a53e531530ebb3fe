/** What every run of the grammar search keeps in its network: the active list is exactly the nodes of the
    current frame, every other node is cleared, and the end of an utterance leaves all of them cleared. */
module FsgSound {
  import opened Basics
  import opened Hmm
  import opened HmmOptimal
  import opened Fsg
  import opened FsgHistory
  import opened FsgStep

  // ---- the active list

  predicate NoDup(xs: seq<nat>) {
    forall i, j :: 0 <= i < j < |xs| ==> xs[i] != xs[j]
  }

  predicate IsCleared(st: HmmState) {
    st == Cleared(st)
  }

  /** Within a frame: `next` lists, once each, exactly the nodes already in the next frame; of the others,
      the nodes active in this frame still carry its number and the rest are cleared. */
  predicate Activity(active: seq<nat>, frame: int, a: Act) {
    && NoDup(a.next)
    && forall i :: 0 <= i < |a.hmms| ==>
         && (i in a.next <==> a.hmms[i].frame == frame + 1)
         && (i !in a.next && i in active ==> a.hmms[i].frame == frame)
         && (i !in a.next && i !in active ==> IsCleared(a.hmms[i]))
  }

  /** Between frames: the active list holds, once each, exactly the nodes of this frame; the rest are cleared. */
  predicate ActiveExact(s: State) {
    && NoDup(s.active)
    && forall i :: 0 <= i < |s.hmms| ==>
         && (i in s.active <==> s.hmms[i].frame == s.frame)
         && (i !in s.active ==> IsCleared(s.hmms[i]))
  }

  lemma EvalKeepsFrame(tp: Tmat, em: seq<int>, st: HmmState)
    requires IsTmat(tp, |em|) && IsState(st, |em|)
    ensures VitEval(tp, em, false, st).frame == st.frame
  {
    if |em| == 5 {
    } else if |em| == 3 {
    } else {
      EvalAnyApplied(tp, em, false, st);
    }
  }

  lemma {:induction false} EvalFromKeeps(g: Grammar, lt: Lextree, f: Frame, hmms: seq<HmmState>, best: int,
      active: seq<nat>)
    requires IsLextree(g, lt) && IsFrame(lt, f) && HmmsFit(lt, hmms) && NodesFit(lt, active)
    ensures var r := EvalFrom(g, lt, f, hmms, best, active).0;
      forall i :: 0 <= i < |r| ==> r[i].frame == hmms[i].frame && (i !in active ==> r[i] == hmms[i])
    decreases |active|
  {
    if active != [] {
      hide EvalNode, IsFrame, IsPnode;
      var st := EvalNode(lt, f, active[0], hmms[active[0]]);
      EvalNodeKeepsFrame(lt, f, active[0], hmms[active[0]]);
      EvalFromKeeps(g, lt, f, hmms[active[0] := st], if st.best > best then st.best else best, active[1..]);
    }
  }

  lemma EvalNodeKeepsFrame(lt: Lextree, f: Frame, i: nat, st: HmmState)
    requires i < |lt.nodes| && IsTmat(lt.nodes[i].tp, lt.nEmit) && |lt.nodes[i].senid| == lt.nEmit
    requires IsFrame(lt, f) && IsState(st, lt.nEmit)
    ensures EvalNode(lt, f, i, st).frame == st.frame
  {
    EvalKeepsFrame(lt.nodes[i].tp, Emissions(Context(f.senscr, []), false, lt.nodes[i].senid), st);
  }

  lemma TryEnterActivity(lt: Lextree, active: seq<nat>, frame: int, a: Act, node: nat, newscore: int, hist: int,
      thresh: int)
    requires ActFit(lt, a) && node < |lt.nodes| && frame >= -1 && Activity(active, frame, a)
    ensures Activity(active, frame, TryEnter(lt, a, node, newscore, hist, frame + 1, thresh))
  {
  }

  lemma {:induction false} TransActivity(lt: Lextree, active: seq<nat>, frame: int, a: Act, out: int, outHist: int,
                                         thresh: int, children: seq<nat>)
    requires ActFit(lt, a) && NodesFit(lt, children) && frame >= -1 && Activity(active, frame, a)
    ensures Activity(active, frame, TransFrom(lt, a, out, outHist, frame + 1, thresh, children))
    decreases |children|
  {
    if children != [] {
      hide TryEnter, Activity;
      var sc := out + lt.nodes[children[0]].logs2prob;
      TryEnterActivity(lt, active, frame, a, children[0], sc, outHist, thresh);
      TransActivity(lt, active, frame, TryEnter(lt, a, children[0], sc, outHist, frame + 1, thresh),
                    out, outHist, thresh, children[1..]);
    }
  }

  /** The frame assertion of the pruning loop holds, and staying active keeps the lists exact. */
  lemma StayActivity(lt: Lextree, active: seq<nat>, frame: int, a: Act, i: nat)
    requires ActFit(lt, a) && i < |lt.nodes| && i in active && frame >= 0 && Activity(active, frame, a)
    ensures a.hmms[i].frame == frame || a.hmms[i].frame == frame + 1
    ensures Activity(active, frame, Stay(lt, a, i, frame))
  {
  }

  lemma {:induction false} PruneActivity(g: Grammar, lt: Lextree, all: seq<nat>, p: Prop, active: seq<nat>, frame: int,
      th: Thresholds)
    requires IsLextree(g, lt) && PropFit(g, lt, p) && NodesFit(lt, active) && frame >= 0
    requires (forall k :: 0 <= k < |active| ==> active[k] in all) && Activity(all, frame, p.act)
    ensures Activity(all, frame, PruneFrom(g, lt, p, active, frame, th).act)
    decreases |active|
  {
    if active != [] {
      hide Activity, Stay, TransFrom;
      var i := active[0];
      StayActivity(lt, all, frame, p.act, i);
      var a := Stay(lt, p.act, i, frame);
      TransActivityIf(g, lt, all, frame, a, p.act.hmms[i].out, p.act.hmms[i].outHist, th.main, i);
      PruneActivity(g, lt, all, PruneNode(g, lt, p, i, frame, th), active[1..], frame, th);
    }
  }

  lemma TransActivityIf(g: Grammar, lt: Lextree, active: seq<nat>, frame: int, a: Act, out: int, outHist: int,
      thresh: int, i: nat)
    requires IsLextree(g, lt) && ActFit(lt, a) && i < |lt.nodes| && frame >= 0 && Activity(active, frame, a)
    ensures !lt.nodes[i].leaf ==>
      Activity(active, frame, TransFrom(lt, a, out, outHist, frame + 1, thresh, lt.nodes[i].children))
  {
    if !lt.nodes[i].leaf {
      TransActivity(lt, active, frame, a, out, outHist, thresh, lt.nodes[i].children);
    }
  }

  lemma {:induction false} RootsActivity(lt: Lextree, active: seq<nat>, frame: int, a: Act, e: Entry, bpidx: int,
                                         roots: seq<nat>, thresh: int)
    requires ActFit(lt, a) && NodesFit(lt, roots) && frame >= -1 && Activity(active, frame, a)
    ensures Activity(active, frame, WordRoots(lt, a, e, bpidx, roots, frame + 1, thresh))
    decreases |roots|
  {
    if roots != [] {
      hide TryEnter, Activity;
      var before, root := roots[..|roots| - 1], roots[|roots| - 1];
      RootsActivity(lt, active, frame, a, e, bpidx, before, thresh);
      TryEnterActivity(lt, active, frame, WordRoots(lt, a, e, bpidx, before, frame + 1, thresh), root,
                       e.score + lt.nodes[root].logs2prob, bpidx, thresh);
    }
  }

  lemma {:induction false} WordsActivity(g: Grammar, lt: Lextree, active: seq<nat>, frame: int, a: Act, es: seq<Entry>,
                                         lo: nat, hi: nat, thresh: int)
    requires IsLextree(g, lt) && ActFit(lt, a) && EntriesFit(g, lt, es) && lo <= hi <= |es|
    requires frame >= -1 && Activity(active, frame, a)
    ensures Activity(active, frame, WordTrans(g, lt, a, es, lo, hi, frame + 1, thresh))
    decreases hi
  {
    if lo < hi {
      hide Activity;
      WordsActivity(g, lt, active, frame, a, es, lo, hi - 1, thresh);
      RootsActivity(lt, active, frame, WordTrans(g, lt, a, es, lo, hi - 1, frame + 1, thresh), es[hi - 1], hi - 1,
                    lt.roots[Dest(g, es[hi - 1])], thresh);
    }
  }

  lemma {:induction false} SweepEach(lt: Lextree, hmms: seq<HmmState>, active: seq<nat>, frame: int)
    requires HmmsFit(lt, hmms) && NodesFit(lt, active) && frame >= 0
    ensures var r := Sweep(lt, hmms, active, frame);
      forall i :: 0 <= i < |r| ==>
        r[i] == if i in active && hmms[i].frame == frame then Cleared(hmms[i]) else hmms[i]
    decreases |active|
  {
    if active != [] {
      var h := if hmms[active[0]].frame == frame then hmms[active[0] := Cleared(hmms[active[0]])] else hmms;
      SweepEach(lt, h, active[1..], frame);
      var r := Sweep(lt, hmms, active, frame);
      forall i | 0 <= i < |r|
        ensures r[i] == if i in active && hmms[i].frame == frame then Cleared(hmms[i]) else hmms[i]
      {
        assert i in active <==> i == active[0] || i in active[1..];
      }
    }
  }

  lemma EvaluatedActivity(g: Grammar, lt: Lextree, s: State, f: Frame)
    requires Fit(g, lt, s) && IsFrame(lt, f) && ActiveExact(s)
    ensures Activity(s.active, s.frame, Act(Evaluated(g, lt, s, f).0, []))
  {
    hide EvalFrom;
    if s.active != [] {
      EvalFromKeeps(g, lt, f, s.hmms, WORST_SCORE, s.active);
    }
  }

  lemma SweepExact(g: Grammar, lt: Lextree, s: State, f: Frame)
    requires Fit(g, lt, s) && IsFrame(lt, f)
    requires Activity(s.active, s.frame, Entering(g, lt, s, f))
    ensures ActiveExact(Step(g, lt, s, f))
  {
    hide Evaluated, Propagated, WordTrans;
    SweepEach(lt, Entering(g, lt, s, f).hmms, s.active, s.frame);
  }

  /** The nodes and the next active list of a step, before the sweep. */
  function Entering(g: Grammar, lt: Lextree, s: State, f: Frame): (a: Act)
    requires Fit(g, lt, s) && IsFrame(lt, f)
    ensures ActFit(lt, a)
  {
    var es := Step(g, lt, s, f).entries;
    var best := Evaluated(g, lt, s, f).1;
    WordTrans(g, lt, Propagated(g, lt, s, f).act, es, |s.entries|, |es|, s.frame + 1, best + f.beam)
  }

  /** One step keeps the active list exact. */
  lemma StepKeepsActive(g: Grammar, lt: Lextree, s: State, f: Frame)
    requires Fit(g, lt, s) && IsFrame(lt, f) && ActiveExact(s)
    ensures ActiveExact(Step(g, lt, s, f))
  {
    hide Evaluated, PruneFrom, WordTrans, Activity, ActiveExact;
    var ev := Evaluated(g, lt, s, f);
    EvaluatedActivity(g, lt, s, f);
    PruneActivity(g, lt, s.active, Prop(Act(ev.0, []), []), s.active, s.frame, ThresholdsOf(ev.1, f));
    var es := Step(g, lt, s, f).entries;
    WordsActivity(g, lt, s.active, s.frame, Propagated(g, lt, s, f).act, es, |s.entries|, |es|, ev.1 + f.beam);
    SweepExact(g, lt, s, f);
  }

  lemma StartIsActive(g: Grammar, lt: Lextree, sil: nat, beam: int, wbeam: int, hmms: seq<HmmState>)
    requires IsLextree(g, lt) && HmmsFit(lt, hmms) && sil < lt.nCi
    requires forall i :: 0 <= i < |hmms| ==> IsCleared(hmms[i])
    ensures ActiveExact(Start(g, lt, sil, beam, wbeam, hmms))
  {
    var es := StartEntries(g, lt, sil, wbeam);
    WordsActivity(g, lt, [], -1, Act(hmms, []), es, 0, |es|, beam);
  }

  lemma {:induction false} ClearAllEach(lt: Lextree, hmms: seq<HmmState>, active: seq<nat>)
    requires HmmsFit(lt, hmms) && NodesFit(lt, active)
    ensures var r := ClearAll(lt, hmms, active);
      forall i :: 0 <= i < |r| ==> r[i] == if i in active then Cleared(hmms[i]) else hmms[i]
    decreases |active|
  {
    if active != [] {
      ClearAllEach(lt, hmms[active[0] := Cleared(hmms[active[0]])], active[1..]);
      var r := ClearAll(lt, hmms, active);
      forall i | 0 <= i < |r| ensures r[i] == if i in active then Cleared(hmms[i]) else hmms[i] {
        assert i in active <==> i == active[0] || i in active[1..];
      }
    }
  }

  /** After the end of an utterance every node is cleared, so the next one starts from a clean network. */
  lemma FinishClears(g: Grammar, lt: Lextree, s: State)
    requires Fit(g, lt, s) && ActiveExact(s)
    ensures var r := Finish(g, lt, s);
      r.active == [] && r.final && forall i :: 0 <= i < |r.hmms| ==> IsCleared(r.hmms[i])
  {
    ClearAllEach(lt, s.hmms, s.active);
  }

  /** Active lists never outgrow the lexical tree, so the check on the count cannot fire. */
  lemma ActiveWithinNodes(g: Grammar, lt: Lextree, s: State)
    requires Fit(g, lt, s) && ActiveExact(s)
    ensures |s.active| <= |lt.nodes|
  {
    NoDupBounded(s.active, |lt.nodes|);
  }

  lemma NoDupBounded(xs: seq<nat>, n: nat)
    requires NoDup(xs) && forall k :: 0 <= k < |xs| ==> xs[k] < n
    ensures |xs| <= n
  {
    var members := set k | 0 <= k < |xs| :: xs[k];
    SetOfDistinct(xs, members);
    SubsetSize(members, Below(n));
  }

  lemma {:induction false} SetOfDistinct(xs: seq<nat>, members: set<nat>)
    requires NoDup(xs) && members == set k | 0 <= k < |xs| :: xs[k]
    ensures |members| == |xs|
    decreases |xs|
  {
    if xs != [] {
      var n := |xs| - 1;
      var less := set k | 0 <= k < n :: xs[..n][k];
      SetOfDistinct(xs[..n], less);
      assert xs[n] !in less;
      assert members == less + {xs[n]};
    }
  }

  lemma SubsetSize(a: set<nat>, b: set<nat>)
    requires a <= b
    ensures |a| <= |b|
  {
    assert b == a + (b - a);
  }
}
