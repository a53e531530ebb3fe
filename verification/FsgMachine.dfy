/** The grammar search as the object it is in src/fsg_search.c, updated in place by loops over lists.
    Each method is the function of the same name in FsgStep.  The nodes' HMM records live in one arena,
    `hmms[i]` being the record of node i. */
module FsgMachine {
  import opened Basics
  import opened Hmm
  import opened Fsg
  import opened FsgHistory
  import opened FsgStep

  /** A record as hmm_init leaves it. */
  function FreshHmm(n: nat): (st: HmmState)
    ensures IsState(st, n) && st == Cleared(st)
  {
    HmmState(seq(n, _ => WORST_SCORE), seq(n, _ => -1), seq(n, _ => 0), WORST_SCORE, -1, WORST_SCORE, -1)
  }

  lemma GrammarOf(g: Grammar, lt: Lextree)
    requires IsLextree(g, lt)
    ensures IsGrammar(g)
  {
  }

  class FsgSearch {
    const g: Grammar
    const lt: Lextree
    const history: History
    var frame: int
    var bestscore: int
    var bpidxStart: nat
    var final: bool
    var hmms: seq<HmmState>
    var active: seq<nat>
    var activeNext: seq<nat>

    ghost predicate Valid()
      reads this, history
    {
      && IsLextree(g, lt) && HmmsFit(lt, hmms) && NodesFit(lt, active) && NodesFit(lt, activeNext)
      && history.Valid() && history.nState == g.nState && history.nCi == lt.nCi
      && EntriesFit(g, lt, history.entries)
    }

    function Abs(): State
      reads this, history
    {
      State(frame, bestscore, hmms, active, history.entries, final)
    }

    function Entering(): Act
      reads this
    {
      Act(hmms, activeNext)
    }

    /** Between frames: nothing is pending in the lists of this frame or for the next one. */
    ghost predicate Idle()
      reads this, history
    {
      Valid() && activeNext == [] && history.frameEntries == NoLists(g.nState, lt.nCi)
    }

    constructor (g: Grammar, lt: Lextree)
      requires IsLextree(g, lt)
      ensures Idle() && this.g == g && this.lt == lt && fresh(history)
      ensures active == [] && forall i :: 0 <= i < |hmms| ==> hmms[i] == Cleared(hmms[i])
    {
      this.g, this.lt := g, lt;
      history := new History(g.nState, lt.nCi);
      frame, bestscore, bpidxStart, final := -1, 0, 0, false;
      hmms := seq(|lt.nodes|, _ => FreshHmm(lt.nEmit));
      active, activeNext := [], [];
    }

    /** fsg_search_hmm_eval. */
    method HmmEval(f: Frame)
      requires Valid() && frame >= 0 && IsFrame(lt, f)
      modifies this`hmms, this`bestscore
      ensures Valid() && (hmms, bestscore) == Evaluated(g, lt, old(Abs()), f)
    {
      hide EvalNode;
      if active == [] {
        return;
      }
      var best := WORST_SCORE;
      var n := 0;
      while n < |active|
        invariant n <= |active| && Valid()
        invariant EvalFrom(g, lt, f, hmms, best, active[n..]) == EvalFrom(g, lt, f, old(hmms), WORST_SCORE, active)
      {
        assert active[n..][0] == active[n] && active[n..][1..] == active[n + 1..];
        var st := EvalNode(lt, f, active[n], hmms[active[n]]);
        hmms := hmms[active[n] := st];
        if st.best > best {
          best := st.best;
        }
        n := n + 1;
      }
      bestscore := best;
    }

    method Enter(node: nat, newscore: int, hist: int, nf: int, thresh: int)
      requires Valid() && node < |lt.nodes|
      modifies this`hmms, this`activeNext
      ensures Valid() && Entering() == TryEnter(lt, old(Entering()), node, newscore, hist, nf, thresh)
    {
      if newscore > thresh && newscore > hmms[node].score[0] {
        if hmms[node].frame < nf {
          activeNext := [node] + activeNext;
        }
        hmms := hmms[node := Entered(hmms[node], newscore, hist, nf)];
      }
    }

    /** fsg_search_pnode_trans: scores and histories of the parent do not change while its children are entered. */
    method PnodeTrans(i: nat, out: int, outHist: int, thresh: int)
      requires Valid() && i < |lt.nodes| && !lt.nodes[i].leaf
      modifies this`hmms, this`activeNext
      ensures Valid()
      ensures Entering() == TransFrom(lt, old(Entering()), out, outHist, frame + 1, thresh, lt.nodes[i].children)
    {
      hide TryEnter;
      var children := lt.nodes[i].children;
      var k := 0;
      while k < |children|
        invariant k <= |children| && Valid()
        invariant TransFrom(lt, Entering(), out, outHist, frame + 1, thresh, children[k..])
               == TransFrom(lt, old(Entering()), out, outHist, frame + 1, thresh, children)
      {
        assert children[k..][0] == children[k] && children[k..][1..] == children[k + 1..];
        Enter(children[k], out + lt.nodes[children[k]].logs2prob, outHist, frame + 1, thresh);
        k := k + 1;
      }
    }

    /** fsg_search_pnode_exit. */
    method PnodeExit(i: nat)
      requires Valid() && i < |lt.nodes| && lt.nodes[i].leaf && frame >= 0
      modifies history
      ensures Valid() && history.entries == old(history.entries)
      ensures history.frameEntries
           == AddTo(old(history.frameEntries), ExitEntry(g, lt.nodes[i], hmms[i], frame), g.nState, lt.nCi)
    {
      var node, st := lt.nodes[i], hmms[i];
      assert IsPnode(g, lt, node);
      if node.link.wid in g.fillers || node.link.wid in g.singlePhone {
        history.EntryAdd(Some(node.link), frame, st.out, st.outHist, node.ciExt, ALL_CONTEXTS);
      } else {
        history.EntryAdd(Some(node.link), frame, st.out, st.outHist, node.ciExt, node.ctxt);
      }
    }

    /** The body of the pruning loop for one node. */
    method PruneOne(i: nat, th: Thresholds, ghost exits: seq<Entry>) returns (ghost exits': seq<Entry>)
      requires Valid() && i < |lt.nodes| && frame >= 0
      requires AllFit(exits, g.nState, lt.nCi) && history.frameEntries == AddAll(exits, g.nState, lt.nCi)
      modifies this`hmms, this`activeNext, history
      ensures Valid() && history.entries == old(history.entries)
      ensures Prop(Entering(), exits') == PruneNode(g, lt, Prop(old(Entering()), exits), i, frame, th)
      ensures history.frameEntries == AddAll(exits', g.nState, lt.nCi)
    {
      hide TransFrom, Insert;
      exits' := exits;
      var st := hmms[i];
      if st.best >= th.main {
        if st.frame == frame {
          hmms := hmms[i := st.(frame := frame + 1)];
          activeNext := [i] + activeNext;
        }
        if !lt.nodes[i].leaf {
          if st.out >= th.phone {
            PnodeTrans(i, st.out, st.outHist, th.main);
          }
        } else if st.out >= th.word {
          PnodeExit(i);
          exits' := exits + [ExitEntry(g, lt.nodes[i], st, frame)];
          assert exits'[..|exits|] == exits;
        }
      }
    }

    /** fsg_search_hmm_prune_prop. */
    method HmmPruneProp(f: Frame) returns (ghost exits: seq<Entry>)
      requires Idle() && frame >= 0
      modifies this`hmms, this`activeNext, history
      ensures Valid() && history.entries == old(history.entries)
      ensures Prop(Entering(), exits)
           == PruneFrom(g, lt, Prop(Act(old(hmms), []), []), active, frame, ThresholdsOf(bestscore, f))
      ensures AllFit(exits, g.nState, lt.nCi) && history.frameEntries == AddAll(exits, g.nState, lt.nCi)
    {
      hide PruneNode;
      var th := ThresholdsOf(bestscore, f);
      exits := [];
      var n := 0;
      while n < |active|
        invariant n <= |active| && Valid() && history.entries == old(history.entries)
        invariant AllFit(exits, g.nState, lt.nCi) && history.frameEntries == AddAll(exits, g.nState, lt.nCi)
        invariant PruneFrom(g, lt, Prop(Entering(), exits), active[n..], frame, th)
               == PruneFrom(g, lt, Prop(Act(old(hmms), []), []), active, frame, th)
      {
        assert active[n..][0] == active[n] && active[n..][1..] == active[n + 1..];
        exits := PruneOne(active[n], th, exits);
        n := n + 1;
      }
    }

    /** The offers made: to the lists in a frame, straight to the table before the first. */
    ghost predicate Made(e: Entry, offers: seq<Entry>, nulls: seq<Entry>, es: seq<Entry>, lists: FrameLists)
      reads this, history
    {
      if e.frame >= 0 then
        && history.entries == es
        && AllFit(offers + nulls, g.nState, lt.nCi) && history.frameEntries == AddAll(offers + nulls, g.nState, lt.nCi)
      else history.entries == es + nulls && history.frameEntries == lists
    }

    /** One arc of one entry. */
    method NullPropArc(e: Entry, bpidx: int, l: Link, thresh: int, ghost offers: seq<Entry>, ghost nulls: seq<Entry>,
                       ghost es: seq<Entry>, ghost lists: FrameLists)
      requires Valid() && e.lc < lt.nCi && l.to < g.nState && Made(e, offers, nulls, es, lists)
      modifies history
      ensures Valid()
      ensures var n := NullEntry(e, bpidx, l);
        Made(e, offers, if l.wid == -1 && n.score >= thresh then nulls + [n] else nulls, es, lists)
    {
      hide Insert, AddTo;
      if l.wid == -1 {
        var newscore := e.score + ShiftedProb(l);
        if newscore >= thresh {
          ghost var n := NullEntry(e, bpidx, l);
          assert offers + (nulls + [n]) == offers + nulls + [n];
          assert (offers + nulls + [n])[..|offers + nulls|] == offers + nulls;
          history.EntryAdd(Some(l), e.frame, newscore, bpidx, e.lc, e.rc);
        }
      }
    }

    /** The arcs of one entry in fsg_search_null_prop; `offers` are those made before it. */
    method NullPropArcs(e: Entry, bpidx: int, arcs: seq<Link>, thresh: int, ghost offers: seq<Entry>)
      requires Valid() && e.lc < lt.nCi && forall k :: 0 <= k < |arcs| ==> arcs[k].to < g.nState
      requires Made(e, offers, [], history.entries, history.frameEntries)
      modifies history
      ensures Valid()
      ensures Made(e, offers, NullArcs(g, e, bpidx, arcs, thresh), old(history.entries), old(history.frameEntries))
    {
      ghost var es, lists := history.entries, history.frameEntries;
      assert arcs[..0] == [];
      hide Made;
      var k := 0;
      while k < |arcs|
        invariant k <= |arcs| && Valid() && Made(e, offers, NullArcs(g, e, bpidx, arcs[..k], thresh), es, lists)
      {
        assert arcs[..k + 1][..k] == arcs[..k];
        NullPropArc(e, bpidx, arcs[k], thresh, offers, NullArcs(g, e, bpidx, arcs[..k], thresh), es, lists);
        k := k + 1;
      }
      assert arcs[..k] == arcs;
    }

    /** fsg_search_null_prop, in a frame: the offers go to the lists. */
    method NullProp(thresh: int)
      requires Valid() && history.frameEntries == NoLists(g.nState, lt.nCi) && bpidxStart <= |history.entries|
      requires forall i :: bpidxStart <= i < |history.entries| ==> history.entries[i].frame >= 0
      modifies history
      ensures Valid() && history.entries == old(history.entries)
      ensures var offers := NullOffers(g, old(history.entries), bpidxStart, |old(history.entries)|, thresh);
        AllFit(offers, g.nState, lt.nCi) && history.frameEntries == AddAll(offers, g.nState, lt.nCi)
    {
      hide NullArcs;
      var nEntries := |history.entries|;
      ghost var es := history.entries;
      var bpidx := bpidxStart;
      while bpidx < nEntries
        invariant bpidxStart <= bpidx <= nEntries && Valid() && history.entries == es
        invariant var offers := NullOffers(g, es, bpidxStart, bpidx, thresh);
          AllFit(offers, g.nState, lt.nCi) && history.frameEntries == AddAll(offers, g.nState, lt.nCi)
      {
        var e := history.entries[bpidx];
        assert NullOffers(g, es, bpidxStart, bpidx, thresh) + [] == NullOffers(g, es, bpidxStart, bpidx, thresh);
        NullPropArcs(e, bpidx, g.arcs[Dest(g, e)], thresh, NullOffers(g, es, bpidxStart, bpidx, thresh));
        bpidx := bpidx + 1;
      }
    }

    /** fsg_search_null_prop before the first frame: only the root is there, and the offers go straight to the table. */
    method NullPropStart(thresh: int)
      requires Valid() && bpidxStart == 0 && |history.entries| == 1 && history.entries[0].frame < 0
      modifies history
      ensures Valid() && history.frameEntries == old(history.frameEntries)
      ensures history.entries == old(history.entries) + NullOffers(g, old(history.entries), 0, 1, thresh)
    {
      var e := history.entries[0];
      ghost var es := history.entries;
      assert NullOffers(g, es, 0, 0, thresh) == [];
      NullPropArcs(e, 0, g.arcs[Dest(g, e)], thresh, []);
      assert NullOffers(g, es, 0, 1, thresh) == NullArcs(g, e, 0, g.arcs[Dest(g, e)], thresh);
    }

    /** The roots of one state in fsg_search_word_trans. */
    method WordTransRoots(e: Entry, bpidx: int, roots: seq<nat>, thresh: int)
      requires Valid() && NodesFit(lt, roots)
      modifies this`hmms, this`activeNext
      ensures Valid() && Entering() == WordRoots(lt, old(Entering()), e, bpidx, roots, frame + 1, thresh)
    {
      hide TryEnter;
      var k := 0;
      while k < |roots|
        invariant k <= |roots| && Valid()
        invariant Entering() == WordRoots(lt, old(Entering()), e, bpidx, roots[..k], frame + 1, thresh)
      {
        var root := roots[k];
        assert roots[..k + 1][..k] == roots[..k];
        if e.lc in lt.nodes[root].ctxt && lt.nodes[root].ciExt in e.rc {
          Enter(root, e.score + lt.nodes[root].logs2prob, bpidx, frame + 1, thresh);
        }
        k := k + 1;
      }
      assert roots[..k] == roots;
    }

    /** fsg_search_word_trans. */
    method WordTransAll(thresh: int)
      requires Valid() && bpidxStart <= |history.entries|
      modifies this`hmms, this`activeNext
      ensures Valid()
      ensures Entering()
           == WordTrans(g, lt, old(Entering()), history.entries, bpidxStart, |history.entries|, frame + 1, thresh)
    {
      hide WordRoots, IsPnode;
      var bpidx := bpidxStart;
      while bpidx < |history.entries|
        invariant bpidxStart <= bpidx <= |history.entries| && Valid()
        invariant Entering() == WordTrans(g, lt, old(Entering()), history.entries, bpidxStart, bpidx, frame + 1, thresh)
      {
        var e := history.entries[bpidx];
        WordTransRoots(e, bpidx, lt.roots[Dest(g, e)], thresh);
        bpidx := bpidx + 1;
      }
    }

    /** Reset the nodes that did not survive into the next frame. */
    method DeactivateStale()
      requires Valid()
      modifies this`hmms
      ensures Valid() && hmms == Sweep(lt, old(hmms), active, frame)
    {
      var n := 0;
      while n < |active|
        invariant n <= |active| && Valid()
        invariant Sweep(lt, hmms, active[n..], frame) == Sweep(lt, old(hmms), active, frame)
      {
        assert active[n..][0] == active[n] && active[n..][1..] == active[n + 1..];
        if hmms[active[n]].frame == frame {
          hmms := hmms[active[n] := Cleared(hmms[active[n]])];
        }
        n := n + 1;
      }
    }

    /** The survivors among the word exits become permanent. */
    method EndExits(ghost exits: seq<Entry>)
      requires Valid() && AllFit(exits, g.nState, lt.nCi) && history.frameEntries == AddAll(exits, g.nState, lt.nCi)
      modifies history
      ensures Valid() && history.frameEntries == NoLists(g.nState, lt.nCi)
      ensures history.entries == WithExits(g, lt, old(history.entries), exits)
    {
      hide AddAll, NoLists;
      history.EndFrame();
      SurvivorsFit(g, lt, exits);
    }

    /** Null propagation and its survivors. */
    method PropagateNulls(thresh: int)
      requires Valid() && history.frameEntries == NoLists(g.nState, lt.nCi) && bpidxStart <= |history.entries|
      requires forall i :: bpidxStart <= i < |history.entries| ==> history.entries[i].frame >= 0
      modifies history
      ensures Valid() && history.frameEntries == NoLists(g.nState, lt.nCi)
      ensures history.entries == WithNulls(g, lt, old(history.entries), bpidxStart, thresh)
    {
      hide NullOffers, AddAll, NoLists;
      ghost var es := history.entries;
      NullProp(thresh);
      EndExits(NullOffers(g, es, bpidxStart, |es|, thresh));
      NullOffersFit(g, lt, es, bpidxStart, |es|, thresh);
    }

    /** Evaluation, pruning and the first transfer to the table. */
    method EvalAndExit(f: Frame)
      requires Idle() && frame >= 0 && IsFrame(lt, f) && bpidxStart == |history.entries|
      modifies this`hmms, this`bestscore, this`activeNext, history
      ensures Valid() && history.frameEntries == NoLists(g.nState, lt.nCi)
      ensures bestscore == Evaluated(g, lt, old(Abs()), f).1
      ensures Entering() == Propagated(g, lt, old(Abs()), f).act
      ensures history.entries == WithExits(g, lt, old(history.entries), Propagated(g, lt, old(Abs()), f).exits)
      ensures forall i :: bpidxStart <= i < |history.entries| ==> history.entries[i].frame == frame
    {
      hide Evaluated, PruneFrom, IsLextree, IsFrame, HmmsFit, NoLists, WithExits;
      ghost var s := Abs();
      HmmEval(f);
      ghost var exits := HmmPruneProp(f);
      EndExits(exits);
      NewFrames(s, f, exits);
    }

    /** fsg_search_step. */
    method StepFrame(f: Frame)
      requires Idle() && frame >= 0 && IsFrame(lt, f)
      modifies this, history
      ensures Idle() && Abs() == Step(g, lt, old(Abs()), f)
    {
      hide Evaluated, Propagated, WordTrans, Sweep, IsLextree, IsFrame, HmmsFit, NoLists, WithNulls, WithExits;
      GrammarOf(g, lt);
      bpidxStart := |history.entries|;
      EvalAndExit(f);
      PropagateNulls(bestscore + f.wbeam);
      WordTransAll(bestscore + f.beam);
      DeactivateStale();
      active, activeNext := activeNext, [];
      frame := frame + 1;
    }

    /** The exits of a frame carry its number. */
    lemma NewFrames(s: State, f: Frame, exits: seq<Entry>)
      requires Fit(g, lt, s) && IsFrame(lt, f) && exits == Propagated(g, lt, s, f).exits
      ensures var es := WithExits(g, lt, s.entries, exits);
        forall i :: |s.entries| <= i < |es| ==> es[i].frame == s.frame
    {
      hide Evaluated, PruneFrom, IsLextree, IsFrame, HmmsFit;
      var ev := Evaluated(g, lt, s, f);
      ExitFrames(Prop(Act(ev.0, []), []), s.active, s.frame, ThresholdsOf(ev.1, f));
      var es := WithExits(g, lt, s.entries, exits);
      forall i | |s.entries| <= i < |es| ensures es[i].frame == s.frame {
        var o := SurvivorIsOffer(exits, g.nState, lt.nCi, es[i]);
      }
    }

    ghost predicate AllAt(es: seq<Entry>, fr: int) {
      forall e :: e in es ==> e.frame == fr
    }

    lemma {:induction false} ExitFrames(p: Prop, ids: seq<nat>, fr: int, th: Thresholds)
      requires IsLextree(g, lt) && PropFit(g, lt, p) && NodesFit(lt, ids) && AllAt(p.exits, fr)
      ensures AllAt(PruneFrom(g, lt, p, ids, fr, th).exits, fr)
      decreases |ids|
    {
      if ids != [] {
        hide TransFrom, IsPnode;
        ExitFrames(PruneNode(g, lt, p, ids[0], fr, th), ids[1..], fr, th);
      }
    }

    /** fsg_search_start. */
    method StartUtterance(sil: nat, beam: int, wbeam: int)
      requires Idle() && active == [] && sil < lt.nCi
      modifies this, history
      ensures Idle() && Abs() == Start(g, lt, sil, beam, wbeam, old(hmms))
    {
      hide WordTrans, NullOffers, IsLextree, HmmsFit, NoLists;
      GrammarOf(g, lt);
      history.Reset();
      final := false;
      frame, bestscore := -1, 0;
      history.EntryAdd(None, -1, 0, -1, sil, ALL_CONTEXTS);
      assert history.entries == [RootEntry(sil)];
      bpidxStart := 0;
      NullPropStart(bestscore + wbeam);
      assert history.entries == StartEntries(g, lt, sil, wbeam);
      WordTransAll(bestscore + beam);
      active, activeNext := activeNext, [];
      frame := frame + 1;
    }

    /** fsg_search_finish. */
    method FinishUtterance()
      requires Idle() && frame >= 0
      modifies this
      ensures Idle() && Abs() == Finish(g, lt, old(Abs()))
    {
      var n := 0;
      while n < |active|
        invariant n <= |active| && Valid()
        invariant active == old(active) && activeNext == [] && bestscore == old(bestscore) && frame == old(frame)
        invariant ClearAll(lt, hmms, active[n..]) == ClearAll(lt, old(hmms), active)
      {
        assert active[n..][0] == active[n] && active[n..][1..] == active[n + 1..];
        hmms := hmms[active[n] := Cleared(hmms[active[n]])];
        n := n + 1;
      }
      active, final := [], true;
    }
  }
}
