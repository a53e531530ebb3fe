/** One frame of the grammar search (src/fsg_search.c) as functions on values.  The methods that do this
    in place are in FsgMachine.dfy; what the functions guarantee is in FsgSound.dfy and FsgLossless.dfy. */
module FsgStep {
  import opened Basics
  import opened Hmm
  import opened Fsg
  import opened FsgHistory

  /** A phone node of the lexical tree.  `children` is the successor chain, `ctxt` the context set of a
      root or leaf, `tree` the grammar state whose tree the node was allocated for. */
  datatype Pnode = Pnode(leaf: bool, link: Link, children: seq<nat>, logs2prob: int,
                         ctxt: set<nat>, ciExt: nat, tp: Tmat, senid: seq<int>, tree: nat)

  datatype Lextree = Lextree(nEmit: nat, nCi: nat, nodes: seq<Pnode>, roots: seq<seq<nat>>)

  predicate IsPnode(g: Grammar, lt: Lextree, p: Pnode) {
    && IsTmat(p.tp, lt.nEmit) && |p.senid| == lt.nEmit && p.tree < g.nState && p.ciExt < lt.nCi
    && (p.leaf ==> IsArc(g, p.link) && p.link.from == p.tree && p.link.wid >= 0 && p.ctxt != {})
    && (!p.leaf ==> forall k :: 0 <= k < |p.children| ==>
         p.children[k] < |lt.nodes| && lt.nodes[p.children[k]].tree == p.tree)
  }

  predicate IsLextree(g: Grammar, lt: Lextree) {
    && IsGrammar(g) && lt.nEmit > 0 && |lt.roots| == g.nState
    && (forall i :: 0 <= i < |lt.nodes| ==> IsPnode(g, lt, lt.nodes[i]))
    && (forall s, k :: 0 <= s < |lt.roots| && 0 <= k < |lt.roots[s]| ==>
         lt.roots[s][k] < |lt.nodes| && lt.nodes[lt.roots[s][k]].tree == s)
  }

  /** The context structure that applies to all contexts: every bit of the vector is set. */
  const ALL_CONTEXTS: set<nat> := set i: nat | 0 <= i < 256

  /** What a frame brings: senone scores, and the beams in force (their adjustment to the number of
      active nodes is floating point and is not modelled). */
  datatype Frame = Frame(senscr: seq<int>, beam: int, pbeam: int, wbeam: int)

  predicate IsFrame(lt: Lextree, f: Frame) {
    && IsContext(Context(f.senscr, []))
    && forall i :: 0 <= i < |lt.nodes| ==> IdsOk(Context(f.senscr, []), false, lt.nodes[i].senid)
  }

  datatype State = State(frame: int, bestscore: int, hmms: seq<HmmState>, active: seq<nat>,
                         entries: seq<Entry>, final: bool)

  predicate HmmsFit(lt: Lextree, hmms: seq<HmmState>) {
    |hmms| == |lt.nodes| && forall i :: 0 <= i < |hmms| ==> IsState(hmms[i], lt.nEmit)
  }

  predicate NodesFit(lt: Lextree, ids: seq<nat>) {
    forall k :: 0 <= k < |ids| ==> ids[k] < |lt.nodes|
  }

  predicate EntriesFit(g: Grammar, lt: Lextree, es: seq<Entry>) {
    forall i :: 0 <= i < |es| ==> es[i].lc < lt.nCi && (es[i].link.Some? ==> es[i].link.value.to < g.nState)
  }

  predicate Fit(g: Grammar, lt: Lextree, s: State) {
    IsLextree(g, lt) && HmmsFit(lt, s.hmms) && NodesFit(lt, s.active) && EntriesFit(g, lt, s.entries) && s.frame >= 0
  }

  /** The grammar state a history entry ends in. */
  function Dest(g: Grammar, e: Entry): nat {
    if e.link.Some? then e.link.value.to else g.start
  }

  // ---- fsg_search_hmm_eval

  function EvalNode(lt: Lextree, f: Frame, i: nat, st: HmmState): (r: HmmState)
    requires i < |lt.nodes| && IsTmat(lt.nodes[i].tp, lt.nEmit) && |lt.nodes[i].senid| == lt.nEmit
    requires IsFrame(lt, f) && IsState(st, lt.nEmit)
    ensures IsState(r, lt.nEmit)
  {
    VitEval(lt.nodes[i].tp, Emissions(Context(f.senscr, []), false, lt.nodes[i].senid), false, st)
  }

  function EvalFrom(g: Grammar, lt: Lextree, f: Frame, hmms: seq<HmmState>, best: int, active: seq<nat>):
      (r: (seq<HmmState>, int))
    requires IsLextree(g, lt) && IsFrame(lt, f) && HmmsFit(lt, hmms) && NodesFit(lt, active)
    ensures HmmsFit(lt, r.0)
    decreases |active|
  {
    if active == [] then (hmms, best)
    else
      var st := EvalNode(lt, f, active[0], hmms[active[0]]);
      EvalFrom(g, lt, f, hmms[active[0] := st], if st.best > best then st.best else best, active[1..])
  }

  // ---- entering nodes for the next frame

  datatype Act = Act(hmms: seq<HmmState>, next: seq<nat>)

  predicate ActFit(lt: Lextree, a: Act) {
    lt.nEmit > 0 && HmmsFit(lt, a.hmms) && NodesFit(lt, a.next)
  }

  /** The body shared by fsg_search_pnode_trans and fsg_search_word_trans. */
  function TryEnter(lt: Lextree, a: Act, node: nat, newscore: int, hist: int, nf: int, thresh: int): (r: Act)
    requires ActFit(lt, a) && node < |lt.nodes|
    ensures ActFit(lt, r)
  {
    var st := a.hmms[node];
    if newscore > thresh && newscore > st.score[0] then
      Act(a.hmms[node := Entered(st, newscore, hist, nf)], if st.frame < nf then [node] + a.next else a.next)
    else a
  }

  function TransFrom(lt: Lextree, a: Act, out: int, outHist: int, nf: int, thresh: int, children: seq<nat>): (r: Act)
    requires ActFit(lt, a) && NodesFit(lt, children)
    ensures ActFit(lt, r)
    decreases |children|
  {
    if children == [] then a
    else
      TransFrom(lt, TryEnter(lt, a, children[0], out + lt.nodes[children[0]].logs2prob, outHist, nf, thresh),
                out, outHist, nf, thresh, children[1..])
  }

  // ---- fsg_search_hmm_prune_prop

  datatype Thresholds = Thresholds(main: int, phone: int, word: int)

  datatype Prop = Prop(act: Act, exits: seq<Entry>)

  predicate PropFit(g: Grammar, lt: Lextree, p: Prop) {
    ActFit(lt, p.act) && AllFit(p.exits, g.nState, lt.nCi)
  }

  /** fsg_search_pnode_exit: fillers and single-phone words exit to every right context. */
  function ExitEntry(g: Grammar, p: Pnode, st: HmmState, frame: int): Entry {
    Entry(Some(p.link), frame, st.out, st.outHist, p.ciExt,
          if p.link.wid in g.fillers || p.link.wid in g.singlePhone then ALL_CONTEXTS else p.ctxt)
  }

  /** The node stays active for the next frame, unless it was entered there already. */
  function Stay(lt: Lextree, a: Act, i: nat, frame: int): (r: Act)
    requires ActFit(lt, a) && i < |lt.nodes|
    ensures ActFit(lt, r)
  {
    if a.hmms[i].frame == frame then Act(a.hmms[i := a.hmms[i].(frame := frame + 1)], [i] + a.next) else a
  }

  function PruneNode(g: Grammar, lt: Lextree, p: Prop, i: nat, frame: int, th: Thresholds): (r: Prop)
    requires IsLextree(g, lt) && PropFit(g, lt, p) && i < |lt.nodes|
    ensures PropFit(g, lt, r)
  {
    var st, node := p.act.hmms[i], lt.nodes[i];
    if st.best < th.main then p
    else
      var a := Stay(lt, p.act, i, frame);
      if !node.leaf then
        if st.out >= th.phone then
          p.(act := TransFrom(lt, a, st.out, st.outHist, frame + 1, th.main, node.children))
        else p.(act := a)
      else if st.out >= th.word then Prop(a, p.exits + [ExitEntry(g, node, st, frame)])
      else p.(act := a)
  }

  function PruneFrom(g: Grammar, lt: Lextree, p: Prop, active: seq<nat>, frame: int, th: Thresholds): (r: Prop)
    requires IsLextree(g, lt) && PropFit(g, lt, p) && NodesFit(lt, active)
    ensures PropFit(g, lt, r)
    decreases |active|
  {
    if active == [] then p
    else PruneFrom(g, lt, PruneNode(g, lt, p, active[0], frame, th), active[1..], frame, th)
  }

  // ---- fsg_search_null_prop

  function NullEntry(e: Entry, bpidx: int, l: Link): Entry {
    Entry(Some(l), e.frame, e.score + ShiftedProb(l), bpidx, e.lc, e.rc)
  }

  function NullArcs(g: Grammar, e: Entry, bpidx: int, arcs: seq<Link>, thresh: int): seq<Entry> {
    if arcs == [] then []
    else
      var l, before := arcs[|arcs| - 1], NullArcs(g, e, bpidx, arcs[..|arcs| - 1], thresh);
      if l.wid == -1 && NullEntry(e, bpidx, l).score >= thresh then before + [NullEntry(e, bpidx, l)] else before
  }

  /** Offers of the entries lo to hi through their null transitions. */
  function NullOffers(g: Grammar, es: seq<Entry>, lo: nat, hi: nat, thresh: int): seq<Entry>
    requires lo <= hi <= |es| && IsGrammar(g)
    requires forall i :: 0 <= i < |es| && es[i].link.Some? ==> es[i].link.value.to < g.nState
    decreases hi
  {
    if hi == lo then []
    else NullOffers(g, es, lo, hi - 1, thresh) + NullArcs(g, es[hi - 1], hi - 1, g.arcs[Dest(g, es[hi - 1])], thresh)
  }

  lemma {:induction false} InNullArcs(g: Grammar, e: Entry, bpidx: int, arcs: seq<Link>, thresh: int, n: Entry)
    ensures n in NullArcs(g, e, bpidx, arcs, thresh) <==>
      exists l :: l in arcs && l.wid == -1 && n == NullEntry(e, bpidx, l) && n.score >= thresh
  {
    if arcs != [] {
      var k := |arcs| - 1;
      InNullArcs(g, e, bpidx, arcs[..k], thresh, n);
      assert forall l :: l in arcs <==> l in arcs[..k] || l == arcs[k];
    }
  }

  /** n is the entry of index k sent through the null transition l. */
  predicate NullOf(g: Grammar, es: seq<Entry>, k: nat, l: Link, thresh: int, n: Entry)
    requires k < |es| && Dest(g, es[k]) < |g.arcs|
  {
    l in g.arcs[Dest(g, es[k])] && l.wid == -1 && n == NullEntry(es[k], k, l) && n.score >= thresh
  }

  lemma {:induction false} InNullOffers(g: Grammar, es: seq<Entry>, lo: nat, hi: nat, thresh: int, n: Entry)
    requires lo <= hi <= |es| && IsGrammar(g)
    requires forall i :: 0 <= i < |es| && es[i].link.Some? ==> es[i].link.value.to < g.nState
    ensures n in NullOffers(g, es, lo, hi, thresh) <==>
      exists k, l :: lo <= k < hi && NullOf(g, es, k, l, thresh, n)
    decreases hi
  {
    if lo < hi {
      InNullOffers(g, es, lo, hi - 1, thresh, n);
      InNullArcs(g, es[hi - 1], hi - 1, g.arcs[Dest(g, es[hi - 1])], thresh, n);
      var e, arcs := es[hi - 1], g.arcs[Dest(g, es[hi - 1])];
      if l :| l in arcs && l.wid == -1 && n == NullEntry(e, hi - 1, l) && n.score >= thresh {
        assert NullOf(g, es, hi - 1, l, thresh, n);
      }
    }
  }

  lemma NullOffersFit(g: Grammar, lt: Lextree, es: seq<Entry>, lo: nat, hi: nat, thresh: int)
    requires lo <= hi <= |es| && IsGrammar(g) && EntriesFit(g, lt, es)
    ensures AllFit(NullOffers(g, es, lo, hi, thresh), g.nState, lt.nCi)
    ensures EntriesFit(g, lt, NullOffers(g, es, lo, hi, thresh))
  {
    var ns := NullOffers(g, es, lo, hi, thresh);
    forall i | 0 <= i < |ns| ensures Fits(ns[i], g.nState, lt.nCi) {
      InNullOffers(g, es, lo, hi, thresh, ns[i]);
      var k, l :| lo <= k < hi && NullOf(g, es, k, l, thresh, ns[i]);
    }
  }

  // ---- fsg_search_word_trans

  function WordRoots(lt: Lextree, a: Act, e: Entry, bpidx: int, roots: seq<nat>, nf: int, thresh: int): (r: Act)
    requires ActFit(lt, a) && NodesFit(lt, roots)
    ensures ActFit(lt, r)
    decreases |roots|
  {
    if roots == [] then a
    else
      var root, before := roots[|roots| - 1], WordRoots(lt, a, e, bpidx, roots[..|roots| - 1], nf, thresh);
      if e.lc in lt.nodes[root].ctxt && lt.nodes[root].ciExt in e.rc then
        TryEnter(lt, before, root, e.score + lt.nodes[root].logs2prob, bpidx, nf, thresh)
      else before
  }

  function WordTrans(g: Grammar, lt: Lextree, a: Act, es: seq<Entry>, lo: nat, hi: nat, nf: int, thresh: int): (r: Act)
    requires IsLextree(g, lt) && ActFit(lt, a) && EntriesFit(g, lt, es) && lo <= hi <= |es|
    ensures ActFit(lt, r)
    decreases hi
  {
    if hi == lo then a
    else WordRoots(lt, WordTrans(g, lt, a, es, lo, hi - 1, nf, thresh), es[hi - 1], hi - 1,
                   lt.roots[Dest(g, es[hi - 1])], nf, thresh)
  }

  // ---- fsg_search_step, fsg_search_start, fsg_search_finish

  /** Nodes of the frame that were not carried into the next one are cleared. */
  function Sweep(lt: Lextree, hmms: seq<HmmState>, active: seq<nat>, frame: int): (r: seq<HmmState>)
    requires HmmsFit(lt, hmms) && NodesFit(lt, active)
    ensures HmmsFit(lt, r)
    decreases |active|
  {
    if active == [] then hmms
    else
      Sweep(lt, if hmms[active[0]].frame == frame then hmms[active[0] := Cleared(hmms[active[0]])] else hmms,
            active[1..], frame)
  }

  function Evaluated(g: Grammar, lt: Lextree, s: State, f: Frame): (r: (seq<HmmState>, int))
    requires Fit(g, lt, s) && IsFrame(lt, f)
    ensures HmmsFit(lt, r.0)
  {
    if s.active == [] then (s.hmms, s.bestscore) else EvalFrom(g, lt, f, s.hmms, WORST_SCORE, s.active)
  }

  function ThresholdsOf(best: int, f: Frame): Thresholds {
    Thresholds(best + f.beam, best + f.pbeam, best + f.wbeam)
  }

  function Propagated(g: Grammar, lt: Lextree, s: State, f: Frame): (r: Prop)
    requires Fit(g, lt, s) && IsFrame(lt, f)
    ensures PropFit(g, lt, r)
  {
    var ev := Evaluated(g, lt, s, f);
    PruneFrom(g, lt, Prop(Act(ev.0, []), []), s.active, s.frame, ThresholdsOf(ev.1, f))
  }

  lemma SurvivorsFit(g: Grammar, lt: Lextree, offers: seq<Entry>)
    requires AllFit(offers, g.nState, lt.nCi)
    ensures EntriesFit(g, lt, Survivors(offers, g.nState, lt.nCi))
  {
    var ss := Survivors(offers, g.nState, lt.nCi);
    forall i | 0 <= i < |ss| ensures ss[i].lc < lt.nCi && (ss[i].link.Some? ==> ss[i].link.value.to < g.nState) {
      var o := SurvivorIsOffer(offers, g.nState, lt.nCi, ss[i]);
    }
  }

  function WithExits(g: Grammar, lt: Lextree, es: seq<Entry>, exits: seq<Entry>): (r: seq<Entry>)
    requires EntriesFit(g, lt, es) && AllFit(exits, g.nState, lt.nCi)
    ensures EntriesFit(g, lt, r) && |es| <= |r|
  {
    SurvivorsFit(g, lt, exits);
    es + Survivors(exits, g.nState, lt.nCi)
  }

  /** The table after the null transitions of the entries from lo on. */
  function WithNulls(g: Grammar, lt: Lextree, es: seq<Entry>, lo: nat, thresh: int): (r: seq<Entry>)
    requires IsGrammar(g) && EntriesFit(g, lt, es) && lo <= |es|
    ensures EntriesFit(g, lt, r) && |es| <= |r|
  {
    NullOffersFit(g, lt, es, lo, |es|, thresh);
    SurvivorsFit(g, lt, NullOffers(g, es, lo, |es|, thresh));
    es + Survivors(NullOffers(g, es, lo, |es|, thresh), g.nState, lt.nCi)
  }

  function Step(g: Grammar, lt: Lextree, s: State, f: Frame): (r: State)
    requires Fit(g, lt, s) && IsFrame(lt, f)
    ensures Fit(g, lt, r)
  {
    var best := Evaluated(g, lt, s, f).1;
    var p := Propagated(g, lt, s, f);
    var es := WithNulls(g, lt, WithExits(g, lt, s.entries, p.exits), |s.entries|, best + f.wbeam);
    var a := WordTrans(g, lt, p.act, es, |s.entries|, |es|, s.frame + 1, best + f.beam);
    State(s.frame + 1, best, Sweep(lt, a.hmms, s.active, s.frame), a.next, es, s.final)
  }

  /** The dummy entry that leads to the start state. */
  function RootEntry(sil: nat): Entry {
    Entry(None, -1, 0, -1, sil, ALL_CONTEXTS)
  }

  function StartEntries(g: Grammar, lt: Lextree, sil: nat, wbeam: int): (r: seq<Entry>)
    requires IsGrammar(g) && sil < lt.nCi
    ensures EntriesFit(g, lt, r) && |r| >= 1 && r[0] == RootEntry(sil)
  {
    NullOffersFit(g, lt, [RootEntry(sil)], 0, 1, wbeam);
    [RootEntry(sil)] + NullOffers(g, [RootEntry(sil)], 0, 1, wbeam)
  }

  function Start(g: Grammar, lt: Lextree, sil: nat, beam: int, wbeam: int, hmms: seq<HmmState>): (r: State)
    requires IsLextree(g, lt) && HmmsFit(lt, hmms) && sil < lt.nCi
    ensures Fit(g, lt, r)
  {
    var es := StartEntries(g, lt, sil, wbeam);
    var a := WordTrans(g, lt, Act(hmms, []), es, 0, |es|, 0, beam);
    State(0, 0, a.hmms, a.next, es, false)
  }

  function ClearAll(lt: Lextree, hmms: seq<HmmState>, active: seq<nat>): (r: seq<HmmState>)
    requires HmmsFit(lt, hmms) && NodesFit(lt, active)
    ensures HmmsFit(lt, r)
    decreases |active|
  {
    if active == [] then hmms else ClearAll(lt, hmms[active[0] := Cleared(hmms[active[0]])], active[1..])
  }

  function Finish(g: Grammar, lt: Lextree, s: State): (r: State)
    requires Fit(g, lt, s)
    ensures Fit(g, lt, r)
  {
    s.(hmms := ClearAll(lt, s.hmms, s.active), active := [], final := true)
  }
}
