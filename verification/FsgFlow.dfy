/** How scores flow through one frame of the grammar search: what evaluation, pruning, propagation and word
    transitions do to each node, whatever the order of the lists. */
module FsgFlow {
  import opened Hmm
  import opened Fsg
  import opened FsgHistory
  import opened FsgStep
  import opened FsgSound

  // ---- evaluation

  /** Every active node is evaluated once. */
  lemma {:induction false} EvalFromEach(g: Grammar, lt: Lextree, f: Frame, hmms: seq<HmmState>, best: int,
                                        active: seq<nat>, i: nat)
    requires IsLextree(g, lt) && IsFrame(lt, f) && HmmsFit(lt, hmms) && NodesFit(lt, active) && NoDup(active)
    requires i < |lt.nodes| && IsPnode(g, lt, lt.nodes[i])
    ensures EvalFrom(g, lt, f, hmms, best, active).0[i]
         == if i in active then EvalNode(lt, f, i, hmms[i]) else hmms[i]
    decreases |active|
  {
    if active != [] {
      hide EvalNode, IsFrame;
      DistinctTail(active);
      assert i in active <==> i == active[0] || i in active[1..];
      var st := EvalNode(lt, f, active[0], hmms[active[0]]);
      EvalFromEach(g, lt, f, hmms[active[0] := st], if st.best > best then st.best else best, active[1..], i);
    }
  }

  /** The best score of a frame is the best of what the evaluated nodes report. */
  ghost predicate BestOfThese(hmms: seq<HmmState>, active: seq<nat>, init: int, best: int) {
    && best >= init && (forall i :: i in active && i < |hmms| ==> hmms[i].best <= best)
    && (best == init || exists i :: i in active && i < |hmms| && hmms[i].best == best)
  }

  lemma {:induction false} EvalFromBest(g: Grammar, lt: Lextree, f: Frame, hmms: seq<HmmState>, best: int,
                                        active: seq<nat>)
    requires IsLextree(g, lt) && IsFrame(lt, f) && HmmsFit(lt, hmms) && NodesFit(lt, active) && NoDup(active)
    ensures var r := EvalFrom(g, lt, f, hmms, best, active); BestOfThese(r.0, active, best, r.1)
    decreases |active|
  {
    if active != [] {
      hide EvalNode, IsFrame, IsPnode, BestOfThese;
      assert NoDup(active[1..]) && active[0] !in active[1..] by { DistinctTail(active); }
      var st := EvalNode(lt, f, active[0], hmms[active[0]]);
      var rest, top := hmms[active[0] := st], if st.best > best then st.best else best;
      EvalFromBest(g, lt, f, rest, top, active[1..]);
      EvalFromKeeps(g, lt, f, rest, top, active[1..]);
      BestWithHead(EvalFrom(g, lt, f, rest, top, active[1..]).0, active, best, top,
                   EvalFrom(g, lt, f, rest, top, active[1..]).1);
    } else {
      assert BestOfThese(hmms, [], best, best);
    }
  }

  lemma DistinctTail(active: seq<nat>)
    requires active != [] && NoDup(active)
    ensures NoDup(active[1..]) && active[0] !in active[1..]
  {
    forall a, b | 0 <= a < b < |active[1..]| ensures active[1..][a] != active[1..][b] {
      assert active[a + 1] != active[b + 1];
    }
  }

  lemma BestWithHead(hmms: seq<HmmState>, active: seq<nat>, init: int, top: int, best: int)
    requires active != [] && active[0] < |hmms| && BestOfThese(hmms, active[1..], top, best)
    requires top == if hmms[active[0]].best > init then hmms[active[0]].best else init
    ensures BestOfThese(hmms, active, init, best)
  {
    assert forall i :: i in active <==> i == active[0] || i in active[1..];
  }

  // ---- entering

  /** After an entry only state 0 has changed, for the better; the node is in the next frame or as it was. */
  predicate Raised(st: HmmState, r: HmmState, nf: int) {
    && |st.score| == |r.score| > 0 && st.score[1..] == r.score[1..] && st.score[0] <= r.score[0]
    && |st.hist| == |r.hist| > 0 && st.hist[1..] == r.hist[1..]
    && st.out == r.out && st.outHist == r.outHist && st.best == r.best
    && st.ssid == r.ssid
    && (r.frame == nf || r == st)
  }

  /** State 0 holds what it held, or the score v with the history h. */
  predicate Took(st: HmmState, r: HmmState, v: int, h: int, taken: bool) {
    && |st.score| == |r.score| > 0 && |st.hist| == |r.hist| > 0
    && if taken then r.score[0] == v && r.hist[0] == h else r.score[0] == st.score[0] && r.hist[0] == st.hist[0]
  }

  lemma RaisedTrans(a: HmmState, b: HmmState, c: HmmState, nf: int)
    requires Raised(a, b, nf) && Raised(b, c, nf)
    ensures Raised(a, c, nf)
  {
  }

  lemma EnterRaises(lt: Lextree, a: Act, node: nat, newscore: int, hist: int, nf: int, thresh: int, i: nat)
    requires ActFit(lt, a) && node < |lt.nodes| && i < |lt.nodes|
    ensures var r := TryEnter(lt, a, node, newscore, hist, nf, thresh).hmms[i];
      && Raised(a.hmms[i], r, nf)
      && (i == node && newscore > thresh ==> r.score[0] >= newscore)
      && (r == a.hmms[i] || (i == node && newscore > thresh && newscore > a.hmms[i].score[0]
                             && Took(a.hmms[i], r, newscore, hist, true)))
  {
  }

  /** The children of a node are offered its exit score. */
  ghost predicate Passed(lt: Lextree, out: int, outHist: int, thresh: int, children: seq<nat>, i: nat,
                         st: HmmState, r: HmmState, nf: int)
    requires i < |lt.nodes|
  {
    var v := out + lt.nodes[i].logs2prob;
    && Raised(st, r, nf)
    && (i in children && v > thresh ==> r.score[0] >= v)
    && (r == st || (i in children && v > thresh && v > st.score[0] && Took(st, r, v, outHist, true)))
  }

  lemma {:induction false} TransPasses(lt: Lextree, a: Act, out: int, outHist: int, nf: int, thresh: int,
                                       children: seq<nat>, i: nat)
    requires ActFit(lt, a) && NodesFit(lt, children) && i < |lt.nodes|
    ensures Passed(lt, out, outHist, thresh, children, i, a.hmms[i],
                   TransFrom(lt, a, out, outHist, nf, thresh, children).hmms[i], nf)
    decreases |children|
  {
    if children != [] {
      hide TryEnter;
      assert i in children <==> i == children[0] || i in children[1..];
      var sc := out + lt.nodes[children[0]].logs2prob;
      EnterRaises(lt, a, children[0], sc, outHist, nf, thresh, i);
      TransPasses(lt, TryEnter(lt, a, children[0], sc, outHist, nf, thresh), out, outHist, nf, thresh,
                  children[1..], i);
    }
  }

  // ---- pruning and propagation

  /** Node i passes its exit score on to its child c. */
  predicate Gives(lt: Lextree, st: HmmState, i: nat, c: nat, th: Thresholds)
    requires i < |lt.nodes| && c < |lt.nodes|
  {
    !lt.nodes[i].leaf && c in lt.nodes[i].children && st.best >= th.main && st.out >= th.phone
  }

  predicate Given(lt: Lextree, st: HmmState, from: HmmState, i: nat, c: nat, th: Thresholds, r: HmmState)
    requires i < |lt.nodes| && c < |lt.nodes|
  {
    var v := from.out + lt.nodes[c].logs2prob;
    && Gives(lt, from, i, c, th) && |st.score| > 0 && v > th.main && v > st.score[0]
    && Took(st, r, v, from.outHist, true)
  }

  predicate Offered(g: Grammar, lt: Lextree, st: HmmState, i: nat, frame: int, th: Thresholds, x: Entry)
    requires i < |lt.nodes|
  {
    lt.nodes[i].leaf && st.best >= th.main && st.out >= th.word
    && x == ExitEntry(g, lt.nodes[i], st, frame)
  }

  /** What pruning makes of node c, given the nodes before. */
  ghost predicate Flowed(lt: Lextree, hmms: seq<HmmState>, active: seq<nat>, frame: int, th: Thresholds,
                         c: nat, r: HmmState)
    requires |hmms| == |lt.nodes| && c < |lt.nodes| && NodesFit(lt, active)
  {
    && Raised(hmms[c], r, frame + 1)
    && (c in active && hmms[c].best >= th.main && hmms[c].frame == frame ==> r.frame == frame + 1)
    && (forall i :: i in active && Gives(lt, hmms[i], i, c, th) && hmms[i].out + lt.nodes[c].logs2prob > th.main ==>
         r.score[0] >= hmms[i].out + lt.nodes[c].logs2prob)
    && (Took(hmms[c], r, 0, 0, false) || exists i :: i in active && Given(lt, hmms[c], hmms[i], i, c, th, r))
    && (Took(hmms[c], r, 0, 0, false) && r.frame != hmms[c].frame ==> Stays(hmms[c], c, active, frame, th))
  }

  /** The node survives pruning. */
  predicate Stays(st: HmmState, c: nat, active: seq<nat>, frame: int, th: Thresholds) {
    c in active && st.best >= th.main && st.frame == frame
  }

  lemma StayRaises(lt: Lextree, a: Act, i: nat, frame: int, c: nat)
    requires ActFit(lt, a) && i < |lt.nodes| && c < |lt.nodes|
    ensures var r := Stay(lt, a, i, frame).hmms[c];
      && Raised(a.hmms[c], r, frame + 1) && r.score == a.hmms[c].score && r.hist == a.hmms[c].hist
      && (c == i && a.hmms[c].frame == frame ==> r.frame == frame + 1)
      && (r.frame != a.hmms[c].frame ==> c == i && a.hmms[c].frame == frame)
  {
  }

  lemma PruneNodeFlows(g: Grammar, lt: Lextree, p: Prop, i: nat, frame: int, th: Thresholds, c: nat)
    requires IsLextree(g, lt) && PropFit(g, lt, p) && i < |lt.nodes| && c < |lt.nodes|
    ensures Flowed(lt, p.act.hmms, [i], frame, th, c, PruneNode(g, lt, p, i, frame, th).act.hmms[c])
  {
    hide TransFrom, Stay, IsTmat;
    var st, node := p.act.hmms[i], lt.nodes[i];
    var a := Stay(lt, p.act, i, frame);
    StayRaises(lt, p.act, i, frame, c);
    if st.best >= th.main && !node.leaf && st.out >= th.phone {
      TransPasses(lt, a, st.out, st.outHist, frame + 1, th.main, node.children, c);
    }
    assert i in [i];
  }

  lemma FlowsTrans(lt: Lextree, a: seq<HmmState>, b: seq<HmmState>, i: nat, rest: seq<nat>, frame: int, th: Thresholds,
                   c: nat, r: HmmState)
    requires |a| == |b| == |lt.nodes| && c < |lt.nodes| && i < |lt.nodes| && NodesFit(lt, rest)
    requires forall j :: 0 <= j < |a| ==> Raised(a[j], b[j], frame + 1)
    requires Flowed(lt, a, [i], frame, th, c, b[c]) && Flowed(lt, b, rest, frame, th, c, r)
    ensures Flowed(lt, a, [i] + rest, frame, th, c, r)
  {
    RaisedTrans(a[c], b[c], r, frame + 1);
    forall j | j in [i] + rest && Gives(lt, a[j], j, c, th) && a[j].out + lt.nodes[c].logs2prob > th.main
      ensures r.score[0] >= a[j].out + lt.nodes[c].logs2prob
    {
      assert Raised(a[j], b[j], frame + 1);
      assert j in [i] || j in rest;
    }
    if !Took(b[c], r, 0, 0, false) {
      var j :| j in rest && Given(lt, b[c], b[j], j, c, th, r);
      assert Raised(a[j], b[j], frame + 1);
      assert j in [i] + rest && Given(lt, a[c], a[j], j, c, th, r);
    } else if !Took(a[c], b[c], 0, 0, false) {
      var j :| j in [i] && Given(lt, a[c], a[j], j, c, th, b[c]);
      assert j in [i] + rest && Given(lt, a[c], a[j], j, c, th, r);
    }
    if Took(a[c], r, 0, 0, false) && r.frame != a[c].frame {
      assert Took(a[c], b[c], 0, 0, false);
      assert Stays(a[c], c, [i], frame, th) || Stays(b[c], c, rest, frame, th);
    }
  }

  lemma {:induction false} PruneFlows(g: Grammar, lt: Lextree, p: Prop, active: seq<nat>, frame: int, th: Thresholds,
                                      c: nat)
    requires IsLextree(g, lt) && PropFit(g, lt, p) && NodesFit(lt, active) && c < |lt.nodes|
    ensures Flowed(lt, p.act.hmms, active, frame, th, c, PruneFrom(g, lt, p, active, frame, th).act.hmms[c])
    decreases |active|
  {
    if active == [] {
      NothingFlows(g, lt, p, frame, th, c);
    } else {
      var q := PruneNode(g, lt, p, active[0], frame, th);
      forall j | 0 <= j < |lt.nodes| ensures Flowed(lt, p.act.hmms, [active[0]], frame, th, j, q.act.hmms[j]) {
        PruneNodeFlows(g, lt, p, active[0], frame, th, j);
      }
      PruneFlows(g, lt, q, active[1..], frame, th, c);
      assert active == [active[0]] + active[1..];
      hide PruneNode;
      FlowsTrans(lt, p.act.hmms, q.act.hmms, active[0], active[1..], frame, th, c,
                 PruneFrom(g, lt, q, active[1..], frame, th).act.hmms[c]);
    }
  }

  lemma NothingFlows(g: Grammar, lt: Lextree, p: Prop, frame: int, th: Thresholds, c: nat)
    requires PropFit(g, lt, p) && c < |lt.nodes|
    ensures Flowed(lt, p.act.hmms, [], frame, th, c, p.act.hmms[c])
  {
  }

  /** The exits of a frame are those of the leaves whose scores pass the thresholds. */
  ghost predicate ExitsOf(g: Grammar, lt: Lextree, hmms: seq<HmmState>, active: seq<nat>, frame: int, th: Thresholds,
                          before: seq<Entry>, exits: seq<Entry>)
    requires |hmms| == |lt.nodes| && NodesFit(lt, active)
  {
    && (forall x :: x in before ==> x in exits)
    && (forall i :: i in active && lt.nodes[i].leaf && hmms[i].best >= th.main && hmms[i].out >= th.word ==>
         exists x :: x in exits && Offered(g, lt, hmms[i], i, frame, th, x))
    && forall x :: x in exits ==> x in before || FromLeaf(g, lt, hmms, active, frame, th, x)
  }

  ghost predicate FromLeaf(g: Grammar, lt: Lextree, hmms: seq<HmmState>, active: seq<nat>, frame: int, th: Thresholds,
                           x: Entry)
    requires |hmms| == |lt.nodes| && NodesFit(lt, active)
  {
    exists i :: i in active && Offered(g, lt, hmms[i], i, frame, th, x)
  }

  lemma PruneNodeExits(g: Grammar, lt: Lextree, p: Prop, i: nat, frame: int, th: Thresholds)
    requires IsLextree(g, lt) && PropFit(g, lt, p) && i < |lt.nodes|
    ensures ExitsOf(g, lt, p.act.hmms, [i], frame, th, p.exits, PruneNode(g, lt, p, i, frame, th).exits)
  {
    hide TransFrom, IsTmat;
    var st, node := p.act.hmms[i], lt.nodes[i];
    assert i in [i];
    if st.best >= th.main && node.leaf && st.out >= th.word {
      var x := ExitEntry(g, node, st, frame);
      assert Offered(g, lt, st, i, frame, th, x);
      assert PruneNode(g, lt, p, i, frame, th).exits[|p.exits|] == x;
    }
  }

  lemma ExitsTrans(g: Grammar, lt: Lextree, a: seq<HmmState>, b: seq<HmmState>, i: nat, rest: seq<nat>, frame: int,
                   th: Thresholds, x: seq<Entry>, y: seq<Entry>, z: seq<Entry>)
    requires |a| == |b| == |lt.nodes| && i < |lt.nodes| && NodesFit(lt, rest) && NodesFit(lt, [i] + rest)
    requires forall j :: 0 <= j < |a| ==> a[j].out == b[j].out && a[j].outHist == b[j].outHist && a[j].best == b[j].best
    requires ExitsOf(g, lt, a, [i], frame, th, x, y) && ExitsOf(g, lt, b, rest, frame, th, y, z)
    ensures ExitsOf(g, lt, a, [i] + rest, frame, th, x, z)
  {
    forall j, e | 0 <= j < |a|
      ensures Offered(g, lt, a[j], j, frame, th, e) <==> Offered(g, lt, b[j], j, frame, th, e)
    {
    }
    hide Offered;
    forall j | j in [i] + rest && lt.nodes[j].leaf && a[j].best >= th.main && a[j].out >= th.word
      ensures exists e :: e in z && Offered(g, lt, a[j], j, frame, th, e)
    {
      assert j in [i] || j in rest;
      if j in rest {
        var e :| e in z && Offered(g, lt, b[j], j, frame, th, e);
        assert Offered(g, lt, a[j], j, frame, th, e);
      }
    }
    forall e | e in z && e !in x ensures FromLeaf(g, lt, a, [i] + rest, frame, th, e) {
      if e in y {
        var j :| j in [i] && Offered(g, lt, a[j], j, frame, th, e);
        assert j in [i] + rest;
      } else {
        var j :| j in rest && Offered(g, lt, b[j], j, frame, th, e);
        assert j in [i] + rest && Offered(g, lt, a[j], j, frame, th, e);
      }
    }
  }

  lemma {:induction false} PruneExits(g: Grammar, lt: Lextree, p: Prop, active: seq<nat>, frame: int, th: Thresholds)
    requires IsLextree(g, lt) && PropFit(g, lt, p) && NodesFit(lt, active)
    ensures ExitsOf(g, lt, p.act.hmms, active, frame, th, p.exits, PruneFrom(g, lt, p, active, frame, th).exits)
    decreases |active|
  {
    if active != [] {
      var q := PruneNode(g, lt, p, active[0], frame, th);
      PruneNodeExits(g, lt, p, active[0], frame, th);
      forall j | 0 <= j < |lt.nodes| ensures Raised(p.act.hmms[j], q.act.hmms[j], frame + 1) {
        PruneNodeFlows(g, lt, p, active[0], frame, th, j);
      }
      PruneExits(g, lt, q, active[1..], frame, th);
      assert active == [active[0]] + active[1..];
      hide PruneNode, ExitsOf;
      ExitsTrans(g, lt, p.act.hmms, q.act.hmms, active[0], active[1..], frame, th, p.exits, q.exits,
                 PruneFrom(g, lt, q, active[1..], frame, th).exits);
    }
  }

  // ---- word transitions

  lemma {:induction false} RootsRaise(lt: Lextree, a: Act, e: Entry, bpidx: int, roots: seq<nat>, nf: int,
                                      thresh: int, i: nat)
    requires ActFit(lt, a) && NodesFit(lt, roots) && i < |lt.nodes|
    ensures Raised(a.hmms[i], WordRoots(lt, a, e, bpidx, roots, nf, thresh).hmms[i], nf)
    decreases |roots|
  {
    if roots != [] {
      hide TryEnter;
      var before, root := roots[..|roots| - 1], roots[|roots| - 1];
      RootsRaise(lt, a, e, bpidx, before, nf, thresh, i);
      var b := WordRoots(lt, a, e, bpidx, before, nf, thresh);
      EnterRaises(lt, b, root, e.score + lt.nodes[root].logs2prob, bpidx, nf, thresh, i);
    }
  }

  lemma {:induction false} WordsRaise(g: Grammar, lt: Lextree, a: Act, es: seq<Entry>, lo: nat, hi: nat, nf: int,
                                      thresh: int, i: nat)
    requires IsLextree(g, lt) && ActFit(lt, a) && EntriesFit(g, lt, es) && lo <= hi <= |es| && i < |lt.nodes|
    ensures Raised(a.hmms[i], WordTrans(g, lt, a, es, lo, hi, nf, thresh).hmms[i], nf)
    decreases hi
  {
    if lo < hi {
      hide Raised, WordRoots, IsPnode;
      WordsRaise(g, lt, a, es, lo, hi - 1, nf, thresh, i);
      var b := WordTrans(g, lt, a, es, lo, hi - 1, nf, thresh);
      RootsRaise(lt, b, es[hi - 1], hi - 1, lt.roots[Dest(g, es[hi - 1])], nf, thresh, i);
      RaisedTrans(a.hmms[i], b.hmms[i], WordTrans(g, lt, a, es, lo, hi, nf, thresh).hmms[i], nf);
    } else {
      assert Raised(a.hmms[i], a.hmms[i], nf);
    }
  }
}
