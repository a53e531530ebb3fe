/** Pruning the history by right context loses nothing: the scores with which the roots of the lexical
    tree are entered are those of a table that keeps every word exit and every null transition. */
module FsgLossless {
  import opened Hmm
  import opened Fsg
  import opened FsgHistory
  import opened FsgStep

  /** Entry e offers root r the score v. */
  predicate Offers(g: Grammar, lt: Lextree, e: Entry, r: nat, thresh: int, v: int)
    requires r < |lt.nodes|
  {
    && Dest(g, e) < |lt.roots| && r in lt.roots[Dest(g, e)]
    && e.lc in lt.nodes[r].ctxt && lt.nodes[r].ciExt in e.rc
    && v == e.score + lt.nodes[r].logs2prob && v > thresh
  }

  /** v is the best of the old in-score and the offers of the entries lo to hi, with the history to match. */
  ghost predicate BestOffered(g: Grammar, lt: Lextree, es: seq<Entry>, lo: nat, hi: nat, r: nat, thresh: int,
                              before: HmmState, after: HmmState)
    requires r < |lt.nodes| && lo <= hi <= |es| && IsState(before, lt.nEmit) && IsState(after, lt.nEmit) && lt.nEmit > 0
  {
    && after.score[0] >= before.score[0]
    && (forall k, v :: lo <= k < hi && Offers(g, lt, es[k], r, thresh, v) ==> v <= after.score[0])
    && ((after.score[0] == before.score[0] && after.hist[0] == before.hist[0])
        || exists k :: lo <= k < hi && Offers(g, lt, es[k], r, thresh, after.score[0]) && after.hist[0] == k)
  }

  /** The roots of one state are offered the entry's score. */
  lemma {:induction false} RootsOffer(g: Grammar, lt: Lextree, a: Act, e: Entry, bpidx: int, roots: seq<nat>, nf: int,
      thresh: int, r: nat)
    requires ActFit(lt, a) && NodesFit(lt, roots) && r < |lt.nodes|
    ensures var a', b := WordRoots(lt, a, e, bpidx, roots, nf, thresh).hmms[r], a.hmms[r];
      var v := e.score + lt.nodes[r].logs2prob;
      if r in roots && e.lc in lt.nodes[r].ctxt && lt.nodes[r].ciExt in e.rc && v > thresh && v > b.score[0]
      then a'.score[0] == v && a'.hist[0] == bpidx
      else a'.score[0] == b.score[0] && a'.hist[0] == b.hist[0]
    decreases |roots|
  {
    if roots != [] {
      var before, root := roots[..|roots| - 1], roots[|roots| - 1];
      RootsOffer(g, lt, a, e, bpidx, before, nf, thresh, r);
      assert r in roots <==> r in before || r == root;
    }
  }

  lemma NothingOffered(g: Grammar, lt: Lextree, es: seq<Entry>, lo: nat, r: nat, thresh: int, before: HmmState)
    requires r < |lt.nodes| && lo <= |es| && lt.nEmit > 0 && IsState(before, lt.nEmit)
    ensures BestOffered(g, lt, es, lo, lo, r, thresh, before, before)
  {
  }

  /** One more entry offers its score, or has nothing to offer. */
  lemma NextOffered(g: Grammar, lt: Lextree, es: seq<Entry>, lo: nat, hi: nat, r: nat, thresh: int,
                    before: HmmState, mid: HmmState, after: HmmState)
    requires r < |lt.nodes| && lo < hi <= |es| && lt.nEmit > 0
    requires IsState(before, lt.nEmit) && IsState(mid, lt.nEmit) && IsState(after, lt.nEmit)
    requires BestOffered(g, lt, es, lo, hi - 1, r, thresh, before, mid)
    requires var v := es[hi - 1].score + lt.nodes[r].logs2prob;
      if Offers(g, lt, es[hi - 1], r, thresh, v) && v > mid.score[0]
      then after.score[0] == v && after.hist[0] == hi - 1
      else after.score[0] == mid.score[0] && after.hist[0] == mid.hist[0]
    ensures BestOffered(g, lt, es, lo, hi, r, thresh, before, after)
  {
    forall k, v | lo <= k < hi && Offers(g, lt, es[k], r, thresh, v) ensures v <= after.score[0] {
      assert v == es[k].score + lt.nodes[r].logs2prob;
    }
  }

  /** What the word transitions of a frame do to the in-score of each root. */
  lemma {:induction false} WordTransBest(g: Grammar, lt: Lextree, a: Act, es: seq<Entry>, lo: nat, hi: nat, nf: int,
      thresh: int, r: nat)
    requires IsLextree(g, lt) && ActFit(lt, a) && EntriesFit(g, lt, es) && lo <= hi <= |es| && r < |lt.nodes|
    ensures BestOffered(g, lt, es, lo, hi, r, thresh, a.hmms[r], WordTrans(g, lt, a, es, lo, hi, nf, thresh).hmms[r])
    decreases hi
  {
    if lo < hi {
      hide WordRoots, IsTmat, BestOffered, IsPnode;
      WordTransBest(g, lt, a, es, lo, hi - 1, nf, thresh, r);
      var mid := WordTrans(g, lt, a, es, lo, hi - 1, nf, thresh);
      RootsOffer(g, lt, mid, es[hi - 1], hi - 1, lt.roots[Dest(g, es[hi - 1])], nf, thresh, r);
      NextOffered(g, lt, es, lo, hi, r, thresh, a.hmms[r], mid.hmms[r],
                  WordTrans(g, lt, a, es, lo, hi, nf, thresh).hmms[r]);
    } else {
      NothingOffered(g, lt, es, lo, r, thresh, a.hmms[r]);
    }
  }

  /** Every offer of one range of entries is matched by one at least as good of another. */
  ghost predicate Matches(g: Grammar, lt: Lextree, a: seq<Entry>, loA: nat, b: seq<Entry>, loB: nat, r: nat,
      thresh: int)
    requires r < |lt.nodes|
  {
    forall k, v :: loA <= k < |a| && Offers(g, lt, a[k], r, thresh, v) ==>
      exists j, w :: loB <= j < |b| && Offers(g, lt, b[j], r, thresh, w) && w >= v
  }

  /** A range whose offers are all matched by another does not score better. */
  lemma MatchedIsNoBetter(g: Grammar, lt: Lextree, a: seq<Entry>, b: seq<Entry>, lo: nat, r: nat, thresh: int,
                          before: HmmState, ra: HmmState, rb: HmmState)
    requires r < |lt.nodes| && lo <= |a| && lo <= |b| && lt.nEmit > 0
    requires IsState(before, lt.nEmit) && IsState(ra, lt.nEmit) && IsState(rb, lt.nEmit)
    requires BestOffered(g, lt, a, lo, |a|, r, thresh, before, ra)
      && BestOffered(g, lt, b, lo, |b|, r, thresh, before, rb)
    requires Matches(g, lt, a, lo, b, lo, r, thresh)
    ensures ra.score[0] <= rb.score[0]
  {
    if ra.score[0] != before.score[0] {
      hide Offers;
      var k :| lo <= k < |a| && Offers(g, lt, a[k], r, thresh, ra.score[0]) && ra.hist[0] == k;
      var j, w :| lo <= j < |b| && Offers(g, lt, b[j], r, thresh, w) && w >= ra.score[0];
    }
  }

  // ---- the two tables

  /** The table of the search: survivors of the exits, then survivors of their null transitions. */
  function PrunedTable(g: Grammar, lt: Lextree, es: seq<Entry>, exits: seq<Entry>, wthresh: int): (r: seq<Entry>)
    requires IsGrammar(g) && EntriesFit(g, lt, es) && AllFit(exits, g.nState, lt.nCi)
    ensures EntriesFit(g, lt, r) && |es| <= |r|
  {
    WithNulls(g, lt, WithExits(g, lt, es, exits), |es|, wthresh)
  }

  /** The same without any pruning by right context. */
  function FullTable(g: Grammar, lt: Lextree, es: seq<Entry>, exits: seq<Entry>, wthresh: int): (r: seq<Entry>)
    requires IsGrammar(g) && EntriesFit(g, lt, es) && AllFit(exits, g.nState, lt.nCi)
    ensures EntriesFit(g, lt, r) && |es| <= |r|
  {
    var all := es + exits;
    assert EntriesFit(g, lt, all) by {
      forall i | 0 <= i < |all| ensures all[i].lc < lt.nCi && (all[i].link.Some? ==> all[i].link.value.to < g.nState) {
        assert i >= |es| ==> Fits(exits[i - |es|], g.nState, lt.nCi);
      }
    }
    NullOffersFit(g, lt, all, |es|, |all|, wthresh);
    all + NullOffers(g, all, |es|, |all|, wthresh)
  }

  /** Entry x of a table serves context c at least as well as o. */
  predicate Serves(x: Entry, o: Entry, c: nat) {
    && x.link.Some? && o.link.Some? && x.link.value.to == o.link.value.to && x.lc == o.lc
    && c in x.rc && c in o.rc && x.score >= o.score
  }

  lemma ServingOffers(g: Grammar, lt: Lextree, x: Entry, o: Entry, r: nat, thresh: int, v: int)
    requires r < |lt.nodes| && Serves(x, o, lt.nodes[r].ciExt) && Offers(g, lt, o, r, thresh, v)
    ensures Offers(g, lt, x, r, thresh, x.score + lt.nodes[r].logs2prob) && x.score + lt.nodes[r].logs2prob >= v
  {
  }

  /** One entry sent through the same null transition as another that it serves as well. */
  lemma NullServes(g: Grammar, x: Entry, kx: int, o: Entry, ko: int, l: Link, c: nat)
    requires Serves(x, o, c)
    ensures Serves(NullEntry(x, kx, l), NullEntry(o, ko, l), c)
  {
  }

  /** Everything in the full table is served by the pruned one. */
  lemma FullIsServed(g: Grammar, lt: Lextree, es: seq<Entry>, exits: seq<Entry>, wthresh: int, k: nat, c: nat)
    returns (j: nat)
    requires IsGrammar(g) && EntriesFit(g, lt, es) && AllFit(exits, g.nState, lt.nCi) && NonEmptyContexts(exits)
    requires |es| <= k < |FullTable(g, lt, es, exits, wthresh)| && c in FullTable(g, lt, es, exits, wthresh)[k].rc
    ensures |es| <= j < |PrunedTable(g, lt, es, exits, wthresh)|
    ensures Serves(PrunedTable(g, lt, es, exits, wthresh)[j], FullTable(g, lt, es, exits, wthresh)[k], c)
  {
    var full := FullTable(g, lt, es, exits, wthresh);
    var all := es + exits;
    if k < |all| {
      j := ExitIsServed(g, lt, es, exits, wthresh, full[k], c);
    } else {
      var nulls := NullOffers(g, all, |es|, |all|, wthresh);
      assert full[k] == nulls[k - |all|];
      InNullOffers(g, all, |es|, |all|, wthresh, full[k]);
      var ko, l :| |es| <= ko < |all| && NullOf(g, all, ko, l, wthresh, full[k]);
      var kx := ExitIsServed(g, lt, es, exits, wthresh, all[ko], c);
      j := NullIsServed(g, lt, es, exits, wthresh, all[ko], ko, kx, l, c);
    }
  }

  /** The survivor that serves an exit, as an index of both the first-stage and the final table. */
  lemma ExitIsServed(g: Grammar, lt: Lextree, es: seq<Entry>, exits: seq<Entry>, wthresh: int, o: Entry, c: nat)
    returns (j: nat)
    requires IsGrammar(g) && EntriesFit(g, lt, es) && AllFit(exits, g.nState, lt.nCi) && NonEmptyContexts(exits)
    requires o in exits && c in o.rc
    ensures |es| <= j < |WithExits(g, lt, es, exits)|
    ensures Serves(WithExits(g, lt, es, exits)[j], o, c)
    ensures j < |PrunedTable(g, lt, es, exits, wthresh)|
    ensures PrunedTable(g, lt, es, exits, wthresh)[j] == WithExits(g, lt, es, exits)[j]
  {
    var i :| 0 <= i < |exits| && exits[i] == o;
    assert Fits(exits[i], g.nState, lt.nCi);
    var x := OfferIsCovered(exits, g.nState, lt.nCi, o, c);
    var ss := Survivors(exits, g.nState, lt.nCi);
    var m :| 0 <= m < |ss| && ss[m] == x;
    j := |es| + m;
  }

  lemma NullIsServed(g: Grammar, lt: Lextree, es: seq<Entry>, exits: seq<Entry>, wthresh: int,
                     o: Entry, ko: nat, kx: nat, l: Link, c: nat) returns (j: nat)
    requires IsGrammar(g) && EntriesFit(g, lt, es) && AllFit(exits, g.nState, lt.nCi) && NonEmptyContexts(exits)
    requires |es| <= kx < |WithExits(g, lt, es, exits)| && Serves(WithExits(g, lt, es, exits)[kx], o, c)
    requires Dest(g, o) < |g.arcs| && l in g.arcs[Dest(g, o)] && l.wid == -1 && NullEntry(o, ko, l).score >= wthresh
    ensures |es| <= j < |PrunedTable(g, lt, es, exits, wthresh)|
    ensures Serves(PrunedTable(g, lt, es, exits, wthresh)[j], NullEntry(o, ko, l), c)
  {
    var e1 := WithExits(g, lt, es, exits);
    var x := e1[kx];
    NullServes(g, x, kx, o, ko, l, c);
    var n := NullEntry(x, kx, l);
    var nulls := NullOffers(g, e1, |es|, |e1|, wthresh);
    InNullOffers(g, e1, |es|, |e1|, wthresh, n);
    assert NullOf(g, e1, kx, l, wthresh, n);
    NullOffersFit(g, lt, e1, |es|, |e1|, wthresh);
    NullContexts(g, lt, es, exits, wthresh);
    var y := OfferIsCovered(nulls, g.nState, lt.nCi, n, c);
    var ss := Survivors(nulls, g.nState, lt.nCi);
    var m :| 0 <= m < |ss| && ss[m] == y;
    j := |e1| + m;
  }

  /** Null transitions inherit non-empty context sets. */
  lemma NullContexts(g: Grammar, lt: Lextree, es: seq<Entry>, exits: seq<Entry>, wthresh: int)
    requires IsGrammar(g) && EntriesFit(g, lt, es) && AllFit(exits, g.nState, lt.nCi) && NonEmptyContexts(exits)
    ensures var e1 := WithExits(g, lt, es, exits); NonEmptyContexts(NullOffers(g, e1, |es|, |e1|, wthresh))
  {
    var e1 := WithExits(g, lt, es, exits);
    var nulls := NullOffers(g, e1, |es|, |e1|, wthresh);
    forall i | 0 <= i < |nulls| ensures nulls[i].rc != {} {
      InNullOffers(g, e1, |es|, |e1|, wthresh, nulls[i]);
      var k, l :| |es| <= k < |e1| && NullOf(g, e1, k, l, wthresh, nulls[i]);
      SurvivorContexts(exits, g.nState, lt.nCi, e1[k]);
    }
  }

  lemma SurvivorContexts(offers: seq<Entry>, nState: nat, nCi: nat, x: Entry)
    requires AllFit(offers, nState, nCi) && NonEmptyContexts(offers) && x in Survivors(offers, nState, nCi)
    ensures x.rc != {}
  {
    var fl := AddAll(offers, nState, nCi);
    InRows(fl, x);
    var s :| 0 <= s < |fl| && InSome(fl[s], x);
    var k :| 0 <= k < |fl[s]| && x in fl[s][k];
    ListsAreSeparate(offers, nState, nCi, s, k);
    var sel := Select(offers, s, k);
    Selected(offers, s, k);
    forall i | 0 <= i < |sel| ensures sel[i].rc != {} {
      assert sel[i] in sel;
    }
    ListInvariant(sel, 0);
  }

  /** Everything in the pruned table comes from the full one, with part of its contexts. */
  lemma PrunedIsServed(g: Grammar, lt: Lextree, es: seq<Entry>, exits: seq<Entry>, wthresh: int, k: nat, c: nat)
    returns (j: nat)
    requires IsGrammar(g) && EntriesFit(g, lt, es) && AllFit(exits, g.nState, lt.nCi)
    requires |es| <= k < |PrunedTable(g, lt, es, exits, wthresh)| && c in PrunedTable(g, lt, es, exits, wthresh)[k].rc
    ensures |es| <= j < |FullTable(g, lt, es, exits, wthresh)|
    ensures Serves(FullTable(g, lt, es, exits, wthresh)[j], PrunedTable(g, lt, es, exits, wthresh)[k], c)
  {
    var pruned := PrunedTable(g, lt, es, exits, wthresh);
    var e1, all := WithExits(g, lt, es, exits), es + exits;
    if k < |e1| {
      j := SurvivorSource(g, lt, es, exits, pruned[k]);
    } else {
      var nulls := NullOffers(g, e1, |es|, |e1|, wthresh);
      NullOffersFit(g, lt, e1, |es|, |e1|, wthresh);
      assert pruned[k] == Survivors(nulls, g.nState, lt.nCi)[k - |e1|];
      var n := SurvivorIsOffer(nulls, g.nState, lt.nCi, pruned[k]);
      InNullOffers(g, e1, |es|, |e1|, wthresh, n);
      var kx, l :| |es| <= kx < |e1| && NullOf(g, e1, kx, l, wthresh, n);
      var ko := SurvivorSource(g, lt, es, exits, e1[kx]);
      var m := NullEntry(all[ko], ko, l);
      InNullOffers(g, all, |es|, |all|, wthresh, m);
      assert NullOf(g, all, ko, l, wthresh, m);
      var full := NullOffers(g, all, |es|, |all|, wthresh);
      var i :| 0 <= i < |full| && full[i] == m;
      j := |all| + i;
    }
  }

  lemma SurvivorSource(g: Grammar, lt: Lextree, es: seq<Entry>, exits: seq<Entry>, x: Entry) returns (j: nat)
    requires AllFit(exits, g.nState, lt.nCi) && x in Survivors(exits, g.nState, lt.nCi)
    ensures |es| <= j < |es + exits| && x.rc <= (es + exits)[j].rc && x == (es + exits)[j].(rc := x.rc)
    ensures x.link.Some?
  {
    var o := SurvivorIsOffer(exits, g.nState, lt.nCi, x);
    var i :| 0 <= i < |exits| && exits[i] == o;
    assert Fits(exits[i], g.nState, lt.nCi);
    j := |es| + i;
  }

  /** Right-context pruning loses nothing: with the null propagation between the two stages, every root of
      the lexical tree gets the in-score it would have got from the table of all word exits. */
  lemma PruningLosesNothing(g: Grammar, lt: Lextree, a: Act, es: seq<Entry>, exits: seq<Entry>,
                            nf: int, thresh: int, wthresh: int, r: nat)
    requires IsLextree(g, lt) && ActFit(lt, a) && EntriesFit(g, lt, es) && r < |lt.nodes|
    requires AllFit(exits, g.nState, lt.nCi) && NonEmptyContexts(exits)
    ensures var pruned, full := PrunedTable(g, lt, es, exits, wthresh), FullTable(g, lt, es, exits, wthresh);
      WordTrans(g, lt, a, pruned, |es|, |pruned|, nf, thresh).hmms[r].score[0]
      == WordTrans(g, lt, a, full, |es|, |full|, nf, thresh).hmms[r].score[0]
  {
    hide PrunedTable, FullTable, WordTrans, BestOffered;
    var pruned, full := PrunedTable(g, lt, es, exits, wthresh), FullTable(g, lt, es, exits, wthresh);
    var c := lt.nodes[r].ciExt;
    WordTransBest(g, lt, a, pruned, |es|, |pruned|, nf, thresh, r);
    WordTransBest(g, lt, a, full, |es|, |full|, nf, thresh, r);
    forall k, v | |es| <= k < |full| && Offers(g, lt, full[k], r, thresh, v)
      ensures exists j, w :: |es| <= j < |pruned| && Offers(g, lt, pruned[j], r, thresh, w) && w >= v
    {
      var j := FullIsServed(g, lt, es, exits, wthresh, k, c);
      ServingOffers(g, lt, pruned[j], full[k], r, thresh, v);
    }
    forall k, v | |es| <= k < |pruned| && Offers(g, lt, pruned[k], r, thresh, v)
      ensures exists j, w :: |es| <= j < |full| && Offers(g, lt, full[j], r, thresh, w) && w >= v
    {
      var j := PrunedIsServed(g, lt, es, exits, wthresh, k, c);
      ServingOffers(g, lt, full[j], pruned[k], r, thresh, v);
    }
    var ra := WordTrans(g, lt, a, pruned, |es|, |pruned|, nf, thresh).hmms[r];
    var rb := WordTrans(g, lt, a, full, |es|, |full|, nf, thresh).hmms[r];
    MatchedIsNoBetter(g, lt, pruned, full, |es|, r, thresh, a.hmms[r], ra, rb);
    MatchedIsNoBetter(g, lt, full, pruned, |es|, r, thresh, a.hmms[r], rb, ra);
  }

  /** The exits a frame offers always name at least one right context. */
  lemma {:induction false} ExitsHaveContexts(g: Grammar, lt: Lextree, p: Prop, active: seq<nat>, frame: int,
      th: Thresholds)
    requires IsLextree(g, lt) && PropFit(g, lt, p) && NodesFit(lt, active) && NonEmptyContexts(p.exits)
    ensures NonEmptyContexts(PruneFrom(g, lt, p, active, frame, th).exits)
    decreases |active|
  {
    if active != [] {
      assert 0 in ALL_CONTEXTS;
      ExitsHaveContexts(g, lt, PruneNode(g, lt, p, active[0], frame, th), active[1..], frame, th);
    }
  }

  /** So it is in every step of the search. */
  lemma StepLosesNothing(g: Grammar, lt: Lextree, s: State, f: Frame, r: nat)
    requires Fit(g, lt, s) && IsFrame(lt, f) && r < |lt.nodes|
    ensures var p, best := Propagated(g, lt, s, f), Evaluated(g, lt, s, f).1;
      var full := FullTable(g, lt, s.entries, p.exits, best + f.wbeam);
      var es := Step(g, lt, s, f).entries;
      WordTrans(g, lt, p.act, es, |s.entries|, |es|, s.frame + 1, best + f.beam).hmms[r].score[0]
      == WordTrans(g, lt, p.act, full, |s.entries|, |full|, s.frame + 1, best + f.beam).hmms[r].score[0]
  {
    hide Evaluated, PruneFrom, WordTrans, FullTable;
    var best := Evaluated(g, lt, s, f).1;
    ExitsHaveContexts(g, lt, Prop(Act(Evaluated(g, lt, s, f).0, []), []), s.active, s.frame, ThresholdsOf(best, f));
    PruningLosesNothing(g, lt, Propagated(g, lt, s, f).act, s.entries, Propagated(g, lt, s, f).exits,
                        s.frame + 1, best + f.beam, best + f.wbeam, r);
  }
}
