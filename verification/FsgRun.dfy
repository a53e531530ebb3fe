/** Whole utterances of the grammar search, and what a backtrace through the history table spells. */
module FsgRun {
  import opened Hmm
  import opened Fsg
  import opened FsgHistory
  import opened FsgStep
  import opened FsgSound
  import opened FsgPaths

  datatype Utterance = Utterance(sil: nat, beam: int, wbeam: int, frames: seq<Frame>)

  predicate IsUtterance(g: Grammar, lt: Lextree, u: Utterance) {
    IsLextree(g, lt) && u.sil < lt.nCi && forall i :: 0 <= i < |u.frames| ==> IsFrame(lt, u.frames[i])
  }

  predicate Clean(lt: Lextree, hmms: seq<HmmState>) {
    HmmsFit(lt, hmms) && forall i :: 0 <= i < |hmms| ==> IsCleared(hmms[i])
  }

  /** The search after the first n frames. */
  function After(g: Grammar, lt: Lextree, u: Utterance, hmms: seq<HmmState>, n: nat): (s: State)
    requires IsUtterance(g, lt, u) && HmmsFit(lt, hmms) && n <= |u.frames|
    ensures Fit(g, lt, s)
  {
    if n == 0 then Start(g, lt, u.sil, u.beam, u.wbeam, hmms)
    else Step(g, lt, After(g, lt, u, hmms, n - 1), u.frames[n - 1])
  }

  /** The phone and word thresholds of every frame stay above WORST_SCORE. */
  predicate StaysAbove(g: Grammar, lt: Lextree, u: Utterance, hmms: seq<HmmState>)
    requires IsUtterance(g, lt, u) && HmmsFit(lt, hmms)
  {
    forall n :: 0 <= n < |u.frames| ==> AboveFloor(g, lt, After(g, lt, u, hmms, n), u.frames[n])
  }

  /** The active list is exact at every frame of every utterance, whatever the thresholds. */
  lemma {:induction false} RunIsActiveExact(g: Grammar, lt: Lextree, u: Utterance, hmms: seq<HmmState>, n: nat)
    requires IsUtterance(g, lt, u) && Clean(lt, hmms) && n <= |u.frames|
    ensures ActiveExact(After(g, lt, u, hmms, n))
    ensures |After(g, lt, u, hmms, n).active| <= |lt.nodes|
  {
    hide Step, Start, ActiveExact, IsLextree, HmmsFit, Fit, IsCleared, IsFrame;
    if n == 0 {
      StartIsActive(g, lt, u.sil, u.beam, u.wbeam, hmms);
    } else {
      RunIsActiveExact(g, lt, u, hmms, n - 1);
      StepKeepsActive(g, lt, After(g, lt, u, hmms, n - 1), u.frames[n - 1]);
    }
    ActiveWithinNodes(g, lt, After(g, lt, u, hmms, n));
  }

  lemma {:induction false} RunIsSound(g: Grammar, lt: Lextree, u: Utterance, hmms: seq<HmmState>, n: nat)
    requires IsUtterance(g, lt, u) && Clean(lt, hmms) && n <= |u.frames| && StaysAbove(g, lt, u, hmms)
    ensures Sound(g, lt, After(g, lt, u, hmms, n))
  {
    hide Step, Start, Sound, IsLextree, HmmsFit, Fit, IsFrame, AboveFloor;
    if n == 0 {
      StartIsSound(g, lt, u.sil, u.beam, u.wbeam, hmms);
    } else {
      RunIsSound(g, lt, u, hmms, n - 1);
      StepKeepsSound(g, lt, After(g, lt, u, hmms, n - 1), u.frames[n - 1]);
    }
  }

  /** Ending an utterance leaves the network as clean as it was found, so utterances do not affect each other. */
  lemma UtterancesAreIndependent(g: Grammar, lt: Lextree, u: Utterance, hmms: seq<HmmState>)
    requires IsUtterance(g, lt, u) && Clean(lt, hmms)
    ensures Clean(lt, Finish(g, lt, After(g, lt, u, hmms, |u.frames|)).hmms)
  {
    RunIsActiveExact(g, lt, u, hmms, |u.frames|);
    FinishClears(g, lt, After(g, lt, u, hmms, |u.frames|));
  }

  // ---- backtraces

  predicate IsPath(g: Grammar, from: nat, links: seq<Link>, to: nat) {
    if links == [] then from == to
    else IsArc(g, links[|links| - 1]) && links[|links| - 1].to == to
         && IsPath(g, from, links[..|links| - 1], links[|links| - 1].from)
  }

  /** The transitions on the way back from entry bp, first to last; entry 0 is the root. */
  function Links(g: Grammar, es: seq<Entry>, bp: int): seq<Link>
    requires Chained(g, es) && bp < |es|
    decreases bp
  {
    if bp <= 0 then [] else
      assert Follows(g, es, bp);
      Links(g, es, es[bp].pred) + [es[bp].link.value]
  }

  /** Every backtrace ends at the root and spells a path of the grammar from its start state to the state
      the entry ends in. */
  lemma {:induction false} BacktraceIsPath(g: Grammar, es: seq<Entry>, bp: nat)
    requires Chained(g, es) && bp < |es|
    ensures IsPath(g, g.start, Links(g, es, bp), Dest(g, es[bp]))
  {
    if bp > 0 {
      assert Follows(g, es, bp);
      BacktraceIsPath(g, es, es[bp].pred);
      var links := Links(g, es, bp);
      assert links[..|links| - 1] == Links(g, es, es[bp].pred);
    }
  }

  /** Soundness of grammar decoding: at any time in any utterance whose thresholds stay above the floor,
      whatever entry one starts from, the words read off the backtrace are accepted by the grammar up to
      the entry's state, and the entry's frame has been decoded. */
  lemma DecodingIsSound(g: Grammar, lt: Lextree, u: Utterance, hmms: seq<HmmState>, n: nat, bp: nat)
    requires IsUtterance(g, lt, u) && Clean(lt, hmms) && n <= |u.frames| && StaysAbove(g, lt, u, hmms)
    requires bp < |After(g, lt, u, hmms, n).entries|
    ensures var es := After(g, lt, u, hmms, n).entries;
      && Chained(g, es) && IsPath(g, g.start, Links(g, es, bp), Dest(g, es[bp])) && -1 <= es[bp].frame < n
  {
    hide Step, Start, HmmsFit, IsLextree, Fit, IsFrame, Histories;
    RunIsSound(g, lt, u, hmms, n);
    var es := After(g, lt, u, hmms, n).entries;
    BacktraceIsPath(g, es, bp);
    RootIsFirst(g, lt, u, hmms, n);
    assert es[0].frame <= es[bp].frame;
  }

  /** Every frame counts one up and leaves the entries made before it in place. */
  lemma StepExtends(g: Grammar, lt: Lextree, s: State, f: Frame)
    requires Fit(g, lt, s) && IsFrame(lt, f)
    ensures Step(g, lt, s, f).frame == s.frame + 1 && s.entries <= Step(g, lt, s, f).entries
  {
    hide Propagated, WordTrans, Sweep, Survivors, NullOffers, Evaluated;
  }

  lemma StartRoot(g: Grammar, lt: Lextree, u: Utterance, hmms: seq<HmmState>)
    requires IsUtterance(g, lt, u) && HmmsFit(lt, hmms)
    ensures var s := Start(g, lt, u.sil, u.beam, u.wbeam, hmms);
      s.frame == 0 && s.entries != [] && s.entries[0] == RootEntry(u.sil)
  {
    hide WordTrans, NullOffers, IsLextree, IsFrame, HmmsFit;
  }

  lemma {:induction false} RootIsFirst(g: Grammar, lt: Lextree, u: Utterance, hmms: seq<HmmState>, n: nat)
    requires IsUtterance(g, lt, u) && HmmsFit(lt, hmms) && n <= |u.frames|
    ensures var s := After(g, lt, u, hmms, n); s.frame == n && s.entries != [] && s.entries[0] == RootEntry(u.sil)
  {
    hide Step, Start, HmmsFit, IsLextree, Fit, IsFrame;
    if n == 0 {
      StartRoot(g, lt, u, hmms);
    } else {
      RootIsFirst(g, lt, u, hmms, n - 1);
      StepExtends(g, lt, After(g, lt, u, hmms, n - 1), u.frames[n - 1]);
    }
  }
}
