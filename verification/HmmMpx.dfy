/** The multiplexed evaluators of src/hmm.c, whose states carry the senone sequence of the path they hold. */
module HmmMpx {
  import opened Hmm
  import opened HmmOptimal
  import opened HmmUnrolled

  // ---- one step, with the senone sequence moving along with the history

  /** As BestInto, the winning source handing over both its history and its sequence id. */
  ghost predicate BestIntoMpx(tp: Tmat, em: seq<int>, st: HmmState, to: nat, scr: int, h: int, id: int)
    requires IsTmat(tp, |em|) && IsState(st, |em|) && to <= |em|
  {
    && (forall from :: 0 <= from < |em| && Arc(tp, from, to) ==>
         Cand(tp, em, st, from, to) <= Max(scr, WORST_SCORE))
    && (scr > WORST_SCORE ==>
         exists from :: (0 <= from < |em| && Arc(tp, from, to) && Cand(tp, em, st, from, to) == scr
                         && st.hist[from] == h && st.ssid[from] == id))
  }

  ghost predicate StepOptimalMpx(tp: Tmat, em: seq<int>, st: HmmState, r: HmmState)
    requires IsTmat(tp, |em|) && IsState(st, |em|)
  {
    && IsState(r, |em|)
    && (forall to :: 0 <= to < |em| ==> BestIntoMpx(tp, em, st, to, r.score[to], r.hist[to], r.ssid[to]))
    && BestInto(tp, em, st, |em|, r.out, r.outHist)
    && BestOf(r)
  }

  /** What hmm_init and hmm_enter establish: state 0 is set, and a state with no sequence holds no path. */
  predicate MpxShape(st: HmmState) {
    && |st.score| == |st.hist| == |st.ssid| > 0
    && st.ssid[0] != BAD_SSID
    && forall s :: 0 <= s < |st.ssid| && st.ssid[s] == BAD_SSID ==> st.score[s] <= WORST_SCORE
  }

  /** Emissions as hmm_senscr yields them: the worst score for an unset state. */
  predicate MpxEmission(em: seq<int>, st: HmmState) {
    && |em| == |st.ssid| && NonPositive(em)
    && forall s :: 0 <= s < |em| && st.ssid[s] == BAD_SSID ==> em[s] == WORST_SCORE
  }

  lemma EmissionsAreMpx(ctx: Context, st: HmmState)
    requires IsContext(ctx) && IdsOk(ctx, true, st.ssid)
    ensures MpxEmission(Emissions(ctx, true, st.ssid), st)
  {
  }

  lemma Mpx3Into(tp: Tmat, em: seq<int>, st: HmmState, to: nat)
    requires |em| == 3 && IsTmat(tp, 3) && IsState(st, 3) && MpxShape(st) && MpxEmission(em, st)
    requires Diagram3(tp) && SkipSafe(tp) && to < 3
    ensures var p := Picks3Mpx(tp, em, st);
      BestIntoMpx(tp, em, st, to, p[to].scr, Kept(st.hist, p[to], to), Kept(st.ssid, p[to], to))
  {
    var p := Picks3Mpx(tp, em, st);
    if p[to].scr > WORST_SCORE {
      assert Arc(tp, p[to].from, to) && Cand(tp, em, st, p[to].from, to) == p[to].scr;
    }
    forall from | 0 <= from < 3 && Arc(tp, from, to)
      ensures Cand(tp, em, st, from, to) <= Max(p[to].scr, WORST_SCORE)
    {
      assert from == 0 || from == 1 || from == 2;
    }
  }

  lemma Mpx3Exit(tp: Tmat, em: seq<int>, st: HmmState)
    requires |em| == 3 && IsTmat(tp, 3) && IsState(st, 3) && MpxShape(st) && MpxEmission(em, st) && Diagram3(tp)
    ensures var o := Exit3Mpx(tp, em, st); BestInto(tp, em, st, 3, o.scr, st.hist[o.from])
  {
    var o := Exit3Mpx(tp, em, st);
    if o.scr > WORST_SCORE {
      assert Arc(tp, o.from, 3) && Cand(tp, em, st, o.from, 3) == o.scr;
    }
  }

  lemma Mpx3Step(tp: Tmat, em: seq<int>, st: HmmState)
    requires |em| == 3 && IsTmat(tp, 3) && IsState(st, 3) && MpxShape(st) && MpxEmission(em, st)
    requires Diagram3(tp) && SkipSafe(tp)
    ensures StepOptimalMpx(tp, em, st, Eval3Mpx(tp, em, st))
  {
    hide Picks3Mpx, Exit3Mpx, BestIntoMpx, BestInto;
    var o, p := Exit3Mpx(tp, em, st), Picks3Mpx(tp, em, st);
    var best := Max(Max(Max(o.scr, p[2].scr), p[1].scr), p[0].scr);
    Chain3IsApplied(ExitSet(st, true, o), true, p, best);
    var r := Eval3Mpx(tp, em, st);
    forall to | 0 <= to < 3 ensures BestIntoMpx(tp, em, st, to, r.score[to], r.hist[to], r.ssid[to]) {
      Mpx3Into(tp, em, st, to);
    }
    Mpx3Exit(tp, em, st);
    assert best == o.scr || best == r.score[0] || best == r.score[1] || best == r.score[2];
  }

  lemma Mpx5Attained(tp: Tmat, em: seq<int>, st: HmmState, to: nat)
    requires |em| == 5 && IsTmat(tp, 5) && IsState(st, 5) && MpxShape(st) && MpxEmission(em, st)
    requires Diagram5(tp) && to < 5 && Picks5Mpx(tp, em, st)[to].scr > WORST_SCORE
    ensures var p := Picks5Mpx(tp, em, st)[to];
      0 <= p.from && Arc(tp, p.from, to) && Cand(tp, em, st, p.from, to) == p.scr
  {
  }

  lemma Mpx5Dominates(tp: Tmat, em: seq<int>, st: HmmState, from: nat, to: nat)
    requires |em| == 5 && IsTmat(tp, 5) && IsState(st, 5) && MpxShape(st) && MpxEmission(em, st)
    requires Diagram5(tp) && to < 5 && from < 5 && Arc(tp, from, to)
    ensures Cand(tp, em, st, from, to) <= Max(Picks5Mpx(tp, em, st)[to].scr, WORST_SCORE)
  {
    assert from <= to <= from + 2;
  }

  lemma Mpx5Into(tp: Tmat, em: seq<int>, st: HmmState, to: nat)
    requires |em| == 5 && IsTmat(tp, 5) && IsState(st, 5) && MpxShape(st) && MpxEmission(em, st)
    requires Diagram5(tp) && to < 5
    ensures var p := Picks5Mpx(tp, em, st);
      BestIntoMpx(tp, em, st, to, p[to].scr, Kept(st.hist, p[to], to), Kept(st.ssid, p[to], to))
  {
    hide Picks5Mpx;
    var p := Picks5Mpx(tp, em, st);
    if p[to].scr > WORST_SCORE {
      Mpx5Attained(tp, em, st, to);
    }
    forall from | 0 <= from < 5 && Arc(tp, from, to)
      ensures Cand(tp, em, st, from, to) <= Max(p[to].scr, WORST_SCORE)
    {
      Mpx5Dominates(tp, em, st, from, to);
    }
  }

  lemma Mpx5Exit(tp: Tmat, em: seq<int>, st: HmmState)
    requires |em| == 5 && IsTmat(tp, 5) && IsState(st, 5) && MpxShape(st) && MpxEmission(em, st) && Diagram5(tp)
    ensures var o := Exit5Mpx(tp, em, st); BestInto(tp, em, st, 5, o.scr, st.hist[o.from])
  {
    var o := Exit5Mpx(tp, em, st);
    if o.scr > WORST_SCORE {
      assert Arc(tp, o.from, 5) && Cand(tp, em, st, o.from, 5) == o.scr;
    }
  }

  lemma Eval5MpxFields(tp: Tmat, em: seq<int>, st: HmmState)
    requires |em| == 5 && IsTmat(tp, 5) && IsState(st, 5)
    ensures var o, p, r := Exit5Mpx(tp, em, st), Picks5Mpx(tp, em, st), Eval5Mpx(tp, em, st);
      && (forall i :: 0 <= i < 5 ==> r.score[i] == p[i].scr && r.hist[i] == Kept(st.hist, p[i], i)
                                     && r.ssid[i] == Kept(st.ssid, p[i], i))
      && r.out == o.scr && r.outHist == st.hist[o.from]
      && r.best == Max(Max(Max(Max(Max(o.scr, p[4].scr), p[3].scr), p[2].scr), p[1].scr), p[0].scr)
  {
    hide Picks5Mpx, Exit5Mpx, Max;
    var o, p := Exit5Mpx(tp, em, st), Picks5Mpx(tp, em, st);
    Chain5IsApplied(ExitSet(st, true, o), true, p,
                    Max(Max(Max(Max(Max(o.scr, p[4].scr), p[3].scr), p[2].scr), p[1].scr), p[0].scr));
  }

  lemma Mpx5Step(tp: Tmat, em: seq<int>, st: HmmState)
    requires |em| == 5 && IsTmat(tp, 5) && IsState(st, 5) && MpxShape(st) && MpxEmission(em, st) && Diagram5(tp)
    ensures StepOptimalMpx(tp, em, st, Eval5Mpx(tp, em, st))
  {
    hide Picks5Mpx, Exit5Mpx, Eval5Mpx, BestIntoMpx, BestInto;
    Eval5MpxFields(tp, em, st);
    var r := Eval5Mpx(tp, em, st);
    forall to | 0 <= to < 5 ensures BestIntoMpx(tp, em, st, to, r.score[to], r.hist[to], r.ssid[to]) {
      Mpx5Into(tp, em, st, to);
    }
    Mpx5Exit(tp, em, st);
    assert r.best == r.out || r.best == r.score[0] || r.best == r.score[1] || r.best == r.score[2]
           || r.best == r.score[3] || r.best == r.score[4];
  }

  lemma AnyMpxInto(tp: Tmat, em: seq<int>, st: HmmState, to: nat)
    requires IsTmat(tp, |em|) && IsState(st, |em|) && NonPositive(em) && to < |em|
    ensures var p := AnyPick(tp, SenStage(st.score, em), to);
      BestIntoMpx(tp, em, st, to, p.scr, Kept(st.hist, p, to), Kept(st.ssid, p, to))
  {
    var ss := SenStage(st.score, em);
    ScanBest(tp, ss, to, to, SelfPick(tp, ss, to));
    var p := AnyPick(tp, ss, to);
    if p.scr > WORST_SCORE {
      var from := if p.from >= 0 then p.from else to;
      assert Arc(tp, from, to) && Cand(tp, em, st, from, to) == p.scr;
    }
  }

  lemma AnyMpxStep(tp: Tmat, em: seq<int>, st: HmmState)
    requires IsTmat(tp, |em|) && IsState(st, |em|) && NonPositive(em)
    ensures StepOptimalMpx(tp, em, st, EvalAny(tp, em, true, st))
  {
    hide EvalAny, BestInto, BestIntoMpx, SenStage, AnyPick;
    AnyStepOptimal(tp, em, true, st);
    EvalAnyApplied(tp, em, true, st);
    var r := EvalAny(tp, em, true, st);
    forall to | 0 <= to < |em| ensures BestIntoMpx(tp, em, st, to, r.score[to], r.hist[to], r.ssid[to]) {
      AnyMpxInto(tp, em, st, to);
    }
  }

  predicate CoveredMpx(tp: Tmat)
    requires IsTmat(tp, |tp|)
  {
    && (|tp| == 3 ==> Diagram3(tp) && SkipSafe(tp))
    && (|tp| == 5 ==> Diagram5(tp))
  }

  /** The dispatched multiplexed evaluator and the generic one choose the same scores, exit and best
      from any record in the shape hmm_init establishes, and each keeps that shape. */
  lemma MpxRefinesGeneric(tp: Tmat, em: seq<int>, st: HmmState)
    requires IsTmat(tp, |tp|) && |em| == |tp| && IsState(st, |tp|) && MpxShape(st) && MpxEmission(em, st)
    requires CoveredMpx(tp)
    ensures var a, b := VitEval(tp, em, true, st), EvalAny(tp, em, true, st);
      && StepOptimalMpx(tp, em, st, a) && StepOptimalMpx(tp, em, st, b)
      && (forall s :: 0 <= s < |tp| ==> Max(a.score[s], WORST_SCORE) == Max(b.score[s], WORST_SCORE))
      && Max(a.out, WORST_SCORE) == Max(b.out, WORST_SCORE)
      && Max(a.best, WORST_SCORE) == Max(b.best, WORST_SCORE)
      && MpxShape(a) && MpxShape(b)
  {
    hide Eval3Mpx, Eval5Mpx, EvalAny;
    if |tp| == 3 {
      Mpx3Step(tp, em, st);
      Mpx3Zero(tp, em, st);
    } else if |tp| == 5 {
      Mpx5Step(tp, em, st);
      Mpx5Zero(tp, em, st);
    }
    AnyMpxStep(tp, em, st);
    AnyMpxZero(tp, em, st);
    var a, b := VitEval(tp, em, true, st), EvalAny(tp, em, true, st);
    forall s | 0 <= s < |tp| ensures Max(a.score[s], WORST_SCORE) == Max(b.score[s], WORST_SCORE) {
      assert BestIntoMpx(tp, em, st, s, a.score[s], a.hist[s], a.ssid[s]);
      assert BestIntoMpx(tp, em, st, s, b.score[s], b.hist[s], b.ssid[s]);
    }
    SameBest(a, b);
    StepKeepsMpxShape(tp, em, st, a);
    StepKeepsMpxShape(tp, em, st, b);
  }

  lemma Mpx3Zero(tp: Tmat, em: seq<int>, st: HmmState)
    requires |em| == 3 && IsTmat(tp, 3) && IsState(st, 3)
    ensures Eval3Mpx(tp, em, st).ssid[0] == st.ssid[0]
  {
    var o, p := Exit3Mpx(tp, em, st), Picks3Mpx(tp, em, st);
    Chain3IsApplied(ExitSet(st, true, o), true, p, Max(Max(Max(o.scr, p[2].scr), p[1].scr), p[0].scr));
  }

  lemma Mpx5Zero(tp: Tmat, em: seq<int>, st: HmmState)
    requires |em| == 5 && IsTmat(tp, 5) && IsState(st, 5)
    ensures Eval5Mpx(tp, em, st).ssid[0] == st.ssid[0]
  {
    hide Exit5Mpx;
    Eval5MpxFields(tp, em, st);
  }

  lemma AnyMpxZero(tp: Tmat, em: seq<int>, st: HmmState)
    requires IsTmat(tp, |em|) && IsState(st, |em|) && |em| > 0
    ensures EvalAny(tp, em, true, st).ssid[0] == st.ssid[0]
  {
    hide EvalAny;
    EvalAnyApplied(tp, em, true, st);
  }

  lemma StepKeepsMpxShape(tp: Tmat, em: seq<int>, st: HmmState, r: HmmState)
    requires IsTmat(tp, |em|) && IsState(st, |em|) && MpxShape(st) && MpxEmission(em, st)
    requires StepOptimalMpx(tp, em, st, r) && r.ssid[0] == st.ssid[0]
    ensures MpxShape(r)
  {
    forall s | 0 <= s < |r.ssid| && r.ssid[s] == BAD_SSID ensures r.score[s] <= WORST_SCORE {
      assert BestIntoMpx(tp, em, st, s, r.score[s], r.hist[s], r.ssid[s]);
    }
  }

  // ---- whole runs of a multiplexed record

  /** What befalls a multiplexed record after hmm_init: clearing leaves its sequence ids alone, an entry
      sets score and history, the search may then store the id of state 0, and a frame is evaluated with
      the senone scores of that frame. */
  datatype MpxEvent = Reset | Entry(score: int, hist: int, frame: int) | SetId(ssid: int) | Frame(senscore: seq<int>)

  /** A senone sequence table whose rows give each state one of m senones. */
  predicate IsSequences(sseq: seq<seq<int>>, n: nat, m: nat) {
    && |sseq| <= BAD_SSID && m <= BAD_SSID
    && forall k :: 0 <= k < |sseq| ==> |sseq[k]| == n && forall s :: 0 <= s < n ==> 0 <= sseq[k][s] < m
  }

  predicate IsMpxEvent(e: MpxEvent, ids: nat, m: nat) {
    match e
    case SetId(id) => 0 <= id < ids
    case Frame(senscore) => |senscore| == m && forall i :: 0 <= i < m ==> 0 <= senscore[i] <= 32767
    case _ => true
  }

  predicate IsMpxRun(run: seq<MpxEvent>, ids: nat, m: nat) {
    forall i :: 0 <= i < |run| ==> IsMpxEvent(run[i], ids, m)
  }

  predicate IdsIn(ids: seq<int>, m: nat) {
    && |ids| > 0 && ids[0] != BAD_SSID
    && forall s :: 0 <= s < |ids| ==> ids[s] == BAD_SSID || 0 <= ids[s] < m
  }

  function MpxBlank(n: nat, id: int): (r: HmmState)
    requires n > 0
    ensures IsState(r, n) && r.ssid[0] == id && forall s :: 1 <= s < n ==> r.ssid[s] == BAD_SSID
    ensures r == Cleared(r)
  {
    HmmState(seq(n, _ => WORST_SCORE), seq(n, _ => -1), seq(n, s => if s == 0 then id else BAD_SSID),
             WORST_SCORE, -1, WORST_SCORE, -1)
  }

  /** Sequence ids come from lower states, that of state 0 never changes in an evaluation. */
  lemma IdsMove(tp: Tmat, em: seq<int>, st: HmmState)
    requires |em| > 0 && IsTmat(tp, |em|) && IsState(st, |em|)
    ensures var r := VitEval(tp, em, true, st);
      r.ssid[0] == st.ssid[0] && forall s :: 0 <= s < |em| ==> r.ssid[s] in st.ssid
  {
    hide Eval3Mpx, Eval5Mpx, EvalAny, Exit3Mpx, Picks3Mpx, Exit5Mpx, Picks5Mpx, AnyPick, AnyOut;
    if |em| == 3 {
      Eval3MpxFields(tp, em, st);
    } else if |em| == 5 {
      Eval5MpxFields(tp, em, st);
    } else {
      EvalAnyApplied(tp, em, true, st);
      AnyMpxZero(tp, em, st);
      var picks := AnyPicks(tp, SenStage(st.score, em));
      assert forall s :: 0 <= s < |em| ==> EvalAny(tp, em, true, st).ssid[s] == Kept(st.ssid, picks[s], s);
    }
  }

  lemma IdsInOk(ids: seq<int>, sseq: seq<seq<int>>, m: nat, senscore: seq<int>)
    requires IdsIn(ids, |sseq|) && IsSequences(sseq, |ids|, m) && IsMpxEvent(Frame(senscore), |sseq|, m)
    ensures IsContext(Context(senscore, sseq)) && IdsOk(Context(senscore, sseq), true, ids)
    ensures var em := Emissions(Context(senscore, sseq), true, ids);
      forall s :: 0 <= s < |ids| ==> em[s] == (if ids[s] == BAD_SSID then WORST_SCORE else -senscore[sseq[ids[s]][s]])
  {
  }

  function FrameEval(tp: Tmat, sseq: seq<seq<int>>, m: nat, senscore: seq<int>, st: HmmState): (r: HmmState)
    requires IsTmat(tp, |tp|) && IsState(st, |tp|) && IdsIn(st.ssid, |sseq|) && IsSequences(sseq, |tp|, m)
    requires IsMpxEvent(Frame(senscore), |sseq|, m)
    ensures IsState(r, |tp|) && IdsIn(r.ssid, |sseq|)
  {
    IdsInOk(st.ssid, sseq, m, senscore);
    var em := Emissions(Context(senscore, sseq), true, st.ssid);
    IdsMove(tp, em, st);
    VitEval(tp, em, true, st)
  }

  function MpxAfter(tp: Tmat, sseq: seq<seq<int>>, m: nat, e: MpxEvent, st: HmmState): (r: HmmState)
    requires IsTmat(tp, |tp|) && IsState(st, |tp|) && IdsIn(st.ssid, |sseq|) && IsSequences(sseq, |tp|, m)
    requires IsMpxEvent(e, |sseq|, m)
    ensures IsState(r, |tp|) && IdsIn(r.ssid, |sseq|)
  {
    match e
    case Reset => Cleared(st)
    case Entry(v, h, f) => Entered(st, v, h, f)
    case SetId(id) => st.(ssid := st.ssid[0 := id])
    case Frame(senscore) => FrameEval(tp, sseq, m, senscore, st)
  }

  /** The record after hmm_init with sequence `id` and a run. */
  function MpxExec(tp: Tmat, sseq: seq<seq<int>>, m: nat, id: int, run: seq<MpxEvent>): (r: HmmState)
    requires IsTmat(tp, |tp|) && |tp| > 0 && IsSequences(sseq, |tp|, m) && 0 <= id < |sseq|
    requires IsMpxRun(run, |sseq|, m)
    ensures IsState(r, |tp|) && IdsIn(r.ssid, |sseq|)
  {
    if run == [] then MpxBlank(|tp|, id)
    else MpxAfter(tp, sseq, m, run[|run| - 1], MpxExec(tp, sseq, m, id, run[..|run| - 1]))
  }

  lemma Eval3MpxFields(tp: Tmat, em: seq<int>, st: HmmState)
    requires |em| == 3 && IsTmat(tp, 3) && IsState(st, 3)
    ensures var o, p, r := Exit3Mpx(tp, em, st), Picks3Mpx(tp, em, st), Eval3Mpx(tp, em, st);
      && (forall i :: 0 <= i < 3 ==> r.score[i] == p[i].scr && r.hist[i] == Kept(st.hist, p[i], i)
                                     && r.ssid[i] == Kept(st.ssid, p[i], i))
      && r.out == o.scr
  {
    hide Picks3Mpx, Exit3Mpx, Max;
    var o, p := Exit3Mpx(tp, em, st), Picks3Mpx(tp, em, st);
    Chain3IsApplied(ExitSet(st, true, o), true, p, Max(Max(Max(o.scr, p[2].scr), p[1].scr), p[0].scr));
  }

  /** Whatever the matrix, an evaluation leaves no score in a state without a sequence. */
  lemma EvalKeepsMpxShape(tp: Tmat, em: seq<int>, st: HmmState)
    requires IsTmat(tp, |tp|) && |em| == |tp| && IsState(st, |tp|) && MpxShape(st) && MpxEmission(em, st)
    ensures MpxShape(VitEval(tp, em, true, st))
  {
    hide Eval3Mpx, Eval5Mpx, EvalAny;
    IdsMove(tp, em, st);
    if |tp| == 3 {
      Eval3MpxFields(tp, em, st);
    } else if |tp| == 5 {
      Eval5MpxFields(tp, em, st);
    } else {
      AnyMpxStep(tp, em, st);
      StepKeepsMpxShape(tp, em, st, EvalAny(tp, em, true, st));
    }
  }

  /** Every evaluation of the run takes one optimal step from the record it finds. */
  ghost predicate EachFrameOptimal(tp: Tmat, sseq: seq<seq<int>>, m: nat, id: int, run: seq<MpxEvent>)
    requires IsTmat(tp, |tp|) && |tp| > 0 && IsSequences(sseq, |tp|, m) && 0 <= id < |sseq|
    requires IsMpxRun(run, |sseq|, m)
  {
    run == [] ||
    var st := MpxExec(tp, sseq, m, id, run[..|run| - 1]);
    && EachFrameOptimal(tp, sseq, m, id, run[..|run| - 1])
    && match run[|run| - 1]
       case Frame(senscore) =>
         IdsInOk(st.ssid, sseq, m, senscore);
         StepOptimalMpx(tp, Emissions(Context(senscore, sseq), true, st.ssid), st,
                        FrameEval(tp, sseq, m, senscore, st))
       case _ => true
  }

  /** At every moment of any run from hmm_init a state without a sequence holds no path, and on the
      matrices it covers the evaluator takes only optimal steps. */
  lemma {:induction false} MpxRunIsOptimal(tp: Tmat, sseq: seq<seq<int>>, m: nat, id: int, run: seq<MpxEvent>)
    requires IsTmat(tp, |tp|) && |tp| > 0 && IsSequences(sseq, |tp|, m) && 0 <= id < |sseq|
    requires IsMpxRun(run, |sseq|, m)
    ensures MpxShape(MpxExec(tp, sseq, m, id, run))
    ensures CoveredMpx(tp) ==> EachFrameOptimal(tp, sseq, m, id, run)
  {
    hide StepOptimalMpx, VitEval, CoveredMpx;
    if run != [] {
      MpxRunIsOptimal(tp, sseq, m, id, run[..|run| - 1]);
      var st := MpxExec(tp, sseq, m, id, run[..|run| - 1]);
      match run[|run| - 1]
      case Frame(senscore) =>
        IdsInOk(st.ssid, sseq, m, senscore);
        var ctx := Context(senscore, sseq);
        EmissionsAreMpx(ctx, st);
        EvalKeepsMpxShape(tp, Emissions(ctx, true, st.ssid), st);
        if CoveredMpx(tp) {
          MpxRefinesGeneric(tp, Emissions(ctx, true, st.ssid), st);
        }
      case _ =>
    }
  }

  // ---- whole paths, while one sequence is all a record sees

  /** No sequence id but the first is ever stored. */
  predicate OneId(run: seq<MpxEvent>, id: int) {
    forall i :: 0 <= i < |run| && run[i].SetId? ==> run[i].ssid == id
  }

  /** The senone scores of sequence id in one frame. */
  function EmissionOf(sseq: seq<seq<int>>, n: nat, m: nat, id: int, senscore: seq<int>): (em: seq<int>)
    requires IsSequences(sseq, n, m) && 0 <= id < |sseq| && IsMpxEvent(Frame(senscore), |sseq|, m)
    ensures |em| == n && IsEmission(em)
  {
    seq(n, s requires 0 <= s < n => -senscore[sseq[id][s]])
  }

  /** The entries and evaluations since the record was last cleared. */
  function PlainRun(sseq: seq<seq<int>>, n: nat, m: nat, id: int, run: seq<MpxEvent>): (r: Run)
    requires IsSequences(sseq, n, m) && 0 <= id < |sseq| && IsMpxRun(run, |sseq|, m)
    ensures IsRun(r, n)
  {
    if run == [] then []
    else
      var before := PlainRun(sseq, n, m, id, run[..|run| - 1]);
      match run[|run| - 1]
      case Reset => []
      case Entry(v, h, f) => before + [Enter(v, h, f)]
      case SetId(_) => before
      case Frame(senscore) => before + [Eval(EmissionOf(sseq, n, m, id, senscore))]
  }

  /** Every state carries sequence id or none. */
  predicate AllIds(st: HmmState, id: int) {
    forall s :: 0 <= s < |st.ssid| ==> st.ssid[s] == id || st.ssid[s] == BAD_SSID
  }

  /** States without a sequence hold no path, so it does not matter what their senone score is. */
  lemma SameCandidates(tp: Tmat, em: seq<int>, plain: seq<int>, st: HmmState, from: nat, to: nat)
    requires IsTmat(tp, |em|) && IsState(st, |em|) && |plain| == |em| && NonPositive(em) && NonPositive(plain)
    requires from < |em| && to <= |em| && MpxShape(st) && (st.ssid[from] != BAD_SSID ==> em[from] == plain[from])
    ensures Cand(tp, em, st, from, to) == Cand(tp, plain, st, from, to)
         || (Cand(tp, em, st, from, to) <= WORST_SCORE && Cand(tp, plain, st, from, to) <= WORST_SCORE)
  {
    assert 0 <= tp[from][to] <= 255;
  }

  lemma SameInto(tp: Tmat, em: seq<int>, plain: seq<int>, st: HmmState, to: nat, scr: int, h: int)
    requires IsTmat(tp, |em|) && IsState(st, |em|) && |plain| == |em| && NonPositive(em) && NonPositive(plain)
    requires to <= |em| && MpxShape(st)
    requires forall s :: 0 <= s < |em| && st.ssid[s] != BAD_SSID ==> em[s] == plain[s]
    requires BestInto(tp, em, st, to, scr, h)
    ensures BestInto(tp, plain, st, to, scr, h)
  {
    hide MpxShape;
    forall from | 0 <= from < |em|
      ensures Cand(tp, em, st, from, to) == Cand(tp, plain, st, from, to)
           || (Cand(tp, em, st, from, to) <= WORST_SCORE && Cand(tp, plain, st, from, to) <= WORST_SCORE)
    {
      SameCandidates(tp, em, plain, st, from, to);
    }
    hide Cand;
  }

  /** With one sequence id a multiplexed step is a plain one. */
  lemma OneIdStep(tp: Tmat, em: seq<int>, plain: seq<int>, st: HmmState, r: HmmState)
    requires IsTmat(tp, |em|) && IsState(st, |em|) && |plain| == |em| && NonPositive(em) && NonPositive(plain)
    requires MpxShape(st) && forall s :: 0 <= s < |em| && st.ssid[s] != BAD_SSID ==> em[s] == plain[s]
    requires StepOptimalMpx(tp, em, st, r)
    ensures StepOptimal(tp, plain, st, r)
  {
    forall to | 0 <= to < |em| ensures BestInto(tp, plain, st, to, r.score[to], r.hist[to]) {
      assert BestIntoMpx(tp, em, st, to, r.score[to], r.hist[to], r.ssid[to]);
      hide MpxShape;
      SameInto(tp, em, plain, st, to, r.score[to], r.hist[to]);
    }
    SameInto(tp, em, plain, st, |em|, r.out, r.outHist);
  }

  /** While no other sequence id is stored, a multiplexed record is Viterbi-optimal over whole paths, with no
      condition on the floor.  What breaks it is another id: see LaterIdLoses. */
  lemma {:induction false} MpxRunIsViterbi(tp: Tmat, sseq: seq<seq<int>>, m: nat, id: int, run: seq<MpxEvent>)
    requires IsTmat(tp, |tp|) && |tp| > 0 && IsSequences(sseq, |tp|, m) && 0 <= id < |sseq|
    requires IsMpxRun(run, |sseq|, m) && CoveredMpx(tp) && OneId(run, id)
    ensures AllIds(MpxExec(tp, sseq, m, id, run), id)
    ensures Optimal(tp, PlainRun(sseq, |tp|, m, id, run), MpxExec(tp, sseq, m, id, run))
  {
    hide Optimal, CoveredMpx, MpxShape, VitEval;
    if run == [] {
      ClearedOptimal(tp, MpxBlank(|tp|, id));
    } else {
      var n := |run| - 1;
      MpxRunIsViterbi(tp, sseq, m, id, run[..n]);
      MpxRunIsOptimal(tp, sseq, m, id, run[..n]);
      var st := MpxExec(tp, sseq, m, id, run[..n]);
      var plain := PlainRun(sseq, |tp|, m, id, run[..n]);
      match run[n]
      case Reset => ClearedOptimal(tp, st);
      case Entry(v, h, f) => EnterKeepsOptimal(tp, plain, v, h, f, st);
      case SetId(_) => SameButIds(tp, plain, st, st.(ssid := st.ssid[0 := id]));
      case Frame(senscore) => FrameIsViterbi(tp, sseq, m, id, senscore, plain, st);
    }
  }

  lemma ClearedOptimal(tp: Tmat, st: HmmState)
    requires IsTmat(tp, |tp|) && IsState(st, |tp|)
    ensures Optimal(tp, [], Cleared(st))
  {
  }

  lemma SameButIds(tp: Tmat, run: Run, a: HmmState, b: HmmState)
    requires IsTmat(tp, |tp|) && IsRun(run, |tp|) && Optimal(tp, run, a)
    requires IsState(b, |tp|) && b == a.(ssid := b.ssid)
    ensures Optimal(tp, run, b)
  {
  }

  lemma FrameIsViterbi(tp: Tmat, sseq: seq<seq<int>>, m: nat, id: int, senscore: seq<int>, plain: Run, st: HmmState)
    requires IsTmat(tp, |tp|) && |tp| > 0 && IsSequences(sseq, |tp|, m) && 0 <= id < |sseq| && CoveredMpx(tp)
    requires IsMpxEvent(Frame(senscore), |sseq|, m) && IsState(st, |tp|) && IdsIn(st.ssid, |sseq|)
    requires MpxShape(st) && AllIds(st, id) && IsRun(plain, |tp|) && Optimal(tp, plain, st)
    ensures var r := FrameEval(tp, sseq, m, senscore, st);
      AllIds(r, id) && Optimal(tp, plain + [Eval(EmissionOf(sseq, |tp|, m, id, senscore))], r)
  {
    IdsInOk(st.ssid, sseq, m, senscore);
    var ctx := Context(senscore, sseq);
    var em, one := Emissions(ctx, true, st.ssid), EmissionOf(sseq, |tp|, m, id, senscore);
    EmissionsAreMpx(ctx, st);
    IdsMove(tp, em, st);
    hide Optimal, VitEval, EvalAny, CoveredMpx;
    MpxRefinesGeneric(tp, em, st);
    hide StepOptimalMpx, MpxShape, IdsIn;
    var r := FrameEval(tp, sseq, m, senscore, st);
    forall s | 0 <= s < |tp| && st.ssid[s] != BAD_SSID ensures em[s] == one[s] {
      assert st.ssid[s] == id;
    }
    OneIdStep(tp, em, one, st, r);
    EvalKeepsOptimal(tp, plain, one, st, r);
  }

  /** A covered matrix on which only the loop of state 0 costs. */
  const SHORT_STAY: Tmat := [[254, 0, 255, 255], [255, 0, 0, 255], [255, 255, 0, 0]]

  /** Two sequences, each with a senone of its own for all states. */
  const TWO_SEQUENCES: seq<seq<int>> := [[0, 0, 0], [1, 1, 1]]

  /** States 0 and 1 of a record: scores and sequence ids. */
  predicate Holds(st: HmmState, a: int, i: int, b: int, j: int) {
    IsState(st, 3) && st.score[0] == a && st.ssid[0] == i && st.score[1] == b && st.ssid[1] == j
  }

  function IdScore(senscore: seq<int>, i: int): int
    requires |senscore| == 2
  {
    if i == 0 then -senscore[0] else if i == 1 then -senscore[1] else WORST_SCORE
  }

  /** What a frame does to states 0 and 1: a path stays in state 1, or comes from state 0 with its sequence. */
  lemma ShortStay(senscore: seq<int>, st: HmmState, a: int, i: int, b: int, j: int)
    requires IdsIn(st.ssid, 2) && IsMpxEvent(Frame(senscore), 2, 2) && Holds(st, a, i, b, j)
    requires -1000 <= a <= 0 && i != BAD_SSID && (if j == BAD_SSID then b == WORST_SCORE else -1000 <= b <= 0)
    requires senscore[0] <= 1000 && senscore[1] <= 1000
    ensures IsTmat(SHORT_STAY, 3) && IsSequences(TWO_SEQUENCES, 3, 2) && CoveredMpx(SHORT_STAY)
    ensures var r := FrameEval(SHORT_STAY, TWO_SEQUENCES, 2, senscore, st);
      var x, y := a + IdScore(senscore, i), b + IdScore(senscore, j);
      if j != BAD_SSID && y > x then Holds(r, x - 254, i, y, j)
      else if j == BAD_SSID || x > y then Holds(r, x - 254, i, x, i) else true
  {
    IdsInOk(st.ssid, TWO_SEQUENCES, 2, senscore);
    var em := Emissions(Context(senscore, TWO_SEQUENCES), true, st.ssid);
    Eval3MpxFields(SHORT_STAY, em, st);
  }

  lemma ExecSnoc(run: seq<MpxEvent>, e: MpxEvent)
    requires IsTmat(SHORT_STAY, 3) && IsSequences(TWO_SEQUENCES, 3, 2) && IsMpxRun(run, 2, 2) && IsMpxEvent(e, 2, 2)
    ensures IsMpxRun(run + [e], 2, 2)
    ensures MpxExec(SHORT_STAY, TWO_SEQUENCES, 2, 0, run + [e])
         == MpxAfter(SHORT_STAY, TWO_SEQUENCES, 2, e, MpxExec(SHORT_STAY, TWO_SEQUENCES, 2, 0, run))
  {
    assert (run + [e])[..|run|] == run;
  }

  /** A new id and entry for state 0, and two frames. */
  lemma AfterEntry(run: seq<MpxEvent>, a: int, i: int, b: int, j: int)
    requires IsTmat(SHORT_STAY, 3) && IsSequences(TWO_SEQUENCES, 3, 2) && IsMpxRun(run, 2, 2)
    requires Holds(MpxExec(SHORT_STAY, TWO_SEQUENCES, 2, 0, run), a, i, b, j)
    requires (b, j) == (0, 0) || (b, j) == (WORST_SCORE, BAD_SSID)
    ensures IsMpxRun(run + LATER, 2, 2)
    ensures MpxExec(SHORT_STAY, TWO_SEQUENCES, 2, 0, run + LATER).score[1] == if j == BAD_SSID then -5 else -259
  {
    hide FrameEval, MpxExec, IsMpxRun;
    ExecSnoc(run, LATER[0]);
    var r1 := run + [LATER[0]];
    ExecSnoc(r1, LATER[1]);
    var r2 := r1 + [LATER[1]];
    ShortStay([0, 0], MpxExec(SHORT_STAY, TWO_SEQUENCES, 2, 0, r2), -5, 1, b, j);
    ExecSnoc(r2, LATER[2]);
    var r3 := r2 + [LATER[2]];
    ShortStay([1000, 0], MpxExec(SHORT_STAY, TWO_SEQUENCES, 2, 0, r3), -259, 1, if j == BAD_SSID then -5 else 0,
              if j == BAD_SSID then 1 else 0);
    ExecSnoc(r3, LATER[3]);
    assert run + LATER == r3 + [LATER[3]];
  }

  const LATER: seq<MpxEvent> := [SetId(1), Entry(-5, 20, 0), Frame([0, 0]), Frame([1000, 0])]

  /** Another id breaks it: the path entered with sequence 1 loses in state 1 to one that was there before with
      sequence 0, and the frame that tells them apart comes too late.  Without the earlier entry state 1 ends
      with a better score. */
  lemma LaterIdLoses()
    ensures IsTmat(SHORT_STAY, 3) && IsSequences(TWO_SEQUENCES, 3, 2) && CoveredMpx(SHORT_STAY)
    ensures var before := [Entry(0, 10, 0), Frame([0, 0])];
      && IsMpxRun(before + LATER, 2, 2) && IsMpxRun(LATER, 2, 2)
      && MpxExec(SHORT_STAY, TWO_SEQUENCES, 2, 0, before + LATER).score[1]
         < MpxExec(SHORT_STAY, TWO_SEQUENCES, 2, 0, LATER).score[1]
  {
    hide FrameEval;
    ShortStay([0, 0], Entered(MpxBlank(3, 0), 0, 10, 0), 0, 0, WORST_SCORE, BAD_SSID);
    AfterEntry([], WORST_SCORE, 0, WORST_SCORE, BAD_SSID);
    assert [] + LATER == LATER;
    ExecSnoc([], Entry(0, 10, 0));
    assert [] + [Entry(0, 10, 0)] == [Entry(0, 10, 0)];
    ExecSnoc([Entry(0, 10, 0)], Frame([0, 0]));
    assert [Entry(0, 10, 0)] + [Frame([0, 0])] == [Entry(0, 10, 0), Frame([0, 0])];
    AfterEntry([Entry(0, 10, 0), Frame([0, 0])], -254, 0, 0, 0);
  }
}
