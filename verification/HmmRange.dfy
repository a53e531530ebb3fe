/** The int32 range of the evaluators of src/hmm.c: the unrolled ones clamp every score they store, the
    generic one does not clamp state 0 and stays within int32 exactly when that state has no loop. */
module HmmRange {
  import opened Hmm
  import opened HmmOptimal
  import opened HmmUnrolled
  import opened HmmMpx
  import opened HmmMpxExact

  predicate Int32(x: int) {
    INT_MIN <= x <= 0x7FFF_FFFF
  }

  predicate InRange(st: HmmState) {
    (forall i :: 0 <= i < |st.score| ==> WORST_SCORE <= st.score[i] <= 0) && WORST_SCORE <= st.out <= 0
  }

  /** State scores one transition below the floor at worst. */
  predicate NearRange(st: HmmState) {
    && (forall i :: 0 <= i < |st.score| ==> WORST_SCORE - 255 <= st.score[i] <= 0)
    && WORST_SCORE <= st.out <= 0
  }

  /** Senone scores, or the worst score of a state without a sequence. */
  predicate AnyEmission(em: seq<int>) {
    forall i :: 0 <= i < |em| ==> WORST_SCORE <= em[i] <= 0
  }

  /** Every sum an evaluation forms. */
  predicate SumsFit(tp: Tmat, em: seq<int>, st: HmmState)
    requires IsTmat(tp, |em|) && IsState(st, |em|)
  {
    && (forall i :: 0 <= i < |em| ==> Int32(st.score[i] + em[i]))
    && forall i, j :: 0 <= i < |em| && 0 <= j <= |em| ==> Int32(Cand(tp, em, st, i, j))
  }

  // ---- one step

  lemma Range3(tp: Tmat, em: seq<int>, st: HmmState)
    requires |em| == 3 && IsTmat(tp, 3) && IsState(st, 3) && AnyEmission(em) && InRange(st)
    ensures InRange(Eval3(tp, em, st))
  {
    hide Eval3;
    Eval3Fields(tp, em, st);
  }

  lemma Range5(tp: Tmat, em: seq<int>, st: HmmState)
    requires |em| == 5 && IsTmat(tp, 5) && IsState(st, 5) && AnyEmission(em) && InRange(st)
    ensures InRange(Eval5(tp, em, st))
  {
    hide Eval5, Best5;
    Eval5Fields(tp, em, st);
  }

  lemma Range3Mpx(tp: Tmat, em: seq<int>, st: HmmState)
    requires |em| == 3 && IsTmat(tp, 3) && IsState(st, 3) && AnyEmission(em) && InRange(st)
    ensures InRange(Eval3Mpx(tp, em, st))
  {
    hide Eval3Mpx;
    Eval3MpxFields(tp, em, st);
  }

  lemma Range5Mpx(tp: Tmat, em: seq<int>, st: HmmState)
    requires |em| == 5 && IsTmat(tp, 5) && IsState(st, 5) && AnyEmission(em) && InRange(st)
    ensures InRange(Eval5Mpx(tp, em, st))
  {
    hide Eval5Mpx, Picks5Mpx;
    Eval5MpxFields(tp, em, st);
    forall i | 0 <= i < 5 ensures WORST_SCORE <= Picks5Mpx(tp, em, st)[i].scr <= 0 {
      Range5MpxPick(tp, em, st, i);
    }
  }

  lemma Range5MpxPick(tp: Tmat, em: seq<int>, st: HmmState, i: nat)
    requires |em| == 5 && IsTmat(tp, 5) && IsState(st, 5) && AnyEmission(em) && InRange(st) && i < 5
    ensures WORST_SCORE <= Picks5Mpx(tp, em, st)[i].scr <= 0
  {
  }

  /** The unrolled evaluators, plain or multiplexed, form no sum outside int32 and stay in range. */
  lemma ClampedStaysInt32(tp: Tmat, em: seq<int>, mpx: bool, st: HmmState)
    requires (|em| == 3 || |em| == 5) && IsTmat(tp, |em|) && IsState(st, |em|) && AnyEmission(em) && InRange(st)
    ensures InRange(VitEval(tp, em, mpx, st)) && SumsFit(tp, em, st)
  {
    hide Eval3, Eval5, Eval3Mpx, Eval5Mpx;
    SumsNear(tp, em, st);
    if |em| == 3 {
      if mpx { Range3Mpx(tp, em, st); } else { Range3(tp, em, st); }
    } else {
      if mpx { Range5Mpx(tp, em, st); } else { Range5(tp, em, st); }
    }
  }

  lemma SumsNear(tp: Tmat, em: seq<int>, st: HmmState)
    requires IsTmat(tp, |em|) && IsState(st, |em|) && AnyEmission(em)
    requires forall i :: 0 <= i < |em| ==> WORST_SCORE - 255 <= st.score[i] <= 0
    ensures SumsFit(tp, em, st)
  {
    forall i, j | 0 <= i < |em| && 0 <= j <= |em| ensures Int32(Cand(tp, em, st, i, j)) {
      assert 0 <= tp[i][j] <= 255 && Cand(tp, em, st, i, j) == st.score[i] + em[i] - tp[i][j];
    }
  }

  /** The generic evaluator on a matrix without a loop on state 0. */
  lemma LooplessStaysNear(tp: Tmat, em: seq<int>, mpx: bool, st: HmmState)
    requires IsTmat(tp, |em|) && |em| > 0 && IsState(st, |em|) && AnyEmission(em) && NearRange(st)
    requires !Present(tp, 0, 0)
    ensures NearRange(EvalAny(tp, em, mpx, st)) && SumsFit(tp, em, st)
  {
    hide EvalAny, Scan;
    SumsNear(tp, em, st);
    EvalAnyApplied(tp, em, mpx, st);
    var ss := SenStage(st.score, em);
    forall to | 0 <= to < |em| ensures WORST_SCORE - 255 <= AnyPick(tp, ss, to).scr <= 0 {
      ScanBest(tp, ss, to, to, SelfPick(tp, ss, to));
    }
    ScanBest(tp, ss, |em|, |em|, Pick(WORST_SCORE, -1));
    var picks := AnyPicks(tp, ss);
    assert forall to :: 0 <= to < |em| ==> picks[to] == AnyPick(tp, ss, to);
  }

  // ---- plain runs

  predicate EntersInRange(run: Run) {
    forall i :: 0 <= i < |run| && run[i].Enter? ==> WORST_SCORE <= run[i].score <= 0
  }

  lemma {:induction false} ClampedRunStaysInt32(kind: Kind, tp: Tmat, run: Run)
    requires IsTmat(tp, |tp|) && Fits(kind, |tp|) && kind != Generic && IsRun(run, |tp|) && EntersInRange(run)
    ensures InRange(Exec(kind, tp, run))
    decreases |run|
  {
    hide Eval3, Eval5;
    if run != [] {
      ClampedRunStaysInt32(kind, tp, Init(run));
      match Last(run)
      case Enter(v, h, f) =>
      case Eval(em) => ClampedStaysInt32(tp, em, false, Exec(kind, tp, Init(run)));
    }
  }

  lemma {:induction false} LooplessRunStaysNear(tp: Tmat, run: Run)
    requires IsTmat(tp, |tp|) && |tp| > 0 && IsRun(run, |tp|) && EntersInRange(run) && !Present(tp, 0, 0)
    ensures NearRange(Exec(Generic, tp, run))
    decreases |run|
  {
    hide EvalAny;
    if run != [] {
      LooplessRunStaysNear(tp, Init(run));
      match Last(run)
      case Enter(v, h, f) =>
      case Eval(em) => LooplessStaysNear(tp, em, false, Exec(Generic, tp, Init(run)));
    }
  }

  function Loud(n: nat): (em: seq<int>)
    ensures |em| == n && IsEmission(em) && forall k :: 0 <= k < n ==> em[k] == -32767
  {
    seq(n, _ => -32767)
  }

  lemma StateZeroStep(tp: Tmat, em: seq<int>, mpx: bool, st: HmmState)
    requires IsTmat(tp, |em|) && |em| > 0 && IsState(st, |em|) && Present(tp, 0, 0)
    ensures EvalAny(tp, em, mpx, st).score[0] == st.score[0] + em[0] - tp[0][0]
  {
    hide EvalAny;
    EvalAnyApplied(tp, em, mpx, st);
  }

  lemma Repeated(k: nat, c: int)
    requires k > 0
    ensures (k - 1) * c + c == k * c
  {
  }

  /** State 0 of the generic evaluator is never clamped: left without a path it sinks by the senone
      score and the self transition at every frame. */
  lemma {:induction false} GenericStateZeroSinks(tp: Tmat, k: nat) returns (run: Run)
    requires IsTmat(tp, |tp|) && |tp| > 0 && Present(tp, 0, 0)
    ensures IsRun(run, |tp|) && |run| == k && EntersInRange(run)
    ensures Exec(Generic, tp, run).score[0] == WORST_SCORE - k * (32767 + tp[0][0])
  {
    if k == 0 {
      run := [];
    } else {
      hide EvalAny;
      var shorter := GenericStateZeroSinks(tp, k - 1);
      run := shorter + [Eval(Loud(|tp|))];
      assert Init(run) == shorter;
      StateZeroStep(tp, Loud(|tp|), false, Exec(Generic, tp, shorter));
      Repeated(k, 32767 + tp[0][0]);
    }
  }

  ghost predicate ScoresFit(st: HmmState) {
    (forall s :: 0 <= s < |st.score| ==> Int32(st.score[s])) && Int32(st.out)
  }

  /** On every run of scores in range, the generic evaluator keeps to int32. */
  ghost predicate GenericAlwaysFits(tp: Tmat)
    requires IsTmat(tp, |tp|) && |tp| > 0
  {
    forall run :: IsRun(run, |tp|) && EntersInRange(run) ==> ScoresFit(Exec(Generic, tp, run))
  }

  /** It does so if and only if state 0 has no transition to itself. */
  lemma GenericFitsExactly(tp: Tmat)
    requires IsTmat(tp, |tp|) && |tp| > 0
    ensures GenericAlwaysFits(tp) <==> !Present(tp, 0, 0)
  {
    if Present(tp, 0, 0) {
      var run := GenericStateZeroSinks(tp, 49154);
      assert 49154 * (32767 + tp[0][0]) >= 49154 * 32767;
      assert !ScoresFit(Exec(Generic, tp, run));
    } else {
      forall run | IsRun(run, |tp|) && EntersInRange(run) ensures ScoresFit(Exec(Generic, tp, run)) {
        LooplessRunStaysNear(tp, run);
      }
    }
  }

  // ---- multiplexed runs

  predicate EntriesInRange(run: seq<MpxEvent>) {
    forall i :: 0 <= i < |run| && run[i].Entry? ==> WORST_SCORE <= run[i].score <= 0
  }

  lemma {:induction false} MpxRunStaysNear(tp: Tmat, sseq: seq<seq<int>>, m: nat, id: int, run: seq<MpxEvent>)
    requires IsTmat(tp, |tp|) && |tp| > 0 && IsSequences(sseq, |tp|, m) && 0 <= id < |sseq|
    requires IsMpxRun(run, |sseq|, m) && EntriesInRange(run)
    ensures |tp| == 3 || |tp| == 5 ==> InRange(MpxExec(tp, sseq, m, id, run))
    ensures !Present(tp, 0, 0) ==> NearRange(MpxExec(tp, sseq, m, id, run))
  {
    hide VitEval;
    if run != [] {
      MpxRunStaysNear(tp, sseq, m, id, run[..|run| - 1]);
      var st := MpxExec(tp, sseq, m, id, run[..|run| - 1]);
      match run[|run| - 1]
      case Frame(senscore) => MpxFrameStaysNear(tp, sseq, m, senscore, st);
      case _ =>
    }
  }

  lemma MpxFrameStaysNear(tp: Tmat, sseq: seq<seq<int>>, m: nat, senscore: seq<int>, st: HmmState)
    requires IsTmat(tp, |tp|) && IsState(st, |tp|) && IdsIn(st.ssid, |sseq|) && IsSequences(sseq, |tp|, m)
    requires IsMpxEvent(Frame(senscore), |sseq|, m)
    ensures (|tp| == 3 || |tp| == 5) && InRange(st) ==> InRange(FrameEval(tp, sseq, m, senscore, st))
    ensures |tp| != 3 && |tp| != 5 && !Present(tp, 0, 0) && NearRange(st) ==>
      NearRange(FrameEval(tp, sseq, m, senscore, st))
  {
    hide Eval3Mpx, Eval5Mpx, EvalAny;
    IdsInOk(st.ssid, sseq, m, senscore);
    var em := Emissions(Context(senscore, sseq), true, st.ssid);
    if |tp| == 3 || |tp| == 5 {
      if InRange(st) {
        ClampedStaysInt32(tp, em, true, st);
      }
    } else if !Present(tp, 0, 0) && NearRange(st) {
      LooplessStaysNear(tp, em, true, st);
    }
  }

  function AllLoud(m: nat): (senscore: seq<int>)
    ensures |senscore| == m && forall k :: 0 <= k < m ==> senscore[k] == 32767
  {
    seq(m, _ => 32767)
  }

  lemma {:induction false} MpxStateZeroSinks(tp: Tmat, k: nat) returns (run: seq<MpxEvent>)
    requires IsTmat(tp, |tp|) && 0 < |tp| <= BAD_SSID && |tp| != 3 && |tp| != 5 && Present(tp, 0, 0)
    ensures IsMpxRun(run, 1, |tp|) && |run| == k && EntriesInRange(run)
    ensures MpxExec(tp, Ladder(|tp|), |tp|, 0, run).score[0] == WORST_SCORE - k * (32767 + tp[0][0])
  {
    if k == 0 {
      run := [];
    } else {
      hide EvalAny, VitEval;
      var shorter := MpxStateZeroSinks(tp, k - 1);
      run := shorter + [Frame(AllLoud(|tp|))];
      assert run[..|run| - 1] == shorter;
      MpxZeroStep(tp, MpxExec(tp, Ladder(|tp|), |tp|, 0, shorter));
      Repeated(k, 32767 + tp[0][0]);
    }
  }

  lemma MpxZeroStep(tp: Tmat, st: HmmState)
    requires IsTmat(tp, |tp|) && 0 < |tp| <= BAD_SSID && |tp| != 3 && |tp| != 5 && Present(tp, 0, 0)
    requires IsState(st, |tp|) && IdsIn(st.ssid, 1)
    ensures FrameEval(tp, Ladder(|tp|), |tp|, AllLoud(|tp|), st).score[0] == st.score[0] - 32767 - tp[0][0]
  {
    hide EvalAny;
    IdsInOk(st.ssid, Ladder(|tp|), |tp|, AllLoud(|tp|));
    StateZeroStep(tp, Emissions(Context(AllLoud(|tp|), Ladder(|tp|)), true, st.ssid), true, st);
  }

  ghost predicate MpxFits(tp: Tmat, sseq: seq<seq<int>>, m: nat, id: int, run: seq<MpxEvent>)
    requires IsTmat(tp, |tp|) && |tp| > 0 && IsSequences(sseq, |tp|, m) && 0 <= id < |sseq|
    requires IsMpxRun(run, |sseq|, m)
  {
    ScoresFit(MpxExec(tp, sseq, m, id, run))
  }

  ghost predicate MpxAlwaysFits(tp: Tmat)
    requires IsTmat(tp, |tp|) && |tp| > 0
  {
    forall sseq, m: nat, id, run | IsSequences(sseq, |tp|, m) && 0 <= id < |sseq| && IsMpxRun(run, |sseq|, m) ::
      EntriesInRange(run) ==> MpxFits(tp, sseq, m, id, run)
  }

  /** A multiplexed record keeps to int32 on every run of scores in range if and only if it has an
      unrolled evaluator or no transition from state 0 to itself. */
  lemma MpxFitsExactly(tp: Tmat)
    requires IsTmat(tp, |tp|) && 0 < |tp| <= BAD_SSID
    ensures MpxAlwaysFits(tp) <==> |tp| == 3 || |tp| == 5 || !Present(tp, 0, 0)
  {
    if |tp| == 3 || |tp| == 5 || !Present(tp, 0, 0) {
      forall sseq, m: nat, id, run |
          IsSequences(sseq, |tp|, m) && 0 <= id < |sseq| && IsMpxRun(run, |sseq|, m) && EntriesInRange(run)
        ensures MpxFits(tp, sseq, m, id, run)
      {
        MpxRunStaysNear(tp, sseq, m, id, run);
      }
    } else {
      var run := MpxStateZeroSinks(tp, 49154);
      assert 49154 * (32767 + tp[0][0]) >= 49154 * 32767;
      assert !MpxFits(tp, Ladder(|tp|), |tp|, 0, run);
    }
  }
}
