/** The multiplexed evaluators agree with the generic one, from every record a run can reach, exactly on
    the matrices that CoveredMpx describes. */
module HmmMpxExact {
  import opened Hmm
  import opened HmmOptimal
  import opened HmmUnrolled
  import opened HmmExact
  import opened HmmMpx

  /** The record a run reaches and the scores of the frame evaluated next. */
  datatype Moment = Moment(sseq: seq<seq<int>>, m: nat, id: int, run: seq<MpxEvent>, senscore: seq<int>)

  predicate IsMoment(w: Moment, n: nat) {
    && IsSequences(w.sseq, n, w.m) && 0 <= w.id < |w.sseq|
    && IsMpxRun(w.run, |w.sseq|, w.m) && IsMpxEvent(Frame(w.senscore), |w.sseq|, w.m)
  }

  function Reached(tp: Tmat, w: Moment): (r: HmmState)
    requires IsTmat(tp, |tp|) && |tp| > 0 && IsMoment(w, |tp|)
    ensures IsState(r, |tp|) && IdsIn(r.ssid, |w.sseq|)
  {
    MpxExec(tp, w.sseq, w.m, w.id, w.run)
  }

  function FrameScores(tp: Tmat, w: Moment): (em: seq<int>)
    requires IsTmat(tp, |tp|) && |tp| > 0 && IsMoment(w, |tp|)
    ensures |em| == |tp|
  {
    IdsInOk(Reached(tp, w).ssid, w.sseq, w.m, w.senscore);
    Emissions(Context(w.senscore, w.sseq), true, Reached(tp, w).ssid)
  }

  predicate SameLive(a: HmmState, b: HmmState) {
    && |a.score| == |b.score|
    && forall j :: 0 <= j <= |a.score| ==> Max(At(a, j), WORST_SCORE) == Max(At(b, j), WORST_SCORE)
  }

  ghost predicate AgreesAt(tp: Tmat, w: Moment)
    requires IsTmat(tp, |tp|) && |tp| > 0 && IsMoment(w, |tp|)
  {
    var st, em := Reached(tp, w), FrameScores(tp, w);
    SameLive(VitEval(tp, em, true, st), EvalAny(tp, em, true, st))
  }

  /** From every record reached the dispatched evaluator finds the live scores of the generic one. */
  ghost predicate AlwaysAgrees(tp: Tmat)
    requires IsTmat(tp, |tp|) && |tp| > 0
  {
    forall w: Moment :: IsMoment(w, |tp|) ==> AgreesAt(tp, w)
  }

  // ---- a probe: all states made alive, then one state singled out

  function Ladder(n: nat): (sseq: seq<seq<int>>)
    requires n <= BAD_SSID
    ensures |sseq| == 1 && IsSequences(sseq, n, n) && forall s :: 0 <= s < n ==> sseq[0][s] == s
  {
    [seq(n, s => s)]
  }

  function Quiet(n: nat): (r: seq<int>)
    ensures |r| == n && forall k :: 0 <= k < n ==> r[k] == 0
  {
    seq(n, _ => 0)
  }

  function Singled(n: nat, i: nat): (r: seq<int>)
    ensures |r| == n && forall k :: 0 <= k < n ==> r[k] == if k == i then 0 else 32767
  {
    seq(n, k => if k == i then 0 else 32767)
  }

  function Warmed(n: nat): (run: seq<MpxEvent>)
    ensures |run| == 3 && IsMpxRun(run, 1, n)
  {
    [Entry(0, 0, 0), Frame(Quiet(n)), Frame(Quiet(n))]
  }

  function Probing(n: nat, i: nat): (w: Moment)
    requires n <= BAD_SSID
    ensures IsMoment(w, n)
  {
    Moment(Ladder(n), n, 0, Warmed(n), Singled(n, i))
  }

  lemma WarmedIs(tp: Tmat, i: nat)
    requires IsTmat(tp, |tp|) && 0 < |tp| <= BAD_SSID
    ensures var q, l := Quiet(|tp|), Ladder(|tp|);
      var a := Entered(MpxBlank(|tp|, 0), 0, 0, 0);
      var b := FrameEval(tp, l, |tp|, q, a);
      Reached(tp, Probing(|tp|, i)) == FrameEval(tp, l, |tp|, q, b)
  {
    hide FrameEval;
    var n, l := |tp|, Ladder(|tp|);
    var run := Warmed(n);
    assert run[..2][..1][..0] == [] && run[..2] == [Entry(0, 0, 0), Frame(Quiet(n))]
      && run[..2][..1] == [Entry(0, 0, 0)];
    assert MpxExec(tp, l, n, 0, []) == MpxBlank(n, 0);
    assert MpxExec(tp, l, n, 0, [Entry(0, 0, 0)]) == Entered(MpxBlank(n, 0), 0, 0, 0);
    assert MpxExec(tp, l, n, 0, run[..2]) == FrameEval(tp, l, n, Quiet(n), Entered(MpxBlank(n, 0), 0, 0, 0));
  }

  predicate AllAlive(st: HmmState, n: nat) {
    && IsState(st, n)
    && forall s :: 0 <= s < n ==> st.ssid[s] == 0 && -510 <= st.score[s] <= 0
  }

  lemma FrameEvalIs(tp: Tmat, sseq: seq<seq<int>>, m: nat, senscore: seq<int>, st: HmmState, em: seq<int>)
    requires IsTmat(tp, |tp|) && IsState(st, |tp|) && IdsIn(st.ssid, |sseq|) && IsSequences(sseq, |tp|, m)
    requires IsMpxEvent(Frame(senscore), |sseq|, m) && |em| == |tp|
    requires forall s :: 0 <= s < |tp| ==>
      em[s] == (if st.ssid[s] == BAD_SSID then WORST_SCORE else -senscore[sseq[st.ssid[s]][s]])
    ensures FrameEval(tp, sseq, m, senscore, st) == VitEval(tp, em, true, st)
  {
    IdsInOk(st.ssid, sseq, m, senscore);
    assert em == Emissions(Context(senscore, sseq), true, st.ssid);
  }

  /** Emissions while everything is quiet: nothing, or the worst score for a state without a sequence. */
  function QuietScores(st: HmmState): (em: seq<int>)
    ensures |em| == |st.ssid|
  {
    seq(|st.ssid|, s requires 0 <= s < |st.ssid| => if st.ssid[s] == BAD_SSID then WORST_SCORE else 0)
  }

  /** What one quiet frame leaves, lo bounding the scores from below. */
  predicate AliveTo(st: HmmState, n: nat, k: nat, lo: int)
    requires k <= n
  {
    && IsState(st, n)
    && (forall s :: 0 <= s < k ==> st.ssid[s] == 0 && lo <= st.score[s] <= 0)
    && forall s :: k <= s < n ==>
      (st.ssid[s] == BAD_SSID && st.score[s] == WORST_SCORE) || (st.ssid[s] == 0 && lo <= st.score[s] <= 0)
  }

  lemma Quiet3(tp: Tmat, st: HmmState, k: nat, lo: int)
    requires IsTmat(tp, |tp|) && |tp| == 3 && 1 <= k < 3 && -255 <= lo <= 0 && AliveTo(st, 3, k, lo)
    ensures AliveTo(FrameEval(tp, Ladder(3), 3, Quiet(3), st), 3, k + 1, lo - 255)
  {
    hide FrameEval, Eval3Mpx, Exit3Mpx, Picks3Mpx;
    var em := QuietScores(st);
    FrameEvalIs(tp, Ladder(3), 3, Quiet(3), st, em);
    Eval3MpxFields(tp, em, st);
    forall s | 0 <= s < 3
      ensures var p := Picks3Mpx(tp, em, st)[s];
        || (Kept(st.ssid, p, s) == 0 && lo - 255 <= p.scr <= 0)
        || (k + 1 <= s && Kept(st.ssid, p, s) == BAD_SSID && p.scr == WORST_SCORE)
    {
      Quiet3Pick(tp, st, k, lo, s);
    }
  }

  lemma Quiet3Pick(tp: Tmat, st: HmmState, k: nat, lo: int, s: nat)
    requires IsTmat(tp, 3) && 1 <= k < 3 && -255 <= lo <= 0 && AliveTo(st, 3, k, lo) && s < 3
    ensures var p := Picks3Mpx(tp, QuietScores(st), st)[s];
      || (Kept(st.ssid, p, s) == 0 && lo - 255 <= p.scr <= 0)
      || (k + 1 <= s && Kept(st.ssid, p, s) == BAD_SSID && p.scr == WORST_SCORE)
  {
    assert s == 0 || s == 1 || s == 2;
  }

  lemma Warmed3(tp: Tmat, i: nat)
    requires IsTmat(tp, |tp|) && |tp| == 3
    ensures AllAlive(Reached(tp, Probing(3, i)), 3)
  {
    hide FrameEval, Probing;
    WarmedIs(tp, i);
    var a := Entered(MpxBlank(3, 0), 0, 0, 0);
    Quiet3(tp, a, 1, 0);
    Quiet3(tp, FrameEval(tp, Ladder(3), 3, Quiet(3), a), 2, -255);
  }

  lemma Quiet5(tp: Tmat, st: HmmState, k: nat, lo: int)
    requires IsTmat(tp, |tp|) && |tp| == 5 && (k == 1 || k == 3) && -255 <= lo <= 0 && AliveTo(st, 5, k, lo)
    ensures AliveTo(FrameEval(tp, Ladder(5), 5, Quiet(5), st), 5, k + 2, lo - 255)
  {
    hide FrameEval, Eval5Mpx, Exit5Mpx, Picks5Mpx;
    var em := QuietScores(st);
    FrameEvalIs(tp, Ladder(5), 5, Quiet(5), st, em);
    Eval5MpxFields(tp, em, st);
    forall s | 0 <= s < 5
      ensures var p := Picks5Mpx(tp, em, st)[s];
        || (Kept(st.ssid, p, s) == 0 && lo - 255 <= p.scr <= 0)
        || (k + 2 <= s && Kept(st.ssid, p, s) == BAD_SSID && p.scr == WORST_SCORE)
    {
      Quiet5Pick(tp, st, k, lo, s);
    }
  }

  lemma Quiet5Pick(tp: Tmat, st: HmmState, k: nat, lo: int, s: nat)
    requires IsTmat(tp, 5) && (k == 1 || k == 3) && -255 <= lo <= 0 && AliveTo(st, 5, k, lo) && s < 5
    ensures var p := Picks5Mpx(tp, QuietScores(st), st)[s];
      || (Kept(st.ssid, p, s) == 0 && lo - 255 <= p.scr <= 0)
      || (k + 2 <= s && Kept(st.ssid, p, s) == BAD_SSID && p.scr == WORST_SCORE)
  {
    assert s == 0 || s == 1 || s == 2 || s == 3 || s == 4;
  }

  lemma Warmed5(tp: Tmat, i: nat)
    requires IsTmat(tp, |tp|) && |tp| == 5
    ensures AllAlive(Reached(tp, Probing(5, i)), 5)
  {
    hide FrameEval, Probing;
    WarmedIs(tp, i);
    var a := Entered(MpxBlank(5, 0), 0, 0, 0);
    Quiet5(tp, a, 1, 0);
    Quiet5(tp, FrameEval(tp, Ladder(5), 5, Quiet(5), a), 3, -255);
  }

  /** At the probe only state i emits for free. */
  lemma ProbeScores(tp: Tmat, i: nat)
    requires IsTmat(tp, |tp|) && 0 < |tp| <= BAD_SSID && AllAlive(Reached(tp, Probing(|tp|, i)), |tp|)
    ensures FrameScores(tp, Probing(|tp|, i)) == Spike(|tp|, i)
  {
    IdsInOk(Reached(tp, Probing(|tp|, i)).ssid, Ladder(|tp|), |tp|, Singled(|tp|, i));
  }

  /** What the generic evaluator says of a transition from the state singled out. */
  lemma GenericSays(tp: Tmat, st: HmmState, i: nat, j: nat)
    requires IsTmat(tp, |tp|) && i < |tp| && i <= j <= |tp| && AllAlive(st, |tp|)
    ensures var r := At(EvalAny(tp, Spike(|tp|, i), true, st), j); if Arc(tp, i, j) then r >= -765 else r <= -32767
  {
    hide EvalAny;
    var em := Spike(|tp|, i);
    AnyStepOptimal(tp, em, true, st);
    var r := EvalAny(tp, em, true, st);
    assert j < |tp| ==> BestInto(tp, em, st, j, r.score[j], r.hist[j]);
    if Arc(tp, i, j) {
      assert Cand(tp, em, st, i, j) >= -765;
    }
  }

  /** The unrolled code charges for the diagram's transitions whether they are present or not. */
  lemma Mpx3Says(tp: Tmat, st: HmmState, i: nat, j: nat)
    requires IsTmat(tp, 3) && i < 3 && i <= j <= 3 && Wrong3(tp, i, j) && AllAlive(st, 3)
    ensures var r := At(Eval3Mpx(tp, Spike(3, i), st), j); if Present(tp, i, j) then r <= -32767 else r >= -765
  {
    hide Eval3Mpx;
    Eval3MpxFields(tp, Spike(3, i), st);
    assert i == 0 || i == 1 || i == 2;
  }

  lemma Mpx5SaysPick(tp: Tmat, st: HmmState, i: nat, j: nat)
    requires IsTmat(tp, 5) && i < 5 && i <= j < 5 && AllAlive(st, 5)
    ensures var r := Picks5Mpx(tp, Spike(5, i), st)[j].scr; if j <= i + 2 then r >= -765 else r <= -32767
  {
    assert j == 0 || j == 1 || j == 2 || j == 3 || j == 4;
  }

  lemma Mpx5Says(tp: Tmat, st: HmmState, i: nat, j: nat)
    requires IsTmat(tp, 5) && i < 5 && i <= j <= 5 && Wrong5(tp, i, j) && AllAlive(st, 5)
    ensures var r := At(Eval5Mpx(tp, Spike(5, i), st), j); if j <= i + 2 then r >= -765 else r <= -32767
  {
    hide Eval5Mpx, Picks5Mpx;
    Eval5MpxFields(tp, Spike(5, i), st);
    if j < 5 {
      Mpx5SaysPick(tp, st, i, j);
    }
  }

  lemma Wrong3Disagrees(tp: Tmat, i: nat, j: nat)
    requires IsTmat(tp, |tp|) && |tp| == 3 && i < 3 && i <= j <= 3 && Wrong3(tp, i, j)
    ensures !AgreesAt(tp, Probing(3, i))
  {
    hide Eval3Mpx, EvalAny, Probing, Reached, FrameScores;
    Warmed3(tp, i);
    ProbeScores(tp, i);
    var st := Reached(tp, Probing(3, i));
    GenericSays(tp, st, i, j);
    Mpx3Says(tp, st, i, j);
  }

  lemma Wrong5Disagrees(tp: Tmat, i: nat, j: nat)
    requires IsTmat(tp, |tp|) && |tp| == 5 && i < 5 && i <= j <= 5 && Wrong5(tp, i, j)
    ensures !AgreesAt(tp, Probing(5, i))
  {
    hide Eval5Mpx, EvalAny, Probing, Reached, FrameScores;
    Warmed5(tp, i);
    ProbeScores(tp, i);
    var st := Reached(tp, Probing(5, i));
    GenericSays(tp, st, i, j);
    Mpx5Says(tp, st, i, j);
  }

  /** With 0 to 2 absent, state 2 is credited with the cheaper 1 to exit transition here as well. */
  lemma SkipUnsafeDisagrees(tp: Tmat)
    requires IsTmat(tp, |tp|) && |tp| == 3 && Diagram3(tp) && !SkipSafe(tp)
    ensures !AgreesAt(tp, Probing(3, 1))
  {
    hide Eval3Mpx, EvalAny, Probing, Reached, FrameScores;
    Warmed3(tp, 1);
    ProbeScores(tp, 1);
    var st, em := Reached(tp, Probing(3, 1)), Spike(3, 1);
    Eval3MpxFields(tp, em, st);
    AnyStepOptimal(tp, em, true, st);
    var a, b := Eval3Mpx(tp, em, st), EvalAny(tp, em, true, st);
    assert BestInto(tp, em, st, 2, b.score[2], b.hist[2]);
    assert At(a, 2) >= st.score[1] - tp[1][3] > At(b, 2);
  }

  lemma CoveredAgrees(tp: Tmat, w: Moment)
    requires IsTmat(tp, |tp|) && |tp| > 0 && CoveredMpx(tp) && IsMoment(w, |tp|)
    ensures AgreesAt(tp, w)
  {
    hide VitEval, EvalAny, CoveredMpx;
    MpxRunIsOptimal(tp, w.sseq, w.m, w.id, w.run);
    var st := Reached(tp, w);
    IdsInOk(st.ssid, w.sseq, w.m, w.senscore);
    EmissionsAreMpx(Context(w.senscore, w.sseq), st);
    MpxRefinesGeneric(tp, FrameScores(tp, w), st);
  }

  /** The multiplexed evaluators agree with the generic one on all runs if and only if the topology is
      covered, and the topologies are those of the plain evaluators. */
  lemma ExactlyCoveredMpx(tp: Tmat)
    requires IsTmat(tp, |tp|) && |tp| > 0
    ensures AlwaysAgrees(tp) <==> CoveredMpx(tp)
  {
    hide AgreesAt;
    if CoveredMpx(tp) {
      forall w: Moment | IsMoment(w, |tp|) ensures AgreesAt(tp, w) {
        CoveredAgrees(tp, w);
      }
    }
    if AlwaysAgrees(tp) && |tp| == 3 {
      forall i, j | 0 <= i < 3 && i <= j <= 3 ensures !Wrong3(tp, i, j) {
        if Wrong3(tp, i, j) { Wrong3Disagrees(tp, i, j); }
      }
      Diagram3Known(tp);
      if !SkipSafe(tp) { SkipUnsafeDisagrees(tp); }
    }
    if AlwaysAgrees(tp) && |tp| == 5 {
      forall i, j | 0 <= i < 5 && i <= j <= 5 ensures Present(tp, i, j) <==> j <= i + 2 {
        if Wrong5(tp, i, j) { Wrong5Disagrees(tp, i, j); }
      }
    }
  }

  lemma Diagram3Known(tp: Tmat)
    requires IsTmat(tp, 3) && forall i, j :: 0 <= i < 3 && i <= j <= 3 ==> !Wrong3(tp, i, j)
    ensures Diagram3(tp)
  {
    assert !Wrong3(tp, 0, 0) && !Wrong3(tp, 0, 1) && !Wrong3(tp, 0, 3);
    assert !Wrong3(tp, 1, 1) && !Wrong3(tp, 1, 2) && !Wrong3(tp, 2, 2) && !Wrong3(tp, 2, 3);
  }
}
