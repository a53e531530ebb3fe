/** The conditions of HmmUnrolled are exact: on any other transition matrix some short run, with no
    score near the floor, makes the unrolled evaluator miss the optimum. */
module HmmExact {
  import opened Hmm
  import opened HmmOptimal
  import opened HmmUnrolled

  ghost predicate AlwaysOptimal(kind: Kind, tp: Tmat)
    requires IsTmat(tp, |tp|) && Fits(kind, |tp|)
  {
    forall run :: IsRun(run, |tp|) && NoFloor(tp, run) ==> Optimal(tp, run, Exec(kind, tp, run))
  }

  // ---- probing runs: enter at 0, move a few times for free, then single out one state

  function Spike(n: nat, i: nat): (em: seq<int>)
    ensures |em| == n && IsEmission(em) && forall k :: 0 <= k < n ==> em[k] == if k == i then 0 else -32767
  {
    seq(n, k => if k == i then 0 else -32767)
  }

  function Free(n: nat): (em: seq<int>)
    ensures |em| == n && IsEmission(em) && forall k :: 0 <= k < n ==> em[k] == 0
  {
    seq(n, _ => 0)
  }

  function Warm(n: nat, m: nat): (run: Run)
    ensures IsRun(run, n) && |run| == m + 1
    ensures forall i :: 0 <= i < |run| && run[i].Enter? ==> run[i].score == 0
  {
    if m == 0 then [Enter(0, 0, 0)] else Warm(n, m - 1) + [Eval(Free(n))]
  }

  function Probe(n: nat, m: nat, i: nat): (run: Run)
    ensures IsRun(run, n) && |run| == m + 2
    ensures forall i :: 0 <= i < |run| && run[i].Enter? ==> run[i].score == 0
  {
    Warm(n, m) + [Eval(Spike(n, i))]
  }

  lemma {:induction false} ScoreFloor(tp: Tmat, run: Run, p: Path)
    requires IsTmat(tp, |tp|) && IsRun(run, |tp|)
    requires forall i :: 0 <= i < |run| && run[i].Enter? ==> run[i].score == 0
    ensures Score(tp, run, p) >= -33022 * |run|
    decreases |run|
  {
    if run != [] {
      match Last(run)
      case Enter(v, h, f) => if !p.Begin? { ScoreFloor(tp, Init(run), p); }
      case Eval(em) => if p.Move? { ScoreFloor(tp, Init(run), p.prev); }
    }
  }

  lemma {:induction false} ShortRunNoFloor(tp: Tmat, run: Run)
    requires IsTmat(tp, |tp|) && IsRun(run, |tp|) && |run| <= 100
    requires forall i :: 0 <= i < |run| && run[i].Enter? ==> run[i].score == 0
    ensures NoFloor(tp, run)
    decreases |run|
  {
    if run != [] {
      ShortRunNoFloor(tp, Init(run));
      forall p | Trail(tp, run, p) ensures Score(tp, run, p) > WORST_SCORE {
        ScoreFloor(tp, run, p);
      }
    }
  }

  // ---- bounds on scores

  predicate AtMostZero(st: HmmState) {
    (forall i :: 0 <= i < |st.score| ==> st.score[i] <= 0) && st.out <= 0
  }

  lemma GenericAtMostZero(tp: Tmat, em: seq<int>, st: HmmState)
    requires IsTmat(tp, |em|) && IsState(st, |em|) && IsEmission(em) && AtMostZero(st)
    ensures AtMostZero(EvalAny(tp, em, false, st))
  {
    hide EvalAny;
    AnyStepOptimal(tp, em, false, st);
    var r := EvalAny(tp, em, false, st);
    forall i | 0 <= i < |em| ensures r.score[i] <= 0 {
      assert BestInto(tp, em, st, i, r.score[i], r.hist[i]);
    }
  }

  lemma KindAtMostZero(kind: Kind, tp: Tmat, em: seq<int>, st: HmmState)
    requires Fits(kind, |em|) && IsTmat(tp, |em|) && IsState(st, |em|) && IsEmission(em) && AtMostZero(st)
    ensures AtMostZero(EvalKind(kind, tp, em, st))
  {
    hide EvalAny, Eval3, Eval5, Best5;
    match kind
    case Generic => GenericAtMostZero(tp, em, st);
    case Plain3 => Eval3Fields(tp, em, st);
    case Plain5 => Eval5Fields(tp, em, st);
  }

  lemma {:induction false} WarmAtMostZero(kind: Kind, tp: Tmat, m: nat)
    requires IsTmat(tp, |tp|) && Fits(kind, |tp|)
    ensures AtMostZero(Exec(kind, tp, Warm(|tp|, m)))
  {
    hide EvalKind;
    var run := Warm(|tp|, m);
    if m == 0 {
      assert Init(run) == [] && Last(run) == Enter(0, 0, 0);
    } else {
      WarmAtMostZero(kind, tp, m - 1);
      assert Init(run) == Warm(|tp|, m - 1) && Last(run) == Eval(Free(|tp|));
      KindAtMostZero(kind, tp, Free(|tp|), Exec(kind, tp, Warm(|tp|, m - 1)));
    }
  }

  /** A lower bound carried over one transition of the generic evaluator. */
  lemma GenericAlong(tp: Tmat, em: seq<int>, st: HmmState, i: nat, j: nat)
    requires IsTmat(tp, |em|) && IsState(st, |em|) && IsEmission(em) && i < |em| && j <= |em|
    requires Arc(tp, i, j) && Cand(tp, em, st, i, j) > WORST_SCORE
    ensures var r := EvalAny(tp, em, false, st); (if j < |em| then r.score[j] else r.out) >= Cand(tp, em, st, i, j)
  {
    AnyStepOptimal(tp, em, false, st);
    var r := EvalAny(tp, em, false, st);
    assert j < |em| ==> BestInto(tp, em, st, j, r.score[j], r.hist[j]);
  }

  /** Without the transition, everything that reaches j in the generic evaluator is below -32767. */
  lemma GenericWithout(tp: Tmat, st: HmmState, i: nat, j: nat)
    requires IsTmat(tp, |tp|) && IsState(st, |tp|) && i < |tp| && j <= |tp| && !Arc(tp, i, j) && AtMostZero(st)
    ensures var r := EvalAny(tp, Spike(|tp|, i), false, st); (if j < |tp| then r.score[j] else r.out) <= -32767
  {
    var em := Spike(|tp|, i);
    AnyStepOptimal(tp, em, false, st);
    var r := EvalAny(tp, em, false, st);
    assert j < |tp| ==> BestInto(tp, em, st, j, r.score[j], r.hist[j]);
  }

  function At(st: HmmState, j: nat): int
    requires j <= |st.score|
  {
    if j < |st.score| then st.score[j] else st.out
  }

  /** From here on the two evaluators disagree about j after the probe. */
  lemma Disagree(kind: Kind, tp: Tmat, m: nat, i: nat, j: nat)
    requires IsTmat(tp, |tp|) && Fits(kind, |tp|) && i < |tp| && j <= |tp| && m <= 3
    requires Max(At(Exec(kind, tp, Probe(|tp|, m, i)), j), WORST_SCORE)
          != Max(At(Exec(Generic, tp, Probe(|tp|, m, i)), j), WORST_SCORE)
    ensures !AlwaysOptimal(kind, tp)
  {
    var run := Probe(|tp|, m, i);
    ShortRunNoFloor(tp, run);
    if Optimal(tp, run, Exec(kind, tp, run)) {
      ViterbiOptimal(tp, run);
      OptimalUnique(tp, run, Exec(kind, tp, run), Exec(Generic, tp, run));
    }
  }

  lemma ProbeEnds(kind: Kind, tp: Tmat, m: nat, i: nat)
    requires IsTmat(tp, |tp|) && Fits(kind, |tp|)
    ensures Exec(kind, tp, Probe(|tp|, m, i))
         == EvalKind(kind, tp, Spike(|tp|, i), Exec(kind, tp, Warm(|tp|, m)))
  {
    var run := Probe(|tp|, m, i);
    assert Init(run) == Warm(|tp|, m) && Last(run) == Eval(Spike(|tp|, i));
  }

  lemma WarmStep(kind: Kind, tp: Tmat, m: nat)
    requires IsTmat(tp, |tp|) && Fits(kind, |tp|)
    ensures Exec(kind, tp, Warm(|tp|, m + 1)) == EvalKind(kind, tp, Free(|tp|), Exec(kind, tp, Warm(|tp|, m)))
    ensures Exec(kind, tp, Warm(|tp|, 0)) == Entered(Blank(|tp|), 0, 0, 0)
  {
    var run := Warm(|tp|, m + 1);
    assert Init(run) == Warm(|tp|, m) && Last(run) == Eval(Free(|tp|));
    assert Init(Warm(|tp|, 0)) == [];
  }

  /** The generic evaluator's side of a probe of (i, j), given that state i was reached. */
  lemma GenericProbe(tp: Tmat, m: nat, i: nat, j: nat)
    requires IsTmat(tp, |tp|) && i < |tp| && i <= j <= |tp|
    requires Exec(Generic, tp, Warm(|tp|, m)).score[i] >= -765
    ensures var r := At(Exec(Generic, tp, Probe(|tp|, m, i)), j); if Arc(tp, i, j) then r >= -1020 else r <= -32767
  {
    hide EvalAny, Spike;
    ProbeEnds(Generic, tp, m, i);
    WarmAtMostZero(Generic, tp, m);
    var st := Exec(Generic, tp, Warm(|tp|, m));
    if Arc(tp, i, j) {
      GenericAlong(tp, Spike(|tp|, i), st, i, j);
    } else {
      GenericWithout(tp, st, i, j);
    }
  }

  /** Chains of present transitions keep the generic evaluator's states alive while warming up. */
  lemma GenericReach(tp: Tmat, m: nat, i: nat, j: nat)
    requires IsTmat(tp, |tp|) && i < |tp| && j < |tp| && m < 3 && Arc(tp, i, j)
    requires Exec(Generic, tp, Warm(|tp|, m)).score[i] >= -255 * m
    ensures Exec(Generic, tp, Warm(|tp|, m + 1)).score[j] >= -255 * (m + 1)
  {
    hide EvalAny, Free;
    WarmStep(Generic, tp, m);
    GenericAlong(tp, Free(|tp|), Exec(Generic, tp, Warm(|tp|, m)), i, j);
  }

  // ---- three states

  predicate Wrong3(tp: Tmat, i: nat, j: nat)
    requires IsTmat(tp, 3) && i < 3 && i <= j <= 3
  {
    if j <= i + 1 then !Present(tp, i, j) else i == 0 && j == 3 && Present(tp, i, j)
  }

  lemma Warm3(tp: Tmat)
    requires IsTmat(tp, 3)
    ensures var a, b := Exec(Plain3, tp, Warm(3, 0)), Exec(Plain3, tp, Warm(3, 1));
      && a.score == [0, WORST_SCORE, WORST_SCORE] && a.out == WORST_SCORE
      && b.score[0] == -tp[0][0] && b.score[1] == -tp[0][1]
      && (!Present(tp, 0, 2) ==> b.score[2] == WORST_SCORE)
  {
    hide Eval3;
    WarmStep(Plain3, tp, 0);
    Eval3Fields(tp, Free(3), Exec(Plain3, tp, Warm(3, 0)));
  }

  lemma WarmTwice3(tp: Tmat)
    requires IsTmat(tp, 3)
    ensures var c := Exec(Plain3, tp, Warm(3, 2)); c.score[1] >= -510 && c.score[2] >= -510
  {
    hide Eval3;
    Warm3(tp);
    WarmStep(Plain3, tp, 1);
    Eval3Fields(tp, Free(3), Exec(Plain3, tp, Warm(3, 1)));
  }

  /** The 3-state evaluator always charges for the diagram's transitions and never leaves from state 0. */
  lemma PlainProbe3(tp: Tmat, i: nat, j: nat)
    requires IsTmat(tp, 3) && i < 3 && i <= j <= 3 && Wrong3(tp, i, j)
    ensures var r := At(Exec(Plain3, tp, Probe(3, i, i)), j); if Present(tp, i, j) then r <= -32767 else r >= -765
  {
    hide Eval3;
    Warm3(tp);
    WarmTwice3(tp);
    ProbeEnds(Plain3, tp, i, i);
    Eval3Fields(tp, Spike(3, i), Exec(Plain3, tp, Warm(3, i)));
    assert i == 0 || i == 1 || i == 2;
  }

  lemma Wrong3Shows(tp: Tmat, i: nat, j: nat)
    requires IsTmat(tp, |tp|) && |tp| == 3 && i < 3 && i <= j <= 3 && Wrong3(tp, i, j)
    requires i >= 1 ==> Arc(tp, 0, 1)
    requires i == 2 ==> Arc(tp, 1, 2)
    ensures !AlwaysOptimal(Plain3, tp)
  {
    hide AlwaysOptimal, Exec, Probe;
    PlainProbe3(tp, i, j);
    WarmStep(Generic, tp, 0);
    if i >= 1 { GenericReach(tp, 0, 0, 1); }
    if i == 2 { GenericReach(tp, 1, 1, 2); }
    GenericProbe(tp, i, i, j);
    Disagree(Plain3, tp, i, i, j);
  }

  /** With 0 to 2 absent, state 2 is credited with the cheaper 1 to exit transition. */
  lemma SkipUnsafeShows(tp: Tmat)
    requires IsTmat(tp, |tp|) && |tp| == 3 && Diagram3(tp) && !SkipSafe(tp)
    ensures !AlwaysOptimal(Plain3, tp)
  {
    hide Eval3, EvalAny;
    Warm3(tp);
    ProbeEnds(Plain3, tp, 1, 1);
    var a := Exec(Plain3, tp, Warm(3, 1));
    Eval3Fields(tp, Spike(3, 1), a);
    assert Exec(Plain3, tp, Probe(3, 1, 1)).score[2] == -tp[0][1] - tp[1][3];
    ProbeEnds(Generic, tp, 1, 1);
    WarmStep(Generic, tp, 0);
    var z, b := Exec(Generic, tp, Warm(3, 0)), Exec(Generic, tp, Warm(3, 1));
    AnyStepOptimal(tp, Free(3), false, z);
    assert BestInto(tp, Free(3), z, 1, b.score[1], b.hist[1]) && BestInto(tp, Free(3), z, 2, b.score[2], b.hist[2]);
    assert b.score[1] <= -tp[0][1] && b.score[2] <= WORST_SCORE;
    WarmAtMostZero(Generic, tp, 1);
    var r := EvalAny(tp, Spike(3, 1), false, b);
    AnyStepOptimal(tp, Spike(3, 1), false, b);
    assert BestInto(tp, Spike(3, 1), b, 2, r.score[2], r.hist[2]);
    assert r.score[2] <= -tp[0][1] - tp[1][2];
    Disagree(Plain3, tp, 1, 1, 2);
  }

  lemma OptimalImpliesCovered3(tp: Tmat)
    requires IsTmat(tp, |tp|) && |tp| == 3 && AlwaysOptimal(Plain3, tp)
    ensures Covered(Plain3, tp)
  {
    hide AlwaysOptimal;
    if Wrong3(tp, 0, 0) { Wrong3Shows(tp, 0, 0); }
    if Wrong3(tp, 0, 1) { Wrong3Shows(tp, 0, 1); }
    if Wrong3(tp, 0, 3) { Wrong3Shows(tp, 0, 3); }
    if Wrong3(tp, 1, 1) { Wrong3Shows(tp, 1, 1); }
    if Wrong3(tp, 1, 2) { Wrong3Shows(tp, 1, 2); }
    if Wrong3(tp, 2, 2) { Wrong3Shows(tp, 2, 2); }
    if Wrong3(tp, 2, 3) { Wrong3Shows(tp, 2, 3); }
    if !SkipSafe(tp) { SkipUnsafeShows(tp); }
  }

  // ---- five states

  predicate Wrong5(tp: Tmat, i: nat, j: nat)
    requires IsTmat(tp, 5) && i < 5 && i <= j <= 5
  {
    Present(tp, i, j) != (j <= i + 2)
  }

  /** Evaluations needed before state i is reached. */
  function Depth5(i: nat): nat {
    (i + 1) / 2
  }

  lemma Warm5(tp: Tmat)
    requires IsTmat(tp, 5)
    ensures var a, b := Exec(Plain5, tp, Warm(5, 0)), Exec(Plain5, tp, Warm(5, 1));
      && a.score == [0, WORST_SCORE, WORST_SCORE, WORST_SCORE, WORST_SCORE] && a.out == WORST_SCORE
      && b.score[1] >= -255 && b.score[2] >= -255
      && b.score[3] == b.score[4] == b.out == WORST_SCORE
  {
    hide Eval5, Best5;
    WarmStep(Plain5, tp, 0);
    Eval5Fields(tp, Free(5), Exec(Plain5, tp, Warm(5, 0)));
  }

  lemma WarmTwice5(tp: Tmat)
    requires IsTmat(tp, 5)
    ensures var c := Exec(Plain5, tp, Warm(5, 2));
      c.score[1] >= -510 && c.score[2] >= -510 && c.score[3] >= -510 && c.score[4] >= -510
  {
    hide Eval5, Best5, Exec;
    Warm5(tp);
    WarmStep(Plain5, tp, 1);
    Eval5Fields(tp, Free(5), Exec(Plain5, tp, Warm(5, 1)));
  }

  lemma PlainProbe5(tp: Tmat, i: nat, j: nat)
    requires IsTmat(tp, 5) && i < 5 && i <= j <= 5 && Wrong5(tp, i, j)
    ensures var r := At(Exec(Plain5, tp, Probe(5, Depth5(i), i)), j);
      if j <= i + 2 then r >= -1020 else r <= -32767
  {
    hide Eval5, Best5, Exec, Warm, Probe;
    Warm5(tp);
    WarmTwice5(tp);
    var m := Depth5(i);
    ProbeEnds(Plain5, tp, m, i);
    WarmAtMostZero(Plain5, tp, m);
    Eval5Fields(tp, Spike(5, i), Exec(Plain5, tp, Warm(5, m)));
    assert i == 0 || i == 1 || i == 2 || i == 3 || i == 4;
  }

  lemma Wrong5Shows(tp: Tmat, i: nat, j: nat)
    requires IsTmat(tp, |tp|) && |tp| == 5 && i < 5 && i <= j <= 5 && Wrong5(tp, i, j)
    requires i >= 1 ==> Arc(tp, 0, 1) && Arc(tp, 0, 2)
    requires i >= 3 ==> Arc(tp, 1, 3) && Arc(tp, 2, 4)
    ensures !AlwaysOptimal(Plain5, tp)
  {
    hide AlwaysOptimal, Exec, Probe;
    PlainProbe5(tp, i, j);
    WarmStep(Generic, tp, 0);
    if i >= 1 {
      GenericReach(tp, 0, 0, 1);
      GenericReach(tp, 0, 0, 2);
    }
    if i >= 3 {
      GenericReach(tp, 1, 1, 3);
      GenericReach(tp, 1, 2, 4);
    }
    GenericProbe(tp, Depth5(i), i, j);
    Disagree(Plain5, tp, Depth5(i), i, j);
  }

  lemma Sources5(tp: Tmat, i: nat, j: nat)
    requires IsTmat(tp, |tp|) && |tp| == 5 && AlwaysOptimal(Plain5, tp) && i < 5 && i <= j <= 5
    ensures !Wrong5(tp, i, j)
    decreases i
  {
    hide AlwaysOptimal;
    if i >= 1 {
      Sources5(tp, 0, 1);
      Sources5(tp, 0, 2);
    }
    if i >= 3 {
      Sources5(tp, 1, 3);
      Sources5(tp, 2, 4);
    }
    if Wrong5(tp, i, j) {
      Wrong5Shows(tp, i, j);
    }
  }

  lemma OptimalImpliesCovered5(tp: Tmat)
    requires IsTmat(tp, |tp|) && |tp| == 5 && AlwaysOptimal(Plain5, tp)
    ensures Covered(Plain5, tp)
  {
    hide AlwaysOptimal;
    forall i, j | 0 <= i < 5 && i <= j <= 5 ensures Present(tp, i, j) <==> j <= i + 2 {
      Sources5(tp, i, j);
    }
  }

  /** An evaluator finds the optimum on every run clear of the floor if and only if its topology is
      covered: the 5-state code needs exactly its diagram; the 3-state code needs the self and next
      transitions, no 0 to exit, and 1 to exit at least as costly as 1 to 2 unless 0 to 2 is there. */
  lemma ExactlyCovered(kind: Kind, tp: Tmat)
    requires IsTmat(tp, |tp|) && Fits(kind, |tp|)
    ensures AlwaysOptimal(kind, tp) <==> Covered(kind, tp)
  {
    if Covered(kind, tp) {
      forall run | IsRun(run, |tp|) && NoFloor(tp, run) ensures Optimal(tp, run, Exec(kind, tp, run)) {
        CoveredIsOptimal(kind, tp, run);
      }
    }
    if AlwaysOptimal(kind, tp) {
      match kind
      case Generic =>
      case Plain3 => OptimalImpliesCovered3(tp);
      case Plain5 => OptimalImpliesCovered5(tp);
    }
  }
}
