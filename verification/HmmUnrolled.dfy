/** The hand-unrolled 3-state and 5-state evaluators of src/hmm.c against the optimum over state paths:
    on which transition matrices they compute it on every run, exactly. */
module HmmUnrolled {
  import opened Hmm
  import opened HmmOptimal

  // ---- the diagrams of src/hmm.h

  /** The self and next transitions are there, 0 to exit is not; 0 to 2 and 1 to exit are optional. */
  predicate Diagram3(tp: Tmat)
    requires IsTmat(tp, 3)
  {
    && Present(tp, 0, 0) && Present(tp, 0, 1)
    && Present(tp, 1, 1) && Present(tp, 1, 2)
    && Present(tp, 2, 2) && Present(tp, 2, 3)
    && !Present(tp, 0, 3)
  }

  /** The score left over in `t2` by the exit test cannot win state 2. */
  predicate SkipSafe(tp: Tmat)
    requires IsTmat(tp, 3)
  {
    Present(tp, 1, 3) && !Present(tp, 0, 2) ==> tp[1][2] <= tp[1][3]
  }

  /** Exactly the transitions to the same state, the next and the one after. */
  predicate Diagram5(tp: Tmat)
    requires IsTmat(tp, 5)
  {
    forall i, j :: 0 <= i < 5 && i <= j <= 5 ==> (Present(tp, i, j) <==> j <= i + 2)
  }

  /** The evaluator that hmm_vit_eval chooses for a plain record of n states. */
  function KindOf(n: nat): Kind {
    if n == 5 then Plain5 else if n == 3 then Plain3 else Generic
  }

  predicate Covered(kind: Kind, tp: Tmat)
    requires IsTmat(tp, |tp|) && Fits(kind, |tp|)
  {
    match kind
    case Generic => true
    case Plain3 => Diagram3(tp) && SkipSafe(tp)
    case Plain5 => Diagram5(tp)
  }

  // ---- runs on which no path reaches the floor

  ghost predicate NoFloor(tp: Tmat, run: Run)
    requires IsTmat(tp, |tp|) && IsRun(run, |tp|)
    decreases |run|
  {
    run == [] || (NoFloor(tp, Init(run)) && forall p :: Trail(tp, run, p) ==> Score(tp, run, p) > WORST_SCORE)
  }

  predicate Alive(st: HmmState, s: nat)
    requires s < |st.score|
  {
    st.score[s] > WORST_SCORE
  }

  /** No live score reaches the floor in this evaluation, except possibly on the way out. */
  predicate SafeStep(tp: Tmat, em: seq<int>, st: HmmState)
    requires IsTmat(tp, |em|) && IsState(st, |em|)
  {
    forall from, to :: 0 <= from < |em| && 0 <= to < |em| && Alive(st, from) && Arc(tp, from, to) ==>
      Cand(tp, em, st, from, to) > WORST_SCORE
  }

  lemma NoFloorIsSafe(tp: Tmat, run: Run, em: seq<int>, st: HmmState)
    requires IsTmat(tp, |tp|) && IsRun(run, |tp|) && |em| == |tp| && IsEmission(em)
    requires IsRun(run + [Eval(em)], |tp|) && NoFloor(tp, run + [Eval(em)]) && Optimal(tp, run, st)
    ensures SafeStep(tp, em, st)
  {
    var run' := run + [Eval(em)];
    assert Init(run') == run && Last(run') == Eval(em);
    forall from, to | 0 <= from < |em| && 0 <= to < |em| && Alive(st, from) && Arc(tp, from, to)
      ensures Cand(tp, em, st, from, to) > WORST_SCORE
    {
      assert OptimalAt(tp, run, from, st.score[from], st.hist[from]);
      var q :| Live(tp, run, q) && End(q) == from && Score(tp, run, q) == st.score[from];
      assert Trail(tp, run', Move(q, to));
      assert Score(tp, run', Move(q, to)) == Cand(tp, em, st, from, to);
    }
  }

  // ---- shapes of reachable records

  /** A live state has live states below it, and nothing has left before state n-2 was reached. */
  predicate Shape3(st: HmmState)
    requires IsState(st, 3)
  {
    && (Alive(st, 1) ==> Alive(st, 0))
    && (Alive(st, 2) ==> Alive(st, 1))
    && (!Alive(st, 1) ==> st.out <= WORST_SCORE)
  }

  predicate Shape5(st: HmmState)
    requires IsState(st, 5)
  {
    && (Alive(st, 1) || Alive(st, 2) ==> Alive(st, 0) && Alive(st, 1) && Alive(st, 2))
    && (Alive(st, 3) || Alive(st, 4) ==> Alive(st, 1) && Alive(st, 3) && Alive(st, 4))
    && (!Alive(st, 3) ==> st.out <= WORST_SCORE)
  }

  predicate Shape(kind: Kind, st: HmmState) {
    match kind
    case Generic => true
    case Plain3 => IsState(st, 3) && Shape3(st)
    case Plain5 => IsState(st, 5) && Shape5(st)
  }

  // ---- one unrolled step is optimal

  lemma Step3Into(tp: Tmat, em: seq<int>, st: HmmState)
    requires |em| == 3 && IsTmat(tp, 3) && IsState(st, 3) && IsEmission(em)
    requires Diagram3(tp) && SkipSafe(tp) && Shape3(st) && SafeStep(tp, em, st)
    ensures var p := Picks3(tp, em, st);
      && BestInto(tp, em, st, 0, p[0].scr, st.hist[p[0].from])
      && BestInto(tp, em, st, 1, p[1].scr, st.hist[p[1].from])
      && BestInto(tp, em, st, 2, p[2].scr, st.hist[p[2].from])
  {
    var p := Picks3(tp, em, st);
    forall to | 0 <= to < 3 ensures BestInto(tp, em, st, to, p[to].scr, st.hist[p[to].from]) {
      assert p[to].scr > WORST_SCORE ==>
        Arc(tp, p[to].from, to) && Cand(tp, em, st, p[to].from, to) == p[to].scr;
      forall from | 0 <= from < 3 && Arc(tp, from, to)
        ensures Cand(tp, em, st, from, to) <= Max(p[to].scr, WORST_SCORE)
      {
        assert from == 0 || from == 1 || from == 2;
      }
    }
  }

  lemma Step3Exit(tp: Tmat, em: seq<int>, st: HmmState)
    requires |em| == 3 && IsTmat(tp, 3) && IsState(st, 3) && IsEmission(em)
    requires Diagram3(tp) && Shape3(st) && SafeStep(tp, em, st)
    ensures var r := ExitSet(st, st.score[1] + em[1] > WORST_SCORE, Exit3(tp, em, st));
      BestInto(tp, em, st, 3, r.out, r.outHist)
  {
    var o := Exit3(tp, em, st);
    assert Arc(tp, 1, 1) && Arc(tp, 2, 3);
    if st.score[1] + em[1] > WORST_SCORE {
      if o.scr > WORST_SCORE {
        assert Arc(tp, o.from, 3) && Cand(tp, em, st, o.from, 3) == o.scr;
      }
    } else {
      assert Cand(tp, em, st, 1, 1) <= WORST_SCORE;
    }
  }

  lemma Eval3Fields(tp: Tmat, em: seq<int>, st: HmmState)
    requires |em| == 3 && IsTmat(tp, 3) && IsState(st, 3)
    ensures var p, r := Picks3(tp, em, st), Eval3(tp, em, st);
      var e := ExitSet(st, st.score[1] + em[1] > WORST_SCORE, Exit3(tp, em, st));
      && r.score == [p[0].scr, p[1].scr, p[2].scr]
      && r.hist == [st.hist[p[0].from], st.hist[p[1].from], st.hist[p[2].from]]
      && r.out == e.out && r.outHist == e.outHist
      && r.best == Max(Max(Max(if st.score[1] + em[1] > WORST_SCORE then e.out else WORST_SCORE, p[2].scr), p[1].scr),
        p[0].scr)
  {
    var exits := st.score[1] + em[1] > WORST_SCORE;
    var o, p := Exit3(tp, em, st), Picks3(tp, em, st);
    Chain3IsApplied(ExitSet(st, exits, o), false, p,
                    Max(Max(Max(if exits then o.scr else WORST_SCORE, p[2].scr), p[1].scr), p[0].scr));
  }

  lemma Step3(tp: Tmat, em: seq<int>, st: HmmState)
    requires |em| == 3 && IsTmat(tp, 3) && IsState(st, 3) && IsEmission(em)
    requires Diagram3(tp) && SkipSafe(tp) && Shape3(st) && SafeStep(tp, em, st)
    ensures StepOptimal(tp, em, st, Eval3(tp, em, st)) && Shape3(Eval3(tp, em, st))
  {
    hide Eval3, Picks3, Exit3;
    Eval3Fields(tp, em, st);
    Step3Into(tp, em, st);
    Step3Exit(tp, em, st);
    var p, r := Picks3(tp, em, st), Eval3(tp, em, st);
    assert r.score[0] == p[0].scr && r.score[1] == p[1].scr && r.score[2] == p[2].scr;
    assert r.hist[0] == st.hist[p[0].from] && r.hist[1] == st.hist[p[1].from] && r.hist[2] == st.hist[p[2].from];
    Shape3Kept(tp, em, st, r);
    assert Arc(tp, 1, 1);
    assert r.out <= Max(r.best, WORST_SCORE);
    assert r.best > WORST_SCORE ==>
      r.best == r.out || r.best == r.score[0] || r.best == r.score[1] || r.best == r.score[2];
  }

  lemma Shape3Kept(tp: Tmat, em: seq<int>, st: HmmState, r: HmmState)
    requires |em| == 3 && IsTmat(tp, 3) && IsState(st, 3) && IsState(r, 3) && IsEmission(em)
    requires Diagram3(tp) && Shape3(st) && SafeStep(tp, em, st)
    requires BestInto(tp, em, st, 0, r.score[0], r.hist[0])
    requires BestInto(tp, em, st, 1, r.score[1], r.hist[1])
    requires BestInto(tp, em, st, 2, r.score[2], r.hist[2])
    requires BestInto(tp, em, st, 3, r.out, r.outHist)
    ensures Shape3(r)
  {
    assert Arc(tp, 0, 0) && Arc(tp, 0, 1) && Arc(tp, 1, 1);
    assert Alive(r, 1) ==> Alive(st, 0);
    assert Alive(r, 2) ==> Alive(st, 0);
    if r.out > WORST_SCORE {
      var from :| 0 <= from < 3 && Arc(tp, from, 3) && Cand(tp, em, st, from, 3) == r.out;
      assert from != 0;
    }
  }

  lemma Step5Attained(tp: Tmat, em: seq<int>, st: HmmState, to: nat)
    requires |em| == 5 && IsTmat(tp, 5) && IsState(st, 5) && IsEmission(em) && to < 5
    requires Diagram5(tp) && Shape5(st) && SafeStep(tp, em, st) && Picks5(tp, em, st)[to].scr > WORST_SCORE
    ensures var p := Picks5(tp, em, st)[to];
      0 <= p.from && Arc(tp, p.from, to) && Cand(tp, em, st, p.from, to) == p.scr
  {
    assert Arc(tp, 1, 1) && Arc(tp, 2, 2);
    assert Alive(st, 1) ==> Cand(tp, em, st, 1, 1) > WORST_SCORE;
    assert Alive(st, 2) ==> Cand(tp, em, st, 2, 2) > WORST_SCORE;
  }

  lemma Step5Dominates(tp: Tmat, em: seq<int>, st: HmmState, from: nat, to: nat)
    requires |em| == 5 && IsTmat(tp, 5) && IsState(st, 5) && IsEmission(em) && to < 5 && from < 5
    requires Diagram5(tp) && Shape5(st) && SafeStep(tp, em, st) && Arc(tp, from, to)
    ensures Cand(tp, em, st, from, to) <= Max(Picks5(tp, em, st)[to].scr, WORST_SCORE)
  {
    assert Arc(tp, 1, 1) && Arc(tp, 2, 2);
    assert from <= to <= from + 2;
  }

  lemma Step5Into(tp: Tmat, em: seq<int>, st: HmmState, to: nat)
    requires |em| == 5 && IsTmat(tp, 5) && IsState(st, 5) && IsEmission(em) && to < 5
    requires Diagram5(tp) && Shape5(st) && SafeStep(tp, em, st)
    ensures var p := Picks5(tp, em, st);
      BestInto(tp, em, st, to, p[to].scr, Kept(st.hist, p[to], to))
  {
    hide Picks5;
    var p := Picks5(tp, em, st);
    if p[to].scr > WORST_SCORE {
      Step5Attained(tp, em, st, to);
    }
    forall from | 0 <= from < 5 && Arc(tp, from, to)
      ensures Cand(tp, em, st, from, to) <= Max(p[to].scr, WORST_SCORE)
    {
      Step5Dominates(tp, em, st, from, to);
    }
  }

  lemma Step5Exit(tp: Tmat, em: seq<int>, st: HmmState)
    requires |em| == 5 && IsTmat(tp, 5) && IsState(st, 5) && IsEmission(em)
    requires Diagram5(tp) && Shape5(st) && SafeStep(tp, em, st)
    ensures var r := ExitSet(st, st.score[3] + em[3] > WORST_SCORE, Exit5(tp, em, st));
      BestInto(tp, em, st, 5, r.out, r.outHist)
  {
    var o := Exit5(tp, em, st);
    assert Arc(tp, 3, 3);
    if st.score[3] + em[3] > WORST_SCORE {
      if o.scr > WORST_SCORE {
        assert Arc(tp, o.from, 5) && Cand(tp, em, st, o.from, 5) == o.scr;
      }
    } else {
      assert Cand(tp, em, st, 3, 3) <= WORST_SCORE;
    }
  }

  lemma Eval5Fields(tp: Tmat, em: seq<int>, st: HmmState)
    requires |em| == 5 && IsTmat(tp, 5) && IsState(st, 5)
    ensures var p, r := Picks5(tp, em, st), Eval5(tp, em, st);
      var e := ExitSet(st, st.score[3] + em[3] > WORST_SCORE, Exit5(tp, em, st));
      && (forall i :: 0 <= i < 5 ==> r.score[i] == p[i].scr && r.hist[i] == Kept(st.hist, p[i], i))
      && r.out == e.out && r.outHist == e.outHist && r.best == Best5(tp, em, st)
  {
    hide Picks5, Exit5, Best5;
    Chain5IsApplied(ExitSet(st, st.score[3] + em[3] > WORST_SCORE, Exit5(tp, em, st)), false,
                    Picks5(tp, em, st), Best5(tp, em, st));
  }

  /** What the guards of the plain evaluators leave alone: the exit when its last source is at the floor, and in
      the 5-state code a state when the one two below it is. */
  lemma GuardsExact(tp: Tmat, em: seq<int>, st: HmmState)
    requires (|em| == 3 || |em| == 5) && IsTmat(tp, |em|) && IsState(st, |em|)
    ensures var r := VitEval(tp, em, false, st);
      && (st.score[|em| - 2] + em[|em| - 2] <= WORST_SCORE ==> r.out == st.out && r.outHist == st.outHist)
      && (|em| == 5 ==> forall i :: 3 <= i < 5 && st.score[i - 2] + em[i - 2] <= WORST_SCORE ==>
           r.score[i] == st.score[i] && r.hist[i] == st.hist[i])
      && r.frame == st.frame && r.ssid == st.ssid
  {
    hide Max, Pick2, Pick3, Clamp, Best5, Exit3, Exit5;
    if |em| == 3 {
      Eval3Fields(tp, em, st);
      Chain3IsApplied(ExitSet(st, st.score[1] + em[1] > WORST_SCORE, Exit3(tp, em, st)), false, Picks3(tp, em, st),
                      Max(Max(Max(if st.score[1] + em[1] > WORST_SCORE then Exit3(tp, em, st).scr else WORST_SCORE,
                                  Picks3(tp, em, st)[2].scr), Picks3(tp, em, st)[1].scr), Picks3(tp, em, st)[0].scr));
    } else {
      Eval5Fields(tp, em, st);
      Chain5IsApplied(ExitSet(st, st.score[3] + em[3] > WORST_SCORE, Exit5(tp, em, st)), false,
                      Picks5(tp, em, st), Best5(tp, em, st));
    }
  }

  /** The states, the exit being number n, whose score the step writes. */
  predicate Written(em: seq<int>, st: HmmState, s: nat)
    requires (|em| == 3 || |em| == 5) && IsState(st, |em|) && s <= |em|
  {
    (s == |em| || s >= 3) ==> st.score[s - 2] + em[s - 2] > WORST_SCORE
  }

  function ScoreOrOut(r: HmmState, s: nat): int
    requires s <= |r.score|
  {
    if s == |r.score| then r.out else r.score[s]
  }

  /** Over any state at all, the best score reported is the greatest of the scores the step writes. */
  lemma ReportedExact(tp: Tmat, em: seq<int>, st: HmmState)
    requires (|em| == 3 || |em| == 5) && IsTmat(tp, |em|) && IsState(st, |em|)
    ensures var r := VitEval(tp, em, false, st);
      && (forall s :: 0 <= s <= |em| && Written(em, st, s) ==> ScoreOrOut(r, s) <= r.best)
      && (exists s :: 0 <= s <= |em| && Written(em, st, s) && ScoreOrOut(r, s) == r.best)
  {
    hide Eval3, Eval5;
    var r := VitEval(tp, em, false, st);
    if |em| == 3 { Reported3(tp, em, st); } else { Reported5(tp, em, st); }
    var w := if r.best == r.out && Written(em, st, |em|) then |em|
             else if r.best == r.score[0] then 0 else if r.best == r.score[1] then 1
             else if r.best == r.score[2] then 2 else if r.best == r.score[3] && Written(em, st, 3) then 3 else 4;
    assert Written(em, st, w) && ScoreOrOut(r, w) == r.best;
  }

  lemma Reported3(tp: Tmat, em: seq<int>, st: HmmState)
    requires |em| == 3 && IsTmat(tp, 3) && IsState(st, 3)
    ensures var r := Eval3(tp, em, st);
      && r.score[0] <= r.best && r.score[1] <= r.best && r.score[2] <= r.best
      && (Written(em, st, 3) ==> r.out <= r.best)
      && (r.best in {r.score[0], r.score[1], r.score[2]} || (Written(em, st, 3) && r.best == r.out))
  {
    hide Eval3;
    Eval3Fields(tp, em, st);
  }

  lemma Reported5(tp: Tmat, em: seq<int>, st: HmmState)
    requires |em| == 5 && IsTmat(tp, 5) && IsState(st, 5)
    ensures var r := Eval5(tp, em, st);
      && r.score[0] <= r.best && r.score[1] <= r.best && r.score[2] <= r.best
      && (forall s :: 3 <= s <= 5 && Written(em, st, s) ==> ScoreOrOut(r, s) <= r.best)
      && (r.best in {r.score[0], r.score[1], r.score[2]}
          || exists s :: 3 <= s <= 5 && Written(em, st, s) && ScoreOrOut(r, s) == r.best)
  {
    hide Eval5, Pick2, Pick3;
    Eval5Fields(tp, em, st);
    var p, r := Picks5(tp, em, st), Eval5(tp, em, st);
    assert Written(em, st, 3) ==> ScoreOrOut(r, 3) == p[3].scr;
    assert Written(em, st, 4) ==> ScoreOrOut(r, 4) == p[4].scr;
    assert Written(em, st, 5) ==> ScoreOrOut(r, 5) == Exit5(tp, em, st).scr;
  }

  lemma Step5(tp: Tmat, em: seq<int>, st: HmmState)
    requires |em| == 5 && IsTmat(tp, 5) && IsState(st, 5) && IsEmission(em)
    requires Diagram5(tp) && Shape5(st) && SafeStep(tp, em, st)
    ensures StepOptimal(tp, em, st, Eval5(tp, em, st)) && Shape5(Eval5(tp, em, st))
  {
    hide Eval5, Exit5;
    Eval5Fields(tp, em, st);
    var r := Eval5(tp, em, st);
    forall to | 0 <= to < 5 ensures BestInto(tp, em, st, to, r.score[to], r.hist[to]) {
      Step5Into(tp, em, st, to);
    }
    Step5Exit(tp, em, st);
    Shape5Kept(tp, em, st, r);
    Best5Of(tp, em, st, r);
  }

  lemma Best5Of(tp: Tmat, em: seq<int>, st: HmmState, r: HmmState)
    requires |em| == 5 && IsTmat(tp, 5) && IsState(st, 5) && IsEmission(em) && IsState(r, 5)
    requires Diagram5(tp) && Shape5(st) && SafeStep(tp, em, st)
    requires var p := Picks5(tp, em, st); forall i :: 0 <= i < 5 ==> r.score[i] == p[i].scr
    requires r.out == ExitSet(st, st.score[3] + em[3] > WORST_SCORE, Exit5(tp, em, st)).out
    requires r.best == Best5(tp, em, st)
    ensures BestOf(r)
  {
    hide Exit5;
    var p := Picks5(tp, em, st);
    assert Arc(tp, 1, 1) && Arc(tp, 2, 2) && Arc(tp, 3, 3);
    assert Alive(st, 1) ==> Cand(tp, em, st, 1, 1) > WORST_SCORE;
    assert Alive(st, 2) ==> Cand(tp, em, st, 2, 2) > WORST_SCORE;
    assert Alive(st, 3) ==> Cand(tp, em, st, 3, 3) > WORST_SCORE;
    assert r.best > WORST_SCORE ==> r.best == r.out || r.best == r.score[0] || r.best == r.score[1]
                                    || r.best == r.score[2] || r.best == r.score[3] || r.best == r.score[4];
  }

  lemma Shape5Kept(tp: Tmat, em: seq<int>, st: HmmState, r: HmmState)
    requires |em| == 5 && IsTmat(tp, 5) && IsState(st, 5) && IsState(r, 5) && IsEmission(em)
    requires Diagram5(tp) && Shape5(st) && SafeStep(tp, em, st)
    requires forall to :: 0 <= to < 5 ==> BestInto(tp, em, st, to, r.score[to], r.hist[to])
    requires BestInto(tp, em, st, 5, r.out, r.outHist)
    ensures Shape5(r)
  {
    hide BestInto;
    forall s | 0 <= s < 5 && Alive(r, s) ensures exists from :: 0 <= from <= s && s <= from + 2 && Alive(st, from) {
      var from := Source5(tp, em, st, s, r.score[s], r.hist[s]);
    }
    forall from, to | 0 <= from < 5 && from <= to < 5 && to <= from + 2 && Alive(st, from) ensures Alive(r, to) {
      Target5(tp, em, st, from, to, r.score[to], r.hist[to]);
    }
    if r.out > WORST_SCORE {
      var from := Source5(tp, em, st, 5, r.out, r.outHist);
      assert from == 3 || from == 4;
    }
  }

  /** In the 5-state diagram a live score comes from at most two states below. */
  lemma Source5(tp: Tmat, em: seq<int>, st: HmmState, to: nat, scr: int, h: int) returns (from: nat)
    requires |em| == 5 && IsTmat(tp, 5) && IsState(st, 5) && IsEmission(em) && Diagram5(tp) && to <= 5
    requires BestInto(tp, em, st, to, scr, h) && scr > WORST_SCORE
    ensures from <= to <= from + 2 && from < 5 && Alive(st, from)
  {
    from :| 0 <= from < 5 && Arc(tp, from, to) && Cand(tp, em, st, from, to) == scr;
    assert 0 <= tp[from][to] <= 255;
  }

  lemma Target5(tp: Tmat, em: seq<int>, st: HmmState, from: nat, to: nat, scr: int, h: int)
    requires |em| == 5 && IsTmat(tp, 5) && IsState(st, 5) && Diagram5(tp) && SafeStep(tp, em, st)
    requires from <= to <= from + 2 && to < 5 && Alive(st, from) && BestInto(tp, em, st, to, scr, h)
    ensures scr > WORST_SCORE
  {
    assert Arc(tp, from, to) && Cand(tp, em, st, from, to) > WORST_SCORE;
  }

  // ---- whole runs

  lemma StepKind(kind: Kind, tp: Tmat, em: seq<int>, st: HmmState)
    requires Fits(kind, |em|) && IsTmat(tp, |em|) && IsState(st, |em|) && IsEmission(em)
    requires Covered(kind, tp) && Shape(kind, st) && SafeStep(tp, em, st)
    ensures StepOptimal(tp, em, st, EvalKind(kind, tp, em, st)) && Shape(kind, EvalKind(kind, tp, em, st))
  {
    match kind
    case Generic => AnyStepOptimal(tp, em, false, st);
    case Plain3 => Step3(tp, em, st);
    case Plain5 => Step5(tp, em, st);
  }

  lemma EnterKeepsShape(kind: Kind, v: int, h: int, f: int, st: HmmState, n: nat)
    requires Fits(kind, n) && IsState(st, n) && Shape(kind, st) && v > WORST_SCORE
    ensures Shape(kind, Entered(st, v, h, f))
  {
  }

  /** Viterbi optimality of every evaluator on the matrices it covers. */
  lemma {:induction false} CoveredIsOptimal(kind: Kind, tp: Tmat, run: Run)
    requires IsTmat(tp, |tp|) && Fits(kind, |tp|) && Covered(kind, tp)
    requires IsRun(run, |tp|) && NoFloor(tp, run)
    ensures Optimal(tp, run, Exec(kind, tp, run)) && Shape(kind, Exec(kind, tp, run))
    decreases |run|
  {
    hide Optimal, Shape, EvalKind, StepOptimal, SafeStep;
    if run == [] {
      BlankOptimal(tp);
      BlankShape(kind, |tp|);
    } else {
      CoveredIsOptimal(kind, tp, Init(run));
      var st := Exec(kind, tp, Init(run));
      assert run == Init(run) + [Last(run)];
      match Last(run)
      case Enter(v, h, f) =>
        assert Trail(tp, run, Begin) && Score(tp, run, Begin) == v;
        EnterKeepsOptimal(tp, Init(run), v, h, f, st);
        EnterKeepsShape(kind, v, h, f, st, |tp|);
      case Eval(em) =>
        NoFloorIsSafe(tp, Init(run), em, st);
        StepKind(kind, tp, em, st);
        EvalKeepsOptimal(tp, Init(run), em, st, EvalKind(kind, tp, em, st));
    }
  }

  lemma BlankShape(kind: Kind, n: nat)
    requires Fits(kind, n)
    ensures Shape(kind, Blank(n))
  {
  }

  /** Where both are defined the unrolled evaluators refine the generic one: same live scores and exit. */
  lemma RefinesGeneric(kind: Kind, tp: Tmat, run: Run)
    requires IsTmat(tp, |tp|) && Fits(kind, |tp|) && Covered(kind, tp)
    requires IsRun(run, |tp|) && NoFloor(tp, run)
    ensures var a, b := Exec(kind, tp, run), Exec(Generic, tp, run);
      && (forall s :: 0 <= s < |tp| ==> Max(a.score[s], WORST_SCORE) == Max(b.score[s], WORST_SCORE))
      && Max(a.out, WORST_SCORE) == Max(b.out, WORST_SCORE)
      && (run != [] && Last(run).Eval? ==> Max(a.best, WORST_SCORE) == Max(b.best, WORST_SCORE))
  {
    CoveredIsOptimal(kind, tp, run);
    ViterbiOptimal(tp, run);
    OptimalUnique(tp, run, Exec(kind, tp, run), Exec(Generic, tp, run));
    if run != [] && Last(run).Eval? {
      BestAfterEval(kind, tp, run);
      BestAfterEval(Generic, tp, run);
      SameBest(Exec(kind, tp, run), Exec(Generic, tp, run));
    }
  }

  lemma BestAfterEval(kind: Kind, tp: Tmat, run: Run)
    requires IsTmat(tp, |tp|) && Fits(kind, |tp|) && Covered(kind, tp)
    requires IsRun(run, |tp|) && NoFloor(tp, run) && run != [] && Last(run).Eval?
    ensures BestOf(Exec(kind, tp, run))
  {
    CoveredIsOptimal(kind, tp, Init(run));
    assert run == Init(run) + [Last(run)];
    NoFloorIsSafe(tp, Init(run), Last(run).em, Exec(kind, tp, Init(run)));
    StepKind(kind, tp, Last(run).em, Exec(kind, tp, Init(run)));
  }

  lemma SameBest(a: HmmState, b: HmmState)
    requires BestOf(a) && BestOf(b) && |a.score| == |b.score|
    requires forall s :: 0 <= s < |a.score| ==> Max(a.score[s], WORST_SCORE) == Max(b.score[s], WORST_SCORE)
    requires Max(a.out, WORST_SCORE) == Max(b.out, WORST_SCORE)
    ensures Max(a.best, WORST_SCORE) == Max(b.best, WORST_SCORE)
  {
    if a.best > WORST_SCORE && a.best != a.out {
      var s :| 0 <= s < |a.score| && a.score[s] == a.best;
      assert b.score[s] == a.best;
    }
    if b.best > WORST_SCORE && b.best != b.out {
      var s :| 0 <= s < |b.score| && b.score[s] == b.best;
      assert a.score[s] == b.best;
    }
  }
}
