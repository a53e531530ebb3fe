/** What the evaluators of src/hmm.c compute: after any run of hmm_enter and evaluation from hmm_clear,
    every state and the exit hold the best score over all state paths and the history entered at the
    start of a best path.  The generic evaluator does so on every transition matrix; when the unrolled ones
    do is in HmmUnrolled.dfy and HmmExact.dfy. */
module HmmOptimal {
  import opened Hmm

  // ---- one evaluation

  /** Transitions go left to right; column |tp| is the exit. */
  predicate Arc(tp: Tmat, from: nat, to: nat)
    requires IsTmat(tp, |tp|) && from < |tp| && to <= |tp|
  {
    from <= to && Present(tp, from, to)
  }

  function Cand(tp: Tmat, em: seq<int>, st: HmmState, from: nat, to: nat): int
    requires IsTmat(tp, |em|) && IsState(st, |em|) && from < |em| && to <= |em|
  {
    st.score[from] + em[from] - tp[from][to]
  }

  predicate IsEmission(em: seq<int>) {
    forall i :: 0 <= i < |em| ==> -32767 <= em[i] <= 0
  }

  predicate NonPositive(em: seq<int>) {
    forall i :: 0 <= i < |em| ==> em[i] <= 0
  }

  /** (scr, h) is the best way into `to`: no transition scoring above WORST_SCORE beats it, and when it
      is itself above WORST_SCORE some transition attains it and brings that history along. */
  ghost predicate BestInto(tp: Tmat, em: seq<int>, st: HmmState, to: nat, scr: int, h: int)
    requires IsTmat(tp, |em|) && IsState(st, |em|) && to <= |em|
  {
    && (forall from :: 0 <= from < |em| && Arc(tp, from, to) ==>
         Cand(tp, em, st, from, to) <= Max(scr, WORST_SCORE))
    && (scr > WORST_SCORE ==>
         exists from :: (0 <= from < |em| && Arc(tp, from, to)
                         && Cand(tp, em, st, from, to) == scr && st.hist[from] == h))
  }

  /** The reported best score is the best of the state scores and the exit score. */
  ghost predicate BestOf(st: HmmState) {
    && (forall i :: 0 <= i < |st.score| ==> st.score[i] <= Max(st.best, WORST_SCORE))
    && st.out <= Max(st.best, WORST_SCORE)
    && (st.best > WORST_SCORE ==> st.best == st.out || st.best in st.score)
  }

  ghost predicate StepOptimal(tp: Tmat, em: seq<int>, st: HmmState, r: HmmState)
    requires IsTmat(tp, |em|) && IsState(st, |em|)
  {
    && IsState(r, |em|)
    && (forall to :: 0 <= to < |em| ==> BestInto(tp, em, st, to, r.score[to], r.hist[to]))
    && BestInto(tp, em, st, |em|, r.out, r.outHist)
    && BestOf(r)
  }

  lemma {:induction false} ScanBest(tp: Tmat, ss: seq<int>, to: nat, k: nat, p: Pick)
    requires IsTmat(tp, |ss|) && to <= |ss| && k <= |ss| && IsPick(p, |ss|)
    ensures var r := Scan(tp, ss, to, k, p);
      && p.scr <= r.scr
      && (forall from :: 0 <= from < k && Present(tp, from, to) ==> ss[from] - tp[from][to] <= r.scr)
      && (r == p || (0 <= r.from < k && Present(tp, r.from, to) && r.scr == ss[r.from] - tp[r.from][to]))
    decreases k
  {
    if k > 0 {
      ScanBest(tp, ss, to, k - 1,
               if Present(tp, k - 1, to) && ss[k - 1] - tp[k - 1][to] > p.scr
               then Pick(ss[k - 1] - tp[k - 1][to], k - 1) else p);
    }
  }

  lemma {:induction false} MaxSeqIsMax(s: seq<int>, init: int)
    ensures init <= MaxSeq(s, init) && forall i :: 0 <= i < |s| ==> s[i] <= MaxSeq(s, init)
    ensures MaxSeq(s, init) == init || MaxSeq(s, init) in s
  {
    if s != [] {
      MaxSeqIsMax(s[1..], init);
      assert forall i :: 1 <= i < |s| ==> s[i] == s[1..][i - 1];
    }
  }

  lemma AnyPickFromBelow(tp: Tmat, ss: seq<int>)
    requires IsTmat(tp, |ss|)
    ensures FromBelow(AnyPicks(tp, ss))
  {
    forall to | 0 <= to < |ss| ensures AnyPick(tp, ss, to).from <= to {
      ScanBest(tp, ss, to, to, SelfPick(tp, ss, to));
    }
  }

  lemma EvalAnyApplied(tp: Tmat, em: seq<int>, mpx: bool, st: HmmState)
    requires IsTmat(tp, |em|) && IsState(st, |em|)
    ensures var picks, o := AnyPicks(tp, SenStage(st.score, em)), AnyOut(tp, SenStage(st.score, em));
      EvalAny(tp, em, mpx, st) == Applied(st, mpx, picks, o.scr, AnyExitSet(st, o).outHist,
                                          MaxSeq(Scores(picks), o.scr))
  {
    var ss := SenStage(st.score, em);
    AnyPickFromBelow(tp, ss);
    InPlaceIsSimultaneous(AnyExitSet(st, AnyOut(tp, ss)), mpx, AnyPicks(tp, ss), 0);
  }

  lemma BestIntoState(tp: Tmat, em: seq<int>, st: HmmState, to: nat)
    requires IsTmat(tp, |em|) && IsState(st, |em|) && to < |em| && NonPositive(em)
    ensures var p := AnyPick(tp, SenStage(st.score, em), to);
      BestInto(tp, em, st, to, p.scr, Kept(st.hist, p, to))
  {
    var ss := SenStage(st.score, em);
    ScanBest(tp, ss, to, to, SelfPick(tp, ss, to));
    var p := AnyPick(tp, ss, to);
    if p.scr > WORST_SCORE {
      var from := if p.from >= 0 then p.from else to;
      assert Arc(tp, from, to) && Cand(tp, em, st, from, to) == p.scr;
    }
  }

  lemma BestIntoExit(tp: Tmat, em: seq<int>, st: HmmState)
    requires IsTmat(tp, |em|) && IsState(st, |em|) && NonPositive(em)
    ensures var o := AnyOut(tp, SenStage(st.score, em));
      BestInto(tp, em, st, |em|, o.scr, AnyExitSet(st, o).outHist)
  {
    var ss := SenStage(st.score, em);
    ScanBest(tp, ss, |em|, |em|, Pick(WORST_SCORE, -1));
    var o := AnyOut(tp, ss);
    if o.scr > WORST_SCORE {
      assert Arc(tp, o.from, |em|) && Cand(tp, em, st, o.from, |em|) == o.scr;
    }
  }

  /** The generic evaluator takes one optimal step, whatever the matrix and the scores. */
  lemma AnyStepOptimal(tp: Tmat, em: seq<int>, mpx: bool, st: HmmState)
    requires IsTmat(tp, |em|) && IsState(st, |em|) && NonPositive(em)
    ensures StepOptimal(tp, em, st, EvalAny(tp, em, mpx, st))
  {
    hide Scan, SetDown, MaxSeq;
    EvalAnyApplied(tp, em, mpx, st);
    var ss := SenStage(st.score, em);
    var picks, o := AnyPicks(tp, ss), AnyOut(tp, ss);
    var r := EvalAny(tp, em, mpx, st);
    forall to | 0 <= to < |em| ensures BestInto(tp, em, st, to, r.score[to], r.hist[to]) {
      BestIntoState(tp, em, st, to);
      assert picks[to] == AnyPick(tp, ss, to);
    }
    BestIntoExit(tp, em, st);
    MaxSeqIsMax(Scores(picks), o.scr);
  }

  // ---- runs and the state paths through them

  datatype Event = Enter(score: int, hist: int, frame: int) | Eval(em: seq<int>)
  type Run = seq<Event>

  predicate IsRun(run: Run, n: nat) {
    forall i :: 0 <= i < |run| && run[i].Eval? ==> |run[i].em| == n && IsEmission(run[i].em)
  }

  function Init(run: Run): Run
    requires run != []
  {
    run[..|run| - 1]
  }

  function Last(run: Run): Event
    requires run != []
  {
    run[|run| - 1]
  }

  datatype Kind = Generic | Plain3 | Plain5

  predicate Fits(kind: Kind, n: nat) {
    n > 0 && (kind == Plain3 ==> n == 3) && (kind == Plain5 ==> n == 5)
  }

  function EvalKind(kind: Kind, tp: Tmat, em: seq<int>, st: HmmState): (r: HmmState)
    requires Fits(kind, |em|) && IsTmat(tp, |em|) && IsState(st, |em|)
    ensures IsState(r, |em|)
  {
    match kind
    case Generic => EvalAny(tp, em, false, st)
    case Plain3 => Eval3(tp, em, st)
    case Plain5 => Eval5(tp, em, st)
  }

  function Blank(n: nat): (r: HmmState)
    ensures IsState(r, n)
  {
    HmmState(seq(n, _ => WORST_SCORE), seq(n, _ => -1), seq(n, _ => 0), WORST_SCORE, -1, WORST_SCORE, -1)
  }

  /** The record after a run that starts with hmm_clear. */
  function Exec(kind: Kind, tp: Tmat, run: Run): (r: HmmState)
    requires IsTmat(tp, |tp|) && Fits(kind, |tp|) && IsRun(run, |tp|)
    ensures IsState(r, |tp|)
    decreases |run|
  {
    if run == [] then Blank(|tp|)
    else
      var st := Exec(kind, tp, Init(run));
      match Last(run)
      case Enter(v, h, f) => Entered(st, v, h, f)
      case Eval(em) => EvalKind(kind, tp, em, st)
  }

  /** A state path: it begins in state 0 at some hmm_enter and makes one move at every evaluation after it. */
  datatype Path = Begin | Move(prev: Path, state: nat)

  function End(p: Path): nat {
    if p.Begin? then 0 else p.state
  }

  /** The path is one the run offers: hmm_enter replaces whatever path was in state 0. */
  ghost predicate Trail(tp: Tmat, run: Run, p: Path)
    requires IsTmat(tp, |tp|) && IsRun(run, |tp|)
    decreases |run|
  {
    run != [] && match Last(run)
      case Enter(v, h, f) => p.Begin? || (End(p) != 0 && Trail(tp, Init(run), p))
      case Eval(em) => p.Move? && p.state < |tp| && End(p.prev) < |tp| && Trail(tp, Init(run), p.prev)
                       && Arc(tp, End(p.prev), p.state)
  }

  function Score(tp: Tmat, run: Run, p: Path): int
    requires IsTmat(tp, |tp|) && IsRun(run, |tp|)
    decreases |run|
  {
    if run == [] then 0
    else match Last(run)
      case Enter(v, h, f) => if p.Begin? then v else Score(tp, Init(run), p)
      case Eval(em) =>
        if p.Move? && p.state < |tp| && End(p.prev) < |tp| then
          Score(tp, Init(run), p.prev) + em[End(p.prev)] - tp[End(p.prev)][p.state]
        else 0
  }

  function HistId(run: Run, p: Path): int
    decreases |run|
  {
    if run == [] then -1
    else match Last(run)
      case Enter(v, h, f) => if p.Begin? then h else HistId(Init(run), p)
      case Eval(em) => if p.Move? then HistId(Init(run), p.prev) else -1
  }

  /** A path whose score never touched the floor. */
  ghost predicate Live(tp: Tmat, run: Run, p: Path)
    requires IsTmat(tp, |tp|) && IsRun(run, |tp|)
    decreases |run|
  {
    && Trail(tp, run, p)
    && Score(tp, run, p) > WORST_SCORE
    && match Last(run)
       case Enter(v, h, f) => p.Begin? || Live(tp, Init(run), p)
       case Eval(em) => Live(tp, Init(run), p.prev)
  }

  /** A live path that then leaves through the exit at the latest evaluation of the run. */
  ghost predicate Leaves(tp: Tmat, run: Run, p: Path)
    requires IsTmat(tp, |tp|) && IsRun(run, |tp|)
    decreases |run|
  {
    run != [] && match Last(run)
      case Enter(v, h, f) => Leaves(tp, Init(run), p)
      case Eval(em) => End(p) < |tp| && Live(tp, Init(run), p) && Arc(tp, End(p), |tp|)
                       && LeaveScore(tp, run, p) > WORST_SCORE
  }

  function LeaveScore(tp: Tmat, run: Run, p: Path): int
    requires IsTmat(tp, |tp|) && IsRun(run, |tp|)
    decreases |run|
  {
    if run == [] then 0
    else match Last(run)
      case Enter(v, h, f) => LeaveScore(tp, Init(run), p)
      case Eval(em) => if End(p) < |tp| then Score(tp, Init(run), p) + em[End(p)] - tp[End(p)][|tp|] else 0
  }

  function LeaveHist(run: Run, p: Path): int
    decreases |run|
  {
    if run == [] then -1
    else match Last(run)
      case Enter(v, h, f) => LeaveHist(Init(run), p)
      case Eval(em) => HistId(Init(run), p)
  }

  ghost predicate OptimalAt(tp: Tmat, run: Run, s: nat, scr: int, h: int)
    requires IsTmat(tp, |tp|) && IsRun(run, |tp|)
  {
    && (forall p :: Live(tp, run, p) && End(p) == s ==> Score(tp, run, p) <= scr)
    && (scr > WORST_SCORE ==>
         exists p :: Live(tp, run, p) && End(p) == s && Score(tp, run, p) == scr && HistId(run, p) == h)
  }

  ghost predicate OptimalExit(tp: Tmat, run: Run, scr: int, h: int)
    requires IsTmat(tp, |tp|) && IsRun(run, |tp|)
  {
    && (forall p :: Leaves(tp, run, p) ==> LeaveScore(tp, run, p) <= scr)
    && (scr > WORST_SCORE ==>
         exists p :: Leaves(tp, run, p) && LeaveScore(tp, run, p) == scr && LeaveHist(run, p) == h)
  }

  /** Every state and the exit hold the maximum over all live paths (or nothing above WORST_SCORE when
      there is none), with the history of a maximising path. */
  ghost predicate Optimal(tp: Tmat, run: Run, st: HmmState)
    requires IsTmat(tp, |tp|) && IsRun(run, |tp|)
  {
    && IsState(st, |tp|)
    && (forall s :: 0 <= s < |tp| ==> OptimalAt(tp, run, s, st.score[s], st.hist[s]))
    && OptimalExit(tp, run, st.out, st.outHist)
  }

  lemma EnterKeepsOptimal(tp: Tmat, run: Run, v: int, h: int, f: int, st: HmmState)
    requires IsTmat(tp, |tp|) && |tp| > 0 && IsRun(run, |tp|) && Optimal(tp, run, st)
    ensures IsRun(run + [Enter(v, h, f)], |tp|)
    ensures Optimal(tp, run + [Enter(v, h, f)], Entered(st, v, h, f))
  {
    var run' := run + [Enter(v, h, f)];
    var r := Entered(st, v, h, f);
    assert Init(run') == run && Last(run') == Enter(v, h, f);
    forall s | 0 <= s < |tp| ensures OptimalAt(tp, run', s, r.score[s], r.hist[s]) {
      assert OptimalAt(tp, run, s, st.score[s], st.hist[s]);
      if s == 0 {
        if v > WORST_SCORE {
          assert Live(tp, run', Begin) && HistId(run', Begin) == h;
        }
      } else if st.score[s] > WORST_SCORE {
        var p :| Live(tp, run, p) && End(p) == s && Score(tp, run, p) == st.score[s] && HistId(run, p) == st.hist[s];
        assert Live(tp, run', p) && HistId(run', p) == st.hist[s];
      }
    }
    if st.out > WORST_SCORE {
      var p :| Leaves(tp, run, p) && LeaveScore(tp, run, p) == st.out && LeaveHist(run, p) == st.outHist;
      assert Leaves(tp, run', p) && LeaveHist(run', p) == st.outHist;
    }
  }

  /** A maximising path of a live state. */
  lemma Witness(tp: Tmat, run: Run, st: HmmState, s: nat) returns (p: Path)
    requires IsTmat(tp, |tp|) && IsRun(run, |tp|) && Optimal(tp, run, st) && s < |tp| && st.score[s] > WORST_SCORE
    ensures Live(tp, run, p) && Trail(tp, run, p) && End(p) == s
    ensures Score(tp, run, p) == st.score[s] && HistId(run, p) == st.hist[s]
  {
    assert OptimalAt(tp, run, s, st.score[s], st.hist[s]);
    p :| Live(tp, run, p) && End(p) == s && Score(tp, run, p) == st.score[s] && HistId(run, p) == st.hist[s];
  }

  lemma LiveAtMost(tp: Tmat, run: Run, st: HmmState, p: Path)
    requires IsTmat(tp, |tp|) && IsRun(run, |tp|) && Optimal(tp, run, st) && Live(tp, run, p) && End(p) < |tp|
    ensures Score(tp, run, p) <= st.score[End(p)]
  {
    assert OptimalAt(tp, run, End(p), st.score[End(p)], st.hist[End(p)]);
  }

  lemma EvalKeepsOptimalAt(tp: Tmat, run: Run, em: seq<int>, st: HmmState, s: nat, scr: int, h: int)
    requires IsTmat(tp, |tp|) && |em| == |tp| && IsEmission(em) && IsRun(run, |tp|) && IsState(st, |tp|)
      && Optimal(tp, run, st)
    requires s < |tp| && BestInto(tp, em, st, s, scr, h)
    ensures IsRun(run + [Eval(em)], |tp|)
    ensures OptimalAt(tp, run + [Eval(em)], s, scr, h)
  {
    hide Optimal;
    var run' := run + [Eval(em)];
    assert Init(run') == run && Last(run') == Eval(em);
    forall p | Live(tp, run', p) && End(p) == s ensures Score(tp, run', p) <= scr {
      var q := p.prev;
      LiveAtMost(tp, run, st, q);
      assert Score(tp, run', p) <= Cand(tp, em, st, End(q), s);
    }
    if scr > WORST_SCORE {
      var from :| 0 <= from < |em| && Arc(tp, from, s) && Cand(tp, em, st, from, s) == scr && st.hist[from] == h;
      var q := Witness(tp, run, st, from);
      var p := Move(q, s);
      assert Score(tp, run', p) == scr && HistId(run', p) == h;
      assert Live(tp, run', p);
    }
  }

  lemma EvalKeepsOptimalExit(tp: Tmat, run: Run, em: seq<int>, st: HmmState, scr: int, h: int)
    requires IsTmat(tp, |tp|) && |em| == |tp| && IsEmission(em) && IsRun(run, |tp|) && IsState(st, |tp|)
      && Optimal(tp, run, st)
    requires BestInto(tp, em, st, |tp|, scr, h)
    ensures IsRun(run + [Eval(em)], |tp|)
    ensures OptimalExit(tp, run + [Eval(em)], scr, h)
  {
    hide Optimal;
    var run' := run + [Eval(em)];
    assert Init(run') == run && Last(run') == Eval(em);
    forall q | Leaves(tp, run', q) ensures LeaveScore(tp, run', q) <= scr {
      LiveAtMost(tp, run, st, q);
      assert LeaveScore(tp, run', q) <= Cand(tp, em, st, End(q), |tp|);
    }
    if scr > WORST_SCORE {
      var from :| 0 <= from < |em| && Arc(tp, from, |tp|) && Cand(tp, em, st, from, |tp|) == scr && st.hist[from] == h;
      var q := Witness(tp, run, st, from);
      assert LeaveScore(tp, run', q) == scr && LeaveHist(run', q) == h && Leaves(tp, run', q);
    }
  }

  lemma EvalKeepsOptimal(tp: Tmat, run: Run, em: seq<int>, st: HmmState, r: HmmState)
    requires IsTmat(tp, |tp|) && |em| == |tp| && IsEmission(em) && IsRun(run, |tp|) && Optimal(tp, run, st)
    requires StepOptimal(tp, em, st, r)
    ensures IsRun(run + [Eval(em)], |tp|)
    ensures Optimal(tp, run + [Eval(em)], r)
  {
    forall s | 0 <= s < |tp| ensures OptimalAt(tp, run + [Eval(em)], s, r.score[s], r.hist[s]) {
      EvalKeepsOptimalAt(tp, run, em, st, s, r.score[s], r.hist[s]);
    }
    EvalKeepsOptimalExit(tp, run, em, st, r.out, r.outHist);
  }

  lemma BlankOptimal(tp: Tmat)
    requires IsTmat(tp, |tp|)
    ensures Optimal(tp, [], Blank(|tp|))
  {
  }

  /** Viterbi optimality of the generic evaluator over whole runs: no condition on the matrix, on the
      scores entered or on the floor. */
  lemma {:induction false} ViterbiOptimal(tp: Tmat, run: Run)
    requires IsTmat(tp, |tp|) && |tp| > 0 && IsRun(run, |tp|)
    ensures Optimal(tp, run, Exec(Generic, tp, run))
    decreases |run|
  {
    if run == [] {
      BlankOptimal(tp);
    } else {
      ViterbiOptimal(tp, Init(run));
      var st := Exec(Generic, tp, Init(run));
      assert run == Init(run) + [Last(run)];
      match Last(run)
      case Enter(v, h, f) => EnterKeepsOptimal(tp, Init(run), v, h, f, st);
      case Eval(em) =>
        AnyStepOptimal(tp, em, false, st);
        EvalKeepsOptimal(tp, Init(run), em, st, EvalAny(tp, em, false, st));
    }
  }

  /** Two records that are both optimal hold the same live scores. */
  lemma OptimalUnique(tp: Tmat, run: Run, a: HmmState, b: HmmState)
    requires IsTmat(tp, |tp|) && IsRun(run, |tp|) && Optimal(tp, run, a) && Optimal(tp, run, b)
    ensures forall s :: 0 <= s < |tp| ==> Max(a.score[s], WORST_SCORE) == Max(b.score[s], WORST_SCORE)
    ensures Max(a.out, WORST_SCORE) == Max(b.out, WORST_SCORE)
  {
    forall s | 0 <= s < |tp| ensures Max(a.score[s], WORST_SCORE) == Max(b.score[s], WORST_SCORE) {
      assert OptimalAt(tp, run, s, a.score[s], a.hist[s]) && OptimalAt(tp, run, s, b.score[s], b.hist[s]);
    }
    assert OptimalExit(tp, run, a.out, a.outHist) && OptimalExit(tp, run, b.out, b.outHist);
  }
}
