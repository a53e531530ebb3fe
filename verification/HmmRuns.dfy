/** Runs of plain records over raw frames of senone scores: what hmm_senscr is to read for each state. */
module HmmRuns {
  import opened Hmm
  import opened HmmOptimal
  import opened HmmUnrolled

  /** What befalls a plain record after hmm_init: clearing, entries, and frames of senone scores. */
  datatype PlainEvent = Reset | Entry(score: int, hist: int, frame: int) | Frame(senscore: seq<int>)

  predicate IsPlainEvent(e: PlainEvent, senid: seq<int>) {
    e.Frame? ==>
      && |e.senscore| <= BAD_SSID && (forall i :: 0 <= i < |e.senscore| ==> 0 <= e.senscore[i] <= 32767)
      && forall s :: 0 <= s < |senid| ==> 0 <= senid[s] < |e.senscore|
  }

  predicate IsPlainRun(run: seq<PlainEvent>, senid: seq<int>) {
    forall i :: 0 <= i < |run| ==> IsPlainEvent(run[i], senid)
  }

  /** The score each state adds in a frame: that of its own senone. */
  function Read(senid: seq<int>, senscore: seq<int>): (em: seq<int>)
    requires IsPlainEvent(Frame(senscore), senid)
    ensures |em| == |senid| && IsEmission(em)
  {
    seq(|senid|, s requires 0 <= s < |senid| => -senscore[senid[s]])
  }

  /** The entries and evaluations since the record was last cleared, with the scores read from each frame. */
  function RunOf(senid: seq<int>, run: seq<PlainEvent>): (r: Run)
    requires IsPlainRun(run, senid)
    ensures IsRun(r, |senid|)
  {
    if run == [] then []
    else
      var before := RunOf(senid, run[..|run| - 1]);
      match run[|run| - 1]
      case Reset => []
      case Entry(v, h, f) => before + [Enter(v, h, f)]
      case Frame(senscore) => before + [Eval(Read(senid, senscore))]
  }

  function Fresh(senid: seq<int>): (st: HmmState)
    ensures IsState(st, |senid|)
  {
    HmmState(seq(|senid|, _ => WORST_SCORE), seq(|senid|, _ => -1), senid, WORST_SCORE, -1, WORST_SCORE, -1)
  }

  /** The record after hmm_init and a run, as hmm_clear, hmm_enter and hmm_vit_eval leave it. */
  function RecordAfter(tp: Tmat, senid: seq<int>, run: seq<PlainEvent>): (st: HmmState)
    requires IsTmat(tp, |senid|) && IsPlainRun(run, senid)
    ensures IsState(st, |senid|)
  {
    if run == [] then Fresh(senid)
    else
      var st := RecordAfter(tp, senid, run[..|run| - 1]);
      match run[|run| - 1]
      case Reset => Cleared(st)
      case Entry(v, h, f) => if |senid| == 0 then st else Entered(st, v, h, f)
      case Frame(senscore) =>
        var em := Emissions(Context(senscore, []), false, senid);
        VitEval(tp, em, false, st)
  }

  /** While no path reaches the floor, or whatever happens when the generic evaluator is used. */
  ghost predicate ClearOfFloor(tp: Tmat, senid: seq<int>, run: seq<PlainEvent>)
    requires IsTmat(tp, |senid|) && IsPlainRun(run, senid)
  {
    KindOf(|senid|).Generic? || forall k: nat :: k <= |run| ==> ClearAt(tp, senid, run, k)
  }

  ghost predicate ClearAt(tp: Tmat, senid: seq<int>, run: seq<PlainEvent>, k: nat)
    requires IsTmat(tp, |senid|) && IsPlainRun(run, senid) && k <= |run|
  {
    NoFloor(tp, RunOf(senid, run[..k]))
  }

  lemma ClearBefore(tp: Tmat, senid: seq<int>, run: seq<PlainEvent>)
    requires IsTmat(tp, |senid|) && IsPlainRun(run, senid) && run != [] && ClearOfFloor(tp, senid, run)
    ensures ClearOfFloor(tp, senid, run[..|run| - 1])
  {
    hide NoFloor;
    var before := run[..|run| - 1];
    if !KindOf(|senid|).Generic? {
      forall k: nat | k <= |before| ensures ClearAt(tp, senid, before, k) {
        assert before[..k] == run[..k];
        assert ClearAt(tp, senid, run, k);
      }
    }
  }

  /** The senone ids of a plain record never change. */
  lemma IdsStay(tp: Tmat, em: seq<int>, st: HmmState)
    requires IsTmat(tp, |em|) && IsState(st, |em|)
    ensures VitEval(tp, em, false, st).ssid == st.ssid
  {
    hide EvalAny;
    if |em| != 3 && |em| != 5 {
      EvalAnyApplied(tp, em, false, st);
    }
  }

  lemma ClearedOptimal(tp: Tmat, st: HmmState)
    requires IsTmat(tp, |tp|) && IsState(st, |tp|)
    ensures Optimal(tp, [], Cleared(st)) && Cleared(st).ssid == st.ssid
  {
  }

  /** hmm_init and any run over raw frames: in every state and on the way out the record holds the maximum over
      all state paths since it was last cleared, a path scoring its entry, the scores of its states' own
      senones and its transitions; and it holds the history of a maximising path. */
  lemma {:induction false} RecordIsOptimal(tp: Tmat, senid: seq<int>, run: seq<PlainEvent>)
    requires IsTmat(tp, |senid|) && |senid| > 0 && IsPlainRun(run, senid)
    requires Covered(KindOf(|senid|), tp) && ClearOfFloor(tp, senid, run)
    ensures RecordAfter(tp, senid, run).ssid == senid
    ensures Optimal(tp, RunOf(senid, run), RecordAfter(tp, senid, run))
    ensures Shape(KindOf(|senid|), RecordAfter(tp, senid, run))
    decreases |run|
  {
    hide Optimal, Shape, VitEval, Covered, NoFloor, ClearOfFloor, Emissions, Read;
    if run == [] {
      ClearedOptimal(tp, Fresh(senid));
      assert Cleared(Fresh(senid)) == Fresh(senid);
      FreshShape(senid);
    } else {
      var m := |run| - 1;
      ClearBefore(tp, senid, run);
      RecordIsOptimal(tp, senid, run[..m]);
      var st, r := RecordAfter(tp, senid, run[..m]), RunOf(senid, run[..m]);
      match run[m]
      case Reset =>
        ClearedOptimal(tp, st);
        ClearedShape(senid, st);
      case Entry(v, h, f) =>
        EnterKeepsOptimal(tp, r, v, h, f, st);
        EnterShape(tp, senid, run, st);
      case Frame(senscore) => FrameIsOptimal(tp, senid, run, senscore, st);
    }
  }

  lemma FreshShape(senid: seq<int>)
    requires |senid| > 0
    ensures Shape(KindOf(|senid|), Fresh(senid))
  {
  }

  lemma ClearedShape(senid: seq<int>, st: HmmState)
    requires IsState(st, |senid|) && |senid| > 0
    ensures Shape(KindOf(|senid|), Cleared(st))
  {
  }

  lemma EnterShape(tp: Tmat, senid: seq<int>, run: seq<PlainEvent>, st: HmmState)
    requires IsTmat(tp, |senid|) && |senid| > 0 && IsPlainRun(run, senid) && run != [] && run[|run| - 1].Entry?
    requires ClearOfFloor(tp, senid, run) && IsState(st, |senid|) && Shape(KindOf(|senid|), st)
    ensures var e := run[|run| - 1]; Shape(KindOf(|senid|), Entered(st, e.score, e.hist, e.frame))
  {
    if !KindOf(|senid|).Generic? {
      assert ClearAt(tp, senid, run, |run|) && run[..|run|] == run;
      var r, e := RunOf(senid, run), run[|run| - 1];
      assert Last(r) == Enter(e.score, e.hist, e.frame);
      assert Trail(tp, r, Begin) && Score(tp, r, Begin) == e.score;
      EnterKeepsShape(KindOf(|senid|), e.score, e.hist, e.frame, st, |senid|);
    }
  }

  /** hmm_senscr reads the score of the state's own senone. */
  lemma ReadsOwn(senid: seq<int>, senscore: seq<int>)
    requires IsPlainEvent(Frame(senscore), senid)
    ensures IdsOk(Context(senscore, []), false, senid)
    ensures Emissions(Context(senscore, []), false, senid) == Read(senid, senscore)
  {
  }

  lemma FrameIsOptimal(tp: Tmat, senid: seq<int>, run: seq<PlainEvent>, senscore: seq<int>, st: HmmState)
    requires IsTmat(tp, |senid|) && |senid| > 0 && IsPlainRun(run, senid) && run != []
    requires run[|run| - 1] == Frame(senscore) && IsState(st, |senid|) && st.ssid == senid
    requires Covered(KindOf(|senid|), tp) && ClearOfFloor(tp, senid, run) && Shape(KindOf(|senid|), st)
    requires Optimal(tp, RunOf(senid, run[..|run| - 1]), st)
    ensures var r := VitEval(tp, Emissions(Context(senscore, []), false, senid), false, st);
      r.ssid == senid && Optimal(tp, RunOf(senid, run), r) && Shape(KindOf(|senid|), r)
  {
    hide Optimal, Shape, EvalAny, Eval3, Eval5, NoFloor, Covered, StepOptimal, SafeStep, Emissions, Read;
    var kind, em, before := KindOf(|senid|), Read(senid, senscore), RunOf(senid, run[..|run| - 1]);
    ReadsOwn(senid, senscore);
    IdsStay(tp, em, st);
    assert RunOf(senid, run) == before + [Eval(em)];
    if kind.Generic? {
      GenericShape(st);
      GenericShape(EvalAny(tp, em, false, st));
      AnyStepOptimal(tp, em, false, st);
    } else {
      assert ClearAt(tp, senid, run, |run|) && run[..|run|] == run;
      NoFloorIsSafe(tp, before, em, st);
      StepKind(kind, tp, em, st);
    }
    EvalKeepsOptimal(tp, before, em, st, VitEval(tp, em, false, st));
  }

  lemma GenericShape(st: HmmState)
    ensures Shape(Generic, st)
  {
  }
}
