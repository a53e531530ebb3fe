/** Beams that are wide enough, read off the models: with them the search is exact. */
module FsgBeams {
  import opened Hmm
  import opened HmmOptimal
  import opened HmmUnrolled
  import opened Fsg
  import opened FsgStep
  import opened FsgSound
  import opened FsgFlow
  import opened FsgAligns
  import opened FsgOptimal
  import opened FsgBest

  /** What a frame can cost at most: a senone score and a transition. */
  const FRAME_COST: int := 32767 + 255

  /** Word, phone and null scores are costs of at most `most`. */
  predicate Costs(k: Task, most: nat) {
    && (forall i :: 0 <= i < |k.lt.nodes| ==> 0 <= most + k.lt.nodes[i].logs2prob <= most)
    && forall s, i :: 0 <= s < |k.g.arcs| && 0 <= i < |k.g.arcs[s]| ==> 0 <= most + ShiftedProb(k.g.arcs[s][i]) <= most
  }

  /** No alignment of t frames scores less. */
  function Lowest(t: nat, most: nat): int {
    -(t * (FRAME_COST + 2 * most)) - 2 * most
  }

  /** Beams that let every such score pass and keep the thresholds above the floor. */
  predicate BeamsPass(k: Task, most: nat) {
    var low := Lowest(|k.u.frames|, most);
    && low > WORST_SCORE && k.u.beam < low && k.u.wbeam <= low
    && forall n :: 0 <= n < |k.u.frames| ==>
         && k.u.frames[n].beam < low
         && WORST_SCORE - low < k.u.frames[n].pbeam < low && WORST_SCORE - low < k.u.frames[n].wbeam < low
  }

  /** How many word, phone and null scores have been added since the last frame. */
  function Since(a: Align): nat {
    match a
    case Word(_, _) => 2
    case Down(_, _) => 1
    case Null(_, _) => 1
    case _ => 0
  }

  lemma {:induction false} TotalBounds(k: Task, most: nat, a: Align)
    requires IsTask(k) && Costs(k, most) && Valid(k, a)
    ensures -(Time(a) * (FRAME_COST + 2 * most)) - Since(a) * most <= Total(k, a) <= 0
  {
    if !a.Root? {
      TotalBounds(k, most, a.prev);
      hide IsTask, Costs;
      if a.Spend? || a.Leave? {
        SpentTotal(k, a);
        SpentBounds(k, a.prev, if a.Spend? then a.state else k.lt.nEmit);
        FrameMore(Time(a.prev), FRAME_COST + 2 * most, Since(a.prev), most);
      } else {
        AddedBounds(k, most, a);
      }
    }
  }

  /** One more frame has room for what was added before it. */
  lemma FrameMore(t: nat, cost: nat, since: nat, most: nat)
    requires since <= 2 && cost == FRAME_COST + 2 * most
    ensures (t + 1) * cost == t * cost + cost && since * most <= 2 * most
  {
  }

  lemma SpentBounds(k: Task, p: Align, to: nat)
    requires IsTask(k) && CanSpend(k, p, to)
    ensures -FRAME_COST <= Spent(k, p, to) <= 0
  {
    EmBounds(k, Time(p), NodeOf(p));
    NodeFacts(k, NodeOf(p));
  }

  /** A word, a child or a null transition adds one score, an exit none. */
  lemma AddedBounds(k: Task, most: nat, a: Align)
    requires IsTask(k) && Costs(k, most) && Valid(k, a) && !a.Root? && !a.Spend? && !a.Leave?
    requires -(Time(a.prev) * (FRAME_COST + 2 * most)) - Since(a.prev) * most <= Total(k, a.prev) <= 0
    ensures -(Time(a) * (FRAME_COST + 2 * most)) - Since(a) * most <= Total(k, a) <= 0
  {
    hide IsTask;
    assert 2 * most == most + most && 1 * most == most && 0 * most == 0;
  }

  lemma AboveLowest(k: Task, most: nat, a: Align)
    requires IsTask(k) && Costs(k, most) && Valid(k, a) && Time(a) <= |k.u.frames|
    ensures Lowest(|k.u.frames|, most) <= Total(k, a) <= 0
  {
    hide IsTask, Costs, Valid, Total;
    TotalBounds(k, most, a);
    MoreFrames(Time(a), |k.u.frames|, FRAME_COST + 2 * most);
    assert Since(a) * most <= 2 * most by { FrameMore(0, FRAME_COST + 2 * most, Since(a), most); }
  }

  lemma {:induction false} MoreFrames(t: nat, n: nat, cost: nat)
    requires t <= n
    ensures t * cost <= n * cost
  {
    if t < n {
      MoreFrames(t, n - 1, cost);
      assert n * cost == (n - 1) * cost + cost;
    }
  }

  lemma BeamsKeepLive(k: Task, most: nat, n: nat)
    requires IsTask(k) && Costs(k, most) && BeamsPass(k, most) && n <= |k.u.frames|
    ensures AllLive(k, n)
  {
    hide IsTask, Costs, Valid, Total;
    forall a | Valid(k, a) && Time(a) <= n ensures Total(k, a) > WORST_SCORE {
      AboveLowest(k, most, a);
    }
  }

  /** The alignments on the way spend every frame. */
  lemma SpentAt(k: Task, a: Align, t: nat) returns (b: Align)
    requires IsTask(k) && Valid(k, a) && 1 <= t <= Time(a)
    ensures Valid(k, b) && (b.Spend? || b.Leave?) && Time(b) == t
  {
    hide IsTask;
    if (a.Spend? || a.Leave?) && Time(a) == t {
      b := a;
    } else {
      b := SpentAt(k, a.prev, t);
    }
  }

  /** The best score of a frame. */
  function Best(k: Task, n: nat): int
    requires IsTask(k) && n < |k.u.frames|
  {
    Evaluated(k.g, k.lt, At(k, n), k.u.frames[n]).1
  }

  lemma BestIs(k: Task, n: nat)
    requires IsTask(k) && n < |k.u.frames| && ActiveExact(At(k, n)) && At(k, n).active != []
    ensures NodesFit(k.lt, At(k, n).active)
    ensures BestOfThese(EvH(k, n), At(k, n).active, WORST_SCORE, Best(k, n))
  {
    hide ActiveExact, BestOfThese, IsPnode, IsCovered, EvalFrom;
    ActiveNoDup(At(k, n));
    EvalFromBest(k.g, k.lt, k.u.frames[n], At(k, n).hmms, WORST_SCORE, At(k, n).active);
  }

  /** The best score a node reports is that of an alignment that spends the frame in it. */
  lemma ReportedBest(k: Task, n: nat, i: nat) returns (a: Align)
    requires IsTask(k) && n < |k.u.frames| && AllLive(k, n + 1) && BestBefore(k, At(k, n), n)
    requires i in At(k, n).active && i < |k.lt.nodes| && EvH(k, n)[i].best > WORST_SCORE
    ensures Valid(k, a) && Time(a) == n + 1 && Total(k, a) == EvH(k, n)[i].best
  {
    hide IsTask, AllLive, At, BestBefore, EvH, Back, BestInto, Shape, Valid, Total;
    NodeStep(k, n, i);
    var r, from := EvH(k, n)[i], 0;
    if r.best == r.out {
      a, from := EvSource(k, n, i, k.lt.nEmit);
    } else {
      var to :| 0 <= to < |r.score| && r.score[to] == r.best;
      a, from := EvSource(k, n, i, to);
    }
  }

  lemma BestBounds(k: Task, most: nat, n: nat, b: Align)
    requires IsTask(k) && Costs(k, most) && BeamsPass(k, most) && n < |k.u.frames| && BestBefore(k, At(k, n), n)
    requires Valid(k, b) && (b.Spend? || b.Leave?) && Time(b) == n + 1
    ensures Lowest(|k.u.frames|, most) <= Best(k, n) <= 0
  {
    hide IsTask, Costs, BeamsPass, AllLive, At, Shapes, UpperIn, AttainedIn, Valid, Total, EvH, Best, Lowest;
    BeamsKeepLive(k, most, n + 1);
    EvUpper(k, n, b);
    AboveLowest(k, most, b);
    BestIs(k, n);
    if Best(k, n) > WORST_SCORE {
      var i :| i in At(k, n).active && i < |EvH(k, n)| && EvH(k, n)[i].best == Best(k, n);
      var a := ReportedBest(k, n, i);
      AboveLowest(k, most, a);
    }
  }

  /** The thresholds of a frame. */
  lemma LimitsAre(k: Task, n: nat)
    requires IsTask(k) && n < |k.u.frames|
    ensures var f, best := k.u.frames[n], Best(k, n);
      Limits(k, n) == Thresholds(best + f.beam, best + f.pbeam, best + f.wbeam)
  {
    hide IsTask, At, Evaluated;
  }

  lemma FramePasses(k: Task, most: nat, n: nat, b: Align)
    requires IsTask(k) && Costs(k, most) && BeamsPass(k, most) && n < |k.u.frames| && BestBefore(k, At(k, n), n)
    requires Valid(k, b) && (b.Spend? || b.Leave?) && Time(b) == n + 1
    ensures PassesAt(k, n)
  {
    hide IsTask, Costs, BestBefore, At, Valid, Total, Best, Limits, Lowest;
    BestBounds(k, most, n, b);
    LimitsAre(k, n);
    forall a | Valid(k, a) && Time(a) == n + 1
      ensures Total(k, a) > Limits(k, n).main && Total(k, a) > Limits(k, n).phone && Total(k, a) > Limits(k, n).word
    {
      AboveLowest(k, most, a);
    }
  }

  lemma StartPasses(k: Task, most: nat)
    requires IsTask(k) && Costs(k, most) && BeamsPass(k, most)
    ensures PassesStart(k)
  {
    hide IsTask, Costs, Valid, Total, Lowest;
    forall a | Valid(k, a) && Time(a) == 0
      ensures Total(k, a) > WORST_SCORE
      ensures (a.Null? ==> Total(k, a) >= k.u.wbeam) && (a.Word? ==> Total(k, a) > k.u.beam)
    {
      AboveLowest(k, most, a);
    }
  }

  /** Such beams prune nothing, as long as some alignment lasts to the end of the utterance. */
  lemma {:induction false} BeamsAreWide(k: Task, most: nat, last: Align, n: nat)
    requires IsTask(k) && Costs(k, most) && BeamsPass(k, most) && n <= |k.u.frames|
    requires Valid(k, last) && Time(last) == |k.u.frames|
    ensures Wide(k, n)
    decreases n
  {
    hide IsTask, Costs, BeamsPass, Valid, PassesStart, PassesAt, At, BestBefore;
    if n == 0 {
      StartPasses(k, most);
    } else {
      BeamsAreWide(k, most, last, n - 1);
      RunIsBest(k, n - 1);
      var b := SpentAt(k, last, n);
      FramePasses(k, most, n - 1, b);
    }
  }
}
