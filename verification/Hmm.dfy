/** Hidden Markov model records and their five Viterbi evaluators (src/hmm.c, src/hmm.h).

    An `Hmm` object is updated in place, high state to low.  Each evaluator is proved equal to a
    function on the abstract value `HmmState`; what those functions compute is proved in
    HmmOptimal.dfy (all state paths) and HmmRange.dfy (int32 range). */
module Hmm {
  const WORST_SCORE: int := -0x2000_0000
  const TMAT_WORST_SCORE: int := -255
  const INT_MIN: int := -0x8000_0000
  const BAD_SSID: int := 0xFFFF

  /** Transition costs, `tp[from][to]` being a negated log score held in a byte; column n is the exit. */
  type Tmat = seq<seq<int>>

  predicate IsTmat(tp: Tmat, n: nat) {
    && |tp| == n
    && (forall i :: 0 <= i < n ==> |tp[i]| == n + 1)
    && (forall i, j :: 0 <= i < n && 0 <= j <= n ==> 0 <= tp[i][j] <= 255)
  }

  predicate Present(tp: Tmat, from: nat, to: nat)
    requires from < |tp| && to < |tp[from]|
  {
    -tp[from][to] > TMAT_WORST_SCORE
  }

  datatype HmmState = HmmState(score: seq<int>, hist: seq<int>, ssid: seq<int>,
                               out: int, outHist: int, best: int, frame: int)

  predicate IsState(st: HmmState, n: nat) {
    |st.score| == n && |st.hist| == n && |st.ssid| == n
  }

  /** Senone scores of the current frame and the senone sequence table. */
  datatype Context = Context(senscore: seq<int>, sseq: seq<seq<int>>)

  predicate IsContext(ctx: Context) {
    |ctx.senscore| <= BAD_SSID && |ctx.sseq| <= BAD_SSID
      && (forall i :: 0 <= i < |ctx.senscore| ==> 0 <= ctx.senscore[i])
  }

  /** The senone (or sequence) ids are usable: only multiplexed states other than 0 may be unset. */
  predicate IdsOk(ctx: Context, mpx: bool, ids: seq<int>) {
    if mpx then
      && (|ids| > 0 ==> ids[0] != BAD_SSID)
      && forall s :: 0 <= s < |ids| && ids[s] != BAD_SSID ==>
        0 <= ids[s] < |ctx.sseq| && s < |ctx.sseq[ids[s]]| && 0 <= ctx.sseq[ids[s]][s] < |ctx.senscore|
    else
      forall s :: 0 <= s < |ids| ==> 0 <= ids[s] < |ctx.senscore|
  }

  /** The macro hmm_senscr. */
  function SenScr(ctx: Context, mpx: bool, ids: seq<int>, s: nat): int
    requires s < |ids| && IdsOk(ctx, mpx, ids)
  {
    if mpx then
      if ids[s] == BAD_SSID then WORST_SCORE else -ctx.senscore[ctx.sseq[ids[s]][s]]
    else -ctx.senscore[ids[s]]
  }

  function Emissions(ctx: Context, mpx: bool, ids: seq<int>): (em: seq<int>)
    requires IdsOk(ctx, mpx, ids)
    ensures |em| == |ids|
  {
    seq(|ids|, s requires 0 <= s < |ids| => SenScr(ctx, mpx, ids, s))
  }

  function Max(a: int, b: int): int {
    if a > b then a else b
  }

  function MaxSeq(s: seq<int>, init: int): int {
    if s == [] then init else Max(MaxSeq(s[1..], init), s[0])
  }

  function Clamp(x: int): int {
    if x < WORST_SCORE then WORST_SCORE else x
  }

  // ---- clearing and entering

  function Cleared(st: HmmState): HmmState {
    HmmState(seq(|st.score|, _ => WORST_SCORE), seq(|st.hist|, _ => -1), st.ssid,
             WORST_SCORE, -1, WORST_SCORE, -1)
  }

  function Entered(st: HmmState, score: int, histid: int, frame: int): HmmState
    requires |st.score| > 0 && |st.hist| > 0
  {
    st.(score := st.score[0 := score], hist := st.hist[0 := histid], frame := frame)
  }

  // ---- what one evaluation chooses

  /** The winning score for a state and the state it came from; -1 keeps the history already there. */
  datatype Pick = Pick(scr: int, from: int)

  predicate IsPick(p: Pick, n: nat) {
    -1 <= p.from < n
  }

  function Kept(prior: seq<int>, p: Pick, i: nat): int
    requires i < |prior| && IsPick(p, |prior|)
  {
    if p.from >= 0 then prior[p.from] else prior[i]
  }

  /** All histories move at once: every entry of the new vectors is read from the old ones. */
  function Moved(prior: seq<int>, picks: seq<Pick>): (r: seq<int>)
    requires |prior| == |picks| && forall i :: 0 <= i < |picks| ==> IsPick(picks[i], |picks|)
    ensures |r| == |picks|
  {
    seq(|picks|, i requires 0 <= i < |picks| => Kept(prior, picks[i], i))
  }

  function Scores(picks: seq<Pick>): (r: seq<int>)
    ensures |r| == |picks|
  {
    seq(|picks|, i requires 0 <= i < |picks| => picks[i].scr)
  }

  function Applied(st: HmmState, mpx: bool, picks: seq<Pick>, out: int, outHist: int, best: int): HmmState
    requires IsState(st, |picks|) && forall i :: 0 <= i < |picks| ==> IsPick(picks[i], |picks|)
  {
    HmmState(Scores(picks), Moved(st.hist, picks), if mpx then Moved(st.ssid, picks) else st.ssid,
             out, outHist, best, st.frame)
  }

  /** One state updated in place: its new score, and history and sequence id copied from the chosen source. */
  function Set(st: HmmState, mpx: bool, i: nat, p: Pick): (r: HmmState)
    requires IsState(st, |st.score|) && i < |st.score| && IsPick(p, |st.score|)
    ensures IsState(r, |st.score|)
  {
    st.(score := st.score[i := p.scr], hist := st.hist[i := Kept(st.hist, p, i)],
        ssid := if mpx then st.ssid[i := Kept(st.ssid, p, i)] else st.ssid)
  }

  /** States n-1 down to k updated in place, one after the other. */
  function SetDown(st: HmmState, mpx: bool, picks: seq<Pick>, k: nat): (r: HmmState)
    requires IsState(st, |picks|) && k <= |picks| && forall i :: 0 <= i < |picks| ==> IsPick(picks[i], |picks|)
    ensures IsState(r, |picks|)
    decreases |picks| - k
  {
    if k == |picks| then st else Set(SetDown(st, mpx, picks, k + 1), mpx, k, picks[k])
  }

  predicate FromBelow(picks: seq<Pick>) {
    forall i :: 0 <= i < |picks| ==> -1 <= picks[i].from <= i
  }

  /** Overwriting high state to low is the same as updating all states at once, because no state
      takes its history from a higher one. */
  lemma {:induction false} InPlaceIsSimultaneous(st: HmmState, mpx: bool, picks: seq<Pick>, k: nat)
    requires IsState(st, |picks|) && k <= |picks| && FromBelow(picks)
    ensures var r := SetDown(st, mpx, picks, k);
      && r.score == st.score[..k] + Scores(picks)[k..]
      && r.hist == st.hist[..k] + Moved(st.hist, picks)[k..]
      && r.ssid == (if mpx then st.ssid[..k] + Moved(st.ssid, picks)[k..] else st.ssid)
      && r == st.(score := r.score, hist := r.hist, ssid := r.ssid)
    decreases |picks| - k
  {
    if k < |picks| {
      InPlaceIsSimultaneous(st, mpx, picks, k + 1);
    }
  }

  /** The exit state set, when it is reached at all. */
  function ExitSet(st: HmmState, reached: bool, o: Pick): (r: HmmState)
    requires IsState(st, |st.score|) && 0 <= o.from < |st.score|
    ensures IsState(r, |st.score|)
  {
    if reached then st.(out := o.scr, outHist := st.hist[o.from]) else st
  }

  lemma UpperKeeps(st: HmmState, reached: bool, o: Pick, mpx: bool, i: nat, p: Pick, k: nat)
    requires IsState(st, |st.score|) && 0 <= o.from < |st.score|
    requires i < |st.score| && IsPick(p, |st.score|) && k < |st.score| && k != i
    ensures Set(ExitSet(st, reached, o), mpx, i, p).score[k] == st.score[k]
  {
  }

  /** The unrolled sequences of updates, after the exit state has been set. */
  function Chain3(st: HmmState, mpx: bool, p: seq<Pick>, best: int): (r: HmmState)
    requires |p| == 3 && IsState(st, 3) && FromBelow(p)
    ensures IsState(r, 3)
  {
    Set(Set(Set(st, mpx, 2, p[2]), mpx, 1, p[1]), mpx, 0, p[0]).(best := best)
  }

  lemma Chain3IsApplied(st: HmmState, mpx: bool, p: seq<Pick>, best: int)
    requires |p| == 3 && IsState(st, 3) && FromBelow(p)
    ensures Chain3(st, mpx, p, best) == Applied(st, mpx, p, st.out, st.outHist, best)
  {
    assert SetDown(st, mpx, p, 3) == st;
    assert SetDown(st, mpx, p, 2) == Set(st, mpx, 2, p[2]);
    assert SetDown(st, mpx, p, 1) == Set(Set(st, mpx, 2, p[2]), mpx, 1, p[1]);
    InPlaceIsSimultaneous(st, mpx, p, 0);
  }

  function Chain5(st: HmmState, mpx: bool, p: seq<Pick>, best: int): (r: HmmState)
    requires |p| == 5 && IsState(st, 5) && FromBelow(p)
    ensures IsState(r, 5)
  {
    Set(Set(Set(Set(Set(st, mpx, 4, p[4]), mpx, 3, p[3]), mpx, 2, p[2]), mpx, 1, p[1]), mpx, 0, p[0]).(best := best)
  }

  lemma Chain5IsApplied(st: HmmState, mpx: bool, p: seq<Pick>, best: int)
    requires |p| == 5 && IsState(st, 5) && FromBelow(p)
    ensures Chain5(st, mpx, p, best) == Applied(st, mpx, p, st.out, st.outHist, best)
  {
    assert SetDown(st, mpx, p, 5) == st;
    assert SetDown(st, mpx, p, 4) == Set(st, mpx, 4, p[4]);
    assert SetDown(st, mpx, p, 3) == Set(Set(st, mpx, 4, p[4]), mpx, 3, p[3]);
    assert SetDown(st, mpx, p, 2) == Set(Set(Set(st, mpx, 4, p[4]), mpx, 3, p[3]), mpx, 2, p[2]);
    assert SetDown(st, mpx, p, 1) == Set(Set(Set(Set(st, mpx, 4, p[4]), mpx, 3, p[3]), mpx, 2, p[2]), mpx, 1, p[1]);
    InPlaceIsSimultaneous(st, mpx, p, 0);
  }

  // ---- the evaluator for any left-to-right topology

  /** Score plus emission; state 0 is not clamped. */
  function SenStage(score: seq<int>, em: seq<int>): (ss: seq<int>)
    requires |score| == |em|
    ensures |ss| == |score|
  {
    seq(|score|, s requires 0 <= s < |score| =>
      if s == 0 then score[0] + em[0] else Clamp(score[s] + em[s]))
  }

  /** Sources k-1 down to 0, a later one winning only when strictly better. */
  function Scan(tp: Tmat, ss: seq<int>, to: nat, k: nat, p: Pick): (r: Pick)
    requires IsTmat(tp, |ss|) && to <= |ss| && k <= |ss| && IsPick(p, |ss|)
    ensures IsPick(r, |ss|)
    decreases k
  {
    if k == 0 then p
    else
      Scan(tp, ss, to, k - 1,
           if Present(tp, k - 1, to) && ss[k - 1] - tp[k - 1][to] > p.scr
           then Pick(ss[k - 1] - tp[k - 1][to], k - 1) else p)
  }

  function SelfPick(tp: Tmat, ss: seq<int>, to: nat): Pick
    requires IsTmat(tp, |ss|) && to < |ss|
  {
    Pick(if Present(tp, to, to) then ss[to] - tp[to][to] else WORST_SCORE, -1)
  }

  function AnyPick(tp: Tmat, ss: seq<int>, to: nat): (r: Pick)
    requires IsTmat(tp, |ss|) && to < |ss|
    ensures IsPick(r, |ss|)
  {
    Scan(tp, ss, to, to, SelfPick(tp, ss, to))
  }

  function AnyOut(tp: Tmat, ss: seq<int>): (r: Pick)
    requires IsTmat(tp, |ss|)
    ensures IsPick(r, |ss|)
  {
    Scan(tp, ss, |ss|, |ss|, Pick(WORST_SCORE, -1))
  }

  function AnyPicks(tp: Tmat, ss: seq<int>): (r: seq<Pick>)
    requires IsTmat(tp, |ss|)
    ensures |r| == |ss| && forall i :: 0 <= i < |r| ==> IsPick(r[i], |r|)
  {
    seq(|ss|, to requires 0 <= to < |ss| => AnyPick(tp, ss, to))
  }

  function AnyExitSet(st: HmmState, o: Pick): (r: HmmState)
    requires IsState(st, |st.score|) && IsPick(o, |st.score|)
    ensures IsState(r, |st.score|)
  {
    st.(out := o.scr, outHist := if o.from >= 0 then st.hist[o.from] else st.outHist)
  }

  function EvalAny(tp: Tmat, em: seq<int>, mpx: bool, st: HmmState): (r: HmmState)
    requires IsTmat(tp, |em|) && IsState(st, |em|)
    ensures IsState(r, |em|)
  {
    var ss := SenStage(st.score, em);
    var out := AnyOut(tp, ss);
    var picks := AnyPicks(tp, ss);
    SetDown(AnyExitSet(st, out), mpx, picks, 0).(best := MaxSeq(Scores(picks), out.scr))
  }

  // ---- the unrolled evaluators

  /** The comparison ladder shared by all unrolled evaluators. */
  function Pick3(t0: Pick, t1: Pick, t2: Pick): Pick {
    if t0.scr > t1.scr then (if t2.scr > t0.scr then t2 else t0)
    else if t2.scr > t1.scr then t2
    else t1
  }

  function Pick2(t0: Pick, t1: Pick): Pick {
    if t0.scr > t1.scr then t0 else t1
  }

  /** On ties the state below wins over the state itself, and the one two below over neither. */
  lemma TiesExact(t0: Pick, t1: Pick, t2: Pick)
    ensures Pick2(t0, t1) == if t1.scr >= t0.scr then t1 else t0
    ensures t2.scr > t0.scr && t2.scr > t1.scr ==> Pick3(t0, t1, t2) == t2
    ensures !(t2.scr > t0.scr && t2.scr > t1.scr) ==> Pick3(t0, t1, t2) == Pick2(t0, t1)
  {
  }

  function Clamped(p: Pick): Pick {
    Pick(Clamp(p.scr), p.from)
  }

  /** A state left alone when it is not alive. */
  function IfAlive(alive: bool, p: Pick, keep: int): Pick {
    if alive then p else Pick(keep, -1)
  }

  function MaxIf(alive: bool, best: int, x: int): int {
    if alive then Max(best, x) else best
  }

  /** The score carried into `t2` after the exit test of the 3-state evaluators; it survives to state 2
      when the 0 to 2 transition is absent. */
  function ExitSkip3(tp: Tmat, em: seq<int>, st: HmmState): int
    requires |em| == 3 && IsTmat(tp, 3) && IsState(st, 3)
  {
    var s1 := st.score[1] + em[1];
    if s1 > WORST_SCORE && Present(tp, 1, 3) then s1 - tp[1][3] else INT_MIN
  }

  function Exit3(tp: Tmat, em: seq<int>, st: HmmState): (o: Pick)
    requires |em| == 3 && IsTmat(tp, 3) && IsState(st, 3)
    ensures 1 <= o.from <= 2
  {
    Clamped(Pick2(Pick(st.score[2] + em[2] - tp[2][3], 2), Pick(ExitSkip3(tp, em, st), 1)))
  }

  function Picks3(tp: Tmat, em: seq<int>, st: HmmState): (p: seq<Pick>)
    requires |em| == 3 && IsTmat(tp, 3) && IsState(st, 3)
    ensures |p| == 3 && FromBelow(p) && p[0].from >= 0 && p[1].from >= 0 && p[2].from >= 0
  {
    var s0, s1, s2 := st.score[0] + em[0], st.score[1] + em[1], st.score[2] + em[2];
    var t2 := if Present(tp, 0, 2) then s0 - tp[0][2] else ExitSkip3(tp, em, st);
    [Clamped(Pick(s0 - tp[0][0], 0)),
     Clamped(Pick2(Pick(s1 - tp[1][1], 1), Pick(s0 - tp[0][1], 0))),
     Clamped(Pick3(Pick(s2 - tp[2][2], 2), Pick(s1 - tp[1][2], 1), Pick(t2, 0)))]
  }

  function Eval3(tp: Tmat, em: seq<int>, st: HmmState): (r: HmmState)
    requires |em| == 3 && IsTmat(tp, 3) && IsState(st, 3)
    ensures IsState(r, 3)
  {
    var exits := st.score[1] + em[1] > WORST_SCORE;
    var o, p := Exit3(tp, em, st), Picks3(tp, em, st);
    Chain3(ExitSet(st, exits, o), false, p,
           Max(Max(Max(if exits then o.scr else WORST_SCORE, p[2].scr), p[1].scr), p[0].scr))
  }

  function Exit5(tp: Tmat, em: seq<int>, st: HmmState): (o: Pick)
    requires |em| == 5 && IsTmat(tp, 5) && IsState(st, 5)
    ensures 3 <= o.from <= 4
  {
    Clamped(Pick2(Pick(st.score[4] + em[4] - tp[4][5], 4), Pick(st.score[3] + em[3] - tp[3][5], 3)))
  }

  /** States 4 and 3 are left alone unless state 2, respectively 1, is alive. */
  function Picks5(tp: Tmat, em: seq<int>, st: HmmState): (p: seq<Pick>)
    requires |em| == 5 && IsTmat(tp, 5) && IsState(st, 5)
    ensures |p| == 5 && FromBelow(p)
  {
    var s0, s1, s2 := st.score[0] + em[0], st.score[1] + em[1], st.score[2] + em[2];
    var s3, s4 := st.score[3] + em[3], st.score[4] + em[4];
    [Clamped(Pick(s0 - tp[0][0], 0)),
     Clamped(Pick2(Pick(s1 - tp[1][1], 1), Pick(s0 - tp[0][1], 0))),
     Clamped(Pick3(Pick(s2 - tp[2][2], 2), Pick(s1 - tp[1][2], 1), Pick(s0 - tp[0][2], 0))),
     IfAlive(s1 > WORST_SCORE, Clamped(Pick3(Pick(s3 - tp[3][3], 3), Pick(s2 - tp[2][3], 2), Pick(s1 - tp[1][3], 1))),
       st.score[3]),
     IfAlive(s2 > WORST_SCORE, Clamped(Pick3(Pick(s4 - tp[4][4], 4), Pick(s3 - tp[3][4], 3), Pick(s2 - tp[2][4], 2))),
       st.score[4])]
  }

  function Best5(tp: Tmat, em: seq<int>, st: HmmState): int
    requires |em| == 5 && IsTmat(tp, 5) && IsState(st, 5)
  {
    var p := Picks5(tp, em, st);
    var b5 := MaxIf(st.score[3] + em[3] > WORST_SCORE, WORST_SCORE, Exit5(tp, em, st).scr);
    var b4 := MaxIf(st.score[2] + em[2] > WORST_SCORE, b5, p[4].scr);
    var b3 := MaxIf(st.score[1] + em[1] > WORST_SCORE, b4, p[3].scr);
    Max(Max(Max(b3, p[2].scr), p[1].scr), p[0].scr)
  }

  function Eval5(tp: Tmat, em: seq<int>, st: HmmState): (r: HmmState)
    requires |em| == 5 && IsTmat(tp, 5) && IsState(st, 5)
    ensures IsState(r, 5)
  {
    Chain5(ExitSet(st, st.score[3] + em[3] > WORST_SCORE, Exit5(tp, em, st)), false,
           Picks5(tp, em, st), Best5(tp, em, st))
  }

  /** A multiplexed state with no senone sequence contributes the worst score, unadjusted. */
  function MpxStage(st: HmmState, em: seq<int>, s: nat): int
    requires s < |em| && IsState(st, |em|)
  {
    if st.ssid[s] == BAD_SSID then WORST_SCORE else st.score[s] + em[s]
  }

  function MpxStep(s: int, cost: int): int {
    if s != WORST_SCORE then s - cost else WORST_SCORE
  }

  /** A multiplexed transition out of an unset state is the worst score, unadjusted. */
  function MpxInto(st: HmmState, em: seq<int>, s: nat, cost: int): int
    requires s < |em| && IsState(st, |em|)
  {
    if st.ssid[s] == BAD_SSID then WORST_SCORE else st.score[s] + em[s] - cost
  }

  function ExitSkip3Mpx(tp: Tmat, em: seq<int>, st: HmmState): int
    requires |em| == 3 && IsTmat(tp, 3) && IsState(st, 3)
  {
    if st.ssid[1] == BAD_SSID then WORST_SCORE
    else if Present(tp, 1, 3) then st.score[1] + em[1] - tp[1][3] else INT_MIN
  }

  function Exit3Mpx(tp: Tmat, em: seq<int>, st: HmmState): (o: Pick)
    requires |em| == 3 && IsTmat(tp, 3) && IsState(st, 3)
    ensures 1 <= o.from <= 2
  {
    Clamped(Pick2(Pick(MpxInto(st, em, 2, tp[2][3]), 2), Pick(ExitSkip3Mpx(tp, em, st), 1)))
  }

  function Picks3Mpx(tp: Tmat, em: seq<int>, st: HmmState): (p: seq<Pick>)
    requires |em| == 3 && IsTmat(tp, 3) && IsState(st, 3)
    ensures |p| == 3 && FromBelow(p) && p[0].from >= 0 && p[1].from >= 0 && p[2].from >= 0
  {
    var s0, s1, s2 := st.score[0] + em[0], MpxStage(st, em, 1), MpxStage(st, em, 2);
    var t2 := if Present(tp, 0, 2) then s0 - tp[0][2] else ExitSkip3Mpx(tp, em, st);
    [Clamped(Pick(s0 - tp[0][0], 0)),
     Clamped(Pick2(Pick(MpxStep(s1, tp[1][1]), 1), Pick(s0 - tp[0][1], 0))),
     Clamped(Pick3(Pick(MpxStep(s2, tp[2][2]), 2), Pick(MpxStep(s1, tp[1][2]), 1), Pick(t2, 0)))]
  }

  function Eval3Mpx(tp: Tmat, em: seq<int>, st: HmmState): (r: HmmState)
    requires |em| == 3 && IsTmat(tp, 3) && IsState(st, 3)
    ensures IsState(r, 3)
  {
    var o, p := Exit3Mpx(tp, em, st), Picks3Mpx(tp, em, st);
    Chain3(ExitSet(st, true, o), true, p, Max(Max(Max(o.scr, p[2].scr), p[1].scr), p[0].scr))
  }

  function Exit5Mpx(tp: Tmat, em: seq<int>, st: HmmState): (o: Pick)
    requires |em| == 5 && IsTmat(tp, 5) && IsState(st, 5)
    ensures 3 <= o.from <= 4
  {
    Clamped(Pick2(Pick(MpxInto(st, em, 4, tp[4][5]), 4), Pick(MpxInto(st, em, 3, tp[3][5]), 3)))
  }

  function Picks5Mpx(tp: Tmat, em: seq<int>, st: HmmState): (p: seq<Pick>)
    requires |em| == 5 && IsTmat(tp, 5) && IsState(st, 5)
    ensures |p| == 5 && FromBelow(p)
  {
    var s0, s1, s2 := st.score[0] + em[0], MpxStage(st, em, 1), MpxStage(st, em, 2);
    var s3, s4 := MpxStage(st, em, 3), MpxStage(st, em, 4);
    [Clamped(Pick(s0 - tp[0][0], 0)),
     Clamped(Pick2(Pick(MpxStep(s1, tp[1][1]), 1), Pick(s0 - tp[0][1], 0))),
     Clamped(Pick3(Pick(MpxStep(s2, tp[2][2]), 2), Pick(MpxStep(s1, tp[1][2]), 1), Pick(s0 - tp[0][2], 0))),
     Clamped(Pick3(Pick(MpxStep(s3, tp[3][3]), 3), Pick(MpxStep(s2, tp[2][3]), 2),
       Pick(MpxInto(st, em, 1, tp[1][3]), 1))),
     Clamped(Pick3(Pick(MpxStep(s4, tp[4][4]), 4), Pick(MpxStep(s3, tp[3][4]), 3),
       Pick(MpxInto(st, em, 2, tp[2][4]), 2)))]
  }

  function Eval5Mpx(tp: Tmat, em: seq<int>, st: HmmState): (r: HmmState)
    requires |em| == 5 && IsTmat(tp, 5) && IsState(st, 5)
    ensures IsState(r, 5)
  {
    var o, p := Exit5Mpx(tp, em, st), Picks5Mpx(tp, em, st);
    Chain5(ExitSet(st, true, o), true, p,
           Max(Max(Max(Max(Max(o.scr, p[4].scr), p[3].scr), p[2].scr), p[1].scr), p[0].scr))
  }

  /** The dispatch on topology. */
  function VitEval(tp: Tmat, em: seq<int>, mpx: bool, st: HmmState): (r: HmmState)
    requires IsTmat(tp, |em|) && IsState(st, |em|)
    ensures IsState(r, |em|)
  {
    if |em| == 5 then (if mpx then Eval5Mpx(tp, em, st) else Eval5(tp, em, st))
    else if |em| == 3 then (if mpx then Eval3Mpx(tp, em, st) else Eval3(tp, em, st))
    else EvalAny(tp, em, mpx, st)
  }

  // ---- the mutable record

  class HmmRecord {
    const n: nat
    const tp: Tmat
    const mpx: bool
    const score: array<int>
    const history: array<int>
    const senid: array<int>
    var outScore: int
    var outHistory: int
    var bestScore: int
    var frame: int

    ghost predicate Valid()
      reads this
    {
      && n > 0 && IsTmat(tp, n)
      && score.Length == history.Length == senid.Length == n
      && score != history && score != senid && history != senid
    }

    function State(): HmmState
      reads this, score, history, senid
    {
      HmmState(score[..], history[..], senid[..], outScore, outHistory, bestScore, frame)
    }

    /** hmm_init: multiplexed records learn the sequence id of state 0 only. */
    constructor (tp: Tmat, mpx: bool, ssid: int, senones: seq<int>)
      requires |tp| > 0 && IsTmat(tp, |tp|) && |senones| == |tp|
      ensures Valid() && n == |tp| && this.tp == tp && this.mpx == mpx
      ensures fresh(score) && fresh(history) && fresh(senid)
      ensures State() == Cleared(State())
      ensures senid[..] == if mpx then [ssid] + seq(|tp| - 1, _ => BAD_SSID) else senones
    {
      this.tp, n, this.mpx := tp, |tp|, mpx;
      score := new int[|tp|](_ => WORST_SCORE);
      history := new int[|tp|](_ => -1);
      senid := new int[|tp|](i requires 0 <= i < |senones| =>
                               if !mpx then senones[i] else if i == 0 then ssid else BAD_SSID);
      outScore, outHistory, bestScore, frame := WORST_SCORE, -1, WORST_SCORE, -1;
    }

    method Clear()
      requires Valid()
      modifies this, score, history
      ensures State() == Cleared(old(State())) && senid[..] == old(senid[..])
      ensures forall i :: 0 <= i < n ==> score[i] == WORST_SCORE && history[i] == -1
      ensures outScore == WORST_SCORE && outHistory == -1 && bestScore == WORST_SCORE && frame == -1
    {
      score[0], history[0] := WORST_SCORE, -1;
      for i := 1 to n
        invariant forall k :: 0 <= k < i ==> score[k] == WORST_SCORE && history[k] == -1
        invariant senid[..] == old(senid[..])
      {
        score[i], history[i] := WORST_SCORE, -1;
      }
      outScore, outHistory, bestScore, frame := WORST_SCORE, -1, WORST_SCORE, -1;
    }

    method Enter(newScore: int, histid: int, newFrame: int)
      requires Valid()
      modifies this, score, history
      ensures State() == Entered(old(State()), newScore, histid, newFrame)
      ensures score[0] == newScore && history[0] == histid && frame == newFrame
      ensures score[1..] == old(score[1..]) && history[1..] == old(history[1..]) && senid[..] == old(senid[..])
      ensures unchanged(this`outScore, this`outHistory, this`bestScore)
    {
      score[0] := newScore;
      history[0] := histid;
      frame := newFrame;
    }

    method EvalAnytopo(ctx: Context) returns (best: int)
      requires Valid() && IdsOk(ctx, mpx, senid[..])
      modifies this, score, history, senid
      ensures State() == EvalAny(tp, Emissions(ctx, mpx, old(senid[..])), mpx, old(State()))
      ensures best == bestScore
    {
      hide Set, AnyPick, AnyOut, SenStage, Emissions, IdsOk;
      ghost var was := State();
      var stSen := StageScores(ctx);
      ghost var ss := SenStage(was.score, Emissions(ctx, mpx, was.ssid));
      ghost var picks := AnyPicks(tp, ss);
      best := UpdateAnyExit(stSen);
      ghost var exited := AnyExitSet(was, AnyOut(tp, ss));
      var to := n;
      while to > 0
        invariant 0 <= to <= n && stSen[..] == ss
        invariant State() == SetDown(exited, mpx, picks, to)
        invariant best == MaxSeq(Scores(picks)[to..], exited.out)
      {
        to := to - 1;
        assert Scores(picks)[to..][1..] == Scores(picks)[to + 1..];
        best := UpdateAny(stSen, to, best);
      }
      bestScore := best;
    }

    /** Previous score plus observation score of each emitting state, clamped except for state 0. */
    method StageScores(ctx: Context) returns (stSen: array<int>)
      requires Valid() && IdsOk(ctx, mpx, senid[..])
      ensures fresh(stSen) && stSen[..] == SenStage(score[..], Emissions(ctx, mpx, senid[..]))
    {
      hide IdsOk, SenScr;
      ghost var ss := SenStage(score[..], Emissions(ctx, mpx, senid[..]));
      stSen := new int[n];
      stSen[0] := score[0] + SenScr(ctx, mpx, senid[..], 0);
      for from := 1 to n
        invariant forall k :: 0 <= k < from ==> stSen[k] == ss[k]
      {
        stSen[from] := score[from] + SenScr(ctx, mpx, senid[..], from);
        if stSen[from] < WORST_SCORE {
          stSen[from] := WORST_SCORE;
        }
      }
    }

    method UpdateAnyExit(stSen: array<int>) returns (best: int)
      requires Valid() && stSen.Length == n
      modifies this`outScore, this`outHistory
      ensures State() == AnyExitSet(old(State()), AnyOut(tp, stSen[..])) && best == outScore
    {
      var scr, bestfrom := ScanSources(stSen, n, n, WORST_SCORE);
      outScore := scr;
      if bestfrom >= 0 {
        outHistory := history[bestfrom];
      }
      best := scr;
    }

    /** The transitions into state `to`, its own first and the others from the nearest state down. */
    method UpdateAny(stSen: array<int>, to: nat, best0: int) returns (best: int)
      requires Valid() && stSen.Length == n && to < n && stSen !in {score, history, senid}
      modifies score, history, senid
      ensures State() == Set(old(State()), mpx, to, AnyPick(tp, stSen[..], to))
      ensures best == Max(best0, AnyPick(tp, stSen[..], to).scr)
    {
      var scr := if -tp[to][to] > TMAT_WORST_SCORE then stSen[to] - tp[to][to] else WORST_SCORE;
      var bestfrom;
      scr, bestfrom := ScanSources(stSen, to, to, scr);
      score[to] := scr;
      if bestfrom >= 0 {
        history[to] := history[bestfrom];
        if mpx {
          senid[to] := senid[bestfrom];
        }
      }
      best := best0;
      if best < scr {
        best := scr;
      }
    }

    /** The inner loops of the generic evaluator: the best predecessor of `to` among states below k. */
    method ScanSources(stSen: array<int>, to: nat, k: nat, init: int) returns (scr: int, bestfrom: int)
      requires Valid() && stSen.Length == n && k <= to <= n && (k < to ==> to == n)
      ensures Pick(scr, bestfrom) == Scan(tp, stSen[..], to, k, Pick(init, -1))
      ensures -1 <= bestfrom < k
    {
      scr, bestfrom := init, -1;
      var from := k;
      while from > 0
        invariant 0 <= from <= k && -1 <= bestfrom < k
        invariant Scan(tp, stSen[..], to, from, Pick(scr, bestfrom)) == Scan(tp, stSen[..], to, k, Pick(init, -1))
      {
        from := from - 1;
        if -tp[from][to] > TMAT_WORST_SCORE && stSen[from] - tp[from][to] > scr {
          scr, bestfrom := stSen[from] - tp[from][to], from;
        }
      }
    }

    /** Transitions into the exit state: ta from `a`, tb from `b`. */
    method UpdateExit(ta: int, a: nat, tb: int, b: nat) returns (best: int)
      requires Valid() && a < n && b < n
      modifies this`outScore, this`outHistory
      ensures var o := Clamped(Pick2(Pick(ta, a), Pick(tb, b)));
        best == o.scr && State() == ExitSet(old(State()), true, o)
    {
      if ta > tb {
        best := ta;
        outHistory := history[a];
      } else {
        best := tb;
        outHistory := history[b];
      }
      if best < WORST_SCORE { best := WORST_SCORE; }
      outScore := best;
    }

    /** The exit state of the plain evaluators, set only when its last source is alive. */
    method UpdateExitIf(alive: bool, ta: int, a: nat, tb: int, b: nat) returns (best: int)
      requires Valid() && a < n && b < n
      modifies this`outScore, this`outHistory
      ensures var o := Clamped(Pick2(Pick(ta, a), Pick(tb, b)));
        best == MaxIf(alive, WORST_SCORE, o.scr) && State() == ExitSet(old(State()), alive, o)
    {
      best := WORST_SCORE;
      if alive {
        best := UpdateExit(ta, a, tb, b);
      }
    }

    /** All transitions into state i >= 2: t0 from itself, t1 from i-1, t2 from i-2. */
    method UpdateState(i: nat, t0: int, t1: int, t2: int, best0: int) returns (best: int)
      requires Valid() && 2 <= i < n
      modifies score, history, senid
      ensures var p := Clamped(Pick3(Pick(t0, i), Pick(t1, i - 1), Pick(t2, i - 2)));
        State() == Set(old(State()), mpx, i, p) && best == Max(best0, p.scr)
    {
      var s := t0;
      if t0 > t1 {
        if t2 > t0 {
          s := t2;
          history[i] := history[i - 2];
          if mpx { senid[i] := senid[i - 2]; }
        }
      } else if t2 > t1 {
        s := t2;
        history[i] := history[i - 2];
        if mpx { senid[i] := senid[i - 2]; }
      } else {
        s := t1;
        history[i] := history[i - 1];
        if mpx { senid[i] := senid[i - 1]; }
      }
      best := FinishState(i, s, best0);
    }

    /** All transitions into state 1 (t0 from itself, t1 from state 0). */
    method UpdateSecond(t0: int, t1: int, best0: int) returns (best: int)
      requires Valid() && 1 < n
      modifies score, history, senid
      ensures var p := Clamped(Pick2(Pick(t0, 1), Pick(t1, 0)));
        State() == Set(old(State()), mpx, 1, p) && best == Max(best0, p.scr)
    {
      var s := t0;
      if !(t0 > t1) {
        s := t1;
        history[1] := history[0];
        if mpx { senid[1] := senid[0]; }
      }
      best := FinishState(1, s, best0);
    }

    /** The clamp, the running best and the store that end every state's update. */
    method FinishState(i: nat, s0: int, best0: int) returns (best: int)
      requires Valid() && i < n
      modifies score
      ensures State() == Set(old(State()), mpx, i, Pick(Clamp(s0), i)) && best == Max(best0, Clamp(s0))
    {
      var s := s0;
      if s < WORST_SCORE { s := WORST_SCORE; }
      best := if s > best0 then s else best0;
      score[i] := s;
    }

    /** Score plus emission of state i of a plain record. */
    method Staged(ctx: Context, i: nat) returns (s: int)
      requires Valid() && i < n && !mpx && IdsOk(ctx, mpx, senid[..])
      ensures s == score[i] + Emissions(ctx, mpx, senid[..])[i]
    {
      s := score[i] - ctx.senscore[senid[i]];
    }

    /** The same of a multiplexed record, for the state that is always set. */
    method StagedMpx(ctx: Context) returns (s: int)
      requires Valid() && mpx && IdsOk(ctx, mpx, senid[..])
      ensures s == score[0] + Emissions(ctx, mpx, senid[..])[0]
    {
      s := score[0] - ctx.senscore[ctx.sseq[senid[0]][0]];
    }

    /** State i is updated only when the state two below it is alive. */
    method UpdateIfAlive(alive: bool, i: nat, t0: int, t1: int, t2: int, best0: int) returns (best: int)
      requires Valid() && 2 <= i < n
      modifies score, history, senid
      ensures var p := Clamped(Pick3(Pick(t0, i), Pick(t1, i - 1), Pick(t2, i - 2)));
        && State() == Set(old(State()), mpx, i, IfAlive(alive, p, old(State()).score[i]))
        && best == MaxIf(alive, best0, IfAlive(alive, p, old(State()).score[i]).scr)
    {
      best := best0;
      if alive {
        best := UpdateState(i, t0, t1, t2, best0);
      }
    }

    method Eval3Lr(ctx: Context) returns (best: int)
      requires Valid() && n == 3 && !mpx && IdsOk(ctx, mpx, senid[..])
      modifies this, score, history, senid
      ensures State() == Eval3(tp, Emissions(ctx, mpx, old(senid[..])), old(State()))
      ensures best == bestScore
    {
      hide Set, Pick2, Pick3, Clamped, Max, IdsOk, SenScr;
      ghost var em, was := Emissions(ctx, mpx, senid[..]), State();
      ghost var p := Picks3(tp, em, was);
      var s2 := Staged(ctx, 2);
      var s1 := Staged(ctx, 1);
      var s0 := Staged(ctx, 0);
      best := WORST_SCORE;
      var t2 := INT_MIN;
      if s1 > WORST_SCORE {
        if -tp[1][3] > TMAT_WORST_SCORE {
          t2 := s1 - tp[1][3];
        }
        best := UpdateExit(s2 - tp[2][3], 2, t2, 1);
      }
      if -tp[0][2] > TMAT_WORST_SCORE {
        t2 := s0 - tp[0][2];
      }
      best := UpdateLow(s2 - tp[2][2], s1 - tp[1][2], t2, s1 - tp[1][1], s0 - tp[0][1], s0 - tp[0][0], best);
    }

    /** The common tail of the unrolled evaluators: states 2, 1 and 0, given the candidate scores of each. */
    method UpdateLow(t0: int, t1: int, t2: int, u0: int, u1: int, v: int, best0: int) returns (best: int)
      requires Valid() && 3 <= n
      modifies this`bestScore, score, history, senid
      ensures var p2 := Clamped(Pick3(Pick(t0, 2), Pick(t1, 1), Pick(t2, 0)));
        var p1 := Clamped(Pick2(Pick(u0, 1), Pick(u1, 0)));
        var p0 := Clamped(Pick(v, 0));
        && best == Max(Max(Max(best0, p2.scr), p1.scr), p0.scr)
        && State() == Set(Set(Set(old(State()), mpx, 2, p2), mpx, 1, p1), mpx, 0, p0).(best := best)
    {
      best := UpdateState(2, t0, t1, t2, best0);
      best := UpdateSecond(u0, u1, best);
      best := FinishState(0, v, best);
      bestScore := best;
    }

    method Eval5Lr(ctx: Context) returns (best: int)
      requires Valid() && n == 5 && !mpx && IdsOk(ctx, mpx, senid[..])
      modifies this, score, history, senid
      ensures State() == Eval5(tp, Emissions(ctx, mpx, old(senid[..])), old(State()))
      ensures best == bestScore
    {
      hide Set, ExitSet, IfAlive, MaxIf, Pick2, Pick3, Clamped, Max, IdsOk, SenScr;
      ghost var em, was := Emissions(ctx, mpx, senid[..]), State();
      ghost var p := Picks5(tp, em, was);
      var s4 := Staged(ctx, 4);
      var s3 := Staged(ctx, 3);
      var s2 := Staged(ctx, 2);
      var s1 := Staged(ctx, 1);
      var s0 := Staged(ctx, 0);
      best := UpdateExitIf(s3 > WORST_SCORE, s4 - tp[4][5], 4, s3 - tp[3][5], 3);
      best := UpdateIfAlive(s2 > WORST_SCORE, 4, s4 - tp[4][4], s3 - tp[3][4], s2 - tp[2][4], best);
      UpperKeeps(was, s3 > WORST_SCORE, Exit5(tp, em, was), false, 4, p[4], 3);
      best := UpdateIfAlive(s1 > WORST_SCORE, 3, s3 - tp[3][3], s2 - tp[2][3], s1 - tp[1][3], best);
      best := UpdateLow(s2 - tp[2][2], s1 - tp[1][2], s0 - tp[0][2], s1 - tp[1][1], s0 - tp[0][1], s0 - tp[0][0], best);
    }

    method Eval3LrMpx(ctx: Context) returns (best: int)
      requires Valid() && n == 3 && mpx && IdsOk(ctx, mpx, senid[..])
      modifies this, score, history, senid
      ensures State() == Eval3Mpx(tp, Emissions(ctx, mpx, old(senid[..])), old(State()))
      ensures best == bestScore
    {
      hide Set, Pick2, Pick3, Clamped, Max, IdsOk, SenScr;
      ghost var em, was := Emissions(ctx, mpx, senid[..]), State();
      ghost var p := Picks3Mpx(tp, em, was);
      var s2, t1 := MpxExit(ctx, 2, 3);
      var s1, t2 := WORST_SCORE, INT_MIN;
      if senid[1] == BAD_SSID {
        t2 := WORST_SCORE;
      } else {
        s1, t2 := MpxExit(ctx, 1, 3);
        if !(-tp[1][3] > TMAT_WORST_SCORE) {
          t2 := INT_MIN;
        }
      }
      best := UpdateExit(t1, 2, t2, 1);
      var s0 := StagedMpx(ctx);
      if -tp[0][2] > TMAT_WORST_SCORE { t2 := s0 - tp[0][2]; }
      best := UpdateLow(MpxStep(s2, tp[2][2]), MpxStep(s1, tp[1][2]), t2, MpxStep(s1, tp[1][1]), s0 - tp[0][1],
        s0 - tp[0][0], best);
    }

    /** "Don't propagate WORST_SCORE": the score of a multiplexed state and its transition to `to`. */
    method MpxExit(ctx: Context, i: nat, to: nat) returns (s: int, t: int)
      requires Valid() && i < n && to <= n && mpx && IdsOk(ctx, mpx, senid[..])
      ensures s == MpxStage(State(), Emissions(ctx, mpx, senid[..]), i)
      ensures t == MpxInto(State(), Emissions(ctx, mpx, senid[..]), i, tp[i][to])
    {
      if senid[i] == BAD_SSID {
        s, t := WORST_SCORE, WORST_SCORE;
      } else {
        s := score[i] - ctx.senscore[ctx.sseq[senid[i]][i]];
        t := s - tp[i][to];
      }
    }

    method Eval5LrMpx(ctx: Context) returns (best: int)
      requires Valid() && n == 5 && mpx && IdsOk(ctx, mpx, senid[..])
      modifies this, score, history, senid
      ensures State() == Eval5Mpx(tp, Emissions(ctx, mpx, old(senid[..])), old(State()))
      ensures best == bestScore
    {
      hide Set, Pick2, Pick3, Clamped, Max, IdsOk, SenScr;
      ghost var em, was := Emissions(ctx, mpx, senid[..]), State();
      ghost var p := Picks5Mpx(tp, em, was);
      var s4, u1 := MpxExit(ctx, 4, 5);
      var s3, u2 := MpxExit(ctx, 3, 5);
      var s2, u4 := MpxExit(ctx, 2, 4);
      var s1, u3 := MpxExit(ctx, 1, 3);
      var s0 := StagedMpx(ctx);
      best := UpdateExit(u1, 4, u2, 3);
      best := UpdateState(4, MpxStep(s4, tp[4][4]), MpxStep(s3, tp[3][4]), u4, best);
      best := UpdateState(3, MpxStep(s3, tp[3][3]), MpxStep(s2, tp[2][3]), u3, best);
      best := UpdateLow(MpxStep(s2, tp[2][2]), MpxStep(s1, tp[1][2]), s0 - tp[0][2], MpxStep(s1, tp[1][1]),
        s0 - tp[0][1], s0 - tp[0][0], best);
    }

    method VitEvalInPlace(ctx: Context) returns (best: int)
      requires Valid() && IdsOk(ctx, mpx, senid[..])
      modifies this, score, history, senid
      ensures State() == VitEval(tp, Emissions(ctx, mpx, old(senid[..])), mpx, old(State()))
      ensures best == bestScore
    {
      if mpx {
        if n == 5 {
          best := Eval5LrMpx(ctx);
        } else if n == 3 {
          best := Eval3LrMpx(ctx);
        } else {
          best := EvalAnytopo(ctx);
        }
      } else {
        if n == 5 {
          best := Eval5Lr(ctx);
        } else if n == 3 {
          best := Eval3Lr(ctx);
        } else {
          best := EvalAnytopo(ctx);
        }
      }
    }
  }
}
