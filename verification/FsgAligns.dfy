/** Alignments of an utterance with a grammar: ways through its words, phone nodes and states, frame by frame,
    and their scores.  They are what the grammar search is to find the best of. */
module FsgAligns {
  import opened Hmm
  import opened HmmOptimal
  import opened HmmUnrolled
  import opened Fsg
  import opened FsgStep
  import opened FsgRun

  /** An utterance decoded with a grammar on a clean network. */
  datatype Task = Task(g: Grammar, lt: Lextree, u: Utterance, hmms: seq<HmmState>)

  /** Senone scores are sixteen bits wide, and the matrices are among those the evaluators get right. */
  predicate IsTask(k: Task) {
    && IsUtterance(k.g, k.lt, k.u) && Clean(k.lt, k.hmms)
    && (forall t, i :: 0 <= t < |k.u.frames| && 0 <= i < |k.u.frames[t].senscr| ==> k.u.frames[t].senscr[i] <= 32767)
    && forall i :: 0 <= i < |k.lt.nodes| ==> IsCovered(k.lt.nodes[i].tp, k.lt.nEmit)
  }

  predicate IsCovered(tp: Tmat, n: nat) {
    n > 0 && |tp| == n && IsTmat(tp, |tp|) && Covered(KindOf(n), tp)
  }

  /** Root is before the first word.  Null and Exit end words; Word enters a root of the tree, Down a child.
      Spend spends a frame in a node, Leave spends it on the way out. */
  datatype Align =
    | Root
    | Null(prev: Align, link: Link)
    | Word(prev: Align, node: nat)
    | Spend(prev: Align, state: nat)
    | Leave(prev: Align)
    | Down(prev: Align, node: nat)
    | Exit(prev: Align)

  function Time(a: Align): nat {
    match a
    case Root => 0
    case Null(p, _) => Time(p)
    case Word(p, _) => Time(p)
    case Spend(p, _) => Time(p) + 1
    case Leave(p) => Time(p) + 1
    case Down(p, _) => Time(p)
    case Exit(p) => Time(p)
  }

  function NodeOf(a: Align): nat {
    match a
    case Word(_, i) => i
    case Down(_, i) => i
    case Spend(p, _) => NodeOf(p)
    case Leave(p) => NodeOf(p)
    case Exit(p) => NodeOf(p)
    case _ => 0
  }

  function StateOf(a: Align): nat {
    if a.Spend? then a.state else 0
  }

  predicate InNode(a: Align) {
    a.Word? || a.Down? || a.Spend?
  }

  predicate EndsWord(a: Align) {
    a.Root? || a.Null? || a.Exit?
  }

  function DestOf(k: Task, a: Align): nat {
    match a
    case Null(_, l) => l.to
    case Exit(_) => if NodeOf(a) < |k.lt.nodes| then k.lt.nodes[NodeOf(a)].link.to else 0
    case _ => k.g.start
  }

  function LcOf(k: Task, a: Align): nat {
    match a
    case Null(p, _) => LcOf(k, p)
    case Exit(_) => if NodeOf(a) < |k.lt.nodes| then k.lt.nodes[NodeOf(a)].ciExt else 0
    case _ => k.u.sil
  }

  function RcOf(k: Task, a: Align): set<nat> {
    match a
    case Null(p, _) => RcOf(k, p)
    case Exit(_) => if NodeOf(a) < |k.lt.nodes| then ExitContexts(k.g, k.lt.nodes[NodeOf(a)]) else {}
    case _ => ALL_CONTEXTS
  }

  /** The transitions of the grammar that an alignment has taken. */
  function Spelt(k: Task, a: Align): seq<Link> {
    match a
    case Root => []
    case Null(p, l) => Spelt(k, p) + [l]
    case Exit(p) => Spelt(k, p) + (if NodeOf(a) < |k.lt.nodes| then [k.lt.nodes[NodeOf(a)].link] else [])
    case _ => Spelt(k, a.prev)
  }

  function ExitContexts(g: Grammar, p: Pnode): set<nat> {
    if p.link.wid in g.fillers || p.link.wid in g.singlePhone then ALL_CONTEXTS else p.ctxt
  }

  /** A frame is left to spend at this place, with this transition. */
  predicate CanSpend(k: Task, p: Align, to: nat)
    requires IsTask(k)
  {
    && InNode(p) && Time(p) < |k.u.frames| && NodeOf(p) < |k.lt.nodes| && StateOf(p) < k.lt.nEmit && to <= k.lt.nEmit
    && Arc(k.lt.nodes[NodeOf(p)].tp, StateOf(p), to)
  }

  /** Every step follows the grammar, the tree of the state, the contexts and the transition matrices. */
  predicate Valid(k: Task, a: Align)
    requires IsTask(k)
  {
    match a
    case Root => true
    case Null(p, l) =>
      (p.Root? || p.Exit?) && Valid(k, p) && DestOf(k, p) < |k.g.arcs| && l in k.g.arcs[DestOf(k, p)] && l.wid == -1
    case Word(p, r) =>
      && EndsWord(p) && Valid(k, p) && r < |k.lt.nodes| && DestOf(k, p) < |k.lt.roots| && r in k.lt.roots[DestOf(k, p)]
      && LcOf(k, p) in k.lt.nodes[r].ctxt && k.lt.nodes[r].ciExt in RcOf(k, p)
    case Spend(p, s) => Valid(k, p) && CanSpend(k, p, s) && s < k.lt.nEmit
    case Leave(p) => Valid(k, p) && CanSpend(k, p, k.lt.nEmit)
    case Down(p, c) =>
      && p.Leave? && Valid(k, p) && c < |k.lt.nodes| && NodeOf(p) < |k.lt.nodes|
      && !k.lt.nodes[NodeOf(p)].leaf && c in k.lt.nodes[NodeOf(p)].children
    case Exit(p) => p.Leave? && Valid(k, p) && NodeOf(p) < |k.lt.nodes| && k.lt.nodes[NodeOf(p)].leaf
  }

  lemma SenoneInFrame(k: Task, t: nat, i: nat, s: nat)
    requires IsTask(k) && t < |k.u.frames| && i < |k.lt.nodes| && s < k.lt.nEmit
    ensures IsPnode(k.g, k.lt, k.lt.nodes[i]) && 0 <= k.lt.nodes[i].senid[s] < |k.u.frames[t].senscr|
  {
    assert IsFrame(k.lt, k.u.frames[t]);
  }

  /** The score of spending a frame: that of the state's own senone in it, and the transition's. */
  function Spent(k: Task, p: Align, to: nat): int
    requires IsTask(k) && CanSpend(k, p, to)
  {
    SenoneInFrame(k, Time(p), NodeOf(p), StateOf(p));
    var v := k.lt.nodes[NodeOf(p)];
    -k.u.frames[Time(p)].senscr[v.senid[StateOf(p)]] - v.tp[StateOf(p)][to]
  }

  /** Senone, transition, word and phone scores, added up. */
  function Total(k: Task, a: Align): int
    requires IsTask(k) && Valid(k, a)
  {
    match a
    case Root => 0
    case Null(p, l) => Total(k, p) + ShiftedProb(l)
    case Word(p, r) => Total(k, p) + k.lt.nodes[r].logs2prob
    case Spend(p, s) => Total(k, p) + Spent(k, p, s)
    case Leave(p) => Total(k, p) + Spent(k, p, k.lt.nEmit)
    case Down(p, c) => Total(k, p) + k.lt.nodes[c].logs2prob
    case Exit(p) => Total(k, p)
  }

  // ---- wide beams

  function At(k: Task, n: nat): (s: State)
    requires IsTask(k) && n <= |k.u.frames|
    ensures Fit(k.g, k.lt, s)
  {
    After(k.g, k.lt, k.u, k.hmms, n)
  }

  function Limits(k: Task, n: nat): Thresholds
    requires IsTask(k) && n < |k.u.frames|
  {
    ThresholdsOf(Evaluated(k.g, k.lt, At(k, n), k.u.frames[n]).1, k.u.frames[n])
  }

  /** No alignment falls below a threshold of its frame, and phone and word thresholds are above the floor. */
  ghost predicate PassesAt(k: Task, n: nat)
    requires IsTask(k) && n < |k.u.frames|
  {
    var th := Limits(k, n);
    && th.phone > WORST_SCORE && th.word > WORST_SCORE
    && forall a :: Valid(k, a) && Time(a) == n + 1 ==>
         Total(k, a) > th.main && Total(k, a) > th.phone && Total(k, a) > th.word
  }

  ghost predicate PassesStart(k: Task)
    requires IsTask(k)
  {
    forall a :: Valid(k, a) && Time(a) == 0 ==>
      Total(k, a) > WORST_SCORE && (a.Null? ==> Total(k, a) >= k.u.wbeam) && (a.Word? ==> Total(k, a) > k.u.beam)
  }

  /** The beams are wide enough to prune nothing in the first n frames. */
  ghost predicate Wide(k: Task, n: nat)
    requires IsTask(k) && n <= |k.u.frames|
  {
    PassesStart(k) && forall m :: 0 <= m < n ==> PassesAt(k, m)
  }

  /** No alignment of the first n frames falls to the floor. */
  ghost predicate AllLive(k: Task, n: nat)
    requires IsTask(k)
  {
    forall a :: Valid(k, a) && Time(a) <= n ==> Total(k, a) > WORST_SCORE
  }
}
