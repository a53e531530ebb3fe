/** The word lattice built from the back-pointer table (src/ngram_search.c).

    A node stands for all table entries of one word starting in one frame.  The list of nodes is a sequence,
    its head first; a node is named by its position. */
module Lattice {
  import Hmm
  import opened NgramTable

  const UNLIKELY: int := -424242

  /** fef and lef are table indices: the first and the last entry of the node. */
  datatype Node = Node(wid: nat, sf: int, fef: nat, lef: nat)
  datatype Pair = Pair(from: nat, to: nat)
  datatype LinkData = LinkData(ascr: int, ef: int)
  type Links = map<Pair, LinkData>

  /** What is decided outside: the utterance length, the final word, which words are fillers or known to the
      language model, the least spread of end frames, the acoustic score of an entry's segment, and the
      right-context slot of a word followed by another. */
  datatype Config = Config(nFrames: nat, finishWid: nat, inLm: seq<bool>, minEndfr: int,
                           segScore: nat -> int, slot: (nat, nat) -> nat)

  ghost predicate IsConfig(ws: Words, cfg: Config) {
    && |cfg.inLm| == |ws|
    && forall a: nat, b: nat :: a < |ws| && b < |ws| && ws[a].nRc > 0 ==> cfg.slot(a, b) < ws[a].nRc
  }

  /** A table as the search leaves it: see TableIsDone. */
  ghost predicate IsDone(ws: Words, cfg: Config, t: Table) {
    && IsConfig(ws, cfg) && IsTable(ws, t) && PathsBack(t) && FramesOrdered(t, cfg.nFrames - 1) && OnePerFrame(t)
  }

  /** The table of any disciplined run from an empty one, ended by the reset of its last frame. */
  lemma TableIsDone(ws: Words, cfg: Config, ops: seq<Op>)
    requires IsConfig(ws, cfg) && RunOk(ws, Begin(ws), ops + [NextFrame])
    requires cfg.nFrames == ApplyAll(ws, Begin(ws), ops + [NextFrame]).frame
    ensures IsDone(ws, cfg, ApplyAll(ws, Begin(ws), ops + [NextFrame]).table)
  {
    RunFromBegin(ws, ops + [NextFrame]);
    LastReset(ws, Begin(ws), ops);
    var s := ApplyAll(ws, Begin(ws), ops + [NextFrame]);
    hide RunOk, ApplyAll, PathsBack, FramesOrdered, OnePerFrame, SlicesDisjoint, LatCurrent, Remembered;
    FreshFrame(ws, s);
  }

  lemma {:induction false} LastReset(ws: Words, s: Search, ops: seq<Op>)
    requires RunOk(ws, s, ops + [NextFrame]) && |s.table.lat| == |ws|
    ensures var r := ApplyAll(ws, s, ops + [NextFrame]);
      |r.table.lat| == |ws| && forall w :: 0 <= w < |ws| ==> r.table.lat[w] == NO_BP
    decreases |ops|
  {
    hide OpOk, Save, Dropped;
    var all := ops + [NextFrame];
    var t := Apply(ws, s, all[0]);
    if ops == [] {
      assert all[1..] == [];
      assert ApplyAll(ws, t, []) == t;
    } else {
      assert all[1..] == ops[1..] + [NextFrame];
      LastReset(ws, t, ops[1..]);
    }
  }

  // ---- nodes

  function StartFrame(t: Table, i: nat): int
    requires i < |t.entries|
  {
    if 0 <= t.entries[i].bp < |t.entries| then t.entries[t.entries[i].bp].frame + 1 else 0
  }

  /** Entries that survived pruning, other than final words before the last frame and unknown words. */
  predicate Kept(cfg: Config, t: Table, i: nat)
    requires i < |t.entries|
  {
    var e := t.entries[i];
    e.valid && !(e.wid == cfg.finishWid && e.frame < cfg.nFrames - 1) && e.wid < |cfg.inLm| && cfg.inLm[e.wid]
  }

  /** Which entries get a node: those of known words that were not pruned, but of the final word only those of the
      utterance's last frame. */
  lemma KeptExact(cfg: Config, t: Table, i: nat)
    requires i < |t.entries| && FramesOrdered(t, cfg.nFrames - 1)
    ensures Kept(cfg, t, i) <==>
      && t.entries[i].valid && t.entries[i].wid < |cfg.inLm| && cfg.inLm[t.entries[i].wid]
      && (t.entries[i].wid == cfg.finishWid ==> t.entries[i].frame == cfg.nFrames - 1)
  {
  }

  predicate EntryOf(cfg: Config, t: Table, i: nat, v: Node) {
    i < |t.entries| && Kept(cfg, t, i) && t.entries[i].wid == v.wid && StartFrame(t, i) == v.sf
  }

  /** A node spans from the first to the last of its entries among the first n. */
  ghost predicate Spans(cfg: Config, t: Table, n: nat, v: Node) {
    && v.fef <= v.lef < n && EntryOf(cfg, t, v.fef, v) && EntryOf(cfg, t, v.lef, v)
    && forall i: nat :: i < n && EntryOf(cfg, t, i, v) ==> v.fef <= i <= v.lef
  }

  ghost predicate Represented(cfg: Config, t: Table, i: nat, nodes: seq<Node>) {
    exists k :: 0 <= k < |nodes| && EntryOf(cfg, t, i, nodes[k])
  }

  ghost predicate AllSpan(cfg: Config, t: Table, n: nat, nodes: seq<Node>) {
    forall k :: 0 <= k < |nodes| ==> Spans(cfg, t, n, nodes[k])
  }

  predicate LatestFirst(nodes: seq<Node>) {
    forall j, k :: 0 <= j < k < |nodes| ==> nodes[j].fef > nodes[k].fef
  }

  ghost predicate AllRepresented(cfg: Config, t: Table, n: nat, nodes: seq<Node>)
    requires n <= |t.entries|
  {
    forall i: nat :: i < n && Kept(cfg, t, i) ==> Represented(cfg, t, i, nodes)
  }

  /** One node for each word and start frame of the first n entries, latest first entry first. */
  ghost predicate NodesOf(cfg: Config, t: Table, n: nat, nodes: seq<Node>)
    requires n <= |t.entries|
  {
    AllSpan(cfg, t, n, nodes) && LatestFirst(nodes) && AllRepresented(cfg, t, n, nodes)
  }

  /** No two nodes share a word and a start frame. */
  lemma NodesDistinct(cfg: Config, t: Table, n: nat, nodes: seq<Node>, j: nat, k: nat)
    requires n <= |t.entries| && AllSpan(cfg, t, n, nodes) && LatestFirst(nodes)
    requires j < |nodes| && k < |nodes| && j != k
    ensures !(nodes[j].wid == nodes[k].wid && nodes[j].sf == nodes[k].sf)
  {
    assert Spans(cfg, t, n, nodes[j]) && Spans(cfg, t, n, nodes[k]);
    SameFirst(cfg, t, n, nodes[j], nodes[k]);
    hide Spans;
    assert nodes[j].fef != nodes[k].fef;
  }

  lemma SameFirst(cfg: Config, t: Table, n: nat, v: Node, w: Node)
    requires n <= |t.entries| && Spans(cfg, t, n, v) && Spans(cfg, t, n, w)
    ensures v.wid == w.wid && v.sf == w.sf ==> v.fef == w.fef && v.lef == w.lef
  {
    if v.wid == w.wid && v.sf == w.sf {
      SameEntries(cfg, t, v, w);
    }
  }

  lemma SameEntries(cfg: Config, t: Table, v: Node, w: Node)
    requires v.wid == w.wid && v.sf == w.sf
    ensures forall i: nat :: EntryOf(cfg, t, i, v) == EntryOf(cfg, t, i, w)
  {
  }

  lemma StillSpans(cfg: Config, t: Table, n: nat, v: Node)
    requires n < |t.entries| && Spans(cfg, t, n, v) && !EntryOf(cfg, t, n, v)
    ensures Spans(cfg, t, n + 1, v)
  {
  }

  lemma NowSpans(cfg: Config, t: Table, n: nat, v: Node)
    requires n < |t.entries| && Spans(cfg, t, n, v) && EntryOf(cfg, t, n, v)
    ensures Spans(cfg, t, n + 1, v.(lef := n))
  {
    SameEntries(cfg, t, v, v.(lef := n));
  }

  /** Looking at an entry that is not kept changes nothing. */
  lemma SkippedEntry(cfg: Config, t: Table, n: nat, nodes: seq<Node>)
    requires n < |t.entries| && NodesOf(cfg, t, n, nodes) && !Kept(cfg, t, n)
    ensures NodesOf(cfg, t, n + 1, nodes)
  {
    hide Spans, Represented, StartFrame;
    forall k | 0 <= k < |nodes| ensures Spans(cfg, t, n + 1, nodes[k]) {
      StillSpans(cfg, t, n, nodes[k]);
    }
  }

  lemma StillRepresented(cfg: Config, t: Table, i: nat, nodes: seq<Node>, nodes': seq<Node>, shift: nat)
    requires Represented(cfg, t, i, nodes) && |nodes'| == |nodes| + shift
    requires forall k :: 0 <= k < |nodes| ==>
      nodes'[shift + k].wid == nodes[k].wid && nodes'[shift + k].sf == nodes[k].sf
    ensures Represented(cfg, t, i, nodes')
  {
    var k :| 0 <= k < |nodes| && EntryOf(cfg, t, i, nodes[k]);
    assert EntryOf(cfg, t, i, nodes'[shift + k]);
  }

  lemma IsRepresented(cfg: Config, t: Table, i: nat, nodes: seq<Node>, k: nat)
    requires k < |nodes| && EntryOf(cfg, t, i, nodes[k])
    ensures Represented(cfg, t, i, nodes)
  {
  }

  /** A further entry of a node that is in the list. */
  lemma KnownEntry(cfg: Config, t: Table, n: nat, nodes: seq<Node>, k: nat)
    requires n < |t.entries| && NodesOf(cfg, t, n, nodes) && k < |nodes| && EntryOf(cfg, t, n, nodes[k])
    ensures NodesOf(cfg, t, n + 1, nodes[k := nodes[k].(lef := n)])
  {
    hide StartFrame, Spans, Kept, Represented;
    var r := nodes[k := nodes[k].(lef := n)];
    assert Represented(cfg, t, n, nodes) by { IsRepresented(cfg, t, n, nodes, k); }
    forall j | 0 <= j < |nodes| && j != k ensures !EntryOf(cfg, t, n, nodes[j]) {
      NodesDistinct(cfg, t, n, nodes, j, k);
    }
    hide EntryOf;
    forall j | 0 <= j < |r| ensures Spans(cfg, t, n + 1, r[j]) {
      if j == k {
        NowSpans(cfg, t, n, nodes[k]);
      } else {
        StillSpans(cfg, t, n, nodes[j]);
      }
    }
    forall i: nat | i < n + 1 && Kept(cfg, t, i) ensures Represented(cfg, t, i, r) {
      StillRepresented(cfg, t, i, nodes, r, 0);
    }
  }

  /** The first entry of its word and start frame becomes the head of the list. */
  lemma FirstEntry(cfg: Config, t: Table, n: nat, nodes: seq<Node>, v: Node)
    requires n < |t.entries| && NodesOf(cfg, t, n, nodes) && EntryOf(cfg, t, n, v) && v.fef == v.lef == n
    requires forall k :: 0 <= k < |nodes| ==> !(nodes[k].wid == v.wid && nodes[k].sf == v.sf)
    ensures NodesOf(cfg, t, n + 1, [v] + nodes)
  {
    hide AllRepresented, StartFrame, Spans, Represented, EntryOf, Kept;
    var r := [v] + nodes;
    FirstSpans(cfg, t, n, nodes, v);
    forall j | 0 <= j < |nodes| ensures !EntryOf(cfg, t, n, nodes[j]) && nodes[j].fef < n {
      NotOf(cfg, t, n, nodes[j], v);
    }
    FirstRepresents(cfg, t, n, nodes, v);
    forall j | 0 <= j < |r| ensures Spans(cfg, t, n + 1, r[j]) {
      if j > 0 {
        assert r[j] == nodes[j - 1];
        StillSpans(cfg, t, n, nodes[j - 1]);
      }
    }
  }

  /** Entry n starts another node than w. */
  lemma NotOf(cfg: Config, t: Table, n: nat, w: Node, v: Node)
    requires n < |t.entries| && EntryOf(cfg, t, n, v) && !(w.wid == v.wid && w.sf == v.sf) && Spans(cfg, t, n, w)
    ensures !EntryOf(cfg, t, n, w) && w.fef < n
  {
  }

  lemma FirstSpans(cfg: Config, t: Table, n: nat, nodes: seq<Node>, v: Node)
    requires n < |t.entries| && AllRepresented(cfg, t, n, nodes) && EntryOf(cfg, t, n, v) && v.fef == v.lef == n
    requires forall k :: 0 <= k < |nodes| ==> !(nodes[k].wid == v.wid && nodes[k].sf == v.sf)
    ensures Spans(cfg, t, n + 1, v)
  {
    hide AllRepresented, EntryOf;
    forall i: nat | i < n ensures !EntryOf(cfg, t, i, v) {
      NothingBefore(cfg, t, n, nodes, v, i);
    }
  }

  lemma FirstRepresents(cfg: Config, t: Table, n: nat, nodes: seq<Node>, v: Node)
    requires n < |t.entries| && AllRepresented(cfg, t, n, nodes) && EntryOf(cfg, t, n, v)
    ensures AllRepresented(cfg, t, n + 1, [v] + nodes)
  {
    hide Kept, StartFrame;
    var r := [v] + nodes;
    assert EntryOf(cfg, t, n, r[0]);
    hide EntryOf;
    forall i: nat | i < n + 1 && Kept(cfg, t, i) ensures Represented(cfg, t, i, r) {
      if i < n {
        StillRepresented(cfg, t, i, nodes, r, 1);
      }
    }
  }

  lemma NothingBefore(cfg: Config, t: Table, n: nat, nodes: seq<Node>, v: Node, i: nat)
    requires n < |t.entries| && AllRepresented(cfg, t, n, nodes) && i < n
    requires forall k :: 0 <= k < |nodes| ==> !(nodes[k].wid == v.wid && nodes[k].sf == v.sf)
    ensures !EntryOf(cfg, t, i, v)
  {
    hide StartFrame;
    assert Kept(cfg, t, i) ==> Represented(cfg, t, i, nodes);
  }

  // ---- arcs: what may follow what

  datatype Graph = Graph(ws: Words, cfg: Config, t: Table, nodes: seq<Node>)

  ghost predicate IsGraph(g: Graph) {
    IsDone(g.ws, g.cfg, g.t) && NodesOf(g.cfg, g.t, |g.t.entries|, g.nodes)
  }

  /** IsGraph less the demand that every entry has a node: still true when the head of the list is dropped. */
  ghost predicate IsSuffix(g: Graph) {
    && IsDone(g.ws, g.cfg, g.t) && AllSpan(g.cfg, g.t, |g.t.entries|, g.nodes) && LatestFirst(g.nodes)
  }

  function Frame(g: Graph, i: nat): int
    requires i < |g.t.entries|
  {
    g.t.entries[i].frame
  }

  predicate HasSpan(g: Graph, v: Node)
    requires v.fef < |g.t.entries| && v.lef < |g.t.entries|
  {
    Frame(g, v.lef) - Frame(g, v.fef) >= g.cfg.minEndfr
  }

  /** Entry i, between the first and the last of `a`, is of the same word and ends just before `b`. */
  predicate JoinedBy(g: Graph, a: Node, b: Node, i: nat) {
    a.fef <= i <= a.lef < |g.t.entries| && g.t.entries[i].wid == a.wid && Frame(g, i) == b.sf - 1
  }

  /** The exit score of entry i into the first phone of a following word, see NgramTable.BpTable.ExitScore. */
  function ExitOf(g: Graph, i: nat, wid: nat): int
    requires IsTable(g.ws, g.t) && i < |g.t.entries|
  {
    var e := g.t.entries[i];
    var k := g.cfg.slot(e.wid, wid);
    if e.sIdx == -1 then e.score else if k < g.ws[e.wid].nRc then g.t.stack[e.sIdx + k] else Hmm.WORST_SCORE
  }

  /** The segment's score, corrected for the following word's right context. */
  function PathScore(g: Graph, i: nat, wid: nat): int
    requires IsTable(g.ws, g.t) && i < |g.t.entries|
  {
    g.cfg.segScore(i) + (ExitOf(g, i, wid) - g.t.entries[i].score)
  }

  predicate CanLink(g: Graph, i: nat, wid: nat)
    requires IsTable(g.ws, g.t) && i < |g.t.entries|
  {
    ExitOf(g, i, wid) != Hmm.WORST_SCORE && PathScore(g, i, wid) > Hmm.WORST_SCORE
  }

  function LinkScore(g: Graph, i: nat, wid: nat): (s: int)
    requires IsTable(g.ws, g.t) && i < |g.t.entries|
    ensures s <= 0
  {
    if PathScore(g, i, wid) > 0 then UNLIKELY else PathScore(g, i, wid)
  }

  predicate Apart(g: Graph, v: Node, a: nat, b: nat) {
    && EntryOf(g.cfg, g.t, a, v) && EntryOf(g.cfg, g.t, b, v)
    && g.t.entries[b].frame - g.t.entries[a].frame >= g.cfg.minEndfr
  }

  /** A node is wide enough exactly when two of its entries end so far apart. */
  lemma SpanExact(g: Graph, k: nat)
    requires IsSuffix(g) && k < |g.nodes|
    ensures g.nodes[k].fef <= g.nodes[k].lef < |g.t.entries|
    ensures HasSpan(g, g.nodes[k]) <==> exists a: nat, b: nat :: Apart(g, g.nodes[k], a, b)
  {
    var v := g.nodes[k];
    assert Spans(g.cfg, g.t, |g.t.entries|, v);
    hide IsTable, PathsBack, OnePerFrame, AllSpan, LatestFirst, Kept, StartFrame;
    if a: nat, b: nat :| Apart(g, v, a, b) {
      assert v.fef <= a && b <= v.lef;
      assert Frame(g, v.fef) <= Frame(g, a) && Frame(g, b) <= Frame(g, v.lef);
    }
    if HasSpan(g, v) {
      assert Apart(g, v, v.fef, v.lef);
    }
  }

  /** An arc, whatever the order of the list and whatever has been reached. */
  ghost predicate Arc(g: Graph, k: nat, j: nat, i: nat)
    requires IsSuffix(g)
  {
    && k < |g.nodes| && j < |g.nodes| && i < |g.t.entries| && HasSpan(g, g.nodes[k])
    && JoinedBy(g, g.nodes[k], g.nodes[j], i) && CanLink(g, i, g.nodes[j].wid)
  }

  ghost predicate HasArc(g: Graph, k: nat, j: nat)
    requires IsSuffix(g)
  {
    exists i: nat :: Arc(g, k, j, i)
  }

  /** The list is in reverse topological order: what precedes a node in time comes later in the list, and
      starts earlier. */
  lemma PredecessorsLater(g: Graph, k: nat, j: nat)
    requires IsSuffix(g) && k < |g.nodes| && j < |g.nodes|
    requires Frame(g, g.nodes[k].fef) < g.nodes[j].sf
    ensures k > j && g.nodes[k].sf < g.nodes[j].sf
  {
    var a, b := g.nodes[k], g.nodes[j];
    assert Spans(g.cfg, g.t, |g.t.entries|, a) && Spans(g.cfg, g.t, |g.t.entries|, b);
    assert EntryOf(g.cfg, g.t, b.fef, b) && EntryOf(g.cfg, g.t, a.fef, a);
    assert b.sf <= Frame(g, b.fef) && a.sf <= Frame(g, a.fef);
    assert a.fef < b.fef;
  }

  /** The time test of the link loop passes over no arc. */
  lemma JoinedInTime(g: Graph, a: Node, b: Node, i: nat)
    requires IsSuffix(g) && JoinedBy(g, a, b, i)
    ensures Frame(g, a.fef) < b.sf <= Frame(g, a.lef) + 1
  {
  }

  lemma ArcsGoBack(g: Graph, k: nat, j: nat)
    requires IsSuffix(g) && HasArc(g, k, j)
    ensures k < |g.nodes| && j < |g.nodes| && k > j && g.nodes[k].sf < g.nodes[j].sf
  {
    hide IsDone;
    var i :| Arc(g, k, j, i);
    JoinedInTime(g, g.nodes[k], g.nodes[j], i);
    PredecessorsLater(g, k, j);
  }

  lemma OneJoins(g: Graph, a: Node, b: Node, i: nat, i': nat)
    requires IsSuffix(g) && JoinedBy(g, a, b, i) && JoinedBy(g, a, b, i')
    ensures i == i'
  {
  }

  // ---- chains of arcs

  ghost predicate IsChain(g: Graph, p: seq<nat>)
    requires IsSuffix(g)
  {
    && p != [] && (forall n :: 0 <= n < |p| ==> p[n] < |g.nodes|)
    && forall n :: 0 <= n < |p| - 1 ==> HasArc(g, p[n], p[n + 1])
  }

  ghost predicate ChainFromTo(g: Graph, p: seq<nat>, k: nat, j: nat)
    requires IsSuffix(g)
  {
    IsChain(g, p) && p[0] == k && p[|p| - 1] == j
  }

  ghost predicate Reaches(g: Graph, k: nat, j: nat)
    requires IsSuffix(g)
  {
    exists p :: ChainFromTo(g, p, k, j)
  }

  /** The lattice has no cycle: along a chain start frames strictly increase. */
  lemma {:induction false} ChainsGoForward(g: Graph, p: seq<nat>, n: nat, m: nat)
    requires IsSuffix(g) && IsChain(g, p) && n < m < |p|
    ensures g.nodes[p[n]].sf < g.nodes[p[m]].sf && p[n] > p[m]
    decreases m
  {
    hide IsDone, HasArc;
    ArcsGoBack(g, p[m - 1], p[m]);
    if n < m - 1 {
      ChainsGoForward(g, p, n, m - 1);
    }
  }

  /** What the single pass leaves: a node is marked when it is the head or has an arc to a marked node. */
  ghost predicate IsMarking(g: Graph, marks: seq<bool>)
    requires IsSuffix(g)
  {
    && |marks| == |g.nodes|
    && forall k: nat :: k < |g.nodes| ==> (marks[k] <==> k == 0 || ArcToMarked(g, marks, k))
  }

  ghost predicate ArcToMarked(g: Graph, marks: seq<bool>, k: nat)
    requires IsSuffix(g)
  {
    exists j: nat :: j < |marks| && marks[j] && HasArc(g, k, j)
  }

  lemma {:induction false} MarkedReaches(g: Graph, marks: seq<bool>, k: nat)
    requires IsSuffix(g) && IsMarking(g, marks) && k < |marks| && marks[k]
    ensures Reaches(g, k, 0)
    decreases k
  {
    hide IsDone, HasArc;
    if k == 0 {
      assert ChainFromTo(g, [0], 0, 0);
    } else {
      assert ArcToMarked(g, marks, k);
      var j: nat :| j < |marks| && marks[j] && HasArc(g, k, j);
      ArcsGoBack(g, k, j);
      MarkedReaches(g, marks, j);
      var p :| ChainFromTo(g, p, j, 0);
      var q := [k] + p;
      forall n | 0 <= n < |q| - 1 ensures HasArc(g, q[n], q[n + 1]) {
        assert n > 0 ==> q[n] == p[n - 1] && q[n + 1] == p[n];
      }
      assert ChainFromTo(g, q, k, 0);
    }
  }

  lemma {:induction false} ReachesMarked(g: Graph, marks: seq<bool>, p: seq<nat>)
    requires IsSuffix(g) && IsMarking(g, marks) && IsChain(g, p) && p[|p| - 1] == 0
    ensures marks[p[0]]
    decreases |p|
  {
    hide IsDone, HasArc;
    if |p| > 1 {
      var q := p[1..];
      forall n | 0 <= n < |q| - 1 ensures HasArc(g, q[n], q[n + 1]) {
        assert q[n] == p[n + 1] && q[n + 1] == p[n + 2];
      }
      assert IsChain(g, q);
      ReachesMarked(g, marks, q);
      assert HasArc(g, p[0], p[1]) && p[1] == q[0];
      assert ArcToMarked(g, marks, p[0]);
    }
  }

  /** One pass over the list marks exactly the nodes from which a chain of arcs leads to the end node. */
  lemma MarkingIsReachability(g: Graph, marks: seq<bool>, k: nat)
    requires IsSuffix(g) && IsMarking(g, marks) && k < |g.nodes|
    ensures marks[k] <==> Reaches(g, k, 0)
  {
    hide IsDone, HasArc, IsChain, IsMarking;
    assert |marks| == |g.nodes| by { MarksLength(g, marks); }
    if marks[k] {
      MarkedReaches(g, marks, k);
    }
    if Reaches(g, k, 0) {
      var p :| ChainFromTo(g, p, k, 0);
      ReachesMarked(g, marks, p);
    }
  }

  lemma MarksLength(g: Graph, marks: seq<bool>)
    requires IsSuffix(g) && IsMarking(g, marks)
    ensures |marks| == |g.nodes|
  {
  }

  // ---- dropping the nodes before the end node

  function Drop(g: Graph, end: nat): Graph
    requires end <= |g.nodes|
  {
    g.(nodes := g.nodes[end..])
  }

  lemma DropIsSuffix(g: Graph, end: nat)
    requires IsSuffix(g) && end <= |g.nodes|
    ensures IsSuffix(Drop(g, end))
  {
    hide IsDone, Spans;
    var d := Drop(g, end);
    forall k | 0 <= k < |d.nodes| ensures Spans(d.cfg, d.t, |d.t.entries|, d.nodes[k]) {
      assert d.nodes[k] == g.nodes[end + k];
    }
  }

  lemma SameArcs(g: Graph, end: nat, k: nat, j: nat)
    requires IsSuffix(g) && end <= |g.nodes| && IsSuffix(Drop(g, end))
    ensures HasArc(Drop(g, end), k, j) <==> HasArc(g, end + k, end + j)
  {
    hide IsDone, Spans;
    var d := Drop(g, end);
    if HasArc(d, k, j) {
      var i :| Arc(d, k, j, i);
      assert Arc(g, end + k, end + j, i);
    }
    if HasArc(g, end + k, end + j) {
      var i :| Arc(g, end + k, end + j, i);
      assert Arc(d, k, j, i);
    }
  }

  /** Nodes before the end node in the list cannot reach it, so dropping them loses nothing. */
  lemma DroppedNodesUseless(g: Graph, end: nat, d: Graph, k: nat)
    requires IsSuffix(g) && end < |g.nodes| && k < |g.nodes| && d == Drop(g, end) && IsSuffix(d)
    ensures Reaches(g, k, end) <==> k >= end && Reaches(d, k - end, 0)
  {
    hide IsSuffix, ChainFromTo;
    if Reaches(g, k, end) {
      var p :| ChainFromTo(g, p, k, end);
      ChainDrops(g, end, d, p, k);
    }
    if k >= end && Reaches(d, k - end, 0) {
      var q :| ChainFromTo(d, q, k - end, 0);
      ChainLifts(g, end, d, q, k - end);
    }
  }

  lemma ChainDrops(g: Graph, end: nat, d: Graph, p: seq<nat>, k: nat)
    requires IsSuffix(g) && end < |g.nodes| && d == Drop(g, end) && IsSuffix(d) && ChainFromTo(g, p, k, end)
    ensures k >= end && Reaches(d, k - end, 0)
  {
    hide IsSuffix, HasArc;
    forall n | 0 <= n < |p| ensures p[n] >= end {
      if n < |p| - 1 {
        ChainsGoForward(g, p, n, |p| - 1);
      }
    }
    var q: seq<nat> := seq(|p|, n requires 0 <= n < |p| => p[n] - end);
    forall n | 0 <= n < |q| - 1 ensures HasArc(d, q[n], q[n + 1]) {
      assert HasArc(g, p[n], p[n + 1]);
      SameArcs(g, end, q[n], q[n + 1]);
    }
    assert ChainFromTo(d, q, k - end, 0);
  }

  lemma ChainLifts(g: Graph, end: nat, d: Graph, q: seq<nat>, k: nat)
    requires IsSuffix(g) && end < |g.nodes| && d == Drop(g, end) && IsSuffix(d) && ChainFromTo(d, q, k, 0)
    ensures Reaches(g, k + end, end)
  {
    hide IsSuffix, HasArc;
    var p: seq<nat> := seq(|q|, n requires 0 <= n < |q| => q[n] + end);
    forall n | 0 <= n < |p| - 1 ensures HasArc(g, p[n], p[n + 1]) {
      assert HasArc(d, q[n], q[n + 1]);
      SameArcs(g, end, q[n], q[n + 1]);
    }
    assert ChainFromTo(g, p, k + end, end);
  }

  // ---- links

  /** The links are the arcs into marked nodes, each with the score and the end frame of its entry. */
  ghost predicate AreLinks(g: Graph, marks: seq<bool>, links: Links)
    requires IsSuffix(g) && |marks| == |g.nodes|
  {
    && (forall p :: p in links <==> p.to < |marks| && marks[p.to] && HasArc(g, p.from, p.to))
    && forall p :: p in links ==> DataOf(g, p, links[p])
  }

  ghost predicate DataOf(g: Graph, p: Pair, data: LinkData)
    requires IsSuffix(g)
  {
    exists i: nat :: Arc(g, p.from, p.to, i)
      && data == LinkData(LinkScore(g, i, g.nodes[p.to].wid), g.nodes[p.to].sf - 1)
  }

  /** ps_lattice_link: a second link between the same nodes keeps the better score. */
  function AddLink(links: Links, p: Pair, data: LinkData): Links {
    if p !in links then links[p := data] else if data.ascr > links[p].ascr then links[p := data] else links
  }

  /** Of two links between the same nodes the better stays, the older on ties; all other links stay. */
  lemma AddLinkExact(links: Links, p: Pair, data: LinkData)
    ensures var r := AddLink(links, p, data);
      && r.Keys == links.Keys + {p} && (forall q :: q in links && q != p ==> r[q] == links[q])
      && (p !in links ==> r[p] == data)
      && (p in links ==> r[p] == if links[p].ascr >= data.ascr then links[p] else data)
  {
  }

  /** A link scores no better than the entry's segment, since the entry's score is the best over its right
      contexts. */
  lemma LinkNeverBetter(g: Graph, log: Log, frame: int, i: nat, wid: nat)
    requires IsSuffix(g) && Inv(g.ws, g.t, log, frame) && i < |g.t.entries| && wid < |g.ws|
    ensures PathScore(g, i, wid) <= g.cfg.segScore(i)
  {
    hide Remembered, PathsBack, FramesOrdered, OnePerFrame, SlicesDisjoint, LatCurrent;
    var e := g.t.entries[i];
    if e.sIdx != -1 {
      ScoreIsSliceMax(g.ws, g.t, log, frame, i);
      var k := g.cfg.slot(e.wid, wid);
      assert k < g.ws[e.wid].nRc;
      assert Slice(g.ws, g.t, i)[k] == ExitOf(g, i, wid);
      assert ExitOf(g, i, wid) in Slice(g.ws, g.t, i);
    }
  }

  // ---- what a link is scored with, said of what the search saved

  /** The right-context slot in which word `wid` looks for the score of entry i; words of one phone have one. */
  function SlotFor(g: Graph, i: nat, wid: nat): nat
    requires IsTable(g.ws, g.t) && i < |g.t.entries|
  {
    var w := g.t.entries[i].wid;
    if g.ws[w].nRc == 0 then 0 else g.cfg.slot(w, wid)
  }

  /** The best of the saves of a word in a frame. */
  ghost predicate IsBestSave(log: Log, frame: int, w: nat, n: nat, best: int) {
    && (exists rc: nat :: rc < n && Key(frame, w, rc) in log && log[Key(frame, w, rc)].score == best)
    && forall rc: nat :: rc < n && Key(frame, w, rc) in log ==> log[Key(frame, w, rc)].score <= best
  }

  /** s is the score of entry i's segment before word `wid`: the segment's own, less what its exit into that word
      was saved with below the best. */
  ghost predicate IsSegment(g: Graph, log: Log, i: nat, wid: nat, s: int)
    requires IsTable(g.ws, g.t) && i < |g.t.entries|
  {
    var key := Key(g.t.entries[i].frame, g.t.entries[i].wid, SlotFor(g, i, wid));
    exists best: int :: IsBestOf(g, log, i, best) && s == g.cfg.segScore(i) + (SlotScore(log, key) - best)
  }

  ghost predicate IsBestOf(g: Graph, log: Log, i: nat, best: int)
    requires IsTable(g.ws, g.t) && i < |g.t.entries|
  {
    var e := g.t.entries[i];
    IsBestSave(log, e.frame, e.wid, if g.ws[e.wid].nRc == 0 then 1 else g.ws[e.wid].nRc, best)
  }

  /** The exit was saved, and the segment is above the floor. */
  ghost predicate MayLink(g: Graph, log: Log, i: nat, wid: nat)
    requires IsTable(g.ws, g.t) && i < |g.t.entries|
  {
    && SlotScore(log, Key(g.t.entries[i].frame, g.t.entries[i].wid, SlotFor(g, i, wid))) > Hmm.WORST_SCORE
    && exists s: int :: IsSegment(g, log, i, wid, s) && s > Hmm.WORST_SCORE
  }

  lemma EntrySaves(g: Graph, log: Log, frame: int, i: nat, wid: nat)
    requires IsSuffix(g) && Inv(g.ws, g.t, log, frame) && AboveWorst(log) && i < |g.t.entries| && wid < |g.ws|
    ensures var e := g.t.entries[i];
      IsBestOf(g, log, i, e.score) && ExitOf(g, i, wid) == SlotScore(log, Key(e.frame, e.wid, SlotFor(g, i, wid)))
  {
    hide Remembered, PathsBack, FramesOrdered, OnePerFrame, SlicesDisjoint, LatCurrent, AllSpan, LatestFirst;
    assert Remembered(g.ws, g.t, log, i);
    hide Inv;
    var e := g.t.entries[i];
    BestSaves(g.ws, g.t, log, i);
    if e.sIdx != -1 {
      var k := g.cfg.slot(e.wid, wid);
      assert k < g.ws[e.wid].nRc;
      SlotSaved(g.ws, g.t, log, i, k);
    }
  }

  lemma BestSaves(ws: Words, t: Table, log: Log, i: nat)
    requires IsTable(ws, t) && i < |t.entries| && Remembered(ws, t, log, i) && AboveWorst(log)
    ensures var e := t.entries[i];
      && IsBestSave(log, e.frame, e.wid, RcCount(ws, e.wid), e.score)
      && (ws[e.wid].nRc == 0 ==> e.score == SlotScore(log, Key(e.frame, e.wid, 0)))
  {
    var e := t.entries[i];
    var rc :| 0 <= rc < RcCount(ws, e.wid) && HasSaved(log, Key(e.frame, e.wid, rc), e.score, e.bp);
    forall c: nat | c < RcCount(ws, e.wid) && Key(e.frame, e.wid, c) in log
      ensures log[Key(e.frame, e.wid, c)].score <= e.score
    {
      assert SlotScore(log, Key(e.frame, e.wid, c)) <= e.score;
    }
  }

  lemma SlotSaved(ws: Words, t: Table, log: Log, i: nat, k: nat)
    requires IsTable(ws, t) && i < |t.entries| && Remembered(ws, t, log, i)
    requires t.entries[i].sIdx != -1 && k < ws[t.entries[i].wid].nRc
    ensures var e := t.entries[i];
      0 <= e.sIdx + k < |t.stack| && t.stack[e.sIdx + k] == SlotScore(log, Key(e.frame, e.wid, k))
  {
    assert Slice(ws, t, i)[k] == t.stack[t.entries[i].sIdx + k];
  }

  lemma BestOfUnique(g: Graph, log: Log, i: nat, a: int, b: int)
    requires IsTable(g.ws, g.t) && i < |g.t.entries| && IsBestOf(g, log, i, a) && IsBestOf(g, log, i, b)
    ensures a == b
  {
  }

  /** An entry allows a link exactly when its exit into the following word was saved and leaves the segment above
      the floor, and the link's score is that of the segment, or unlikely when that is positive. */
  lemma LinkScoreExact(g: Graph, log: Log, frame: int, i: nat, wid: nat, s: int)
    requires IsSuffix(g) && Inv(g.ws, g.t, log, frame) && AboveWorst(log) && i < |g.t.entries| && wid < |g.ws|
    requires IsSegment(g, log, i, wid, s)
    ensures CanLink(g, i, wid) <==> MayLink(g, log, i, wid)
    ensures LinkScore(g, i, wid) == if s > 0 then UNLIKELY else s
  {
    EntrySaves(g, log, frame, i, wid);
    hide Inv, IsSuffix, IsBestOf, SlotFor, ExitOf;
    var e := g.t.entries[i];
    forall b: int | IsBestOf(g, log, i, b) ensures b == e.score {
      BestOfUnique(g, log, i, b, e.score);
    }
    assert s == PathScore(g, i, wid);
    assert SlotScore(log, Key(e.frame, e.wid, SlotFor(g, i, wid))) >= Hmm.WORST_SCORE;
  }

  /** Every link is scored so, and ends in the frame before its node starts. */
  lemma LinksAreScored(g: Graph, marks: seq<bool>, links: Links, log: Log, frame: int, p: Pair)
    requires IsSuffix(g) && Inv(g.ws, g.t, log, frame) && AboveWorst(log)
    requires |marks| == |g.nodes| && AreLinks(g, marks, links) && p in links
    ensures p.from < |g.nodes| && p.to < |g.nodes| && g.nodes[p.to].wid < |g.ws|
    ensures links[p].ef == g.nodes[p.to].sf - 1
    ensures exists i: nat, s: int ::
      && JoinedBy(g, g.nodes[p.from], g.nodes[p.to], i) && MayLink(g, log, i, g.nodes[p.to].wid)
      && IsSegment(g, log, i, g.nodes[p.to].wid, s) && links[p].ascr == if s > 0 then UNLIKELY else s
  {
    hide Inv, AllSpan, LatestFirst, PathsBack, FramesOrdered, OnePerFrame, IsTable, IsConfig, IsSegment, MayLink;
    assert DataOf(g, p, links[p]);
    var i: nat :| Arc(g, p.from, p.to, i)
      && links[p] == LinkData(LinkScore(g, i, g.nodes[p.to].wid), g.nodes[p.to].sf - 1);
    var wid := g.nodes[p.to].wid;
    NodeWord(g, p.to);
    EntrySaves(g, log, frame, i, wid);
    hide IsSuffix, LinkScore, CanLink, JoinedBy;
    var s := OwnSegment(g, log, frame, i, wid);
    LinkScoreExact(g, log, frame, i, wid, s);
  }

  /** So it is in any lattice built on the table of a disciplined run from an empty one. */
  lemma RunLinksAreScored(g: Graph, marks: seq<bool>, links: Links, ops: seq<Op>, p: Pair)
    requires IsSuffix(g) && RunOk(g.ws, Begin(g.ws), ops) && g.t == ApplyAll(g.ws, Begin(g.ws), ops).table
    requires |marks| == |g.nodes| && AreLinks(g, marks, links) && p in links
    ensures p.from < |g.nodes| && p.to < |g.nodes|
    ensures var log := ApplyAll(g.ws, Begin(g.ws), ops).log;
      exists i: nat, s: int ::
        && JoinedBy(g, g.nodes[p.from], g.nodes[p.to], i) && MayLink(g, log, i, g.nodes[p.to].wid)
        && IsSegment(g, log, i, g.nodes[p.to].wid, s) && links[p].ascr == if s > 0 then UNLIKELY else s
  {
    RunFromBegin(g.ws, ops);
    RunSavesAbove(g.ws, Begin(g.ws), ops);
    var s := ApplyAll(g.ws, Begin(g.ws), ops);
    hide RunOk, ApplyAll, Inv, IsSuffix, AreLinks, IsSegment, MayLink, JoinedBy, AboveWorst;
    LinksAreScored(g, marks, links, s.log, s.frame, p);
  }

  lemma NodeWord(g: Graph, k: nat)
    requires IsSuffix(g) && k < |g.nodes|
    ensures g.nodes[k].wid < |g.ws|
  {
    hide PathsBack, FramesOrdered, OnePerFrame, LatestFirst;
    assert Spans(g.cfg, g.t, |g.t.entries|, g.nodes[k]);
  }

  lemma OwnSegment(g: Graph, log: Log, frame: int, i: nat, wid: nat) returns (s: int)
    requires IsSuffix(g) && Inv(g.ws, g.t, log, frame) && AboveWorst(log) && i < |g.t.entries| && wid < |g.ws|
    ensures IsSegment(g, log, i, wid, s)
  {
    EntrySaves(g, log, frame, i, wid);
    var e := g.t.entries[i];
    s := g.cfg.segScore(i) + (SlotScore(log, Key(e.frame, e.wid, SlotFor(g, i, wid))) - e.score);
    hide Inv, IsBestOf, IsSuffix;
  }

  /** Words 0 and 1; word 0 starts in frames 0 and 1, and its second start ends between the ends of the first. */
  function Crossing(): Graph {
    Graph([Word(0, true, "a"), Word(0, true, "b")],
          Config(9, 9, [true, true], 0, _ => 0, (_, _) => 0),
          Table([Bp(0, 1, -1, 0, -1, true), Bp(3, 0, -1, 0, -1, true), Bp(5, 0, 0, 0, -1, true),
                 Bp(6, 0, -1, 0, -1, true), Bp(8, 1, 2, 0, -1, true)], [], [-1, -1]),
          [Node(1, 6, 4, 4), Node(0, 1, 2, 2), Node(0, 0, 1, 3), Node(1, 0, 0, 0)])
  }

  lemma CrossingEntries(i: nat, k: nat)
    requires i < 5 && k < 4
    ensures var g := Crossing(); EntryOf(g.cfg, g.t, i, g.nodes[k]) <==> k == [3, 2, 1, 2, 0][i]
  {
  }

  lemma CrossingIsTable()
    ensures var g := Crossing(); IsConfig(g.ws, g.cfg) && IsTable(g.ws, g.t)
  {
  }

  lemma CrossingPaths()
    ensures PathsBack(Crossing().t)
  {
  }

  lemma CrossingFrames()
    ensures FramesOrdered(Crossing().t, Crossing().cfg.nFrames - 1)
  {
  }

  lemma CrossingOrder()
    ensures var g := Crossing(); OnePerFrame(g.t) && LatestFirst(g.nodes) && |g.t.entries| == 5 && |g.nodes| == 4
  {
  }

  lemma CrossingIsGraph()
    ensures IsGraph(Crossing())
  {
    var g := Crossing();
    hide Crossing, IsConfig, IsTable, PathsBack, FramesOrdered, OnePerFrame, LatestFirst, EntryOf, Spans;
    CrossingIsTable();
    CrossingPaths();
    CrossingFrames();
    CrossingOrder();
    forall k | 0 <= k < 4 ensures Spans(g.cfg, g.t, 5, g.nodes[k]) {
      CrossingSpans(k);
    }
    forall i: nat | i < 5 ensures Represented(g.cfg, g.t, i, g.nodes) {
      CrossingEntries(i, [3, 2, 1, 2, 0][i]);
    }
  }

  lemma CrossingSpans(k: nat)
    requires k < 4
    ensures Spans(Crossing().cfg, Crossing().t, 5, Crossing().nodes[k])
  {
    var g := Crossing();
    hide EntryOf;
    forall i: nat | i < 5 ensures EntryOf(g.cfg, g.t, i, g.nodes[k]) <==> k == [3, 2, 1, 2, 0][i] {
      CrossingEntries(i, k);
    }
  }

  lemma CrossingJoin()
    ensures IsTable(Crossing().ws, Crossing().t) && |Crossing().nodes| == 4 && |Crossing().t.entries| == 5
    ensures var g := Crossing();
      && JoinedBy(g, g.nodes[2], g.nodes[0], 2) && HasSpan(g, g.nodes[2]) && CanLink(g, 2, g.nodes[0].wid)
      && StartFrame(g.t, 2) != g.nodes[2].sf
  {
    CrossingIsTable();
    hide IsTable;
  }

  /** The entry behind a link need not be one of the `from` node: only its word and end frame are looked at. */
  lemma LinkMayUseOtherNode()
    ensures exists g: Graph, k: nat, j: nat, i: nat ::
      IsGraph(g) && Arc(g, k, j, i) && StartFrame(g.t, i) != g.nodes[k].sf
  {
    var g := Crossing();
    hide Crossing, IsDone, AllSpan, LatestFirst, AllRepresented, IsTable, JoinedBy, HasSpan, CanLink, StartFrame;
    CrossingIsGraph();
    CrossingJoin();
    assert Arc(g, 2, 0, 2);
  }

  // ---- when links rest on their own node's entries

  /** Every link of the graph rests on an entry that starts where its node starts. */
  ghost predicate LinksOwn(g: Graph)
    requires IsSuffix(g)
  {
    forall k: nat, j: nat, i: nat :: Arc(g, k, j, i) ==> StartFrame(g.t, i) == g.nodes[k].sf
  }

  /** Entry i is of the word of a wide enough node k and lies between its first and its last entry, but
      starts in another frame. */
  predicate Interloper(g: Graph, k: nat, i: nat) {
    && k < |g.nodes| && g.nodes[k].fef <= i <= g.nodes[k].lef < |g.t.entries| && HasSpan(g, g.nodes[k])
    && g.t.entries[i].wid == g.nodes[k].wid && StartFrame(g.t, i) != g.nodes[k].sf
  }

  /** Some node starts just after entry i, which can leave into its word. */
  ghost predicate Continued(g: Graph, i: nat)
    requires IsTable(g.ws, g.t) && i < |g.t.entries|
  {
    exists j: nat :: j < |g.nodes| && g.nodes[j].sf == Frame(g, i) + 1 && CanLink(g, i, g.nodes[j].wid)
  }

  /** Links rest on their own node's entries if and only if no entry that another node can follow lies
      inside a node of its word with another start frame. */
  lemma LinksOwnExactly(g: Graph)
    requires IsSuffix(g)
    ensures LinksOwn(g) <==> forall k: nat, i: nat :: Interloper(g, k, i) ==> !Continued(g, i)
  {
    hide IsTable, StartFrame, CanLink, PathsBack, FramesOrdered, OnePerFrame, AllSpan, LatestFirst;
    if LinksOwn(g) {
      forall k: nat, i: nat, j: nat | Interloper(g, k, i) && j < |g.nodes| && g.nodes[j].sf == Frame(g, i) + 1
        ensures !CanLink(g, i, g.nodes[j].wid)
      {
        assert !Arc(g, k, j, i);
      }
    }
    forall k: nat, j: nat, i: nat | Arc(g, k, j, i) && StartFrame(g.t, i) != g.nodes[k].sf
      ensures Interloper(g, k, i) && Continued(g, i)
    {
    }
  }

  // ---- the same said of the table alone

  /** Entries a and b of one word start together, entry i of that word between them does not. */
  predicate Interleaved(t: Table, a: nat, i: nat, b: nat) {
    && a < i < b < |t.entries| && t.entries[a].valid && t.entries[b].valid
    && t.entries[a].wid == t.entries[i].wid == t.entries[b].wid
    && StartFrame(t, a) == StartFrame(t, b) != StartFrame(t, i)
  }

  /** Some right context was saved for entry i. */
  ghost predicate CanLeave(ws: Words, t: Table, i: nat)
    requires IsTable(ws, t) && i < |t.entries|
  {
    exists k: nat :: LeavesBy(ws, t, i, k)
  }

  predicate LeavesBy(ws: Words, t: Table, i: nat, k: nat)
    requires IsTable(ws, t) && i < |t.entries|
  {
    var e := t.entries[i];
    if e.sIdx == -1 then e.score != Hmm.WORST_SCORE else k < ws[e.wid].nRc && t.stack[e.sIdx + k] != Hmm.WORST_SCORE
  }

  ghost predicate Misleads(ws: Words, t: Table, a: nat, i: nat, b: nat, c: nat)
    requires IsTable(ws, t)
  {
    && Interleaved(t, a, i, b) && CanLeave(ws, t, i)
    && c < |t.entries| && t.entries[c].valid && StartFrame(t, c) == t.entries[i].frame + 1
  }

  ghost predicate IsTableFor(ws: Words, t: Table, nFrames: nat) {
    IsTable(ws, t) && PathsBack(t) && FramesOrdered(t, nFrames - 1) && OnePerFrame(t)
  }

  /** The nodes of a table, entry by entry. */
  lemma {:induction false} NodesExist(ws: Words, cfg: Config, t: Table, n: nat) returns (nodes: seq<Node>)
    requires IsDone(ws, cfg, t) && n <= |t.entries|
    ensures NodesOf(cfg, t, n, nodes)
  {
    hide IsDone, Spans, AllRepresented, AllSpan, LatestFirst, StartFrame, Kept;
    if n == 0 {
      nodes := [];
      NoNodes(cfg, t);
    } else {
      nodes := NodesExist(ws, cfg, t, n - 1);
      var wid, sf := t.entries[n - 1].wid, StartFrame(t, n - 1);
      if !Kept(cfg, t, n - 1) {
        SkippedEntry(cfg, t, n - 1, nodes);
      } else if k :| 0 <= k < |nodes| && nodes[k].wid == wid && nodes[k].sf == sf {
        KnownEntry(cfg, t, n - 1, nodes, k);
        nodes := nodes[k := nodes[k].(lef := n - 1)];
      } else {
        StartNotNegative(ws, cfg, t, n - 1);
        FirstEntry(cfg, t, n - 1, nodes, Node(wid, sf, n - 1, n - 1));
        nodes := [Node(wid, sf, n - 1, n - 1)] + nodes;
      }
    }
  }

  lemma NoNodes(cfg: Config, t: Table)
    ensures NodesOf(cfg, t, 0, [])
  {
  }

  lemma StartNotNegative(ws: Words, cfg: Config, t: Table, i: nat)
    requires IsDone(ws, cfg, t) && i < |t.entries|
    ensures StartFrame(t, i) >= 0
  {
  }

  lemma SpanEnds(cfg: Config, t: Table, n: nat, v: Node)
    requires n <= |t.entries| && Spans(cfg, t, n, v)
    ensures v.fef <= v.lef < n && t.entries[v.fef].valid && t.entries[v.lef].valid
    ensures t.entries[v.fef].wid == t.entries[v.lef].wid == v.wid
    ensures StartFrame(t, v.fef) == StartFrame(t, v.lef) == v.sf
  {
  }

  lemma CanLinkLeaves(g: Graph, i: nat, wid: nat)
    requires IsTable(g.ws, g.t) && i < |g.t.entries| && CanLink(g, i, wid)
    ensures CanLeave(g.ws, g.t, i)
  {
    assert LeavesBy(g.ws, g.t, i, g.cfg.slot(g.t.entries[i].wid, wid));
  }

  lemma FollowsFromTable(g: Graph, k: nat, j: nat, i: nat)
    requires IsGraph(g) && Arc(g, k, j, i) && StartFrame(g.t, i) != g.nodes[k].sf
    ensures Misleads(g.ws, g.t, g.nodes[k].fef, i, g.nodes[k].lef, g.nodes[j].fef)
  {
    hide StartFrame, IsTable, Spans, CanLink, CanLeave, HasSpan;
    hide PathsBack, FramesOrdered, OnePerFrame, AllRepresented, LatestFirst, Represented;
    SpanEnds(g.cfg, g.t, |g.t.entries|, g.nodes[k]);
    SpanEnds(g.cfg, g.t, |g.t.entries|, g.nodes[j]);
    CanLinkLeaves(g, i, g.nodes[j].wid);
  }

  /** A configuration that knows every word, asks for no spread and lets entry i leave through slot k. */
  function Lenient(ws: Words, t: Table, nFrames: nat, i: nat, k: nat): (cfg: Config)
    requires IsTable(ws, t) && i < |t.entries|
    requires LeavesBy(ws, t, i, k)
    ensures IsConfig(ws, cfg) && cfg.nFrames == nFrames && cfg.minEndfr == 0
    ensures forall n: nat :: n < |t.entries| && t.entries[n].valid ==> Kept(cfg, t, n)
  {
    var e := t.entries[i];
    var exit := if e.sIdx == -1 then e.score else t.stack[e.sIdx + k];
    Config(nFrames, |ws|, seq(|ws|, _ => true), 0, _ => e.score - exit,
           (a: nat, b: nat) => if a == e.wid then k else 0)
  }

  lemma LenientLinks(g: Graph, i: nat, k: nat, wid: nat)
    requires IsTable(g.ws, g.t) && i < |g.t.entries| && LeavesBy(g.ws, g.t, i, k)
    requires g.cfg == Lenient(g.ws, g.t, g.cfg.nFrames, i, k)
    ensures CanLink(g, i, wid)
  {
  }

  /** The node of a kept entry. */
  lemma NodeOf(cfg: Config, t: Table, nodes: seq<Node>, i: nat) returns (k: nat)
    requires AllRepresented(cfg, t, |t.entries|, nodes) && AllSpan(cfg, t, |t.entries|, nodes)
    requires i < |t.entries| && Kept(cfg, t, i)
    ensures k < |nodes| && Spans(cfg, t, |t.entries|, nodes[k])
    ensures nodes[k].wid == t.entries[i].wid && nodes[k].sf == StartFrame(t, i)
  {
    assert Represented(cfg, t, i, nodes);
    k :| 0 <= k < |nodes| && EntryOf(cfg, t, i, nodes[k]);
  }

  lemma InSpan(cfg: Config, t: Table, v: Node, i: nat)
    requires Spans(cfg, t, |t.entries|, v) && i < |t.entries| && Kept(cfg, t, i)
    requires v.wid == t.entries[i].wid && v.sf == StartFrame(t, i)
    ensures v.fef <= i <= v.lef < |t.entries|
  {
    assert EntryOf(cfg, t, i, v);
  }

  /** A table that misleads has a lattice with a link that rests on another node's entry. */
  lemma MisleadingShows(ws: Words, t: Table, nFrames: nat, a: nat, i: nat, b: nat, c: nat) returns (g: Graph)
    requires IsTableFor(ws, t, nFrames) && Misleads(ws, t, a, i, b, c)
    ensures g.ws == ws && g.t == t && g.cfg.nFrames == nFrames && IsGraph(g) && !LinksOwn(g)
  {
    hide StartFrame, IsTable, Spans, PathsBack, OnePerFrame, LeavesBy;
    var slot: nat :| LeavesBy(ws, t, i, slot);
    var cfg := Lenient(ws, t, nFrames, i, slot);
    var nodes := NodesExist(ws, cfg, t, |t.entries|);
    g := Graph(ws, cfg, t, nodes);
    var k := NodeOf(cfg, t, nodes, a);
    var j := NodeOf(cfg, t, nodes, c);
    InSpan(cfg, t, nodes[k], a);
    InSpan(cfg, t, nodes[k], b);
    LenientLinks(g, i, slot, nodes[j].wid);
    hide Lenient, CanLink, Kept, AllRepresented, AllSpan, LatestFirst;
    assert HasSpan(g, nodes[k]);
    assert IsGraph(g) && Arc(g, k, j, i);
  }

  /** All lattices of a table, whatever the configuration, link on their own nodes' entries if and only if
      the table has no entry between two of its word that start together elsewhere, with a way out and a
      word starting just after it. */
  lemma TableLinksOwnExactly(ws: Words, t: Table, nFrames: nat)
    requires IsTableFor(ws, t, nFrames)
    ensures (forall g: Graph :: g.ws == ws && g.t == t && g.cfg.nFrames == nFrames && IsGraph(g) ==> LinksOwn(g))
       <==> forall a: nat, i: nat, b: nat, c: nat :: !Misleads(ws, t, a, i, b, c)
  {
    hide IsTable, Misleads, PathsBack, FramesOrdered, OnePerFrame, AllSpan, LatestFirst, JoinedBy, StartFrame;
    if a: nat, i: nat, b: nat, c: nat :| Misleads(ws, t, a, i, b, c) {
      var g := MisleadingShows(ws, t, nFrames, a, i, b, c);
      assert IsGraph(g) && !LinksOwn(g);
    }
    if g: Graph :| g.ws == ws && g.t == t && g.cfg.nFrames == nFrames && IsGraph(g) && !LinksOwn(g) {
      var k: nat, j: nat, i: nat :| Arc(g, k, j, i) && StartFrame(g.t, i) != g.nodes[k].sf;
      FollowsFromTable(g, k, j, i);
    }
  }

  // ---- the pass, pair by pair

  /** The link loop has looked at `from` k for `to` j when it stands at (to, f). */
  predicate Seen(to: nat, f: nat, k: nat, j: nat) {
    j < to || (j == to && k < f)
  }

  ghost predicate SeenArc(g: Graph, marks: seq<bool>, to: nat, f: nat, k: nat, j: nat)
    requires IsSuffix(g)
  {
    j < |marks| && marks[j] && Seen(to, f, k, j) && HasArc(g, k, j)
  }

  ghost predicate SeenFrom(g: Graph, marks: seq<bool>, to: nat, f: nat, k: nat)
    requires IsSuffix(g)
  {
    k == 0 || exists j: nat :: SeenArc(g, marks, to, f, k, j)
  }

  /** Marks and links are right for the pairs looked at so far. */
  ghost predicate SoFar(g: Graph, marks: seq<bool>, links: Links, to: nat, f: nat)
    requires IsSuffix(g)
  {
    && |marks| == |g.nodes|
    && (forall k: nat :: k < |marks| ==> (marks[k] <==> SeenFrom(g, marks, to, f, k)))
    && (forall p :: p in links <==> SeenArc(g, marks, to, f, p.from, p.to))
    && (forall p :: p in links ==> DataOf(g, p, links[p]))
  }

  /** The pass has looked at every pair: the marks and links are the lattice's. */
  lemma AllSeen(g: Graph, marks: seq<bool>, links: Links)
    requires IsSuffix(g) && SoFar(g, marks, links, |g.nodes|, 0)
    ensures IsMarking(g, marks) && AreLinks(g, marks, links)
  {
    hide IsSuffix, HasArc, DataOf;
    forall k: nat | k < |g.nodes| ensures marks[k] <==> k == 0 || ArcToMarked(g, marks, k) {
      assert SeenFrom(g, marks, |g.nodes|, 0, k) <==> k == 0 || ArcToMarked(g, marks, k) by {
        if k != 0 && ArcToMarked(g, marks, k) {
          var j: nat :| j < |marks| && marks[j] && HasArc(g, k, j);
          assert SeenArc(g, marks, |g.nodes|, 0, k, j);
        }
      }
    }
  }

  /** Positions that have looked at the same arcs. */
  lemma SameSoFar(g: Graph, marks: seq<bool>, links: Links, to: nat, f: nat, to': nat, f': nat)
    requires IsSuffix(g) && SoFar(g, marks, links, to, f)
    requires forall k: nat, j: nat :: SeenArc(g, marks, to, f, k, j) == SeenArc(g, marks, to', f', k, j)
    ensures SoFar(g, marks, links, to', f')
  {
    hide IsSuffix, SeenArc, DataOf;
  }

  lemma PassOver(g: Graph, marks: seq<bool>, links: Links, to: nat)
    requires IsSuffix(g) && SoFar(g, marks, links, to, 0) && to < |marks| && !marks[to]
    ensures SoFar(g, marks, links, to + 1, 0)
  {
    hide SoFar, IsSuffix, HasArc, DataOf;
    SameSoFar(g, marks, links, to, 0, to + 1, 0);
  }

  /** Scanning from the next node on misses no pair. */
  lemma ScanFromNext(g: Graph, marks: seq<bool>, links: Links, to: nat)
    requires IsSuffix(g) && SoFar(g, marks, links, to, 0) && to < |g.nodes|
    ensures SoFar(g, marks, links, to, to + 1)
  {
    hide SoFar, IsSuffix, HasArc, DataOf;
    forall k: nat, j: nat ensures SeenArc(g, marks, to, 0, k, j) == SeenArc(g, marks, to, to + 1, k, j) {
      if SeenArc(g, marks, to, to + 1, k, j) {
        ArcsGoBack(g, k, j);
      }
    }
    SameSoFar(g, marks, links, to, 0, to, to + 1);
  }

  lemma RowSeen(g: Graph, marks: seq<bool>, links: Links, to: nat)
    requires IsSuffix(g) && SoFar(g, marks, links, to, |g.nodes|) && to < |g.nodes|
    ensures SoFar(g, marks, links, to + 1, 0)
  {
    hide SoFar, IsSuffix, HasArc, DataOf;
    forall k: nat, j: nat
      ensures SeenArc(g, marks, to, |g.nodes|, k, j) == SeenArc(g, marks, to + 1, 0, k, j)
    {
      if SeenArc(g, marks, to + 1, 0, k, j) {
        ArcsGoBack(g, k, j);
      }
    }
    SameSoFar(g, marks, links, to, |g.nodes|, to + 1, 0);
  }

  lemma NoArcSeen(g: Graph, marks: seq<bool>, links: Links, to: nat, f: nat)
    requires IsSuffix(g) && SoFar(g, marks, links, to, f) && !HasArc(g, f, to)
    ensures SoFar(g, marks, links, to, f + 1)
  {
    hide IsSuffix, HasArc, DataOf;
    SameSoFar(g, marks, links, to, f, to, f + 1);
  }

  lemma ArcSeen(g: Graph, marks: seq<bool>, links: Links, to: nat, f: nat, data: LinkData)
    requires IsSuffix(g) && SoFar(g, marks, links, to, f) && to < f < |g.nodes| && marks[to]
    requires HasArc(g, f, to) && DataOf(g, Pair(f, to), data)
    ensures Pair(f, to) !in links && SoFar(g, marks[f := true], links[Pair(f, to) := data], to, f + 1)
  {
    hide IsSuffix, HasArc, DataOf;
    var marks', links' := marks[f := true], links[Pair(f, to) := data];
    forall k: nat, j: nat
      ensures SeenArc(g, marks', to, f + 1, k, j) <==> SeenArc(g, marks, to, f, k, j) || (k == f && j == to)
    {
    }
    forall k: nat | k < |marks'| ensures marks'[k] <==> SeenFrom(g, marks', to, f + 1, k) {
      ArcSeenFrom(g, marks, to, f, k);
      assert marks[k] <==> SeenFrom(g, marks, to, f, k);
    }
    hide SeenArc, SeenFrom;
    assert !SeenArc(g, marks, to, f, f, to) by { NotYetSeen(g, marks, to, f); }
  }

  lemma NotYetSeen(g: Graph, marks: seq<bool>, to: nat, f: nat)
    requires IsSuffix(g)
    ensures !SeenArc(g, marks, to, f, f, to)
  {
  }

  lemma ArcSeenFrom(g: Graph, marks: seq<bool>, to: nat, f: nat, k: nat)
    requires IsSuffix(g) && to < f < |marks| && marks[to] && HasArc(g, f, to)
    ensures SeenFrom(g, marks[f := true], to, f + 1, k) <==> SeenFrom(g, marks, to, f, k) || k == f
  {
    hide IsSuffix, HasArc;
    var marks' := marks[f := true];
    if SeenFrom(g, marks', to, f + 1, k) && k != 0 && k != f {
      var j: nat :| SeenArc(g, marks', to, f + 1, k, j);
      assert SeenArc(g, marks, to, f, k, j);
    }
    if SeenFrom(g, marks, to, f, k) && k != 0 {
      var j: nat :| SeenArc(g, marks, to, f, k, j);
      assert SeenArc(g, marks', to, f + 1, k, j);
    }
    if k == f {
      assert SeenArc(g, marks', to, f + 1, f, to);
    }
  }

  lemma StartSoFar(g: Graph)
    requires IsSuffix(g) && g.nodes != []
    ensures SoFar(g, seq(|g.nodes|, k => k == 0), map[], 0, 0)
  {
    hide IsSuffix, HasArc, DataOf;
  }

  /** No marked node but the end node has too few end frames, so the second test of the span never fires. */
  lemma MarkedHaveSpan(g: Graph, marks: seq<bool>, links: Links, to: nat)
    requires IsSuffix(g) && SoFar(g, marks, links, to, 0) && 0 < to < |g.nodes| && marks[to]
    ensures HasSpan(g, g.nodes[to])
  {
    hide IsSuffix, DataOf;
    assert SeenFrom(g, marks, to, 0, to);
    var j: nat :| SeenArc(g, marks, to, 0, to, j);
  }

  // ---- the builder

  class Dag {
    const ws: Words
    const cfg: Config
    const t: Table
    var nodes: seq<Node>
    var marks: seq<bool>
    var links: Links

    function G(): Graph
      reads this
    {
      Graph(ws, cfg, t, nodes)
    }

    constructor (ws: Words, cfg: Config, t: Table)
      requires IsDone(ws, cfg, t)
      ensures this.ws == ws && this.cfg == cfg && this.t == t && nodes == []
    {
      this.ws, this.cfg, this.t := ws, cfg, t;
      nodes, marks, links := [], [], map[];
    }

    /** The search for a node of this word and start frame. */
    method FindNode(wid: nat, sf: int) returns (k: nat)
      ensures k <= |nodes| && (k < |nodes| ==> nodes[k].wid == wid && nodes[k].sf == sf)
      ensures forall j :: 0 <= j < k ==> !(nodes[j].wid == wid && nodes[j].sf == sf)
    {
      k := 0;
      while k < |nodes| && !(nodes[k].wid == wid && nodes[k].sf == sf)
        invariant k <= |nodes| && forall j :: 0 <= j < k ==> !(nodes[j].wid == wid && nodes[j].sf == sf)
      {
        k := k + 1;
      }
    }

    /** create_dag_nodes. */
    method CreateNodes()
      requires IsDone(ws, cfg, t) && nodes == []
      modifies this`nodes
      ensures IsGraph(G())
    {
      hide Spans, Represented, IsConfig, IsTable, FramesOrdered, OnePerFrame, LatestFirst;
      assert NodesOf(cfg, t, 0, nodes) by { assert LatestFirst(nodes) by { NoneOrdered(); } }
      for n := 0 to |t.entries|
        invariant NodesOf(cfg, t, n, nodes)
      {
        hide AllSpan, AllRepresented;
        var e := t.entries[n];
        var sf := if e.bp < 0 then 0 else t.entries[e.bp].frame + 1;
        assert sf == StartFrame(t, n);
        if e.valid && !(e.wid == cfg.finishWid && e.frame < cfg.nFrames - 1) && e.wid < |cfg.inLm| && cfg.inLm[e.wid] {
          var k := FindNode(e.wid, sf);
          if k < |nodes| {
            KnownEntry(cfg, t, n, nodes, k);
            nodes := nodes[k := nodes[k].(lef := n)];
          } else {
            FirstEntry(cfg, t, n, nodes, Node(e.wid, sf, n, n));
            nodes := [Node(e.wid, sf, n, n)] + nodes;
          }
        } else {
          SkippedEntry(cfg, t, n, nodes);
        }
      }
    }

    /** The nodes before the end node are taken off the list. */
    method DropBefore(end: nat)
      requires end < |nodes|
      modifies this`nodes
      ensures nodes == old(nodes)[end..]
    {
      var i := 0;
      while i < end
        invariant i <= end && nodes == old(nodes)[i..]
      {
        nodes := nodes[1..];
        i := i + 1;
      }
    }

    /** The table entry for `a` that exactly precedes `b`. */
    method FindJoin(a: Node, b: Node) returns (found: bool, i: nat)
      requires FramesOrdered(t, cfg.nFrames - 1) && a.fef <= a.lef < |t.entries|
      ensures found ==> JoinedBy(G(), a, b, i)
      ensures !found ==> forall j: nat :: !JoinedBy(G(), a, b, j)
    {
      i := a.fef;
      while i <= a.lef && !(t.entries[i].wid == a.wid && t.entries[i].frame >= b.sf - 1)
        invariant a.fef <= i <= a.lef + 1
        invariant forall j: nat :: j < i ==> !JoinedBy(G(), a, b, j)
      {
        i := i + 1;
      }
      found := i <= a.lef && t.entries[i].frame == b.sf - 1;
    }

    /** The exit score of entry i into word wid: that of BpTable.ExitScore. */
    method ExitScore(i: nat, wid: nat) returns (s: int)
      requires IsConfig(ws, cfg) && IsTable(ws, t) && i < |t.entries| && wid < |ws|
      ensures s == ExitOf(G(), i, wid)
    {
      var e := t.entries[i];
      if e.sIdx == -1 {
        s := e.score;
      } else {
        s := t.stack[e.sIdx + cfg.slot(e.wid, wid)];
      }
    }

    /** ps_lattice_link. */
    method AddLinkTo(p: Pair, data: LinkData)
      modifies this`links
      ensures links == AddLink(old(links), p, data)
    {
      if p !in links || data.ascr > links[p].ascr {
        links := links[p := data];
      }
    }

    /** The body of the inner loop: one pair of nodes. */
    method LinkPair(from: nat, to: nat)
      requires IsSuffix(G()) && to < from < |nodes| && |marks| == |nodes| && nodes[to].wid < |ws|
      modifies this`marks, this`links
      ensures !HasArc(G(), from, to) ==> marks == old(marks) && links == old(links)
      ensures HasArc(G(), from, to) ==> marks == old(marks)[from := true]
      ensures HasArc(G(), from, to) ==>
        exists data :: DataOf(G(), Pair(from, to), data) && links == AddLink(old(links), Pair(from, to), data)
    {
      ghost var g := G();
      var a, b := nodes[from], nodes[to];
      assert Spans(cfg, t, |t.entries|, a);
      hide PathsBack, OnePerFrame, AllSpan, LatestFirst, Spans;
      if b.sf <= t.entries[a.fef].frame || b.sf > t.entries[a.lef].frame + 1 {
        NeverJoined(g, from, to);
        return;
      }
      if t.entries[a.lef].frame - t.entries[a.fef].frame < cfg.minEndfr {
        return;
      }
      var found, i := FindJoin(a, b);
      if !found {
        return;
      }
      var s := ExitScore(i, b.wid);
      OnlyJoin(g, from, to, i);
      if s == Hmm.WORST_SCORE {
        return;
      }
      var score := cfg.segScore(i) + (s - t.entries[i].score);
      if score > 0 {
        AddLinkTo(Pair(from, to), LinkData(UNLIKELY, t.entries[i].frame));
        marks := marks[from := true];
      } else if score > Hmm.WORST_SCORE {
        AddLinkTo(Pair(from, to), LinkData(score, t.entries[i].frame));
        marks := marks[from := true];
      }
      hide CanLink, JoinedBy, HasSpan;
      assert HasArc(g, from, to) ==> DataOf(g, Pair(from, to), LinkData(LinkScore(g, i, b.wid), b.sf - 1));
    }

    /** All predecessors of one node. */
    method LinkInto(to: nat)
      requires IsSuffix(G()) && SoFar(G(), marks, links, to, 0) && to < |nodes| && marks[to] && nodes[to].wid < |ws|
      modifies this`marks, this`links
      ensures SoFar(G(), marks, links, to + 1, 0)
    {
      hide IsSuffix, HasArc, DataOf, SeenFrom, SeenArc;
      ghost var g := G();
      ScanFromNext(g, marks, links, to);
      for from := to + 1 to |nodes|
        invariant SoFar(g, marks, links, to, from) && marks[to]
      {
        ghost var m, l := marks, links;
        LinkPair(from, to);
        if HasArc(g, from, to) {
          ghost var data :| DataOf(g, Pair(from, to), data) && links == AddLink(l, Pair(from, to), data);
          ArcSeen(g, m, l, to, from, data);
        } else {
          NoArcSeen(g, m, l, to, from);
        }
      }
      RowSeen(g, marks, links, to);
    }

    /** The link loop of ngram_search_lattice: precedence links, and the nodes that reach the end node. */
    method LinkAll()
      requires IsSuffix(G()) && nodes != []
      modifies this`marks, this`links
      ensures IsMarking(G(), marks) && AreLinks(G(), marks, links)
    {
      ghost var g := G();
      assert forall k :: 0 <= k < |nodes| ==> Spans(cfg, t, |t.entries|, nodes[k]) && nodes[k].wid < |ws|;
      hide IsSuffix, HasArc, DataOf, SeenFrom, SeenArc;
      marks := seq(|nodes|, k => k == 0);
      links := map[];
      StartSoFar(g);
      for to := 0 to |nodes|
        invariant SoFar(g, marks, links, to, 0)
      {
        if !marks[to] {
          PassOver(g, marks, links, to);
        } else {
          if to != 0 {
            MarkedHaveSpan(g, marks, links, to);
            assert t.entries[nodes[to].lef].frame - t.entries[nodes[to].fef].frame >= cfg.minEndfr;
          }
          LinkInto(to);
        }
      }
      AllSeen(g, marks, links);
    }

    /** ngram_search_lattice, for an end node of the list and a start node: true when a path leads from one
        to the other. */
    method Build(start: nat, end: nat) returns (joined: bool)
      requires IsGraph(G()) && start < |nodes| && end < |nodes|
      modifies this`nodes, this`marks, this`links
      ensures nodes == old(nodes)[end..] && IsSuffix(G()) && IsSuffix(old(G())) && |marks| == |nodes|
      ensures AreLinks(G(), marks, links)
      ensures forall k: nat :: k < |nodes| ==> (marks[k] <==> Reaches(old(G()), end + k, end))
      ensures joined <==> Reaches(old(G()), start, end)
    {
      hide IsDone, AllSpan, LatestFirst, AllRepresented, IsMarking, AreLinks, Reaches;
      ghost var g := G();
      assert IsSuffix(g);
      DropIsSuffix(g, end);
      DropBefore(end);
      assert G() == Drop(g, end);
      LinkAll();
      MarksLength(G(), marks);
      joined := start >= end && marks[start - end];
      forall k: nat | k < |nodes| ensures marks[k] <==> Reaches(g, end + k, end) {
        MarkingIsReachability(G(), marks, k);
        DroppedNodesUseless(g, end, Drop(g, end), end + k);
      }
      DroppedNodesUseless(g, end, Drop(g, end), start);
    }
  }

  lemma NoneOrdered()
    ensures LatestFirst([])
  {
  }

  lemma NeverJoined(g: Graph, k: nat, j: nat)
    requires IsSuffix(g) && k < |g.nodes| && j < |g.nodes|
    requires g.nodes[j].sf <= Frame(g, g.nodes[k].fef) || g.nodes[j].sf > Frame(g, g.nodes[k].lef) + 1
    ensures !HasArc(g, k, j)
  {
    hide IsDone, AllSpan, LatestFirst;
    if HasArc(g, k, j) {
      var i :| Arc(g, k, j, i);
      JoinedInTime(g, g.nodes[k], g.nodes[j], i);
    }
  }

  /** Whether there is an arc is decided by the one entry that joins. */
  lemma OnlyJoin(g: Graph, k: nat, j: nat, i: nat)
    requires IsSuffix(g) && k < |g.nodes| && j < |g.nodes| && JoinedBy(g, g.nodes[k], g.nodes[j], i)
    requires HasSpan(g, g.nodes[k])
    ensures HasArc(g, k, j) <==> CanLink(g, i, g.nodes[j].wid)
    ensures HasArc(g, k, j) <==> Arc(g, k, j, i)
  {
    assert IsTable(g.ws, g.t);
    hide IsDone, AllSpan, LatestFirst;
    if HasArc(g, k, j) {
      var i' :| Arc(g, k, j, i');
      OneJoins(g, g.nodes[k], g.nodes[j], i, i');
    }
    if CanLink(g, i, g.nodes[j].wid) {
      assert Arc(g, k, j, i);
    }
  }

  // ---- the search's own backtraces in the lattice

  /** The node of an entry has an arc to the node of the entry that follows it, resting on the entry itself, if
      and only if the first node is wide enough and the entry can leave into the second's word.  No other
      entry can make the arc. */
  lemma FollowingArc(g: Graph, k: nat, j: nat, b: nat, i: nat)
    requires IsSuffix(g) && k < |g.nodes| && j < |g.nodes| && i < |g.t.entries| && g.t.entries[i].bp == b
    requires EntryOf(g.cfg, g.t, b, g.nodes[k]) && EntryOf(g.cfg, g.t, i, g.nodes[j])
    ensures g.nodes[k].fef <= g.nodes[k].lef < |g.t.entries|
    ensures HasArc(g, k, j) <==> Arc(g, k, j, b)
    ensures Arc(g, k, j, b) <==> HasSpan(g, g.nodes[k]) && CanLink(g, b, g.nodes[j].wid)
    ensures forall e: nat :: Arc(g, k, j, e) ==> e == b
  {
    hide IsDone, LatestFirst, CanLink, HasSpan, Kept;
    assert Spans(g.cfg, g.t, |g.t.entries|, g.nodes[k]);
    hide AllSpan;
    assert JoinedBy(g, g.nodes[k], g.nodes[j], b);
    forall e: nat | Arc(g, k, j, e) ensures e == b {
      OneJoins(g, g.nodes[k], g.nodes[j], e, b);
    }
  }

  /** The nodes of the entries of a backtrace. */
  predicate NodesAlong(g: Graph, c: seq<nat>, p: seq<nat>) {
    |p| == |c| && forall n :: 0 <= n < |p| ==> p[n] < |g.nodes| && EntryOf(g.cfg, g.t, c[n], g.nodes[p[n]])
  }

  /** Each entry but the last can leave its node into the word of the next. */
  predicate LinksAlong(g: Graph, c: seq<nat>, p: seq<nat>)
    requires IsTable(g.ws, g.t) && NodesAlong(g, c, p)
  {
    forall n :: 0 <= n < |p| - 1 ==> LinksAt(g, c, p, n)
  }

  predicate LinksAt(g: Graph, c: seq<nat>, p: seq<nat>, n: nat)
    requires IsTable(g.ws, g.t) && NodesAlong(g, c, p) && n < |p| - 1
  {
    var v := g.nodes[p[n]];
    v.fef <= v.lef < |g.t.entries| && HasSpan(g, v) && CanLink(g, c[n], g.nodes[p[n + 1]].wid)
  }

  ghost predicate IsBacktrace(t: Table, bp: nat, c: seq<nat>) {
    PathsBack(t) && bp < |t.entries| && c == Chain(t, bp)
  }

  lemma BacktraceFacts(t: Table, bp: nat, c: seq<nat>)
    requires IsBacktrace(t, bp, c)
    ensures c != [] && (forall n :: 0 <= n < |c| ==> c[n] < |t.entries|)
    ensures forall n :: 0 <= n < |c| - 1 ==> t.entries[c[n + 1]].bp == c[n]
  {
    ChainIsPath(t, bp);
    assert c[|c| - 1] == bp;
    hide Chain;
    forall n | 0 <= n < |c| - 1 ensures t.entries[c[n + 1]].bp == c[n] {
      var m := n + 1;
      assert t.entries[c[m]].bp == c[m - 1];
    }
  }

  /** When all its entries are kept, a backtrace has its nodes in the lattice. */
  lemma BacktraceHasNodes(g: Graph, bp: nat, c: seq<nat>) returns (p: seq<nat>)
    requires IsGraph(g) && IsBacktrace(g.t, bp, c)
    requires forall n :: 0 <= n < |c| ==> c[n] < |g.t.entries| && Kept(g.cfg, g.t, c[n])
    ensures NodesAlong(g, c, p)
  {
    hide IsDone, AllSpan, LatestFirst, Kept, EntryOf, IsBacktrace;
    p := [];
    for m := 0 to |c|
      invariant |p| == m && forall n :: 0 <= n < m ==> p[n] < |g.nodes| && EntryOf(g.cfg, g.t, c[n], g.nodes[p[n]])
    {
      assert Represented(g.cfg, g.t, c[m], g.nodes);
      var k :| 0 <= k < |g.nodes| && EntryOf(g.cfg, g.t, c[m], g.nodes[k]);
      p := p + [k];
    }
  }

  /** The one-best backtrace is a chain of arcs in the lattice, if and only if each of its entries can leave
      its node into the word of the next. */
  lemma BacktraceIsChain(g: Graph, bp: nat, c: seq<nat>, p: seq<nat>)
    requires IsSuffix(g) && IsBacktrace(g.t, bp, c) && NodesAlong(g, c, p)
    ensures IsChain(g, p) <==> LinksAlong(g, c, p)
  {
    BacktraceFacts(g.t, bp, c);
    assert IsTable(g.ws, g.t);
    hide IsSuffix, LinksAt, EntryOf, HasArc, IsBacktrace, IsTable;
    if LinksAlong(g, c, p) {
      forall n | 0 <= n < |p| - 1 ensures HasArc(g, p[n], p[n + 1]) {
        assert LinksAt(g, c, p, n);
        AlongArc(g, bp, c, p, n, p[n], p[n + 1]);
      }
    }
    if IsChain(g, p) {
      forall n | 0 <= n < |p| - 1 ensures LinksAt(g, c, p, n) {
        assert HasArc(g, p[n], p[n + 1]);
        AlongArc(g, bp, c, p, n, p[n], p[n + 1]);
      }
    }
  }

  lemma AlongArc(g: Graph, bp: nat, c: seq<nat>, p: seq<nat>, n: nat, k: nat, j: nat)
    requires IsSuffix(g) && IsBacktrace(g.t, bp, c) && NodesAlong(g, c, p)
    requires n < |p| - 1 && k == p[n] && j == p[n + 1]
    ensures HasArc(g, k, j) <==> LinksAt(g, c, p, n)
    ensures forall e: nat :: Arc(g, k, j, e) ==> e == c[n]
  {
    BacktraceFacts(g.t, bp, c);
    hide IsDone, AllSpan, LatestFirst, EntryOf, HasArc, CanLink, HasSpan, Arc, IsBacktrace;
    assert g.t.entries[c[n + 1]].bp == c[n];
    FollowingArc(g, k, j, c[n], c[n + 1]);
  }

  /** In the lattice built for the node of the last entry, the whole backtrace is then linked, with the scores
      of its own entries. */
  lemma BacktraceIsLinked(g: Graph, marks: seq<bool>, links: Links, bp: nat, c: seq<nat>, p: seq<nat>, n: nat,
                          pair: Pair)
    requires IsSuffix(g) && IsBacktrace(g.t, bp, c) && NodesAlong(g, c, p) && LinksAlong(g, c, p) && p[|p| - 1] == 0
    requires IsMarking(g, marks) && |marks| == |g.nodes| && AreLinks(g, marks, links)
    requires n < |p| - 1 && pair == Pair(p[n], p[n + 1])
    ensures c[n] < |g.t.entries| && pair.to < |g.nodes| && pair in links
    ensures links[pair] == LinkData(LinkScore(g, c[n], g.nodes[pair.to].wid), g.nodes[pair.to].sf - 1)
  {
    BacktraceFacts(g.t, bp, c);
    BacktraceIsChain(g, bp, c, p);
    AlongArc(g, bp, c, p, n, pair.from, pair.to);
    TailIsChain(g, p, n + 1);
    ReachesMarked(g, marks, p[n + 1..]);
    assert IsTable(g.ws, g.t);
    hide IsSuffix, EntryOf, HasArc, Arc, IsMarking, LinkScore, IsBacktrace, LinksAlong, IsTable, IsChain;
    assert DataOf(g, pair, links[pair]);
  }

  lemma TailIsChain(g: Graph, p: seq<nat>, n: nat)
    requires IsSuffix(g) && IsChain(g, p) && n < |p|
    ensures IsChain(g, p[n..]) && p[n..][|p| - n - 1] == p[|p| - 1] && p[n..][0] == p[n]
  {
    hide IsSuffix, HasArc;
    var q := p[n..];
    forall m | 0 <= m < |q| - 1 ensures HasArc(g, q[m], q[m + 1]) {
      assert q[m] == p[n + m] && q[m + 1] == p[n + m + 1];
    }
  }
}
