/** Alignments and the grammar: the words an alignment takes are a path of the grammar, and with the lexical trees
    as they are built every path of the grammar has alignments.  So the best alignment is the best of all paths of
    the grammar, not only of the ways through the trees. */
module FsgWords {
  import opened HmmOptimal
  import opened Fsg
  import opened FsgStep
  import opened FsgRun
  import opened FsgAligns
  import opened FsgOptimal
  import opened FsgBest
  import opened FsgResult
  import FsgPaths
  import FsgContexts
  import FsgLextree

  // ---- what an alignment spells is a path of the grammar

  /** Null transitions stand alone: the grammar holds their transitive closure. */
  predicate Alternates(ls: seq<Link>) {
    forall n :: 0 <= n < |ls| ==> StandsAlone(ls, n)
  }

  predicate StandsAlone(ls: seq<Link>, n: nat)
    requires n < |ls|
  {
    ls[n].wid >= 0 || (ls[n].wid == -1 && (n == 0 || ls[n - 1].wid >= 0))
  }

  lemma AlternatesSnoc(ls: seq<Link>, l: Link)
    ensures Alternates(ls + [l]) <==>
      Alternates(ls) && (l.wid >= 0 || (l.wid == -1 && (ls == [] || ls[|ls| - 1].wid >= 0)))
  {
    var r := ls + [l];
    forall n | 0 <= n < |ls| ensures StandsAlone(r, n) <==> StandsAlone(ls, n) {
      assert r[n] == ls[n] && (n > 0 ==> r[n - 1] == ls[n - 1]);
    }
    assert r[|ls|] == l && (ls != [] ==> r[|ls| - 1] == ls[|ls| - 1]);
    assert Alternates(r) ==> StandsAlone(r, |ls|);
  }

  /** The grammar state an alignment is at, or whose tree it is in. */
  function Here(k: Task, a: Align): nat {
    if EndsWord(a) then DestOf(k, a) else if NodeOf(a) < |k.lt.nodes| then k.lt.nodes[NodeOf(a)].tree else 0
  }

  lemma IsPathSnoc(g: Grammar, from: nat, ls: seq<Link>, l: Link)
    requires IsArc(g, l) && IsPath(g, from, ls, l.from)
    ensures IsPath(g, from, ls + [l], l.to)
  {
    assert (ls + [l])[..|ls|] == ls;
  }

  lemma TreeFacts(k: Task, i: nat)
    requires IsTask(k) && i < |k.lt.nodes|
    ensures var v := k.lt.nodes[i];
      && (v.leaf ==> IsArc(k.g, v.link) && v.link.from == v.tree && v.link.wid >= 0)
      && (!v.leaf ==> forall c :: c in v.children ==> c < |k.lt.nodes| && k.lt.nodes[c].tree == v.tree)
  {
    NodeFacts(k, i);
  }

  lemma RootFacts(k: Task, s: nat, r: nat)
    requires IsTask(k) && s < |k.lt.roots| && r in k.lt.roots[s]
    ensures r < |k.lt.nodes| && k.lt.nodes[r].tree == s
  {
  }

  lemma ArcFacts(k: Task, s: nat, l: Link)
    requires IsTask(k) && s < |k.g.arcs| && l in k.g.arcs[s]
    ensures l.from == s && IsArc(k.g, l) && l.to < k.g.nState == |k.lt.roots| == |k.g.arcs|
  {
  }

  /** Every alignment spells a path of the grammar from the start state to where it is. */
  lemma {:induction false} AlignmentIsGrammarPath(k: Task, a: Align)
    requires IsTask(k) && Valid(k, a)
    ensures IsPath(k.g, k.g.start, Spelt(k, a), Here(k, a)) && Alternates(Spelt(k, a))
    ensures a.Exit? ==> Spelt(k, a) != [] && Spelt(k, a)[|Spelt(k, a)| - 1].wid >= 0
  {
    hide IsTask, IsPath, Alternates;
    if a.Root? {
      NoWords(k.g);
    } else {
      AlignmentIsGrammarPath(k, a.prev);
      if a.Null? {
        ArcFacts(k, DestOf(k, a.prev), a.link);
        IsPathSnoc(k.g, k.g.start, Spelt(k, a.prev), a.link);
        AlternatesSnoc(Spelt(k, a.prev), a.link);
        assert a.prev.Root? ==> Spelt(k, a.prev) == [];
      } else if a.Exit? {
        TreeFacts(k, NodeOf(a.prev));
        IsPathSnoc(k.g, k.g.start, Spelt(k, a.prev), k.lt.nodes[NodeOf(a.prev)].link);
        AlternatesSnoc(Spelt(k, a.prev), k.lt.nodes[NodeOf(a.prev)].link);
      } else {
        SameHere(k, a);
      }
    }
  }

  lemma NoWords(g: Grammar)
    ensures IsPath(g, g.start, [], g.start) && Alternates([])
  {
  }

  /** Within a word the tree stays the same. */
  lemma SameHere(k: Task, a: Align)
    requires IsTask(k) && Valid(k, a) && !EndsWord(a)
    ensures Here(k, a) == Here(k, a.prev) && Spelt(k, a) == Spelt(k, a.prev)
  {
    hide IsTask;
    if a.Word? {
      RootFacts(k, DestOf(k, a.prev), a.node);
    } else if a.Down? {
      TreeFacts(k, NodeOf(a.prev));
    }
  }

  // ---- spending frames

  /** Every state can be stayed in and left for the next. */
  predicate Strides(k: Task)
    requires IsTask(k)
  {
    forall i, s :: 0 <= i < |k.lt.nodes| && 0 <= s < k.lt.nEmit ==> CanStride(k, i, s)
  }

  predicate CanStride(k: Task, i: nat, s: nat)
    requires IsTask(k) && i < |k.lt.nodes| && s < k.lt.nEmit
  {
    NodeFacts(k, i);
    Arc(k.lt.nodes[i].tp, s, s) && Arc(k.lt.nodes[i].tp, s, s + 1)
  }

  /** So it is with the topologies of three and five states. */
  lemma UsualStrides(k: Task)
    requires IsTask(k) && (k.lt.nEmit == 3 || k.lt.nEmit == 5)
    ensures Strides(k)
  {
    forall i, s | 0 <= i < |k.lt.nodes| && 0 <= s < k.lt.nEmit ensures CanStride(k, i, s) {
      NodeFacts(k, i);
      hide IsTask;
    }
  }

  /** A node takes any number of frames from the number of its states on. */
  lemma {:induction false} NodeThrough(k: Task, a: Align, n: nat) returns (b: Align)
    requires IsTask(k) && Strides(k) && Valid(k, a) && InNode(a) && Time(a) + n <= |k.u.frames|
    requires StateOf(a) < k.lt.nEmit && NodeOf(a) < |k.lt.nodes| && k.lt.nEmit - StateOf(a) <= n
    ensures Valid(k, b) && b.Leave? && Time(b) == Time(a) + n && NodeOf(b) == NodeOf(a) && Spelt(k, b) == Spelt(k, a)
    decreases n
  {
    var s := StateOf(a);
    NodeFacts(k, NodeOf(a));
    assert CanStride(k, NodeOf(a), s);
    hide IsTask, Strides;
    if k.lt.nEmit - s < n {
      b := NodeThrough(k, Spend(a, s), n - 1);
    } else if s + 1 < k.lt.nEmit {
      b := NodeThrough(k, Spend(a, s + 1), n - 1);
    } else {
      b := Leave(a);
    }
  }

  lemma {:induction false} PathSteps(lt: Lextree, s: nat, p: seq<nat>, j: nat)
    requires s < |lt.roots| && FsgLextree.LtPath(lt, s, p) && j < |p|
    ensures p[j] < |lt.nodes| && (j == 0 ==> p[0] in lt.roots[s])
    ensures j > 0 ==> p[j - 1] < |lt.nodes| && FsgLextree.IsChild(lt.nodes[p[j - 1]], p[j])
    decreases |p|
  {
    if j < |p| - 1 {
      PathSteps(lt, s, p[..|p| - 1], j);
    }
  }

  /** Down a path of a tree, from its node j to its end, in any number of frames that all its nodes can take. */
  lemma {:induction false} PathThrough(k: Task, a: Align, s: nat, p: seq<nat>, j: nat, n: nat) returns (b: Align)
    requires IsTask(k) && Strides(k) && s < |k.lt.roots| && FsgLextree.LtPath(k.lt, s, p) && j < |p|
    requires Valid(k, a) && InNode(a) && StateOf(a) == 0 && NodeOf(a) == p[j] && Time(a) + n <= |k.u.frames|
    requires k.lt.nEmit > 0 && k.lt.nEmit * (|p| - j) <= n
    ensures Valid(k, b) && b.Leave? && Time(b) == Time(a) + n && NodeOf(b) == p[|p| - 1]
    ensures Spelt(k, b) == Spelt(k, a)
    decreases |p| - j
  {
    hide IsTask, Strides, FsgLextree.LtPath, Valid;
    PathSteps(k.lt, s, p, j);
    var e := k.lt.nEmit;
    if j == |p| - 1 {
      b := NodeThrough(k, a, n);
    } else {
      var rest: nat := Times(e, |p| - j - 1);
      var l := NodeThrough(k, a, n - rest);
      PathSteps(k.lt, s, p, j + 1);
      StepDown(k, l, p[j + 1]);
      b := PathThrough(k, Down(l, p[j + 1]), s, p, j + 1, rest);
    }
  }

  function Times(e: nat, m: nat): (r: nat)
    ensures r == e * m && e * (m + 1) == r + e
  {
    e * m
  }

  lemma StepDown(k: Task, l: Align, c: nat)
    requires IsTask(k) && Valid(k, l) && l.Leave? && NodeOf(l) < |k.lt.nodes| && c < |k.lt.nodes|
    requires FsgLextree.IsChild(k.lt.nodes[NodeOf(l)], c)
    ensures Valid(k, Down(l, c)) && Time(Down(l, c)) == Time(l) && Spelt(k, Down(l, c)) == Spelt(k, l)
  {
    hide IsTask;
  }

  // ---- trees as they are built

  /** The trees hold the words of the grammar as FsgLextree.BuildLextree leaves them, for the context lists of
      FsgContexts.Contexts.LcRc, and dictionary and search agree on silence, fillers and words of one phone. */
  ghost predicate IsBuilt(k: Task, x: FsgLextree.Lexicon, d: FsgContexts.Dict, lcs: seq<seq<nat>>, rcs: seq<seq<nat>>) {
    && k.lt.nCi == x.nCi == d.nCi <= 256 && d.sil == x.sil == k.u.sil < d.nCi
    && FsgLextree.HasAllWords(k.g, x, k.lt, lcs, rcs) && FsgLextree.OnlyWords(k.g, x, k.lt, lcs, rcs)
    && FsgContexts.IsDict(k.g, d)
    && (forall s :: 0 <= s < k.g.nState ==> ListsAre(k.g, d, s, lcs[s], rcs[s]))
    && forall l :: IsArc(k.g, l) && l.wid >= 0 ==> WordOk(k.g, x, d, l.wid)
  }

  ghost predicate ListsAre(g: Grammar, d: FsgContexts.Dict, s: nat, left: seq<nat>, right: seq<nat>) {
    && FsgContexts.Enumerates(left, FsgContexts.LeftSet(g, d, s))
    && FsgContexts.Enumerates(right, FsgContexts.RightSet(g, d, s))
  }

  predicate WordOk(g: Grammar, x: FsgLextree.Lexicon, d: FsgContexts.Dict, w: int) {
    && x.pron(w) != [] && (w in g.fillers ==> |x.pron(w)| == 1)
    && (w !in g.fillers ==> w in d.ends && d.ends[w] == FsgContexts.Ends(x.pron(w)[0], x.pron(w)[|x.pron(w)| - 1]))
    && (w !in g.fillers && |x.pron(w)| == 1 ==> w in g.singlePhone)
  }

  /** The phones of a word are those its contexts are taken from. */
  lemma PhonesAgree(g: Grammar, x: FsgLextree.Lexicon, d: FsgContexts.Dict, l: Link)
    requires WordOk(g, x, d, l.wid) && x.sil == d.sil
    ensures FsgContexts.Known(g, d, l)
    ensures FsgLextree.EntryPhone(g, x, l.wid) == FsgContexts.FirstOf(g, d, l)
    ensures FsgLextree.ExitPhone(g, x, l.wid) == FsgContexts.LastOf(g, d, l)
  {
  }

  /** The path of a word for given contexts. */
  lemma WordPath(k: Task, x: FsgLextree.Lexicon, d: FsgContexts.Dict, lcs: seq<seq<nat>>, rcs: seq<seq<nat>>,
                 l: Link, lc: nat, rc: nat) returns (p: seq<nat>)
    requires IsTask(k) && IsBuilt(k, x, d, lcs, rcs) && IsArc(k.g, l) && l.wid >= 0 && lc < d.nCi && rc < d.nCi
    requires FsgContexts.FullLeft(k.g, d, l.from, lc) && FsgContexts.FullRight(k.g, d, l.to, rc)
    ensures l.from < |k.lt.roots| && FsgLextree.LtPath(k.lt, l.from, p) && FsgLextree.Within(k.lt, p)
    ensures FsgLextree.LtSays(k.g, x, k.lt, p, l, lc, rc) && FsgLextree.LtSpells(k.g, x, k.lt, l.from, p)
  {
    ArcFacts(k, l.from, l);
    hide IsTask, FsgContexts.FullLeft, FsgContexts.FullRight, FsgContexts.IsDict, WordOk, FsgLextree.LtPath;
    hide FsgLextree.LtSays, FsgLextree.LtSpells;
    var s := l.from;
    assert ListsAre(k.g, d, s, lcs[s], rcs[s]) && ListsAre(k.g, d, l.to, lcs[l.to], rcs[l.to]);
    assert lc in FsgContexts.LeftSet(k.g, d, s) && rc in FsgContexts.RightSet(k.g, d, l.to);
    assert lc in lcs[s] && rc in rcs[l.to];
    var i :| 0 <= i < |k.g.arcs[s]| && k.g.arcs[s][i] == l;
    assert FsgLextree.LtHasWord(k.g, x, k.lt, s, k.g.arcs[s][i], lc, rc);
    p :| FsgLextree.LtPath(k.lt, s, p) && p[0] < |k.lt.nodes| && FsgLextree.LtSays(k.g, x, k.lt, p, l, lc, rc);
    PathWithin(k.lt, s, p);
    assert k.lt.nodes[p[|p| - 1]].leaf by { SaysLeaf(k.g, x, k.lt, p, l, lc, rc); }
  }

  lemma SaysLeaf(g: Grammar, x: FsgLextree.Lexicon, lt: Lextree, p: seq<nat>, l: Link, lc: nat, rc: nat)
    requires p != [] && p[0] < |lt.nodes| && p[|p| - 1] < |lt.nodes| && FsgLextree.LtSays(g, x, lt, p, l, lc, rc)
    ensures lt.nodes[p[|p| - 1]].leaf && lt.nodes[p[|p| - 1]].link == l && lc in lt.nodes[p[0]].ctxt
  {
  }

  lemma PathWithin(lt: Lextree, s: nat, p: seq<nat>)
    requires s < |lt.roots| && FsgLextree.LtPath(lt, s, p)
    ensures FsgLextree.Within(lt, p)
  {
    assert p != [];
    hide FsgLextree.LtPath;
    forall j | 0 <= j < |p| ensures p[j] < |lt.nodes| {
      PathSteps(lt, s, p, j);
    }
  }

  /** A word of the grammar can be aligned after whatever ends where it begins, in its neighbours' contexts. */
  lemma WordThrough(k: Task, x: FsgLextree.Lexicon, d: FsgContexts.Dict, lcs: seq<seq<nat>>, rcs: seq<seq<nat>>,
                    a: Align, l: Link, rc: nat, n: nat) returns (e: Align)
    requires IsTask(k) && Strides(k) && IsBuilt(k, x, d, lcs, rcs) && Valid(k, a) && EndsWord(a)
    requires IsArc(k.g, l) && l.wid >= 0 && l.from == DestOf(k, a) && WordOk(k.g, x, d, l.wid)
    requires LcOf(k, a) < d.nCi && FsgContexts.FullLeft(k.g, d, l.from, LcOf(k, a))
    requires FsgContexts.Known(k.g, d, l) && FsgContexts.FirstOf(k.g, d, l) in RcOf(k, a)
    requires rc < d.nCi && FsgContexts.FullRight(k.g, d, l.to, rc)
    requires k.lt.nEmit > 0 && k.lt.nEmit * |x.pron(l.wid)| <= n && Time(a) + n <= |k.u.frames|
    ensures Valid(k, e) && e.Exit? && Time(e) == Time(a) + n && Spelt(k, e) == Spelt(k, a) + [l] && DestOf(k, e) == l.to
    ensures LcOf(k, e) == FsgContexts.LastOf(k.g, d, l) && rc in RcOf(k, e)
  {
    hide IsTask, Strides, FsgLextree.LtPath, IsBuilt, FsgContexts.FullLeft, FsgContexts.FullRight;
    hide FsgContexts.FirstOf, FsgContexts.LastOf;
    BuiltSizes(k, x, d, lcs, rcs);
    var p := WordPath(k, x, d, lcs, rcs, l, LcOf(k, a), rc);
    PhonesAgree(k.g, x, d, l);
    PathSteps(k.lt, l.from, p, 0);
    var w := Word(a, p[0]);
    var b := PathThrough(k, w, l.from, p, 0, n);
    e := Exit(b);
  }

  // ---- every path of the grammar has alignments

  /** The phones of the words of a path. */
  function Phones(x: FsgLextree.Lexicon, ls: seq<Link>): nat {
    if ls == [] then 0
    else Phones(x, ls[..|ls| - 1]) + if ls[|ls| - 1].wid >= 0 then |x.pron(ls[|ls| - 1].wid)| else 0
  }

  /** A phone that may follow: of a word that leaves the state, or after a null transition where one may come. */
  ghost predicate MayFollow(g: Grammar, d: FsgContexts.Dict, ls: seq<Link>, s: nat, rc: nat) {
    if ls != [] && ls[|ls| - 1].wid < 0 then FsgContexts.OwnRight(g, d, s, rc) else FsgContexts.FullRight(g, d, s, rc)
  }

  /** What an alignment that has spelt ls must show to go on from state s. */
  ghost predicate ReadyFor(k: Task, d: FsgContexts.Dict, ls: seq<Link>, s: nat, n: nat, rc: nat, a: Align)
    requires IsTask(k)
  {
    && Valid(k, a) && EndsWord(a) && Time(a) == n && Spelt(k, a) == ls && DestOf(k, a) == s
    && rc in RcOf(k, a) && LcOf(k, a) < d.nCi && FsgContexts.FullLeft(k.g, d, s, LcOf(k, a))
    && (if ls != [] && ls[|ls| - 1].wid < 0 then a.Null?
        else !a.Null? && FsgContexts.OwnLeft(k.g, d, s, LcOf(k, a)))
  }

  lemma RootReady(k: Task, d: FsgContexts.Dict, rc: nat)
    requires IsTask(k) && d.sil == k.u.sil < d.nCi && rc < 256
    ensures ReadyFor(k, d, [], k.g.start, 0, rc, Root)
  {
    hide IsTask;
    assert FsgContexts.OwnLeft(k.g, d, k.g.start, d.sil);
  }

  lemma NullReady(k: Task, d: FsgContexts.Dict, ls: seq<Link>, n: nat, rc: nat, a: Align, l: Link)
    requires IsTask(k) && IsArc(k.g, l) && l.wid == -1 && ReadyFor(k, d, ls, l.from, n, rc, a)
    requires ls == [] || ls[|ls| - 1].wid >= 0
    ensures ReadyFor(k, d, ls + [l], l.to, n, rc, Null(a, l))
  {
    ArcFacts(k, l.from, l);
    hide IsTask, FsgContexts.OwnLeft;
    assert FsgContexts.NullArc(k.g, l.from, l.to);
  }

  lemma WordReady(k: Task, x: FsgLextree.Lexicon, d: FsgContexts.Dict, lcs: seq<seq<nat>>, rcs: seq<seq<nat>>,
                  ls: seq<Link>, n: nat, rc: nat, e: Align, l: Link)
    requires IsTask(k) && IsBuilt(k, x, d, lcs, rcs) && IsArc(k.g, l) && l.wid >= 0 && WordOk(k.g, x, d, l.wid)
    requires Valid(k, e) && e.Exit? && Time(e) == n && Spelt(k, e) == ls + [l] && DestOf(k, e) == l.to
    requires rc in RcOf(k, e) && FsgContexts.Known(k.g, d, l) && LcOf(k, e) == FsgContexts.LastOf(k.g, d, l)
    ensures ReadyFor(k, d, ls + [l], l.to, n, rc, e)
  {
    hide IsTask, FsgLextree.HasAllWords, FsgLextree.OnlyWords, Valid;
    assert !FsgContexts.IsNull(l);
    assert FsgContexts.OwnLeft(k.g, d, l.to, LcOf(k, e));
  }

  /** A word may follow whatever ends where it begins. */
  lemma WordFollows(g: Grammar, d: FsgContexts.Dict, ls: seq<Link>, l: Link)
    requires IsArc(g, l) && l.wid >= 0 && FsgContexts.Known(g, d, l)
    ensures MayFollow(g, d, ls, l.from, FsgContexts.FirstOf(g, d, l))
  {
    assert FsgContexts.OwnRight(g, d, l.from, FsgContexts.FirstOf(g, d, l));
  }

  lemma NullFollows(g: Grammar, d: FsgContexts.Dict, ls: seq<Link>, l: Link, rc: nat)
    requires IsArc(g, l) && l.wid == -1 && MayFollow(g, d, ls + [l], l.to, rc) && (ls == [] || ls[|ls| - 1].wid >= 0)
    ensures MayFollow(g, d, ls, l.from, rc)
  {
    assert FsgContexts.NullArc(g, l.from, l.to);
  }

  lemma FirstIsContext(k: Task, x: FsgLextree.Lexicon, d: FsgContexts.Dict, lcs: seq<seq<nat>>, rcs: seq<seq<nat>>,
                       l: Link)
    requires IsBuilt(k, x, d, lcs, rcs) && IsArc(k.g, l) && l.wid >= 0
    ensures WordOk(k.g, x, d, l.wid) && FsgContexts.Known(k.g, d, l) && FsgContexts.FirstOf(k.g, d, l) < d.nCi
  {
    hide FsgLextree.HasAllWords, FsgLextree.OnlyWords, ListsAre;
    assert WordOk(k.g, x, d, l.wid);
  }

  /** A path of the grammar can be aligned with any number of frames that its phones can take, and whatever may
      follow it. */
  lemma {:induction false} PathAligned(k: Task, x: FsgLextree.Lexicon, d: FsgContexts.Dict, lcs: seq<seq<nat>>,
                                       rcs: seq<seq<nat>>, ls: seq<Link>, s: nat, n: nat, rc: nat) returns (a: Align)
    requires IsTask(k) && Strides(k) && IsBuilt(k, x, d, lcs, rcs) && k.lt.nEmit > 0
    requires IsPath(k.g, k.g.start, ls, s) && Alternates(ls)
    requires k.lt.nEmit * Phones(x, ls) <= n <= |k.u.frames| && (Phones(x, ls) == 0 ==> n == 0)
    requires rc < d.nCi && MayFollow(k.g, d, ls, s, rc)
    ensures ReadyFor(k, d, ls, s, n, rc, a)
    decreases |ls|
  {
    hide IsTask, Strides, IsBuilt, MayFollow, ReadyFor, WordOk, Alternates;
    assert d.nCi <= 256 && d.sil == k.u.sil < d.nCi by { BuiltSizes(k, x, d, lcs, rcs); }
    if ls == [] {
      RootReady(k, d, rc);
      a := Root;
    } else {
      var m := |ls| - 1;
      var before, l := ls[..m], ls[m];
      assert ls == before + [l];
      AlternatesSnoc(before, l);
      if l.wid >= 0 {
        FirstIsContext(k, x, d, lcs, rcs, l);
        WordFollows(k.g, d, before, l);
        var t: nat := k.lt.nEmit * Phones(x, before);
        Distributes(k.lt.nEmit, Phones(x, before), |x.pron(l.wid)|);
        var b := PathAligned(k, x, d, lcs, rcs, before, l.from, t, FsgContexts.FirstOf(k.g, d, l));
        a := WordAfter(k, x, d, lcs, rcs, before, t, b, l, rc, n);
      } else {
        NullFollows(k.g, d, before, l, rc);
        var b := PathAligned(k, x, d, lcs, rcs, before, l.from, n, rc);
        NullReady(k, d, before, n, rc, b, l);
        a := Null(b, l);
      }
    }
  }

  lemma Distributes(e: nat, a: nat, b: nat)
    ensures e * (a + b) == e * a + e * b
  {
  }

  lemma BuiltSizes(k: Task, x: FsgLextree.Lexicon, d: FsgContexts.Dict, lcs: seq<seq<nat>>, rcs: seq<seq<nat>>)
    requires IsBuilt(k, x, d, lcs, rcs)
    ensures d.nCi <= 256 && x.sil == d.sil == k.u.sil < d.nCi
  {
  }

  lemma WordAfter(k: Task, x: FsgLextree.Lexicon, d: FsgContexts.Dict, lcs: seq<seq<nat>>, rcs: seq<seq<nat>>,
                  before: seq<Link>, t: nat, b: Align, l: Link, rc: nat, n: nat) returns (a: Align)
    requires IsTask(k) && Strides(k) && IsBuilt(k, x, d, lcs, rcs) && k.lt.nEmit > 0
    requires IsArc(k.g, l) && l.wid >= 0 && WordOk(k.g, x, d, l.wid) && FsgContexts.Known(k.g, d, l)
    requires ReadyFor(k, d, before, l.from, t, FsgContexts.FirstOf(k.g, d, l), b)
    requires t + k.lt.nEmit * |x.pron(l.wid)| <= n <= |k.u.frames|
    requires rc < d.nCi && MayFollow(k.g, d, before + [l], l.to, rc)
    ensures ReadyFor(k, d, before + [l], l.to, n, rc, a)
  {
    assert FsgContexts.FullRight(k.g, d, l.to, rc);
    hide IsTask, Strides, IsBuilt, MayFollow, WordOk, FsgContexts.FullLeft, FsgContexts.FullRight, FsgContexts.OwnLeft;
    a := WordThrough(k, x, d, lcs, rcs, b, l, rc, n - t);
    hide ReadyFor;
    WordReady(k, x, d, lcs, rcs, before, n, rc, a, l);
  }

  /** Every path of the grammar that has a word is what some alignment spells, in any number of frames from the
      number of states of its phones on. */
  lemma GrammarPathIsAligned(k: Task, x: FsgLextree.Lexicon, d: FsgContexts.Dict, lcs: seq<seq<nat>>,
                             rcs: seq<seq<nat>>, ls: seq<Link>, s: nat, n: nat) returns (a: Align)
    requires IsTask(k) && Strides(k) && IsBuilt(k, x, d, lcs, rcs) && k.lt.nEmit > 0
    requires IsPath(k.g, k.g.start, ls, s) && Alternates(ls) && Phones(x, ls) > 0
    requires k.lt.nEmit * Phones(x, ls) <= n <= |k.u.frames|
    ensures Valid(k, a) && EndsWord(a) && Time(a) == n && Spelt(k, a) == ls && DestOf(k, a) == s
  {
    hide IsTask, Strides, IsBuilt, Valid;
    BuiltSizes(k, x, d, lcs, rcs);
    assert FsgContexts.OwnRight(k.g, d, s, d.sil);
    a := PathAligned(k, x, d, lcs, rcs, ls, s, n, d.sil);
  }

  /** Decoding at the level of the grammar.  The words reported are a path of the grammar (to the final state, if
      that is asked for), and whatever path of the grammar fits in the frames has alignments, none of which
      scores better than the exit chosen. */
  lemma BestOfTheGrammar(k: Task, x: FsgLextree.Lexicon, d: FsgContexts.Dict, lcs: seq<seq<nat>>, rcs: seq<seq<nat>>,
                         n: nat, final: bool, r: nat, score: int, ls: seq<Link>, s: nat)
    requires IsTask(k) && Strides(k) && IsBuilt(k, x, d, lcs, rcs) && k.lt.nEmit > 0
    requires 0 < n <= |k.u.frames| && Wide(k, n) && IsExit(k, n, final, r)
    requires BestExit(k.g, At(k, n).entries, |At(k, n).entries| - 1, final, r, score)
    requires IsPath(k.g, k.g.start, ls, s) && Alternates(ls) && Phones(x, ls) > 0 && (final ==> s == k.g.final)
    requires k.lt.nEmit * Phones(x, ls) <= n
    ensures exists a :: Complete(k, n, final, a) && Spelt(k, a) == ls
    ensures forall a :: Complete(k, n, final, a) ==> Total(k, a) <= score
    ensures FsgPaths.Chained(k.g, At(k, n).entries)
    ensures var words := Links(k.g, At(k, n).entries, r);
      Alternates(words) && exists t: nat :: IsPath(k.g, k.g.start, words, t) && (final ==> t == k.g.final)
  {
    hide IsTask, Strides, IsBuilt, Wide, IsExit, At, BestExit, Total, FsgPaths.Chained, Links, IsPath, Valid, Spelt;
    var a := GrammarPathIsAligned(k, x, d, lcs, rcs, ls, s, n);
    assert Complete(k, n, final, a);
    ReportedPath(k, n, final, r, score);
    DecodingIsOptimal(k, n, final, r, score);
  }

  /** The words reported are a path of the grammar. */
  lemma ReportedPath(k: Task, n: nat, final: bool, r: nat, score: int)
    requires IsTask(k) && 0 < n <= |k.u.frames| && Wide(k, n) && IsExit(k, n, final, r)
    requires BestExit(k.g, At(k, n).entries, |At(k, n).entries| - 1, final, r, score)
    ensures FsgPaths.Chained(k.g, At(k, n).entries)
    ensures var words := Links(k.g, At(k, n).entries, r);
      Alternates(words) && exists t: nat :: IsPath(k.g, k.g.start, words, t) && (final ==> t == k.g.final)
  {
    assert r < |At(k, n).entries|;
    hide IsTask, Wide, IsExit, At, BestExit, Total, FsgPaths.Chained, Links, IsPath, Valid, Spelt, Alternates;
    DecodingIsOptimal(k, n, final, r, score);
    var words := Links(k.g, At(k, n).entries, r);
    var b :| Complete(k, n, final, b) && Total(k, b) == score && Spelt(k, b) == words;
    AlignmentIsGrammarPath(k, b);
    assert IsPath(k.g, k.g.start, words, DestOf(k, b));
  }

  /** A path of the grammar that fits in the frames is enough for a result. */
  lemma GrammarPathIsFound(k: Task, x: FsgLextree.Lexicon, d: FsgContexts.Dict, lcs: seq<seq<nat>>,
                           rcs: seq<seq<nat>>, n: nat, final: bool, ls: seq<Link>, s: nat)
    requires IsTask(k) && Strides(k) && IsBuilt(k, x, d, lcs, rcs) && k.lt.nEmit > 0
    requires 0 < n <= |k.u.frames| && Wide(k, n)
    requires IsPath(k.g, k.g.start, ls, s) && Alternates(ls) && Phones(x, ls) > 0 && (final ==> s == k.g.final)
    requires k.lt.nEmit * Phones(x, ls) <= n
    ensures exists i: nat :: IsExit(k, n, final, i)
  {
    hide IsTask, Strides, IsBuilt, Wide, IsExit, At;
    var a := GrammarPathIsAligned(k, x, d, lcs, rcs, ls, s, n);
    assert Complete(k, n, final, a);
    ExitExists(k, n, final);
  }
}
