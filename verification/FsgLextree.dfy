/** Building the lexical trees of a grammar (src/fsg_lextree.c): one tree of phone nodes for each grammar
    state, its leaves carrying the transitions that leave the state.

    Nodes are indices into `nodes`; a chain of siblings is a sequence, its head first. */
module FsgLextree {
  import opened Basics
  import opened Hmm
  import opened Fsg
  import opened FsgStep
  import FsgContexts

  /** What the dictionary, its context tables and the acoustic model say; that the tables have a full Xwd for
      the edge of every word is Dict2Pid.WordFinalIsXwd. */
  datatype Lexicon = Lexicon(nEmit: nat, nCi: nat, sil: nat, wip: int, pip: int,
                             pron: int -> seq<nat>, single: (nat, nat) -> int, ci: nat -> int,
                             first: (nat, nat, nat) -> int, internal: (int, nat) -> int, last: (nat, nat) -> Xwd,
                             sseq: int -> seq<int>, tmat: nat -> Tmat)

  ghost predicate IsLexicon(g: Grammar, x: Lexicon) {
    && IsGrammar(g) && x.nEmit > 0 && x.sil < x.nCi <= 256
    && (forall l :: IsArc(g, l) && l.wid >= 0 ==> x.pron(l.wid) != [])
    && (forall w: int, p: nat :: p < |x.pron(w)| ==> x.pron(w)[p] < x.nCi)
    && (forall l :: IsArc(g, l) && l.wid >= 0 && |x.pron(l.wid)| >= 2 ==> IsXwd(x.nCi, LastXwd(x, l.wid)))
    && (forall s: int :: |x.sseq(s)| == x.nEmit)
    && (forall c: nat :: IsTmat(x.tmat(c), x.nEmit))
  }

  /** The right contexts of a word's last phone, after its last but one. */
  function LastXwd(x: Lexicon, w: int): Xwd
    requires |x.pron(w)| >= 2
  {
    x.last(x.pron(w)[|x.pron(w)| - 1], x.pron(w)[|x.pron(w)| - 2])
  }

  /** Contexts are listed without repetition. */
  predicate IsContexts(x: Lexicon, list: seq<nat>) {
    && list != [] && (forall i :: 0 <= i < |list| ==> list[i] < x.nCi)
    && forall i, j :: 0 <= i < j < |list| ==> list[i] < list[j]
  }

  datatype Node = Node(leaf: bool, link: Link, children: seq<nat>, logs2prob: int, ctxt: set<nat>,
                       ciExt: nat, tmat: nat, ssid: int)

  /** A group of roots, for words that start with ci followed by rc. */
  datatype Group = Group(ci: nat, rc: nat, list: seq<nat>)

  // ---- what a path down the tree spells

  /** The senone sequences of a word's inner phones up to phone p. */
  function Inner(x: Lexicon, w: int, p: nat): (k: seq<int>)
    ensures |k| == p
  {
    if p == 0 then [] else Inner(x, w, p - 1) + [x.internal(w, p)]
  }

  /** The first two phones of a word and its inner senone sequences up to phone p. */
  function Prefix(x: Lexicon, w: int, p: nat): (k: seq<int>)
    requires |x.pron(w)| >= 2
    ensures |k| == p + 2
  {
    x.pron(w)[..2] + Inner(x, w, p)
  }

  function WordKey(x: Lexicon, w: int): seq<int>
    requires |x.pron(w)| >= 2
  {
    Prefix(x, w, |x.pron(w)| - 2)
  }

  /** What a node's transition score must be, by its place in its word. */
  function RootScore(x: Lexicon): int {
    x.wip + x.pip
  }

  function LeafScore(x: Lexicon, l: Link): int {
    ShiftedProb(l) + x.pip
  }

  /** The phone a word presents to the words before it and after it; a filler of one phone presents silence. */
  function EntryPhone(g: Grammar, x: Lexicon, w: int): nat
    requires x.pron(w) != []
  {
    if |x.pron(w)| == 1 && w in g.fillers then x.sil else x.pron(w)[0]
  }

  function ExitPhone(g: Grammar, x: Lexicon, w: int): nat
    requires x.pron(w) != []
  {
    if |x.pron(w)| == 1 && w in g.fillers then x.sil else x.pron(w)[|x.pron(w)| - 1]
  }

  /** Each node is of state s's own tree, and what it says is a word of a transition that leaves s. */
  predicate NodeOk(g: Grammar, x: Lexicon, s: nat, v: Node) {
    && v.ciExt < x.nCi
    && (v.leaf ==> IsArc(g, v.link) && v.link.from == s && v.link.wid >= 0 && v.ctxt != {} && |x.pron(v.link.wid)| >= 1)
    && (v.leaf ==> v.ciExt == ExitPhone(g, x, v.link.wid))
    && (v.leaf && |x.pron(v.link.wid)| >= 2 ==> v.logs2prob == LeafScore(x, v.link))
    && (v.leaf && |x.pron(v.link.wid)| == 1 ==> v.logs2prob == ShiftedProb(v.link) + x.wip + x.pip)
  }

  /** A child continues its parent's key, a leaf ends it. */
  predicate ChildOk(x: Lexicon, key: seq<int>, c: Node, ckey: seq<int>) {
    if c.leaf then |x.pron(c.link.wid)| >= 2 && key == WordKey(x, c.link.wid)
    else ckey == key + [c.ssid] && c.logs2prob == x.pip
  }

  predicate ChildrenOk(x: Lexicon, nodes: seq<Node>, keys: seq<seq<int>>, i: nat)
    requires i < |nodes| == |keys|
  {
    !nodes[i].leaf ==> forall k :: 0 <= k < |nodes[i].children| ==>
      nodes[i].children[k] < |nodes| && ChildOk(x, keys[i], nodes[nodes[i].children[k]], keys[nodes[i].children[k]])
  }

  predicate RootOk(x: Lexicon, v: Node, key: seq<int>) {
    if v.leaf then |x.pron(v.link.wid)| == 1 else |key| == 2 && v.ciExt == key[0] && v.logs2prob == RootScore(x)
  }

  /** A group has one root only, which is for all left contexts of the state. */
  predicate GroupOk(nodes: seq<Node>, keys: seq<seq<int>>, root: seq<nat>, lcs: seq<nat>, gr: Group)
    requires |nodes| == |keys|
  {
    && |gr.list| == 1 && gr.list[0] < |nodes| && gr.list[0] in root
    && !nodes[gr.list[0]].leaf && keys[gr.list[0]] == [gr.ci, gr.rc]
    && forall c :: c in lcs ==> c in nodes[gr.list[0]].ctxt
  }

  /** The tree of state s. */
  predicate TreeOk(g: Grammar, x: Lexicon, s: nat, nodes: seq<Node>, keys: seq<seq<int>>, root: seq<nat>) {
    && |nodes| == |keys|
    && (forall i :: 0 <= i < |nodes| ==> NodeOk(g, x, s, nodes[i]) && ChildrenOk(x, nodes, keys, i))
    && (forall k :: 0 <= k < |root| ==> root[k] < |nodes| && RootOk(x, nodes[root[k]], keys[root[k]]))
  }

  predicate GroupsOk(nodes: seq<Node>, keys: seq<seq<int>>, root: seq<nat>, lcs: seq<nat>,
                     groups: seq<Group>)
    requires |nodes| == |keys|
  {
    forall k :: 0 <= k < |groups| ==> GroupOk(nodes, keys, root, lcs, groups[k])
  }

  // ---- what each node was trained as

  /** Some transition that leaves s says the word w. */
  ghost predicate WordAt(g: Grammar, s: nat, w: int) {
    w >= 0 && exists l :: IsArc(g, l) && l.from == s && l.wid == w
  }

  /** A leaf has the matrix of its word's last phone, and its senones are those of every context it takes, which
      are contexts it was offered. */
  predicate LeafTrained(g: Grammar, x: Lexicon, v: Node, lcs: seq<nat>, rcs: seq<seq<nat>>) {
    var w := v.link.wid;
    var pron := x.pron(w);
    && pron != [] && v.tmat == pron[|pron| - 1]
    && if |pron| >= 2 then
         v.link.to < |rcs| && forall c :: c in v.ctxt ==> c in rcs[v.link.to] && OffersSsid(x, w, v, c)
       else if w in g.fillers then v.ssid == x.ci(pron[0]) && v.ctxt == ALL_CONTEXTS
       else forall c :: c in v.ctxt ==> c in lcs && v.ssid == x.single(pron[0], c)
  }

  /** A root has the matrix of its first phone, and the senones of one of the state's left contexts. */
  ghost predicate RootTrained(x: Lexicon, v: Node, key: seq<int>, lcs: seq<nat>) {
    && |key| == 2 && key[0] >= 0 && key[1] >= 0 && v.tmat == key[0]
    && (forall c :: c in v.ctxt ==> c in lcs)
    && exists c :: c in lcs && v.ssid == x.first(key[0], key[1], c)
  }

  /** An inner node has the matrix of that phone of a word that leaves s and begins as the node's key says. */
  ghost predicate InnerTrained(g: Grammar, x: Lexicon, s: nat, v: Node, key: seq<int>) {
    v.ctxt == {} && exists w :: WordAt(g, s, w) && InnerOf(x, w, v.tmat, key)
  }

  predicate InnerOf(x: Lexicon, w: int, tmat: nat, key: seq<int>) {
    && |x.pron(w)| >= 2 && 2 < |key| < |x.pron(w)| + 1
    && key == Prefix(x, w, |key| - 2) && tmat == x.pron(w)[|key| - 2]
  }

  ghost predicate NodeTrained(g: Grammar, x: Lexicon, s: nat, v: Node, key: seq<int>, lcs: seq<nat>,
                              rcs: seq<seq<nat>>) {
    if v.leaf then LeafTrained(g, x, v, lcs, rcs)
    else if |key| <= 2 then RootTrained(x, v, key, lcs)
    else InnerTrained(g, x, s, v, key)
  }

  ghost predicate TrainedOk(g: Grammar, x: Lexicon, s: nat, nodes: seq<Node>, keys: seq<seq<int>>, lcs: seq<nat>,
                            rcs: seq<seq<nat>>) {
    |nodes| == |keys| && forall i :: 0 <= i < |nodes| ==> NodeTrained(g, x, s, nodes[i], keys[i], lcs, rcs)
  }

  // ---- what is shared

  /** No node has two inner children with the same senone sequence. */
  predicate ChildrenApart(nodes: seq<Node>, cs: seq<nat>) {
    forall a, b :: 0 <= a < b < |cs| && IsInner(nodes, cs[a]) && IsInner(nodes, cs[b]) ==>
      nodes[cs[a]].ssid != nodes[cs[b]].ssid
  }

  predicate IsInner(nodes: seq<Node>, i: nat) {
    i < |nodes| && !nodes[i].leaf
  }

  predicate SharedOk(nodes: seq<Node>) {
    forall i :: 0 <= i < |nodes| && !nodes[i].leaf ==> ChildrenApart(nodes, nodes[i].children)
  }

  /** No two roots are for the same first two phones. */
  predicate RootsApart(nodes: seq<Node>, keys: seq<seq<int>>, root: seq<nat>)
    requires |nodes| == |keys|
  {
    forall a, b :: 0 <= a < b < |root| && IsInner(nodes, root[a]) && IsInner(nodes, root[b]) ==>
      keys[root[a]] != keys[root[b]]
  }

  /** Every such root is in a group, or is that of the group being made. */
  ghost predicate RootsGrouped(nodes: seq<Node>, keys: seq<seq<int>>, root: seq<nat>, groups: seq<Group>,
                               opening: seq<int>)
    requires |nodes| == |keys|
  {
    forall a :: 0 <= a < |root| && IsInner(nodes, root[a]) ==>
      keys[root[a]] == opening || InGroup(keys[root[a]], groups)
  }

  predicate NoRootFor(nodes: seq<Node>, keys: seq<seq<int>>, root: seq<nat>, key: seq<int>)
    requires |nodes| == |keys|
  {
    forall a :: 0 <= a < |root| && IsInner(nodes, root[a]) ==> keys[root[a]] != key
  }

  ghost predicate InGroup(key: seq<int>, groups: seq<Group>) {
    exists k :: 0 <= k < |groups| && key == [groups[k].ci, groups[k].rc]
  }

  // ---- what building keeps

  /** Later trees and words only add nodes, children and contexts. */
  predicate Extends(nodes: seq<Node>, nodes': seq<Node>) {
    && |nodes| <= |nodes'|
    && forall i :: 0 <= i < |nodes| ==> Grown(nodes[i], nodes'[i])
  }

  predicate Grown(v: Node, v': Node) {
    && v' == v.(children := v'.children, ctxt := v'.ctxt) && v.ctxt <= v'.ctxt
    && forall c :: c in v.children ==> c in v'.children
  }

  lemma ExtendsSame(a: seq<Node>)
    ensures Extends(a, a)
  {
  }

  lemma ExtendsTrans(a: seq<Node>, b: seq<Node>, c: seq<Node>)
    requires Extends(a, b) && Extends(b, c)
    ensures Extends(a, c)
  {
    forall i | 0 <= i < |a| ensures Grown(a[i], c[i]) {
      assert Grown(a[i], b[i]) && Grown(b[i], c[i]);
    }
  }

  lemma GrownAt(a: seq<Node>, b: seq<Node>, i: nat)
    requires Extends(a, b) && i < |a|
    ensures i < |b| && Grown(a[i], b[i])
  {
  }

  /** A new node that nothing points to yet. */
  lemma AddNode(g: Grammar, x: Lexicon, s: nat, nodes: seq<Node>, keys: seq<seq<int>>, root: seq<nat>,
                lcs: seq<nat>, groups: seq<Group>, v: Node, key: seq<int>)
    requires TreeOk(g, x, s, nodes, keys, root) && GroupsOk(nodes, keys, root, lcs, groups)
    requires NodeOk(g, x, s, v) && v.children == []
    ensures TreeOk(g, x, s, nodes + [v], keys + [key], root)
    ensures GroupsOk(nodes + [v], keys + [key], root, lcs, groups)
    ensures Extends(nodes, nodes + [v])
  {
    var nodes', keys' := nodes + [v], keys + [key];
    hide NodeOk, ChildOk, RootOk;
    forall i | 0 <= i < |nodes'| ensures NodeOk(g, x, s, nodes'[i]) && ChildrenOk(x, nodes', keys', i) {
      if i < |nodes| {
        assert ChildrenOk(x, nodes, keys, i);
      }
    }
    forall k | 0 <= k < |groups| ensures GroupOk(nodes', keys', root, lcs, groups[k]) {
      assert GroupOk(nodes, keys, root, lcs, groups[k]);
    }
  }

  /** A root of the tree put in front of the roots. */
  lemma AddRoot(g: Grammar, x: Lexicon, s: nat, nodes: seq<Node>, keys: seq<seq<int>>, root: seq<nat>,
                lcs: seq<nat>, groups: seq<Group>, r: nat)
    requires TreeOk(g, x, s, nodes, keys, root) && GroupsOk(nodes, keys, root, lcs, groups)
    requires r < |nodes| && RootOk(x, nodes[r], keys[r])
    ensures TreeOk(g, x, s, nodes, keys, [r] + root) && GroupsOk(nodes, keys, [r] + root, lcs, groups)
  {
    hide NodeOk, ChildrenOk, RootOk;
    forall k | 0 <= k < |groups| ensures GroupOk(nodes, keys, [r] + root, lcs, groups[k]) {
      assert GroupOk(nodes, keys, root, lcs, groups[k]);
    }
  }

  /** More children for one node. */
  lemma AddChildren(g: Grammar, x: Lexicon, s: nat, nodes: seq<Node>, keys: seq<seq<int>>, root: seq<nat>,
                    lcs: seq<nat>, groups: seq<Group>, i: nat, children: seq<nat>)
    requires TreeOk(g, x, s, nodes, keys, root) && GroupsOk(nodes, keys, root, lcs, groups)
    requires i < |nodes| && !nodes[i].leaf
    requires forall c :: c in nodes[i].children ==> c in children
    requires forall k :: 0 <= k < |children| ==>
      children[k] < |nodes| && ChildOk(x, keys[i], nodes[children[k]], keys[children[k]])
    ensures TreeOk(g, x, s, nodes[i := nodes[i].(children := children)], keys, root)
    ensures GroupsOk(nodes[i := nodes[i].(children := children)], keys, root, lcs, groups)
    ensures Extends(nodes, nodes[i := nodes[i].(children := children)])
  {
    var nodes' := nodes[i := nodes[i].(children := children)];
    assert forall c: nat :: c < |nodes| ==> nodes'[c] == nodes[c].(children := nodes'[c].children);
    hide WordKey;
    forall j | 0 <= j < |nodes'| ensures NodeOk(g, x, s, nodes'[j]) && ChildrenOk(x, nodes', keys, j) {
      assert NodeOk(g, x, s, nodes[j]) && ChildrenOk(x, nodes, keys, j);
    }
    forall k | 0 <= k < |groups| ensures GroupOk(nodes', keys, root, lcs, groups[k]) {
      assert GroupOk(nodes, keys, root, lcs, groups[k]);
    }
  }

  /** All of that. */
  ghost predicate KeptOk(g: Grammar, x: Lexicon, s: nat, nodes: seq<Node>, keys: seq<seq<int>>, root: seq<nat>,
                         groups: seq<Group>, lcs: seq<nat>, rcs: seq<seq<nat>>, opening: seq<int>) {
    && TrainedOk(g, x, s, nodes, keys, lcs, rcs) && SharedOk(nodes)
    && RootsApart(nodes, keys, root) && RootsGrouped(nodes, keys, root, groups, opening)
  }

  lemma KeepNode(g: Grammar, x: Lexicon, s: nat, nodes: seq<Node>, keys: seq<seq<int>>, root: seq<nat>,
                 groups: seq<Group>, lcs: seq<nat>, rcs: seq<seq<nat>>, opening: seq<int>, v: Node, key: seq<int>)
    requires KeptOk(g, x, s, nodes, keys, root, groups, lcs, rcs, opening) && TreeOk(g, x, s, nodes, keys, root)
    requires NodeTrained(g, x, s, v, key, lcs, rcs) && v.children == []
    ensures KeptOk(g, x, s, nodes + [v], keys + [key], root, groups, lcs, rcs, opening)
  {
    hide NodeTrained, NodeOk, ChildOk, RootOk, InGroup;
    var nodes' := nodes + [v];
    forall i | 0 <= i < |nodes'| && !nodes'[i].leaf ensures ChildrenApart(nodes', nodes'[i].children) {
      if i < |nodes| {
        assert ChildrenOk(x, nodes, keys, i) && ChildrenApart(nodes, nodes[i].children);
      }
    }
  }

  lemma KeepRoot(g: Grammar, x: Lexicon, s: nat, nodes: seq<Node>, keys: seq<seq<int>>, root: seq<nat>,
                 groups: seq<Group>, lcs: seq<nat>, rcs: seq<seq<nat>>, opening: seq<int>, r: nat)
    requires KeptOk(g, x, s, nodes, keys, root, groups, lcs, rcs, opening) && r < |nodes|
    requires nodes[r].leaf || (NoRootFor(nodes, keys, root, keys[r]) && keys[r] == opening)
    ensures KeptOk(g, x, s, nodes, keys, [r] + root, groups, lcs, rcs, opening)
  {
    hide TrainedOk, SharedOk, InGroup;
  }

  lemma KeepContext(g: Grammar, x: Lexicon, s: nat, nodes: seq<Node>, keys: seq<seq<int>>, root: seq<nat>,
                    groups: seq<Group>, lcs: seq<nat>, rcs: seq<seq<nat>>, opening: seq<int>, i: nat, c: nat)
    requires KeptOk(g, x, s, nodes, keys, root, groups, lcs, rcs, opening) && i < |nodes|
    requires NodeTrained(g, x, s, nodes[i].(ctxt := nodes[i].ctxt + {c}), keys[i], lcs, rcs)
    ensures KeptOk(g, x, s, nodes[i := nodes[i].(ctxt := nodes[i].ctxt + {c})], keys, root, groups, lcs, rcs, opening)
  {
    hide NodeTrained, InGroup;
    var nodes' := nodes[i := nodes[i].(ctxt := nodes[i].ctxt + {c})];
    KeepShared(nodes, nodes', keys, root, groups, opening);
  }

  lemma KeepChildren(g: Grammar, x: Lexicon, s: nat, nodes: seq<Node>, keys: seq<seq<int>>, root: seq<nat>,
                     groups: seq<Group>, lcs: seq<nat>, rcs: seq<seq<nat>>, opening: seq<int>, i: nat,
                     children: seq<nat>)
    requires KeptOk(g, x, s, nodes, keys, root, groups, lcs, rcs, opening) && i < |nodes| && !nodes[i].leaf
    requires ChildrenApart(nodes, children)
    ensures KeptOk(g, x, s, nodes[i := nodes[i].(children := children)], keys, root, groups, lcs, rcs, opening)
  {
    hide InGroup;
    var nodes' := nodes[i := nodes[i].(children := children)];
    var v := nodes[i];
    SameTraining(g, x, s, v, v.(children := children), keys[i], lcs, rcs);
    hide NodeTrained;
    KeepShared(nodes, nodes', keys, root, groups, opening);
  }

  lemma SameTraining(g: Grammar, x: Lexicon, s: nat, v: Node, v': Node, key: seq<int>, lcs: seq<nat>,
                     rcs: seq<seq<nat>>)
    requires NodeTrained(g, x, s, v, key, lcs, rcs) && v' == v.(children := v'.children)
    ensures NodeTrained(g, x, s, v', key, lcs, rcs)
  {
  }

  /** Nodes that differ in their contexts only, or in children that are apart, share as much. */
  lemma KeepShared(nodes: seq<Node>, nodes': seq<Node>, keys: seq<seq<int>>, root: seq<nat>, groups: seq<Group>,
                   opening: seq<int>)
    requires |nodes| == |nodes'| == |keys|
    requires forall i :: 0 <= i < |nodes| ==> nodes'[i].leaf == nodes[i].leaf && nodes'[i].ssid == nodes[i].ssid
    requires forall i :: 0 <= i < |nodes| && !nodes[i].leaf ==> ChildrenApart(nodes, nodes'[i].children)
    requires RootsApart(nodes, keys, root) && RootsGrouped(nodes, keys, root, groups, opening)
    ensures SharedOk(nodes') && RootsApart(nodes', keys, root) && RootsGrouped(nodes', keys, root, groups, opening)
  {
    hide InGroup;
    forall i | 0 <= i < |nodes'| && !nodes'[i].leaf ensures ChildrenApart(nodes', nodes'[i].children) {
      assert ChildrenApart(nodes, nodes'[i].children);
    }
  }

  /** One more context for one node. */
  lemma AddContext(g: Grammar, x: Lexicon, s: nat, nodes: seq<Node>, keys: seq<seq<int>>, root: seq<nat>,
                   lcs: seq<nat>, groups: seq<Group>, i: nat, c: nat)
    requires TreeOk(g, x, s, nodes, keys, root) && GroupsOk(nodes, keys, root, lcs, groups) && i < |nodes|
    ensures TreeOk(g, x, s, nodes[i := nodes[i].(ctxt := nodes[i].ctxt + {c})], keys, root)
    ensures GroupsOk(nodes[i := nodes[i].(ctxt := nodes[i].ctxt + {c})], keys, root, lcs, groups)
    ensures Extends(nodes, nodes[i := nodes[i].(ctxt := nodes[i].ctxt + {c})])
  {
    var nodes' := nodes[i := nodes[i].(ctxt := nodes[i].ctxt + {c})];
    hide WordKey;
    forall j | 0 <= j < |nodes'| ensures NodeOk(g, x, s, nodes'[j]) && ChildrenOk(x, nodes', keys, j) {
      assert NodeOk(g, x, s, nodes[j]) && ChildrenOk(x, nodes, keys, j);
    }
    forall k | 0 <= k < |groups| ensures GroupOk(nodes', keys, root, lcs, groups[k]) {
      assert GroupOk(nodes, keys, root, lcs, groups[k]);
    }
  }

  // ---- paths down a tree

  predicate IsPath(nodes: seq<Node>, root: seq<nat>, p: seq<nat>)
    decreases |p|
  {
    p != [] && var m := |p| - 1;
      && p[m] < |nodes|
      && if m == 0 then p[0] in root
         else IsPath(nodes, root, p[..m]) && !nodes[p[m - 1]].leaf && p[m] in nodes[p[m - 1]].children
  }

  function ScoreOf(nodes: seq<Node>, p: seq<nat>): int
    requires forall k :: 0 <= k < |p| ==> p[k] < |nodes|
  {
    if p == [] then 0 else ScoreOf(nodes, p[..|p| - 1]) + nodes[p[|p| - 1]].logs2prob
  }

  /** The senone sequences along a path, after its root. */
  function SsidsOf(nodes: seq<Node>, p: seq<nat>): seq<int>
    requires forall k :: 0 <= k < |p| ==> p[k] < |nodes|
  {
    if |p| <= 1 then [] else SsidsOf(nodes, p[..|p| - 1]) + [nodes[p[|p| - 1]].ssid]
  }

  lemma {:induction false} PathInside(nodes: seq<Node>, root: seq<nat>, p: seq<nat>)
    requires IsPath(nodes, root, p)
    ensures p[0] in root && forall k :: 0 <= k < |p| ==> p[k] < |nodes|
    decreases |p|
  {
    if |p| > 1 {
      PathInside(nodes, root, p[..|p| - 1]);
    }
  }

  lemma InRoot(g: Grammar, x: Lexicon, s: nat, nodes: seq<Node>, keys: seq<seq<int>>, root: seq<nat>, r: nat)
    requires TreeOk(g, x, s, nodes, keys, root) && r in root
    ensures r < |nodes| && RootOk(x, nodes[r], keys[r]) && NodeOk(g, x, s, nodes[r])
  {
  }

  lemma InTree(g: Grammar, x: Lexicon, s: nat, nodes: seq<Node>, keys: seq<seq<int>>, root: seq<nat>,
               u: nat, v: nat)
    requires TreeOk(g, x, s, nodes, keys, root) && u < |nodes| && !nodes[u].leaf && v in nodes[u].children
    ensures v < |nodes| && ChildOk(x, keys[u], nodes[v], keys[v]) && NodeOk(g, x, s, nodes[v])
  {
    assert ChildrenOk(x, nodes, keys, u);
  }

  /** The key of a node is spelled by any path to it. */
  lemma {:induction false} PathKey(g: Grammar, x: Lexicon, s: nat, nodes: seq<Node>, keys: seq<seq<int>>,
                                   root: seq<nat>, p: seq<nat>)
    requires TreeOk(g, x, s, nodes, keys, root) && IsPath(nodes, root, p) && !nodes[p[|p| - 1]].leaf
    ensures p[0] in root && forall k :: 0 <= k < |p| ==> p[k] < |nodes|
    ensures |keys[p[0]]| == 2 && nodes[p[0]].ciExt == keys[p[0]][0]
    ensures keys[p[|p| - 1]] == keys[p[0]] + SsidsOf(nodes, p) && |SsidsOf(nodes, p)| == |p| - 1
    ensures ScoreOf(nodes, p) == x.wip + |p| * x.pip
    decreases |p|
  {
    var m := |p| - 1;
    PathInside(nodes, root, p);
    if m > 0 {
      PathKey(g, x, s, nodes, keys, root, p[..m]);
      InTree(g, x, s, nodes, keys, root, p[m - 1], p[m]);
      assert |p| * x.pip == m * x.pip + x.pip;
    } else {
      InRoot(g, x, s, nodes, keys, root, p[0]);
      assert p[..0] == [];
    }
  }

  /** Whatever path leads from a root to the leaf of a transition spells the transition's word: as many nodes
      as phones, a root for its first two phones, the word's own inner senone sequences, and scores that add
      up to the transition's with the word penalty and a phone penalty for each phone. */
  lemma PathSpellsWord(g: Grammar, x: Lexicon, s: nat, nodes: seq<Node>, keys: seq<seq<int>>,
                       root: seq<nat>, p: seq<nat>)
    requires TreeOk(g, x, s, nodes, keys, root) && IsPath(nodes, root, p) && nodes[p[|p| - 1]].leaf
    ensures p[0] in root && forall k :: 0 <= k < |p| ==> p[k] < |nodes|
    ensures var l := nodes[p[|p| - 1]].link; var pron := x.pron(l.wid);
      && IsArc(g, l) && l.from == s && |p| == |pron| && nodes[p[0]].ciExt == EntryPhone(g, x, l.wid)
      && nodes[p[|p| - 1]].ciExt == ExitPhone(g, x, l.wid)
      && (|p| > 1 ==> keys[p[0]] == pron[..2] && SsidsOf(nodes, p[..|p| - 1]) == Inner(x, l.wid, |pron| - 2))
      && ScoreOf(nodes, p) == ShiftedProb(l) + x.wip + |p| * x.pip
  {
    var m := |p| - 1;
    PathInside(nodes, root, p);
    if m == 0 {
      InRoot(g, x, s, nodes, keys, root, p[0]);
      assert p[..0] == [];
    } else {
      var u, v := p[m - 1], p[m];
      PathKey(g, x, s, nodes, keys, root, p[..m]);
      InTree(g, x, s, nodes, keys, root, u, v);
      var w := nodes[v].link.wid;
      SameKey(keys[p[0]], SsidsOf(nodes, p[..m]), x.pron(w)[..2], Inner(x, w, |x.pron(w)| - 2));
      assert p[..m][0] == p[0] && x.pron(w)[..2][0] == x.pron(w)[0];
      assert |p| * x.pip == m * x.pip + x.pip;
    }
  }

  lemma SameKey(a: seq<int>, b: seq<int>, c: seq<int>, d: seq<int>)
    requires a + b == c + d && |a| == |c| == 2
    ensures a == c && b == d
  {
    assert (a + b)[..2] == a && (c + d)[..2] == c && (a + b)[2..] == b && (c + d)[2..] == d;
  }

  lemma {:induction false} PathStays(nodes: seq<Node>, root: seq<nat>, nodes': seq<Node>, root': seq<nat>, p: seq<nat>)
    requires IsPath(nodes, root, p) && Extends(nodes, nodes') && forall r :: r in root ==> r in root'
    ensures IsPath(nodes', root', p)
    decreases |p|
  {
    if |p| > 1 {
      PathStays(nodes, root, nodes', root', p[..|p| - 1]);
      PathInside(nodes, root, p);
      assert Grown(nodes[p[|p| - 2]], nodes'[p[|p| - 2]]);
    }
  }

  /** A path to a leaf of the transition, whose root takes the left context and, for a word of several phones,
      whose leaf offers the right context with its senone sequence. */
  predicate Says(g: Grammar, x: Lexicon, nodes: seq<Node>, p: seq<nat>, l: Link, lc: nat, rc: nat)
    requires p != [] && p[0] < |nodes| && p[|p| - 1] < |nodes|
  {
    var pron, v := x.pron(l.wid), nodes[p[|p| - 1]];
    && lc in nodes[p[0]].ctxt && v.leaf && v.link == l
    && (if |pron| == 1 then v.ssid == if l.wid in g.fillers then x.ci(pron[0]) else x.single(pron[0], lc)
        else |pron| >= 2 && rc in v.ctxt && OffersSsid(x, l.wid, v, rc))
  }

  predicate OffersSsid(x: Lexicon, wid: int, v: Node, rc: nat)
    requires |x.pron(wid)| >= 2
  {
    var w := LastXwd(x, wid);
    rc < |w.cimap| && w.cimap[rc] < |w.ssid| && v.ssid == w.ssid[w.cimap[rc]]
  }

  ghost predicate HasWord(g: Grammar, x: Lexicon, nodes: seq<Node>, root: seq<nat>, l: Link, lc: nat, rc: nat) {
    exists p :: IsPath(nodes, root, p) && InBounds(nodes, p) && Says(g, x, nodes, p, l, lc, rc)
  }

  /** The tree has every word transition among the first k arcs of state s, for all contexts. */
  ghost predicate WordsIn(g: Grammar, x: Lexicon, nodes: seq<Node>, root: seq<nat>, s: nat, lcs: seq<nat>, k: nat,
                          rcs: seq<seq<nat>>)
    requires s < |g.arcs| && k <= |g.arcs[s]| && forall i :: 0 <= i < k ==> g.arcs[s][i].to < |rcs|
  {
    forall i, lc: nat, rc: nat :: 0 <= i < k && g.arcs[s][i].wid >= 0 && lc in lcs && rc in rcs[g.arcs[s][i].to] ==>
      HasWord(g, x, nodes, root, g.arcs[s][i], lc, rc)
  }

  predicate InBounds(nodes: seq<Node>, p: seq<nat>) {
    p != [] && p[0] < |nodes| && p[|p| - 1] < |nodes|
  }

  lemma WordStays(g: Grammar, x: Lexicon, nodes: seq<Node>, root: seq<nat>, nodes': seq<Node>, root': seq<nat>,
                  l: Link, lc: nat, rc: nat)
    requires HasWord(g, x, nodes, root, l, lc, rc) && Extends(nodes, nodes') && forall r :: r in root ==> r in root'
    ensures HasWord(g, x, nodes', root', l, lc, rc)
  {
    var p :| IsPath(nodes, root, p) && InBounds(nodes, p) && Says(g, x, nodes, p, l, lc, rc);
    PathStays(nodes, root, nodes', root', p);
    assert Grown(nodes[p[|p| - 1]], nodes'[p[|p| - 1]]) && Grown(nodes[p[0]], nodes'[p[0]]);
  }

  lemma LeafThere(g: Grammar, x: Lexicon, nodes: seq<Node>, root: seq<nat>, path: seq<nat>, v: nat,
                  l: Link, lc: nat, rc: nat)
    requires IsPath(nodes, root, path) && path[0] < |nodes| && lc in nodes[path[0]].ctxt
    requires path[|path| - 1] < |nodes| && !nodes[path[|path| - 1]].leaf && v in nodes[path[|path| - 1]].children
    requires v < |nodes| && nodes[v].leaf && nodes[v].link == l && rc in nodes[v].ctxt
    requires |x.pron(l.wid)| >= 2 && OffersSsid(x, l.wid, nodes[v], rc)
    ensures HasWord(g, x, nodes, root, l, lc, rc)
  {
    var p := path + [v];
    assert p[..|path|] == path;
    assert IsPath(nodes, root, p) && Says(g, x, nodes, p, l, lc, rc);
  }

  // ---- the builder

  class TreeBuilder {
    const g: Grammar
    const x: Lexicon
    /** The state whose tree is built, and its left contexts. */
    const s: nat
    const lcs: seq<nat>
    /** The right contexts of all states, and the first two phones of the group being made. */
    ghost const rights: seq<seq<nat>>
    ghost var opening: seq<int>
    var nodes: seq<Node>
    var root: seq<nat>
    var groups: seq<Group>
    ghost var keys: seq<seq<int>>

    ghost predicate Valid()
      reads this
    {
      && IsLexicon(g, x) && IsContexts(x, lcs)
      && TreeOk(g, x, s, nodes, keys, root) && GroupsOk(nodes, keys, root, lcs, groups)
      && KeptOk(g, x, s, nodes, keys, root, groups, lcs, rights, opening)
    }

    constructor (g: Grammar, x: Lexicon, s: nat, lcs: seq<nat>, ghost rights: seq<seq<nat>>)
      requires IsLexicon(g, x) && IsContexts(x, lcs)
      ensures Valid() && nodes == [] && root == [] && groups == [] && opening == []
      ensures this.g == g && this.x == x && this.s == s && this.lcs == lcs && this.rights == rights
    {
      this.g, this.x, this.s, this.lcs, this.rights, opening := g, x, s, lcs, rights, [];
      nodes, root, groups, keys := [], [], [], [];
    }

    lemma TrainedAt(i: nat)
      requires Valid() && i < |nodes|
      ensures |nodes| == |keys| && NodeTrained(g, x, s, nodes[i], keys[i], lcs, rights)
    {
    }

    /** An allocation: a node that nothing points to. */
    method NewNode(v: Node, ghost key: seq<int>) returns (i: nat)
      requires Valid() && NodeOk(g, x, s, v) && v.children == [] && NodeTrained(g, x, s, v, key, lcs, rights)
      modifies this`nodes, this`keys
      ensures Valid() && i == |old(nodes)| && nodes == old(nodes) + [v] && keys == old(keys) + [key]
      ensures Extends(old(nodes), nodes)
    {
      AddNode(g, x, s, nodes, keys, root, lcs, groups, v, key);
      KeepNode(g, x, s, nodes, keys, root, groups, lcs, rights, opening, v, key);
      hide TreeOk, GroupsOk, NodeOk, KeptOk, NodeTrained;
      i := |nodes|;
      nodes := nodes + [v];
      keys := keys + [key];
    }

    method LinkRoot(r: nat)
      requires Valid() && r < |nodes| == |keys| && RootOk(x, nodes[r], keys[r])
      requires nodes[r].leaf || (NoRootFor(nodes, keys, root, keys[r]) && keys[r] == opening)
      modifies this`root
      ensures Valid() && root == [r] + old(root)
    {
      AddRoot(g, x, s, nodes, keys, root, lcs, groups, r);
      KeepRoot(g, x, s, nodes, keys, root, groups, lcs, rights, opening, r);
      hide TreeOk, GroupsOk, KeptOk;
      root := [r] + root;
    }

    /** fsg_pnode_add_ctxt. */
    method AddCtxt(i: nat, c: nat)
      requires Valid() && i < |nodes| == |keys|
      requires NodeTrained(g, x, s, nodes[i].(ctxt := nodes[i].ctxt + {c}), keys[i], lcs, rights)
      modifies this`nodes
      ensures Valid() && nodes == old(nodes)[i := old(nodes)[i].(ctxt := old(nodes)[i].ctxt + {c})]
      ensures Extends(old(nodes), nodes)
    {
      AddContext(g, x, s, nodes, keys, root, lcs, groups, i, c);
      KeepContext(g, x, s, nodes, keys, root, groups, lcs, rights, opening, i, c);
      hide TreeOk, GroupsOk, KeptOk, NodeTrained;
      nodes := nodes[i := nodes[i].(ctxt := nodes[i].ctxt + {c})];
    }

    method SetChildren(i: nat, children: seq<nat>)
      requires Valid() && i < |nodes| && !nodes[i].leaf
      requires forall c :: c in nodes[i].children ==> c in children
      requires forall k :: 0 <= k < |children| ==>
        children[k] < |nodes| && ChildOk(x, keys[i], nodes[children[k]], keys[children[k]])
      requires ChildrenApart(nodes, children)
      modifies this`nodes
      ensures Valid() && nodes == old(nodes)[i := old(nodes)[i].(children := children)]
      ensures Extends(old(nodes), nodes)
    {
      AddChildren(g, x, s, nodes, keys, root, lcs, groups, i, children);
      KeepChildren(g, x, s, nodes, keys, root, groups, lcs, rights, opening, i, children);
      hide TreeOk, GroupsOk, KeptOk;
      nodes := nodes[i := nodes[i].(children := children)];
    }

    // ---- words of one phone

    /** A filler: one root that is a leaf, for all contexts. */
    method AddFiller(l: Link)
      requires Valid() && IsArc(g, l) && l.from == s && l.wid in g.fillers && l.wid >= 0 && |x.pron(l.wid)| == 1
      modifies this`nodes, this`keys, this`root
      ensures Valid() && Extends(old(nodes), nodes) && (forall r :: r in old(root) ==> r in root)
      ensures forall lc: nat, rc: nat :: lc < x.nCi ==> HasWord(g, x, nodes, root, l, lc, rc)
    {
      var ci := x.pron(l.wid)[0];
      var v := Node(true, l, [], ShiftedProb(l) + x.wip + x.pip, ALL_CONTEXTS, x.sil, ci, x.ci(ci));
      assert 0 in ALL_CONTEXTS;
      var r := NewNode(v, []);
      LinkRoot(r);
      forall lc: nat, rc: nat | lc < x.nCi ensures HasWord(g, x, nodes, root, l, lc, rc) {
        assert IsPath(nodes, root, [r]) && Says(g, x, nodes, [r], l, lc, rc);
      }
    }

    /** The search of a list for a node with this senone sequence; the length of the list if there is none. */
    method FindSsid(list: seq<nat>, ssid: int) returns (k: nat)
      requires forall j :: 0 <= j < |list| ==> list[j] < |nodes|
      ensures k <= |list| && (k < |list| ==> nodes[list[k]].ssid == ssid)
    {
      k := 0;
      while k < |list| && nodes[list[k]].ssid != ssid
        invariant k <= |list|
      {
        k := k + 1;
      }
    }

    /** The leaves made so far for a word of one phone. */
    ghost predicate SingleLeaves(l: Link, list: seq<nat>)
      reads this
    {
      forall k :: 0 <= k < |list| ==>
        list[k] < |nodes| && list[k] in root && nodes[list[k]].leaf && nodes[list[k]].link == l
    }

    /** One left context of a word of one phone: an existing leaf with the same senone sequence, or a new one. */
    method AddSingleContext(l: Link, lc: nat, list: seq<nat>) returns (list': seq<nat>)
      requires Valid() && IsArc(g, l) && l.from == s && l.wid >= 0 && l.wid !in g.fillers && |x.pron(l.wid)| == 1
      requires lc < x.nCi && lc in lcs && SingleLeaves(l, list)
      modifies this`nodes, this`keys, this`root
      ensures Valid() && Extends(old(nodes), nodes) && (forall r :: r in old(root) ==> r in root)
      ensures SingleLeaves(l, list') && forall rc: nat :: HasWord(g, x, nodes, root, l, lc, rc)
    {
      var ci := x.pron(l.wid)[0];
      var ssid := x.single(ci, lc);
      var k := FindSsid(list, ssid);
      ghost var v: nat;
      if k < |list| {
        list', v := list, list[k];
        assert LeafTrained(g, x, nodes[v], lcs, rights) by { TrainedAt(v); }
        AddCtxt(list[k], lc);
      } else {
        var i := NewNode(Node(true, l, [], ShiftedProb(l) + x.wip + x.pip, {lc}, ci, ci, ssid), []);
        LinkRoot(i);
        list', v := [i] + list, i;
      }
      hide Valid, TreeOk, GroupsOk, Extends;
      forall rc: nat ensures HasWord(g, x, nodes, root, l, lc, rc) {
        assert IsPath(nodes, root, [v]) && Says(g, x, nodes, [v], l, lc, rc);
      }
    }

    method AddSingle(l: Link)
      requires Valid() && IsArc(g, l) && l.from == s && l.wid >= 0 && l.wid !in g.fillers && |x.pron(l.wid)| == 1
      modifies this`nodes, this`keys, this`root
      ensures Valid() && Extends(old(nodes), nodes) && (forall r :: r in old(root) ==> r in root)
      ensures forall lc: nat, rc: nat :: lc in lcs ==> HasWord(g, x, nodes, root, l, lc, rc)
    {
      var list := [];
      for i := 0 to |lcs|
        invariant Valid() && Extends(old(nodes), nodes) && (forall r :: r in old(root) ==> r in root)
        invariant SingleLeaves(l, list)
        invariant forall k, rc: nat :: 0 <= k < i ==> HasWord(g, x, nodes, root, l, lcs[k], rc)
      {
        ghost var nodes0, root0 := nodes, root;
        list := AddSingleContext(l, lcs[i], list);
        hide Valid, Extends, HasWord, IsArc;
        ExtendsTrans(old(nodes), nodes0, nodes);
        forall k, rc: nat | 0 <= k < i ensures HasWord(g, x, nodes, root, l, lcs[k], rc) {
          WordStays(g, x, nodes0, root0, nodes, root, l, lcs[k], rc);
        }
      }
    }

    // ---- words of several phones

    method FindGroup(ci: nat, rc: nat) returns (k: nat)
      ensures k <= |groups| && (k < |groups| ==> groups[k].ci == ci && groups[k].rc == rc)
      ensures k == |groups| ==> !InGroup([ci, rc], groups)
    {
      k := 0;
      while k < |groups| && !(groups[k].ci == ci && groups[k].rc == rc)
        invariant k <= |groups| && forall j :: 0 <= j < k ==> !(groups[j].ci == ci && groups[j].rc == rc)
      {
        k := k + 1;
      }
    }

    /** The search of the map from senone sequences to roots.  A miss leaves `pnode` at the last root looked
        at, so that only the first left context gets a root of its own. */
    method FindRoot(slots: seq<int>, ssid: int) returns (pnode: int, j: nat)
      requires |slots| == x.nCi && forall k :: 0 <= k < |slots| ==> slots[k] < |nodes|
      requires slots != [] && (forall k :: 1 <= k < |slots| ==> slots[k] < 0)
      ensures pnode == slots[0] || (pnode < 0 && slots[0] < 0)
      ensures slots[0] < 0 ==> j == 0
    {
      pnode, j := slots[0], 0;
      while j < x.nCi && slots[j] >= 0
        invariant j <= 1 && (pnode == slots[0]) && (slots[0] < 0 ==> j == 0)
        decreases x.nCi - j
      {
        pnode := slots[j];
        if nodes[pnode].ssid == ssid {
          break;
        }
        j := j + 1;
      }
    }

    /** One left context of a new group. */
    method RootContext(ci: nat, rc: nat, lc: nat, slots0: seq<int>, list0: seq<nat>, ghost done: seq<nat>)
      returns (slots: seq<int>, list: seq<nat>)
      requires Valid() && ci < x.nCi && Mapped(slots0, list0, ci, rc, done) && lc in lcs && opening == [ci, rc]
      modifies this`nodes, this`keys, this`root
      ensures Valid() && Extends(old(nodes), nodes) && (forall q :: q in old(root) ==> q in root)
      ensures list != [] && Mapped(slots, list, ci, rc, done + [lc])
    {
      hide TreeOk, GroupsOk, IsContexts, Extends;
      slots, list := slots0, list0;
      var ssid := x.first(ci, rc, lc);
      var pnode, j := FindRoot(slots, ssid);
      ghost var nodes0 := nodes;
      if pnode < 0 {
        var v := Node(false, Link(0, 0, -1, 0), [], RootScore(x), {}, ci, ci, ssid);
        SameLength();
        assert RootTrained(x, v, [ci, rc], lcs);
        RootsInside();
        pnode := NewNode(v, [ci, rc]);
        LinkRoot(pnode);
        list := [pnode] + list;
        slots := slots[j := pnode];
      } else {
        ExtendsSame(nodes);
      }
      ghost var nodes1 := nodes;
      TrainedAt(pnode);
      AddCtxt(pnode, lc);
      ExtendsTrans(nodes0, nodes1, nodes);
    }

    lemma RootsInside()
      requires Valid()
      ensures |nodes| == |keys| && forall a :: 0 <= a < |root| ==> root[a] < |nodes|
    {
    }

    lemma SameLength()
      requires Valid()
      ensures |nodes| == |keys|
    {
    }

    /** The map and the list hold the one root of the group, if there is one yet. */
    ghost predicate Mapped(slots: seq<int>, list: seq<nat>, ci: nat, rc: nat, done: seq<nat>)
      reads this
    {
      && |slots| == x.nCi > 0 && (forall k :: 1 <= k < |slots| ==> slots[k] == -1)
      && (list == [] ==> |nodes| == |keys| && NoRootFor(nodes, keys, root, [ci, rc]))
      && if list == [] then slots[0] == -1 && done == []
         else |list| == 1 && slots[0] == list[0] && IsRoot(list[0], ci, rc, done)
    }

    /** The root for a first phone and its successor, for all left contexts. */
    method NewGroup(ci: nat, rc: nat) returns (r: nat)
      requires Valid() && ci < x.nCi && opening == [] && !InGroup([ci, rc], groups)
      modifies this`nodes, this`keys, this`root, this`groups, this`opening
      ensures Valid() && Extends(old(nodes), nodes) && (forall q :: q in old(root) ==> q in root) && opening == []
      ensures GroupOk(nodes, keys, root, lcs, Group(ci, rc, [r]))
    {
      NotOpen(ci, rc);
      opening := [ci, rc];
      hide TreeOk, IsContexts, Extends, KeptOk;
      var list := RootsFor(ci, rc);
      GroupMade(Group(ci, rc, list));
      groups := [Group(ci, rc, list)] + groups;
      opening := [];
      r := list[0];
    }

    /** The left contexts of a new group, one by one. */
    method RootsFor(ci: nat, rc: nat) returns (list: seq<nat>)
      requires Valid() && ci < x.nCi && opening == [ci, rc]
      requires |nodes| == |keys| && NoRootFor(nodes, keys, root, [ci, rc])
      modifies this`nodes, this`keys, this`root
      ensures Valid() && Extends(old(nodes), nodes) && (forall q :: q in old(root) ==> q in root)
      ensures |list| == 1 && IsRoot(list[0], ci, rc, lcs)
    {
      var slots: seq<int> := seq(x.nCi, _ => -1);
      list := [];
      assert lcs[..0] == [] && lcs[..|lcs|] == lcs && lcs != [];
      ExtendsSame(nodes);
      assert Mapped(slots, list, ci, rc, lcs[..0]);
      hide Valid, Extends, IsRoot, NoRootFor;
      for i := 0 to |lcs|
        invariant Valid() && Extends(old(nodes), nodes) && (forall q :: q in old(root) ==> q in root)
        invariant Mapped(slots, list, ci, rc, lcs[..i]) && (i > 0 ==> list != [])
      {
        hide Mapped;
        ghost var nodes0 := nodes;
        assert lcs[..i + 1] == lcs[..i] + [lcs[i]];
        slots, list := RootContext(ci, rc, lcs[i], slots, list, lcs[..i]);
        ExtendsTrans(old(nodes), nodes0, nodes);
      }
    }

    /** Without a group there is no root, when none is being made; and its root then fits the invariant. */
    lemma NotOpen(ci: nat, rc: nat)
      requires Valid() && opening == [] && !InGroup([ci, rc], groups)
      ensures |nodes| == |keys| && NoRootFor(nodes, keys, root, [ci, rc])
      ensures KeptOk(g, x, s, nodes, keys, root, groups, lcs, rights, [ci, rc])
    {
      forall a | 0 <= a < |root| && IsInner(nodes, root[a]) ensures InGroup(keys[root[a]], groups) {
        assert NodeTrained(g, x, s, nodes[root[a]], keys[root[a]], lcs, rights);
        assert RootOk(x, nodes[root[a]], keys[root[a]]);
      }
    }

    lemma GroupMade(gr: Group)
      requires Valid() && opening == [gr.ci, gr.rc]
      ensures KeptOk(g, x, s, nodes, keys, root, [gr] + groups, lcs, rights, [])
    {
      hide TrainedOk, SharedOk;
      var all := [gr] + groups;
      forall a | 0 <= a < |root| && IsInner(nodes, root[a]) ensures InGroup(keys[root[a]], all) {
        if keys[root[a]] == opening {
          assert keys[root[a]] == [all[0].ci, all[0].rc];
        } else {
          var k :| 0 <= k < |groups| && keys[root[a]] == [groups[k].ci, groups[k].rc];
          assert all[k + 1] == groups[k];
        }
      }
    }

    ghost predicate IsRoot(r: nat, ci: nat, rc: nat, cs: seq<nat>)
      reads this
    {
      && r < |nodes| == |keys| && r in root && !nodes[r].leaf && keys[r] == [ci, rc]
      && forall c :: c in cs ==> c in nodes[r].ctxt
    }

    /** A path to a node that stands for the phones of a word up to phone p. */
    ghost predicate At(w: int, p: nat, pred: nat, path: seq<nat>)
      requires |x.pron(w)| >= 2
      reads this
    {
      && path != [] && IsPath(nodes, root, path) && path[|path| - 1] == pred && path[0] < |nodes|
      && (forall c :: c in lcs ==> c in nodes[path[0]].ctxt)
      && pred < |nodes| == |keys| && !nodes[pred].leaf && keys[pred] == Prefix(x, w, p)
    }

    /** The first phone: an existing group of roots or a new one. */
    method FirstPhone(w: int) returns (pred: nat, ghost path: seq<nat>)
      requires Valid() && |x.pron(w)| >= 2 && opening == []
      modifies this`nodes, this`keys, this`root, this`groups, this`opening
      ensures Valid() && Extends(old(nodes), nodes) && (forall q :: q in old(root) ==> q in root) && opening == []
      ensures At(w, 0, pred, path)
    {
      var ci, rc := x.pron(w)[0], x.pron(w)[1];
      var k := FindGroup(ci, rc);
      if k < |groups| {
        assert GroupOk(nodes, keys, root, lcs, groups[k]);
        pred := groups[k].list[0];
      } else {
        pred := NewGroup(ci, rc);
      }
      path := [pred];
      hide GroupsOk;
      assert keys[pred] == [ci, rc];
      assert x.pron(w)[..2] == [ci, rc];
    }

    /** The youngest child of this senone sequence that is not a leaf; the number of children if none. */
    method FindChild(children: seq<nat>, ssid: int) returns (k: nat)
      requires forall j :: 0 <= j < |children| ==> children[j] < |nodes|
      ensures k <= |children| && (k < |children| ==> nodes[children[k]].ssid == ssid && !nodes[children[k]].leaf)
      ensures k == |children| ==> NoneWith(children, ssid)
    {
      k := 0;
      while k < |children| && (nodes[children[k]].ssid != ssid || nodes[children[k]].leaf)
        invariant k <= |children|
        invariant forall j :: 0 <= j < k ==> nodes[children[j]].ssid != ssid || nodes[children[j]].leaf
      {
        k := k + 1;
      }
    }

    predicate NoneWith(children: seq<nat>, ssid: int)
      reads this
    {
      forall j :: 0 <= j < |children| && IsInner(nodes, children[j]) ==> nodes[children[j]].ssid != ssid
    }

    /** A new child for a further phone, in front of those that are there. */
    method NewChild(w: int, p: nat, pred: nat) returns (pnode: nat)
      requires Valid() && 1 <= p < |x.pron(w)| - 1 && WordAt(g, s, w)
      requires pred < |nodes| && NoneWith(nodes[pred].children, x.internal(w, p))
      requires pred < |nodes| == |keys| && !nodes[pred].leaf && keys[pred] == Prefix(x, w, p - 1)
      modifies this`nodes, this`keys
      ensures Valid() && Extends(old(nodes), nodes)
      ensures pnode < |nodes| == |keys| && !nodes[pnode].leaf && keys[pnode] == Prefix(x, w, p)
      ensures pnode in nodes[pred].children
    {
      ghost var keys0 := keys;
      var succ := nodes[pred].children;
      var ci, ssid := x.pron(w)[p], x.internal(w, p);
      assert Prefix(x, w, p) == Prefix(x, w, p - 1) + [ssid];
      hide Prefix, Extends;
      var v := Node(false, Link(0, 0, -1, 0), [], x.pip, {}, ci, ci, ssid);
      assert NodeOk(g, x, s, v);
      assert |Prefix(x, w, p)| == p + 2 && InnerOf(x, w, v.tmat, Prefix(x, w, p));
      hide TreeOk, GroupsOk, KeptOk, WordAt;
      ChildrenInside(pred);
      pnode := NewNode(v, Prefix(x, w, p));
      ghost var nodes1 := nodes;
      ChildrenStay(keys0, succ, pred);
      SharedAt(pred);
      assert ChildrenApart(nodes, [pnode] + succ);
      SetChildren(pred, [pnode] + succ);
      ExtendsTrans(old(nodes), nodes1, nodes);
    }

    lemma ChildrenInside(i: nat)
      requires Valid() && i < |nodes| && !nodes[i].leaf
      ensures forall k :: 0 <= k < |nodes[i].children| ==> nodes[i].children[k] < |nodes|
    {
      assert ChildrenOk(x, nodes, keys, i);
    }

    lemma FoundChild(w: int, p: nat, pred: nat, c: nat)
      requires Valid() && 1 <= p < |x.pron(w)| - 1 && pred < |nodes| == |keys| && !nodes[pred].leaf
      requires keys[pred] == Prefix(x, w, p - 1) && c in nodes[pred].children
      requires c < |nodes| && !nodes[c].leaf && nodes[c].ssid == x.internal(w, p)
      ensures keys[c] == Prefix(x, w, p)
    {
      assert ChildrenOk(x, nodes, keys, pred);
      assert Prefix(x, w, p) == Prefix(x, w, p - 1) + [x.internal(w, p)];
    }

    lemma SharedAt(i: nat)
      requires Valid() && i < |nodes| && !nodes[i].leaf
      ensures ChildrenApart(nodes, nodes[i].children)
    {
    }

    /** An inner phone: shared with the words before it as far as the senone sequences are the same. */
    method InnerPhone(w: int, p: nat, pred: nat, ghost path: seq<nat>) returns (pnode: nat, ghost path': seq<nat>)
      requires Valid() && 1 <= p < |x.pron(w)| - 1 && At(w, p - 1, pred, path) && WordAt(g, s, w)
      modifies this`nodes, this`keys
      ensures Valid() && Extends(old(nodes), nodes)
      ensures At(w, p, pnode, path')
    {
      hide TreeOk, GroupsOk, KeptOk, WordAt, Prefix, Extends, IsLexicon, IsContexts;
      var ssid := x.internal(w, p);
      var succ := nodes[pred].children;
      ChildrenInside(pred);
      var k := FindChild(succ, ssid);
      if k < |succ| {
        pnode := succ[k];
        FoundChild(w, p, pred, pnode);
        ExtendsSame(nodes);
      } else {
        pnode := NewChild(w, p, pred);
      }
      path' := path + [pnode];
      PathStays(old(nodes), root, nodes, root, path);
      GrownAt(old(nodes), nodes, path[0]);
      GrownAt(old(nodes), nodes, pred);
      assert path'[..|path|] == path;
    }

    /** The children of a node are still right after an allocation. */
    lemma ChildrenStay(keys0: seq<seq<int>>, succ: seq<nat>, pred: nat)
      requires Valid() && pred < |keys0| <= |keys| && keys[..|keys0|] == keys0
      requires !nodes[pred].leaf && nodes[pred].children == succ
      ensures forall k :: 0 <= k < |succ| ==>
        succ[k] < |nodes| && ChildOk(x, keys[pred], nodes[succ[k]], keys[succ[k]])
    {
      assert ChildrenOk(x, nodes, keys, pred);
    }

    /** The leaves made so far for one transition, and which senone sequence each is for. */
    ghost predicate LeavesOf(l: Link, w: Xwd, slots: seq<int>, rcs: seq<nat>, done: seq<nat>)
      reads this
    {
      && (forall k :: 0 <= k < |rcs| ==> rcs[k] < |nodes| && nodes[rcs[k]].leaf && nodes[rcs[k]].link == l)
      && |slots| == x.nCi == |w.cimap| && |w.ssid| <= x.nCi
      && (forall j :: 0 <= j < |w.ssid| && slots[j] >= 0 ==>
           slots[j] < |nodes| && slots[j] in rcs && nodes[slots[j]].ssid == w.ssid[j])
      && (forall c :: c in done ==>
           c < x.nCi && w.cimap[c] < |w.ssid| && 0 <= slots[w.cimap[c]] < |nodes| && c in nodes[slots[w.cimap[c]]].ctxt)
    }

    /** One right context of the last phone: the leaf for its senone sequence, or a new one. */
    method LeafContext(l: Link, ci: nat, w: Xwd, rc: nat, slots0: seq<int>, rcs0: seq<nat>, ghost done: seq<nat>)
      returns (slots: seq<int>, rcs: seq<nat>)
      requires Valid() && IsArc(g, l) && l.from == s && l.wid >= 0 && |x.pron(l.wid)| >= 2
      requires ci == x.pron(l.wid)[|x.pron(l.wid)| - 1]
      requires ci < x.nCi && rc < x.nCi && IsXwd(x.nCi, w) && LeavesOf(l, w, slots0, rcs0, done)
      requires w == LastXwd(x, l.wid) && l.to < |rights| && rc in rights[l.to]
      modifies this`nodes, this`keys
      ensures Valid() && Extends(old(nodes), nodes) && |old(keys)| <= |keys| && keys[..|old(keys)|] == old(keys)
      ensures forall i :: 0 <= i < |old(nodes)| ==> nodes[i].children == old(nodes)[i].children
      ensures LeavesOf(l, w, slots, rcs, done + [rc])
    {
      hide TreeOk, GroupsOk, KeptOk, IsLexicon, Extends, IsContexts;
      SameLength();
      slots, rcs := slots0, rcs0;
      var j := w.cimap[rc];
      var ssid := w.ssid[j];
      if slots[j] < 0 {
        var i := NewNode(Node(true, l, [], LeafScore(x, l), {rc}, ci, ci, ssid), []);
        rcs := [i] + rcs;
        slots := slots[j := i];
        assert forall c :: c in rcs0 ==> c in rcs;
        assert rcs[0] == i && i in rcs;
      } else {
        assert nodes[slots[j]].ssid == ssid;
        TrainedAt(slots[j]);
        AddCtxt(slots[j], rc);
      }
    }

    /** The leaves for all right contexts. */
    method AllLeaves(l: Link, ci: nat, w: Xwd, rclist: seq<nat>, pred: nat) returns (slots: seq<int>, rcs: seq<nat>)
      requires Valid() && IsArc(g, l) && l.from == s && l.wid >= 0 && |x.pron(l.wid)| >= 2
      requires ci == x.pron(l.wid)[|x.pron(l.wid)| - 1]
      requires ci < x.nCi && IsXwd(x.nCi, w) && IsContexts(x, rclist) && pred < |nodes|
      requires w == LastXwd(x, l.wid) && l.to < |rights| && rclist == rights[l.to]
      modifies this`nodes, this`keys
      ensures Valid() && Extends(old(nodes), nodes) && |old(keys)| <= |keys| && keys[..|old(keys)|] == old(keys)
      ensures nodes[pred].children == old(nodes)[pred].children && LeavesOf(l, w, slots, rcs, rclist)
    {
      slots, rcs := seq(x.nCi, _ => -1), [];
      assert rclist[..0] == [] && rclist[..|rclist|] == rclist;
      ExtendsSame(nodes);
      for i := 0 to |rclist|
        invariant Valid() && Extends(old(nodes), nodes) && |old(keys)| <= |keys| && keys[..|old(keys)|] == old(keys)
        invariant pred < |nodes| && nodes[pred].children == old(nodes)[pred].children
        invariant LeavesOf(l, w, slots, rcs, rclist[..i])
      {
        hide Valid, LeavesOf, Extends, IsArc;
        ghost var nodes0 := nodes;
        assert rclist[..i + 1] == rclist[..i] + [rclist[i]];
        slots, rcs := LeafContext(l, ci, w, rclist[i], slots, rcs, rclist[..i]);
        ExtendsTrans(old(nodes), nodes0, nodes);
      }
    }

    /** The leaves become children, behind those that are there. */
    method HangLeaves(l: Link, w: Xwd, slots: seq<int>, rcs: seq<nat>, ghost done: seq<nat>, pred: nat)
      requires Valid() && |x.pron(l.wid)| >= 2 && LeavesOf(l, w, slots, rcs, done)
      requires pred < |nodes| == |keys| && !nodes[pred].leaf && keys[pred] == WordKey(x, l.wid)
      modifies this`nodes
      ensures Valid() && Extends(old(nodes), nodes) && LeavesOf(l, w, slots, rcs, done)
      ensures pred < |nodes| && forall c :: c in rcs ==> c in nodes[pred].children
    {
      hide IsLexicon, TreeOk, GroupsOk, KeptOk, Extends, WordKey;
      ChildrenStay(keys, nodes[pred].children, pred);
      SharedAt(pred);
      assert ChildrenApart(nodes, nodes[pred].children + rcs);
      SetChildren(pred, nodes[pred].children + rcs);
    }

    /** The last phone: its leaves, behind the children that are there. */
    method LastPhone(l: Link, pred: nat, ghost path: seq<nat>, rclist: seq<nat>)
      requires Valid() && IsArc(g, l) && l.from == s && l.wid >= 0 && |x.pron(l.wid)| >= 2
      requires At(l.wid, |x.pron(l.wid)| - 2, pred, path) && IsContexts(x, rclist)
      requires l.to < |rights| && rclist == rights[l.to]
      modifies this`nodes, this`keys
      ensures Valid() && Extends(old(nodes), nodes)
      ensures forall lc: nat, rc: nat :: lc in lcs && rc in rclist ==> HasWord(g, x, nodes, root, l, lc, rc)
    {
      var pron := x.pron(l.wid);
      var ci := pron[|pron| - 1];
      var w := LastXwd(x, l.wid);
      assert IsXwd(x.nCi, w) && ci < x.nCi;
      ghost var keys0 := keys;
      hide Valid, Extends, IsContexts, IsXwd, WordKey, Prefix, LeavesOf, IsArc;
      var slots, rcs := AllLeaves(l, ci, w, rclist, pred);
      assert keys[..|keys0|][pred] == keys0[pred];
      ghost var nodes1 := nodes;
      GrownAt(old(nodes), nodes, pred);
      HangLeaves(l, w, slots, rcs, rclist, pred);
      ExtendsTrans(old(nodes), nodes1, nodes);
      WordsThere(old(nodes), l, w, slots, rcs, rclist, pred, path);
    }

    lemma WordsThere(nodes0: seq<Node>, l: Link, w: Xwd, slots: seq<int>, rcs: seq<nat>, rclist: seq<nat>,
                     pred: nat, path: seq<nat>)
      requires |x.pron(l.wid)| >= 2 && w == LastXwd(x, l.wid)
      requires Extends(nodes0, nodes) && IsPath(nodes0, root, path) && path[|path| - 1] == pred && path[0] < |nodes0|
      requires pred < |nodes0| && !nodes0[pred].leaf && forall c :: c in lcs ==> c in nodes0[path[0]].ctxt
      requires LeavesOf(l, w, slots, rcs, rclist) && forall c :: c in rcs ==> c in nodes[pred].children
      ensures forall lc: nat, rc: nat :: lc in lcs && rc in rclist ==> HasWord(g, x, nodes, root, l, lc, rc)
    {
      PathStays(nodes0, root, nodes, root, path);
      assert Grown(nodes0[pred], nodes[pred]) && Grown(nodes0[path[0]], nodes[path[0]]);
      hide Extends, IsPath, HasWord;
      forall lc: nat, rc: nat | lc in lcs && rc in rclist ensures HasWord(g, x, nodes, root, l, lc, rc) {
        LeafThere(g, x, nodes, root, path, slots[w.cimap[rc]], l, lc, rc);
      }
    }

    method AddMulti(l: Link, rclist: seq<nat>)
      requires Valid() && IsArc(g, l) && l.from == s && l.wid >= 0 && |x.pron(l.wid)| >= 2 && IsContexts(x, rclist)
      requires opening == [] && l.to < |rights| && rclist == rights[l.to]
      modifies this`nodes, this`keys, this`root, this`groups, this`opening
      ensures Valid() && Extends(old(nodes), nodes) && (forall r :: r in old(root) ==> r in root) && opening == []
      ensures forall lc: nat, rc: nat :: lc in lcs && rc in rclist ==> HasWord(g, x, nodes, root, l, lc, rc)
    {
      hide Valid, Extends, IsContexts, HasWord, At;
      var w := l.wid;
      assert WordAt(g, s, w);
      hide IsArc, WordAt;
      var pred, path := FirstPhone(w);
      for p := 1 to |x.pron(w)| - 1
        invariant Valid() && Extends(old(nodes), nodes) && (forall r :: r in old(root) ==> r in root) && opening == []
        invariant At(w, p - 1, pred, path)
      {
        ghost var nodes0 := nodes;
        pred, path := InnerPhone(w, p, pred, path);
        ExtendsTrans(old(nodes), nodes0, nodes);
      }
      ghost var nodes1 := nodes;
      LastPhone(l, pred, path, rclist);
      ExtendsTrans(old(nodes), nodes1, nodes);
    }

    /** psubtree_add_trans. */
    method AddTrans(l: Link, rclist: seq<nat>)
      requires Valid() && IsArc(g, l) && l.from == s && l.wid >= 0 && IsContexts(x, rclist)
      requires opening == [] && l.to < |rights| && rclist == rights[l.to]
      modifies this`nodes, this`keys, this`root, this`groups, this`opening
      ensures Valid() && Extends(old(nodes), nodes) && (forall r :: r in old(root) ==> r in root) && opening == []
      ensures forall lc: nat, rc: nat :: lc in lcs && rc in rclist ==> HasWord(g, x, nodes, root, l, lc, rc)
    {
      assert x.pron(l.wid) != [] && forall c :: c in lcs ==> c < x.nCi;
      hide Valid, Extends, IsArc, IsContexts, HasWord;
      if |x.pron(l.wid)| == 1 {
        if l.wid !in g.fillers {
          AddSingle(l);
        } else {
          AddFiller(l);
        }
      } else {
        AddMulti(l, rclist);
      }
    }

    /** Every word transition among the first k arcs of the state is in the tree, for all its contexts. */
    ghost predicate HasWords(k: nat, rcs: seq<seq<nat>>)
      requires s < |g.arcs| && k <= |g.arcs[s]| && forall i :: 0 <= i < k ==> g.arcs[s][i].to < |rcs|
      reads this
    {
      WordsIn(g, x, nodes, root, s, lcs, k, rcs)
    }

    lemma WordsStay(k: nat, rcs: seq<seq<nat>>, nodes0: seq<Node>, root0: seq<nat>)
      requires s < |g.arcs| && k <= |g.arcs[s]| && forall i :: 0 <= i < k ==> g.arcs[s][i].to < |rcs|
      requires Extends(nodes0, nodes) && forall r :: r in root0 ==> r in root
      requires WordsIn(g, x, nodes0, root0, s, lcs, k, rcs)
      ensures HasWords(k, rcs)
    {
      hide HasWord, Extends;
      forall i, lc: nat, rc: nat | 0 <= i < k && g.arcs[s][i].wid >= 0 && lc in lcs && rc in rcs[g.arcs[s][i].to]
        ensures HasWord(g, x, nodes, root, g.arcs[s][i], lc, rc)
      {
        WordStays(g, x, nodes0, root0, nodes, root, g.arcs[s][i], lc, rc);
      }
    }

    /** One arc of fsg_psubtree_init; null transitions are passed over. */
    method AddArc(k: nat, rcs: seq<seq<nat>>)
      requires Valid() && s < g.nState && k < |g.arcs[s]| && |rcs| == g.nState
      requires (forall i :: 0 <= i < |rcs| ==> IsContexts(x, rcs[i]))
      requires (forall i :: 0 <= i < |g.arcs[s]| ==> g.arcs[s][i].to < g.nState && g.arcs[s][i].from == s)
      requires |g.arcs| == g.nState && HasWords(k, rcs) && opening == [] && rcs == rights
      modifies this`nodes, this`keys, this`root, this`groups, this`opening
      ensures Valid() && HasWords(k + 1, rcs) && opening == []
    {
      var l := g.arcs[s][k];
      ghost var nodes0, root0 := nodes, root;
      assert IsArc(g, l);
      hide Valid, Extends, IsArc, IsContexts, HasWord;
      if l.wid >= 0 {
        AddTrans(l, rcs[l.to]);
        WordsStay(k, rcs, nodes0, root0);
      }
    }

    /** fsg_psubtree_init: the tree of one state, given the right contexts of all states. */
    method Init(rcs: seq<seq<nat>>)
      requires Valid() && s < g.nState && |rcs| == g.nState && forall i :: 0 <= i < |rcs| ==> IsContexts(x, rcs[i])
      requires opening == [] && rcs == rights
      modifies this`nodes, this`keys, this`root, this`groups, this`opening
      ensures Valid() && |g.arcs| == g.nState && opening == []
      ensures (forall i :: 0 <= i < |g.arcs[s]| ==> g.arcs[s][i].to < |rcs|) && HasWords(|g.arcs[s]|, rcs)
    {
      assert IsGrammar(g);
      hide Valid, HasWord, IsContexts;
      for k := 0 to |g.arcs[s]|
        invariant Valid() && HasWords(k, rcs) && opening == []
      {
        hide HasWords;
        AddArc(k, rcs);
      }
    }
  }

  // ---- the lexical trees of all states

  function Moved(ids: seq<nat>, off: nat): (r: seq<nat>)
    ensures |r| == |ids|
  {
    seq(|ids|, k requires 0 <= k < |ids| => ids[k] + off)
  }

  /** A node as the search sees it. */
  function PnodeOf(x: Lexicon, v: Node, s: nat, off: nat): Pnode {
    Pnode(v.leaf, v.link, Moved(v.children, off), v.logs2prob, v.ctxt, v.ciExt, x.tmat(v.tmat), x.sseq(v.ssid), s)
  }

  function PnodesOf(x: Lexicon, nodes: seq<Node>, s: nat, off: nat): (r: seq<Pnode>)
    ensures |r| == |nodes|
  {
    seq(|nodes|, i requires 0 <= i < |nodes| => PnodeOf(x, nodes[i], s, off))
  }

  /** The trees of the states before s are what the search requires. */
  ghost predicate IsPartial(g: Grammar, lt: Lextree, s: nat) {
    && |lt.roots| == s
    && (forall i :: 0 <= i < |lt.nodes| ==> IsPnode(g, lt, lt.nodes[i]))
    && (forall t, k :: 0 <= t < |lt.roots| && 0 <= k < |lt.roots[t]| ==>
         lt.roots[t][k] < |lt.nodes| && lt.nodes[lt.roots[t][k]].tree == t)
  }

  function Joined(x: Lexicon, lt: Lextree, nodes: seq<Node>, root: seq<nat>, s: nat): Lextree {
    lt.(nodes := lt.nodes + PnodesOf(x, nodes, s, |lt.nodes|), roots := lt.roots + [Moved(root, |lt.nodes|)])
  }

  lemma OldPnode(g: Grammar, x: Lexicon, lt: Lextree, nodes: seq<Node>, root: seq<nat>, s: nat, i: nat)
    requires i < |lt.nodes| && IsPnode(g, lt, lt.nodes[i])
    ensures IsPnode(g, Joined(x, lt, nodes, root, s), lt.nodes[i])
  {
  }

  lemma NewPnode(g: Grammar, x: Lexicon, lt: Lextree, nodes: seq<Node>, keys: seq<seq<int>>, root: seq<nat>, s: nat,
      i: nat)
    requires IsLexicon(g, x) && TreeOk(g, x, s, nodes, keys, root) && s < g.nState
    requires lt.nEmit == x.nEmit && lt.nCi == x.nCi && i < |nodes|
    ensures IsPnode(g, Joined(x, lt, nodes, root, s), PnodeOf(x, nodes[i], s, |lt.nodes|))
  {
    assert NodeOk(g, x, s, nodes[i]) && ChildrenOk(x, nodes, keys, i);
    var j := Joined(x, lt, nodes, root, s);
    var p := PnodeOf(x, nodes[i], s, |lt.nodes|);
    assert IsTmat(p.tp, x.nEmit) && |p.senid| == x.nEmit;
    hide IsLexicon, TreeOk, ChildOk, IsTmat;
    forall k | !p.leaf && 0 <= k < |p.children| ensures p.children[k] < |j.nodes| && j.nodes[p.children[k]].tree == s {
      assert p.children[k] == nodes[i].children[k] + |lt.nodes|;
    }
  }

  /** One more state's tree. */
  lemma JoinPartial(g: Grammar, x: Lexicon, lt: Lextree, nodes: seq<Node>, keys: seq<seq<int>>, root: seq<nat>, s: nat)
    requires IsLexicon(g, x) && TreeOk(g, x, s, nodes, keys, root) && s < g.nState
    requires lt.nEmit == x.nEmit && lt.nCi == x.nCi && IsPartial(g, lt, s)
    ensures IsPartial(g, Joined(x, lt, nodes, root, s), s + 1)
  {
    var j := Joined(x, lt, nodes, root, s);
    forall k | 0 <= k < |root| ensures root[k] < |nodes| {
      assert root[k] in root;
    }
    hide IsLexicon, TreeOk, IsPnode;
    forall i | 0 <= i < |j.nodes| ensures IsPnode(g, j, j.nodes[i]) {
      if i < |lt.nodes| {
        OldPnode(g, x, lt, nodes, root, s, i);
      } else {
        NewPnode(g, x, lt, nodes, keys, root, s, i - |lt.nodes|);
      }
    }
    forall t, k | 0 <= t < |j.roots| && 0 <= k < |j.roots[t]|
      ensures j.roots[t][k] < |j.nodes| && j.nodes[j.roots[t][k]].tree == t
    {
      if t < |lt.roots| {
        assert j.roots[t] == lt.roots[t];
      } else {
        assert j.roots[t] == Moved(root, |lt.nodes|);
      }
    }
  }

  /** The lists that fsg_lextree_lc_rc leaves (FsgContexts.Contexts.LcRc) are what the trees are built with. */
  lemma ContextsFit(g: Grammar, d: FsgContexts.Dict, x: Lexicon, s: nat, left: seq<nat>, right: seq<nat>)
    requires FsgContexts.IsDict(g, d) && d.nCi == x.nCi
    requires FsgContexts.Enumerates(left, FsgContexts.LeftSet(g, d, s))
    requires FsgContexts.Enumerates(right, FsgContexts.RightSet(g, d, s))
    ensures IsContexts(x, left) && IsContexts(x, right)
  {
    assert FsgContexts.OwnLeft(g, d, s, d.sil) && FsgContexts.OwnRight(g, d, s, d.sil);
    assert d.sil in FsgContexts.LeftSet(g, d, s) && d.sil in FsgContexts.RightSet(g, d, s);
    assert d.sil in left && d.sil in right;
    forall i | 0 <= i < |left| ensures left[i] < x.nCi {
      assert left[i] in left && left[i] in FsgContexts.LeftSet(g, d, s);
    }
    forall i | 0 <= i < |right| ensures right[i] < x.nCi {
      assert right[i] in right && right[i] in FsgContexts.RightSet(g, d, s);
    }
  }

  // ---- the words of the trees the search receives

  predicate IsChild(u: Pnode, v: nat) {
    !u.leaf && v in u.children
  }

  /** A path in the tree of state s. */
  predicate LtPath(lt: Lextree, s: nat, p: seq<nat>)
    requires s < |lt.roots|
    decreases |p|
  {
    p != [] && var m := |p| - 1;
      && p[m] < |lt.nodes|
      && if m == 0 then p[0] in lt.roots[s]
         else LtPath(lt, s, p[..m]) && p[m - 1] < |lt.nodes| && IsChild(lt.nodes[p[m - 1]], p[m])
  }

  function LtScore(lt: Lextree, p: seq<nat>): int
    requires forall k :: 0 <= k < |p| ==> p[k] < |lt.nodes|
  {
    if p == [] then 0 else LtScore(lt, p[..|p| - 1]) + lt.nodes[p[|p| - 1]].logs2prob
  }

  /** A path to a leaf of the transition: its root takes the left context, and its leaf has the senones of the
      word's last phone in the right context, or of its only phone in the left one. */
  predicate LtSays(g: Grammar, x: Lexicon, lt: Lextree, p: seq<nat>, l: Link, lc: nat, rc: nat)
    requires p != [] && p[0] < |lt.nodes| && p[|p| - 1] < |lt.nodes|
  {
    var pron, v := x.pron(l.wid), lt.nodes[p[|p| - 1]];
    && lc in lt.nodes[p[0]].ctxt && v.leaf && v.link == l
    && (|pron| == 1 ==> v.senid == x.sseq(if l.wid in g.fillers then x.ci(pron[0]) else x.single(pron[0], lc)))
    && (|pron| != 1 ==> |pron| >= 2 && rc in v.ctxt && LtOffers(x, l.wid, v, rc))
  }

  predicate LtOffers(x: Lexicon, wid: int, v: Pnode, rc: nat)
    requires |x.pron(wid)| >= 2
  {
    var w := LastXwd(x, wid);
    rc < |w.cimap| && w.cimap[rc] < |w.ssid| && v.senid == x.sseq(w.ssid[w.cimap[rc]])
  }

  ghost predicate LtHasWord(g: Grammar, x: Lexicon, lt: Lextree, s: nat, l: Link, lc: nat, rc: nat)
    requires s < |lt.roots|
  {
    exists p :: LtPath(lt, s, p) && p[0] < |lt.nodes| && LtSays(g, x, lt, p, l, lc, rc)
  }

  /** The tree of every state has each word that leaves it, in all contexts. */
  ghost predicate HasAllWords(g: Grammar, x: Lexicon, lt: Lextree, lcs: seq<seq<nat>>, rcs: seq<seq<nat>>) {
    && IsGrammar(g) && |lt.roots| == |lcs| == |rcs| == g.nState
    && forall s: nat, i, lc: nat, rc: nat ::
      s < g.nState && 0 <= i < |g.arcs[s]| && g.arcs[s][i].wid >= 0 && lc in lcs[s] && rc in rcs[g.arcs[s][i].to] ==>
        LtHasWord(g, x, lt, s, g.arcs[s][i], lc, rc)
  }

  predicate Within(lt: Lextree, p: seq<nat>) {
    p != [] && forall k :: 0 <= k < |p| ==> p[k] < |lt.nodes|
  }

  /** Any path to a leaf spells the word of a transition that leaves s: one node for each phone, the inner
      ones with the word's own senones, and scores that add up. */
  ghost predicate LtSpells(g: Grammar, x: Lexicon, lt: Lextree, s: nat, p: seq<nat>)
    requires Within(lt, p)
  {
    var l := lt.nodes[p[|p| - 1]].link;
    && IsArc(g, l) && l.from == s && l.wid >= 0 && |p| == |x.pron(l.wid)|
    && lt.nodes[p[0]].ciExt == EntryPhone(g, x, l.wid) && lt.nodes[p[|p| - 1]].ciExt == ExitPhone(g, x, l.wid)
    && (forall k :: 1 <= k < |p| - 1 ==> lt.nodes[p[k]].senid == x.sseq(x.internal(l.wid, k)))
    && LtScore(lt, p) == ShiftedProb(l) + x.wip + |p| * x.pip
  }

  /** The scores of a word of several phones: the penalties at its root, the transition's at its leaf. */
  predicate LtScored(x: Lexicon, lt: Lextree, p: seq<nat>)
    requires Within(lt, p)
  {
    |p| >= 2 ==>
      && lt.nodes[p[0]].logs2prob == x.wip + x.pip
      && (forall k :: 1 <= k < |p| - 1 ==> lt.nodes[p[k]].logs2prob == x.pip)
      && lt.nodes[p[|p| - 1]].logs2prob == ShiftedProb(lt.nodes[p[|p| - 1]].link) + x.pip
  }

  /** Each node was trained for what it is entered and left with: a leaf has the senones of every right context it
      takes (of every left one when it is a root as well), and takes none that was not offered; a root of a
      longer word takes the state's left contexts and has the senones of one of them; first and last node have
      the matrix of their phone. */
  ghost predicate LtTrained(g: Grammar, x: Lexicon, lt: Lextree, p: seq<nat>, lcs: seq<nat>, rcs: seq<seq<nat>>)
    requires Within(lt, p)
  {
    var pron := x.pron(lt.nodes[p[|p| - 1]].link.wid);
    && |pron| == |p| && LtLeafTrained(g, x, lt.nodes[p[|p| - 1]], lcs, rcs)
    && (|p| > 1 ==> LtRootTrained(x, lt.nodes[p[0]], pron, lcs))
  }

  predicate LtLeafTrained(g: Grammar, x: Lexicon, v: Pnode, lcs: seq<nat>, rcs: seq<seq<nat>>) {
    var w := v.link.wid;
    var pron := x.pron(w);
    && pron != [] && v.tp == x.tmat(pron[|pron| - 1])
    && if |pron| >= 2 then
         v.link.to < |rcs| && forall c :: c in v.ctxt ==> c in rcs[v.link.to] && LtOffers(x, w, v, c)
       else if w in g.fillers then v.senid == x.sseq(x.ci(pron[0])) && v.ctxt == ALL_CONTEXTS
       else forall c :: c in v.ctxt ==> c in lcs && v.senid == x.sseq(x.single(pron[0], c))
  }

  ghost predicate LtRootTrained(x: Lexicon, v: Pnode, pron: seq<nat>, lcs: seq<nat>) {
    && |pron| >= 2 && v.tp == x.tmat(pron[0]) && (forall c :: c in v.ctxt ==> c in lcs)
    && exists c :: c in lcs && v.senid == x.sseq(x.first(pron[0], pron[1], c))
  }

  /** And no other: whatever path leads to a leaf spells its word. */
  ghost predicate OnlyWords(g: Grammar, x: Lexicon, lt: Lextree, lcs: seq<seq<nat>>, rcs: seq<seq<nat>>) {
    forall s: nat, p ::
      s < |lt.roots| && s < |lcs| && LtPath(lt, s, p) && Within(lt, p) && lt.nodes[p[|p| - 1]].leaf ==>
        LtSpells(g, x, lt, s, p) && LtScored(x, lt, p) && LtTrained(g, x, lt, p, lcs[s], rcs)
  }

  /** On every path of state s the inner nodes have the matrices of their own word's phones. */
  ghost predicate OwnMatrices(x: Lexicon, lt: Lextree, s: nat)
    requires s < |lt.roots|
  {
    forall p, k: nat :: LtPath(lt, s, p) && Within(lt, p) && lt.nodes[p[|p| - 1]].leaf && 1 <= k < |p| - 1 ==>
      OwnMatrix(x, lt, p, k)
  }

  predicate OwnMatrix(x: Lexicon, lt: Lextree, p: seq<nat>, k: nat)
    requires Within(lt, p) && k < |p|
  {
    var pron := x.pron(lt.nodes[p[|p| - 1]].link.wid);
    k < |pron| && lt.nodes[p[k]].tp == x.tmat(pron[k])
  }

  /** Words of s that begin with the same two phones and go on with the same senone sequences up to phone k have
      the same matrix there. */
  ghost predicate MatricesAgree(g: Grammar, x: Lexicon, s: nat) {
    forall w, w', k: nat :: WordAt(g, s, w) && WordAt(g, s, w') && Alike(x, w, w', k) ==>
      x.tmat(x.pron(w)[k]) == x.tmat(x.pron(w')[k])
  }

  predicate Alike(x: Lexicon, w: int, w': int, k: nat) {
    1 <= k < |x.pron(w)| - 1 && k < |x.pron(w')| - 1 && Prefix(x, w, k) == Prefix(x, w', k)
  }

  // ---- the nodes along a path

  /** A node of a path to a word's leaf stands for the word's first phones. */
  lemma KeyAt(g: Grammar, x: Lexicon, s: nat, nodes: seq<Node>, keys: seq<seq<int>>, root: seq<nat>, p: seq<nat>,
              k: nat)
    requires TreeOk(g, x, s, nodes, keys, root) && IsPath(nodes, root, p) && nodes[p[|p| - 1]].leaf && k < |p| - 1
    ensures p[k] < |nodes| == |keys| && IsPath(nodes, root, p[..k + 1]) && !nodes[p[k]].leaf
    ensures var w := nodes[p[|p| - 1]].link.wid; |x.pron(w)| == |p| && keys[p[k]] == Prefix(x, w, k)
  {
    PathInside(nodes, root, p);
    hide TreeOk, IsPath, ScoreOf;
    PathSpellsWord(g, x, s, nodes, keys, root, p);
    PathPrefix(nodes, root, p, k);
    PathKey(g, x, s, nodes, keys, root, p[..k + 1]);
    var w := nodes[p[|p| - 1]].link.wid;
    assert p[..k + 1][0] == p[0] && p[..k + 1][k] == p[k];
    SsidsAre(x, nodes, p, w, k);
  }

  lemma SsidsAre(x: Lexicon, nodes: seq<Node>, p: seq<nat>, w: int, k: nat)
    requires (forall i :: 0 <= i < |p| ==> p[i] < |nodes|) && k < |p| - 1
    requires SsidsOf(nodes, p[..|p| - 1]) == Inner(x, w, |p| - 2)
    ensures SsidsOf(nodes, p[..k + 1]) == Inner(x, w, k)
  {
    hide SsidsOf, Inner;
    var q := p[..|p| - 1];
    SsidCount(nodes, p[..k + 1]);
    forall j | 0 <= j < k ensures SsidsOf(nodes, p[..k + 1])[j] == Inner(x, w, k)[j] {
      SsidAt(nodes, p[..k + 1], j + 1);
      SsidAt(nodes, q, j + 1);
      InnerAt(x, w, |p| - 2, j + 1);
      InnerAt(x, w, k, j + 1);
    }
  }

  lemma SsidCount(nodes: seq<Node>, p: seq<nat>)
    requires p != [] && forall i :: 0 <= i < |p| ==> p[i] < |nodes|
    ensures |SsidsOf(nodes, p)| == |p| - 1
  {
    if |p| > 1 {
      SsidAt(nodes, p, 1);
    }
  }

  lemma {:induction false} PathPrefix(nodes: seq<Node>, root: seq<nat>, p: seq<nat>, k: nat)
    requires IsPath(nodes, root, p) && k < |p| - 1
    ensures IsPath(nodes, root, p[..k + 1]) && p[k] < |nodes| && p[k + 1] < |nodes|
    ensures !nodes[p[k]].leaf && p[k + 1] in nodes[p[k]].children
    decreases |p|
  {
    var q := p[..|p| - 1];
    PathInside(nodes, root, p);
    if k < |q| - 1 {
      PathPrefix(nodes, root, q, k);
      assert q[..k + 1] == p[..k + 1];
    } else {
      assert p[..k + 1] == q;
    }
  }

  /** Two paths to words that begin alike go through the same nodes that far. */
  lemma {:induction false} SameNode(g: Grammar, x: Lexicon, s: nat, nodes: seq<Node>, keys: seq<seq<int>>,
                                    root: seq<nat>, p: seq<nat>, q: seq<nat>, k: nat)
    requires TreeOk(g, x, s, nodes, keys, root) && SharedOk(nodes) && RootsApart(nodes, keys, root)
    requires IsPath(nodes, root, p) && nodes[p[|p| - 1]].leaf && k < |p| - 1
    requires IsPath(nodes, root, q) && nodes[q[|q| - 1]].leaf && k < |q| - 1
    requires |x.pron(nodes[p[|p| - 1]].link.wid)| == |p| && |x.pron(nodes[q[|q| - 1]].link.wid)| == |q|
    requires Prefix(x, nodes[p[|p| - 1]].link.wid, k) == Prefix(x, nodes[q[|q| - 1]].link.wid, k)
    ensures p[k] == q[k]
    decreases k
  {
    var w, w' := nodes[p[|p| - 1]].link.wid, nodes[q[|q| - 1]].link.wid;
    hide TreeOk, IsPath, SharedOk, RootsApart;
    KeyAt(g, x, s, nodes, keys, root, p, k);
    KeyAt(g, x, s, nodes, keys, root, q, k);
    if k == 0 {
      PathInside(nodes, root, p);
      PathInside(nodes, root, q);
      OneRoot(nodes, keys, root, p[0], q[0]);
    } else {
      assert Prefix(x, w, k)[..k + 1] == Prefix(x, w, k - 1) && Prefix(x, w', k)[..k + 1] == Prefix(x, w', k - 1);
      SameNode(g, x, s, nodes, keys, root, p, q, k - 1);
      PathPrefix(nodes, root, p, k - 1);
      PathPrefix(nodes, root, q, k - 1);
      OneChild(g, x, s, nodes, keys, root, p[k - 1], p[k], q[k]);
    }
  }

  lemma OneRoot(nodes: seq<Node>, keys: seq<seq<int>>, root: seq<nat>, a: nat, b: nat)
    requires |nodes| == |keys| && RootsApart(nodes, keys, root) && a in root && b in root
    requires IsInner(nodes, a) && IsInner(nodes, b) && keys[a] == keys[b]
    ensures a == b
  {
  }

  lemma OneChild(g: Grammar, x: Lexicon, s: nat, nodes: seq<Node>, keys: seq<seq<int>>, root: seq<nat>, u: nat,
                 a: nat, b: nat)
    requires TreeOk(g, x, s, nodes, keys, root) && SharedOk(nodes) && IsInner(nodes, u)
    requires a in nodes[u].children && b in nodes[u].children && IsInner(nodes, a) && IsInner(nodes, b)
    requires keys[a] == keys[b]
    ensures a == b
  {
    InTree(g, x, s, nodes, keys, root, u, a);
    InTree(g, x, s, nodes, keys, root, u, b);
    assert ChildrenApart(nodes, nodes[u].children);
    hide TreeOk, SharedOk, NodeOk;
    assert keys[a][|keys[u]|] == nodes[a].ssid && keys[b][|keys[u]|] == nodes[b].ssid;
  }

  // ---- trees among all nodes

  /** The tree of one state and where its nodes are among all. */
  datatype Built = Built(nodes: seq<Node>, keys: seq<seq<int>>, root: seq<nat>, off: nat)

  predicate ViewOf(x: Lexicon, lt: Lextree, s: nat, b: Built) {
    && s < |lt.roots| && lt.roots[s] == Moved(b.root, b.off) && b.off + |b.nodes| <= |lt.nodes|
    && forall i :: 0 <= i < |b.nodes| ==> lt.nodes[b.off + i] == PnodeOf(x, b.nodes[i], s, b.off)
  }

  lemma ViewStays(x: Lexicon, lt: Lextree, nodes: seq<Node>, root: seq<nat>, s: nat, t: nat, b: Built)
    requires ViewOf(x, lt, t, b)
    ensures ViewOf(x, Joined(x, lt, nodes, root, s), t, b)
  {
  }

  lemma NewView(x: Lexicon, lt: Lextree, nodes: seq<Node>, keys: seq<seq<int>>, root: seq<nat>, s: nat)
    requires |lt.roots| == s
    ensures ViewOf(x, Joined(x, lt, nodes, root, s), s, Built(nodes, keys, root, |lt.nodes|))
  {
  }

  /** What the view says of one node. */
  lemma ViewAt(x: Lexicon, lt: Lextree, s: nat, b: Built, i: nat)
    requires ViewOf(x, lt, s, b) && i < |b.nodes|
    ensures b.off + i < |lt.nodes|
    ensures var v, u := lt.nodes[b.off + i], b.nodes[i];
      && v.leaf == u.leaf && v.link == u.link && v.logs2prob == u.logs2prob && v.ctxt == u.ctxt && v.ciExt == u.ciExt
      && v.tp == x.tmat(u.tmat)
      && v.senid == x.sseq(u.ssid) && |v.children| == |u.children|
      && forall k :: 0 <= k < |u.children| ==> v.children[k] == u.children[k] + b.off
  {
  }

  lemma ViewRoots(x: Lexicon, lt: Lextree, s: nat, b: Built)
    requires ViewOf(x, lt, s, b)
    ensures s < |lt.roots| && |lt.roots[s]| == |b.root|
    ensures forall k :: 0 <= k < |b.root| ==> lt.roots[s][k] == b.root[k] + b.off
  {
  }

  lemma {:induction false} PathUp(x: Lexicon, lt: Lextree, s: nat, b: Built, q: seq<nat>)
    requires ViewOf(x, lt, s, b) && IsPath(b.nodes, b.root, q)
    ensures LtPath(lt, s, Moved(q, b.off))
    decreases |q|
  {
    hide ViewOf;
    var m := |q| - 1;
    var p := Moved(q, b.off);
    ViewAt(x, lt, s, b, q[m]);
    ViewRoots(x, lt, s, b);
    if m == 0 {
      var k :| 0 <= k < |b.root| && b.root[k] == q[0];
      assert lt.roots[s][k] == p[0];
    } else {
      PathUp(x, lt, s, b, q[..m]);
      PathInside(b.nodes, b.root, q);
      assert p[..m] == Moved(q[..m], b.off);
      ViewAt(x, lt, s, b, q[m - 1]);
      var k :| 0 <= k < |b.nodes[q[m - 1]].children| && b.nodes[q[m - 1]].children[k] == q[m];
      hide LtPath, IsPath;
      assert lt.nodes[p[m - 1]].children[k] == p[m];
    }
  }

  lemma Extended(nodes: seq<Node>, root: seq<nat>, u: seq<nat>, c: nat)
    requires IsPath(nodes, root, u) && u[|u| - 1] < |nodes| && !nodes[u[|u| - 1]].leaf
    requires c in nodes[u[|u| - 1]].children && c < |nodes|
    ensures IsPath(nodes, root, u + [c])
  {
    assert (u + [c])[..|u|] == u;
  }

  /** A path of the search's tree is the path of the built one, moved. */
  lemma {:induction false} PathDown(g: Grammar, x: Lexicon, lt: Lextree, s: nat, b: Built, p: seq<nat>)
    returns (q: seq<nat>)
    requires ViewOf(x, lt, s, b) && TreeOk(g, x, s, b.nodes, b.keys, b.root) && s < |lt.roots| && LtPath(lt, s, p)
    ensures IsPath(b.nodes, b.root, q) && p == Moved(q, b.off)
    decreases |p|
  {
    hide ViewOf, TreeOk, NodeOk, ChildOk, RootOk;
    ViewRoots(x, lt, s, b);
    var m := |p| - 1;
    if m == 0 {
      var k :| 0 <= k < |lt.roots[s]| && lt.roots[s][k] == p[0];
      InRoot(g, x, s, b.nodes, b.keys, b.root, b.root[k]);
      q := [b.root[k]];
    } else {
      var u := PathDown(g, x, lt, s, b, p[..m]);
      var e := u[m - 1];
      var k :| 0 <= k < |lt.nodes[p[m - 1]].children| && lt.nodes[p[m - 1]].children[k] == p[m];
      assert !lt.nodes[p[m - 1]].leaf && p[m - 1] == p[..m][m - 1] == e + b.off;
      hide LtPath;
      PathInside(b.nodes, b.root, u);
      ViewAt(x, lt, s, b, e);
      var c := b.nodes[e].children[k];
      InTree(g, x, s, b.nodes, b.keys, b.root, e, c);
      hide IsPath;
      Extended(b.nodes, b.root, u, c);
      q := u + [c];
      assert p == p[..m] + [p[m]];
    }
  }

  lemma {:induction false} SameScore(x: Lexicon, lt: Lextree, s: nat, b: Built, q: seq<nat>)
    requires ViewOf(x, lt, s, b) && forall k :: 0 <= k < |q| ==> q[k] < |b.nodes|
    ensures (forall k :: 0 <= k < |q| ==> Moved(q, b.off)[k] < |lt.nodes|)
      && LtScore(lt, Moved(q, b.off)) == ScoreOf(b.nodes, q)
    decreases |q|
  {
    if q != [] {
      SameScore(x, lt, s, b, q[..|q| - 1]);
      assert Moved(q, b.off)[..|q| - 1] == Moved(q[..|q| - 1], b.off);
    }
  }

  lemma {:induction false} SsidAt(nodes: seq<Node>, p: seq<nat>, k: nat)
    requires (forall i :: 0 <= i < |p| ==> p[i] < |nodes|) && 1 <= k < |p|
    ensures |SsidsOf(nodes, p)| == |p| - 1 && SsidsOf(nodes, p)[k - 1] == nodes[p[k]].ssid
    decreases |p|
  {
    if |p| > 2 {
      SsidAt(nodes, p[..|p| - 1], if k < |p| - 1 then k else k - 1);
    } else {
      assert SsidsOf(nodes, p[..1]) == [];
    }
  }

  lemma {:induction false} InnerAt(x: Lexicon, w: int, p: nat, k: nat)
    requires 1 <= k <= p
    ensures Inner(x, w, p)[k - 1] == x.internal(w, k)
  {
    if k < p {
      InnerAt(x, w, p - 1, k);
    }
  }

  lemma WordUp(g: Grammar, x: Lexicon, lt: Lextree, s: nat, b: Built, l: Link, lc: nat, rc: nat)
    requires ViewOf(x, lt, s, b) && s < |lt.roots| && HasWord(g, x, b.nodes, b.root, l, lc, rc)
    ensures LtHasWord(g, x, lt, s, l, lc, rc)
  {
    hide ViewOf;
    var q :| IsPath(b.nodes, b.root, q) && InBounds(b.nodes, q) && Says(g, x, b.nodes, q, l, lc, rc);
    PathUp(x, lt, s, b, q);
    hide IsPath, LtPath;
    var p := Moved(q, b.off);
    ViewAt(x, lt, s, b, q[0]);
    ViewAt(x, lt, s, b, q[|q| - 1]);
    assert LtSays(g, x, lt, p, l, lc, rc);
  }

  /** The inner nodes of a path have the word's own senones. */
  lemma InnerUp(x: Lexicon, lt: Lextree, s: nat, b: Built, q: seq<nat>, w: int, k: nat)
    requires ViewOf(x, lt, s, b) && (forall i :: 0 <= i < |q| ==> q[i] < |b.nodes|)
    requires |q| == |x.pron(w)| && 1 <= k < |q| - 1
    requires SsidsOf(b.nodes, q[..|q| - 1]) == Inner(x, w, |q| - 2)
    ensures b.off + q[k] < |lt.nodes| && lt.nodes[b.off + q[k]].senid == x.sseq(x.internal(w, k))
  {
    hide ViewOf, SsidsOf, Inner;
    ViewAt(x, lt, s, b, q[k]);
    SsidAt(b.nodes, q[..|q| - 1], k);
    InnerAt(x, w, |q| - 2, k);
  }

  lemma SpellsUp(g: Grammar, x: Lexicon, lt: Lextree, s: nat, b: Built, p: seq<nat>)
    requires ViewOf(x, lt, s, b) && TreeOk(g, x, s, b.nodes, b.keys, b.root) && s < |lt.roots|
    requires LtPath(lt, s, p) && Within(lt, p) && lt.nodes[p[|p| - 1]].leaf
    ensures LtSpells(g, x, lt, s, p)
  {
    hide ViewOf, TreeOk, IsPath, LtPath, SsidsOf, Inner, ScoreOf, LtScore, IsArc;
    var q := PathDown(g, x, lt, s, b, p);
    PathInside(b.nodes, b.root, q);
    var m := |q| - 1;
    ViewAt(x, lt, s, b, q[0]);
    ViewAt(x, lt, s, b, q[m]);
    PathSpellsWord(g, x, s, b.nodes, b.keys, b.root, q);
    SameScore(x, lt, s, b, q);
    LeafLink(g, x, s, b, q);
    var w := b.nodes[q[m]].link.wid;
    forall k | 1 <= k < |p| - 1 ensures lt.nodes[p[k]].senid == x.sseq(x.internal(w, k)) {
      InnerUp(x, lt, s, b, q, w, k);
    }
  }

  lemma LeafLink(g: Grammar, x: Lexicon, s: nat, b: Built, q: seq<nat>)
    requires TreeOk(g, x, s, b.nodes, b.keys, b.root) && IsPath(b.nodes, b.root, q) && b.nodes[q[|q| - 1]].leaf
    ensures b.nodes[q[|q| - 1]].link.wid >= 0
  {
    assert NodeOk(g, x, s, b.nodes[q[|q| - 1]]);
  }

  ghost predicate BuiltOk(g: Grammar, x: Lexicon, lt: Lextree, t: nat, b: Built, lcs: seq<nat>, rcs: seq<seq<nat>>)
    requires IsGrammar(g) && t < g.nState && |rcs| == g.nState
  {
    && ViewOf(x, lt, t, b) && TreeOk(g, x, t, b.nodes, b.keys, b.root)
    && TrainedOk(g, x, t, b.nodes, b.keys, lcs, rcs) && SharedOk(b.nodes) && RootsApart(b.nodes, b.keys, b.root)
    && WordsIn(g, x, b.nodes, b.root, t, lcs, |g.arcs[t]|, rcs)
  }

  /** A path of the search's tree and the path of the built one that it is. */
  lemma BuiltPath(g: Grammar, x: Lexicon, lt: Lextree, s: nat, b: Built, p: seq<nat>) returns (q: seq<nat>)
    requires ViewOf(x, lt, s, b) && TreeOk(g, x, s, b.nodes, b.keys, b.root) && s < |lt.roots|
    requires LtPath(lt, s, p) && Within(lt, p) && lt.nodes[p[|p| - 1]].leaf
    ensures IsPath(b.nodes, b.root, q) && p == Moved(q, b.off) && (forall k :: 0 <= k < |q| ==> q[k] < |b.nodes|)
    ensures |q| == |p| > 0 && b.nodes[q[|q| - 1]].leaf && b.nodes[q[|q| - 1]].link == lt.nodes[p[|p| - 1]].link
    ensures forall k :: 0 <= k < |p| ==> ViewedAs(x, lt.nodes[p[k]], b.nodes[q[k]])
  {
    hide ViewOf, TreeOk, IsPath, LtPath;
    q := PathDown(g, x, lt, s, b, p);
    PathInside(b.nodes, b.root, q);
    forall k | 0 <= k < |p| ensures ViewedAs(x, lt.nodes[p[k]], b.nodes[q[k]]) {
      ViewAt(x, lt, s, b, q[k]);
    }
  }

  predicate ViewedAs(x: Lexicon, v: Pnode, u: Node) {
    && v.leaf == u.leaf && v.link == u.link && v.logs2prob == u.logs2prob && v.ctxt == u.ctxt
    && v.senid == x.sseq(u.ssid) && v.tp == x.tmat(u.tmat)
  }

  lemma LeafScored(g: Grammar, x: Lexicon, s: nat, v: Node)
    requires NodeOk(g, x, s, v)
    ensures v.leaf && |x.pron(v.link.wid)| >= 2 ==> v.logs2prob == LeafScore(x, v.link)
  {
  }

  lemma ScoredUp(g: Grammar, x: Lexicon, lt: Lextree, s: nat, b: Built, p: seq<nat>)
    requires ViewOf(x, lt, s, b) && TreeOk(g, x, s, b.nodes, b.keys, b.root) && s < |lt.roots|
    requires LtPath(lt, s, p) && Within(lt, p) && lt.nodes[p[|p| - 1]].leaf
    ensures LtScored(x, lt, p)
  {
    hide ViewOf, TreeOk, IsPath, LtPath, NodeOk, Prefix;
    var q := BuiltPath(g, x, lt, s, b, p);
    if |p| >= 2 {
      PathInside(b.nodes, b.root, q);
      KeyAt(g, x, s, b.nodes, b.keys, b.root, q, 0);
      InRoot(g, x, s, b.nodes, b.keys, b.root, q[0]);
      forall k | 1 <= k < |p| ensures lt.nodes[p[k]].logs2prob == b.nodes[q[k]].logs2prob &&
        if k < |p| - 1 then b.nodes[q[k]].logs2prob == x.pip
        else b.nodes[q[k]].logs2prob == LeafScore(x, b.nodes[q[k]].link)
      {
        PathPrefix(b.nodes, b.root, q, k - 1);
        InTree(g, x, s, b.nodes, b.keys, b.root, q[k - 1], q[k]);
        LeafScored(g, x, s, b.nodes[q[k]]);
        if k < |p| - 1 {
          KeyAt(g, x, s, b.nodes, b.keys, b.root, q, k);
        }
      }
    }
  }

  lemma LeafUp(g: Grammar, x: Lexicon, s: nat, v: Pnode, u: Node, key: seq<int>, lcs: seq<nat>, rcs: seq<seq<nat>>)
    requires ViewedAs(x, v, u) && u.leaf && NodeTrained(g, x, s, u, key, lcs, rcs)
    ensures LtLeafTrained(g, x, v, lcs, rcs)
  {
  }

  lemma RootUp(g: Grammar, x: Lexicon, s: nat, v: Pnode, u: Node, key: seq<int>, lcs: seq<nat>, rcs: seq<seq<nat>>,
               w: int)
    requires ViewedAs(x, v, u) && !u.leaf && NodeTrained(g, x, s, u, key, lcs, rcs)
    requires |x.pron(w)| >= 2 && key == Prefix(x, w, 0)
    ensures LtRootTrained(x, v, x.pron(w), lcs)
  {
    assert key == x.pron(w)[..2] + [] && key[0] == x.pron(w)[0] && key[1] == x.pron(w)[1];
  }

  lemma TrainedAs(g: Grammar, x: Lexicon, s: nat, nodes: seq<Node>, keys: seq<seq<int>>, lcs: seq<nat>,
                  rcs: seq<seq<nat>>, i: nat)
    requires TrainedOk(g, x, s, nodes, keys, lcs, rcs) && i < |nodes|
    ensures |nodes| == |keys| && NodeTrained(g, x, s, nodes[i], keys[i], lcs, rcs)
  {
  }

  lemma TrainedUp(g: Grammar, x: Lexicon, lt: Lextree, s: nat, b: Built, p: seq<nat>, lcs: seq<nat>, rcs: seq<seq<nat>>)
    requires ViewOf(x, lt, s, b) && TreeOk(g, x, s, b.nodes, b.keys, b.root) && s < |lt.roots|
    requires TrainedOk(g, x, s, b.nodes, b.keys, lcs, rcs)
    requires LtPath(lt, s, p) && Within(lt, p) && lt.nodes[p[|p| - 1]].leaf
    ensures LtTrained(g, x, lt, p, lcs, rcs)
  {
    hide ViewOf, TreeOk, TrainedOk, IsPath, LtPath, ScoreOf, SsidsOf, Inner, NodeTrained, LtLeafTrained, LtRootTrained;
    hide ViewedAs, Prefix;
    var q := BuiltPath(g, x, lt, s, b, p);
    PathSpellsWord(g, x, s, b.nodes, b.keys, b.root, q);
    var m := |q| - 1;
    TrainedAs(g, x, s, b.nodes, b.keys, lcs, rcs, q[m]);
    LeafUp(g, x, s, lt.nodes[p[m]], b.nodes[q[m]], b.keys[q[m]], lcs, rcs);
    if m > 0 {
      KeyAt(g, x, s, b.nodes, b.keys, b.root, q, 0);
      TrainedAs(g, x, s, b.nodes, b.keys, lcs, rcs, q[0]);
      RootUp(g, x, s, lt.nodes[p[0]], b.nodes[q[0]], b.keys[q[0]], lcs, rcs, b.nodes[q[m]].link.wid);
    }
  }

  lemma InnerKnown(g: Grammar, x: Lexicon, s: nat, v: Node, key: seq<int>, lcs: seq<nat>, rcs: seq<seq<nat>>, w: int,
                   k: nat)
    requires NodeTrained(g, x, s, v, key, lcs, rcs) && !v.leaf && 1 <= k < |x.pron(w)| - 1 && key == Prefix(x, w, k)
    requires WordAt(g, s, w) && MatricesAgree(g, x, s)
    ensures x.tmat(v.tmat) == x.tmat(x.pron(w)[k])
  {
    assert |key| == k + 2;
    hide WordAt, Prefix;
    var w' :| WordAt(g, s, w') && InnerOf(x, w', v.tmat, key);
    assert Alike(x, w, w', k);
  }

  /** When words that begin alike agree, each has its own matrices. */
  lemma AgreeingOwn(g: Grammar, x: Lexicon, lt: Lextree, s: nat, b: Built, lcs: seq<nat>, rcs: seq<seq<nat>>,
                    p: seq<nat>, k: nat)
    requires ViewOf(x, lt, s, b) && TreeOk(g, x, s, b.nodes, b.keys, b.root) && s < |lt.roots|
    requires TrainedOk(g, x, s, b.nodes, b.keys, lcs, rcs) && MatricesAgree(g, x, s)
    requires LtPath(lt, s, p) && Within(lt, p) && lt.nodes[p[|p| - 1]].leaf && 1 <= k < |p| - 1
    ensures OwnMatrix(x, lt, p, k)
  {
    hide ViewOf, TreeOk, TrainedOk, IsPath, LtPath, ScoreOf, SsidsOf, Inner, NodeTrained, Prefix, MatricesAgree, IsArc;
    var q := BuiltPath(g, x, lt, s, b, p);
    PathSpellsWord(g, x, s, b.nodes, b.keys, b.root, q);
    KeyAt(g, x, s, b.nodes, b.keys, b.root, q, k);
    LeafLink(g, x, s, b, q);
    TrainedAs(g, x, s, b.nodes, b.keys, lcs, rcs, q[k]);
    var w := b.nodes[q[|q| - 1]].link.wid;
    assert WordAt(g, s, w);
    InnerKnown(g, x, s, b.nodes[q[k]], b.keys[q[k]], lcs, rcs, w, k);
  }

  /** When each has its own, words that begin alike agree: they share the nodes. */
  lemma OwnAgrees(g: Grammar, x: Lexicon, lt: Lextree, s: nat, b: Built, lcs: seq<nat>, rcs: seq<seq<nat>>,
                  w: int, w': int, k: nat)
    requires IsGrammar(g) && s < g.nState == |rcs| == |lt.roots| && BuiltOk(g, x, lt, s, b, lcs, rcs)
    requires lcs != [] && (forall t :: 0 <= t < |rcs| ==> rcs[t] != []) && OwnMatrices(x, lt, s)
    requires WordAt(g, s, w) && WordAt(g, s, w') && Alike(x, w, w', k)
    ensures x.tmat(x.pron(w)[k]) == x.tmat(x.pron(w')[k])
  {
    hide TrainedOk, LtPath, IsPath, SharedOk, RootsApart, ViewOf, TreeOk, HasWord;
    var p := PathOf(g, x, lt, s, b, lcs, rcs, w);
    var q := PathOf(g, x, lt, s, b, lcs, rcs, w');
    SameNode(g, x, s, b.nodes, b.keys, b.root, p, q, k);
    OwnAt(g, x, lt, s, b, p, k);
    OwnAt(g, x, lt, s, b, q, k);
  }

  lemma PathOf(g: Grammar, x: Lexicon, lt: Lextree, s: nat, b: Built, lcs: seq<nat>, rcs: seq<seq<nat>>, w: int)
    returns (p: seq<nat>)
    requires IsGrammar(g) && s < g.nState == |rcs| && BuiltOk(g, x, lt, s, b, lcs, rcs)
    requires lcs != [] && (forall t :: 0 <= t < |rcs| ==> rcs[t] != []) && WordAt(g, s, w)
    ensures IsPath(b.nodes, b.root, p) && p[|p| - 1] < |b.nodes| && b.nodes[p[|p| - 1]].leaf
    ensures b.nodes[p[|p| - 1]].link.wid == w && |p| == |x.pron(w)|
  {
    hide ViewOf, TrainedOk, SharedOk, RootsApart, TreeOk, IsPath;
    var l :| IsArc(g, l) && l.from == s && l.wid == w;
    var i :| 0 <= i < |g.arcs[s]| && g.arcs[s][i] == l;
    assert lcs[0] in lcs && rcs[l.to][0] in rcs[l.to];
    assert HasWord(g, x, b.nodes, b.root, g.arcs[s][i], lcs[0], rcs[l.to][0]);
    p :| IsPath(b.nodes, b.root, p) && InBounds(b.nodes, p) && Says(g, x, b.nodes, p, l, lcs[0], rcs[l.to][0]);
    PathSpellsWord(g, x, s, b.nodes, b.keys, b.root, p);
  }

  lemma OwnAt(g: Grammar, x: Lexicon, lt: Lextree, s: nat, b: Built, q: seq<nat>, k: nat)
    requires ViewOf(x, lt, s, b) && s < |lt.roots| && OwnMatrices(x, lt, s)
    requires IsPath(b.nodes, b.root, q) && b.nodes[q[|q| - 1]].leaf && 1 <= k < |q| - 1
    ensures q[k] < |b.nodes|
    ensures var pron := x.pron(b.nodes[q[|q| - 1]].link.wid);
      k < |pron| && x.tmat(b.nodes[q[k]].tmat) == x.tmat(pron[k])
  {
    var p := Moved(q, b.off);
    PathUp(x, lt, s, b, q);
    PathInside(b.nodes, b.root, q);
    hide ViewOf, IsPath, LtPath;
    forall j | 0 <= j < |p| ensures p[j] < |lt.nodes| {
      ViewAt(x, lt, s, b, q[j]);
    }
    ViewAt(x, lt, s, b, q[|q| - 1]);
    ViewAt(x, lt, s, b, q[k]);
    assert OwnMatrix(x, lt, p, k);
  }

  /** The inner nodes on the paths of a state have their words' own matrices if and only if the words that share
      them agree. */
  lemma MatricesExact(g: Grammar, x: Lexicon, lt: Lextree, s: nat, b: Built, lcs: seq<nat>, rcs: seq<seq<nat>>)
    requires IsGrammar(g) && s < g.nState == |rcs| == |lt.roots| && BuiltOk(g, x, lt, s, b, lcs, rcs)
    requires lcs != [] && forall t :: 0 <= t < |rcs| ==> rcs[t] != []
    ensures OwnMatrices(x, lt, s) <==> MatricesAgree(g, x, s)
  {
    if MatricesAgree(g, x, s) {
      hide MatricesAgree, OwnMatrix, SharedOk, RootsApart, WordsIn, ViewOf, TreeOk, TrainedOk;
      forall p, k: nat | LtPath(lt, s, p) && Within(lt, p) && lt.nodes[p[|p| - 1]].leaf && 1 <= k < |p| - 1
        ensures OwnMatrix(x, lt, p, k)
      {
        AgreeingOwn(g, x, lt, s, b, lcs, rcs, p, k);
      }
    }
    if OwnMatrices(x, lt, s) {
      hide OwnMatrices, BuiltOk, WordAt, Alike;
      forall w, w', k: nat | WordAt(g, s, w) && WordAt(g, s, w') && Alike(x, w, w', k)
        ensures HaveBoth(x, w, w', k) && x.tmat(x.pron(w)[k]) == x.tmat(x.pron(w')[k])
      {
        AlikeInside(x, w, w', k);
        OwnAgrees(g, x, lt, s, b, lcs, rcs, w, w', k);
      }
    }
  }

  predicate HaveBoth(x: Lexicon, w: int, w': int, k: nat) {
    k < |x.pron(w)| && k < |x.pron(w')|
  }

  lemma AlikeInside(x: Lexicon, w: int, w': int, k: nat)
    requires Alike(x, w, w', k)
    ensures HaveBoth(x, w, w', k)
  {
  }

  /** Two words that go apart at their third phone. */
  function TwoWords(): Grammar {
    Grammar(2, 0, 1, [[Link(0, 1, 0, 0), Link(0, 1, 1, 0)], []], {}, {})
  }

  /** Their third phones have the same senone sequence and different matrices. */
  function OneSequence(): Lexicon {
    Lexicon(1, 5, 0, 0, 0, w => if w == 0 then [1, 2, 3, 1] else if w == 1 then [1, 2, 4, 1] else [0],
            (_, _) => 0, _ => 0, (_, _, _) => 0, (_, k) => k, (_, _) => Xwd([0], [0, 0, 0, 0, 0]),
            _ => [0], c => if c == 3 then [[1, 1]] else [[0, 0]])
  }

  lemma TwoWordsIsGrammar()
    ensures IsGrammar(TwoWords())
  {
  }

  lemma OneSequenceIsLexicon()
    ensures IsLexicon(TwoWords(), OneSequence())
  {
    TwoWordsIsGrammar();
    var x := OneSequence();
    assert IsXwd(5, Xwd([0], [0, 0, 0, 0, 0])) && IsTmat([[1, 1]], 1) && IsTmat([[0, 0]], 1);
    hide TwoWords, IsGrammar, IsXwd, IsTmat, IsArc;
    forall w: int | |x.pron(w)| >= 2 ensures LastXwd(x, w) == Xwd([0], [0, 0, 0, 0, 0]) {
    }
    assert forall c: nat :: x.tmat(c) in {[[1, 1]], [[0, 0]]};
    assert forall w: int, p: nat :: p < |x.pron(w)| ==> x.pron(w)[p] < x.nCi;
  }

  /** Sharing looks at senone sequences only: with such a lexicon some inner node has another phone's matrix. */
  lemma MatricesMayDiffer()
    ensures IsLexicon(TwoWords(), OneSequence()) && !MatricesAgree(TwoWords(), OneSequence(), 0)
  {
    OneSequenceIsLexicon();
    hide IsLexicon;
    var g, x := TwoWords(), OneSequence();
    assert x.tmat(3) == [[1, 1]] && x.tmat(4) == [[0, 0]];
    assert g.arcs[0][0].wid == 0 && g.arcs[0][1].wid == 1 && IsArc(g, g.arcs[0][0]) && IsArc(g, g.arcs[0][1]);
    assert WordAt(g, 0, 0) && WordAt(g, 0, 1);
    assert x.pron(0)[..2] == x.pron(1)[..2];
    assert Inner(x, 0, 2) == Inner(x, 1, 2) by {
      assert Inner(x, 0, 1) == Inner(x, 0, 0) + [x.internal(0, 1)] == Inner(x, 1, 1);
    }
    assert Alike(x, 0, 1, 2);
    assert x.pron(0)[2] == 3 && x.pron(1)[2] == 4;
  }

  lemma BuiltIsRight(g: Grammar, x: Lexicon, lt: Lextree, bs: seq<Built>, lcs: seq<seq<nat>>, rcs: seq<seq<nat>>)
    requires IsGrammar(g) && |lt.roots| == |lcs| == |rcs| == |bs| == g.nState
    requires forall t :: 0 <= t < |bs| ==> BuiltOk(g, x, lt, t, bs[t], lcs[t], rcs) && lcs[t] != [] && rcs[t] != []
    ensures HasAllWords(g, x, lt, lcs, rcs) && OnlyWords(g, x, lt, lcs, rcs)
    ensures forall t: nat :: t < g.nState ==> (OwnMatrices(x, lt, t) <==> MatricesAgree(g, x, t))
  {
    hide ViewOf, TreeOk, HasWord, LtHasWord, LtSpells, LtScored, LtTrained, LtPath, TrainedOk, SharedOk, RootsApart;
    hide OwnMatrices, MatricesAgree;
    forall s: nat, i, lc: nat, rc: nat
      | s < g.nState && 0 <= i < |g.arcs[s]| && g.arcs[s][i].wid >= 0 && lc in lcs[s] && rc in rcs[g.arcs[s][i].to]
      ensures LtHasWord(g, x, lt, s, g.arcs[s][i], lc, rc)
    {
      assert BuiltOk(g, x, lt, s, bs[s], lcs[s], rcs);
      WordUp(g, x, lt, s, bs[s], g.arcs[s][i], lc, rc);
    }
    forall s: nat, p | s < |lt.roots| && LtPath(lt, s, p) && Within(lt, p) && lt.nodes[p[|p| - 1]].leaf
      ensures LtSpells(g, x, lt, s, p) && LtScored(x, lt, p) && LtTrained(g, x, lt, p, lcs[s], rcs)
    {
      assert BuiltOk(g, x, lt, s, bs[s], lcs[s], rcs);
      SpellsUp(g, x, lt, s, bs[s], p);
      ScoredUp(g, x, lt, s, bs[s], p);
      TrainedUp(g, x, lt, s, bs[s], p, lcs[s], rcs);
    }
    forall t: nat | t < g.nState ensures OwnMatrices(x, lt, t) <==> MatricesAgree(g, x, t) {
      MatricesExact(g, x, lt, t, bs[t], lcs[t], rcs);
    }
  }

  /** fsg_lextree_init after the contexts are known: what it builds is what the search requires, every word of
      the grammar is in it for all contexts, and nothing else is. */
  method BuildLextree(g: Grammar, x: Lexicon, lcs: seq<seq<nat>>, rcs: seq<seq<nat>>) returns (lt: Lextree)
    requires IsLexicon(g, x) && |lcs| == |rcs| == g.nState
    requires forall s :: 0 <= s < g.nState ==> IsContexts(x, lcs[s]) && IsContexts(x, rcs[s])
    ensures IsLextree(g, lt) && lt.nEmit == x.nEmit && lt.nCi == x.nCi
    ensures HasAllWords(g, x, lt, lcs, rcs) && OnlyWords(g, x, lt, lcs, rcs)
    ensures forall t: nat :: t < g.nState ==> (OwnMatrices(x, lt, t) <==> MatricesAgree(g, x, t))
  {
    lt := Lextree(x.nEmit, x.nCi, [], []);
    ghost var bs: seq<Built> := [];
    for s := 0 to g.nState
      invariant lt.nEmit == x.nEmit && lt.nCi == x.nCi && IsPartial(g, lt, s) && |bs| == s
      invariant forall t :: 0 <= t < s ==> BuiltOk(g, x, lt, t, bs[t], lcs[t], rcs)
    {
      hide IsContexts, TreeOk, GroupsOk, WordsIn, ViewOf, IsPnode;
      var b := new TreeBuilder(g, x, s, lcs[s], rcs);
      b.Init(rcs);
      JoinPartial(g, x, lt, b.nodes, b.keys, b.root, s);
      forall t | 0 <= t < s ensures BuiltOk(g, x, Joined(x, lt, b.nodes, b.root, s), t, bs[t], lcs[t], rcs) {
        ViewStays(x, lt, b.nodes, b.root, s, t, bs[t]);
      }
      NewView(x, lt, b.nodes, b.keys, b.root, s);
      bs := bs + [Built(b.nodes, b.keys, b.root, |lt.nodes|)];
      lt := Joined(x, lt, b.nodes, b.root, s);
    }
    BuiltIsRight(g, x, lt, bs, lcs, rcs);
  }
}
