/** An utterance whose word threshold is at the floor: its history table is broken after one frame. */
module FsgFloor {
  import opened Basics
  import opened Hmm
  import opened HmmOptimal
  import opened Fsg
  import opened FsgHistory
  import opened FsgStep
  import opened FsgPaths
  import opened FsgRun

  /** Two emitting states, and no transition from the first to the exit. */
  const TWO_STATES: Tmat := [[0, 0, 255], [255, 0, 0]]

  const WORD: Link := Link(0, 1, 0, 0)

  const LEAF: Pnode := Pnode(true, WORD, [], 0, {0}, 0, TWO_STATES, [0, 0], 0)

  /** A grammar of one word with one phone. */
  function OneWord(): Grammar {
    Grammar(2, 0, 1, [[WORD], []], {}, {})
  }

  function OneLeaf(): Lextree {
    Lextree(2, 1, [LEAF], [[0], []])
  }

  /** One frame in which every senone scores best. */
  function Best(): Frame {
    Frame([0], -10, -10, WORST_SCORE)
  }

  function OneFrame(): Utterance {
    Utterance(0, -10, -10, [Best()])
  }

  lemma Decodable()
    ensures IsUtterance(OneWord(), OneLeaf(), OneFrame()) && Clean(OneLeaf(), [Blank(2)])
  {
    assert IsPnode(OneWord(), OneLeaf(), LEAF) by {
      assert OneWord().arcs[0][0] == WORD && IsArc(OneWord(), WORD);
    }
    assert Cleared(Blank(2)) == Blank(2);
  }

  function Node(): (st: HmmState)
    ensures IsState(st, 2)
  {
    Entered(Blank(2), 0, 0, 0)
  }

  /** Before the frame the leaf is entered from the root of the history. */
  lemma Started()
    requires IsUtterance(OneWord(), OneLeaf(), OneFrame()) && HmmsFit(OneLeaf(), [Blank(2)])
    ensures After(OneWord(), OneLeaf(), OneFrame(), [Blank(2)], 0)
         == State(0, 0, [Node()], [0], [RootEntry(0)], false)
  {
    var g, lt, root := OneWord(), OneLeaf(), RootEntry(0);
    assert NullArcs(g, root, 0, g.arcs[0], -10) == [] by {
      assert NullArcs(g, root, 0, g.arcs[0][..0], -10) == [];
    }
    assert NullOffers(g, [root], 0, 0, -10) == [];
    assert StartEntries(g, lt, 0, -10) == [root];
    var a := Act([Blank(2)], []);
    assert 0 in ALL_CONTEXTS;
    assert WordRoots(lt, a, root, 0, [], 0, -10) == a;
    assert lt.roots[0] == [0] && [0][..0] == [];
    assert WordTrans(g, lt, a, [root], 0, 0, 0, -10) == a;
  }

  /** After the frame the leaf is alive, but its exit has not been reached. */
  lemma NotReached()
    ensures IsTmat(TWO_STATES, 2)
    ensures var r := EvalAny(TWO_STATES, [0, 0], false, Node());
      r.out == WORST_SCORE && r.outHist == -1 && r.best == 0
  {
    assert Cleared(Blank(2)) == Blank(2);
    hide EvalAny;
    FirstFrameUnreached(TWO_STATES, [0, 0], Blank(2), 0, 0, 0);
    AnyStepOptimal(TWO_STATES, [0, 0], false, Node());
  }

  function Before(): State {
    State(0, 0, [Node()], [0], [RootEntry(0)], false)
  }

  lemma EvaluatedLeaf()
    requires Fit(OneWord(), OneLeaf(), Before()) && IsFrame(OneLeaf(), Best()) && IsTmat(TWO_STATES, 2)
    ensures Evaluated(OneWord(), OneLeaf(), Before(), Best())
         == ([EvalAny(TWO_STATES, [0, 0], false, Node())], 0)
  {
    NotReached();
    var em := Emissions(Context([0], []), false, [0, 0]);
    assert em == [0, 0];
    hide EvalAny, Emissions, Node, IsFrame, IsLextree;
    var r := EvalAny(TWO_STATES, [0, 0], false, Node());
    assert EvalNode(OneLeaf(), Best(), 0, Node()) == r;
    assert [0][1..] == [] && [Node()][0 := r] == [r];
  }

  /** What the frame offers: the leaf's exit, without a predecessor. */
  lemma OfferedExit()
    requires Fit(OneWord(), OneLeaf(), Before()) && IsFrame(OneLeaf(), Best())
    ensures Propagated(OneWord(), OneLeaf(), Before(), Best()).exits == [Entry(Some(WORD), 0, WORST_SCORE, -1, 0, {0})]
  {
    NotReached();
    EvaluatedLeaf();
    hide EvalAny, Node, Evaluated, IsFrame, IsLextree, HmmsFit;
    var r := EvalAny(TWO_STATES, [0, 0], false, Node());
    var p := Prop(Act([r], []), []);
    assert [0][1..] == [];
    assert ExitEntry(OneWord(), LEAF, r, 0) == Entry(Some(WORD), 0, WORST_SCORE, -1, 0, {0});
  }

  /** An exit without a predecessor among a frame's offers leaves the table broken, when it is the only one. */
  lemma OnlyExitKept(g: Grammar, lt: Lextree, s: State, f: Frame, e: Entry)
    requires Fit(g, lt, s) && IsFrame(lt, f) && Propagated(g, lt, s, f).exits == [e]
    requires s.entries != [] && e.pred == -1 && e.rc != {}
    ensures !Chained(g, Step(g, lt, s, f).entries)
  {
    hide Evaluated, WordTrans, Sweep, IsLextree, HmmsFit, IsFrame, Propagated;
    var exits := Propagated(g, lt, s, f).exits;
    assert e in exits;
    var c :| c in e.rc;
    var x := OfferIsCovered(exits, g.nState, lt.nCi, e, c);
    var o := SurvivorIsOffer(exits, g.nState, lt.nCi, x);
    assert o == e;
    var ss := Survivors(exits, g.nState, lt.nCi);
    var k :| 0 <= k < |ss| && ss[k] == x;
    var es := Step(g, lt, s, f).entries;
    assert es[|s.entries| + k] == x;
    assert !Follows(g, es, |s.entries| + k);
  }

  /** Soundness needs the assumption on the thresholds: this utterance keeps the demands on grammar, tree and
      network, but the leaf that its word exit has not been reached in is put in the history without a
      predecessor, so that the backtrace from it is no path of the grammar. */
  lemma BelowFloorIsUnsound()
    ensures IsUtterance(OneWord(), OneLeaf(), OneFrame()) && Clean(OneLeaf(), [Blank(2)])
    ensures !StaysAbove(OneWord(), OneLeaf(), OneFrame(), [Blank(2)])
    ensures !Chained(OneWord(), After(OneWord(), OneLeaf(), OneFrame(), [Blank(2)], 1).entries)
  {
    Decodable();
    Started();
    var g, lt, u := OneWord(), OneLeaf(), OneFrame();
    assert After(g, lt, u, [Blank(2)], 0) == Before() && u.frames[0] == Best();
    EvaluatedLeaf();
    OfferedExit();
    hide Evaluated, Propagated, Chained, IsLextree, HmmsFit, IsFrame, WordTrans, Sweep, WithNulls, WithExits;
    assert !AboveFloor(g, lt, After(g, lt, u, [Blank(2)], 0), u.frames[0]);
    OnlyExitKept(g, lt, Before(), Best(), Entry(Some(WORD), 0, WORST_SCORE, -1, 0, {0}));
    assert After(g, lt, u, [Blank(2)], 1) == Step(g, lt, Before(), Best());
  }
}
