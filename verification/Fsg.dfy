/** The finite-state grammar the search runs on (src/lm/fsg_model.h). */
module Fsg {
  const SENSCR_SHIFT_DIVISOR: int := 1024

  /** A transition; `wid` is negative on a null transition. */
  datatype Link = Link(from: nat, to: nat, wid: int, logs2prob: int)

  /** `arcs[s]` lists the transitions that leave s in iteration order; `fillers` and `singlePhone` are
      the words that model no right context. */
  datatype Grammar = Grammar(nState: nat, start: nat, final: nat, arcs: seq<seq<Link>>,
                             fillers: set<int>, singlePhone: set<int>)

  predicate IsGrammar(g: Grammar) {
    && |g.arcs| == g.nState && g.start < g.nState && g.final < g.nState
    && forall s, k :: 0 <= s < g.nState && 0 <= k < |g.arcs[s]| ==>
      g.arcs[s][k].from == s && g.arcs[s][k].to < g.nState
  }

  predicate IsArc(g: Grammar, l: Link) {
    l.from < |g.arcs| && l in g.arcs[l.from]
  }

  /** The shifted transition score, an arithmetic shift right by SENSCR_SHIFT. */
  function ShiftedProb(l: Link): int {
    l.logs2prob / SENSCR_SHIFT_DIVISOR
  }
}
