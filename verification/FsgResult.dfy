/** Reading the result off the history table: fsg_search_find_exit and fsg_search_hyp. */
module FsgResult {
  import opened Basics
  import opened Hmm
  import opened Fsg
  import opened FsgHistory
  import opened FsgStep
  import opened FsgPaths
  import opened FsgRun
  import HypString

  /** Entry i is a word exit of the last frame that has any at or before frameIdx. */
  predicate InLastFrame(es: seq<Entry>, last: nat, i: nat) {
    1 <= i <= last < |es| && es[i].frame == es[last].frame
  }

  predicate Acceptable(g: Grammar, es: seq<Entry>, last: nat, final: bool, i: nat) {
    InLastFrame(es, last, i) && (final ==> Dest(g, es[i]) == g.final)
  }

  /** The latest entry made at or before a frame, other than the root. */
  ghost predicate IsLast(es: seq<Entry>, frameIdx: int, last: nat) {
    && 1 <= last < |es| && es[last].frame <= frameIdx
    && forall i :: last < i < |es| ==> es[i].frame > frameIdx
  }

  /** What the exit must be: an acceptable exit with the best score, ending in the final state if any
      acceptable exit with that score does. */
  ghost predicate BestExit(g: Grammar, es: seq<Entry>, last: nat, final: bool, r: int, score: int) {
    && 0 <= r && Acceptable(g, es, last, final, r) && es[r].score == score
    && (forall i: nat :: Acceptable(g, es, last, final, i) ==> es[i].score <= score)
    && (forall i: nat :: Acceptable(g, es, last, final, i) && es[i].score == score && Dest(g, es[i]) == g.final ==>
         Dest(g, es[r]) == g.final)
  }

  /** The backward scan for an exit at or before a frame. */
  method FindLast(es: seq<Entry>, frameIdx: int) returns (bpidx: int)
    ensures -1 <= bpidx < |es|
    ensures if bpidx > 0 then IsLast(es, frameIdx, bpidx)
            else bpidx == (if es == [] then -1 else 0) && forall i :: 1 <= i < |es| ==> es[i].frame > frameIdx
  {
    bpidx := |es| - 1;
    while bpidx > 0
      invariant -1 <= bpidx < |es| && (bpidx == -1 <==> es == [])
      invariant forall i :: 1 <= i < |es| && i > bpidx ==> es[i].frame > frameIdx
    {
      if es[bpidx].frame <= frameIdx {
        break;
      }
      bpidx := bpidx - 1;
    }
  }

  /** fsg_search_find_exit: -1 asks for the frame before the current one. */
  method FindExit(g: Grammar, es: seq<Entry>, frame: int, req: int, final: bool) returns (r: int, bestscore: int)
    requires IsGrammar(g) && (es != [] ==> Chained(g, es) && FramesOrdered(es, es[|es| - 1].frame + 1))
    requires forall i :: 0 <= i < |es| ==> es[i].score > INT_MIN
    ensures es == [] ==> r == -1
    ensures es != [] ==>
      (r == 0 <==> forall i :: 1 <= i < |es| ==> es[i].frame > if req == -1 then frame - 1 else req)
    ensures forall last: nat :: IsLast(es, if req == -1 then frame - 1 else req, last) ==>
      if exists i: nat :: Acceptable(g, es, last, final, i) then BestExit(g, es, last, final, r, bestscore) else r == -1
  {
    var frameIdx := req;
    if frameIdx == -1 {
      frameIdx := frame - 1;
    }
    var bpidx := FindLast(es, frameIdx);
    bestscore := INT_MIN;
    if bpidx <= 0 {
      r := bpidx;
      return;
    }
    ghost var last: nat := bpidx;
    LastIsUnique(es, frameIdx, last);
    r := -1;
    var lastFrm := es[bpidx].frame;
    while bpidx >= 0 && es[bpidx].frame == lastFrm && es[bpidx].link.Some?
      invariant -1 <= bpidx <= last && -1 <= r <= last
      invariant r == -1 ==> bestscore == INT_MIN
      invariant r == -1 ==> forall i: nat :: bpidx < i ==> !Acceptable(g, es, last, final, i)
      invariant r != -1 ==> bpidx < r && Acceptable(g, es, last, final, r) && es[r].score == bestscore
      invariant r != -1 ==> forall i: nat :: bpidx < i && Acceptable(g, es, last, final, i) ==>
        && es[i].score <= bestscore
        && (es[i].score == bestscore && Dest(g, es[i]) == g.final ==> Dest(g, es[r]) == g.final)
    {
      assert bpidx >= 1;
      var e := es[bpidx];
      if e.score == bestscore && e.link.value.to == g.final {
        r := bpidx;
      } else if e.score > bestscore {
        if !final || e.link.value.to == g.final {
          bestscore := e.score;
          r := bpidx;
        }
      }
      bpidx := bpidx - 1;
    }
    if bpidx >= 1 {
      assert Follows(g, es, bpidx);
    }
    assert forall i: nat :: Acceptable(g, es, last, final, i) ==> bpidx < i;
  }

  lemma LastIsUnique(es: seq<Entry>, frameIdx: int, last: nat)
    requires IsLast(es, frameIdx, last)
    ensures forall other: nat :: IsLast(es, frameIdx, other) ==> other == last
  {
  }

  /** The exit chosen with the final constraint ends a sentence: its backtrace is a path of the grammar
      from the start state to the final state. */
  lemma FinalExitIsSentence(g: Grammar, es: seq<Entry>, last: nat, r: int, score: int)
    requires Chained(g, es) && BestExit(g, es, last, true, r, score)
    ensures IsPath(g, g.start, Links(g, es, r), g.final)
  {
    BacktraceIsPath(g, es, r);
  }

  // ---- fsg_search_hyp

  /** The words a list of transitions contributes to the hypothesis, given the base spelling of each. */
  function Spoken(g: Grammar, base: seq<string>, links: seq<Link>): seq<string>
    requires forall k :: 0 <= k < |links| ==> links[k].wid < |base|
  {
    if links == [] then []
    else if links[0].wid < 0 || links[0].wid in g.fillers then Spoken(g, base, links[1..])
    else [base[links[0].wid]] + Spoken(g, base, links[1..])
  }

  /** The transitions that say something: neither null nor of a filler. */
  function Saying(g: Grammar, links: seq<Link>): set<nat> {
    set n: nat | n < |links| && links[n].wid >= 0 && links[n].wid !in g.fillers
  }

  /** The words are the base spellings of exactly those, in order. */
  ghost predicate Reports(g: Grammar, base: seq<string>, links: seq<Link>, words: seq<string>) {
    exists at: seq<nat> :: HypString.InOrder(at, Saying(g, links)) && Spells(base, links, at, words)
  }

  predicate Spells(base: seq<string>, links: seq<Link>, at: seq<nat>, words: seq<string>) {
    && |at| == |words|
    && forall i :: 0 <= i < |at| ==>
         at[i] < |links| && 0 <= links[at[i]].wid < |base| && words[i] == base[links[at[i]].wid]
  }

  lemma {:induction false} SpokenReports(g: Grammar, base: seq<string>, links: seq<Link>) returns (at: seq<nat>)
    requires forall k :: 0 <= k < |links| ==> links[k].wid < |base|
    ensures HypString.InOrder(at, Saying(g, links)) && Spells(base, links, at, Spoken(g, base, links))
    decreases |links|
  {
    at := [];
    if links != [] {
      var m := |links| - 1;
      var before, l := links[..m], links[m];
      assert links == before + [l] && [l][1..] == [];
      at := SpokenReports(g, base, before);
      SpokenSnoc(g, base, before, l);
      assert Spoken(g, base, [l]) == if Silent(g, l) then [] else [base[l.wid]];
      hide Spoken, HypString.InOrder;
      SayingSnoc(g, before, l);
      if !Silent(g, l) {
        HypString.InOrderSnoc(at, Saying(g, before), m);
        at := at + [m];
      }
    }
  }

  lemma SayingSnoc(g: Grammar, links: seq<Link>, l: Link)
    ensures Saying(g, links + [l]) == Saying(g, links) + if Silent(g, l) then {} else {|links|}
    ensures forall n :: n in Saying(g, links) ==> n < |links|
  {
  }

  predicate Spelled(es: seq<Entry>, base: seq<string>) {
    forall i :: 0 <= i < |es| && es[i].link.Some? ==> es[i].link.value.wid < |base|
  }

  lemma {:induction false} LinksSpelled(g: Grammar, es: seq<Entry>, base: seq<string>, bp: int)
    requires Chained(g, es) && bp < |es| && Spelled(es, base)
    ensures forall k :: 0 <= k < |Links(g, es, bp)| ==> Links(g, es, bp)[k].wid < |base|
    decreases bp
  {
    if bp > 0 {
      assert Follows(g, es, bp);
      LinksSpelled(g, es, base, es[bp].pred);
    }
  }

  lemma {:induction false} SpokenSnoc(g: Grammar, base: seq<string>, links: seq<Link>, l: Link)
    requires l.wid < |base| && forall k :: 0 <= k < |links| ==> links[k].wid < |base|
    ensures Spoken(g, base, links + [l]) == Spoken(g, base, links) + Spoken(g, base, [l])
  {
    if links == [] {
      assert links + [l] == [l];
    } else {
      SpokenSnoc(g, base, links[1..], l);
      assert (links + [l])[1..] == links[1..] + [l];
    }
  }

  function WordsTo(g: Grammar, es: seq<Entry>, base: seq<string>, bp: int): seq<string>
    requires Chained(g, es) && bp < |es| && Spelled(es, base)
  {
    LinksSpelled(g, es, base, bp);
    Spoken(g, base, Links(g, es, bp))
  }

  lemma WordsReport(g: Grammar, es: seq<Entry>, base: seq<string>, bp: int)
    requires Chained(g, es) && bp < |es| && Spelled(es, base)
    ensures Reports(g, base, Links(g, es, bp), WordsTo(g, es, base, bp))
  {
    LinksSpelled(g, es, base, bp);
    var at := SpokenReports(g, base, Links(g, es, bp));
  }

  predicate Silent(g: Grammar, l: Link) {
    l.wid < 0 || l.wid in g.fillers
  }

  /** One step back along the chain, as both passes take it. */
  lemma StepBack(g: Grammar, es: seq<Entry>, base: seq<string>, bp: int)
    requires Chained(g, es) && 0 < bp < |es| && Spelled(es, base)
    ensures 0 <= es[bp].pred < bp && es[bp].link.Some? && es[bp].link.value.wid < |base|
    ensures var l, before := es[bp].link.value, WordsTo(g, es, base, es[bp].pred);
      && WordsTo(g, es, base, bp) == before + (if Silent(g, l) then [] else [base[l.wid]])
      && HypString.Size(WordsTo(g, es, base, bp))
         == HypString.Size(before) + if Silent(g, l) then 0 else |base[l.wid]| + 1
  {
    assert Follows(g, es, bp);
    var l := es[bp].link.value;
    LinksSpelled(g, es, base, es[bp].pred);
    SpokenSnoc(g, base, Links(g, es, es[bp].pred), l);
    HypString.SizeSnoc(WordsTo(g, es, base, es[bp].pred), Spoken(g, base, [l]));
    assert [l][1..] == [];
    assert Spoken(g, base, [l]) == if Silent(g, l) then [] else [base[l.wid]];
    if !Silent(g, l) {
      assert [base[l.wid]][1..] == [];
    }
  }

  lemma AtRoot(g: Grammar, es: seq<Entry>, base: seq<string>, bp: int)
    requires Chained(g, es) && bp <= 0 && Spelled(es, base)
    ensures WordsTo(g, es, base, bp) == [] && HypString.Size(WordsTo(g, es, base, bp)) == 0
  {
  }

  /** The first pass: the room the hypothesis needs. */
  method Measure(g: Grammar, es: seq<Entry>, base: seq<string>, bpidx: int) returns (len: nat)
    requires Chained(g, es) && bpidx < |es| && Spelled(es, base)
    ensures len == HypString.Size(WordsTo(g, es, base, bpidx))
  {
    var bp := bpidx;
    len := 0;
    while bp > 0
      invariant bp < |es|
      invariant len + HypString.Size(WordsTo(g, es, base, bp)) == HypString.Size(WordsTo(g, es, base, bpidx))
    {
      StepBack(g, es, base, bp);
      var wid := es[bp].link.value.wid;
      bp := es[bp].pred;
      if wid < 0 || wid in g.fillers {
        continue;
      }
      len := len + |base[wid]| + 1;
    }
    AtRoot(g, es, base, bp);
  }

  /** fsg_search_hyp after the exit is chosen: the two passes visit the same chain and the second fills the
      buffer exactly, leaving the words of the path, in order, separated by spaces. */
  method Hypothesis(g: Grammar, es: seq<Entry>, base: seq<string>, bpidx: int) returns (hyp: Option<string>)
    requires Chained(g, es) && bpidx < |es| && Spelled(es, base)
    ensures hyp == if bpidx <= 0 || WordsTo(g, es, base, bpidx) == [] then None
                   else Some(HypString.Join(WordsTo(g, es, base, bpidx)))
    ensures Reports(g, base, Links(g, es, bpidx), WordsTo(g, es, base, bpidx))
  {
    hide Reports, WordsTo, Chained, HypString.Join, HypString.Size, HypString.Tail, HypString.HypBuffer.Holds;
    WordsReport(g, es, base, bpidx);
    if bpidx <= 0 {
      return None;
    }
    var len := Measure(g, es, base, bpidx);
    HypString.SizeZero(WordsTo(g, es, base, bpidx));
    if len == 0 {
      return None;
    }
    var h := new HypString.HypBuffer(len);
    var bp := bpidx;
    ghost var done: seq<string> := [];
    while bp > 0
      invariant bp < |es| && h.Valid() && fresh(h) && fresh(h.buf) && h.buf.Length == len
      invariant WordsTo(g, es, base, bpidx) == WordsTo(g, es, base, bp) + done
      invariant var left := HypString.Size(WordsTo(g, es, base, bp));
        h.Holds(done, left > 0) && h.c == if left > 0 then left - 1 else 0
    {
      StepBack(g, es, base, bp);
      var wid := es[bp].link.value.wid;
      bp := es[bp].pred;
      if wid < 0 || wid in g.fillers {
        continue;
      }
      h.Prepend(base[wid], done);
      done := [base[wid]] + done;
    }
    AtRoot(g, es, base, bp);
    assert WordsTo(g, es, base, bpidx) == done;
    h.HoldsAll(done);
    var text := h.Text();
    hyp := Some(text);
  }
}
