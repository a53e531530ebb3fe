/** The Viterbi history table of the grammar search (src/fsg_history.c).

    Within a frame, the word exits that end in one state with one left context are kept in a list in
    descending score, and their right-context sets are kept disjoint; survivors move to the table. */
module FsgHistory {
  import opened Basics
  import opened Fsg

  datatype Entry = Entry(link: Option<Link>, frame: int, score: int, pred: int, lc: nat, rc: set<nat>)

  type EntryList = seq<Entry>

  // ---- one list: fsg_history_entry_add

  /** Remove a context set from every entry, dropping the entries left with none. */
  function Strip(es: EntryList, rc: set<nat>): EntryList {
    if es == [] then []
    else if es[0].rc - rc == {} then Strip(es[1..], rc)
    else [es[0].(rc := es[0].rc - rc)] + Strip(es[1..], rc)
  }

  function Insert(es: EntryList, e: Entry): EntryList {
    if es == [] then [e]
    else if e.score > es[0].score then [e] + Strip(es, e.rc)
    else if e.rc - es[0].rc == {} then es
    else [es[0]] + Insert(es[1..], e.(rc := e.rc - es[0].rc))
  }

  function InsertAll(offers: seq<Entry>): EntryList {
    if offers == [] then [] else Insert(InsertAll(offers[..|offers| - 1]), offers[|offers| - 1])
  }

  predicate Descending(es: EntryList) {
    forall i, j :: 0 <= i < j < |es| ==> es[i].score >= es[j].score
  }

  predicate DisjointContexts(es: EntryList) {
    forall i, j :: 0 <= i < j < |es| ==> es[i].rc !! es[j].rc
  }

  predicate NonEmptyContexts(es: EntryList) {
    forall i :: 0 <= i < |es| ==> es[i].rc != {}
  }

  predicate WellKept(es: EntryList) {
    Descending(es) && DisjointContexts(es) && NonEmptyContexts(es)
  }

  /** An entry without its context set. */
  function Bare(e: Entry): Entry {
    e.(rc := {})
  }

  /** The first entry of a list that holds context c. */
  function Owner(es: EntryList, c: nat): Option<Entry> {
    if es == [] then None else if c in es[0].rc then Some(Bare(es[0])) else Owner(es[1..], c)
  }

  /** The best offer for context c, the earliest one on ties. */
  function BestOffer(offers: seq<Entry>, c: nat): Option<Entry> {
    if offers == [] then None
    else
      var e, b := offers[|offers| - 1], BestOffer(offers[..|offers| - 1], c);
      if c !in e.rc then b else if b.None? || e.score > b.value.score then Some(Bare(e)) else b
  }

  /** x is one of the listed entries, with part of its contexts. */
  ghost predicate DerivedFrom(x: Entry, es: seq<Entry>) {
    exists i :: 0 <= i < |es| && x.rc <= es[i].rc && Bare(x) == Bare(es[i])
  }

  lemma DerivedFromTail(x: Entry, es: seq<Entry>)
    requires es != [] && DerivedFrom(x, es[1..])
    ensures DerivedFrom(x, es)
  {
    var i :| 0 <= i < |es| - 1 && x.rc <= es[1..][i].rc && Bare(x) == Bare(es[1..][i]);
    assert es[i + 1] == es[1..][i];
  }

  lemma {:induction false} StripDerived(es: EntryList, rc: set<nat>)
    ensures forall j :: 0 <= j < |Strip(es, rc)| ==>
      DerivedFrom(Strip(es, rc)[j], es) && Strip(es, rc)[j].rc !! rc && Strip(es, rc)[j].rc != {}
  {
    if es != [] {
      StripDerived(es[1..], rc);
      forall j | 0 <= j < |Strip(es[1..], rc)| ensures DerivedFrom(Strip(es[1..], rc)[j], es) {
        DerivedFromTail(Strip(es[1..], rc)[j], es);
      }
      var x := es[0].(rc := es[0].rc - rc);
      assert x.rc <= es[0].rc && Bare(x) == Bare(es[0]);
      assert DerivedFrom(x, es);
    }
  }

  /** What an entry derived from a list inherits from its bounds. */
  lemma DerivedBounds(x: Entry, es: seq<Entry>, top: Entry)
    requires DerivedFrom(x, es)
    requires forall i :: 0 <= i < |es| ==> es[i].score <= top.score && es[i].rc !! top.rc
    ensures x.score <= top.score && x.rc !! top.rc
  {
    var i :| 0 <= i < |es| && x.rc <= es[i].rc && Bare(x) == Bare(es[i]);
    assert Bare(x).score == Bare(es[i]).score;
  }

  lemma Prepended(top: Entry, es: EntryList)
    requires WellKept(es) && top.rc != {}
    requires forall i :: 0 <= i < |es| ==> es[i].score <= top.score && es[i].rc !! top.rc
    ensures WellKept([top] + es)
  {
  }

  lemma Tail(es: EntryList)
    requires WellKept(es) && es != []
    ensures WellKept(es[1..])
    ensures forall i :: 0 <= i < |es[1..]| ==> es[1..][i].score <= es[0].score && es[1..][i].rc !! es[0].rc
  {
  }

  lemma {:induction false} StripKept(es: EntryList, rc: set<nat>)
    requires WellKept(es)
    ensures WellKept(Strip(es, rc))
  {
    if es != [] {
      hide WellKept, DerivedFrom;
      Tail(es);
      StripKept(es[1..], rc);
      StripDerived(es[1..], rc);
      var t, x := Strip(es[1..], rc), es[0].(rc := es[0].rc - rc);
      if x.rc != {} {
        forall i | 0 <= i < |t| ensures t[i].score <= x.score && t[i].rc !! x.rc {
          DerivedBounds(t[i], es[1..], es[0]);
        }
        Prepended(x, t);
      }
    } else {
      assert Strip(es, rc) == es;
    }
  }

  lemma {:induction false} StripOwner(es: EntryList, rc: set<nat>, c: nat)
    ensures Owner(Strip(es, rc), c) == if c in rc then None else Owner(es, c)
  {
    if es != [] {
      StripOwner(es[1..], rc, c);
      if c in es[0].rc && c !in rc {
        assert c in es[0].rc - rc;
      }
    }
  }

  lemma {:induction false} InsertDerived(es: EntryList, e: Entry)
    ensures forall j :: 0 <= j < |Insert(es, e)| ==> DerivedFrom(Insert(es, e)[j], es + [e])
  {
    var r := Insert(es, e);
    if es == [] {
    } else if e.score > es[0].score {
      StripDerived(es, e.rc);
      forall j | 0 <= j < |r| ensures DerivedFrom(r[j], es + [e]) {
        if j == 0 {
          assert (es + [e])[|es|] == e;
        } else {
          var i :| 0 <= i < |es| && r[j].rc <= es[i].rc && Bare(r[j]) == Bare(es[i]);
          assert (es + [e])[i] == es[i];
        }
      }
    } else if e.rc - es[0].rc == {} {
      forall j | 0 <= j < |r| ensures DerivedFrom(r[j], es + [e]) {
        assert (es + [e])[j] == r[j];
      }
    } else {
      var e' := e.(rc := e.rc - es[0].rc);
      InsertDerived(es[1..], e');
      forall j | 0 <= j < |r| ensures DerivedFrom(r[j], es + [e]) {
        if j == 0 {
          assert (es + [e])[0] == es[0];
        } else {
          var src := es[1..] + [e'];
          assert r[j] == Insert(es[1..], e')[j - 1];
          var i :| 0 <= i < |src| && r[j].rc <= src[i].rc && Bare(r[j]) == Bare(src[i]);
          assert src[i].rc <= (es + [e])[i + 1].rc && Bare(src[i]) == Bare((es + [e])[i + 1]);
        }
      }
    }
  }

  lemma {:induction false} InsertKept(es: EntryList, e: Entry)
    requires WellKept(es) && e.rc != {}
    ensures WellKept(Insert(es, e))
  {
    if es == [] {
    } else if e.score > es[0].score {
      hide DerivedFrom;
      StripKept(es, e.rc);
      StripDerived(es, e.rc);
      var t := Strip(es, e.rc);
      forall i | 0 <= i < |t| ensures t[i].score <= e.score {
        var o :| 0 <= o < |es| && t[i].rc <= es[o].rc && Bare(t[i]) == Bare(es[o]) by {
          DerivedWitness(t[i], es);
        }
        assert Bare(t[i]).score == Bare(es[o]).score;
      }
      Prepended(e, t);
    } else if e.rc - es[0].rc != {} {
      hide WellKept, DerivedFrom;
      var e' := e.(rc := e.rc - es[0].rc);
      Tail(es);
      InsertKept(es[1..], e');
      InsertDerived(es[1..], e');
      var t := Insert(es[1..], e');
      forall i | 0 <= i < |t| ensures t[i].score <= es[0].score && t[i].rc !! es[0].rc {
        DerivedBounds(t[i], es[1..] + [e'], es[0]);
      }
      assert es[0].rc != {} by { HeadNonEmpty(es); }
      Prepended(es[0], t);
    }
  }

  lemma HeadNonEmpty(es: EntryList)
    requires WellKept(es) && es != []
    ensures es[0].rc != {}
  {
  }

  lemma DerivedWitness(x: Entry, es: seq<Entry>)
    requires DerivedFrom(x, es)
    ensures exists i :: 0 <= i < |es| && x.rc <= es[i].rc && Bare(x) == Bare(es[i])
  {
  }

  /** The effect of one insertion on who owns a context. */
  lemma {:induction false} InsertOwner(es: EntryList, e: Entry, c: nat)
    requires WellKept(es)
    ensures Owner(Insert(es, e), c) ==
      (if c !in e.rc then Owner(es, c)
       else if Owner(es, c).None? || e.score > Owner(es, c).value.score then Some(Bare(e))
       else Owner(es, c))
  {
    if es == [] {
    } else if e.score > es[0].score {
      StripOwner(es, e.rc, c);
      OwnerScore(es, c);
    } else if c in es[0].rc {
    } else {
      if c in e.rc {
        assert c in e.rc - es[0].rc;
      }
      if e.rc - es[0].rc != {} {
        InsertOwner(es[1..], e.(rc := e.rc - es[0].rc), c);
      }
    }
  }

  /** Owners are no better than the head of a descending list. */
  lemma {:induction false} OwnerScore(es: EntryList, c: nat)
    requires Descending(es) && es != []
    ensures Owner(es, c).Some? ==> Owner(es, c).value.score <= es[0].score
  {
    if |es| > 1 {
      OwnerScore(es[1..], c);
    }
  }

  lemma {:induction false} OwnerAbsent(es: EntryList, c: nat)
    requires forall i :: 0 <= i < |es| ==> c !in es[i].rc
    ensures Owner(es, c).None?
  {
    if es != [] {
      OwnerAbsent(es[1..], c);
    }
  }

  lemma {:induction false} OwnerOf(es: EntryList, j: nat, c: nat)
    requires DisjointContexts(es) && j < |es| && c in es[j].rc
    ensures Owner(es, c) == Some(Bare(es[j]))
  {
    if j > 0 {
      OwnerOf(es[1..], j - 1, c);
    }
  }

  /** The list invariant: after any sequence of offers with non-empty context sets the list is sorted,
      its context sets are disjoint and non-empty, and the owner of each right context is the best
      offer made for it, the earliest on ties. */
  lemma {:induction false} ListInvariant(offers: seq<Entry>, c: nat)
    requires NonEmptyContexts(offers)
    ensures WellKept(InsertAll(offers))
    ensures Owner(InsertAll(offers), c) == BestOffer(offers, c)
    decreases |offers|
  {
    if offers != [] {
      var before, e := offers[..|offers| - 1], offers[|offers| - 1];
      ListInvariant(before, c);
      InsertKept(InsertAll(before), e);
      InsertOwner(InsertAll(before), e, c);
    }
  }

  /** What BestOffer picks, said by index: an offer for c that no offer for c beats and no earlier one equals. */
  lemma {:induction false} BestOfferIsEarliestMax(offers: seq<Entry>, c: nat) returns (k: nat)
    requires exists i :: 0 <= i < |offers| && c in offers[i].rc
    ensures k < |offers| && c in offers[k].rc && BestOffer(offers, c) == Some(Bare(offers[k]))
    ensures forall i :: 0 <= i < |offers| && c in offers[i].rc ==> offers[i].score <= offers[k].score
    ensures forall i :: 0 <= i < k && c in offers[i].rc ==> offers[i].score < offers[k].score
    decreases |offers|
  {
    var n := |offers| - 1;
    var before := offers[..n];
    if exists i :: 0 <= i < n && c in before[i].rc {
      k := BestOfferIsEarliestMax(before, c);
      if c in offers[n].rc && offers[n].score > before[k].score {
        k := n;
      }
    } else {
      NoOffer(before, c);
      k := n;
    }
  }

  lemma {:induction false} NoOffer(offers: seq<Entry>, c: nat)
    requires forall i :: 0 <= i < |offers| ==> c !in offers[i].rc
    ensures BestOffer(offers, c).None?
    decreases |offers|
  {
    if offers != [] {
      NoOffer(offers[..|offers| - 1], c);
    }
  }

  /** The union of the kept context sets is the union of those offered. */
  lemma KeptContexts(offers: seq<Entry>, c: nat)
    requires NonEmptyContexts(offers)
    ensures (exists j :: 0 <= j < |InsertAll(offers)| && c in InsertAll(offers)[j].rc)
       <==> (exists i :: 0 <= i < |offers| && c in offers[i].rc)
  {
    ListInvariant(offers, c);
    var es := InsertAll(offers);
    if j :| 0 <= j < |es| && c in es[j].rc {
      OwnerOf(es, j, c);
      assert BestOffer(offers, c).Some?;
    } else {
      OwnerAbsent(es, c);
    }
    if i :| 0 <= i < |offers| && c in offers[i].rc {
      var k := BestOfferIsEarliestMax(offers, c);
    } else {
      NoOffer(offers, c);
    }
  }

  /** Each kept entry is one of the offers with part of its contexts. */
  lemma {:induction false} KeptAreOffers(offers: seq<Entry>)
    ensures forall j :: 0 <= j < |InsertAll(offers)| ==> DerivedFrom(InsertAll(offers)[j], offers)
    decreases |offers|
  {
    if offers != [] {
      var before, e := offers[..|offers| - 1], offers[|offers| - 1];
      KeptAreOffers(before);
      var es := InsertAll(before);
      InsertDerived(es, e);
      var r := InsertAll(offers);
      forall j | 0 <= j < |r| ensures DerivedFrom(r[j], offers) {
        var i :| 0 <= i < |es + [e]| && r[j].rc <= (es + [e])[i].rc && Bare(r[j]) == Bare((es + [e])[i]);
        if i < |es| {
          assert DerivedFrom(es[i], before);
          var o :| 0 <= o < |before| && es[i].rc <= before[o].rc && Bare(es[i]) == Bare(before[o]);
          assert before[o] == offers[o];
        } else {
          assert offers[|offers| - 1] == e;
        }
      }
    }
  }

  // ---- the lists of a frame, one per state and left context

  type FrameLists = seq<seq<EntryList>>

  predicate IsFrameLists(fl: FrameLists, nState: nat, nCi: nat) {
    |fl| == nState && forall s :: 0 <= s < nState ==> |fl[s]| == nCi
  }

  function NoLists(nState: nat, nCi: nat): (fl: FrameLists)
    ensures IsFrameLists(fl, nState, nCi)
  {
    seq(nState, _ => seq(nCi, _ => []))
  }

  predicate Fits(e: Entry, nState: nat, nCi: nat) {
    e.link.Some? && e.link.value.to < nState && e.lc < nCi
  }

  predicate AllFit(es: seq<Entry>, nState: nat, nCi: nat) {
    forall i :: 0 <= i < |es| ==> Fits(es[i], nState, nCi)
  }

  function AddTo(fl: FrameLists, e: Entry, nState: nat, nCi: nat): (r: FrameLists)
    requires IsFrameLists(fl, nState, nCi) && Fits(e, nState, nCi)
    ensures IsFrameLists(r, nState, nCi)
  {
    var s := e.link.value.to;
    fl[s := fl[s][e.lc := Insert(fl[s][e.lc], e)]]
  }

  function AddAll(offers: seq<Entry>, nState: nat, nCi: nat): (r: FrameLists)
    requires AllFit(offers, nState, nCi)
    ensures IsFrameLists(r, nState, nCi)
  {
    if offers == [] then NoLists(nState, nCi)
    else AddTo(AddAll(offers[..|offers| - 1], nState, nCi), offers[|offers| - 1], nState, nCi)
  }

  function Select(offers: seq<Entry>, s: nat, lc: nat): seq<Entry> {
    if offers == [] then []
    else
      var e, before := offers[|offers| - 1], Select(offers[..|offers| - 1], s, lc);
      if e.link.Some? && e.link.value.to == s && e.lc == lc then before + [e] else before
  }

  /** Each list depends only on the offers for its own state and left context. */
  lemma {:induction false} ListsAreSeparate(offers: seq<Entry>, nState: nat, nCi: nat, s: nat, lc: nat)
    requires AllFit(offers, nState, nCi) && s < nState && lc < nCi
    ensures AddAll(offers, nState, nCi)[s][lc] == InsertAll(Select(offers, s, lc))
  {
    if offers != [] {
      var before, e := offers[..|offers| - 1], offers[|offers| - 1];
      ListsAreSeparate(before, nState, nCi, s, lc);
      if e.link.value.to == s && e.lc == lc {
        var sel := Select(offers, s, lc);
        assert sel[..|sel| - 1] == Select(before, s, lc);
      }
    }
  }

  lemma {:induction false} Selected(offers: seq<Entry>, s: nat, lc: nat)
    ensures forall x :: x in Select(offers, s, lc) <==>
      x in offers && x.link.Some? && x.link.value.to == s && x.lc == lc
  {
    if offers != [] {
      var before, e := offers[..|offers| - 1], offers[|offers| - 1];
      Selected(before, s, lc);
      assert forall x :: x in offers <==> x in before || x == e;
    }
  }

  /** The lists one after the other. */
  function Row(ls: seq<EntryList>): seq<Entry> {
    if ls == [] then [] else Row(ls[..|ls| - 1]) + ls[|ls| - 1]
  }

  function Rows(fl: FrameLists): seq<Entry> {
    if fl == [] then [] else Rows(fl[..|fl| - 1]) + Row(fl[|fl| - 1])
  }

  ghost predicate InSome(ls: seq<EntryList>, x: Entry) {
    exists k :: 0 <= k < |ls| && x in ls[k]
  }

  lemma {:induction false} InRow(ls: seq<EntryList>, x: Entry)
    ensures x in Row(ls) <==> InSome(ls, x)
  {
    if ls != [] {
      InRow(ls[..|ls| - 1], x);
      if k :| 0 <= k < |ls| && x in ls[k] {
        assert k < |ls| - 1 ==> x in ls[..|ls| - 1][k];
      }
    }
  }

  lemma {:induction false} InRows(fl: FrameLists, x: Entry)
    ensures x in Rows(fl) <==> exists s :: 0 <= s < |fl| && InSome(fl[s], x)
  {
    if fl != [] {
      hide InSome;
      var n := |fl| - 1;
      InRows(fl[..n], x);
      InRow(fl[n], x);
      if s :| 0 <= s < |fl| && InSome(fl[s], x) {
        assert s < n ==> fl[..n][s] == fl[s];
      }
    }
  }

  /** The survivors of a frame's offers, in the order they reach the table. */
  function Survivors(offers: seq<Entry>, nState: nat, nCi: nat): seq<Entry>
    requires AllFit(offers, nState, nCi)
  {
    Rows(AddAll(offers, nState, nCi))
  }

  /** Survivors are offers with part of their contexts. */
  lemma SurvivorIsOffer(offers: seq<Entry>, nState: nat, nCi: nat, x: Entry) returns (o: Entry)
    requires AllFit(offers, nState, nCi) && x in Survivors(offers, nState, nCi)
    ensures o in offers && x.rc <= o.rc && x == o.(rc := x.rc)
  {
    InRows(AddAll(offers, nState, nCi), x);
    var fl := AddAll(offers, nState, nCi);
    var s :| 0 <= s < |fl| && InSome(fl[s], x);
    var k :| 0 <= k < |fl[s]| && x in fl[s][k];
    ListsAreSeparate(offers, nState, nCi, s, k);
    var sel := Select(offers, s, k);
    KeptAreOffers(sel);
    var j :| 0 <= j < |InsertAll(sel)| && InsertAll(sel)[j] == x;
    assert DerivedFrom(x, sel);
    var i :| 0 <= i < |sel| && x.rc <= sel[i].rc && Bare(x) == Bare(sel[i]);
    o := sel[i];
    Selected(offers, s, k);
    assert Bare(x).(rc := x.rc) == x && Bare(o).(rc := x.rc) == o.(rc := x.rc);
  }

  /** For every offer and each of its right contexts some survivor does at least as well there. */
  lemma OfferIsCovered(offers: seq<Entry>, nState: nat, nCi: nat, o: Entry, c: nat) returns (x: Entry)
    requires AllFit(offers, nState, nCi) && NonEmptyContexts(offers) && o in offers && c in o.rc
    ensures x in Survivors(offers, nState, nCi) && c in x.rc && x.score >= o.score
    ensures x.link.Some? && x.link.value.to == o.link.value.to && x.lc == o.lc
  {
    var s, lc := o.link.value.to, o.lc;
    var sel := Select(offers, s, lc);
    Selected(offers, s, lc);
    forall i | 0 <= i < |sel| ensures sel[i].rc != {} {
      assert sel[i] in sel;
    }
    var es := InsertAll(sel);
    var i :| 0 <= i < |sel| && sel[i] == o;
    KeptContexts(sel, c);
    var j :| 0 <= j < |es| && c in es[j].rc;
    ListInvariant(sel, c);
    OwnerOf(es, j, c);
    var k := BestOfferIsEarliestMax(sel, c);
    x := es[j];
    assert Bare(x) == Bare(sel[k]);
    assert Bare(x).score == sel[k].score && Bare(x).link == sel[k].link && Bare(x).lc == sel[k].lc;
    assert sel[k] in sel;
    ListsAreSeparate(offers, nState, nCi, s, lc);
    var fl := AddAll(offers, nState, nCi);
    assert InSome(fl[s], x) by { assert x in fl[s][lc]; }
    InRows(fl, x);
  }

  // ---- the table

  class History {
    const nState: nat
    const nCi: nat
    var entries: seq<Entry>
    var frameEntries: FrameLists

    ghost predicate Valid()
      reads this
    {
      IsFrameLists(frameEntries, nState, nCi)
    }

    constructor (nState: nat, nCi: nat)
      ensures Valid() && this.nState == nState && this.nCi == nCi
      ensures entries == [] && frameEntries == NoLists(nState, nCi)
    {
      this.nState, this.nCi := nState, nCi;
      entries := [];
      frameEntries := NoLists(nState, nCi);
    }

    method Reset()
      requires Valid()
      modifies this`entries
      ensures entries == []
    {
      entries := [];
    }

    /** fsg_history_entry_add: initial entries go straight to the table. */
    method EntryAdd(link: Option<Link>, frame: int, score: int, pred: int, lc: nat, rc: set<nat>)
      requires Valid() && (frame >= 0 ==> Fits(Entry(link, frame, score, pred, lc, rc), nState, nCi))
      modifies this
      ensures Valid()
      ensures frame < 0 ==>
        && entries == old(entries) + [Entry(link, frame, score, pred, lc, rc)]
        && frameEntries == old(frameEntries)
      ensures frame >= 0 ==>
        && entries == old(entries)
        && frameEntries == AddTo(old(frameEntries), Entry(link, frame, score, pred, lc, rc), nState, nCi)
    {
      if frame < 0 {
        entries := entries + [Entry(link, frame, score, pred, lc, rc)];
        return;
      }
      var s := link.value.to;
      var es := frameEntries[s][lc];
      var rest := InsertInPlace(es, Entry(link, frame, score, pred, lc, rc));
      frameEntries := frameEntries[s := frameEntries[s][lc := rest]];
    }

    /** One list updated: find the place, then take contexts from the worse entries that follow. */
    method InsertInPlace(es: EntryList, offer: Entry) returns (list: EntryList)
      ensures list == Insert(es, offer)
    {
      list := es;
      var i, e, ignored := FindPlace(es, offer);
      if ignored {
        return;
      }
      list := list[..i] + [e] + list[i..];
      assert list[i + 1..] == es[i..];
      list := StripInPlace(list, i + 1, e.rc);
    }

    /** The walk to the insertion point, losing contexts to every entry that is not worse. */
    method FindPlace(es: EntryList, offer: Entry) returns (i: nat, e: Entry, ignored: bool)
      ensures i <= |es|
      ensures Insert(es, offer) == if ignored then es else es[..i] + [e] + Strip(es[i..], e.rc)
    {
      e, i, ignored := offer, 0, false;
      while i < |es| && !(e.score > es[i].score)
        invariant i <= |es| && Insert(es, offer) == es[..i] + Insert(es[i..], e)
      {
        assert es[i..][0] == es[i] && es[i..][1..] == es[i + 1..];
        e := e.(rc := e.rc - es[i].rc);
        if e.rc == {} {
          ignored := true;
          return;
        }
        i := i + 1;
      }
      assert i < |es| ==> es[i..][0] == es[i];
    }

    /** Take contexts from the entries at and after `start`, deleting those left with none. */
    method StripInPlace(es: EntryList, start: nat, rc: set<nat>) returns (list: EntryList)
      requires start <= |es|
      ensures list == es[..start] + Strip(es[start..], rc)
    {
      list := es;
      var j := start;
      ghost var k := start;
      while j < |list|
        invariant start <= k <= |es| && start <= j <= |list| && list[j..] == es[k..]
        invariant es[..start] + Strip(es[start..], rc) == list[..j] + Strip(es[k..], rc)
        decreases |list| - j
      {
        ghost var was := list;
        assert es[k..][0] == es[k] == list[j] && es[k..][1..] == es[k + 1..] == list[j + 1..];
        var left := list[j].rc - rc;
        if left == {} {
          list := list[..j] + list[j + 1..];
          assert list[..j] == was[..j] && list[j..] == was[j + 1..];
        } else {
          list := list[j := list[j].(rc := left)];
          j := j + 1;
          assert list[..j] == was[..j - 1] + [was[j - 1].(rc := left)] && list[j..] == was[j..];
        }
        k := k + 1;
      }
      assert list[..j] == list;
    }

    /** fsg_history_end_frame: the survivors become permanent and the lists are emptied. */
    method EndFrame()
      requires Valid()
      modifies this
      ensures Valid() && frameEntries == NoLists(nState, nCi)
      ensures entries == old(entries) + Rows(old(frameEntries))
    {
      ghost var fl := frameEntries;
      for s := 0 to nState
        invariant Valid()
        invariant entries == old(entries) + Rows(fl[..s])
        invariant forall t :: 0 <= t < s ==> frameEntries[t] == seq(nCi, _ => [])
        invariant forall t :: s <= t < nState ==> frameEntries[t] == fl[t]
      {
        for lc := 0 to nCi
          invariant Valid()
          invariant entries == old(entries) + Rows(fl[..s]) + Row(fl[s][..lc])
          invariant forall t :: 0 <= t < s ==> frameEntries[t] == seq(nCi, _ => [])
          invariant forall t :: s < t < nState ==> frameEntries[t] == fl[t]
          invariant forall k :: 0 <= k < lc ==> frameEntries[s][k] == []
          invariant forall k :: lc <= k < nCi ==> frameEntries[s][k] == fl[s][k]
        {
          assert fl[s][..lc + 1][..lc] == fl[s][..lc];
          entries := entries + frameEntries[s][lc];
          frameEntries := frameEntries[s := frameEntries[s][lc := []]];
        }
        assert fl[s][..nCi] == fl[s] && fl[..s + 1][..s] == fl[..s];
      }
      assert fl[..nState] == fl;
    }
  }
}
