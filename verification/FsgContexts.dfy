/** Left and right context sets at grammar states (fsg_lextree_lc_rc in src/fsg_lextree.c): flags set from
    the words at each state, one in-place pass past null transitions, then an in-place conversion of each
    row of flags to a terminated list. */
module FsgContexts {
  import opened Fsg

  /** First and last context-independent phones of a word. */
  datatype Ends = Ends(first: nat, last: nat)

  datatype Dict = Dict(ends: map<int, Ends>, nCi: nat, sil: nat)

  ghost predicate IsDict(g: Grammar, d: Dict) {
    && d.sil < d.nCi
    && forall l :: IsArc(g, l) && l.wid >= 0 && l.wid !in g.fillers ==>
      l.wid in d.ends && d.ends[l.wid].first < d.nCi && d.ends[l.wid].last < d.nCi
  }

  /** The context a transition presents to words before it, respectively after it. */
  function FirstOf(g: Grammar, d: Dict, l: Link): nat
    requires l.wid in g.fillers || l.wid in d.ends
  {
    if l.wid in g.fillers then d.sil else d.ends[l.wid].first
  }

  function LastOf(g: Grammar, d: Dict, l: Link): nat
    requires l.wid in g.fillers || l.wid in d.ends
  {
    if l.wid in g.fillers then d.sil else d.ends[l.wid].last
  }

  predicate IsNull(l: Link) {
    l.wid < 0
  }

  predicate Known(g: Grammar, d: Dict, l: Link) {
    l.wid in g.fillers || l.wid in d.ends
  }

  /** The arcs of the states before s, and the first k of state s. */
  predicate Seen(g: Grammar, s: nat, k: nat, l: Link)
    requires IsGrammar(g) && s <= g.nState && (s < g.nState ==> k <= |g.arcs[s]|)
  {
    IsArc(g, l) && (l.from < s || (s < g.nState && l.from == s && l in g.arcs[s][..k]))
  }

  lemma SeenNext(g: Grammar, s: nat, k: nat)
    requires IsGrammar(g) && s < g.nState && k < |g.arcs[s]|
    ensures IsArc(g, g.arcs[s][k])
    ensures forall l :: Seen(g, s, k + 1, l) <==> Seen(g, s, k, l) || l == g.arcs[s][k]
  {
    var a := g.arcs[s];
    assert a[..k + 1] == a[..k] + [a[k]];
    forall l ensures l in a[..k + 1] <==> l in a[..k] || l == a[k] {
    }
    assert a[k].from == s && IsArc(g, a[k]);
    forall l ensures Seen(g, s, k + 1, l) <==> Seen(g, s, k, l) || l == a[k] {
      assert l in a[..k + 1] <==> l in a[..k] || l == a[k];
    }
  }

  lemma SeenState(g: Grammar, s: nat)
    requires IsGrammar(g) && s < g.nState
    ensures forall l :: Seen(g, s + 1, 0, l) <==> Seen(g, s, |g.arcs[s]|, l)
  {
    assert g.arcs[s][..|g.arcs[s]|] == g.arcs[s];
    if s + 1 < g.nState {
      assert g.arcs[s + 1][..0] == [];
    }
  }

  // ---- what each state should end with

  ghost predicate OwnLeft(g: Grammar, d: Dict, s: nat, c: nat) {
    c == d.sil || exists l :: IsArc(g, l) && !IsNull(l) && Known(g, d, l) && l.to == s && LastOf(g, d, l) == c
  }

  ghost predicate OwnRight(g: Grammar, d: Dict, s: nat, c: nat) {
    c == d.sil || exists l :: IsArc(g, l) && !IsNull(l) && Known(g, d, l) && l.from == s && FirstOf(g, d, l) == c
  }

  ghost predicate NullArc(g: Grammar, a: nat, b: nat) {
    exists l :: IsArc(g, l) && IsNull(l) && l.from == a && l.to == b
  }

  /** Null transitions closed under transitivity, loops back to the start aside. */
  ghost predicate NullClosed(g: Grammar) {
    forall a, b, c :: NullArc(g, a, b) && NullArc(g, b, c) && a != c ==> NullArc(g, a, c)
  }

  /** Words that can end at s, with or without a null transition after them. */
  ghost predicate FullLeft(g: Grammar, d: Dict, s: nat, c: nat) {
    OwnLeft(g, d, s, c) || exists t :: NullArc(g, t, s) && OwnLeft(g, d, t, c)
  }

  ghost predicate FullRight(g: Grammar, d: Dict, s: nat, c: nat) {
    OwnRight(g, d, s, c) || exists t :: NullArc(g, s, t) && OwnRight(g, d, t, c)
  }

  // ---- the tables

  predicate Flag(a: array2<int>, s: nat, c: nat)
    requires s < a.Length0 && c < a.Length1
    reads a
  {
    a[s, c] != 0
  }

  /** The elements of a row of flags, in increasing order. */
  function Listed(row: seq<int>, n: nat): seq<int>
    requires n <= |row|
  {
    if n == 0 then [] else Listed(row, n - 1) + if row[n - 1] != 0 then [n - 1] else []
  }

  lemma {:induction false} ListedIsSortedSet(row: seq<int>, n: nat)
    requires n <= |row|
    ensures |Listed(row, n)| <= n
    ensures forall i, j :: 0 <= i < j < |Listed(row, n)| ==> Listed(row, n)[i] < Listed(row, n)[j]
    ensures forall c :: c in Listed(row, n) <==> 0 <= c < n && row[c] != 0
  {
    if n > 0 {
      ListedIsSortedSet(row, n - 1);
      var before := Listed(row, n - 1);
      assert forall i :: 0 <= i < |before| ==> before[i] in before;
    }
  }

  function Row(a: array2<int>, s: nat): (r: seq<int>)
    requires s < a.Length0
    reads a
    ensures |r| == a.Length1 && forall i :: 0 <= i < a.Length1 ==> r[i] == a[s, i]
  {
    seq(a.Length1, i requires 0 <= i < a.Length1 reads a => a[s, i])
  }

  class Contexts {
    const g: Grammar
    const d: Dict
    const lc: array2<int>
    const rc: array2<int>

    ghost predicate Valid() {
      && IsGrammar(g) && IsDict(g, d) && lc != rc
      && lc.Length0 == rc.Length0 == g.nState && lc.Length1 == rc.Length1 == d.nCi + 1
    }

    constructor (g: Grammar, d: Dict)
      requires IsGrammar(g) && IsDict(g, d)
      ensures Valid() && this.g == g && this.d == d && fresh(lc) && fresh(rc)
      ensures forall s, c :: 0 <= s < g.nState && 0 <= c <= d.nCi ==> lc[s, c] == 0 && rc[s, c] == 0
    {
      this.g, this.d := g, d;
      lc := new int[g.nState, d.nCi + 1]((_, _) => 0);
      rc := new int[g.nState, d.nCi + 1]((_, _) => 0);
    }

    ghost predicate SeenLeft(s: nat, k: nat, t: nat, c: nat)
      requires Valid() && s <= g.nState && (s < g.nState ==> k <= |g.arcs[s]|)
    {
      exists l :: Seen(g, s, k, l) && !IsNull(l) && Known(g, d, l) && l.to == t && LastOf(g, d, l) == c
    }

    ghost predicate SeenRight(s: nat, k: nat, t: nat, c: nat)
      requires Valid() && s <= g.nState && (s < g.nState ==> k <= |g.arcs[s]|)
    {
      exists l :: Seen(g, s, k, l) && !IsNull(l) && Known(g, d, l) && l.from == t && FirstOf(g, d, l) == c
    }

    /** The flags are those of the arcs seen so far, and silence for the states done. */
    ghost predicate Marked(s: nat, k: nat, silent: nat)
      requires Valid() && s <= g.nState && (s < g.nState ==> k <= |g.arcs[s]|) && silent <= g.nState
      reads lc, rc
    {
      forall t, c :: 0 <= t < g.nState && 0 <= c < d.nCi ==>
        && (Flag(lc, t, c) <==> ((t < silent && c == d.sil) || SeenLeft(s, k, t, c)))
        && (Flag(rc, t, c) <==> ((t < silent && c == d.sil) || SeenRight(s, k, t, c)))
    }

    /** One transition's contexts. */
    method MarkArc(s: nat, k: nat)
      requires Valid() && s < g.nState && k < |g.arcs[s]| && Marked(s, k, 0)
      modifies lc, rc
      ensures Marked(s, k + 1, 0)
    {
      var l := g.arcs[s][k];
      SeenNext(g, s, k);
      forall t, c {:trigger SeenLeft(s, k + 1, t, c)} {:trigger SeenRight(s, k + 1, t, c)} | true
        ensures SeenLeft(s, k + 1, t, c) <==>
          SeenLeft(s, k, t, c) || (!IsNull(l) && Known(g, d, l) && l.to == t && LastOf(g, d, l) == c)
        ensures SeenRight(s, k + 1, t, c) <==>
          SeenRight(s, k, t, c) || (!IsNull(l) && Known(g, d, l) && l.from == t && FirstOf(g, d, l) == c)
      {
        OneMore(s, k, t, c);
      }
      if l.wid >= 0 {
        assert Known(g, d, l);
        if l.wid in g.fillers {
          rc[l.from, d.sil] := 1;
          lc[l.to, d.sil] := 1;
        } else {
          rc[l.from, d.ends[l.wid].first] := 1;
          lc[l.to, d.ends[l.wid].last] := 1;
        }
      }
    }

    lemma OneMore(s: nat, k: nat, t: nat, c: nat)
      requires Valid() && s < g.nState && k < |g.arcs[s]|
      ensures var l := g.arcs[s][k]; SeenLeft(s, k + 1, t, c) <==>
        SeenLeft(s, k, t, c) || (!IsNull(l) && Known(g, d, l) && l.to == t && LastOf(g, d, l) == c)
      ensures var l := g.arcs[s][k]; SeenRight(s, k + 1, t, c) <==>
        SeenRight(s, k, t, c) || (!IsNull(l) && Known(g, d, l) && l.from == t && FirstOf(g, d, l) == c)
    {
      SeenNext(g, s, k);
    }

    lemma NextState(s: nat)
      requires Valid() && s < g.nState && Marked(s, |g.arcs[s]|, 0)
      ensures Marked(s + 1, 0, 0)
    {
      SeenState(g, s);
    }

    /** The contexts of the words at each state, and silence everywhere. */
    method MarkOwn()
      requires Valid()
      requires forall s, c :: 0 <= s < g.nState && 0 <= c <= d.nCi ==> lc[s, c] == 0 && rc[s, c] == 0
      modifies lc, rc
      ensures forall s, c :: 0 <= s < g.nState && 0 <= c < d.nCi ==>
        (Flag(lc, s, c) <==> OwnLeft(g, d, s, c)) && (Flag(rc, s, c) <==> OwnRight(g, d, s, c))
    {
      for s := 0 to g.nState
        invariant Marked(s, 0, 0)
      {
        for k := 0 to |g.arcs[s]|
          invariant Marked(s, k, 0)
        {
          MarkArc(s, k);
        }
        NextState(s);
      }
      MarkSilence();
      forall s, c | 0 <= s < g.nState && 0 <= c < d.nCi
        ensures Flag(lc, s, c) <==> OwnLeft(g, d, s, c)
        ensures Flag(rc, s, c) <==> OwnRight(g, d, s, c)
      {
        AllSeen(s, c);
      }
    }

    method MarkSilence()
      requires Valid() && Marked(g.nState, 0, 0)
      modifies lc, rc
      ensures Marked(g.nState, 0, g.nState)
    {
      for s := 0 to g.nState
        invariant forall t, c :: 0 <= t < g.nState && 0 <= c < d.nCi ==>
          && (Flag(lc, t, c) <==> (t < s && c == d.sil) || old(Flag(lc, t, c)))
          && (Flag(rc, t, c) <==> (t < s && c == d.sil) || old(Flag(rc, t, c)))
      {
        lc[s, d.sil] := 1;
        rc[s, d.sil] := 1;
      }
    }

    lemma AllSeen(t: nat, c: nat)
      requires Valid()
      ensures OwnLeft(g, d, t, c) <==> c == d.sil || SeenLeft(g.nState, 0, t, c)
      ensures OwnRight(g, d, t, c) <==> c == d.sil || SeenRight(g.nState, 0, t, c)
    {
      assert forall l :: Seen(g, g.nState, 0, l) <==> IsArc(g, l);
    }

    /** During the single pass past null transitions: own contexts are there, nothing foreign is, and the
        arcs seen have delivered the own contexts of their far ends. */
    ghost predicate Spread(s: nat, k: nat)
      requires Valid() && s <= g.nState && (s < g.nState ==> k <= |g.arcs[s]|)
      reads lc, rc
    {
      && (forall t, c :: 0 <= t < g.nState && 0 <= c < d.nCi ==>
           && (OwnLeft(g, d, t, c) ==> Flag(lc, t, c)) && (Flag(lc, t, c) ==> FullLeft(g, d, t, c))
           && (OwnRight(g, d, t, c) ==> Flag(rc, t, c)) && (Flag(rc, t, c) ==> FullRight(g, d, t, c)))
      && (forall l, c :: Seen(g, s, k, l) && IsNull(l) && 0 <= c < d.nCi ==>
           && (OwnLeft(g, d, l.from, c) ==> Flag(lc, l.to, c))
           && (OwnRight(g, d, l.to, c) ==> Flag(rc, l.from, c)))
    }

    /** Row t takes the flags of row f as well. */
    method OrRow(a: array2<int>, t: nat, f: nat)
      requires Valid() && a in {lc, rc} && t < g.nState && f < g.nState
      modifies a
      ensures forall s, c :: 0 <= s < g.nState && 0 <= c < d.nCi ==>
        (Flag(a, s, c) <==> (old(Flag(a, s, c)) || (s == t && old(Flag(a, f, c)))))
    {
      for i := 0 to d.nCi
        invariant forall s, c :: 0 <= s < g.nState && 0 <= c < d.nCi ==>
          (Flag(a, s, c) <==> (old(Flag(a, s, c)) || (s == t && c < i && old(Flag(a, f, c)))))
      {
        if a[f, i] != 0 {
          a[t, i] := 1;
        }
      }
    }

    /** Contexts carried over a null transition stay within bounds, the transitions being closed. */
    lemma CarriedWithin(l: Link, c: nat)
      requires Valid() && NullClosed(g) && IsArc(g, l) && IsNull(l)
      ensures FullLeft(g, d, l.from, c) ==> FullLeft(g, d, l.to, c)
      ensures FullRight(g, d, l.to, c) ==> FullRight(g, d, l.from, c)
    {
      assert NullArc(g, l.from, l.to);
      if FullLeft(g, d, l.from, c) && !OwnLeft(g, d, l.from, c) {
        var t :| NullArc(g, t, l.from) && OwnLeft(g, d, t, c);
        assert t != l.to ==> NullArc(g, t, l.to);
      }
      if FullRight(g, d, l.to, c) && !OwnRight(g, d, l.to, c) {
        var t :| NullArc(g, l.to, t) && OwnRight(g, d, t, c);
        assert t != l.from ==> NullArc(g, l.from, t);
      }
    }

    method SpreadArc(s: nat, k: nat)
      requires Valid() && NullClosed(g) && s < g.nState && k < |g.arcs[s]| && Spread(s, k)
      modifies lc, rc
      ensures Spread(s, k + 1)
    {
      hide OwnLeft, OwnRight, FullLeft, FullRight, NullClosed;
      var l := g.arcs[s][k];
      SeenNext(g, s, k);
      if l.wid < 0 {
        forall c | 0 <= c < d.nCi
          ensures FullLeft(g, d, l.from, c) ==> FullLeft(g, d, l.to, c)
          ensures FullRight(g, d, l.to, c) ==> FullRight(g, d, l.from, c)
        {
          CarriedWithin(l, c);
        }
        OrRow(lc, l.to, l.from);
        OrRow(rc, l.from, l.to);
      }
    }

    lemma SpreadNext(s: nat)
      requires Valid() && s < g.nState && Spread(s, |g.arcs[s]|)
      ensures Spread(s + 1, 0)
    {
      SeenState(g, s);
    }

    /** The single in-place pass: in whatever order the arcs come, each state gets exactly its own contexts
        and those of its null-reachable neighbours. */
    method PropagateNulls()
      requires Valid() && NullClosed(g)
      requires forall s, c :: 0 <= s < g.nState && 0 <= c < d.nCi ==>
        (Flag(lc, s, c) <==> OwnLeft(g, d, s, c)) && (Flag(rc, s, c) <==> OwnRight(g, d, s, c))
      modifies lc, rc
      ensures forall s, c :: 0 <= s < g.nState && 0 <= c < d.nCi ==>
        (Flag(lc, s, c) <==> FullLeft(g, d, s, c)) && (Flag(rc, s, c) <==> FullRight(g, d, s, c))
    {
      for s := 0 to g.nState
        invariant Spread(s, 0)
      {
        for k := 0 to |g.arcs[s]|
          invariant Spread(s, k)
        {
          SpreadArc(s, k);
        }
        SpreadNext(s);
      }
      SpreadDone();
    }

    lemma SpreadDone()
      requires Valid() && Spread(g.nState, 0)
      ensures forall s, c :: 0 <= s < g.nState && 0 <= c < d.nCi ==>
        (Flag(lc, s, c) <==> FullLeft(g, d, s, c)) && (Flag(rc, s, c) <==> FullRight(g, d, s, c))
    {
      forall s, c | 0 <= s < g.nState && 0 <= c < d.nCi
        ensures FullLeft(g, d, s, c) ==> Flag(lc, s, c)
        ensures FullRight(g, d, s, c) ==> Flag(rc, s, c)
      {
        if FullLeft(g, d, s, c) && !OwnLeft(g, d, s, c) {
          var t :| NullArc(g, t, s) && OwnLeft(g, d, t, c);
          var l :| IsArc(g, l) && IsNull(l) && l.from == t && l.to == s;
          assert Seen(g, g.nState, 0, l);
        }
        if FullRight(g, d, s, c) && !OwnRight(g, d, s, c) {
          var t :| NullArc(g, s, t) && OwnRight(g, d, t, c);
          var l :| IsArc(g, l) && IsNull(l) && l.from == s && l.to == t;
          assert Seen(g, g.nState, 0, l);
        }
      }
    }

    /** The conversion of one row, in place: the write position never passes the read position. */
    method CompactRow(a: array2<int>, s: nat)
      requires Valid() && a in {lc, rc} && s < g.nState
      modifies a
      ensures Compacted(old(Row(a, s)), Row(a, s), d.nCi)
      ensures forall t :: 0 <= t < g.nState && t != s ==> Row(a, t) == old(Row(a, t))
    {
      ghost var row := Row(a, s);
      var j := 0;
      for i := 0 to d.nCi
        invariant j == |Listed(row, i)| <= i
        invariant forall k :: 0 <= k < j ==> a[s, k] == Listed(row, i)[k]
        invariant forall k :: i <= k <= d.nCi ==> a[s, k] == row[k]
        invariant forall t, k :: 0 <= t < g.nState && t != s && 0 <= k <= d.nCi ==> a[t, k] == old(a[t, k])
      {
        if a[s, i] != 0 {
          a[s, j] := i;
          j := j + 1;
        }
      }
      a[s, j] := -1;
    }

    /** All rows of one table. */
    method CompactAll(a: array2<int>)
      requires Valid() && a in {lc, rc}
      modifies a
      ensures forall s :: 0 <= s < g.nState ==> Compacted(old(Row(a, s)), Row(a, s), d.nCi)
    {
      for s := 0 to g.nState
        invariant forall t :: 0 <= t < s ==> Compacted(old(Row(a, t)), Row(a, t), d.nCi)
        invariant forall t :: s <= t < g.nState ==> Row(a, t) == old(Row(a, t))
      {
        CompactRow(a, s);
      }
    }

    /** fsg_lextree_lc_rc: every row ends as a terminated list of the state's contexts, in increasing order. */
    method LcRc()
      requires Valid() && NullClosed(g)
      requires forall s, c :: 0 <= s < g.nState && 0 <= c <= d.nCi ==> lc[s, c] == 0 && rc[s, c] == 0
      modifies lc, rc
      ensures forall s :: 0 <= s < g.nState ==>
        ListOf(Row(lc, s), LeftSet(g, d, s)) && ListOf(Row(rc, s), RightSet(g, d, s))
    {
      hide FullLeft, FullRight, OwnLeft, OwnRight, NullClosed, ListOf, Compacted;
      MarkOwn();
      PropagateNulls();
      label Flags:
      forall s | 0 <= s < g.nState
        ensures FlagsOf(Row(lc, s), LeftSet(g, d, s), d.nCi) && FlagsOf(Row(rc, s), RightSet(g, d, s), d.nCi)
      {
        RowsAreFlags(s);
      }
      CompactAll(lc);
      CompactAll(rc);
      forall s | 0 <= s < g.nState
        ensures ListOf(Row(lc, s), LeftSet(g, d, s)) && ListOf(Row(rc, s), RightSet(g, d, s))
      {
        CompactedIsList(old@Flags(Row(lc, s)), Row(lc, s), LeftSet(g, d, s), d.nCi);
        CompactedIsList(old@Flags(Row(rc, s)), Row(rc, s), RightSet(g, d, s), d.nCi);
      }
    }

    lemma RowsAreFlags(s: nat)
      requires Valid() && s < g.nState
      requires forall c :: 0 <= c < d.nCi ==>
        (Flag(lc, s, c) <==> FullLeft(g, d, s, c)) && (Flag(rc, s, c) <==> FullRight(g, d, s, c))
      ensures FlagsOf(Row(lc, s), LeftSet(g, d, s), d.nCi) && FlagsOf(Row(rc, s), RightSet(g, d, s), d.nCi)
    {
      hide FullLeft, FullRight;
      assert forall c: nat :: c < d.nCi ==>
        (Row(lc, s)[c] != 0 <==> Flag(lc, s, c)) && (Row(rc, s)[c] != 0 <==> Flag(rc, s, c));
    }
  }

  /** The contexts of a state as sets of phones. */
  ghost function LeftSet(g: Grammar, d: Dict, s: nat): set<nat> {
    set c: nat | c < d.nCi && FullLeft(g, d, s, c)
  }

  ghost function RightSet(g: Grammar, d: Dict, s: nat): set<nat> {
    set c: nat | c < d.nCi && FullRight(g, d, s, c)
  }

  ghost predicate FlagsOf(row: seq<int>, cs: set<nat>, n: nat) {
    |row| == n + 1 && forall c: nat :: c < n ==> (row[c] != 0 <==> c in cs)
  }

  ghost predicate Compacted(flags: seq<int>, row: seq<int>, n: nat) {
    && |flags| == |row| == n + 1 && |Listed(flags, n)| <= n
    && row[..|Listed(flags, n)|] == Listed(flags, n) && row[|Listed(flags, n)|] == -1
  }

  /** A row holds the elements of a set in increasing order and then -1, within its length. */
  ghost predicate ListOf(row: seq<int>, cs: set<nat>) {
    exists n :: 0 <= n < |row| && row[n] == -1 && Enumerates(row[..n], cs)
  }

  ghost predicate Enumerates(list: seq<int>, cs: set<nat>) {
    && (forall i, j :: 0 <= i < j < |list| ==> list[i] < list[j])
    && (forall i :: 0 <= i < |list| ==> list[i] >= 0)
    && (forall c: nat :: c in list <==> c in cs)
  }

  lemma CompactedIsList(flags: seq<int>, row: seq<int>, cs: set<nat>, n: nat)
    requires Compacted(flags, row, n) && FlagsOf(flags, cs, n) && forall c :: c in cs ==> c < n
    ensures ListOf(row, cs)
  {
    ListedIsSortedSet(flags, n);
    var list := Listed(flags, n);
    assert forall i :: 0 <= i < |list| ==> list[i] in list;
    assert Enumerates(row[..|list|], cs);
  }
}
