/** The model definition's triphones: nested lists (src/mdef.c), flattened into a tree of four levels
    (src/bin_mdef.c). */
module Mdef {
  import opened Basics

  const N_WORD_POSN: nat := 4
  const WORD_POSN_BEGIN: nat := 1
  const WORD_POSN_END: nat := 2
  const WORD_POSN_SINGLE: nat := 3

  datatype Rc = Rc(rc: nat, pid: nat)
  datatype Lc = Lc(lc: nat, rcs: seq<Rc>)
  type Row = seq<Lc>

  /** wpos_ci_lclist, word position by word position; a list with its head first. */
  type Rows = seq<Row>

  datatype Tri = Tri(ci: nat, lc: nat, rc: nat, wpos: nat)

  predicate IsTri(n: nat, t: Tri) {
    t.ci < n && t.lc < n && t.rc < n && t.wpos < N_WORD_POSN
  }

  function RowOf(n: nat, wpos: nat, ci: nat): nat {
    wpos * n + ci
  }

  lemma RowInRange(n: nat, wpos: nat, ci: nat)
    requires wpos < N_WORD_POSN && ci < n
    ensures RowOf(n, wpos, ci) < N_WORD_POSN * n && RowOf(n, wpos, ci) + n - ci <= N_WORD_POSN * n
  {
    assert (N_WORD_POSN - 1 - wpos) * n >= 0;
  }

  lemma RowSteps(n: nat, w: nat, c: nat)
    ensures RowOf(n, 0, 0) == 0 && RowOf(n, N_WORD_POSN, 0) == N_WORD_POSN * n
    ensures RowOf(n, w, c + 1) == RowOf(n, w, c) + 1 && RowOf(n, w, n) == RowOf(n, w + 1, 0)
  {
  }

  lemma RowsDistinct(n: nat, w: nat, c: nat, w': nat, c': nat)
    requires c < n && c' < n && RowOf(n, w, c) == RowOf(n, w', c')
    ensures w == w' && c == c'
  {
    var d := w' - w;
    assert w' * n == w * n + d * n;
    MulBound(n, d);
    assert d == 0;
  }

  // ---- searching the lists

  /** find_ph_lc and find_ph_rc, as positions; the length of the list when there is none. */
  function FindLc(row: Row, lc: nat): (k: nat)
    ensures k <= |row| && (k < |row| ==> row[k].lc == lc) && forall j :: 0 <= j < k ==> row[j].lc != lc
  {
    if row == [] then 0 else if row[0].lc == lc then 0 else 1 + FindLc(row[1..], lc)
  }

  function FindRc(rcs: seq<Rc>, rc: nat): (k: nat)
    ensures k <= |rcs| && (k < |rcs| ==> rcs[k].rc == rc) && forall j :: 0 <= j < k ==> rcs[j].rc != rc
  {
    if rcs == [] then 0 else if rcs[0].rc == rc then 0 else 1 + FindRc(rcs[1..], rc)
  }

  function PidIn(rcs: seq<Rc>, rc: nat): int {
    var k := FindRc(rcs, rc);
    if k < |rcs| then rcs[k].pid else -1
  }

  function RowPid(row: Row, lc: nat, rc: nat): int {
    var k := FindLc(row, lc);
    if k < |row| then PidIn(row[k].rcs, rc) else -1
  }

  /** The triphone's number in the lists, or -1. */
  function ListPid(n: nat, rows: Rows, t: Tri): int
    requires IsTri(n, t) && |rows| == N_WORD_POSN * n
  {
    RowInRange(n, t.wpos, t.ci);
    RowPid(rows[RowOf(n, t.wpos, t.ci)], t.lc, t.rc)
  }

  // ---- adding triphones

  function AddRc(row: Row, k: nat, rc: nat, pid: nat): Row
    requires k < |row|
  {
    row[k := row[k].(rcs := [Rc(rc, pid)] + row[k].rcs)]
  }

  function AddTo(row: Row, lc: nat, rc: nat, pid: nat): Row {
    var k := FindLc(row, lc);
    if k < |row| then AddRc(row, k, rc, pid) else [Lc(lc, [Rc(rc, pid)])] + row
  }

  lemma AddToPid(row: Row, lc: nat, rc: nat, pid: nat, lc': nat, rc': nat)
    ensures RowPid(AddTo(row, lc, rc, pid), lc', rc') == if lc == lc' && rc == rc' then pid else RowPid(row, lc', rc')
  {
    var r := AddTo(row, lc, rc, pid);
    var k := FindLc(row, lc);
    var j := FindLc(row, lc');
    var i := FindLc(r, lc');
    if k < |row| {
      assert |r| == |row| && forall m :: 0 <= m < |row| ==> r[m].lc == row[m].lc;
      assert i == j;
      if j == k && j < |row| {
        assert r[k].rcs[1..] == row[k].rcs;
      }
    } else {
      assert r[1..] == row;
    }
  }

  /** Which triphones have been added, and with which number. */
  type Added = map<Tri, nat>

  /** A lookup in the lists finds exactly what was added. */
  ghost predicate Holds(n: nat, rows: Rows, added: Added) {
    && |rows| == N_WORD_POSN * n
    && (forall t :: t in added ==> IsTri(n, t))
    && (forall t :: IsTri(n, t) ==> ListPid(n, rows, t) == if t in added then added[t] else -1)
  }

  function AddTriphone(n: nat, rows: Rows, t: Tri, pid: nat): Rows
    requires IsTri(n, t) && |rows| == N_WORD_POSN * n
  {
    RowInRange(n, t.wpos, t.ci);
    var k := RowOf(n, t.wpos, t.ci);
    rows[k := AddTo(rows[k], t.lc, t.rc, pid)]
  }

  /** Adding keeps the lists exact, and refuses exactly a triphone that is already there. */
  lemma AddHolds(n: nat, rows: Rows, added: Added, t: Tri, pid: nat)
    requires Holds(n, rows, added) && IsTri(n, t)
    ensures ListPid(n, rows, t) >= 0 <==> t in added
    ensures t !in added ==> Holds(n, AddTriphone(n, rows, t, pid), added[t := pid])
  {
    var rows' := AddTriphone(n, rows, t, pid);
    hide RowOf, ListPid, AddTriphone;
    forall u | IsTri(n, u) ensures ListPid(n, rows', u) == if u == t then pid else ListPid(n, rows, u) {
      AddElsewhere(n, rows, t, pid, u);
    }
  }

  lemma AddElsewhere(n: nat, rows: Rows, t: Tri, pid: nat, u: Tri)
    requires |rows| == N_WORD_POSN * n && IsTri(n, t) && IsTri(n, u)
    ensures ListPid(n, AddTriphone(n, rows, t, pid), u) == if u == t then pid else ListPid(n, rows, u)
  {
    RowInRange(n, t.wpos, t.ci);
    RowInRange(n, u.wpos, u.ci);
    var k, j := RowOf(n, t.wpos, t.ci), RowOf(n, u.wpos, u.ci);
    if k == j {
      RowsDistinct(n, t.wpos, t.ci, u.wpos, u.ci);
      hide RowOf, AddTo, RowPid;
      AddToPid(rows[k], t.lc, t.rc, pid, u.lc, u.rc);
    }
  }

  // ---- the flat tree

  /** `down` is the index of the first child, or the phone number at a leaf. */
  datatype Node = Node(ctx: int, nDown: nat, down: int)

  function LcTotal(rows: Rows): nat {
    if rows == [] then 0 else LcTotal(rows[..|rows| - 1]) + |rows[|rows| - 1]|
  }

  /** How many right contexts a row's first m left contexts have. */
  function RcCount(row: Row, m: nat): nat
    requires m <= |row|
  {
    if m == 0 then 0 else RcCount(row, m - 1) + |row[m - 1].rcs|
  }

  function RcTotal(rows: Rows): nat {
    if rows == [] then 0
    else RcTotal(rows[..|rows| - 1]) + RcCount(rows[|rows| - 1], |rows[|rows| - 1]|)
  }

  /** Where row k's nodes start in the region of left contexts, and in that of right contexts. */
  function LcStart(rows: Rows, k: nat): nat
    requires k <= |rows|
  {
    N_WORD_POSN + |rows| + LcTotal(rows[..k])
  }

  function RcStart(rows: Rows, k: nat): nat
    requires k <= |rows|
  {
    N_WORD_POSN + |rows| + LcTotal(rows) + RcTotal(rows[..k])
  }

  function TreeSize(rows: Rows): nat {
    N_WORD_POSN + |rows| + LcTotal(rows) + RcTotal(rows)
  }

  lemma NextTotal(rows: Rows, k: nat)
    requires k < |rows|
    ensures LcTotal(rows[..k + 1]) == LcTotal(rows[..k]) + |rows[k]|
    ensures RcTotal(rows[..k + 1]) == RcTotal(rows[..k]) + RcCount(rows[k], |rows[k]|)
  {
    assert rows[..k + 1][..k] == rows[..k];
  }

  lemma NextStart(rows: Rows, k: nat)
    requires k < |rows|
    ensures LcStart(rows, k + 1) == LcStart(rows, k) + |rows[k]|
    ensures RcStart(rows, k + 1) == RcStart(rows, k) + RcCount(rows[k], |rows[k]|)
  {
    NextTotal(rows, k);
  }

  lemma {:induction false} StartsOrdered(rows: Rows, j: nat, k: nat)
    requires j <= k <= |rows|
    ensures LcStart(rows, j) <= LcStart(rows, k) && RcStart(rows, j) <= RcStart(rows, k)
    decreases k
  {
    if j < k {
      StartsOrdered(rows, j, k - 1);
      NextStart(rows, k - 1);
    }
  }

  /** The regions of CI, LC and RC nodes are adjacent, and end exactly where the tree does. */
  lemma RegionsAdjacent(rows: Rows)
    ensures LcStart(rows, 0) == N_WORD_POSN + |rows|
    ensures LcStart(rows, |rows|) == RcStart(rows, 0)
    ensures RcStart(rows, |rows|) == TreeSize(rows)
  {
    assert rows[..|rows|] == rows;
  }

  lemma {:induction false} RcCountOrdered(row: Row, m: nat, k: nat)
    requires m <= k <= |row|
    ensures RcCount(row, m) <= RcCount(row, k)
    decreases k
  {
    if m < k {
      RcCountOrdered(row, m, k - 1);
    }
  }

  function LcNode(row: Row, m: nat, rcStart: nat): Node
    requires m < |row|
  {
    Node(row[m].lc, |row[m].rcs|, if row[m].rcs == [] then -1 else rcStart + RcCount(row, m))
  }

  function CiNode(ci: nat, row: Row, lcStart: nat): Node {
    Node(ci, |row|, if row == [] then -1 else lcStart)
  }

  function RcNode(rc: Rc): Node {
    Node(rc.rc, 0, rc.pid)
  }

  /** The nodes t[at..at + |rcs|] are those of the right contexts. */
  predicate RcsAt(t: seq<Node>, rcs: seq<Rc>, at: nat) {
    at + |rcs| <= |t| && forall k :: at <= k < at + |rcs| ==> t[k] == RcNode(rcs[k - at])
  }

  predicate LcAt(t: seq<Node>, row: Row, m: nat, lcStart: nat, rcStart: nat)
    requires m < |row|
  {
    && lcStart + m < |t| && t[lcStart + m] == LcNode(row, m, rcStart)
    && RcsAt(t, row[m].rcs, rcStart + RcCount(row, m))
  }

  /** The row's node at ciIdx, its left contexts from lcStart on and their right contexts from rcStart on. */
  predicate RowAt(t: seq<Node>, ci: nat, row: Row, ciIdx: nat, lcStart: nat, rcStart: nat) {
    && ciIdx < |t| && t[ciIdx] == CiNode(ci, row, lcStart)
    && forall m :: 0 <= m < |row| ==> LcAt(t, row, m, lcStart, rcStart)
  }

  predicate RowPlaced(n: nat, rows: Rows, t: seq<Node>, wpos: nat, ci: nat) {
    var k := RowOf(n, wpos, ci);
    k < |rows| && RowAt(t, ci, rows[k], N_WORD_POSN + k, LcStart(rows, k), RcStart(rows, k))
  }

  /** The tree represents the lists. */
  predicate IsTree(n: nat, rows: Rows, t: seq<Node>) {
    && |rows| == N_WORD_POSN * n && |t| == TreeSize(rows)
    && (forall w :: 0 <= w < N_WORD_POSN ==> t[w] == Node(w, n, N_WORD_POSN + RowOf(n, w, 0)))
    && (forall w: nat, c: nat :: w < N_WORD_POSN && c < n ==> RowPlaced(n, rows, t, w, c))
  }

  // ---- looking up

  predicate IsFirstCtx(t: seq<Node>, base: nat, max: nat, ctx: int, i: nat) {
    && base + max <= |t| && i <= max && (i < max ==> t[base + i].ctx == ctx)
    && forall k :: base <= k < base + i ==> t[k].ctx != ctx
  }

  /** What the search of each level must find. */
  lemma WposLevel(n: nat, rows: Rows, t: seq<Node>, wpos: nat, i: nat)
    requires IsTree(n, rows, t) && wpos < N_WORD_POSN && IsFirstCtx(t, 0, N_WORD_POSN, wpos, i)
    ensures i == wpos && t[i] == Node(wpos, n, N_WORD_POSN + RowOf(n, wpos, 0))
  {
    hide RowPlaced, RowOf, TreeSize;
    assert t[wpos].ctx == wpos;
    assert i < N_WORD_POSN ==> t[0 + i].ctx == i;
  }

  lemma CiLevel(n: nat, rows: Rows, t: seq<Node>, wpos: nat, ci: nat, i: nat)
    requires IsTree(n, rows, t) && wpos < N_WORD_POSN && ci < n
    requires IsFirstCtx(t, N_WORD_POSN + RowOf(n, wpos, 0), n, ci, i)
    ensures i == ci && RowPlaced(n, rows, t, wpos, i)
    ensures N_WORD_POSN + RowOf(n, wpos, 0) + i == N_WORD_POSN + RowOf(n, wpos, ci)
  {
    assert RowPlaced(n, rows, t, wpos, ci);
    if i < n {
      assert RowPlaced(n, rows, t, wpos, i);
    }
  }

  lemma LcLevel(t: seq<Node>, ci: nat, row: Row, ciIdx: nat, lcStart: nat, rcStart: nat, lc: nat, i: nat)
    requires RowAt(t, ci, row, ciIdx, lcStart, rcStart) && IsFirstCtx(t, lcStart, |row|, lc, i)
    ensures i == FindLc(row, lc) && (i < |row| ==> LcAt(t, row, i, lcStart, rcStart))
  {
    var k := FindLc(row, lc);
    if k < |row| {
      assert LcAt(t, row, k, lcStart, rcStart);
    }
    if i < |row| {
      assert LcAt(t, row, i, lcStart, rcStart);
    }
  }

  lemma RcLevel(t: seq<Node>, rcs: seq<Rc>, at: nat, rc: nat, i: nat)
    requires RcsAt(t, rcs, at) && IsFirstCtx(t, at, |rcs|, rc, i)
    ensures i == FindRc(rcs, rc) && (i < |rcs| ==> t[at + i] == RcNode(rcs[i]))
  {
    var k := FindRc(rcs, rc);
    if k < |rcs| {
      assert t[at + k] == RcNode(rcs[k]);
    }
    if i < |rcs| {
      assert t[at + i] == RcNode(rcs[i]);
    }
  }

  // ---- the text definition

  /** The lists of a text model definition. */
  class Text {
    const n: nat
    var rows: Rows
    ghost var added: Added

    ghost predicate Valid()
      reads this
    {
      Holds(n, rows, added)
    }

    constructor (n: nat)
      ensures Valid() && added == map[] && this.n == n
    {
      this.n := n;
      rows := seq(N_WORD_POSN * n, _ => []);
      added := map[];
    }

    method FindLcIn(row: Row, lc: nat) returns (k: nat)
      ensures k == FindLc(row, lc)
    {
      k := 0;
      while k < |row| && row[k].lc != lc
        invariant k <= |row| && forall j :: 0 <= j < k ==> row[j].lc != lc
      {
        k := k + 1;
      }
    }

    method FindRcIn(rcs: seq<Rc>, rc: nat) returns (k: nat)
      ensures k == FindRc(rcs, rc)
    {
      k := 0;
      while k < |rcs| && rcs[k].rc != rc
        invariant k <= |rcs| && forall j :: 0 <= j < k ==> rcs[j].rc != rc
      {
        k := k + 1;
      }
    }

    /** triphone_add for a context-dependent phone; false for a duplicate, where the source gives up. */
    method TriphoneAdd(t: Tri, p: nat) returns (ok: bool)
      requires Valid() && IsTri(n, t)
      modifies this
      ensures Valid() && ok == (t !in old(added)) && added == if ok then old(added)[t := p] else old(added)
      ensures rows == if ok then AddTriphone(n, old(rows), t, p) else old(rows)
    {
      AddHolds(n, rows, added, t, p);
      RowInRange(n, t.wpos, t.ci);
      var at := RowOf(n, t.wpos, t.ci);
      var row := rows[at];
      hide Holds, RowOf;
      var k := FindLcIn(row, t.lc);
      if k < |row| {
        var j := FindRcIn(row[k].rcs, t.rc);
        if j < |row[k].rcs| {
          return false;
        }
        row := AddRc(row, k, t.rc, p);
      } else {
        row := [Lc(t.lc, [Rc(t.rc, p)])] + row;
      }
      rows := rows[at := row];
      added := added[t := p];
      ok := true;
    }
  }

  // ---- the binary definition

  /** Contexts as looked up: fillers are silence, when there is a silence phone. */
  function Context(sil: int, filler: seq<bool>, p: nat): nat
    requires p < |filler|
  {
    if sil >= 0 && filler[p] then sil else p
  }

  /** What a lookup of a phone in context must return, -1 when no such triphone was added. */
  function Exact(n: nat, sil: int, filler: seq<bool>, added: Added, ci: nat, lc: int, rc: int, wpos: nat): int
    requires |filler| == n && lc < n && rc < n
  {
    if lc < 0 || rc < 0 then ci
    else
      var t := Tri(ci, Context(sil, filler, lc), Context(sil, filler, rc), wpos);
      if t in added then added[t] else -1
  }

  /** A place to look for a triphone of the base phone. */
  datatype Place = Place(lc: nat, rc: nat, wpos: nat)

  function OtherWpos(lc: nat, rc: nat, wpos: nat, from: nat): seq<Place>
    decreases N_WORD_POSN - from
  {
    if from >= N_WORD_POSN then []
    else (if from == wpos then [] else [Place(lc, rc, from)]) + OtherWpos(lc, rc, wpos, from + 1)
  }

  /** The word position asked for first, then the others. */
  function Around(lc: nat, rc: nat, wpos: nat): seq<Place> {
    [Place(lc, rc, wpos)] + OtherWpos(lc, rc, wpos, 0)
  }

  /** Contexts backed off to silence: fillers, and those outside the word. */
  function BackedOff(sil: int, filler: seq<bool>, l: nat, r: nat, wpos: nat): (nat, nat)
    requires l < |filler| && r < |filler|
  {
    if sil < 0 then (l, r)
    else
      (if filler[l] || wpos == WORD_POSN_BEGIN || wpos == WORD_POSN_SINGLE then sil else l,
       if filler[r] || wpos == WORD_POSN_END || wpos == WORD_POSN_SINGLE then sil else r)
  }

  /** Where the nearest triphone is looked for, best first. */
  function Places(sil: int, filler: seq<bool>, l: nat, r: nat, wpos: nat): seq<Place>
    requires l < |filler| && r < |filler|
  {
    var b := BackedOff(sil, filler, l, r, wpos);
    Around(l, r, wpos) + if b != (l, r) then Around(b.0, b.1, wpos) else []
  }

  function FirstAt(n: nat, sil: int, filler: seq<bool>, added: Added, b: nat, places: seq<Place>): int
    requires |filler| == n
  {
    if places == [] then -1
    else
      var p := if places[0].lc < n && places[0].rc < n then
                 Exact(n, sil, filler, added, b, places[0].lc, places[0].rc, places[0].wpos) else -1;
      if p >= 0 then p else FirstAt(n, sil, filler, added, b, places[1..])
  }

  /** The triphone at the first place that has one, else the base phone. */
  function Nearest(n: nat, sil: int, filler: seq<bool>, added: Added, b: nat, l: int, r: int, wpos: nat): int
    requires |filler| == n && l < n && r < n
  {
    if l < 0 || r < 0 then b
    else
      var p := FirstAt(n, sil, filler, added, b, Places(sil, filler, l, r, wpos));
      if p >= 0 then p else b
  }

  /** p is the base phone b or a triphone of it. */
  ghost predicate HasBase(added: Added, p: int, b: nat) {
    p == b || exists t :: t in added && t.ci == b && added[t] == p
  }

  lemma {:induction false} FirstHasBase(n: nat, sil: int, filler: seq<bool>, added: Added, b: nat, places: seq<Place>)
    requires |filler| == n
    ensures var p := FirstAt(n, sil, filler, added, b, places); p >= 0 ==> HasBase(added, p, b)
    decreases |places|
  {
    if places != [] {
      FirstHasBase(n, sil, filler, added, b, places[1..]);
    }
  }

  /** The nearest phone always has the base asked for, and is the exact triphone when there is one. */
  lemma NearestHasBase(n: nat, sil: int, filler: seq<bool>, added: Added, b: nat, l: int, r: int, wpos: nat)
    requires |filler| == n && l < n && r < n && b < n
    ensures HasBase(added, Nearest(n, sil, filler, added, b, l, r, wpos), b)
    ensures var p := Exact(n, sil, filler, added, b, l, r, wpos);
      p >= 0 ==> Nearest(n, sil, filler, added, b, l, r, wpos) == p
  {
    if l >= 0 && r >= 0 {
      FirstHasBase(n, sil, filler, added, b, Places(sil, filler, l, r, wpos));
    }
  }

  lemma {:induction false} FirstOfTwo(n: nat, sil: int, filler: seq<bool>, added: Added, b: nat, x: seq<Place>,
      y: seq<Place>)
    requires |filler| == n
    ensures FirstAt(n, sil, filler, added, b, x + y)
         == var p := FirstAt(n, sil, filler, added, b, x); if p >= 0 then p else FirstAt(n, sil, filler, added, b, y)
    decreases |x|
  {
    if x == [] {
      assert x + y == y;
    } else {
      assert (x + y)[1..] == x[1..] + y;
      FirstOfTwo(n, sil, filler, added, b, x[1..], y);
    }
  }

  // ---- the nearest phone, said of the triphones alone

  /** The context a triphone was trained in that stands for phone p: fillers count as silence. */
  predicate IsTrained(sil: int, filler: seq<bool>, p: nat, c: nat)
    requires p < |filler|
  {
    if sil >= 0 && filler[p] then c == sil else c == p
  }

  /** Silence is assumed on the left of a word's first phone. */
  predicate IsLeft(sil: int, filler: seq<bool>, l: nat, wpos: nat, c: nat)
    requires l < |filler|
  {
    if sil >= 0 && (wpos == WORD_POSN_BEGIN || wpos == WORD_POSN_SINGLE) then c == sil else IsTrained(sil, filler, l, c)
  }

  /** And on the right of its last one. */
  predicate IsRight(sil: int, filler: seq<bool>, r: nat, wpos: nat, c: nat)
    requires r < |filler|
  {
    if sil >= 0 && (wpos == WORD_POSN_END || wpos == WORD_POSN_SINGLE) then c == sil else IsTrained(sil, filler, r, c)
  }

  predicate AnyAt(added: Added, b: nat, lc: nat, rc: nat) {
    exists v: nat :: v < N_WORD_POSN && Tri(b, lc, rc, v) in added
  }

  /** The position asked for if it has the triphone, else the lowest that has. */
  predicate IsPosition(added: Added, b: nat, lc: nat, rc: nat, wpos: nat, v: nat) {
    && v < N_WORD_POSN && Tri(b, lc, rc, v) in added
    && (v == wpos || (Tri(b, lc, rc, wpos) !in added && forall u: nat :: u < v ==> Tri(b, lc, rc, u) !in added))
  }

  ghost predicate IsNearestAt(added: Added, b: nat, lc: nat, rc: nat, wpos: nat, p: int) {
    exists v: nat :: IsPosition(added, b, lc, rc, wpos, v) && p == added[Tri(b, lc, rc, v)]
  }

  lemma {:induction false} OthersExact(n: nat, sil: int, filler: seq<bool>, added: Added, b: nat, l: nat, r: nat,
                                       wpos: nat, from: nat, lc: nat, rc: nat)
    requires |filler| == n && l < n && r < n && from <= N_WORD_POSN
    requires IsTrained(sil, filler, l, lc) && IsTrained(sil, filler, r, rc)
    ensures var p := FirstAt(n, sil, filler, added, b, OtherWpos(l, r, wpos, from));
      if p < 0 then p == -1 && forall u: nat :: from <= u < N_WORD_POSN && u != wpos ==> Tri(b, lc, rc, u) !in added
      else
        exists v: nat ::
          && from <= v < N_WORD_POSN && v != wpos && Tri(b, lc, rc, v) in added && p == added[Tri(b, lc, rc, v)]
          && forall u: nat :: from <= u < v && u != wpos ==> Tri(b, lc, rc, u) !in added
    decreases N_WORD_POSN - from
  {
    if from < N_WORD_POSN {
      OthersExact(n, sil, filler, added, b, l, r, wpos, from + 1, lc, rc);
      OtherWposStep(l, r, wpos, from);
      if from != wpos {
        FirstStep(n, sil, filler, added, b, Place(l, r, from), OtherWpos(l, r, wpos, from + 1));
      }
    }
  }

  /** What the looking around at one pair of contexts finds. */
  lemma AroundExact(n: nat, sil: int, filler: seq<bool>, added: Added, b: nat, l: nat, r: nat, wpos: nat, lc: nat,
                    rc: nat)
    requires |filler| == n && l < n && r < n && wpos < N_WORD_POSN
    requires IsTrained(sil, filler, l, lc) && IsTrained(sil, filler, r, rc)
    ensures var p := FirstAt(n, sil, filler, added, b, Around(l, r, wpos));
      if AnyAt(added, b, lc, rc) then p >= 0 && IsNearestAt(added, b, lc, rc, wpos, p) else p == -1
  {
    FirstStep(n, sil, filler, added, b, Place(l, r, wpos), OtherWpos(l, r, wpos, 0));
    OthersExact(n, sil, filler, added, b, l, r, wpos, 0, lc, rc);
    hide FirstAt, OtherWpos;
    var p := FirstAt(n, sil, filler, added, b, Around(l, r, wpos));
    if Tri(b, lc, rc, wpos) in added {
      assert IsPosition(added, b, lc, rc, wpos, wpos);
    } else if p >= 0 {
      var v: nat :| v < N_WORD_POSN && v != wpos && Tri(b, lc, rc, v) in added && p == added[Tri(b, lc, rc, v)]
        && forall u: nat :: u < v && u != wpos ==> Tri(b, lc, rc, u) !in added;
      assert IsPosition(added, b, lc, rc, wpos, v);
    }
  }

  /** The nearest phone is a triphone of b in the contexts asked for, if there is one at any word position;
      else one with silence on the side where the word begins or ends; else b itself.  Of several word
      positions it is the one asked for, and then the lowest. */
  lemma NearestExact(n: nat, sil: int, filler: seq<bool>, added: Added, b: nat, l: nat, r: nat, wpos: nat,
                     lc: nat, rc: nat, ls: nat, rs: nat)
    requires |filler| == n && sil < n && l < n && r < n && wpos < N_WORD_POSN
    requires IsTrained(sil, filler, l, lc) && IsTrained(sil, filler, r, rc)
    requires IsLeft(sil, filler, l, wpos, ls) && IsRight(sil, filler, r, wpos, rs)
    ensures var p := Nearest(n, sil, filler, added, b, l, r, wpos);
      if AnyAt(added, b, lc, rc) then IsNearestAt(added, b, lc, rc, wpos, p)
      else if AnyAt(added, b, ls, rs) then IsNearestAt(added, b, ls, rs, wpos, p)
      else p == b
  {
    assert FirstAt(n, sil, filler, added, b, []) == -1;
    hide FirstAt, Around, AnyAt, IsNearestAt;
    var o := BackedOff(sil, filler, l, r, wpos);
    var more := if o != (l, r) then Around(o.0, o.1, wpos) else [];
    AroundExact(n, sil, filler, added, b, l, r, wpos, lc, rc);
    FirstOfTwo(n, sil, filler, added, b, Around(l, r, wpos), more);
    if o != (l, r) {
      assert o.0 < n && o.1 < n && IsTrained(sil, filler, o.0, ls) && IsTrained(sil, filler, o.1, rs);
      AroundExact(n, sil, filler, added, b, o.0, o.1, wpos, ls, rs);
    } else {
      assert (ls, rs) == (lc, rc);
    }
  }

  lemma FirstStep(n: nat, sil: int, filler: seq<bool>, added: Added, b: nat, place: Place, rest: seq<Place>)
    requires |filler| == n && place.lc < n && place.rc < n
    ensures FirstAt(n, sil, filler, added, b, [place] + rest)
         == var p := Exact(n, sil, filler, added, b, place.lc, place.rc, place.wpos);
            if p >= 0 then p else FirstAt(n, sil, filler, added, b, rest)
  {
    assert ([place] + rest)[1..] == rest;
  }

  lemma OtherWposStep(lc: nat, rc: nat, wpos: nat, from: nat)
    requires from < N_WORD_POSN
    ensures from == wpos ==> OtherWpos(lc, rc, wpos, from) == OtherWpos(lc, rc, wpos, from + 1)
    ensures from != wpos ==> OtherWpos(lc, rc, wpos, from) == [Place(lc, rc, from)] + OtherWpos(lc, rc, wpos, from + 1)
    ensures OtherWpos(lc, rc, wpos, N_WORD_POSN) == []
  {
  }

  class BinMdef {
    const n: nat
    const sil: int
    const filler: seq<bool>
    ghost const rows: Rows
    ghost const added: Added
    const cdTree: array<Node>

    ghost predicate Valid()
      reads this, cdTree
    {
      && -1 <= sil < n && |filler| == n && Holds(n, rows, added) && IsTree(n, rows, cdTree[..])
    }

    /** The counting of one row's nodes. */
    static method CountRow(row: Row) returns (nodes: nat, lcs: nat)
      ensures lcs == |row| && nodes == |row| + RcCount(row, |row|)
    {
      nodes, lcs := 0, 0;
      for m := 0 to |row|
        invariant lcs == m && nodes == m + RcCount(row, m)
      {
        ghost var before := nodes;
        for i := 0 to |row[m].rcs|
          invariant nodes == before + i
        {
          nodes := nodes + 1;
        }
        nodes := nodes + 1;
        lcs := lcs + 1;
      }
    }

    /** The first walk over the lists: the number of nodes and where each level starts. */
    static method Count(n: nat, rows: Rows) returns (nodes: nat, ciIdx: nat, lcIdx: nat, rcIdx: nat)
      requires |rows| == N_WORD_POSN * n
      ensures nodes == TreeSize(rows) && ciIdx == N_WORD_POSN
      ensures lcIdx == LcStart(rows, 0) && rcIdx == RcStart(rows, 0)
    {
      nodes, ciIdx, lcIdx, rcIdx := 0, 0, 0, 0;
      var k := 0;
      assert rows[..0] == [] && rows[..|rows|] == rows && LcTotal([]) == 0 && RcTotal([]) == 0;
      RowSteps(n, 0, 0);
      hide LcTotal, RcTotal, RcCount, RowOf;
      for w := 0 to N_WORD_POSN
        invariant k == RowOf(n, w, 0) <= |rows|
        invariant ciIdx == w && lcIdx == w + k && rcIdx == w + k + LcTotal(rows[..k])
        invariant nodes == w + k + LcTotal(rows[..k]) + RcTotal(rows[..k])
      {
        for c := 0 to n
          invariant k == RowOf(n, w, c) <= |rows|
          invariant lcIdx == w + k && rcIdx == w + k + LcTotal(rows[..k])
          invariant nodes == w + k + LcTotal(rows[..k]) + RcTotal(rows[..k])
        {
          RowInRange(n, w, c);
          RowSteps(n, w, c);
          NextTotal(rows, k);
          var more, lcs := CountRow(rows[k]);
          nodes := nodes + more + 1;
          rcIdx := rcIdx + lcs + 1;
          lcIdx := lcIdx + 1;
          k := k + 1;
        }
        RowSteps(n, w, 0);
        nodes, ciIdx, lcIdx, rcIdx := nodes + 1, ciIdx + 1, lcIdx + 1, rcIdx + 1;
      }
    }

    /** The right contexts of one left context, counted into its node. */
    static method FillRcs(tree: array<Node>, rcs: seq<Rc>, lcIdx: nat, rcIdx0: nat) returns (rcIdx: nat)
      requires lcIdx < rcIdx0 && rcIdx0 + |rcs| <= tree.Length
      modifies tree
      ensures rcIdx == rcIdx0 + |rcs| && RcsAt(tree[..], rcs, rcIdx0)
      ensures tree[lcIdx] == old(tree[lcIdx]).(nDown := old(tree[lcIdx].nDown) + |rcs|)
      ensures forall k :: 0 <= k < tree.Length && k != lcIdx && !(rcIdx0 <= k < rcIdx) ==> tree[k] == old(tree[k])
    {
      rcIdx := rcIdx0;
      for i := 0 to |rcs|
        invariant rcIdx == rcIdx0 + i
        invariant forall k :: rcIdx0 <= k < rcIdx ==> tree[k] == RcNode(rcs[k - rcIdx0])
        invariant tree[lcIdx] == old(tree[lcIdx]).(nDown := old(tree[lcIdx].nDown) + i)
        invariant forall k :: 0 <= k < tree.Length && k != lcIdx && !(rcIdx0 <= k < rcIdx) ==> tree[k] == old(tree[k])
      {
        tree[rcIdx] := RcNode(rcs[i]);
        tree[lcIdx] := tree[lcIdx].(nDown := tree[lcIdx].nDown + 1);
        rcIdx := rcIdx + 1;
      }
    }

    /** A row of whose left contexts m are done. */
    static ghost predicate RowFilling(t: seq<Node>, ci: nat, row: Row, m: nat, ciIdx: nat, lcStart: nat, rcStart: nat) {
      && m <= |row| && ciIdx < lcStart && lcStart + |row| <= rcStart && rcStart + RcCount(row, |row|) <= |t|
      && t[ciIdx] == Node(ci, m, lcStart)
      && (forall k :: lcStart + m <= k < lcStart + |row| ==> t[k].nDown == 0)
      && (forall i :: 0 <= i < m ==> LcAt(t, row, i, lcStart, rcStart))
    }

    static lemma StillLcAt(t: seq<Node>, t': seq<Node>, row: Row, i: nat, m: nat, lcStart: nat, rcStart: nat)
      requires i < m <= |row| && |t| == |t'| && LcAt(t, row, i, lcStart, rcStart)
      requires forall k :: lcStart <= k < lcStart + m && k < |t| ==> t'[k] == t[k]
      requires forall k :: rcStart <= k < rcStart + RcCount(row, m) && k < |t| ==> t'[k] == t[k]
      ensures LcAt(t', row, i, lcStart, rcStart)
    {
      RcCountOrdered(row, i + 1, m);
    }

    /** One left context. */
    static method FillLc(tree: array<Node>, ci: nat, row: Row, m: nat, ciIdx: nat, lcIdx0: nat, rcIdx0: nat)
      returns (rcIdx: nat)
      requires m < |row| && RowFilling(tree[..], ci, row, m, ciIdx, lcIdx0, rcIdx0)
      modifies tree
      ensures rcIdx == rcIdx0 + RcCount(row, m + 1) && RowFilling(tree[..], ci, row, m + 1, ciIdx, lcIdx0, rcIdx0)
      ensures var from := rcIdx0 + RcCount(row, m);
        forall k :: 0 <= k < tree.Length && k != ciIdx && k != lcIdx0 + m && !(from <= k < rcIdx) ==>
          tree[k] == old(tree[k])
    {
      RcCountOrdered(row, m + 1, |row|);
      ghost var was := tree[..];
      var lcIdx := lcIdx0 + m;
      rcIdx := rcIdx0 + RcCount(row, m);
      tree[lcIdx] := Node(row[m].lc, tree[lcIdx].nDown, rcIdx);
      rcIdx := FillRcs(tree, row[m].rcs, lcIdx, rcIdx);
      if tree[lcIdx].nDown == 0 {
        tree[lcIdx] := tree[lcIdx].(down := -1);
      }
      tree[ciIdx] := tree[ciIdx].(nDown := tree[ciIdx].nDown + 1);
      assert LcAt(tree[..], row, m, lcIdx0, rcIdx0);
      assert RcCount(row, m + 1) == RcCount(row, m) + |row[m].rcs|;
      hide LcAt, RcCount, RcsAt;
      forall i | 0 <= i < m ensures LcAt(tree[..], row, i, lcIdx0, rcIdx0) {
        StillLcAt(was, tree[..], row, i, m, lcIdx0, rcIdx0);
      }
    }

    /** One row: its node, its left contexts and their right contexts. */
    static method FillRow(tree: array<Node>, ci: nat, row: Row, ciIdx: nat, lcIdx0: nat, rcIdx0: nat)
      returns (lcIdx: nat, rcIdx: nat)
      requires ciIdx < lcIdx0 && lcIdx0 + |row| <= rcIdx0 && rcIdx0 + RcCount(row, |row|) <= tree.Length
      requires tree[ciIdx].nDown == 0 && forall k :: lcIdx0 <= k < lcIdx0 + |row| ==> tree[k].nDown == 0
      modifies tree
      ensures lcIdx == lcIdx0 + |row| && rcIdx == rcIdx0 + RcCount(row, |row|)
      ensures RowAt(tree[..], ci, row, ciIdx, lcIdx0, rcIdx0)
      ensures forall k :: 0 <= k < tree.Length && k != ciIdx && !(lcIdx0 <= k < lcIdx) && !(rcIdx0 <= k < rcIdx) ==>
        tree[k] == old(tree[k])
    {
      lcIdx, rcIdx := lcIdx0, rcIdx0;
      tree[ciIdx] := Node(ci, tree[ciIdx].nDown, lcIdx);
      for m := 0 to |row|
        invariant lcIdx == lcIdx0 + m && rcIdx == rcIdx0 + RcCount(row, m)
        invariant RowFilling(tree[..], ci, row, m, ciIdx, lcIdx0, rcIdx0)
        invariant forall k :: 0 <= k < tree.Length && k != ciIdx && !(lcIdx0 <= k < lcIdx) && !(rcIdx0 <= k < rcIdx) ==>
          tree[k] == old(tree[k])
      {
        hide RowFilling;
        rcIdx := FillLc(tree, ci, row, m, ciIdx, lcIdx0, rcIdx0);
        lcIdx := lcIdx + 1;
      }
      if tree[ciIdx].nDown == 0 {
        tree[ciIdx] := tree[ciIdx].(down := -1);
      }
    }

    /** The rows before (wpos, ci) are placed. */
    static ghost predicate PlacedBefore(n: nat, rows: Rows, t: seq<Node>, wpos: nat, ci: nat) {
      forall w: nat, c: nat :: c < n && (w < wpos || (w == wpos && c < ci)) ==> RowPlaced(n, rows, t, w, c)
    }

    /** What a later row's nodes leave alone. */
    static lemma StillPlaced(n: nat, rows: Rows, t: seq<Node>, t': seq<Node>, w: nat, c: nat, k: nat)
      requires RowPlaced(n, rows, t, w, c) && |t| == |t'| && RowOf(n, w, c) < k <= |rows|
      requires forall j :: N_WORD_POSN <= j < |t| && j < N_WORD_POSN + k ==> t[j] == t'[j]
      requires forall j :: LcStart(rows, 0) <= j < LcStart(rows, k) && j < |t| ==> t[j] == t'[j]
      requires forall j :: RcStart(rows, 0) <= j < RcStart(rows, k) && j < |t| ==> t[j] == t'[j]
      ensures RowPlaced(n, rows, t', w, c)
    {
      var j := RowOf(n, w, c);
      var row := rows[j];
      NextStart(rows, j);
      StartsOrdered(rows, 0, j);
      StartsOrdered(rows, j + 1, k);
      hide RowOf, LcStart, RcStart;
      forall m | 0 <= m < |row| ensures LcAt(t', row, m, LcStart(rows, j), RcStart(rows, j)) {
        assert LcAt(t, row, m, LcStart(rows, j), RcStart(rows, j));
        RcCountOrdered(row, m + 1, |row|);
      }
    }

    /** The state of the second walk before row k, which is (w, c), with the first `wposDone` top nodes done. */
    static ghost predicate Filling(n: nat, rows: Rows, t: seq<Node>, wposDone: nat, w: nat, c: nat, k: nat) {
      && |rows| == N_WORD_POSN * n && |t| == TreeSize(rows) && k == RowOf(n, w, c) <= |rows| && wposDone <= N_WORD_POSN
      && (forall j :: 0 <= j < wposDone ==> t[j] == Node(j, n, N_WORD_POSN + RowOf(n, j, 0)))
      && PlacedBefore(n, rows, t, w, c)
      && (forall j :: N_WORD_POSN + k <= j < LcStart(rows, 0) && j < |t| ==> t[j].nDown == 0)
      && (forall j :: LcStart(rows, k) <= j < RcStart(rows, 0) && j < |t| ==> t[j].nDown == 0)
    }

    static lemma RegionsInside(rows: Rows, k: nat)
      requires k < |rows|
      ensures N_WORD_POSN + k < LcStart(rows, 0) <= LcStart(rows, k)
      ensures LcStart(rows, k) + |rows[k]| == LcStart(rows, k + 1) <= RcStart(rows, 0) <= RcStart(rows, k)
      ensures RcStart(rows, k) + RcCount(rows[k], |rows[k]|) == RcStart(rows, k + 1) <= TreeSize(rows)
    {
      NextStart(rows, k);
      StartsOrdered(rows, 0, k);
      StartsOrdered(rows, k + 1, |rows|);
      RegionsAdjacent(rows);
    }

    /** One row of the second walk. */
    static method FillNext(n: nat, rows: Rows, tree: array<Node>, w: nat, c: nat, k: nat, lcIdx0: nat, rcIdx0: nat)
      returns (lcIdx: nat, rcIdx: nat)
      requires w < N_WORD_POSN && c < n && Filling(n, rows, tree[..], w + 1, w, c, k)
      requires lcIdx0 == LcStart(rows, k) && rcIdx0 == RcStart(rows, k)
      modifies tree
      ensures k < |rows| && lcIdx == LcStart(rows, k + 1) && rcIdx == RcStart(rows, k + 1)
      ensures Filling(n, rows, tree[..], w + 1, w, c + 1, k + 1)
    {
      RowInRange(n, w, c);
      RegionsInside(rows, k);
      ghost var was := tree[..];
      lcIdx, rcIdx := FillRow(tree, c, rows[k], N_WORD_POSN + k, lcIdx0, rcIdx0);
      ghost var t := tree[..];
      RowSteps(n, w, c);
      hide LcStart, RcStart, TreeSize, RowAt, RowOf;
      forall w': nat, c': nat | c' < n && (w' < w || (w' == w && c' < c + 1)) ensures RowPlaced(n, rows, t, w', c') {
        if w' < w || c' < c {
          assert RowPlaced(n, rows, was, w', c');
          RowsOrdered(n, w', c', w, c);
          StillPlaced(n, rows, was, t, w', c', k);
        }
      }
    }

    static lemma RowsOrdered(n: nat, w': nat, c': nat, w: nat, c: nat)
      requires c' < n && (w' < w || (w' == w && c' < c))
      ensures RowOf(n, w', c') < RowOf(n, w, c)
    {
      var d := w - w';
      assert w * n == w' * n + d * n;
      MulBound(n, d);
    }

    /** A top node, before the rows of its word position. */
    static method FillWpos(n: nat, rows: Rows, tree: array<Node>, w: nat, k: nat)
      requires w < N_WORD_POSN && Filling(n, rows, tree[..], w, w, 0, k)
      modifies tree
      ensures Filling(n, rows, tree[..], w + 1, w, 0, k)
    {
      RegionsAdjacent(rows);
      ghost var was := tree[..];
      tree[w] := Node(w, n, N_WORD_POSN + k);
      ghost var t := tree[..];
      hide LcTotal, RcTotal, RowAt, RowOf;
      forall w': nat, c: nat | c < n && w' < w ensures RowPlaced(n, rows, t, w', c) {
        assert RowPlaced(n, rows, was, w', c);
        StillPlaced(n, rows, was, t, w', c, |rows|);
      }
    }

    static lemma NextWpos(n: nat, rows: Rows, t: seq<Node>, w: nat, k: nat)
      requires Filling(n, rows, t, w + 1, w, n, k)
      ensures Filling(n, rows, t, w + 1, w + 1, 0, k)
    {
      RowSteps(n, w, 0);
      hide RowOf, RowPlaced;
    }

    /** The second walk: three cursors fill three adjacent regions. */
    static method Fill(n: nat, rows: Rows, tree: array<Node>, ciIdx: nat, lcIdx0: nat, rcIdx0: nat)
      requires |rows| == N_WORD_POSN * n && tree.Length == TreeSize(rows)
      requires ciIdx == N_WORD_POSN && lcIdx0 == LcStart(rows, 0) && rcIdx0 == RcStart(rows, 0)
      requires forall k :: 0 <= k < tree.Length ==> tree[k].nDown == 0
      modifies tree
      ensures IsTree(n, rows, tree[..])
    {
      var k, lcIdx, rcIdx := 0, lcIdx0, rcIdx0;
      RowSteps(n, 0, 0);
      assert Filling(n, rows, tree[..], 0, 0, 0, 0);
      for w := 0 to N_WORD_POSN
        invariant Filling(n, rows, tree[..], w, w, 0, k)
        invariant k <= |rows| && lcIdx == LcStart(rows, k) && rcIdx == RcStart(rows, k)
      {
        hide Filling, LcStart, RcStart;
        FillWpos(n, rows, tree, w, k);
        for c := 0 to n
          invariant Filling(n, rows, tree[..], w + 1, w, c, k)
          invariant k <= |rows| && lcIdx == LcStart(rows, k) && rcIdx == RcStart(rows, k)
        {
          lcIdx, rcIdx := FillNext(n, rows, tree, w, c, k, lcIdx, rcIdx);
          k := k + 1;
        }
        NextWpos(n, rows, tree[..], w, k);
      }
    }

    /** The flattening of bin_mdef_read_text. */
    constructor (text: Text, sil: int, filler: seq<bool>)
      requires text.Valid() && -1 <= sil < text.n && |filler| == text.n
      ensures Valid() && n == text.n && added == text.added && this.sil == sil && this.filler == filler
      ensures cdTree.Length == TreeSize(text.rows)
    {
      n, this.sil, this.filler := text.n, sil, filler;
      rows, added := text.rows, text.added;
      var nodes, ciIdx, lcIdx, rcIdx := Count(text.n, text.rows);
      var tree := new Node[nodes](_ => Node(0, 0, 0));
      Fill(text.n, text.rows, tree, ciIdx, lcIdx, rcIdx);
      cdTree := tree;
    }

    /** The search of one level of the tree. */
    method FindCtx(base: nat, max: nat, ctx: int) returns (i: nat)
      requires base + max <= cdTree.Length
      ensures IsFirstCtx(cdTree[..], base, max, ctx, i)
    {
      i := 0;
      while i < max && cdTree[base + i].ctx != ctx
        invariant i <= max && forall k :: base <= k < base + i ==> cdTree[k].ctx != ctx
      {
        i := i + 1;
      }
    }

    /** Which nodes are searched at a level on the way down to a triphone. */
    ghost predicate AtLevel(t: Tri, level: nat, base: nat, max: nat)
      requires Valid() && IsTri(n, t)
      reads this, cdTree
    {
      RowInRange(n, t.wpos, t.ci);
      var k := RowOf(n, t.wpos, t.ci);
      var row := rows[k];
      var m := FindLc(row, t.lc);
      match level
      case 0 => base == 0 && max == N_WORD_POSN
      case 1 => base == N_WORD_POSN + RowOf(n, t.wpos, 0) && max == n
      case 2 => base == LcStart(rows, k) && max == |row|
      case 3 => m < |row| && base == RcStart(rows, k) + RcCount(row, m) && max == |row[m].rcs|
      case _ => false
    }

    lemma LevelInside(t: Tri, level: nat, base: nat, max: nat)
      requires Valid() && IsTri(n, t) && AtLevel(t, level, base, max)
      ensures base + max <= cdTree.Length
    {
      RowInRange(n, t.wpos, t.ci);
      RowInRange(n, t.wpos, 0);
      var k := RowOf(n, t.wpos, t.ci);
      RegionsInside(rows, k);
      if level == 3 {
        RcCountOrdered(rows[k], FindLc(rows[k], t.lc) + 1, |rows[k]|);
      }
    }

    /** What a level's search decides: not found means no such triphone; a leaf holds the answer; otherwise
        its children are next. */
    ghost predicate Decides(t: Tri, level: nat, base: nat, max: nat, i: nat)
      requires Valid() && IsTri(n, t)
      reads this, cdTree
    {
      if i >= max || base + i >= cdTree.Length then ListPid(n, rows, t) == -1
      else
        var v := cdTree[base + i];
        if v.nDown == 0 then ListPid(n, rows, t) == v.down
        else v.down >= 0 && AtLevel(t, level + 1, v.down, v.nDown)
    }

    lemma TopStep(t: Tri, level: nat, base: nat, max: nat, i: nat)
      requires Valid() && IsTri(n, t) && AtLevel(t, level, base, max) && level < 2
      requires IsFirstCtx(cdTree[..], base, max, [t.wpos, t.ci][level], i)
      ensures i < max && Decides(t, level, base, max, i)
    {
      RowInRange(n, t.wpos, t.ci);
      hide Holds, RowOf, LcStart, RcStart, TreeSize;
      assert RowPlaced(n, rows, cdTree[..], t.wpos, t.ci);
      if level == 0 {
        WposLevel(n, rows, cdTree[..], t.wpos, i);
      } else {
        CiLevel(n, rows, cdTree[..], t.wpos, t.ci, i);
      }
    }

    lemma LcStep(t: Tri, base: nat, max: nat, i: nat)
      requires Valid() && IsTri(n, t) && AtLevel(t, 2, base, max)
      requires IsFirstCtx(cdTree[..], base, max, t.lc, i)
      ensures Decides(t, 2, base, max, i)
    {
      RowInRange(n, t.wpos, t.ci);
      var k := RowOf(n, t.wpos, t.ci);
      assert RowPlaced(n, rows, cdTree[..], t.wpos, t.ci);
      hide Holds, RowOf, LcStart, RcStart, TreeSize, IsTree;
      LcLevel(cdTree[..], t.ci, rows[k], N_WORD_POSN + k, LcStart(rows, k), RcStart(rows, k), t.lc, i);
    }

    lemma RcStep(t: Tri, base: nat, max: nat, i: nat)
      requires Valid() && IsTri(n, t) && AtLevel(t, 3, base, max)
      requires IsFirstCtx(cdTree[..], base, max, t.rc, i)
      ensures Decides(t, 3, base, max, i)
    {
      RowInRange(n, t.wpos, t.ci);
      var k := RowOf(n, t.wpos, t.ci);
      assert RowPlaced(n, rows, cdTree[..], t.wpos, t.ci);
      hide Holds, RowOf, LcStart, RcStart, TreeSize, IsTree;
      var m := FindLc(rows[k], t.lc);
      assert LcAt(cdTree[..], rows[k], m, LcStart(rows, k), RcStart(rows, k));
      RcLevel(cdTree[..], rows[k][m].rcs, base, t.rc, i);
    }

    lemma LevelStep(t: Tri, level: nat, base: nat, max: nat, i: nat)
      requires Valid() && IsTri(n, t) && AtLevel(t, level, base, max) && level < 4
      requires IsFirstCtx(cdTree[..], base, max, [t.wpos, t.ci, t.lc, t.rc][level], i)
      ensures Decides(t, level, base, max, i)
    {
      hide Valid, AtLevel, IsFirstCtx, Decides;
      if level < 2 {
        TopStep(t, level, base, max, i);
      } else if level == 2 {
        LcStep(t, base, max, i);
      } else {
        RcStep(t, base, max, i);
      }
    }

    /** The walk down the tree. */
    method Walk(ctx: seq<nat>, ghost t: Tri) returns (p: int)
      requires Valid() && IsTri(n, t) && ctx == [t.wpos, t.ci, t.lc, t.rc]
      ensures p == ListPid(n, rows, t)
    {
      TopLevel(t);
      assert n >= 0 && N_WORD_POSN <= cdTree.Length;
      hide AtLevel, Holds, IsTree, ListPid;
      var base: nat, level: nat, max: nat := 0, 0, N_WORD_POSN;
      while level < 4
        invariant level <= 4 && AtLevel(t, level, base, max)
        decreases 4 - level
      {
        LevelInside(t, level, base, max);
        var i := FindCtx(base, max, ctx[level]);
        hide Valid, IsFirstCtx;
        LevelStep(t, level, base, max, i);
        if i == max {
          return -1;
        }
        if cdTree[base + i].nDown == 0 {
          return cdTree[base + i].down;
        }
        base, max := cdTree[base + i].down, cdTree[base + i].nDown;
        level := level + 1;
      }
      NoSuchLevel(t, level, base, max);
      p := -1;
    }

    /** bin_mdef_phone_id. */
    method PhoneId(ci: nat, lc: int, rc: int, wpos: nat) returns (p: int)
      requires Valid() && ci < n && lc < n && rc < n && wpos < N_WORD_POSN
      ensures p == Exact(n, sil, filler, added, ci, lc, rc, wpos)
      ensures lc < 0 || rc < 0 ==> p == ci
      ensures lc >= 0 && rc >= 0 ==> forall l: nat, r: nat ::
        IsTrained(sil, filler, lc, l) && IsTrained(sil, filler, rc, r) ==>
          p == if Tri(ci, l, r, wpos) in added then added[Tri(ci, l, r, wpos)] else -1
    {
      if lc < 0 || rc < 0 {
        return ci;
      }
      var lctx: nat := if sil >= 0 && filler[lc] then sil else lc;
      var rctx: nat := if sil >= 0 && filler[rc] then sil else rc;
      ghost var t := Tri(ci, lctx, rctx, wpos);
      assert IsTri(n, t);
      assert ListPid(n, rows, t) == if t in added then added[t] else -1;
      hide Holds, IsTree, ListPid;
      p := Walk([wpos, ci, lctx, rctx], t);
    }

    lemma Sized()
      requires Valid()
      ensures |filler| == n
    {
    }

    /** The backing off to other word positions. */
    method PhoneIdOthers(b: nat, l: nat, r: nat, pos: nat) returns (p: int)
      requires Valid() && b < n && l < n && r < n && pos < N_WORD_POSN
      ensures p == FirstAt(n, sil, filler, added, b, OtherWpos(l, r, pos, 0))
    {
      hide Valid, Exact, OtherWpos, IsTrained;
      Sized();
      assert FirstAt(n, sil, filler, added, b, []) == -1;
      hide FirstAt;
      OtherWposStep(l, r, pos, 0);
      for tmppos := 0 to N_WORD_POSN
        invariant FirstAt(n, sil, filler, added, b, OtherWpos(l, r, pos, 0))
               == FirstAt(n, sil, filler, added, b, OtherWpos(l, r, pos, tmppos))
      {
        OtherWposStep(l, r, pos, tmppos);
        if tmppos != pos {
          FirstStep(n, sil, filler, added, b, Place(l, r, tmppos), OtherWpos(l, r, pos, tmppos + 1));
          p := PhoneId(b, l, r, tmppos);
          if p >= 0 {
            return;
          }
        }
      }
      p := -1;
    }

    /** The exact word position, then the others. */
    method PhoneIdAround(b: nat, l: nat, r: nat, pos: nat) returns (p: int)
      requires Valid() && b < n && l < n && r < n && pos < N_WORD_POSN
      ensures p == FirstAt(n, sil, filler, added, b, Around(l, r, pos))
    {
      FirstStep(n, sil, filler, added, b, Place(l, r, pos), OtherWpos(l, r, pos, 0));
      hide Valid, FirstAt, Exact, OtherWpos;
      p := PhoneId(b, l, r, pos);
      if p < 0 {
        p := PhoneIdOthers(b, l, r, pos);
      }
    }

    /** bin_mdef_phone_id_nearest. */
    method PhoneIdNearest(b: nat, l: int, r: int, pos: nat) returns (p: int)
      requires Valid() && b < n && l < n && r < n && pos < N_WORD_POSN
      ensures p == Nearest(n, sil, filler, added, b, l, r, pos)
      ensures l < 0 || r < 0 ==> p == b
    {
      if l < 0 || r < 0 {
        return b;
      }
      var newl: nat, newr: nat := l, r;
      if sil >= 0 {
        if filler[l] || pos == WORD_POSN_BEGIN || pos == WORD_POSN_SINGLE {
          newl := sil;
        }
        if filler[r] || pos == WORD_POSN_END || pos == WORD_POSN_SINGLE {
          newr := sil;
        }
      }
      ghost var more := if (newl, newr) != (l as nat, r as nat) then Around(newl, newr, pos) else [];
      assert Places(sil, filler, l, r, pos) == Around(l, r, pos) + more;
      FirstOfTwo(n, sil, filler, added, b, Around(l, r, pos), more);
      hide Around, Places;
      p := PhoneIdAround(b, l, r, pos);
      if p >= 0 {
        return;
      }
      if newl != l || newr != r {
        p := PhoneIdAround(b, newl, newr, pos);
        if p >= 0 {
          return;
        }
      }
      p := b;
    }

    lemma TopLevel(t: Tri)
      requires Valid() && IsTri(n, t)
      ensures AtLevel(t, 0, 0, N_WORD_POSN)
    {
    }

    lemma NoSuchLevel(t: Tri, level: nat, base: nat, max: nat)
      requires Valid() && IsTri(n, t)
      ensures level >= 4 ==> !AtLevel(t, level, base, max)
    {
    }
  }
}
