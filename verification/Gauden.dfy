/** The n best codewords of a codebook for an observation (src/ms_gauden.c), with densities as reals. */
module Gauden {

  const WORST_DIST: real := -2147483648.0

  datatype Dist = Dist(id: int, dist: real)

  /** One stream of a codebook; `v` holds precisions. */
  datatype Codebook = Codebook(mean: seq<seq<real>>, v: seq<seq<real>>, det: seq<real>)

  predicate IsCodebook(g: Codebook, featlen: nat) {
    && |g.mean| == |g.v| == |g.det|
    && (forall d :: 0 <= d < |g.det| ==> |g.mean[d]| == featlen && |g.v[d]| == featlen)
    && (forall d, i :: 0 <= d < |g.det| && 0 <= i < featlen ==> g.v[d][i] >= 0.0)
  }

  /** The density of codeword d after the first i elements. */
  function Partial(g: Codebook, obs: seq<real>, d: nat, i: nat): real
    requires IsCodebook(g, |obs|) && d < |g.det| && i <= |obs|
  {
    if i == 0 then g.det[d]
    else
      var diff := obs[i - 1] - g.mean[d][i - 1];
      Partial(g, obs, d, i - 1) - diff * diff * g.v[d][i - 1]
  }

  /** The values that the full computation gives. */
  function Values(g: Codebook, obs: seq<real>): (vals: seq<real>)
    requires IsCodebook(g, |obs|)
    ensures |vals| == |g.det|
  {
    seq(|g.det|, d requires 0 <= d < |g.det| => Partial(g, obs, d, |obs|))
  }

  function Sum(xs: seq<real>): real {
    if xs == [] then 0.0 else xs[0] + Sum(xs[1..])
  }

  lemma {:induction false} SumSnoc(xs: seq<real>, x: real)
    ensures Sum(xs + [x]) == Sum(xs) + x
  {
    if xs == [] {
      assert [] + [x] == [x] && [x][1..] == [];
    } else {
      assert (xs + [x])[0] == xs[0] && (xs + [x])[1..] == xs[1..] + [x];
      SumSnoc(xs[1..], x);
    }
  }

  /** The squared distance of one element of the observation from the codeword's mean, weighted with its precision. */
  function Distance(g: Codebook, obs: seq<real>, d: nat, i: nat): real
    requires IsCodebook(g, |obs|) && d < |g.det| && i < |obs|
  {
    (obs[i] - g.mean[d][i]) * (obs[i] - g.mean[d][i]) * g.v[d][i]
  }

  function Distances(g: Codebook, obs: seq<real>, d: nat, n: nat): (r: seq<real>)
    requires IsCodebook(g, |obs|) && d < |g.det| && n <= |obs|
    ensures |r| == n
  {
    seq(n, i requires 0 <= i < n => Distance(g, obs, d, i))
  }

  /** A codeword's value is its determinant less the sum of these. */
  lemma {:induction false} PartialIsDistance(g: Codebook, obs: seq<real>, d: nat, n: nat)
    requires IsCodebook(g, |obs|) && d < |g.det| && n <= |obs|
    ensures Partial(g, obs, d, n) == g.det[d] - Sum(Distances(g, obs, d, n))
    decreases n
  {
    if n > 0 {
      PartialIsDistance(g, obs, d, n - 1);
      var before, last := Distances(g, obs, d, n - 1), Distance(g, obs, d, n - 1);
      SumSnoc(before, last);
      assert Partial(g, obs, d, n) == Partial(g, obs, d, n - 1) - last;
      hide Distance;
      assert Distances(g, obs, d, n) == before + [last];
    }
  }

  lemma ValuesAre(g: Codebook, obs: seq<real>)
    requires IsCodebook(g, |obs|)
    ensures forall d :: 0 <= d < |g.det| ==> Values(g, obs)[d] == g.det[d] - Sum(Distances(g, obs, d, |obs|))
  {
    forall d | 0 <= d < |g.det| ensures Values(g, obs)[d] == g.det[d] - Sum(Distances(g, obs, d, |obs|)) {
      PartialIsDistance(g, obs, d, |obs|);
    }
  }

  lemma TermPositive(x: real, p: real)
    requires p >= 0.0
    ensures x * x * p >= 0.0
  {
    assert x * x >= 0.0;
  }

  /** Densities only fall as elements are added, so a codeword may be abandoned early. */
  lemma {:induction false} PartialFalls(g: Codebook, obs: seq<real>, d: nat, i: nat, j: nat)
    requires IsCodebook(g, |obs|) && d < |g.det| && i <= j <= |obs|
    ensures Partial(g, obs, d, j) <= Partial(g, obs, d, i)
    decreases j
  {
    if i < j {
      PartialFalls(g, obs, d, i, j - 1);
      TermPositive(obs[j - 1] - g.mean[d][j - 1], g.v[d][j - 1]);
    }
  }

  // ---- what the selection must be

  /** a is listed before b: a better density, or the same of a later codeword. */
  predicate Before(a: Dist, b: Dist) {
    a.dist > b.dist || (a.dist == b.dist && a.id > b.id)
  }

  predicate Ordered(out: seq<Dist>) {
    forall i, j :: 0 <= i < j < |out| ==> Before(out[i], out[j])
  }

  predicate Lists(out: seq<Dist>, e: int) {
    exists i :: 0 <= i < |out| && out[i].id == e
  }

  /** The |out| best of all codewords, in worsening order, the later codeword first on ties. */
  predicate IsTopN(out: seq<Dist>, vals: seq<real>) {
    && (forall i :: 0 <= i < |out| ==> 0 <= out[i].id < |vals| && out[i].dist == vals[out[i].id])
    && Ordered(out)
    && (forall e :: 0 <= e < |vals| && !Lists(out, e) ==> AfterAll(out, Dist(e, vals[e])))
  }

  predicate AfterAll(out: seq<Dist>, b: Dist) {
    forall i :: 0 <= i < |out| ==> Before(out[i], b)
  }

  /** How many codewords reach the floor. */
  function Good(vals: seq<real>, d: nat): (n: nat)
    requires d <= |vals|
    ensures n <= d
  {
    if d == 0 then 0 else Good(vals, d - 1) + if vals[d - 1] >= WORST_DIST then 1 else 0
  }

  function Min(a: nat, b: nat): nat {
    if a < b then a else b
  }

  /** The first c entries are codewords below d that reach the floor. */
  predicate Real(out: seq<Dist>, c: nat, vals: seq<real>, d: nat)
    requires c <= |out| && d <= |vals|
  {
    forall i :: 0 <= i < c ==> 0 <= out[i].id < d && out[i].dist == vals[out[i].id] && out[i].dist >= WORST_DIST
  }

  predicate Floor(out: seq<Dist>, c: nat) {
    forall i :: c <= i < |out| ==> out[i].dist == WORST_DIST
  }

  /** A codeword that reaches the floor is listed, or after all of a full list. */
  predicate Placed(out: seq<Dist>, c: nat, b: Dist)
    requires c <= |out|
  {
    Lists(out[..c], b.id) || (c == |out| && AfterAll(out, b))
  }

  predicate AllPlaced(out: seq<Dist>, c: nat, vals: seq<real>, d: nat)
    requires c <= |out| && d <= |vals|
  {
    forall e :: 0 <= e < d && vals[e] >= WORST_DIST ==> Placed(out, c, Dist(e, vals[e]))
  }

  /** The list after d codewords: the best of those that reach the floor, then unused slots at the floor. */
  predicate Listed(out: seq<Dist>, vals: seq<real>, d: nat)
    requires d <= |vals|
  {
    var c := Min(|out|, Good(vals, d));
    Real(out, c, vals, d) && Floor(out, c) && Ordered(out[..c]) && AllPlaced(out, c, vals, d)
  }

  lemma NothingListed(out: seq<Dist>, vals: seq<real>)
    requires forall i :: 0 <= i < |out| ==> out[i].dist == WORST_DIST
    ensures Listed(out, vals, 0)
  {
  }

  /** A codeword worse than the worst listed one changes nothing. */
  lemma SkipListed(out: seq<Dist>, vals: seq<real>, d: nat)
    requires out != [] && d < |vals| && Listed(out, vals, d) && vals[d] < out[|out| - 1].dist
    ensures Listed(out, vals, d + 1)
  {
    var c := Min(|out|, Good(vals, d));
    if vals[d] >= WORST_DIST {
      assert c == |out|;
      WorseAfterAll(out, Dist(d, vals[d]));
    }
    hide AfterAll, Lists, Ordered;
  }

  lemma WorseAfterAll(out: seq<Dist>, b: Dist)
    requires out != [] && Ordered(out[..|out|]) && b.dist < out[|out| - 1].dist
    ensures AfterAll(out, b)
  {
    assert out[..|out|] == out;
    forall i | 0 <= i < |out| ensures Before(out[i], b) {
      assert i < |out| - 1 ==> Before(out[i], out[|out| - 1]);
    }
  }

  /** The insertion of a codeword at its place, the last entry dropping out. */
  function Inserted(out: seq<Dist>, i: nat, x: Dist): (r: seq<Dist>)
    requires i < |out|
    ensures |r| == |out|
    ensures forall k :: 0 <= k < |r| ==> r[k] == if k < i then out[k] else if k == i then x else out[k - 1]
  {
    out[..i] + [x] + out[i..|out| - 1]
  }

  /** The place of a value: before the first that is not better. */
  predicate IsPlace(out: seq<Dist>, v: real, i: nat) {
    i < |out| && v >= out[i].dist && forall k :: 0 <= k < i ==> v < out[k].dist
  }

  /** The values listed do not rise. */
  lemma OrderedFalls(out: seq<Dist>, i: nat, j: nat)
    requires Ordered(out) && i <= j < |out|
    ensures out[j].dist <= out[i].dist
  {
  }

  lemma InsertOrdered(out: seq<Dist>, c: nat, i: nat, x: Dist)
    requires c <= |out| && i <= c && IsPlace(out, x.dist, i) && Ordered(out[..c])
    requires forall k :: 0 <= k < c ==> out[k].id < x.id
    ensures Ordered(Inserted(out, i, x)[..Min(c + 1, |out|)])
  {
    var r := Inserted(out, i, x);
    var c' := Min(c + 1, |out|);
    forall a, b | 0 <= a < b < c' ensures Before(r[a], r[b]) {
      if a == i {
        OrderedFalls(out[..c], i, b - 1);
        assert r[b] == out[b - 1] && out[..c][b - 1] == out[b - 1] && out[..c][i] == out[i];
      } else if b == i {
        assert r[a] == out[a] && r[b] == x;
      } else if a < i < b {
        assert Before(out[..c][a], out[..c][b - 1]);
      } else if b < i {
        assert Before(out[..c][a], out[..c][b]);
      } else if i < a {
        assert Before(out[..c][a - 1], out[..c][b - 1]);
      }
    }
  }

  lemma ListsInserted(out: seq<Dist>, c: nat, i: nat, x: Dist, e: int)
    requires c < |out| && i <= c && Lists(out[..c], e)
    ensures Lists(Inserted(out, i, x)[..c + 1], e)
  {
    var k :| 0 <= k < c && out[..c][k].id == e;
    assert Inserted(out, i, x)[..c + 1][if k < i then k else k + 1].id == e;
  }

  lemma StillLists(out: seq<Dist>, i: nat, x: Dist, m: nat)
    requires i < |out| && m < |out| - 1
    ensures Lists(Inserted(out, i, x), out[m].id)
  {
    assert Inserted(out, i, x)[if m < i then m else m + 1].id == out[m].id;
  }

  /** A full list: what is not listed after the insertion, listed before or not, is after all that is. */
  lemma InsertFull(out: seq<Dist>, i: nat, x: Dist, b: Dist)
    requires IsPlace(out, x.dist, i) && Ordered(out) && b.id < x.id && !Lists(Inserted(out, i, x), b.id)
    requires AfterAll(out, b) || b in out
    ensures AfterAll(Inserted(out, i, x), b)
  {
    var r := Inserted(out, i, x);
    var n := |out|;
    if AfterAll(out, b) {
      forall k | 0 <= k < n ensures Before(r[k], b) {
        assert Before(out[if k < i then k else if k == i then i else k - 1], b);
      }
    } else {
      var m :| 0 <= m < n && out[m] == b;
      if m < n - 1 {
        StillLists(out, i, x, m);
      }
      forall k | 0 <= k < n ensures Before(r[k], b) {
        if k < i || k > i {
          assert Before(out[if k < i then k else k - 1], out[n - 1]);
        }
      }
    }
  }

  lemma PlaceInList(out: seq<Dist>, c: nat, vals: seq<real>, d: nat, i: nat, v: real)
    requires c <= |out| && d <= |vals| && Real(out, c, vals, d) && Floor(out, c)
    requires IsPlace(out, v, i) && v >= out[|out| - 1].dist
    ensures v >= WORST_DIST && i <= c
  {
    assert out[|out| - 1].dist >= WORST_DIST;
    assert c < |out| ==> out[c].dist == WORST_DIST <= v;
  }

  lemma InsertReal(out: seq<Dist>, c: nat, vals: seq<real>, d: nat, i: nat)
    requires c <= |out| && d < |vals| && Real(out, c, vals, d) && Floor(out, c) && i <= c && i < |out|
    requires vals[d] >= WORST_DIST
    ensures var r, c' := Inserted(out, i, Dist(d, vals[d])), Min(c + 1, |out|);
      Real(r, c', vals, d + 1) && Floor(r, c') && Lists(r[..c'], d)
  {
    var r, c' := Inserted(out, i, Dist(d, vals[d])), Min(c + 1, |out|);
    assert r[..c'][i].id == d;
  }

  /** A codeword placed before is still placed. */
  lemma InsertPlaced(out: seq<Dist>, c: nat, i: nat, x: Dist, b: Dist)
    requires c <= |out| && i <= c && IsPlace(out, x.dist, i) && Ordered(out[..c]) && b.id < x.id
    requires Placed(out, c, b) && forall k :: 0 <= k < c && out[k].id == b.id ==> out[k] == b
    ensures Placed(Inserted(out, i, x), Min(c + 1, |out|), b)
  {
    var r := Inserted(out, i, x);
    if c < |out| {
      ListsInserted(out, c, i, x, b.id);
    } else {
      assert out[..c] == out && r[..|out|] == r;
      if !Lists(r, b.id) {
        if Lists(out, b.id) {
          var k :| 0 <= k < |out| && out[k].id == b.id;
          assert out[k] == b;
        }
        InsertFull(out, i, x, b);
      }
    }
  }

  /** A codeword at least as good as the worst listed one takes its place. */
  lemma InsertListed(out: seq<Dist>, vals: seq<real>, d: nat, i: nat)
    requires d < |vals| && Listed(out, vals, d) && IsPlace(out, vals[d], i) && vals[d] >= out[|out| - 1].dist
    ensures Listed(Inserted(out, i, Dist(d, vals[d])), vals, d + 1)
  {
    var n, x := |out|, Dist(d, vals[d]);
    var c := Min(n, Good(vals, d));
    var r, c' := Inserted(out, i, x), Min(c + 1, n);
    PlaceInList(out, c, vals, d, i, vals[d]);
    assert c' == Min(n, Good(vals, d + 1));
    InsertReal(out, c, vals, d, i);
    InsertOrdered(out, c, i, x);
    hide Ordered, Floor, Inserted, IsPlace, Good;
    forall e | 0 <= e < d + 1 && vals[e] >= WORST_DIST ensures Placed(r, c', Dist(e, vals[e])) {
      if e < d {
        assert Placed(out, c, Dist(e, vals[e]));
        hide Placed, Lists;
        InsertPlaced(out, c, i, x, Dist(e, vals[e]));
      }
    }
  }

  // ---- when the list is the selection

  lemma FullIsTopN(out: seq<Dist>, vals: seq<real>)
    requires out != [] && Listed(out, vals, |vals|) && Good(vals, |vals|) >= |out|
    ensures IsTopN(out, vals)
  {
    assert out[..|out|] == out;
    forall e | 0 <= e < |vals| && !Lists(out, e) ensures AfterAll(out, Dist(e, vals[e])) {
      assert vals[e] >= WORST_DIST ==> Placed(out, |out|, Dist(e, vals[e]));
      assert vals[e] < WORST_DIST ==> vals[e] < out[|out| - 1].dist;
      if vals[e] < WORST_DIST {
        WorseAfterAll(out, Dist(e, vals[e]));
      }
    }
  }

  lemma ShortIsNotTopN(out: seq<Dist>, vals: seq<real>)
    requires Listed(out, vals, |vals|) && Good(vals, |vals|) < |out|
    ensures !IsTopN(out, vals)
  {
    var c := Good(vals, |vals|);
    var last := out[|out| - 1];
    if 0 <= last.id < |vals| && last.dist == vals[last.id] {
      assert Placed(out, c, last);
      var k :| 0 <= k < c && out[..c][k].id == last.id;
      assert out[k] == last && !Before(out[k], last);
    }
  }

  /** The early-abandoning selection leaves the n best of the fully computed values, in worsening order and
      the later codeword first on ties, exactly when at least n codewords reach the floor. */
  lemma SelectionExact(out: seq<Dist>, vals: seq<real>)
    requires out != [] && Listed(out, vals, |vals|)
    ensures IsTopN(out, vals) <==> Good(vals, |vals|) >= |out|
  {
    if Good(vals, |vals|) >= |out| {
      FullIsTopN(out, vals);
    } else {
      ShortIsNotTopN(out, vals);
    }
  }

  /** There is only one such selection. */
  lemma {:induction false} TopNUnique(a: seq<Dist>, b: seq<Dist>, vals: seq<real>, k: nat)
    requires IsTopN(a, vals) && IsTopN(b, vals) && |a| == |b| && k <= |a|
    ensures a[..k] == b[..k]
    decreases k
  {
    if k > 0 {
      TopNUnique(a, b, vals, k - 1);
      var x, y := a[k - 1], b[k - 1];
      NotEarlier(a, b, vals, k - 1);
      NotEarlier(b, a, vals, k - 1);
      assert a[..k] == a[..k - 1] + [x] && b[..k] == b[..k - 1] + [y];
    }
  }

  /** After a common prefix the next of b is not before the next of a. */
  lemma NotEarlier(a: seq<Dist>, b: seq<Dist>, vals: seq<real>, k: nat)
    requires IsTopN(a, vals) && IsTopN(b, vals) && k < |a| == |b| && a[..k] == b[..k]
    ensures b[k] == a[k] || Before(a[k], b[k])
  {
    var y := b[k];
    assert y == Dist(y.id, vals[y.id]);
    forall i | 0 <= i < k ensures a[i].id != y.id {
      assert a[..k][i] == b[..k][i];
      assert Before(b[i], y);
    }
    if Lists(a, y.id) {
      var m :| 0 <= m < |a| && a[m].id == y.id;
      assert m >= k && a[m] == y;
      assert m > k ==> Before(a[k], a[m]);
    } else {
      assert AfterAll(a, y);
    }
  }

  // ---- no selection to make

  /** Every codeword in turn. */
  function InTurn(vals: seq<real>): (r: seq<Dist>)
    ensures |r| == |vals|
  {
    seq(|vals|, d requires 0 <= d < |vals| => Dist(d, vals[d]))
  }

  predicate Worsening(out: seq<Dist>) {
    forall i, j :: 0 <= i < j < |out| ==> out[i].dist >= out[j].dist
  }

  /** What a call leaves for nTop codewords asked for. */
  predicate IsResult(out: seq<Dist>, nTop: nat, vals: seq<real>) {
    if nTop >= |vals| then out == InTurn(vals) else |out| == nTop && Listed(out, vals, |vals|)
  }

  /** A list kept by insertion is in worsening order, its unused slots at the end. */
  lemma ListedWorsens(out: seq<Dist>, vals: seq<real>, d: nat)
    requires d <= |vals| && Listed(out, vals, d)
    ensures Worsening(out)
  {
    var c := Min(|out|, Good(vals, d));
    forall i, j | 0 <= i < j < |out| ensures out[i].dist >= out[j].dist {
      if j < c {
        assert Before(out[..c][i], out[..c][j]);
      }
    }
  }

  /** Rising densities of n codewords without features. */
  function Rising(n: nat): (g: Codebook)
    ensures IsCodebook(g, 0) && |g.det| == n && forall d :: 0 <= d < n ==> g.det[d] == d as real
  {
    Codebook(seq(n, _ => []), seq(n, _ => []), seq(n, d => d as real))
  }

  ghost predicate AlwaysWorsening(nTop: nat, n: nat) {
    forall g: Codebook, obs: seq<real>, out ::
      IsCodebook(g, |obs|) && |g.det| == n && IsResult(out, nTop, Values(g, obs)) ==> Worsening(out)
  }

  /** The result is in worsening order on every codebook of n codewords, as src/ms_gauden.h says, if and
      only if fewer than n are asked for or there is nothing to order: when all are asked for they are left
      in turn. */
  lemma WorseningExactly(nTop: nat, n: nat)
    ensures AlwaysWorsening(nTop, n) <==> nTop < n || n <= 1
  {
    if nTop < n || n <= 1 {
      forall g: Codebook, obs: seq<real>, out
        | IsCodebook(g, |obs|) && |g.det| == n && IsResult(out, nTop, Values(g, obs)) ensures Worsening(out)
      {
        if nTop < n {
          ListedWorsens(out, Values(g, obs), n);
        }
      }
    } else {
      var g, obs: seq<real> := Rising(n), [];
      var out := InTurn(Values(g, obs));
      assert out[0].dist == 0.0 && out[1].dist == 1.0;
      assert !Worsening(out);
      assert IsCodebook(g, |obs|) && |g.det| == n && IsResult(out, nTop, Values(g, obs));
    }
  }

  /** Two codewords, both below the floor. */
  function Deep(): (g: Codebook)
    ensures IsCodebook(g, 0)
  {
    Codebook([[], []], [[], []], [WORST_DIST - 1.0, WORST_DIST - 2.0])
  }

  /** Asked for the best of them, the selection leaves an unused slot instead. */
  lemma DeepIsMissed(out: seq<Dist>)
    requires IsResult(out, 1, Values(Deep(), []))
    ensures out[0].dist == WORST_DIST && !IsTopN(out, Values(Deep(), []))
  {
    var vals := Values(Deep(), []);
    assert Good(vals, 1) == 0 && Good(vals, 2) == 0;
    SelectionExact(out, vals);
  }

  // ---- the computation

  /** compute_dist_all: every codeword in turn, in no order of value. */
  method ComputeDistAll(outDist: array<Dist>, obs: seq<real>, g: Codebook)
    requires IsCodebook(g, |obs|) && |g.det| <= outDist.Length
    modifies outDist
    ensures outDist[..|g.det|] == InTurn(Values(g, obs))
    ensures outDist[|g.det|..] == old(outDist[|g.det|..])
  {
    for d := 0 to |g.det|
      invariant forall k :: 0 <= k < d ==> outDist[k] == Dist(k, Values(g, obs)[k])
      invariant forall k :: d <= k < outDist.Length ==> outDist[k] == old(outDist[k])
    {
      var dval := g.det[d];
      for i := 0 to |obs|
        invariant dval == Partial(g, obs, d, i)
      {
        var diff := obs[i] - g.mean[d][i];
        dval := dval - diff * diff * g.v[d][i];
      }
      outDist[d] := Dist(d, dval);
    }
  }

  /** The density of one codeword, abandoned as soon as it falls below the worst listed. */
  method Density(obs: seq<real>, g: Codebook, d: nat, worst: real) returns (kept: bool, dval: real)
    requires IsCodebook(g, |obs|) && d < |g.det|
    ensures kept <==> Values(g, obs)[d] >= worst
    ensures kept ==> dval == Values(g, obs)[d]
  {
    dval := g.det[d];
    var i := 0;
    while i < |obs| && dval >= worst
      invariant i <= |obs| && dval == Partial(g, obs, d, i)
    {
      var diff := obs[i] - g.mean[d][i];
      dval := dval - diff * diff * g.v[d][i];
      i := i + 1;
    }
    PartialFalls(g, obs, d, i, |obs|);
    kept := !(i < |obs| || dval < worst);
  }

  /** The insertion into the ordered list. */
  method InsertDist(outDist: array<Dist>, nTop: nat, x: Dist)
    requires 0 < nTop <= outDist.Length && x.dist >= outDist[nTop - 1].dist
    modifies outDist
    ensures exists i: nat ::
      IsPlace(old(outDist[..nTop]), x.dist, i) && outDist[..nTop] == Inserted(old(outDist[..nTop]), i, x)
  {
    ghost var was := outDist[..nTop];
    var i := 0;
    while i < nTop && x.dist < outDist[i].dist
      invariant i < nTop && forall k :: 0 <= k < i ==> x.dist < was[k].dist
    {
      i := i + 1;
    }
    assert IsPlace(was, x.dist, i);
    var j := nTop - 1;
    while j > i
      invariant i <= j < nTop
      invariant forall k :: 0 <= k <= j ==> outDist[k] == was[k]
      invariant forall k :: j < k < nTop ==> outDist[k] == was[k - 1]
    {
      outDist[j] := outDist[j - 1];
      j := j - 1;
    }
    outDist[i] := x;
    assert outDist[..nTop] == Inserted(was, i, x);
  }

  lemma NowListed(was: seq<Dist>, now: seq<Dist>, vals: seq<real>, d: nat)
    requires was != [] && d < |vals| && Listed(was, vals, d) && vals[d] >= was[|was| - 1].dist
    requires exists i: nat :: IsPlace(was, vals[d], i) && now == Inserted(was, i, Dist(d, vals[d]))
    ensures Listed(now, vals, d + 1)
  {
    hide Listed, Inserted;
    var i: nat :| IsPlace(was, vals[d], i) && now == Inserted(was, i, Dist(d, vals[d]));
    InsertListed(was, vals, d, i);
  }

  /** One codeword's turn: it is listed where it belongs unless it is worse than all that are. */
  method TryCodeword(outDist: array<Dist>, nTop: nat, obs: seq<real>, g: Codebook, d: nat)
    requires IsCodebook(g, |obs|) && 0 < nTop <= outDist.Length && d < |g.det|
    requires Listed(outDist[..nTop], Values(g, obs), d)
    modifies outDist
    ensures Listed(outDist[..nTop], Values(g, obs), d + 1)
  {
    hide Listed, IsCodebook, IsPlace, Inserted, Values;
    ghost var was, vals := outDist[..nTop], Values(g, obs);
    assert was[|was| - 1] == outDist[nTop - 1];
    var kept, dval := Density(obs, g, d, outDist[nTop - 1].dist);
    if !kept {
      SkipListed(was, vals, d);
    } else {
      InsertDist(outDist, nTop, Dist(d, dval));
      NowListed(was, outDist[..nTop], vals, d);
    }
  }

  /** compute_dist: all codewords if there are no more than asked for, else the list of the best. */
  method ComputeDist(outDist: array<Dist>, nTop: nat, obs: seq<real>, g: Codebook)
    requires IsCodebook(g, |obs|) && 0 < nTop && nTop <= outDist.Length && |g.det| <= outDist.Length
    modifies outDist
    ensures IsResult(outDist[..Min(nTop, |g.det|)], nTop, Values(g, obs))
    ensures nTop < |g.det| ==> Worsening(outDist[..nTop])
    ensures nTop < |g.det| ==> (IsTopN(outDist[..nTop], Values(g, obs)) <==> Good(Values(g, obs), |g.det|) >= nTop)
  {
    if nTop >= |g.det| {
      ComputeDistAll(outDist, obs, g);
      return;
    }
    ghost var vals := Values(g, obs);
    for i := 0 to nTop
      invariant forall k :: 0 <= k < i ==> outDist[k].dist == WORST_DIST
    {
      outDist[i] := outDist[i].(dist := WORST_DIST);
    }
    NothingListed(outDist[..nTop], vals);
    hide Listed, IsTopN, IsCodebook, Good, Worsening, IsPlace, Inserted, Values;
    for d := 0 to |g.det|
      invariant Listed(outDist[..nTop], vals, d)
    {
      TryCodeword(outDist, nTop, obs, g, d);
    }
    SelectionExact(outDist[..nTop], vals);
    ListedWorsens(outDist[..nTop], vals, |vals|);
  }
}
