/** The active-senone list, a byte of delta per senone, and the senone score dump (src/acmod.c). */
module Senones {
  import opened Basics

  const BITVEC_BITS: nat := 32
  const SENSCR_DUMMY: int := 0x7fff

  // ---- from flags to deltas

  /** A delta in bytes: as many 255 as needed to bridge the gap. */
  function Bridge(delta: int): (r: seq<int>)
    ensures r != []
    decreases delta
  {
    if delta > 255 then [255] + Bridge(delta - 255) else [delta]
  }

  /** The deltas for the flags from i on, after a listed senone l. */
  function Deltas(flags: seq<bool>, i: nat, l: int): seq<int>
    decreases |flags| - i
  {
    if i >= |flags| then []
    else if flags[i] then Bridge(i - l) + Deltas(flags, i + 1, i)
    else Deltas(flags, i + 1, l)
  }

  function ListOf(flags: seq<bool>): seq<int> {
    Deltas(flags, 0, 0)
  }

  /** The senones a list stands for: its running sums, as every decoder forms them. */
  function Sums(deltas: seq<int>, n: int): (r: seq<int>)
    ensures |r| == |deltas|
  {
    if deltas == [] then [] else [n + deltas[0]] + Sums(deltas[1..], n + deltas[0])
  }

  predicate Increasing(s: seq<int>) {
    forall i, j :: 0 <= i < j < |s| ==> s[i] < s[j]
  }

  predicate Within(s: seq<int>, lo: int, hi: int) {
    forall i :: 0 <= i < |s| ==> lo <= s[i] < hi
  }

  /** s lies between flags p and q (or senone 0 and q), more than 255 apart, a multiple of 255 after p. */
  predicate Bridges(flags: seq<bool>, p: int, s: int, q: int) {
    && 0 <= p < s < q < |flags| && (p == 0 || flags[p]) && flags[q] && q - p > 255 && (s - p) % 255 == 0
    && forall k :: p < k < q ==> !flags[k]
  }

  ghost predicate OnBridge(flags: seq<bool>, s: int) {
    exists p, q :: Bridges(flags, p, s, q)
  }

  lemma {:induction false} SumsConcat(a: seq<int>, b: seq<int>, n: int)
    ensures Sums(a + b, n) == Sums(a, n) + Sums(b, if a == [] then n else Sums(a, n)[|a| - 1])
  {
    if a == [] {
      assert a + b == b;
    } else {
      SumsConcat(a[1..], b, n + a[0]);
      assert (a + b)[1..] == a[1..] + b;
    }
  }

  /** Across a bridge the sums go up to its end by steps of at most 255. */
  lemma {:induction false} BridgeSums(delta: int, n: int)
    requires delta > 0
    ensures var s := Sums(Bridge(delta), n);
      && |s| > 0 && s[|s| - 1] == n + delta && Increasing(s)
      && (forall k :: 0 <= k < |s| ==> n < s[k])
      && (forall k :: 0 <= k < |s| - 1 ==> delta > 255 && (s[k] - n) % 255 == 0)
    ensures forall k :: 0 <= k < |Bridge(delta)| ==> 1 <= Bridge(delta)[k] <= 255
    decreases delta
  {
    if delta > 255 {
      BridgeSums(delta - 255, n + 255);
      var s, t := Sums(Bridge(delta), n), Sums(Bridge(delta - 255), n + 255);
      assert Bridge(delta)[1..] == Bridge(delta - 255);
      assert s == [n + 255] + t;
      forall k | 0 <= k < |s| - 1 ensures (s[k] - n) % 255 == 0 {
        if k > 0 {
          assert s[k] == t[k - 1] && (t[k - 1] - (n + 255)) % 255 == 0;
        }
      }
    } else {
      assert Bridge(delta)[1..] == [];
    }
  }

  lemma FlagSums(flags: seq<bool>, i: nat, l: int)
    requires i < |flags| && flags[i] && l < i
    ensures Sums(Deltas(flags, i, l), l) == Sums(Bridge(i - l), l) + Sums(Deltas(flags, i + 1, i), i)
  {
    BridgeSums(i - l, l);
    SumsConcat(Bridge(i - l), Deltas(flags, i + 1, i), l);
  }

  lemma AppendIncreasing(a: seq<int>, b: seq<int>, lo: int, mid: int, hi: int)
    requires Increasing(a) && Within(a, lo, mid) && Increasing(b) && Within(b, mid, hi) && lo <= mid <= hi
    ensures Increasing(a + b) && Within(a + b, lo, hi)
  {
  }

  ghost predicate Listed(flags: seq<bool>, i: nat, s: seq<int>) {
    && (forall k :: i <= k < |flags| && flags[k] ==> k in s)
    && (forall x :: x in s ==> 0 <= x < |flags| && (flags[x] || OnBridge(flags, x)))
  }

  lemma AppendListed(flags: seq<bool>, i: nat, l: int, a: seq<int>, b: seq<int>)
    requires 0 <= l < i < |flags| && (l == 0 || flags[l]) && flags[i] && forall k :: l < k < i ==> !flags[k]
    requires Listed(flags, i + 1, b) && |a| > 0 && a[|a| - 1] == i && Increasing(a)
    requires forall k :: 0 <= k < |a| ==> l < a[k]
    requires forall k :: 0 <= k < |a| - 1 ==> i - l > 255 && (a[k] - l) % 255 == 0
    ensures Listed(flags, i, a + b)
  {
    forall k | 0 <= k < |a| ensures a[k] < |flags| && (flags[a[k]] || OnBridge(flags, a[k])) {
      if k < |a| - 1 {
        assert Bridges(flags, l, a[k], i);
      }
    }
    assert (a + b)[|a| - 1] == i;
    hide OnBridge;
    forall k | i <= k < |flags| && flags[k] ensures k in a + b {
      assert k > i ==> k in b;
    }
  }

  lemma AppendBridge(flags: seq<bool>, i: nat, l: int, b: seq<int>)
    requires 0 <= l < i < |flags| && (l == 0 || flags[l]) && flags[i] && forall k :: l < k < i ==> !flags[k]
    requires Increasing(b) && Within(b, i + 1, |flags|) && Listed(flags, i + 1, b)
    ensures var s := Sums(Bridge(i - l), l) + b;
      Increasing(s) && Within(s, l + 1, |flags|) && Listed(flags, i, s)
  {
    var a := Sums(Bridge(i - l), l);
    BridgeSums(i - l, l);
    hide Sums, Bridge, Listed;
    AppendIncreasing(a, b, l + 1, i + 1, |flags|);
    AppendListed(flags, i, l, a, b);
  }

  lemma NothingLeft(flags: seq<bool>, l: int)
    ensures var s := Sums(Deltas(flags, |flags|, l), l);
      Increasing(s) && Within(s, l + 1, |flags|) && Listed(flags, |flags|, s)
  {
  }

  lemma PassFlag(flags: seq<bool>, i: nat, l: int, s: seq<int>)
    requires i < |flags| && !flags[i] && Listed(flags, i + 1, s)
    ensures Deltas(flags, i, l) == Deltas(flags, i + 1, l) && Listed(flags, i, s)
  {
    hide OnBridge;
  }

  /** The sums from a listed senone (or 0) on: increasing, covering all flags left, and otherwise on bridges. */
  lemma {:induction false} DeltasList(flags: seq<bool>, i: nat, l: int)
    requires 0 <= l < i <= |flags| && (l == 0 || flags[l]) && forall k :: l < k < i ==> !flags[k]
    ensures var s := Sums(Deltas(flags, i, l), l);
      Increasing(s) && Within(s, l + 1, |flags|) && Listed(flags, i, s)
    decreases |flags| - i
  {
    hide OnBridge, Sums, Bridge, Deltas, Listed, Increasing, Within;
    if i == |flags| {
      NothingLeft(flags, l);
    } else if !flags[i] {
      DeltasList(flags, i + 1, l);
      PassFlag(flags, i, l, Sums(Deltas(flags, i + 1, l), l));
    } else {
      DeltasList(flags, i + 1, i);
      FlagSums(flags, i, l);
      AppendBridge(flags, i, l, Sums(Deltas(flags, i + 1, i), i));
    }
  }

  predicate BytesOf(deltas: seq<int>) {
    forall k :: 0 <= k < |deltas| ==> 0 <= deltas[k] <= 255
  }

  lemma {:induction false} DeltasAreBytes(flags: seq<bool>, i: nat, l: int)
    requires l < i || (l == 0 && i == 0)
    ensures BytesOf(Deltas(flags, i, l))
    decreases |flags| - i
  {
    if i < |flags| {
      if flags[i] {
        DeltasAreBytes(flags, i + 1, i);
        if l < i {
          BridgeSums(i - l, l);
        }
      } else {
        DeltasAreBytes(flags, i + 1, l);
      }
    }
  }

  function SenonesOf(flags: seq<bool>): seq<int> {
    Sums(ListOf(flags), 0)
  }

  /** For any flags, the running sums of the byte deltas strictly increase, stay below the number of
      senones, include every flagged senone, and add others only to bridge gaps over 255. */
  lemma ListIsExact(flags: seq<bool>)
    ensures BytesOf(ListOf(flags))
    ensures var s := SenonesOf(flags);
      && Increasing(s) && Within(s, 0, |flags|)
      && (forall k :: 0 <= k < |flags| && flags[k] ==> k in s)
      && (forall x :: x in s ==> 0 <= x < |flags| && (flags[x] || OnBridge(flags, x)))
  {
    DeltasAreBytes(flags, 0, 0);
    if |flags| > 0 {
      DeltasList(flags, 1, 0);
      var s, t := SenonesOf(flags), Sums(Deltas(flags, 1, 0), 0);
      if flags[0] {
        SumsConcat(Bridge(0), Deltas(flags, 1, 0), 0);
        assert s == [0] + t;
        hide Sums, Deltas, Bridge, OnBridge;
        AppendIncreasing([0], t, 0, 1, |flags|);
        forall k | 0 <= k < |flags| && flags[k] ensures k in s {
          assert k > 0 ==> k in t;
        }
      } else {
        assert s == t;
      }
    }
  }

  lemma {:induction false} IncreasingFits(s: seq<int>, lo: int, hi: int)
    requires Increasing(s) && Within(s, lo, hi) && lo <= hi
    ensures |s| <= hi - lo
    ensures |s| == hi - lo ==> forall k :: 0 <= k < |s| ==> s[k] == lo + k
    decreases |s|
  {
    if s != [] {
      var t := s[..|s| - 1];
      IncreasingFits(t, lo, s[|s| - 1]);
    }
  }

  /** The list never holds more entries than there are senones, and when it holds as many it lists them all. */
  lemma ListFits(flags: seq<bool>)
    ensures |ListOf(flags)| <= |flags|
    ensures |ListOf(flags)| == |flags| ==> forall k :: 0 <= k < |flags| ==> SenonesOf(flags)[k] == k
  {
    ListIsExact(flags);
    IncreasingFits(SenonesOf(flags), 0, |flags|);
  }

  // ---- sixteen-bit values in a file

  function Wrap16(v: int): (r: int)
    ensures -0x8000 <= r < 0x8000 && (-0x8000 <= v < 0x8000 ==> r == v)
  {
    (v + 0x8000) % 0x1_0000 - 0x8000
  }

  function Put16(v: int): (r: seq<int>)
    ensures |r| == 2
  {
    [v % 0x1_0000 % 256, v % 0x1_0000 / 256]
  }

  function Get16(file: seq<int>): int
    requires |file| >= 2
  {
    Wrap16(file[0] + 256 * file[1])
  }

  lemma GetPut16(v: int, rest: seq<int>)
    ensures Get16(Put16(v) + rest) == Wrap16(v)
  {
    var u := v % 0x1_0000;
    assert (Put16(v) + rest)[0] + 256 * (Put16(v) + rest)[1] == u;
  }

  predicate IsScores(scores: seq<int>) {
    forall k :: 0 <= k < |scores| ==> -0x8000 <= scores[k] < 0x8000
  }

  // ---- writing a frame

  function PutAll(scores: seq<int>): (r: seq<int>)
    ensures |r| == 2 * |scores|
  {
    if scores == [] then [] else Put16(scores[0]) + PutAll(scores[1..])
  }

  function Picked(scores: seq<int>, senones: seq<int>): (r: seq<int>)
    requires Within(senones, 0, |scores|)
    ensures |r| == |senones|
  {
    seq(|senones|, i requires 0 <= i < |senones| => scores[senones[i]])
  }

  /** acmod_write_scores: the count is cut to sixteen bits; a list as long as there are senones leaves out the
      deltas. */
  function WriteFrame(deltas: seq<int>, scores: seq<int>): seq<int>
    requires Within(Sums(deltas, 0), 0, |scores|)
  {
    Put16(Wrap16(|deltas|)) +
    if |deltas| == |scores| then PutAll(scores) else deltas + PutAll(Picked(scores, Sums(deltas, 0)))
  }

  /** A value in sixteen bits, low byte first. */
  predicate HoldsAt(file: seq<int>, at: nat, v: int) {
    && at + 1 < |file| && 0 <= file[at] < 256 && 0 <= file[at + 1] < 256
    && (file[at] + 256 * file[at + 1] - v) % 0x1_0000 == 0
  }

  lemma Put16Holds(v: int)
    ensures HoldsAt(Put16(v), 0, v)
  {
    var u := v % 0x1_0000;
    assert u - v == -(v / 0x1_0000) * 0x1_0000;
  }

  lemma {:induction false} PutAllHolds(scores: seq<int>, k: nat)
    requires k < |scores|
    ensures HoldsAt(PutAll(scores), 2 * k, scores[k])
    decreases |scores|
  {
    Put16Holds(scores[0]);
    if k > 0 {
      PutAllHolds(scores[1..], k - 1);
      var f, g := PutAll(scores), PutAll(scores[1..]);
      assert f[2 * k] == g[2 * (k - 1)] && f[2 * k + 1] == g[2 * (k - 1) + 1];
    }
  }

  lemma HoldsLater(a: seq<int>, b: seq<int>, at: nat, v: int)
    requires HoldsAt(b, at, v)
    ensures HoldsAt(a + b, |a| + at, v)
  {
  }

  /** From `at` on the file holds the scores, one after the other. */
  ghost predicate HoldsAll(file: seq<int>, at: nat, scores: seq<int>) {
    |file| == at + 2 * |scores| && forall k :: 0 <= k < |scores| ==> HoldsAt(file, at + 2 * k, scores[k])
  }

  /** What a frame is in the file: the count; the deltas, unless the list is as long as there are senones; and
      the scores of the listed senones, in order. */
  lemma FrameLayout(deltas: seq<int>, scores: seq<int>)
    requires Within(Sums(deltas, 0), 0, |scores|)
    ensures var f, n := WriteFrame(deltas, scores), |deltas|;
      && HoldsAt(f, 0, n)
      && if n == |scores| then HoldsAll(f, 2, scores)
         else |f| >= 2 + n && f[2..2 + n] == deltas && HoldsAll(f, 2 + n, Picked(scores, Sums(deltas, 0)))
  {
    var f, n := WriteFrame(deltas, scores), |deltas|;
    var head := Put16(Wrap16(n));
    hide Put16, PutAll, Wrap16, HoldsAt, HoldsAll, Picked, Sums, Within;
    assert f[..2] == head;
    WrapSame(f, n);
    if n == |scores| {
      ScoresLater(head, scores);
    } else {
      ScoresLater(head + deltas, Picked(scores, Sums(deltas, 0)));
      DeltasThere(head, deltas, PutAll(Picked(scores, Sums(deltas, 0))));
    }
  }

  lemma DeltasThere(head: seq<int>, deltas: seq<int>, body: seq<int>)
    ensures head + (deltas + body) == (head + deltas) + body
    ensures (head + (deltas + body))[|head|..|head| + |deltas|] == deltas
  {
  }

  /** All scores follow what is before them. */
  lemma ScoresLater(before: seq<int>, scores: seq<int>)
    ensures HoldsAll(before + PutAll(scores), |before|, scores)
  {
    hide PutAll, HoldsAt;
    forall k | 0 <= k < |scores| ensures HoldsAt(before + PutAll(scores), |before| + 2 * k, scores[k]) {
      PutAllHolds(scores, k);
      HoldsLater(before, PutAll(scores), 2 * k, scores[k]);
    }
  }

  lemma WrapSame(f: seq<int>, n: int)
    requires |f| >= 2 && f[..2] == Put16(Wrap16(n))
    ensures HoldsAt(f, 0, n)
  {
    Put16Holds(Wrap16(n));
    assert f[0] == f[..2][0] && f[1] == f[..2][1];
    assert (Wrap16(n) - n) % 0x1_0000 == 0;
  }

  // ---- reading it back

  datatype Frame = Frame(scores: seq<int>, rest: seq<int>)

  function GetAll(n: nat, file: seq<int>): (r: Option<Frame>)
    ensures r.Some? ==> |r.value.scores| == n
  {
    if n == 0 then Some(Frame([], file))
    else if |file| < 2 then None
    else
      match GetAll(n - 1, file[2..])
      case None => None
      case Some(f) => Some(f.(scores := [Get16(file)] + f.scores))
  }

  function After(before: seq<int>, f: Frame): Frame {
    f.(scores := before + f.scores)
  }

  function Dummies(scores: seq<int>, from: nat, to: int): (r: seq<int>)
    ensures |r| == |scores|
  {
    seq(|scores|, k requires 0 <= k < |scores| => if from <= k < to then SENSCR_DUMMY else scores[k])
  }

  /** The scores of the listed senones, one by one, with dummies in between and after. */
  function Fill(deltas: seq<int>, n: nat, scores: seq<int>, file: seq<int>): (r: Option<Frame>)
    requires BytesOf(deltas)
    ensures r.Some? ==> |r.value.scores| == |scores|
    decreases |deltas|
  {
    if deltas == [] then Some(Frame(Dummies(scores, n + 1, |scores|), file))
    else
      var sen: nat := n + deltas[0];
      if sen >= |scores| || |file| < 2 then None
      else Fill(deltas[1..], sen, Dummies(scores, n + 1, sen)[sen := Get16(file)], file[2..])
  }

  /** acmod_read_scores_internal over a file position: the new scores and the next position. */
  function ReadFrame(prior: seq<int>, file: seq<int>): Option<Frame>
    requires BytesOf(file)
  {
    if |file| < 2 then None
    else
      var n := Get16(file);
      var body := file[2..];
      if n == |prior| then GetAll(n, body)
      else if n < 0 || n > |prior| || |body| < n then None
      else Fill(body[..n], 0, prior, body[n..])
  }

  // ---- round trip

  /** Listed senones have their scores back, all others but senone 0 the dummy. */
  predicate Restored(senones: seq<int>, scores: seq<int>, prior: seq<int>, got: seq<int>) {
    && |got| == |scores| == |prior|
    && forall k :: 0 <= k < |got| ==>
         got[k] == if k in senones then scores[k] else if k == 0 then prior[0] else SENSCR_DUMMY
  }

  lemma {:induction false} GetAllPut(scores: seq<int>, rest: seq<int>)
    requires IsScores(scores)
    ensures GetAll(|scores|, PutAll(scores) + rest) == Some(Frame(scores, rest))
  {
    if scores == [] {
      assert PutAll(scores) + rest == rest;
    } else {
      var file := PutAll(scores) + rest;
      assert file == Put16(scores[0]) + (PutAll(scores[1..]) + rest);
      GetPut16(scores[0], PutAll(scores[1..]) + rest);
      assert file[2..] == PutAll(scores[1..]) + rest;
      GetAllPut(scores[1..], rest);
      assert scores == [scores[0]] + scores[1..];
    }
  }

  /** Below n everything is in place, at n and above what is listed is still to come. */
  function Expected(senones: seq<int>, n: int, scores: seq<int>, sofar: seq<int>, k: nat): int
    requires k < |scores| == |sofar|
  {
    if k in senones then scores[k] else if k <= n then sofar[k] else SENSCR_DUMMY
  }

  lemma ExpectedStep(t: seq<int>, n: nat, sen: nat, scores: seq<int>, sofar: seq<int>, k: nat)
    requires k < |scores| == |sofar| && n <= sen < |scores| && forall x :: x in t ==> x > sen
    ensures Expected(t, sen, scores, Dummies(sofar, n + 1, sen)[sen := scores[sen]], k)
         == Expected([sen] + t, n, scores, sofar, k)
  {
  }

  lemma FillHead(deltas: seq<int>, n: nat, scores: seq<int>)
    requires deltas != [] && Increasing(Sums(deltas, n)) && Within(Sums(deltas, n), n, |scores|)
    ensures var sen, t := n + deltas[0], Sums(deltas[1..], n + deltas[0]);
      && Sums(deltas, n) == [sen] + t && n <= sen < |scores|
      && Increasing(t) && Within(t, sen, |scores|) && (forall x :: x in t ==> x > sen)
  {
    var sen, t, s := n + deltas[0], Sums(deltas[1..], n + deltas[0]), Sums(deltas, n);
    assert s == [sen] + t && s[0] == sen;
    assert forall i :: 0 <= i < |t| ==> t[i] == s[i + 1];
  }

  lemma PickedHead(sen: nat, t: seq<int>, scores: seq<int>, rest: seq<int>)
    requires sen < |scores| && Within(t, sen, |scores|) && Within([sen] + t, 0, |scores|) && IsScores(scores)
    ensures var file, more := PutAll(Picked(scores, [sen] + t)) + rest, PutAll(Picked(scores, t)) + rest;
      |file| >= 2 && Get16(file) == scores[sen] && file[2..] == more
  {
    var file, more := PutAll(Picked(scores, [sen] + t)) + rest, PutAll(Picked(scores, t)) + rest;
    assert Picked(scores, [sen] + t)[1..] == Picked(scores, t);
    assert file == Put16(scores[sen]) + more;
    GetPut16(scores[sen], more);
  }

  /** One senone is filled from its file, the gap before it with dummies. */
  lemma FillStep(deltas: seq<int>, n: nat, sofar: seq<int>, file: seq<int>, sen: nat, score: int)
    requires BytesOf(deltas) && deltas != [] && sen == n + deltas[0] && n <= sen < |sofar|
    requires |file| >= 2 && Get16(file) == score
    ensures Fill(deltas, n, sofar, file)
         == Fill(deltas[1..], sen, Dummies(sofar, n + 1, sen)[sen := score], file[2..])
  {
    hide Get16, Dummies;
  }

  lemma {:induction false} FillPut(deltas: seq<int>, n: nat, scores: seq<int>, sofar: seq<int>, rest: seq<int>)
    requires BytesOf(deltas) && IsScores(scores) && |sofar| == |scores|
    requires Increasing(Sums(deltas, n)) && Within(Sums(deltas, n), n, |scores|)
    ensures var s := Sums(deltas, n); var r := Fill(deltas, n, sofar, PutAll(Picked(scores, s)) + rest);
      && r.Some? && r.value.rest == rest
      && forall k :: 0 <= k < |scores| ==> r.value.scores[k] == Expected(s, n, scores, sofar, k)
    decreases |deltas|
  {
    if deltas == [] {
      assert PutAll(Picked(scores, Sums(deltas, n))) + rest == rest;
    } else {
      var sen: nat, t := n + deltas[0], Sums(deltas[1..], n + deltas[0]);
      FillHead(deltas, n, scores);
      var next := Dummies(sofar, n + 1, sen)[sen := scores[sen]];
      hide PutAll, Picked, Get16, Expected, Dummies, Sums, Fill;
      FillPut(deltas[1..], sen, scores, next, rest);
      FillNext(deltas, n, scores, sofar, rest, sen, t);
      forall k | 0 <= k < |scores|
        ensures Expected(t, sen, scores, next, k) == Expected([sen] + t, n, scores, sofar, k)
      {
        ExpectedStep(t, n, sen, scores, sofar, k);
      }
    }
  }

  lemma FillNext(deltas: seq<int>, n: nat, scores: seq<int>, sofar: seq<int>, rest: seq<int>, sen: nat, t: seq<int>)
    requires BytesOf(deltas) && deltas != [] && IsScores(scores) && |sofar| == |scores|
    requires sen == n + deltas[0] && n <= sen < |scores| && Within(t, sen, |scores|)
    ensures Within([sen] + t, 0, |scores|)
    ensures Fill(deltas, n, sofar, PutAll(Picked(scores, [sen] + t)) + rest)
         == Fill(deltas[1..], sen, Dummies(sofar, n + 1, sen)[sen := scores[sen]], PutAll(Picked(scores, t)) + rest)
  {
    assert Within([sen] + t, 0, |scores|);
    PickedHead(sen, t, scores, rest);
    FillStep(deltas, n, sofar, PutAll(Picked(scores, [sen] + t)) + rest, sen, scores[sen]);
  }

  lemma ReadParts(prior: seq<int>, list: seq<int>, more: seq<int>)
    requires BytesOf(list) && BytesOf(more) && |list| < 0x8000 && |list| < |prior|
    ensures BytesOf(Put16(|list|) + (list + more))
    ensures ReadFrame(prior, Put16(|list|) + (list + more)) == Fill(list, 0, prior, more)
  {
    var file := Put16(|list|) + (list + more);
    GetPut16(|list|, list + more);
    assert file[2..] == list + more;
    assert (list + more)[..|list|] == list && (list + more)[|list|..] == more;
  }

  lemma PutAllBytes(scores: seq<int>)
    ensures BytesOf(PutAll(scores))
  {
  }

  lemma WriteIsFile(flags: seq<bool>, scores: seq<int>, rest: seq<int>)
    requires |scores| == |flags| && BytesOf(rest)
    ensures Within(SenonesOf(flags), 0, |scores|) && BytesOf(WriteFrame(ListOf(flags), scores) + rest)
  {
    ListIsExact(flags);
    PutAllBytes(scores);
    PutAllBytes(Picked(scores, SenonesOf(flags)));
  }

  ghost predicate RoundTrips(flags: seq<bool>, scores: seq<int>, prior: seq<int>, rest: seq<int>)
    requires |scores| == |flags| == |prior| && BytesOf(rest)
  {
    WriteIsFile(flags, scores, rest);
    var r := ReadFrame(prior, WriteFrame(ListOf(flags), scores) + rest);
    r.Some? && r.value.rest == rest && Restored(SenonesOf(flags), scores, prior, r.value.scores)
  }

  lemma FullListRoundTrips(flags: seq<bool>, scores: seq<int>, prior: seq<int>, rest: seq<int>)
    requires |scores| == |flags| == |prior| && IsScores(scores) && BytesOf(rest) && |ListOf(flags)| == |flags| < 0x8000
    ensures RoundTrips(flags, scores, prior, rest)
  {
    var s := SenonesOf(flags);
    WriteIsFile(flags, scores, rest);
    ListFits(flags);
    forall k | 0 <= k < |scores| ensures k in s {
      assert s[k] == k;
    }
    hide SenonesOf, ListOf, PutAll, GetAll, Put16, Fill, BytesOf;
    var file := WriteFrame(ListOf(flags), scores) + rest;
    assert file == Put16(|flags|) + (PutAll(scores) + rest);
    GetPut16(|flags|, PutAll(scores) + rest);
    assert file[2..] == PutAll(scores) + rest;
    GetAllPut(scores, rest);
  }

  lemma ExpectedIsRestored(s: seq<int>, scores: seq<int>, prior: seq<int>, got: seq<int>)
    requires |got| == |scores| == |prior|
    requires forall k :: 0 <= k < |scores| ==> got[k] == Expected(s, 0, scores, prior, k)
    ensures Restored(s, scores, prior, got)
  {
  }

  lemma Regroup(a: seq<int>, b: seq<int>, c: seq<int>, d: seq<int>)
    ensures a + (b + c) + d == a + (b + (c + d))
  {
  }

  lemma WriteParts(list: seq<int>, scores: seq<int>, rest: seq<int>)
    requires |list| < |scores| && |list| < 0x8000 && Within(Sums(list, 0), 0, |scores|) && BytesOf(rest)
    ensures var more := PutAll(Picked(scores, Sums(list, 0))) + rest;
      BytesOf(more) && WriteFrame(list, scores) + rest == Put16(|list|) + (list + more)
  {
    hide Sums, Within, PutAll, Picked, Put16;
    var picked := PutAll(Picked(scores, Sums(list, 0)));
    PutAllBytes(Picked(scores, Sums(list, 0)));
    Regroup(Put16(|list|), list, picked, rest);
  }

  lemma ReadWritten(list: seq<int>, scores: seq<int>, prior: seq<int>, rest: seq<int>)
    requires |scores| == |prior| && IsScores(scores) && BytesOf(rest) && BytesOf(list)
    requires |list| < |scores| && |list| < 0x8000
    requires Increasing(Sums(list, 0)) && Within(Sums(list, 0), 0, |scores|)
    ensures BytesOf(WriteFrame(list, scores) + rest)
    ensures var r := ReadFrame(prior, WriteFrame(list, scores) + rest);
      r.Some? && r.value.rest == rest && Restored(Sums(list, 0), scores, prior, r.value.scores)
  {
    hide Sums, PutAll, Picked, WriteFrame, ReadFrame, Fill, Increasing, Within, Restored, Expected, BytesOf, Put16,
      IsScores;
    var s := Sums(list, 0);
    var more := PutAll(Picked(scores, s)) + rest;
    WriteParts(list, scores, rest);
    FillPut(list, 0, scores, prior, rest);
    ReadParts(prior, list, more);
    ExpectedIsRestored(s, scores, prior, Fill(list, 0, prior, more).value.scores);
  }

  lemma PartListRoundTrips(flags: seq<bool>, scores: seq<int>, prior: seq<int>, rest: seq<int>)
    requires |scores| == |flags| == |prior| && IsScores(scores) && BytesOf(rest)
    requires |ListOf(flags)| != |flags| && |ListOf(flags)| < 0x8000
    ensures RoundTrips(flags, scores, prior, rest)
  {
    assert |ListOf(flags)| < |flags| by { ListFits(flags); }
    ListIsExact(flags);
    hide OnBridge, Deltas, ListOf, WriteFrame, ReadFrame, Restored, Increasing, Within, BytesOf, Sums;
    assert SenonesOf(flags) == Sums(ListOf(flags), 0);
    ReadWritten(ListOf(flags), scores, prior, rest);
  }

  lemma {:induction false} FillConsumes(deltas: seq<int>, n: nat, scores: seq<int>, file: seq<int>)
    requires BytesOf(deltas)
    ensures var r := Fill(deltas, n, scores, file); r.Some? ==> |r.value.rest| == |file| - 2 * |deltas|
    decreases |deltas|
  {
    if deltas != [] {
      var sen: nat := n + deltas[0];
      if sen < |scores| && |file| >= 2 {
        FillConsumes(deltas[1..], sen, Dummies(scores, n + 1, sen)[sen := Get16(file)], file[2..]);
      }
    }
  }

  lemma ReadConsumes(prior: seq<int>, n: int, body: seq<int>)
    requires -0x8000 <= n < 0x8000 && n != |prior| && BytesOf(Put16(n) + body)
    ensures var r := ReadFrame(prior, Put16(n) + body); r.Some? ==> n >= 0 && |r.value.rest| == |body| - 3 * n
  {
    var file := Put16(n) + body;
    GetPut16(n, body);
    assert file[2..] == body;
    if 0 <= n <= |body| && n <= |prior| {
      FillConsumes(body[..n], 0, prior, body[n..]);
    }
  }

  /** A longer list has its count cut, and the reader stops somewhere else than at the next frame. */
  lemma LongListLosesFrame(flags: seq<bool>, scores: seq<int>, prior: seq<int>, rest: seq<int>)
    requires |scores| == |flags| == |prior| && BytesOf(rest) && |ListOf(flags)| >= 0x8000
    ensures !RoundTrips(flags, scores, prior, rest)
  {
    var list := ListOf(flags);
    WriteIsFile(flags, scores, rest);
    ListFits(flags);
    var n := Wrap16(|list|);
    var after := if |list| == |scores| then PutAll(scores) else list + PutAll(Picked(scores, SenonesOf(flags)));
    assert |after| >= 2 * |list|;
    assert WriteFrame(list, scores) + rest == Put16(n) + (after + rest);
    hide WriteFrame, ReadFrame, ListOf, SenonesOf, BytesOf, PutAll, Restored, Wrap16;
    ReadConsumes(prior, n, after + rest);
    if n >= 0 {
      LongCount(|list|, n);
    }
  }

  lemma LongCount(len: nat, n: int)
    requires len >= 0x8000 && n == Wrap16(len) && n >= 0
    ensures n <= len - 0x1_0000
  {
  }

  /** Reading back a frame written from a list restores every listed score, puts the dummy in every other
      senone but the first, and leaves the file at the next frame, exactly when the list has fewer than
      32768 entries. */
  lemma RoundTripExact(flags: seq<bool>, scores: seq<int>, prior: seq<int>, rest: seq<int>)
    requires |scores| == |flags| == |prior| && IsScores(scores) && BytesOf(rest)
    ensures RoundTrips(flags, scores, prior, rest) <==> |ListOf(flags)| < 0x8000
  {
    if |ListOf(flags)| < 0x8000 {
      if |ListOf(flags)| == |flags| {
        FullListRoundTrips(flags, scores, prior, rest);
      } else {
        PartListRoundTrips(flags, scores, prior, rest);
      }
    } else {
      LongListLosesFrame(flags, scores, prior, rest);
    }
  }

  function AllFlags(n: nat): (flags: seq<bool>)
    ensures |flags| == n && forall k :: 0 <= k < n ==> flags[k]
  {
    seq(n, _ => true)
  }

  lemma {:induction false} AllListed(flags: seq<bool>, i: nat, l: int)
    requires i <= |flags| && i - 1 <= l <= i && forall k :: 0 <= k < |flags| ==> flags[k]
    ensures |Deltas(flags, i, l)| == |flags| - i
    decreases |flags| - i
  {
    if i < |flags| {
      AllListed(flags, i + 1, i);
    }
  }

  /** With every senone of n active, the frame can be read back if and only if n is below 32768. */
  lemma AllActiveExact(n: nat, scores: seq<int>, prior: seq<int>, rest: seq<int>)
    requires |scores| == |prior| == n && IsScores(scores) && BytesOf(rest)
    ensures RoundTrips(AllFlags(n), scores, prior, rest) <==> n < 0x8000
  {
    hide RoundTrips;
    AllListed(AllFlags(n), 0, 0);
    RoundTripExact(AllFlags(n), scores, prior, rest);
  }

  // ---- the acoustic model's fields

  lemma {:induction false} NoFlags(flags: seq<bool>, i: nat, j: nat, l: int)
    requires i <= j <= |flags| && forall k :: i <= k < j ==> !flags[k]
    ensures Deltas(flags, i, l) == Deltas(flags, j, l)
    decreases j - i
  {
    if i < j {
      NoFlags(flags, i + 1, j, l);
    }
  }

  lemma SumsStep(list: seq<int>, sums: seq<int>, i: nat, n: int)
    requires i < |list| == |sums| && sums[i..] == Sums(list[i..], n)
    ensures sums[i] == n + list[i] && sums[i + 1..] == Sums(list[i + 1..], n + list[i])
  {
    assert list[i..][1..] == list[i + 1..] && sums[i..][1..] == sums[i + 1..];
    assert sums[i..][0] == sums[i];
  }

  lemma PutStep(scores: seq<int>, i: nat)
    requires i < |scores|
    ensures PutAll(scores[i..]) == Put16(scores[i]) + PutAll(scores[i + 1..])
  {
    assert scores[i..][1..] == scores[i + 1..];
  }

  /** One more score of the list written. */
  lemma ListedStep(list: seq<int>, sums: seq<int>, picked: seq<int>, i: nat, n: int, file: seq<int>)
    requires i < |list| == |sums| == |picked| && sums[i..] == Sums(list[i..], n)
    requires file + PutAll(picked[i..]) == PutAll(picked)
    ensures sums[i] == n + list[i] && sums[i + 1..] == Sums(list[i + 1..], n + list[i])
    ensures file + Put16(picked[i]) + PutAll(picked[i + 1..]) == PutAll(picked)
  {
    SumsStep(list, sums, i, n);
    PutStep(picked, i);
    hide PutAll, Put16;
    assert file + Put16(picked[i]) + PutAll(picked[i + 1..]) == file + (Put16(picked[i]) + PutAll(picked[i + 1..]));
  }

  lemma PickedAt(scores: seq<int>, senones: seq<int>)
    requires Within(senones, 0, |scores|)
    ensures forall k :: 0 <= k < |senones| ==>
      0 <= senones[k] < |scores| && Picked(scores, senones)[k] == scores[senones[k]]
  {
  }

  lemma PutNone()
    ensures PutAll([]) == []
  {
  }

  class SenoneState {
    const nSen: nat
    const activeVec: array<bool>
    const senoneActive: array<int>
    const senoneScores: array<int>
    var nSenoneActive: int
    var compallsen: bool

    ghost predicate Valid()
      reads this
    {
      && activeVec.Length == senoneActive.Length == senoneScores.Length == nSen
      && senoneActive != senoneScores
    }

    constructor (nSen: nat, compallsen: bool)
      ensures Valid() && fresh(activeVec) && fresh(senoneActive) && fresh(senoneScores)
      ensures this.nSen == nSen && this.compallsen == compallsen && nSenoneActive == 0
    {
      this.nSen, this.compallsen := nSen, compallsen;
      activeVec := new bool[nSen](_ => false);
      senoneActive := new int[nSen](_ => 0);
      senoneScores := new int[nSen](_ => 0);
      nSenoneActive := 0;
    }

    /** One flagged senone: its delta after l, in bytes. */
    method AddDelta(sen: nat, l: int, n0: nat) returns (n: nat)
      requires Valid() && n0 + |Bridge(sen - l)| <= nSen
      modifies senoneActive
      ensures n == n0 + |Bridge(sen - l)| && senoneActive[..n] == old(senoneActive[..n0]) + Bridge(sen - l)
    {
      n := n0;
      var delta := sen - l;
      while delta > 255
        invariant n0 <= n && n + |Bridge(delta)| == n0 + |Bridge(sen - l)|
        invariant senoneActive[..n] + Bridge(delta) == old(senoneActive[..n0]) + Bridge(sen - l)
        decreases delta
      {
        senoneActive[n] := 255;
        n := n + 1;
        delta := delta - 255;
      }
      senoneActive[n] := delta;
      n := n + 1;
    }

    /** The flags of one word, or of the bits left at the end. */
    method AddWord(from: nat, bits: nat, l0: int, n0: nat) returns (l: int, n: nat)
      requires Valid() && from + bits <= nSen && n0 <= nSen
      requires senoneActive[..n0] + Deltas(activeVec[..], from, l0) == ListOf(activeVec[..])
      modifies senoneActive
      ensures n <= nSen && senoneActive[..n] + Deltas(activeVec[..], from + bits, l) == ListOf(activeVec[..])
    {
      ghost var flags := activeVec[..];
      ListFits(flags);
      l, n := l0, n0;
      for b := 0 to bits
        invariant n <= nSen && activeVec[..] == flags
        invariant senoneActive[..n] + Deltas(flags, from + b, l) == ListOf(flags)
      {
        if activeVec[from + b] {
          var sen := from + b;
          assert |ListOf(flags)| >= n + |Bridge(sen - l)|;
          n := AddDelta(sen, l, n);
          l := sen;
        }
      }
    }

    predicate WordIsZero(w: nat)
      requires Valid() && (w + 1) * BITVEC_BITS <= nSen
      reads this, activeVec
    {
      forall k :: w * BITVEC_BITS <= k < (w + 1) * BITVEC_BITS ==> !activeVec[k]
    }

    /** acmod_flags2list, a word of flags at a time. */
    method Flags2List() returns (n: nat)
      requires Valid()
      modifies this`nSenoneActive, senoneActive
      ensures n == nSenoneActive <= nSen
      ensures compallsen ==> n == nSen && senoneActive[..] == old(senoneActive[..])
      ensures !compallsen ==> senoneActive[..n] == ListOf(activeVec[..])
    {
      if compallsen {
        nSenoneActive := nSen;
        return nSen;
      }
      ghost var flags := activeVec[..];
      var totalWords := nSen / BITVEC_BITS;
      var w, l := 0, 0;
      n := 0;
      while w < totalWords
        invariant w <= totalWords && n <= nSen && activeVec[..] == flags
        invariant senoneActive[..n] + Deltas(flags, w * BITVEC_BITS, l) == ListOf(flags)
      {
        if WordIsZero(w) {
          NoFlags(flags, w * BITVEC_BITS, (w + 1) * BITVEC_BITS, l);
        } else {
          l, n := AddWord(w * BITVEC_BITS, BITVEC_BITS, l, n);
        }
        w := w + 1;
      }
      l, n := AddWord(w * BITVEC_BITS, nSen % BITVEC_BITS, l, n);
      assert senoneActive[..n] == senoneActive[..n] + [];
      nSenoneActive := n;
    }

    /** Every score in turn. */
    method WriteAll() returns (file: seq<int>)
      requires Valid()
      ensures file == PutAll(senoneScores[..])
    {
      ghost var scores := senoneScores[..];
      file := [];
      for i := 0 to nSen
        invariant file + PutAll(scores[i..]) == PutAll(scores)
      {
        file := file + Put16(senoneScores[i]);
      }
    }

    /** The scores of the listed senones. */
    method WriteListed(na: nat) returns (file: seq<int>)
      requires Valid() && na <= nSen && Within(Sums(senoneActive[..na], 0), 0, nSen)
      ensures file == PutAll(Picked(senoneScores[..], Sums(senoneActive[..na], 0)))
    {
      ghost var list := senoneActive[..na];
      ghost var sums := Sums(list, 0);
      ghost var picked := Picked(senoneScores[..], sums);
      var n := 0;
      file := [];
      hide PutAll, Sums, Put16, Picked, Within, IsScores, BytesOf;
      assert list[0..] == list && sums[0..] == sums && picked[0..] == picked;
      PickedAt(senoneScores[..], sums);
      for i := 0 to na
        invariant sums[i..] == Sums(list[i..], n) && file + PutAll(picked[i..]) == PutAll(picked)
      {
        ListedStep(list, sums, picked, i, n, file);
        n := n + senoneActive[i];
        file := file + Put16(senoneScores[n]);
      }
      PutNone();
      assert picked[na..] == [];
    }

    /** acmod_write_scores for the current list: the bytes of the frame. */
    method WriteScores() returns (file: seq<int>)
      requires Valid() && 0 <= nSenoneActive <= nSen
      requires nSenoneActive < nSen ==> Within(Sums(senoneActive[..nSenoneActive], 0), 0, nSen)
      ensures nSenoneActive == nSen ==> file == Put16(Wrap16(nSen)) + PutAll(senoneScores[..])
      ensures nSenoneActive < nSen ==> file == WriteFrame(senoneActive[..nSenoneActive], senoneScores[..])
    {
      var na: nat := nSenoneActive;
      file := Put16(Wrap16(na));
      if na == nSen {
        var scores := WriteAll();
        file := file + scores;
      } else {
        for i := 0 to na
          invariant file == Put16(Wrap16(na)) + senoneActive[..i]
        {
          file := file + [senoneActive[i]];
        }
        var scores := WriteListed(na);
        file := file + scores;
      }
    }

    /** The loop that puts dummies from one senone to before another. */
    method PutDummies(from: nat, to: nat)
      requires Valid() && to <= nSen
      modifies senoneScores
      ensures senoneScores[..] == Dummies(old(senoneScores[..]), from, to)
    {
      var j := from;
      while j < to
        invariant from <= j && (j <= to || j == from)
        invariant forall k :: 0 <= k < nSen ==>
          senoneScores[k] == if from <= k < j then SENSCR_DUMMY else old(senoneScores[k])
      {
        senoneScores[j] := SENSCR_DUMMY;
        j := j + 1;
      }
    }

    /** The full frame: every score in turn. */
    method ReadAll(file: seq<int>) returns (ok: bool, rest: seq<int>)
      requires Valid()
      modifies senoneScores
      ensures ok <==> GetAll(nSen, file).Some?
      ensures ok ==> GetAll(nSen, file) == Some(Frame(senoneScores[..], rest))
    {
      ghost var whole := GetAll(nSen, file);
      rest := file;
      for i := 0 to nSen
        invariant whole.Some? <==> GetAll(nSen - i, rest).Some?
        invariant whole.Some? ==> whole.value == After(senoneScores[..i], GetAll(nSen - i, rest).value)
      {
        if |rest| < 2 {
          return false, rest;
        }
        senoneScores[i] := Get16(rest);
        rest := rest[2..];
        assert senoneScores[..i + 1] == senoneScores[..i] + [senoneScores[i]];
      }
      assert GetAll(0, rest) == Some(Frame([], rest));
      assert senoneScores[..nSen] + [] == senoneScores[..];
      ok := true;
    }

    /** The scores of a list of senones. */
    method ReadListed(n0: nat, file: seq<int>) returns (ok: bool, rest: seq<int>)
      requires Valid() && n0 <= nSen && BytesOf(senoneActive[..n0])
      modifies senoneScores
      ensures ok <==> Fill(senoneActive[..n0], 0, old(senoneScores[..]), file).Some?
      ensures ok ==> Fill(senoneActive[..n0], 0, old(senoneScores[..]), file) == Some(Frame(senoneScores[..], rest))
    {
      ghost var list := senoneActive[..n0];
      ghost var whole := Fill(list, 0, senoneScores[..], file);
      rest := file;
      var n: nat := 0;
      assert list[0..] == list;
      for i := 0 to n0
        invariant senoneActive[..n0] == list && BytesOf(list[i..])
        invariant Fill(list[i..], n, senoneScores[..], rest) == whole
      {
        assert list[i..][0] == senoneActive[i] && list[i..][1..] == list[i + 1..];
        var sen: nat := n + senoneActive[i];
        if sen >= nSen || |rest| < 2 {
          return false, rest;
        }
        PutDummies(n + 1, sen);
        senoneScores[sen] := Get16(rest);
        rest := rest[2..];
        n := sen;
      }
      PutDummies(n + 1, nSen);
      ok := true;
    }

    /** acmod_read_scores_internal: the frame at the current position of the file. */
    method ReadScores(file: seq<int>) returns (ok: bool, rest: seq<int>)
      requires Valid() && BytesOf(file)
      modifies this`nSenoneActive, senoneActive, senoneScores
      ensures ok <==> ReadFrame(old(senoneScores[..]), file).Some?
      ensures ok ==> ReadFrame(old(senoneScores[..]), file) == Some(Frame(senoneScores[..], rest))
    {
      if |file| < 2 {
        return false, file;
      }
      var n := Get16(file);
      var body := file[2..];
      nSenoneActive := n;
      if n == nSen {
        ok, rest := ReadAll(body);
      } else if n < 0 || n > nSen || |body| < n {
        return false, body;
      } else {
        for i := 0 to n
          invariant senoneActive[..i] == body[..i] && senoneScores[..] == old(senoneScores[..])
        {
          senoneActive[i] := body[i];
        }
        ok, rest := ReadListed(n, body[n..]);
      }
    }
  }
}
