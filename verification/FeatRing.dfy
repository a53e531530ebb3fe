/** The feature frame buffer of the acoustic model (src/acmod.c): circular with look-back, or growing so
    that an utterance can be rewound. */
module FeatRing {
  import opened Basics

  /** One frame: a vector for each feature stream. */
  datatype Feat = Feat(streams: seq<seq<real>>)
  const BLANK := Feat([])

  const GROW_SIZE: nat := 128

  /** buf, n_feat_frame, feat_outidx, output_frame and grow_feat. */
  datatype Ring = Ring(buf: seq<Feat>, n: int, out: nat, frame: nat, grow: bool)

  predicate IsRing(r: Ring) {
    0 <= r.n <= |r.buf| && r.out < |r.buf|
  }

  // ---- the operations

  function Start(r: Ring): Ring {
    r.(n := 0, out := 0, frame := 0)
  }

  function Enlarged(buf: seq<Feat>, nfr: nat): seq<Feat> {
    if nfr <= |buf| then buf else buf + seq(nfr - |buf|, _ => BLANK)
  }

  /** The size found by doubling until there is room for the frame at inptr and one more. */
  function Doubled(alloc: nat, inptr: nat): (size: nat)
    requires alloc > 0
    ensures size >= alloc && size > inptr + 1
    decreases inptr + 2 - alloc
  {
    if inptr + 1 >= alloc then Doubled(alloc * 2, inptr) else alloc
  }

  /** A size got from another by doubling. */
  predicate IsDoubled(alloc: nat, size: nat) {
    size == alloc || (size > alloc && size % 2 == 0 && IsDoubled(alloc, size / 2))
  }

  lemma {:induction false} DoublingOnce(alloc: nat, size: nat)
    requires alloc > 0 && IsDoubled(alloc * 2, size)
    ensures IsDoubled(alloc, size)
    decreases size
  {
    if size == alloc * 2 {
      assert IsDoubled(alloc, size / 2);
    } else {
      DoublingOnce(alloc, size / 2);
    }
  }

  /** The buffer is doubled until there is room, and not once more. */
  lemma {:induction false} DoubledExact(alloc: nat, inptr: nat)
    requires alloc > 0
    ensures var size := Doubled(alloc, inptr);
      IsDoubled(alloc, size) && size > inptr + 1 && (size == alloc || size / 2 <= inptr + 1)
    decreases inptr + 2 - alloc
  {
    if inptr + 1 >= alloc {
      DoubledExact(alloc * 2, inptr);
      DoublingOnce(alloc, Doubled(alloc * 2, inptr));
    }
  }

  function SetGrow(r: Ring, grow: bool): Ring {
    if grow then r.(grow := true, buf := Enlarged(r.buf, GROW_SIZE)) else r.(grow := false)
  }

  function MakeRoom(r: Ring): (r': Ring)
    requires IsRing(r)
    ensures |r'.buf| >= |r.buf| && r' == r.(buf := r'.buf) && (r.grow ==> |r'.buf| > r.out + r.n + 1)
  {
    var full := if r.grow && r.n == |r.buf| then Enlarged(r.buf, |r.buf| * 2) else r.buf;
    if r.grow then r.(buf := Enlarged(full, Doubled(|full|, r.out + r.n))) else r
  }

  predicate IsFull(r: Ring) {
    !r.grow && r.n == |r.buf|
  }

  /** acmod_process_feat: a full circular buffer takes no frame. */
  function Store(r: Ring, f: Feat): Ring
    requires IsRing(r)
  {
    if IsFull(r) then r
    else
      var m := MakeRoom(r);
      var at := if r.grow then r.out + r.n else (r.out + r.n) % |m.buf|;
      m.(buf := m.buf[at := f], n := r.n + 1)
  }

  lemma StoreAt(r: Ring, f: Feat)
    requires IsRing(r) && !IsFull(r)
    ensures var m, at := MakeRoom(r), if r.grow then r.out + r.n else (r.out + r.n) % |MakeRoom(r).buf|;
      at < |m.buf| && Store(r, f) == Ring(m.buf[at := f], r.n + 1, r.out, r.frame, r.grow)
  {
  }

  /** acmod_advance, for callers that checked that there is a frame. */
  function Advance(r: Ring): Ring
    requires IsRing(r)
  {
    r.(out := if r.out + 1 == |r.buf| then 0 else r.out + 1, n := r.n - 1, frame := r.frame + 1)
  }

  /** acmod_rewind. */
  function Rewind(r: Ring): Option<Ring> {
    if r.frame > |r.buf| then None else Some(r.(n := r.frame + r.n, out := 0, frame := 0))
  }

  /** calc_frame_idx: the current frame by default, frames from the end for negative numbers. */
  function FrameIdx(r: Ring, req: Option<int>): int {
    match req
    case None => r.frame
    case Some(k) => if k < 0 then r.frame + 1 + k else k
  }

  /** The remainder of C, with the sign of the dividend. */
  function Rem(a: int, b: nat): int
    requires b > 0
  {
    if a >= 0 then a % b else -(-a % b)
  }

  /** calc_feat_idx. */
  function FeatIdx(r: Ring, f: int): (k: Option<nat>)
    requires IsRing(r)
    ensures k.Some? ==> k.value < |r.buf|
  {
    if f < 0 || r.frame - f > |r.buf| - r.n then None
    else
      var k := Rem(r.out + f - r.frame, |r.buf|);
      RemIsMod(r.out + f - r.frame, |r.buf|);
      Some(Corrected(k, |r.buf|))
  }

  /** acmod_get_frame. */
  function GetFrame(r: Ring, f: int): Option<Feat>
    requires IsRing(r)
  {
    match FeatIdx(r, f)
    case None => None
    case Some(k) => Some(r.buf[k])
  }

  // ---- what the ring stands for: the sequence of frames fed in

  /** The last |buf| frames fed are each at their number modulo |buf|. */
  predicate Keeps(r: Ring, fed: seq<Feat>) {
    && IsRing(r) && |fed| == r.frame + r.n && r.out == r.frame % |r.buf|
    && forall f :: 0 <= f < |fed| && f >= |fed| - |r.buf| ==> r.buf[f % |r.buf|] == fed[f]
  }

  /** In grow mode nothing has wrapped. */
  predicate KeepsAll(r: Ring, fed: seq<Feat>) {
    && IsRing(r) && r.grow && |fed| == r.frame + r.n && r.out == r.frame && |fed| < |r.buf|
    && forall f :: 0 <= f < |fed| ==> r.buf[f] == fed[f]
  }

  /** The remainder is the only number below m that differs by a multiple of m. */
  lemma ModUnique(x: int, q: int, c: int, m: nat)
    requires x == m * q + c && 0 <= c < m
    ensures x % m == c
  {
    var d := x / m - q;
    assert x == m * (x / m) + x % m;
    assert m * d == m * (x / m) - m * q;
    MulBound(m, d);
  }

  lemma ModShift(a: nat, k: nat, m: nat)
    requires m > 0
    ensures (a % m + k) % m == (a + k) % m
  {
    var b := a % m + k;
    assert a == m * (a / m) + a % m && b == m * (b / m) + b % m;
    assert m * (a / m + b / m) == m * (a / m) + m * (b / m);
    ModUnique(a + k, a / m + b / m, b % m, m);
  }

  lemma SmallMod(f: nat, m: nat)
    requires f < m
    ensures f % m == f
  {
    ModUnique(f, 0, f, m);
  }

  /** Distinct frames less than m apart are at distinct places. */
  lemma ModDistinct(a: nat, b: nat, m: nat)
    requires a < b < a + m
    ensures a % m != b % m
  {
    assert a == m * (a / m) + a % m && b == m * (b / m) + b % m;
    var d := b / m - a / m;
    assert m * d == m * (b / m) - m * (a / m);
    MulBound(m, d);
  }

  lemma StoreKeeps(r: Ring, fed: seq<Feat>, f: Feat)
    requires Keeps(r, fed) && !r.grow
    ensures Keeps(Store(r, f), if IsFull(r) then fed else fed + [f])
  {
    if !IsFull(r) {
      var m := |r.buf|;
      ModShift(r.frame, r.n, m);
      var fed', r' := fed + [f], Store(r, f);
      forall k | 0 <= k < |fed'| && k >= |fed'| - m ensures r'.buf[k % m] == fed'[k] {
        if k < |fed| {
          ModDistinct(k, |fed|, m);
        }
      }
    }
  }

  lemma AdvanceKeeps(r: Ring, fed: seq<Feat>)
    requires Keeps(r, fed) && r.n > 0
    ensures Keeps(Advance(r), fed)
  {
    var m := |r.buf|;
    NextPlace(r.frame, m);
    var r' := Advance(r);
    assert r'.out == r'.frame % m;
  }

  lemma NextPlace(a: nat, m: nat)
    requires m > 0
    ensures (a + 1) % m == if a % m + 1 == m then 0 else a % m + 1
  {
    assert a == m * (a / m) + a % m;
    if a % m + 1 == m {
      assert m * (a / m + 1) == m * (a / m) + m;
      ModUnique(a + 1, a / m + 1, 0, m);
    } else {
      ModUnique(a + 1, a / m, a % m + 1, m);
    }
  }

  function Corrected(k: int, m: nat): int {
    if k < 0 then k + m else k
  }

  /** What C's remainder and its correction compute. */
  lemma RemIsMod(a: int, m: nat)
    requires m > 0
    ensures Corrected(Rem(a, m), m) == a % m
  {
    if a < 0 {
      var b := -a;
      var c := b % m;
      assert b == m * (b / m) + c;
      if c == 0 {
        assert m * -(b / m) == -(m * (b / m));
        ModUnique(a, -(b / m), 0, m);
      } else {
        assert m * (-(b / m) - 1) == -(m * (b / m)) - m;
        ModUnique(a, -(b / m) - 1, m - c, m);
      }
    }
  }

  lemma PlaceOf(f: nat, frame: nat, m: nat)
    requires m > 0
    ensures (frame % m + f - frame) % m == f % m
  {
    assert frame == m * (frame / m) + frame % m && f == m * (f / m) + f % m;
    assert m * (f / m - frame / m) == m * (f / m) - m * (frame / m);
    ModUnique(frame % m + f - frame, f / m - frame / m, f % m, m);
  }

  lemma FeatIdxIsMod(r: Ring, fed: seq<Feat>, f: int)
    requires Keeps(r, fed) && 0 <= f && f >= |fed| - |r.buf|
    ensures FeatIdx(r, f) == Some(f % |r.buf|)
  {
    RemIsMod(r.out + f - r.frame, |r.buf|);
    PlaceOf(f, r.frame, |r.buf|);
  }

  /** Circular mode: a frame number is accepted exactly when it is not negative and not overwritten, and a
      frame that was fed then comes back as it was. */
  lemma GetFrameExact(r: Ring, fed: seq<Feat>, f: int)
    requires Keeps(r, fed)
    ensures GetFrame(r, f).Some? <==> 0 <= f && f >= |fed| - |r.buf|
    ensures GetFrame(r, f).Some? && f < |fed| ==> GetFrame(r, f) == Some(fed[f])
  {
    if 0 <= f && f >= |fed| - |r.buf| {
      FeatIdxIsMod(r, fed, f);
    }
  }

  /** A frame that was not fed yet is never refused, however far ahead: the fed frame whose place it would
      take comes back, or whatever the buffer held there before if none was fed into it. */
  lemma FutureFrameAliases(r: Ring, fed: seq<Feat>, f: int)
    requires Keeps(r, fed) && |fed| <= f
    ensures var m := |r.buf|;
      var g := |fed| - 1 - (|fed| - 1 - f) % m;
      && |fed| - m <= g < |fed| && g % m == f % m
      && GetFrame(r, f) == Some(if g >= 0 then fed[g] else r.buf[f % m])
  {
    var m := |r.buf|;
    var d := |fed| - 1 - f;
    assert d == m * (d / m) + d % m && f == m * (f / m) + f % m;
    assert m * (f / m + d / m) == m * (f / m) + m * (d / m);
    ModUnique(|fed| - 1 - d % m, f / m + d / m, f % m, m);
    FeatIdxIsMod(r, fed, f);
  }

  // ---- grow mode

  /** The room made for a frame: only so much more as doubling gives, and none in circular mode. */
  lemma RoomExact(r: Ring, fed: seq<Feat>)
    requires Keeps(r, fed) && (r.grow ==> KeepsAll(r, fed))
    ensures var m := MakeRoom(r);
      && m.buf[..|r.buf|] == r.buf
      && if !r.grow then m == r
         else IsDoubled(|r.buf|, |m.buf|) && (m.buf == r.buf || |m.buf| / 2 <= r.out + r.n + 1)
  {
    DoubledExact(|r.buf|, r.out + r.n);
    hide Doubled;
  }

  lemma StoreKeepsAll(r: Ring, fed: seq<Feat>, f: Feat)
    requires KeepsAll(r, fed)
    ensures KeepsAll(Store(r, f), fed + [f])
  {
  }

  lemma StoreKeepsBoth(r: Ring, fed: seq<Feat>, f: Feat)
    requires Keeps(r, fed) && (r.grow ==> KeepsAll(r, fed))
    ensures IsRing(r) && var fed' := if IsFull(r) then fed else fed + [f];
      Keeps(Store(r, f), fed') && (r.grow ==> KeepsAll(Store(r, f), fed'))
  {
    hide KeepsAll;
    if r.grow {
      StoreKeepsAll(r, fed, f);
      KeepsAllKeeps(Store(r, f), fed + [f]);
    } else {
      StoreKeeps(r, fed, f);
    }
  }

  lemma AdvanceKeepsAll(r: Ring, fed: seq<Feat>)
    requires KeepsAll(r, fed) && r.n > 0
    ensures KeepsAll(Advance(r), fed)
  {
  }

  lemma RewindKeepsAll(r: Ring, fed: seq<Feat>)
    requires KeepsAll(r, fed)
    ensures Rewind(r).Some? && KeepsAll(Rewind(r).value, fed) && Rewind(r).value.frame == 0
  {
  }

  lemma StartKeeps(r: Ring, grow: bool)
    requires |r.buf| > 0
    ensures Keeps(SetGrow(Start(r), grow), []) && (grow ==> KeepsAll(SetGrow(Start(r), grow), []))
  {
  }

  /** Every frame number that was not fed is refused or past the end; every frame that was fed comes back. */
  lemma GetFrameAll(r: Ring, fed: seq<Feat>, f: nat)
    requires KeepsAll(r, fed) && f < |fed|
    ensures GetFrame(r, f) == Some(fed[f])
  {
    KeepsAllKeeps(r, fed);
    GetFrameExact(r, fed, f);
  }

  lemma KeepsAllKeeps(r: Ring, fed: seq<Feat>)
    requires KeepsAll(r, fed)
    ensures Keeps(r, fed)
  {
    SmallMod(r.frame, |r.buf|);
    forall f | 0 <= f < |fed| ensures r.buf[f % |r.buf|] == fed[f] {
      SmallMod(f, |r.buf|);
    }
  }

  // ---- whole runs

  datatype Op = Feed(f: Feat) | Next | Back

  predicate OpOk(r: Ring, op: Op) {
    IsRing(r) && (op.Next? ==> r.n > 0) && (op.Back? ==> r.grow)
  }

  function Apply(r: Ring, op: Op): Ring
    requires OpOk(r, op)
  {
    match op
    case Feed(f) => Store(r, f)
    case Next => Advance(r)
    case Back => if Rewind(r).Some? then Rewind(r).value else r
  }

  predicate RunOk(r: Ring, ops: seq<Op>)
    decreases |ops|
  {
    ops == [] || (OpOk(r, ops[0]) && RunOk(Apply(r, ops[0]), ops[1..]))
  }

  function Run(r: Ring, ops: seq<Op>): Ring
    requires RunOk(r, ops)
    decreases |ops|
  {
    if ops == [] then r else Run(Apply(r, ops[0]), ops[1..])
  }

  /** The frames taken in over a run: all those offered, except to a full circular buffer. */
  function Taken(r: Ring, fed: seq<Feat>, ops: seq<Op>): seq<Feat>
    requires RunOk(r, ops)
    decreases |ops|
  {
    if ops == [] then fed
    else Taken(Apply(r, ops[0]), if ops[0].Feed? && !IsFull(r) then fed + [ops[0].f] else fed, ops[1..])
  }

  /** The circular buffer refines the sequence of frames it took in, over any run. */
  lemma {:induction false} CircularRun(r: Ring, fed: seq<Feat>, ops: seq<Op>)
    requires Keeps(r, fed) && !r.grow && RunOk(r, ops)
    ensures Keeps(Run(r, ops), Taken(r, fed, ops))
    decreases |ops|
  {
    if ops != [] {
      match ops[0] {
        case Feed(f) => StoreKeeps(r, fed, f);
        case Next => AdvanceKeeps(r, fed);
        case Back =>
      }
      hide Keeps;
      var fed' := if ops[0].Feed? && !IsFull(r) then fed + [ops[0].f] else fed;
      CircularRun(Apply(r, ops[0]), fed', ops[1..]);
    }
  }

  function OfferedOne(op: Op): seq<Feat> {
    if op.Feed? then [op.f] else []
  }

  function Offered(ops: seq<Op>): seq<Feat> {
    if ops == [] then [] else OfferedOne(ops[0]) + Offered(ops[1..])
  }

  lemma GrowingStep(r: Ring, fed: seq<Feat>, op: Op)
    requires KeepsAll(r, fed) && OpOk(r, op)
    ensures KeepsAll(Apply(r, op), fed + OfferedOne(op))
  {
    hide KeepsAll, Store, Advance, Rewind;
    match op
    case Feed(f) => StoreKeepsAll(r, fed, f);
    case Next =>
      AdvanceKeepsAll(r, fed);
      assert fed + OfferedOne(op) == fed;
    case Back =>
      RewindKeepsAll(r, fed);
      assert fed + OfferedOne(op) == fed;
  }

  lemma OfferedCons(fed: seq<Feat>, ops: seq<Op>)
    requires ops != []
    ensures fed + Offered(ops) == fed + OfferedOne(ops[0]) + Offered(ops[1..])
  {
  }

  /** In grow mode, with any number of rewinds, nothing that was offered is ever lost. */
  lemma {:induction false} GrowingRun(r: Ring, fed: seq<Feat>, ops: seq<Op>)
    requires KeepsAll(r, fed) && RunOk(r, ops)
    ensures KeepsAll(Run(r, ops), fed + Offered(ops))
    decreases |ops|
  {
    if ops == [] {
      assert fed + Offered(ops) == fed;
    } else {
      hide KeepsAll, Apply, OpOk, Offered, OfferedOne;
      GrowingStep(r, fed, ops[0]);
      OfferedCons(fed, ops);
      GrowingRun(Apply(r, ops[0]), fed + OfferedOne(ops[0]), ops[1..]);
    }
  }

  /** Reading the current frame and advancing, as long as there is one. */
  function Replay(r: Ring): seq<Option<Feat>>
    requires IsRing(r)
    decreases r.n
  {
    if r.n <= 0 then [] else [GetFrame(r, FrameIdx(r, None))] + Replay(Advance(r))
  }

  function Present(fed: seq<Feat>): seq<Option<Feat>> {
    seq(|fed|, k requires 0 <= k < |fed| => Some(fed[k]))
  }

  lemma {:induction false} ReplayRest(r: Ring, fed: seq<Feat>)
    requires Keeps(r, fed)
    ensures Replay(r) == Present(fed[r.frame..])
    decreases r.n
  {
    if r.n > 0 {
      GetFrameExact(r, fed, r.frame);
      AdvanceKeeps(r, fed);
      ReplayRest(Advance(r), fed);
      assert fed[r.frame..] == [fed[r.frame]] + fed[r.frame + 1..];
    }
  }

  /** After a rewind the whole utterance is read again, in order. */
  lemma RewindReplays(r: Ring, fed: seq<Feat>)
    requires KeepsAll(r, fed)
    ensures Rewind(r).Some? && Replay(Rewind(r).value) == Present(fed)
    ensures OpOk(r, Back) && Apply(r, Back) == Rewind(r).value
  {
    RewindKeepsAll(r, fed);
    KeepsAllKeeps(Rewind(r).value, fed);
    ReplayRest(Rewind(r).value, fed);
    assert fed[0..] == fed;
  }

  /** A rewound circular buffer is sound exactly when it never held more frames than it has room for.  The
      guard looks only at the frames consumed, so it lets a buffer through that has lost frames. */
  lemma CircularRewind(r: Ring, fed: seq<Feat>)
    requires Keeps(r, fed)
    ensures Rewind(r).Some? <==> r.frame <= |r.buf|
    ensures (Rewind(r).Some? && Keeps(Rewind(r).value, fed)) <==> |fed| <= |r.buf|
  {
  }

  /** A buffer of two frames, three fed, two consumed: rewound although frame 0 is gone. */
  lemma RewindTooLate()
    ensures exists r: Ring, fed: seq<Feat> :: Keeps(r, fed) && !r.grow && Rewind(r).Some? && !IsRing(Rewind(r).value)
  {
    var a, b, c := Feat([[1.0]]), Feat([[2.0]]), Feat([[3.0]]);
    var r := Ring([c, b], 1, 0, 2, false);
    assert Keeps(r, [a, b, c]);
    assert Rewind(r).Some? && !IsRing(Rewind(r).value);
  }

  // ---- the acoustic model's fields

  class FeatureBuffer {
    var featBuf: array<Feat>
    var nFeatFrame: int
    var featOutidx: nat
    var outputFrame: nat
    var growFeat: bool
    ghost var fed: seq<Feat>

    function Abs(): Ring
      reads this, featBuf
    {
      Ring(featBuf[..], nFeatFrame, featOutidx, outputFrame, growFeat)
    }

    ghost predicate Valid()
      reads this, featBuf
    {
      featBuf.Length > 0 && Keeps(Abs(), fed) && (growFeat ==> KeepsAll(Abs(), fed))
    }

    constructor (alloc: nat)
      requires alloc > 0
      ensures Valid() && fresh(featBuf) && featBuf.Length == alloc && fed == [] && !growFeat
    {
      featBuf := new Feat[alloc](_ => BLANK);
      nFeatFrame, featOutidx, outputFrame, growFeat := 0, 0, 0, false;
      fed := [];
    }

    /** acmod_grow_feat_buf. */
    method GrowFeatBuf(nfr: nat)
      requires featBuf.Length <= nfr
      modifies this`featBuf
      ensures featBuf[..] == Enlarged(old(featBuf[..]), nfr) && fresh(featBuf)
    {
      var wider := new Feat[nfr](_ => BLANK);
      forall i | 0 <= i < featBuf.Length {
        wider[i] := featBuf[i];
      }
      ghost var was := featBuf[..];
      featBuf := wider;
      assert featBuf[..] == Enlarged(was, nfr);
    }

    /** acmod_start_utt and acmod_set_grow: the mode is chosen before any frame of the utterance. */
    method StartUtt(grow: bool) returns (was: bool)
      requires featBuf.Length > 0
      modifies this
      ensures Valid() && fed == [] && growFeat == grow && was == old(growFeat)
      ensures Abs() == SetGrow(Start(old(Abs())), grow)
      ensures featBuf.Length == if grow && old(featBuf.Length) < GROW_SIZE then GROW_SIZE else old(featBuf.Length)
      ensures featBuf[..old(featBuf.Length)] == old(featBuf[..])
      ensures featBuf == old(featBuf) || fresh(featBuf)
    {
      ghost var r := Abs();
      was := growFeat;
      nFeatFrame, featOutidx, outputFrame := 0, 0, 0;
      fed := [];
      growFeat := grow;
      if grow && featBuf.Length < GROW_SIZE {
        GrowFeatBuf(GROW_SIZE);
      }
      StartKeeps(r, grow);
    }

    /** The doubling loop of acmod_process_feat. */
    method Grow(inptr: nat)
      requires featBuf.Length > 0
      modifies this`featBuf
      ensures featBuf[..] == Enlarged(old(featBuf[..]), Doubled(old(featBuf.Length), inptr))
      ensures featBuf == old(featBuf) || fresh(featBuf)
    {
      while inptr + 1 >= featBuf.Length
        invariant featBuf.Length > 0 && (featBuf == old(featBuf) || fresh(featBuf))
        invariant Doubled(featBuf.Length, inptr) == Doubled(old(featBuf.Length), inptr)
        invariant featBuf.Length >= old(featBuf.Length)
        invariant featBuf[..] == Enlarged(old(featBuf[..]), featBuf.Length)
        decreases inptr + 2 - featBuf.Length
      {
        GrowFeatBuf(featBuf.Length * 2);
      }
    }

    /** The growing part of acmod_process_feat, and the place of the next frame. */
    method MakePlace() returns (inptr: nat)
      requires IsRing(Abs()) && !IsFull(Abs())
      modifies this`featBuf
      ensures Abs() == MakeRoom(old(Abs())) && inptr < featBuf.Length
      ensures inptr == if growFeat then featOutidx + nFeatFrame else (featOutidx + nFeatFrame) % featBuf.Length
      ensures featBuf == old(featBuf) || fresh(featBuf)
    {
      ghost var r := Abs();
      if nFeatFrame == featBuf.Length {
        GrowFeatBuf(featBuf.Length * 2);
      }
      if growFeat {
        inptr := featOutidx + nFeatFrame;
        Grow(inptr);
      } else {
        inptr := (featOutidx + nFeatFrame) % featBuf.Length;
      }
    }

    /** acmod_process_feat, when there is or can be room. */
    method Place(f: Feat)
      requires IsRing(Abs()) && !IsFull(Abs())
      modifies this`featBuf, this`nFeatFrame, featBuf
      ensures Abs() == Store(old(Abs()), f)
      ensures featBuf == old(featBuf) || fresh(featBuf)
    {
      ghost var r := Abs();
      StoreAt(r, f);
      hide Enlarged, Doubled, MakeRoom, Store;
      var inptr := MakePlace();
      featBuf[inptr] := f;
      nFeatFrame := nFeatFrame + 1;
      assert featBuf[..] == MakeRoom(r).buf[inptr := f];
    }

    /** acmod_process_feat. */
    method ProcessFeat(f: Feat) returns (taken: nat)
      requires Valid()
      modifies this, featBuf
      ensures Valid() && Abs() == Store(old(Abs()), f)
      ensures taken == (if old(IsFull(Abs())) then 0 else 1) && fed == if taken == 1 then old(fed) + [f] else old(fed)
      ensures featBuf == old(featBuf) || fresh(featBuf)
    {
      ghost var r := Abs();
      StoreKeepsBoth(r, fed, f);
      if nFeatFrame == featBuf.Length && !growFeat {
        return 0;
      }
      assert IsRing(Store(r, f)) && Store(r, f).grow == r.grow;
      hide Keeps, KeepsAll, Store;
      Place(f);
      fed := fed + [f];
      taken := 1;
    }

    /** acmod_advance. */
    method AdvanceOutput() returns (next: nat)
      requires Valid() && nFeatFrame > 0
      modifies this`featOutidx, this`nFeatFrame, this`outputFrame
      ensures Valid() && Abs() == Advance(old(Abs())) && next == outputFrame
    {
      AdvanceKeeps(Abs(), fed);
      featOutidx := featOutidx + 1;
      if featOutidx == featBuf.Length {
        featOutidx := 0;
      }
      nFeatFrame := nFeatFrame - 1;
      outputFrame := outputFrame + 1;
      next := outputFrame;
    }

    /** acmod_rewind.  In grow mode it always works; a circular buffer is sound afterwards exactly when it
        never held more frames than it has room for. */
    method RewindOutput() returns (ok: bool)
      requires Valid()
      modifies this`featOutidx, this`nFeatFrame, this`outputFrame
      ensures if ok then Rewind(old(Abs())) == Some(Abs()) else Rewind(old(Abs())).None? && Abs() == old(Abs())
      ensures ok ==> (Valid() <==> |fed| <= featBuf.Length)
      ensures growFeat ==> ok && Valid() && outputFrame == 0 && nFeatFrame == |fed|
    {
      CircularRewind(Abs(), fed);
      if growFeat {
        RewindKeepsAll(Abs(), fed);
        KeepsAllKeeps(Rewind(Abs()).value, fed);
      }
      if outputFrame > featBuf.Length {
        return false;
      }
      nFeatFrame := outputFrame + nFeatFrame;
      featOutidx := 0;
      outputFrame := 0;
      ok := true;
    }

    /** acmod_get_frame. */
    method Frame(req: Option<int>) returns (f: int, feat: Option<Feat>)
      requires Valid()
      ensures f == FrameIdx(Abs(), req) && feat == GetFrame(Abs(), f)
      ensures req.None? ==> f == outputFrame
      ensures req.Some? ==> f == if req.value >= 0 then req.value else outputFrame - (-1 - req.value)
      ensures feat.Some? <==> 0 <= f && f >= |fed| - featBuf.Length
      ensures feat.Some? && f < |fed| ==> feat.value == fed[f]
    {
      f := outputFrame;
      if req.Some? {
        f := if req.value < 0 then outputFrame + 1 + req.value else req.value;
      }
      GetFrameExact(Abs(), fed, f);
      if f < 0 || outputFrame - f > featBuf.Length - nFeatFrame {
        return f, None;
      }
      FeatIdxIsMod(Abs(), fed, f);
      var k := Rem(featOutidx + f - outputFrame, featBuf.Length);
      if k < 0 {
        k := k + featBuf.Length;
      }
      feat := Some(featBuf[k]);
    }

    /** Reading a rewound utterance from its start. */
    method ReadAll() returns (frames: seq<Feat>)
      requires Valid() && growFeat
      modifies this`featOutidx, this`nFeatFrame, this`outputFrame
      ensures Valid() && frames == fed && nFeatFrame == 0
    {
      var _ := RewindOutput();
      frames := [];
      while nFeatFrame > 0
        invariant Valid() && frames == fed[..outputFrame]
        decreases nFeatFrame
      {
        var _, feat := Frame(None);
        frames := frames + [feat.value];
        var _ := AdvanceOutput();
      }
    }
  }
}
