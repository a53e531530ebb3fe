/** Context tables of the dictionary (src/dict2pid.c): senone sequences of word-initial and word-final phones
    for every phone outside the word, looked up once and kept. */
module Dict2Pid {
  import opened Basics
  import Mdef

  const BAD_S3SSID: int := 0xffff

  // ---- compression of a row

  /** The distinct senone sequences of a row, by first occurrence. */
  function Distinct(row: seq<int>): (d: seq<int>)
    ensures |d| <= |row| && BAD_S3SSID !in d
  {
    if row == [] then []
    else
      var d, v := Distinct(row[..|row| - 1]), row[|row| - 1];
      if v == BAD_S3SSID || v in d then d else d + [v]
  }

  function IndexIn(d: seq<int>, v: int): (k: nat)
    ensures k <= |d| && (k < |d| ==> d[k] == v) && (v in d ==> k < |d|)
    ensures forall j :: 0 <= j < k ==> d[j] != v
  {
    if d == [] then 0 else if d[0] == v then 0 else 1 + IndexIn(d[1..], v)
  }

  /** For each phone, the place of its sequence among those kept so far. */
  function CiMap(row: seq<int>): (c: seq<nat>)
    ensures |c| == |row|
  {
    if row == [] then []
    else CiMap(row[..|row| - 1]) + [IndexIn(Distinct(row[..|row| - 1]), row[|row| - 1])]
  }

  function Padded(d: seq<int>, n: nat): seq<int>
    requires |d| <= n
  {
    d + seq(n - |d|, _ => BAD_S3SSID)
  }

  /** The whole compressed table. */
  function Com(row: seq<int>): (c: seq<int>)
    ensures |c| == |row|
  {
    Padded(Distinct(row), |row|)
  }

  lemma {:induction false} CiMapAt(row: seq<int>, r: nat)
    requires r < |row|
    ensures CiMap(row)[r] == IndexIn(Distinct(row[..r]), row[r]) <= r
    decreases |row|
  {
    if r < |row| - 1 {
      CiMapAt(row[..|row| - 1], r);
      assert row[..|row| - 1][..r] == row[..r];
    }
  }

  lemma DistinctNext(row: seq<int>, r: nat)
    requires r < |row|
    ensures var d, v := Distinct(row[..r]), row[r];
      Distinct(row[..r + 1]) == if v == BAD_S3SSID || v in d then d else d + [v]
  {
    assert row[..r + 1][..r] == row[..r];
  }

  lemma {:induction false} DistinctGrows(row: seq<int>, i: nat, j: nat)
    requires i <= j <= |row|
    ensures Distinct(row[..i]) <= Distinct(row[..j])
    decreases j
  {
    hide Distinct;
    if i < j {
      DistinctGrows(row, i, j - 1);
      DistinctNext(row, j - 1);
    }
  }

  lemma {:induction false} DistinctHas(row: seq<int>, v: int)
    requires v != BAD_S3SSID
    ensures v in Distinct(row) <==> v in row
    decreases |row|
  {
    if row != [] {
      DistinctHas(row[..|row| - 1], v);
      assert row == row[..|row| - 1] + [row[|row| - 1]];
    }
  }

  /** No value is kept after position i when every later value was there before it. */
  lemma {:induction false} NothingNew(row: seq<int>, i: nat, j: nat)
    requires i <= j <= |row| && forall k :: i <= k < j && row[k] != BAD_S3SSID ==> row[k] in row[..i]
    ensures Distinct(row[..j]) == Distinct(row[..i])
    decreases j
  {
    hide Distinct;
    if i < j {
      NothingNew(row, i, j - 1);
      DistinctNext(row, j - 1);
      if row[j - 1] != BAD_S3SSID {
        DistinctHas(row[..i], row[j - 1]);
      }
    }
  }

  predicate LosslessAt(row: seq<int>, r: nat)
    requires r < |row|
  {
    CiMap(row)[r] < |row| && Com(row)[CiMap(row)[r]] == row[r]
  }

  predicate Lossless(row: seq<int>) {
    forall r :: 0 <= r < |row| ==> LosslessAt(row, r)
  }

  /** After an empty entry a row repeats what it had before it. */
  predicate NoneAfterBad(row: seq<int>) {
    forall i :: 0 <= i < |row| && row[i] == BAD_S3SSID ==> Repeats(row, i)
  }

  predicate Repeats(row: seq<int>, i: nat)
    requires i < |row|
  {
    forall j :: i < j < |row| && row[j] != BAD_S3SSID ==> row[j] in row[..i]
  }

  lemma FilledAt(row: seq<int>, r: nat)
    requires r < |row| && row[r] != BAD_S3SSID
    ensures LosslessAt(row, r)
  {
    CiMapAt(row, r);
    DistinctNext(row, r);
    DistinctGrows(row, r, |row|);
    DistinctGrows(row, r + 1, |row|);
    assert row[..|row|] == row;
  }

  lemma BadAt(row: seq<int>, r: nat)
    requires r < |row| && row[r] == BAD_S3SSID
    ensures LosslessAt(row, r) <==> Repeats(row, r)
  {
    CiMapAt(row, r);
    DistinctGrows(row, r, |row|);
    assert row[..|row|] == row;
    var d := Distinct(row[..r]);
    assert CiMap(row)[r] == |d|;
    if Repeats(row, r) {
      NothingNew(row, r, |row|);
    } else {
      var j :| r < j < |row| && row[j] != BAD_S3SSID && row[j] !in row[..r];
      DistinctHas(row[..r], row[j]);
      DistinctHas(row, row[j]);
      assert |d| < |Distinct(row)|;
      assert Distinct(row)[|d|] in Distinct(row);
    }
  }

  /** Compression loses nothing exactly when no new value follows an empty entry. */
  lemma CompressionExact(row: seq<int>)
    ensures Lossless(row) <==> NoneAfterBad(row)
  {
    hide LosslessAt, Repeats;
    forall r | 0 <= r < |row| ensures row[r] != BAD_S3SSID ==> LosslessAt(row, r) {
      if row[r] != BAD_S3SSID {
        FilledAt(row, r);
      }
    }
    forall r | 0 <= r < |row| && row[r] == BAD_S3SSID ensures LosslessAt(row, r) <==> Repeats(row, r) {
      BadAt(row, r);
    }
  }

  /** compress_table, in place. */
  method CompressTable(uncompTab: seq<int>, comTab: array<int>, ciMap: array<int>)
    requires comTab != ciMap && comTab.Length == ciMap.Length == |uncompTab|
    modifies comTab, ciMap
    ensures comTab[..] == Com(uncompTab) && ciMap[..] == CiMap(uncompTab)
  {
    var nCi := |uncompTab|;
    for r := 0 to nCi
      invariant forall k :: 0 <= k < r ==> comTab[k] == BAD_S3SSID
    {
      comTab[r] := BAD_S3SSID;
      ciMap[r] := -1;
    }
    assert uncompTab[..0] == [] && comTab[..] == Padded([], nCi);
    for r := 0 to nCi
      invariant comTab[..] == Padded(Distinct(uncompTab[..r]), nCi)
      invariant ciMap[..r] == CiMap(uncompTab[..r])
    {
      DistinctNext(uncompTab, r);
      CiMapNext(uncompTab, r);
      CompressOne(uncompTab[r], comTab, ciMap, r, Distinct(uncompTab[..r]));
    }
    assert uncompTab[..nCi] == uncompTab && ciMap[..nCi] == ciMap[..];
  }

  lemma CiMapNext(row: seq<int>, r: nat)
    requires r < |row|
    ensures CiMap(row[..r + 1]) == CiMap(row[..r]) + [IndexIn(Distinct(row[..r]), row[r])]
  {
    assert row[..r + 1][..r] == row[..r];
  }

  /** One entry: found among those kept, or kept as the next. */
  method CompressOne(v: int, comTab: array<int>, ciMap: array<int>, r: nat, ghost d: seq<int>)
    requires comTab != ciMap && r < comTab.Length == ciMap.Length && |d| <= r && BAD_S3SSID !in d
    requires comTab[..] == Padded(d, comTab.Length)
    modifies comTab, ciMap
    ensures comTab[..] == Padded(if v == BAD_S3SSID || v in d then d else d + [v], comTab.Length)
    ensures ciMap[..r + 1] == old(ciMap[..r]) + [IndexIn(d, v)]
  {
    var found, tmp := false, 0;
    while tmp < r && comTab[tmp] != BAD_S3SSID && !found
      invariant tmp <= r && tmp <= |d|
      invariant !found ==> forall k :: 0 <= k < tmp ==> d[k] != v
      invariant found ==> tmp < |d| && d[tmp] == v && forall k :: 0 <= k < tmp ==> d[k] != v
      decreases r - tmp, !found
    {
      if v == comTab[tmp] {
        found := true;
      } else {
        tmp := tmp + 1;
      }
    }
    assert tmp == IndexIn(d, v);
    if !found {
      comTab[tmp] := v;
    }
    ciMap[r] := tmp;
  }

  // ---- which rows are filled, and for which word position

  datatype Pair = Pair(b: nat, ctx: nat)
  type Pron = seq<nat>

  predicate IsPron(n: nat, w: Pron) {
    forall k :: 0 <= k < |w| ==> w[k] < n
  }

  function First(w: Pron): Pair
    requires |w| > 1
  {
    Pair(w[0], w[1])
  }

  function Last(w: Pron): Pair
    requires |w| > 1
  {
    Pair(w[|w| - 1], w[|w| - 2])
  }

  /** Row (b, r) of ldiph_lc holds the lookups of b(?, r) at a word position, if it is filled; row (b, l) of
      the right contexts those of b(l, ?); lr are the phones of single-phone words. */
  datatype Kinds = Kinds(ld: map<Pair, nat>, rd: map<Pair, nat>, lr: set<nat>)

  datatype Builder = Builder(kinds: Kinds, seenL: set<Pair>, seenR: set<Pair>)

  /** populate_lrdiph: a single-phone word also fills the rows whose other context is silence. */
  function Populate(k: Kinds, sil: int, b: nat): Kinds {
    if sil < 0 then k.(lr := k.lr + {b})
    else
      Kinds(k.ld[Pair(b, sil) := Mdef.WORD_POSN_SINGLE], k.rd[Pair(b, sil) := Mdef.WORD_POSN_SINGLE], k.lr + {b})
  }

  /** One word of dict2pid_build. */
  function Step(s: Builder, sil: int, w: Pron): Builder {
    if |w| > 1 then
      var k := s.kinds;
      var ld := if First(w) in s.seenL then k.ld else k.ld[First(w) := Mdef.WORD_POSN_BEGIN];
      var rd := if Last(w) in s.seenR then k.rd else k.rd[Last(w) := Mdef.WORD_POSN_END];
      Builder(Kinds(ld, rd, k.lr), s.seenL + {First(w)}, s.seenR + {Last(w)})
    else if |w| == 1 && w[0] !in s.kinds.lr then s.(kinds := Populate(s.kinds, sil, w[0]))
    else s
  }

  function Build(sil: int, dict: seq<Pron>): Builder {
    if dict == [] then Builder(Kinds(map[], map[], {}), {}, {})
    else Step(Build(sil, dict[..|dict| - 1]), sil, dict[|dict| - 1])
  }

  /** dict2pid_add_word, which fills rows only when they are empty. */
  function AddWord(k: Kinds, sil: int, w: Pron): Kinds {
    if |w| > 1 then
      k.(ld := if First(w) in k.ld then k.ld else k.ld[First(w) := Mdef.WORD_POSN_BEGIN],
         rd := if Last(w) in k.rd then k.rd else k.rd[Last(w) := Mdef.WORD_POSN_END])
    else if |w| == 1 && w[0] !in k.lr then
      (if sil < 0 then k.(lr := k.lr + {w[0]})
       else k.(ld := k.ld[Pair(w[0], sil) := Mdef.WORD_POSN_SINGLE], lr := k.lr + {w[0]}))
    else k
  }

  // ---- both ends of a word alike

  function Edge(w: Pron, left: bool): Pair
    requires |w| > 1
  {
    if left then First(w) else Last(w)
  }

  function EdgeWpos(left: bool): nat {
    if left then Mdef.WORD_POSN_BEGIN else Mdef.WORD_POSN_END
  }

  function RowsOf(k: Kinds, left: bool): map<Pair, nat> {
    if left then k.ld else k.rd
  }

  function Seen(s: Builder, left: bool): set<Pair> {
    if left then s.seenL else s.seenR
  }

  predicate IsEdge(w: Pron, p: Pair, left: bool) {
    |w| > 1 && Edge(w, left) == p
  }

  /** Where in the dictionary the first word with an edge is; its size when there is none. */
  function WhereEdge(dict: seq<Pron>, p: Pair, left: bool): (k: nat)
    ensures k <= |dict| && (k < |dict| ==> IsEdge(dict[k], p, left))
    ensures forall j :: 0 <= j < k ==> !IsEdge(dict[j], p, left)
  {
    if dict == [] then 0
    else
      var m := |dict| - 1;
      var k := WhereEdge(dict[..m], p, left);
      if k < m || IsEdge(dict[m], p, left) then k else m + 1
  }

  function WhereSingle(dict: seq<Pron>, b: nat): (k: nat)
    ensures k <= |dict| && (k < |dict| ==> dict[k] == [b]) && forall j :: 0 <= j < k ==> dict[j] != [b]
  {
    if dict == [] then 0
    else
      var m := |dict| - 1;
      var k := WhereSingle(dict[..m], b);
      if k < m || dict[m] == [b] then k else m + 1
  }

  predicate HasEdge(dict: seq<Pron>, p: Pair, left: bool) {
    WhereEdge(dict, p, left) < |dict|
  }

  predicate HasSingle(dict: seq<Pron>, b: nat) {
    WhereSingle(dict, b) < |dict|
  }

  /** The single-phone words that fill a row too. */
  predicate SingleFills(sil: int, dict: seq<Pron>, p: Pair) {
    p.ctx == sil && HasSingle(dict, p.b)
  }

  /** The word position a filled row is filled for: that of the later of its two kinds of words. */
  function RowWpos(sil: int, dict: seq<Pron>, p: Pair, left: bool): nat {
    if HasEdge(dict, p, left) && (SingleFills(sil, dict, p) ==> WhereSingle(dict, p.b) < WhereEdge(dict, p, left))
    then EdgeWpos(left) else Mdef.WORD_POSN_SINGLE
  }

  /** What building has seen. */
  lemma {:induction false} BuildSeen(sil: int, dict: seq<Pron>, p: Pair, left: bool)
    ensures var s := Build(sil, dict);
      (p in Seen(s, left) <==> HasEdge(dict, p, left)) && (p.b in s.kinds.lr <==> HasSingle(dict, p.b))
    decreases |dict|
  {
    if dict != [] {
      BuildSeen(sil, dict[..|dict| - 1], p, left);
    }
  }

  /** The row of an edge is filled exactly when a word has the edge or a single-phone word fills it, and it is
      filled for the word position it is read at exactly when a word has it and no single-phone word that
      fills it too comes first after it. */
  lemma {:induction false} EdgeRows(sil: int, dict: seq<Pron>, p: Pair, left: bool)
    ensures var rows := RowsOf(Build(sil, dict).kinds, left);
      && (p in rows <==> HasEdge(dict, p, left) || SingleFills(sil, dict, p))
      && (p in rows ==> rows[p] == RowWpos(sil, dict, p, left))
    decreases |dict|
  {
    if dict != [] {
      EdgeRows(sil, dict[..|dict| - 1], p, left);
      BuildSeen(sil, dict[..|dict| - 1], p, left);
    }
  }

  /** Without silence next to the edge of a longer word, every word's row is the one it is read at. */
  lemma WordRowsRight(sil: int, dict: seq<Pron>, w: Pron, left: bool)
    requires w in dict && |w| > 1 && Edge(w, left).ctx != sil
    ensures var rows := RowsOf(Build(sil, dict).kinds, left);
      Edge(w, left) in rows && rows[Edge(w, left)] == EdgeWpos(left)
  {
    EdgeRows(sil, dict, Edge(w, left), left);
    var k :| 0 <= k < |dict| && dict[k] == w;
    assert IsEdge(dict[k], Edge(w, left), left);
  }

  lemma BuildSnoc(sil: int, dict: seq<Pron>)
    requires dict != []
    ensures Build(sil, dict) == Step(Build(sil, dict[..|dict| - 1]), sil, dict[|dict| - 1])
  {
  }

  // ---- adding words

  /** A row that a single-phone word has filled before any word with that edge. */
  predicate Clash(sil: int, dict: seq<Pron>, w: Pron, left: bool)
    requires |w| > 1
  {
    SingleFills(sil, dict, Edge(w, left)) && !HasEdge(dict, Edge(w, left), left)
  }

  /** Adding a word of several phones gives the tables built from the larger dictionary, exactly when neither
      of its edges clashes. */
  lemma IncrementalExact(sil: int, dict: seq<Pron>, w: Pron)
    requires |w| > 1
    ensures AddWord(Build(sil, dict).kinds, sil, w) == Build(sil, dict + [w]).kinds
       <==> !Clash(sil, dict, w, true) && !Clash(sil, dict, w, false)
  {
    assert (dict + [w])[..|dict|] == dict;
    EdgeRows(sil, dict, First(w), true);
    EdgeRows(sil, dict, Last(w), false);
    BuildSeen(sil, dict, First(w), true);
    BuildSeen(sil, dict, Last(w), false);
    var k, k' := AddWord(Build(sil, dict).kinds, sil, w), Build(sil, dict + [w]).kinds;
    hide Build, HasEdge, HasSingle;
    assert k.ld != k'.ld <==> Clash(sil, dict, w, true) by {
      if Clash(sil, dict, w, true) {
        assert k.ld[First(w)] != k'.ld[First(w)];
      }
    }
    assert k.rd != k'.rd <==> Clash(sil, dict, w, false) by {
      if Clash(sil, dict, w, false) {
        assert k.rd[Last(w)] != k'.rd[Last(w)];
      }
    }
  }

  /** Adding a word of one phone does so exactly when one with that phone is there, or there is no silence: its row
      of right contexts after silence is filled by building only. */
  lemma SingleIncrementalExact(sil: int, dict: seq<Pron>, w: Pron)
    requires |w| == 1
    ensures AddWord(Build(sil, dict).kinds, sil, w) == Build(sil, dict + [w]).kinds
       <==> HasSingle(dict, w[0]) || sil < 0
  {
    assert (dict + [w])[..|dict|] == dict;
    var p: Pair := if sil < 0 then Pair(w[0], 0) else Pair(w[0], sil);
    EdgeRows(sil, dict, p, false);
    BuildSeen(sil, dict, p, false);
    var k, k' := AddWord(Build(sil, dict).kinds, sil, w), Build(sil, dict + [w]).kinds;
    hide Build, HasEdge, HasSingle;
    if sil >= 0 && !HasSingle(dict, w[0]) {
      assert k'.rd[p] == Mdef.WORD_POSN_SINGLE;
      assert p in k.rd ==> k.rd[p] != Mdef.WORD_POSN_SINGLE;
    }
  }

  function AddAll(k: Kinds, sil: int, words: seq<Pron>): Kinds {
    if words == [] then k else AddWord(AddAll(k, sil, words[..|words| - 1]), sil, words[|words| - 1])
  }

  predicate NoSilenceEdges(sil: int, words: seq<Pron>) {
    forall i :: 0 <= i < |words| && |words[i]| > 1 ==> First(words[i]).ctx != sil && Last(words[i]).ctx != sil
  }

  /** Any number of words of several phones, without silence next to their edges: adding them one by one is
      building from the larger dictionary. */
  lemma {:induction false} AddAllIsBuild(sil: int, dict: seq<Pron>, words: seq<Pron>)
    requires NoSilenceEdges(sil, words) && forall i :: 0 <= i < |words| ==> |words[i]| > 1
    ensures AddAll(Build(sil, dict).kinds, sil, words) == Build(sil, dict + words).kinds
    decreases |words|
  {
    if words == [] {
      assert dict + words == dict;
    } else {
      var m := |words| - 1;
      var w := words[m];
      AddAllIsBuild(sil, dict, words[..m]);
      assert dict + words[..m] + [w] == dict + words;
      IncrementalExact(sil, dict + words[..m], w);
    }
  }

  // ---- the tables

  /** The compressed form of a row, empty for an empty row. */
  function Compressed(row: seq<int>): Xwd {
    var d := Distinct(row);
    if d == [] then Xwd([], []) else Xwd(d, CiMap(row))
  }

  lemma {:induction false} EmptyRow(row: seq<int>)
    requires forall r :: 0 <= r < |row| ==> row[r] == BAD_S3SSID
    ensures Compressed(row) == Xwd([], [])
  {
    if Distinct(row) != [] {
      DistinctHas(row, Distinct(row)[0]);
    }
  }

  lemma FullRowKept(row: seq<int>)
    requires BAD_S3SSID !in row && row != []
    ensures Compressed(row).ssid != []
  {
    DistinctHas(row, row[0]);
  }

  /** A row without empty entries is compressed without loss, into its distinct sequences. */
  lemma FullRowLossless(row: seq<int>, r: nat)
    requires BAD_S3SSID !in row && r < |row|
    ensures var x := Compressed(row);
      |x.cimap| == |row| && 0 <= x.cimap[r] < |x.ssid| && x.ssid[x.cimap[r]] == row[r]
  {
    CompressionExact(row);
    assert LosslessAt(row, r);
    CiMapAt(row, r);
    DistinctHas(row, row[r]);
    assert row[r] in row;
  }

  /** A row that is partly filled would not be recovered: an empty entry before a value is lost. */
  lemma PartRowLoses(v: int)
    requires v != BAD_S3SSID
    ensures !Lossless([BAD_S3SSID, v])
  {
    var row := [BAD_S3SSID, v];
    CompressionExact(row);
    assert row[1] == v && row[..0] == [] && !Repeats(row, 0);
  }

  // ---- what the rows show

  /** A phone set, the triphones added to it and the senone sequence of each phone. */
  datatype Phones = Phones(n: nat, sil: int, filler: seq<bool>, added: Mdef.Added, ssid: int -> int)

  ghost predicate IsPhones(m: Phones) {
    |m.filler| == m.n > 0 && forall p :: m.ssid(p) != BAD_S3SSID
  }

  /** The senone sequence of the nearest phone in context. */
  ghost function LookupIn(m: Phones, b: nat, l: nat, r: nat, wpos: nat): int
    requires IsPhones(m) && l < m.n && r < m.n
  {
    m.ssid(Mdef.Nearest(m.n, m.sil, m.filler, m.added, b, l, r, wpos))
  }

  ghost function RowIn(m: Phones, b: nat, l: nat, wpos: nat): (row: seq<int>)
    requires IsPhones(m) && l < m.n
    ensures |row| == m.n && BAD_S3SSID !in row
  {
    seq(m.n, r requires 0 <= r < m.n => LookupIn(m, b, l, r, wpos))
  }

  ghost function LeftCell(m: Phones, ld: map<Pair, nat>, b: nat, r: nat, l: nat): int
    requires IsPhones(m) && r < m.n && l < m.n
  {
    if Pair(b, r) in ld then LookupIn(m, b, l, r, ld[Pair(b, r)]) else BAD_S3SSID
  }

  ghost function FinalCell(m: Phones, rd: map<Pair, nat>, b: nat, l: nat): Xwd
    requires IsPhones(m) && l < m.n
  {
    if Pair(b, l) in rd then Compressed(RowIn(m, b, l, rd[Pair(b, l)])) else Xwd([], [])
  }

  /** The rows that the tables compress are full or empty, so nothing is lost of any row that is filled. */
  lemma FinalLossless(m: Phones, rd: map<Pair, nat>, b: nat, l: nat)
    requires IsPhones(m) && l < m.n && Pair(b, l) in rd
    ensures var x := FinalCell(m, rd, b, l);
      IsXwd(m.n, x) && forall r: nat :: r < m.n ==> x.ssid[x.cimap[r]] == LookupIn(m, b, l, r, rd[Pair(b, l)])
  {
    var row := RowIn(m, b, l, rd[Pair(b, l)]);
    assert Distinct(row) != [] by { FullRowKept(row); }
    hide Compressed, LookupIn;
    forall r: nat | r < m.n
      ensures var x := Compressed(row); |x.cimap| == m.n && x.cimap[r] < |x.ssid| && x.ssid[x.cimap[r]] == row[r]
    {
      FullRowLossless(row, r);
    }
    CompressedSize(row);
  }

  lemma CompressedSize(row: seq<int>)
    requires Distinct(row) != []
    ensures |Compressed(row).cimap| == |row| && |Compressed(row).ssid| <= |row|
  {
  }

  /** For the last phone of every word of several phones the built tables hold a full list of right contexts. */
  lemma WordFinalIsXwd(m: Phones, dict: seq<Pron>, w: Pron)
    requires IsPhones(m) && w in dict && |w| > 1 && IsPron(m.n, w)
    ensures IsXwd(m.n, FinalCell(m, Build(m.sil, dict).kinds.rd, Last(w).b, Last(w).ctx))
  {
    EdgeRows(m.sil, dict, Last(w), false);
    var k :| 0 <= k < |dict| && dict[k] == w;
    assert IsEdge(dict[k], Last(w), false);
    hide Build, LookupIn, Compressed;
    FinalLossless(m, Build(m.sil, dict).kinds.rd, Last(w).b, Last(w).ctx);
  }

  ghost predicate SameLeft(m: Phones, ld: map<Pair, nat>, ld': map<Pair, nat>)
    requires IsPhones(m)
  {
    forall b, r, l :: 0 <= b < m.n && 0 <= r < m.n && 0 <= l < m.n ==>
      LeftCell(m, ld, b, r, l) == LeftCell(m, ld', b, r, l)
  }

  ghost predicate SameFinal(m: Phones, rd: map<Pair, nat>, rd': map<Pair, nat>)
    requires IsPhones(m)
  {
    forall b, l :: 0 <= b < m.n && 0 <= l < m.n ==> FinalCell(m, rd, b, l) == FinalCell(m, rd', b, l)
  }

  /** The lookup of an edge for a phone outside the word. */
  ghost function EdgeLookup(m: Phones, p: Pair, left: bool, c: nat, wpos: nat): int
    requires IsPhones(m) && p.ctx < m.n && c < m.n
  {
    if left then LookupIn(m, p.b, c, p.ctx, wpos) else LookupIn(m, p.b, p.ctx, c, wpos)
  }

  /** The lookups of an edge are the same for a word of its own as at the edge of a longer word. */
  ghost predicate PositionFree(m: Phones, p: Pair, left: bool)
    requires IsPhones(m) && p.ctx < m.n
  {
    forall c: nat :: c < m.n ==>
      EdgeLookup(m, p, left, c, Mdef.WORD_POSN_SINGLE) == EdgeLookup(m, p, left, c, EdgeWpos(left))
  }

  /** Full rows with the same compressed form are the same. */
  lemma CompressedInjective(a: seq<int>, b: seq<int>)
    requires |a| == |b| && BAD_S3SSID !in a && BAD_S3SSID !in b && Compressed(a) == Compressed(b)
    ensures a == b
  {
    forall r | 0 <= r < |a| ensures a[r] == b[r] {
      FullRowLossless(a, r);
      FullRowLossless(b, r);
    }
  }

  /** The rows after an addition differ from those after rebuilding in the row of a clashing edge only. */
  lemma RowsDiffer(sil: int, dict: seq<Pron>, w: Pron, left: bool)
    requires |w| > 1
    ensures var p := Edge(w, left);
      var k, k' := RowsOf(AddWord(Build(sil, dict).kinds, sil, w), left), RowsOf(Build(sil, dict + [w]).kinds, left);
      if Clash(sil, dict, w, left) then p in k && k[p] == Mdef.WORD_POSN_SINGLE && k' == k[p := EdgeWpos(left)]
      else k' == k
  {
    assert (dict + [w])[..|dict|] == dict;
    EdgeRows(sil, dict, Edge(w, left), left);
    BuildSeen(sil, dict, Edge(w, left), left);
    hide Build, HasEdge, HasSingle;
  }

  lemma LeftDiffers(m: Phones, ld: map<Pair, nat>, p: Pair)
    requires IsPhones(m) && p.b < m.n && p.ctx < m.n && p in ld && ld[p] == Mdef.WORD_POSN_SINGLE
    ensures SameLeft(m, ld, ld[p := Mdef.WORD_POSN_BEGIN]) <==> PositionFree(m, p, true)
  {
    hide LookupIn;
    var ld' := ld[p := Mdef.WORD_POSN_BEGIN];
    forall c: nat | c < m.n
      ensures LeftCell(m, ld, p.b, p.ctx, c) == EdgeLookup(m, p, true, c, Mdef.WORD_POSN_SINGLE)
      ensures LeftCell(m, ld', p.b, p.ctx, c) == EdgeLookup(m, p, true, c, Mdef.WORD_POSN_BEGIN)
    {
      assert Pair(p.b, p.ctx) == p;
    }
  }

  lemma FinalDiffers(m: Phones, rd: map<Pair, nat>, p: Pair)
    requires IsPhones(m) && p.b < m.n && p.ctx < m.n && p in rd && rd[p] == Mdef.WORD_POSN_SINGLE
    ensures SameFinal(m, rd, rd[p := Mdef.WORD_POSN_END]) <==> PositionFree(m, p, false)
  {
    hide LookupIn, Compressed;
    var rd' := rd[p := Mdef.WORD_POSN_END];
    var a, e := RowIn(m, p.b, p.ctx, Mdef.WORD_POSN_SINGLE), RowIn(m, p.b, p.ctx, Mdef.WORD_POSN_END);
    assert Pair(p.b, p.ctx) == p;
    assert FinalCell(m, rd, p.b, p.ctx) == Compressed(a) && FinalCell(m, rd', p.b, p.ctx) == Compressed(e);
    forall c: nat | c < m.n
      ensures a[c] == EdgeLookup(m, p, false, c, Mdef.WORD_POSN_SINGLE)
      ensures e[c] == EdgeLookup(m, p, false, c, Mdef.WORD_POSN_END)
    {
    }
    if Compressed(a) == Compressed(e) {
      CompressedInjective(a, e);
      assert forall c: nat :: c < m.n ==> a[c] == e[c];
    }
    if PositionFree(m, p, false) {
      assert forall c: nat :: c < m.n ==> a[c] == e[c];
      assert a == e;
    }
  }

  /** Adding a word of several phones shows the cells that rebuilding with the larger dictionary shows, if
      and only if the lookups of each edge that clashes are the same at both word positions. */
  lemma IncrementalCells(m: Phones, dict: seq<Pron>, w: Pron)
    requires IsPhones(m) && |w| > 1 && IsPron(m.n, w)
    ensures var k, k' := AddWord(Build(m.sil, dict).kinds, m.sil, w), Build(m.sil, dict + [w]).kinds;
      && k.lr == k'.lr
      && (SameLeft(m, k.ld, k'.ld) <==> (Clash(m.sil, dict, w, true) ==> PositionFree(m, First(w), true)))
      && (SameFinal(m, k.rd, k'.rd) <==> (Clash(m.sil, dict, w, false) ==> PositionFree(m, Last(w), false)))
  {
    RowsDiffer(m.sil, dict, w, true);
    RowsDiffer(m.sil, dict, w, false);
    assert (dict + [w])[..|dict|] == dict;
    var k := AddWord(Build(m.sil, dict).kinds, m.sil, w);
    assert Build(m.sil, dict + [w]) == Step(Build(m.sil, dict), m.sil, w);
    if Clash(m.sil, dict, w, true) {
      LeftDiffers(m, k.ld, First(w));
    }
    if Clash(m.sil, dict, w, false) {
      FinalDiffers(m, k.rd, Last(w));
    }
    hide Build, Clash, PositionFree, LookupIn, Compressed;
  }

  /** Phone 0 and silence 1, with different triphones of phone 0 before silence for a word of its own and at
      the beginning of a longer one. */
  predicate TwoPositions(m: Phones) {
    && m.n == 2 && m.sil == 1 && m.filler == [false, true] && m.ssid(2) == 20 && m.ssid(3) == 30
    && var s, t := Mdef.Tri(0, 0, 1, Mdef.WORD_POSN_SINGLE), Mdef.Tri(0, 0, 1, Mdef.WORD_POSN_BEGIN);
       m.added == map[s := 2, t := 3]
  }

  lemma TwoPositionsExist() returns (m: Phones)
    ensures IsPhones(m) && TwoPositions(m)
  {
    var s, t := Mdef.Tri(0, 0, 1, Mdef.WORD_POSN_SINGLE), Mdef.Tri(0, 0, 1, Mdef.WORD_POSN_BEGIN);
    m := Phones(2, 1, [false, true], map[s := 2, t := 3], p => if p == 2 then 20 else 30);
  }

  lemma LookupExact(m: Phones, b: nat, l: nat, r: nat, wpos: nat, t: Mdef.Tri)
    requires IsPhones(m) && b < m.n && l < m.n && r < m.n && t in m.added
    requires t == Mdef.Tri(b, Mdef.Context(m.sil, m.filler, l), Mdef.Context(m.sil, m.filler, r), wpos)
    ensures LookupIn(m, b, l, r, wpos) == m.ssid(m.added[t])
  {
    hide Mdef.Nearest;
    Mdef.NearestHasBase(m.n, m.sil, m.filler, m.added, b, l, r, wpos);
  }

  lemma TwoPositionsDiffer(m: Phones)
    requires IsPhones(m) && TwoPositions(m)
    ensures LookupIn(m, 0, 0, 1, Mdef.WORD_POSN_SINGLE) == 20
    ensures LookupIn(m, 0, 0, 1, Mdef.WORD_POSN_BEGIN) == 30
  {
    hide LookupIn;
    LookupExact(m, 0, 0, 1, Mdef.WORD_POSN_SINGLE, Mdef.Tri(0, 0, 1, Mdef.WORD_POSN_SINGLE));
    LookupExact(m, 0, 0, 1, Mdef.WORD_POSN_BEGIN, Mdef.Tri(0, 0, 1, Mdef.WORD_POSN_BEGIN));
  }

  lemma ClashFelt(m: Phones, p: Pair)
    requires IsPhones(m) && TwoPositions(m) && p == Pair(0, 1)
    ensures p.b < m.n && p.ctx < m.n && !PositionFree(m, p, true)
  {
    TwoPositionsDiffer(m);
    hide TwoPositions, LookupIn;
    assert EdgeLookup(m, p, true, 0, Mdef.WORD_POSN_SINGLE) == 20;
    assert EdgeLookup(m, p, true, 0, Mdef.WORD_POSN_BEGIN) == 30;
  }

  lemma ClashHere(dict: seq<Pron>, w: Pron)
    requires dict == [[0]] && w == [0, 1]
    ensures Clash(1, dict, w, true)
  {
    assert dict[0] == [0];
  }

  /** A clash that shows: adding a word that begins with phone 0 and silence after the word of phone 0 alone. */
  lemma ClashShows(m: Phones, dict: seq<Pron>, w: Pron)
    requires IsPhones(m) && TwoPositions(m) && dict == [[0]] && w == [0, 1]
    ensures !SameLeft(m, AddWord(Build(m.sil, dict).kinds, m.sil, w).ld, Build(m.sil, dict + [w]).kinds.ld)
  {
    assert m.n == 2 && m.sil == 1;
    hide TwoPositions, Build, AddWord, SameLeft, SameFinal, Clash, PositionFree, LookupIn, IsPhones;
    ClashFelt(m, First(w));
    ClashHere(dict, w);
    FeltClashShows(m, dict, w);
  }

  lemma FeltClashShows(m: Phones, dict: seq<Pron>, w: Pron)
    requires IsPhones(m) && |w| > 1 && IsPron(m.n, w)
    requires Clash(m.sil, dict, w, true) && !PositionFree(m, First(w), true)
    ensures !SameLeft(m, AddWord(Build(m.sil, dict).kinds, m.sil, w).ld, Build(m.sil, dict + [w]).kinds.ld)
  {
    hide Build, AddWord, SameLeft, SameFinal, Clash, PositionFree;
    IncrementalCells(m, dict, w);
  }

  class ContextTables {
    const mdef: Mdef.BinMdef
    const ssid: int -> int
    const n: nat
    const ldiphLc: array3<int>
    const lrdiphRc: array3<int>
    const rssid: array2<Xwd>

    /** Sizes, and a senone sequence for every phone. */
    ghost predicate Fits() {
      && n == mdef.n > 0 && |mdef.filler| == n
      && IsCube(ldiphLc) && IsCube(lrdiphRc) && rssid.Length0 == rssid.Length1 == n
      && ldiphLc != lrdiphRc && forall p :: ssid(p) != BAD_S3SSID
    }

    ghost predicate Valid()
      reads mdef, mdef.cdTree
    {
      Fits() && mdef.Valid()
    }

    predicate IsCube(a: array3<int>) {
      a.Length0 == n && a.Length1 == n && a.Length2 == n
    }

    ghost function P(): (m: Phones)
      requires Fits()
      ensures IsPhones(m) && m.n == n && m.sil == mdef.sil
    {
      Phones(mdef.n, mdef.sil, mdef.filler, mdef.added, ssid)
    }

    ghost function Lookup(b: nat, l: nat, r: nat, wpos: nat): int
      requires Fits() && l < n && r < n
    {
      LookupIn(P(), b, l, r, wpos)
    }

    ghost predicate LeftShows(ld: map<Pair, nat>)
      requires Fits()
      reads ldiphLc
    {
      forall b, r, l :: 0 <= b < n && 0 <= r < n && 0 <= l < n ==>
        ldiphLc[b, r, l] == if Pair(b, r) in ld then Lookup(b, l, r, ld[Pair(b, r)]) else BAD_S3SSID
    }

    ghost predicate SingleShows(lr: set<nat>)
      requires Fits()
      reads lrdiphRc
    {
      forall b, l, r :: 0 <= b < n && 0 <= l < n && 0 <= r < n ==>
        lrdiphRc[b, l, r] == if b in lr then Lookup(b, l, r, Mdef.WORD_POSN_SINGLE) else BAD_S3SSID
    }

    ghost predicate RightShows(rdiph: array3<int>, rd: map<Pair, nat>)
      requires Fits() && IsCube(rdiph)
      reads rdiph
    {
      forall b, l, r :: 0 <= b < n && 0 <= l < n && 0 <= r < n ==>
        rdiph[b, l, r] == if Pair(b, l) in rd then Lookup(b, l, r, rd[Pair(b, l)]) else BAD_S3SSID
    }

    ghost predicate FinalShows(rd: map<Pair, nat>)
      requires Fits()
      reads rssid
    {
      forall b, l :: 0 <= b < n && 0 <= l < n ==>
        rssid[b, l] == if Pair(b, l) in rd then Compressed(RowIn(P(), b, l, rd[Pair(b, l)])) else Xwd([], [])
    }

    /** The tables hold the lookups of the rows that are filled. */
    ghost predicate Shows(k: Kinds)
      requires Fits()
      reads ldiphLc, lrdiphRc, rssid
    {
      LeftShows(k.ld) && SingleShows(k.lr) && FinalShows(k.rd)
    }

    method SsidNearest(b: nat, l: nat, r: nat, wpos: nat) returns (s: int)
      requires Valid() && b < n && l < n && r < n && wpos < Mdef.N_WORD_POSN
      ensures s == Lookup(b, l, r, wpos)
    {
      var p := mdef.PhoneIdNearest(b, l, r, wpos);
      s := ssid(p);
    }

    /** All sequences for b(?, r) at the beginning of a word. */
    method FillLeft(b: nat, r: nat)
      requires Valid() && b < n && r < n
      modifies ldiphLc
      ensures forall b', r', l :: 0 <= b' < n && 0 <= r' < n && 0 <= l < n ==>
        ldiphLc[b', r', l] == if b' == b && r' == r then Lookup(b, l, r, Mdef.WORD_POSN_BEGIN)
                              else old(ldiphLc[b', r', l])
    {
      hide Lookup, Mdef.BinMdef.Valid, Mdef.Nearest;
      for l := 0 to n
        invariant forall b', r', l' :: 0 <= b' < n && 0 <= r' < n && 0 <= l' < n ==>
          ldiphLc[b', r', l'] == if b' == b && r' == r && l' < l then Lookup(b, l', r, Mdef.WORD_POSN_BEGIN)
                                 else old(ldiphLc[b', r', l'])
      {
        var s := SsidNearest(b, l, r, Mdef.WORD_POSN_BEGIN);
        ldiphLc[b, r, l] := s;
      }
    }

    /** All sequences for b(l, ?) at the end of a word. */
    method FillRight(rdiph: array3<int>, b: nat, l: nat)
      requires Valid() && IsCube(rdiph) && b < n && l < n
      modifies rdiph
      ensures forall b', l', r :: 0 <= b' < n && 0 <= l' < n && 0 <= r < n ==>
        rdiph[b', l', r] == if b' == b && l' == l then Lookup(b, l, r, Mdef.WORD_POSN_END) else old(rdiph[b', l', r])
    {
      hide Lookup, Mdef.BinMdef.Valid, Mdef.Nearest;
      for r := 0 to n
        invariant forall b', l', r' :: 0 <= b' < n && 0 <= l' < n && 0 <= r' < n ==>
          rdiph[b', l', r'] == if b' == b && l' == l && r' < r then Lookup(b, l, r', Mdef.WORD_POSN_END)
                               else old(rdiph[b', l', r'])
      {
        var s := SsidNearest(b, l, r, Mdef.WORD_POSN_END);
        rdiph[b, l, r] := s;
      }
    }

    method MarkLeft(b: nat, r: nat, ghost ld: map<Pair, nat>)
      requires Valid() && b < n && r < n && LeftShows(ld)
      modifies ldiphLc
      ensures LeftShows(ld[Pair(b, r) := Mdef.WORD_POSN_BEGIN])
    {
      hide Lookup, Mdef.BinMdef.Valid;
      FillLeft(b, r);
    }

    method MarkRight(rdiph: array3<int>, b: nat, l: nat, ghost rd: map<Pair, nat>)
      requires Valid() && IsCube(rdiph) && b < n && l < n && RightShows(rdiph, rd)
      modifies rdiph
      ensures RightShows(rdiph, rd[Pair(b, l) := Mdef.WORD_POSN_END])
    {
      hide Lookup, Mdef.BinMdef.Valid;
      FillRight(rdiph, b, l);
    }

    /** populate_lrdiph: all triphones of a single-phone word, and the rows read with silence outside. */
    method PopulateLrdiph(rdiph: array3?<int>, b: nat)
      requires Valid() && b < n && (rdiph != null ==> IsCube(rdiph) && rdiph != ldiphLc && rdiph != lrdiphRc)
      modifies ldiphLc, lrdiphRc, rdiph
      ensures forall b', l, r :: 0 <= b' < n && 0 <= l < n && 0 <= r < n ==>
        lrdiphRc[b', l, r] == if b' == b then Lookup(b, l, r, Mdef.WORD_POSN_SINGLE) else old(lrdiphRc[b', l, r])
      ensures forall b', r, l :: 0 <= b' < n && 0 <= r < n && 0 <= l < n ==>
        ldiphLc[b', r, l] == if b' == b && r == mdef.sil then Lookup(b, l, r, Mdef.WORD_POSN_SINGLE)
                             else old(ldiphLc[b', r, l])
      ensures rdiph != null ==> forall b', l, r :: 0 <= b' < n && 0 <= l < n && 0 <= r < n ==>
        rdiph[b', l, r] == if b' == b && l == mdef.sil then Lookup(b, l, r, Mdef.WORD_POSN_SINGLE)
                           else old(rdiph[b', l, r])
    {
      hide Lookup, Mdef.BinMdef.Valid;
      for l := 0 to n
        invariant forall b', l', r :: 0 <= b' < n && 0 <= l' < n && 0 <= r < n ==>
          lrdiphRc[b', l', r] == if b' == b && l' < l then Lookup(b, l', r, Mdef.WORD_POSN_SINGLE)
                                 else old(lrdiphRc[b', l', r])
        invariant forall b', r, l' :: 0 <= b' < n && 0 <= r < n && 0 <= l' < n ==>
          ldiphLc[b', r, l'] == if b' == b && r == mdef.sil && l' < l then Lookup(b, l', r, Mdef.WORD_POSN_SINGLE)
                                else old(ldiphLc[b', r, l'])
        invariant rdiph != null ==> forall b', l', r :: 0 <= b' < n && 0 <= l' < n && 0 <= r < n ==>
          rdiph[b', l', r] == if b' == b && l' == mdef.sil && l' < l then Lookup(b, l', r, Mdef.WORD_POSN_SINGLE)
                              else old(rdiph[b', l', r])
      {
        PopulateRow(rdiph, b, l);
      }
    }

    /** One left context of populate_lrdiph. */
    method PopulateRow(rdiph: array3?<int>, b: nat, l: nat)
      requires Valid() && b < n && l < n && (rdiph != null ==> IsCube(rdiph) && rdiph != ldiphLc && rdiph != lrdiphRc)
      modifies ldiphLc, lrdiphRc, rdiph
      ensures forall b', l', r :: 0 <= b' < n && 0 <= l' < n && 0 <= r < n ==>
        lrdiphRc[b', l', r] == if b' == b && l' == l then Lookup(b, l, r, Mdef.WORD_POSN_SINGLE)
                               else old(lrdiphRc[b', l', r])
      ensures forall b', r, l' :: 0 <= b' < n && 0 <= r < n && 0 <= l' < n ==>
        ldiphLc[b', r, l'] == if b' == b && r == mdef.sil && l' == l then Lookup(b, l, r, Mdef.WORD_POSN_SINGLE)
                              else old(ldiphLc[b', r, l'])
      ensures rdiph != null ==> forall b', l', r :: 0 <= b' < n && 0 <= l' < n && 0 <= r < n ==>
        rdiph[b', l', r] == if b' == b && l' == mdef.sil && l' == l then Lookup(b, l, r, Mdef.WORD_POSN_SINGLE)
                            else old(rdiph[b', l', r])
    {
      hide Lookup, Mdef.BinMdef.Valid, Mdef.Nearest;
      for r := 0 to n
        invariant forall b', l', r' :: 0 <= b' < n && 0 <= l' < n && 0 <= r' < n ==>
          lrdiphRc[b', l', r'] == if b' == b && l' == l && r' < r then Lookup(b, l, r', Mdef.WORD_POSN_SINGLE)
                                  else old(lrdiphRc[b', l', r'])
        invariant forall b', r', l' :: 0 <= b' < n && 0 <= r' < n && 0 <= l' < n ==>
          ldiphLc[b', r', l'] == if b' == b && r' == mdef.sil && l' == l && r' < r
                                 then Lookup(b, l, r', Mdef.WORD_POSN_SINGLE) else old(ldiphLc[b', r', l'])
        invariant rdiph != null ==> forall b', l', r' :: 0 <= b' < n && 0 <= l' < n && 0 <= r' < n ==>
          rdiph[b', l', r'] == if b' == b && l' == mdef.sil && l' == l && r' < r
                               then Lookup(b, l, r', Mdef.WORD_POSN_SINGLE) else old(rdiph[b', l', r'])
      {
        var s := SsidNearest(b, l, r, Mdef.WORD_POSN_SINGLE);
        lrdiphRc[b, l, r] := s;
        if r == mdef.sil {
          ldiphLc[b, r, l] := s;
        }
        if rdiph != null && l == mdef.sil {
          rdiph[b, l, r] := s;
        }
      }
    }

    /** populate_lrdiph in terms of filled rows. */
    method FillSingle(rdiph: array3<int>, b: nat, ghost k: Kinds)
      requires Valid() && b < n && IsCube(rdiph) && rdiph != ldiphLc && rdiph != lrdiphRc
      requires LeftShows(k.ld) && SingleShows(k.lr) && RightShows(rdiph, k.rd)
      modifies ldiphLc, lrdiphRc, rdiph
      ensures var k' := Populate(k, mdef.sil, b);
        LeftShows(k'.ld) && SingleShows(k'.lr) && RightShows(rdiph, k'.rd)
    {
      hide Lookup, Mdef.BinMdef.Valid;
      PopulateLrdiph(rdiph, b);
    }

    /** One word of dict2pid_build. */
    method BuildWord(rdiph: array3<int>, w: Pron, ghost s: Builder, seenL: set<Pair>, seenR: set<Pair>,
        single: set<nat>)
      returns (seenL': set<Pair>, seenR': set<Pair>, single': set<nat>)
      requires Valid() && IsPron(n, w) && IsCube(rdiph) && rdiph != ldiphLc && rdiph != lrdiphRc
      requires LeftShows(s.kinds.ld) && SingleShows(s.kinds.lr) && RightShows(rdiph, s.kinds.rd)
      requires seenL == s.seenL && seenR == s.seenR && single == s.kinds.lr
      modifies ldiphLc, lrdiphRc, rdiph
      ensures var s' := Step(s, mdef.sil, w);
        && LeftShows(s'.kinds.ld) && SingleShows(s'.kinds.lr) && RightShows(rdiph, s'.kinds.rd)
        && seenL' == s'.seenL && seenR' == s'.seenR && single' == s'.kinds.lr
    {
      hide LeftShows, SingleShows, RightShows;
      seenL', seenR', single' := seenL, seenR, single;
      if |w| >= 2 {
        if First(w) !in seenL {
          seenL' := seenL + {First(w)};
          MarkLeft(w[0], w[1], s.kinds.ld);
        }
        if Last(w) !in seenR {
          seenR' := seenR + {Last(w)};
          MarkRight(rdiph, w[|w| - 1], w[|w| - 2], s.kinds.rd);
        }
        assert seenL' == seenL + {First(w)} && seenR' == seenR + {Last(w)};
      } else if |w| == 1 {
        if w[0] !in single {
          FillSingle(rdiph, w[0], s.kinds);
          single' := single + {w[0]};
        }
      }
    }

    /** One row of right contexts, compressed. */
    method CompressRow(row: seq<int>) returns (x: Xwd)
      ensures x == Compressed(row)
    {
      var tmpssid := new int[|row|](_ => BAD_S3SSID);
      var tmpcimap := new int[|row|](_ => 0);
      CompressTable(row, tmpssid, tmpcimap);
      var r := 0;
      while r < |row| && tmpssid[r] != BAD_S3SSID
        invariant r <= |Distinct(row)|
      {
        r := r + 1;
      }
      assert r == |Distinct(row)|;
      x := if r == 0 then Xwd([], []) else Xwd(tmpssid[..r], tmpcimap[..]);
      assert tmpssid[..r] == Distinct(row);
    }

    /** compress_right_context_tree. */
    method CompressRight(rdiph: array3<int>, ghost rd: map<Pair, nat>)
      requires Fits() && IsCube(rdiph) && RightShows(rdiph, rd)
      modifies rssid
      ensures FinalShows(rd)
    {
      hide LookupIn, Compressed;
      for b := 0 to n
        invariant forall b', l :: 0 <= b' < b && 0 <= l < n ==>
          rssid[b', l] == if Pair(b', l) in rd then Compressed(RowIn(P(), b', l, rd[Pair(b', l)])) else Xwd([], [])
      {
        for l := 0 to n
          invariant forall b', l' :: 0 <= b' < n && 0 <= l' < n && (b' < b || (b' == b && l' < l)) ==>
            rssid[b', l'] ==
              if Pair(b', l') in rd then Compressed(RowIn(P(), b', l', rd[Pair(b', l')])) else Xwd([], [])
        {
          var rmap := seq(n, r requires 0 <= r < n reads rdiph => rdiph[b, l, r]);
          if Pair(b, l) in rd {
            assert rmap == RowIn(P(), b, l, rd[Pair(b, l)]);
          } else {
            EmptyRow(rmap);
          }
          var x := CompressRow(rmap);
          rssid[b, l] := x;
        }
      }
    }

    /** dict2pid_build. */
    constructor (m: Mdef.BinMdef, ssid: int -> int, dict: seq<Pron>)
      requires m.Valid() && m.n > 0 && (forall p :: ssid(p) != BAD_S3SSID)
      requires forall i :: 0 <= i < |dict| ==> IsPron(m.n, dict[i])
      ensures Valid() && mdef == m && this.ssid == ssid && n == m.n && Shows(Build(m.sil, dict).kinds)
      ensures fresh(ldiphLc) && fresh(lrdiphRc) && fresh(rssid)
    {
      hide Mdef.BinMdef.Valid, Build;
      mdef, this.ssid, n := m, ssid, m.n;
      ldiphLc := new int[m.n, m.n, m.n]((_, _, _) => BAD_S3SSID);
      lrdiphRc := new int[m.n, m.n, m.n]((_, _, _) => BAD_S3SSID);
      rssid := new Xwd[m.n, m.n]((_, _) => Xwd([], []));
      new;
      assert |m.filler| == m.n by { SizesOf(m); }
      BuildAll(dict);
    }

    /** The words in turn, then the compression. */
    method BuildAll(dict: seq<Pron>)
      requires Valid() && LeftShows(map[]) && SingleShows({})
      requires forall i :: 0 <= i < |dict| ==> IsPron(n, dict[i])
      modifies ldiphLc, lrdiphRc, rssid
      ensures Shows(Build(mdef.sil, dict).kinds)
    {
      var rdiph := new int[n, n, n]((_, _, _) => BAD_S3SSID);
      assert RightShows(rdiph, map[]);
      var seenL, seenR, single := {}, {}, {};
      assert dict[..0] == [] && Build(mdef.sil, []) == Builder(Kinds(map[], map[], {}), {}, {});
      hide LeftShows, SingleShows, RightShows, FinalShows, Build, Step, Mdef.BinMdef.Valid;
      for w := 0 to |dict|
        invariant var s := Build(mdef.sil, dict[..w]);
          && LeftShows(s.kinds.ld) && SingleShows(s.kinds.lr) && RightShows(rdiph, s.kinds.rd)
          && seenL == s.seenL && seenR == s.seenR && single == s.kinds.lr
      {
        BuildSnoc(mdef.sil, dict[..w + 1]);
        assert dict[..w + 1][..w] == dict[..w];
        seenL, seenR, single := BuildWord(rdiph, dict[w], Build(mdef.sil, dict[..w]), seenL, seenR, single);
      }
      assert dict[..|dict|] == dict;
      CompressRight(rdiph, Build(mdef.sil, dict).kinds.rd);
    }

    /** The row of right contexts that dict2pid_add_word makes for one word. */
    method FillFinal(b: nat, l: nat, ghost rd: map<Pair, nat>)
      requires Valid() && b < n && l < n && FinalShows(rd)
      modifies rssid
      ensures FinalShows(rd[Pair(b, l) := Mdef.WORD_POSN_END])
    {
      hide LookupIn, Compressed, Mdef.BinMdef.Valid;
      var rmap := [];
      for r := 0 to n
        invariant FinalShows(rd) && |rmap| == r
        invariant forall k :: 0 <= k < r ==> rmap[k] == Lookup(b, l, k, Mdef.WORD_POSN_END)
      {
        var s := SsidNearest(b, l, r, Mdef.WORD_POSN_END);
        rmap := rmap + [s];
      }
      assert rmap == RowIn(P(), b, l, Mdef.WORD_POSN_END);
      var x := CompressRow(rmap);
      rssid[b, l] := x;
    }

    /** A single-phone word fills the left rows and its own, not the compressed right ones. */
    method AddSingle(b: nat, ghost k: Kinds)
      requires Valid() && b < n && Shows(k) && b !in k.lr
      modifies ldiphLc, lrdiphRc
      ensures Shows(AddWord(k, mdef.sil, [b]))
    {
      hide Lookup, Mdef.BinMdef.Valid, FinalShows;
      PopulateLrdiph(null, b);
    }

    /** dict2pid_add_word. */
    method Add(w: Pron, ghost k: Kinds)
      requires Valid() && w != [] && IsPron(n, w) && Shows(k)
      modifies ldiphLc, lrdiphRc, rssid
      ensures Shows(AddWord(k, mdef.sil, w))
    {
      if |w| > 1 {
        LeftEmpty(w[0], w[1], k.ld);
        FinalEmpty(w[|w| - 1], w[|w| - 2], k.rd);
        hide LeftShows, SingleShows, FinalShows, Mdef.BinMdef.Valid;
        if ldiphLc[w[0], w[1], 0] == BAD_S3SSID {
          MarkLeft(w[0], w[1], k.ld);
        }
        if rssid[w[|w| - 1], w[|w| - 2]].ssid == [] {
          FillFinal(w[|w| - 1], w[|w| - 2], k.rd);
        }
      } else {
        assert lrdiphRc[w[0], 0, 0] == BAD_S3SSID <==> w[0] !in k.lr;
        assert w == [w[0]];
        if lrdiphRc[w[0], 0, 0] == BAD_S3SSID {
          AddSingle(w[0], k);
        }
      }
    }

    /** The same cells, one by one. */
    ghost predicate SameCells(that: ContextTables)
      requires Fits() && that.Fits() && n == that.n
      reads ldiphLc, rssid, lrdiphRc, that.ldiphLc, that.rssid, that.lrdiphRc
    {
      && (forall b, r, l :: 0 <= b < n && 0 <= r < n && 0 <= l < n ==> ldiphLc[b, r, l] == that.ldiphLc[b, r, l])
      && (forall b, l, r :: 0 <= b < n && 0 <= l < n && 0 <= r < n ==> lrdiphRc[b, l, r] == that.lrdiphRc[b, l, r])
      && forall b, l :: 0 <= b < n && 0 <= l < n ==> rssid[b, l] == that.rssid[b, l]
    }

    lemma ShownCells(that: ContextTables, k: Kinds, k': Kinds)
      requires Fits() && that.Fits() && P() == that.P() && Shows(k) && that.Shows(k') && k.lr == k'.lr
      ensures SameCells(that) <==> SameLeft(P(), k.ld, k'.ld) && SameFinal(P(), k.rd, k'.rd)
    {
      hide LookupIn, Compressed;
      forall b, r, l | 0 <= b < n && 0 <= r < n && 0 <= l < n
        ensures ldiphLc[b, r, l] == LeftCell(P(), k.ld, b, r, l)
          && that.ldiphLc[b, r, l] == LeftCell(P(), k'.ld, b, r, l)
      {
      }
      forall b, l | 0 <= b < n && 0 <= l < n
        ensures rssid[b, l] == FinalCell(P(), k.rd, b, l) && that.rssid[b, l] == FinalCell(P(), k'.rd, b, l)
      {
      }
    }

    /** Tables to which a word of several phones was added and tables rebuilt with it hold the same cells if
        and only if the lookups of each of its edges that a one-phone word filled alone are the same at both
        word positions. */
    lemma AddedIsRebuilt(rebuilt: ContextTables, dict: seq<Pron>, w: Pron)
      requires Fits() && rebuilt.Fits() && P() == rebuilt.P() && |w| > 1 && IsPron(n, w)
      requires Shows(AddWord(Build(mdef.sil, dict).kinds, mdef.sil, w))
        && rebuilt.Shows(Build(mdef.sil, dict + [w]).kinds)
      ensures SameCells(rebuilt) <==>
        && (Clash(mdef.sil, dict, w, true) ==> PositionFree(P(), First(w), true))
        && (Clash(mdef.sil, dict, w, false) ==> PositionFree(P(), Last(w), false))
    {
      hide Build, AddWord, SameLeft, SameFinal, Clash, PositionFree, Shows, SameCells;
      IncrementalCells(P(), dict, w);
      ShownCells(rebuilt, AddWord(Build(mdef.sil, dict).kinds, mdef.sil, w), Build(mdef.sil, dict + [w]).kinds);
    }

    lemma LeftEmpty(b: nat, r: nat, ld: map<Pair, nat>)
      requires Fits() && b < n && r < n && LeftShows(ld)
      ensures ldiphLc[b, r, 0] == BAD_S3SSID <==> Pair(b, r) !in ld
    {
    }

    lemma FinalEmpty(b: nat, l: nat, rd: map<Pair, nat>)
      requires Fits() && b < n && l < n && FinalShows(rd)
      ensures rssid[b, l].ssid == [] <==> Pair(b, l) !in rd
    {
      if Pair(b, l) in rd {
        FullRowKept(RowIn(P(), b, l, rd[Pair(b, l)]));
      }
    }

    /** The cache of a dictionary's tables agrees with the direct lookup, at both ends of every word that has
        no silence next to its edges. */
    lemma CacheAgrees(dict: seq<Pron>, w: Pron, x: nat)
      requires Fits() && Shows(Build(mdef.sil, dict).kinds) && w in dict && |w| > 1 && IsPron(n, w) && x < n
      requires First(w).ctx != mdef.sil && Last(w).ctx != mdef.sil
      ensures ldiphLc[w[0], w[1], x] == Lookup(w[0], x, w[1], Mdef.WORD_POSN_BEGIN)
      ensures var e := rssid[w[|w| - 1], w[|w| - 2]];
        && |e.cimap| == n && 0 <= e.cimap[x] < |e.ssid|
        && e.ssid[e.cimap[x]] == Lookup(w[|w| - 1], w[|w| - 2], x, Mdef.WORD_POSN_END)
    {
      WordRowsRight(mdef.sil, dict, w, true);
      WordRowsRight(mdef.sil, dict, w, false);
      hide Build, Compressed, Lookup;
      FullRowLossless(RowIn(P(), w[|w| - 1], w[|w| - 2], Mdef.WORD_POSN_END), x);
    }
  }

  lemma SizesOf(m: Mdef.BinMdef)
    requires m.Valid()
    ensures |m.filler| == m.n
  {
  }
}
