/** What the tokenizer of src/jsmn.h makes of a JSON text: its values in order, each with its extent and the
    number of its children. */
module JsonText {
  import opened Jsmn
  import opened JsonChars

  // ---- texts as sequences of lexical elements

  /** A lexical element and, for a bracket, where it is. */
  datatype Lexeme = Lexeme(ev: Event, pos: nat)

  function LexemeOf(ev: Event, p: nat): Lexeme {
    Lexeme(ev, if ev.Open? || ev.Close? then p else 0)
  }

  /** The elements of a text from a position on, without the blanks; an error is the last. */
  function Lexemes(js: string, p: nat): seq<Lexeme>
    decreases |js| - p
  {
    if AtEnd(js, p) then []
    else
      var ev := EventAt(js, p);
      if ev.Fail? then [LexemeOf(ev, p)]
      else (if ev.Blank? then [] else [LexemeOf(ev, p)]) + Lexemes(js, After(js, p))
  }

  predicate NoFail(ls: seq<Lexeme>) {
    forall i :: 0 <= i < |ls| ==> !ls[i].ev.Fail?
  }

  /** The token pass on lexical elements. */
  function ParseLexemes(ls: seq<Lexeme>, s: State, cap: nat): (r: Stepped)
    requires IsState(s) && NoFail(ls)
    ensures r.Go? ==> IsState(r.s)
    decreases |ls|
  {
    if ls == [] then Go(s)
    else
      match Step(s, ls[0].ev, ls[0].pos, cap)
      case Stop(err) => Stop(err)
      case Go(s') => ParseLexemes(ls[1..], s', cap)
  }

  lemma StepAnywhere(s: State, ev: Event, p: nat, cap: nat)
    requires IsState(s) && !ev.Fail?
    ensures Step(s, ev, p, cap) == Step(s, LexemeOf(ev, p).ev, LexemeOf(ev, p).pos, cap)
    ensures ev.Blank? ==> Step(s, ev, p, cap) == Go(s)
  {
  }

  lemma {:induction false} ParseIsLexemes(js: string, p: nat, s: State, cap: nat)
    requires IsState(s) && NoFail(Lexemes(js, p))
    ensures var o := ParseFrom(js, p, s, cap);
      match ParseLexemes(Lexemes(js, p), s, cap)
      case Stop(err) => o.ret == err
      case Go(s') => o.s == s' && o.ret == if LastOpen(s'.toks) != -1 then PART else |s'.toks|
    decreases |js| - p
  {
    if !AtEnd(js, p) {
      var ev, ls := EventAt(js, p), Lexemes(js, p);
      assert ls != [] && !ls[0].ev.Fail? ==> !ev.Fail?;
      StepAnywhere(s, ev, p, cap);
      var rest := Lexemes(js, After(js, p));
      assert if ev.Blank? then ls == rest else ls[0] == LexemeOf(ev, p) && ls[1..] == rest;
      assert NoFail(rest) by {
        forall i | 0 <= i < |rest| ensures !rest[i].ev.Fail? {
          assert rest[i] == ls[if ev.Blank? then i else i + 1];
        }
      }
      hide Step, EventAt, NoFail;
      if Step(s, ev, p, cap).Go? {
        ParseIsLexemes(js, After(js, p), Step(s, ev, p, cap).s, cap);
      }
    }
  }

  lemma {:induction false} ParseConcat(a: seq<Lexeme>, b: seq<Lexeme>, s: State, cap: nat)
    requires IsState(s) && NoFail(a) && NoFail(b)
    ensures NoFail(a + b)
    ensures ParseLexemes(a + b, s, cap)
         == var r := ParseLexemes(a, s, cap); if r.Go? then ParseLexemes(b, r.s, cap) else r
    decreases |a|
  {
    hide Step;
    if a == [] {
      assert a + b == b;
    } else {
      assert (a + b)[0] == a[0] && (a + b)[1..] == a[1..] + b;
      var r := Step(s, a[0].ev, a[0].pos, cap);
      if r.Go? {
        ParseConcat(a[1..], b, r.s, cap);
      }
    }
  }

  // ---- values

  /** A value as section 2 of RFC 8259 has it: a string or a bare literal, an array of values, or an object of
      members, each a string, a colon and a value. */
  datatype Json =
    | Leaf(atom: Event)
    | Arr(open: nat, items: seq<Json>, close: nat)
    | Obj(open: nat, members: seq<Member>, close: nat)
  datatype Member = Member(key: Event, value: Json)

  predicate IsJson(v: Json) {
    match v
    case Leaf(a) => a.Atom?
    case Arr(_, items, _) => forall i :: 0 <= i < |items| ==> IsJson(items[i])
    case Obj(_, members, _) => forall i :: 0 <= i < |members| ==> IsMember(members[i])
  }

  predicate IsMember(m: Member) {
    m.key.Atom? && m.key.typ == String && IsJson(m.value)
  }

  /** The elements of a value, in order. */
  function Yield(v: Json): seq<Lexeme>
    decreases v, 0
  {
    match v
    case Leaf(a) => [Lexeme(a, 0)]
    case Arr(o, items, c) => [Lexeme(Open(Array), o)] + YieldItems(items) + [Lexeme(Close(Array), c)]
    case Obj(o, members, c) => [Lexeme(Open(Object), o)] + YieldMembers(members) + [Lexeme(Close(Object), c)]
  }

  function Separator(first: bool): seq<Lexeme> {
    if first then [] else [Lexeme(Comma, 0)]
  }

  function YieldItems(items: seq<Json>): seq<Lexeme>
    decreases items
  {
    if items == [] then []
    else
      var m := |items| - 1;
      YieldItems(items[..m]) + Separator(m == 0) + Yield(items[m])
  }

  function YieldMembers(members: seq<Member>): seq<Lexeme>
    decreases members, 1
  {
    if members == [] then []
    else
      var m := |members| - 1;
      YieldMembers(members[..m]) + Separator(m == 0) + YieldMember(members[m])
  }

  function YieldMember(m: Member): seq<Lexeme>
    decreases m, 0
  {
    [Lexeme(m.key, 0), Lexeme(Colon, 0)] + Yield(m.value)
  }

  /** The tokens of a value: itself with the number of its children, then theirs.  The child of a key is its
      value. */
  function TokensOf(v: Json): seq<Token>
    requires IsJson(v)
    decreases v, 0
  {
    match v
    case Leaf(a) => [Token(a.typ, a.start, a.end, 0)]
    case Arr(o, items, c) => [Token(Array, o, c + 1, |items|)] + ItemTokens(items)
    case Obj(o, members, c) => [Token(Object, o, c + 1, |members|)] + MemberTokens(members)
  }

  function ItemTokens(items: seq<Json>): seq<Token>
    requires forall i :: 0 <= i < |items| ==> IsJson(items[i])
    decreases items
  {
    if items == [] then []
    else ItemTokens(items[..|items| - 1]) + TokensOf(items[|items| - 1])
  }

  function MemberTokens(members: seq<Member>): seq<Token>
    requires forall i :: 0 <= i < |members| ==> IsMember(members[i])
    decreases members, 1
  {
    if members == [] then []
    else MemberTokens(members[..|members| - 1]) + TokensOfMember(members[|members| - 1])
  }

  function TokensOfMember(m: Member): seq<Token>
    requires IsMember(m)
    decreases m, 0
  {
    [Token(String, m.key.start, m.key.end, 1)] + TokensOf(m.value)
  }

  predicate AllClosed(toks: seq<Token>) {
    forall i :: 0 <= i < |toks| ==> toks[i].end >= 0
  }

  // ---- open tokens

  lemma {:induction false} LastOpenAfter(toks: seq<Token>, more: seq<Token>)
    requires AllClosed(more)
    ensures LastOpen(toks + more) == LastOpen(toks) && LastOpenContainer(toks + more) == LastOpenContainer(toks)
    decreases |more|
  {
    if more == [] {
      assert toks + more == toks;
    } else {
      var m := |more| - 1;
      LastOpenAfter(toks, more[..m]);
      assert (toks + more)[..|toks + more| - 1] == toks + more[..m] && (toks + more)[|toks + more| - 1] == more[m];
    }
  }

  lemma {:induction false} LastOpenCounted(toks: seq<Token>, super: int)
    requires -1 <= super < |toks|
    ensures LastOpen(Counted(toks, super)) == LastOpen(toks)
    decreases |toks|
  {
    var r := Counted(toks, super);
    if toks != [] {
      var m := |toks| - 1;
      assert IsOpen(r[m]) == IsOpen(toks[m]);
      if super == m {
        assert r[..m] == toks[..m];
      } else {
        LastOpenCounted(toks[..m], super);
        assert r[..m] == Counted(toks[..m], super);
      }
    }
  }

  lemma LastOpenNew(toks: seq<Token>, t: Token)
    ensures IsOpen(t) ==> LastOpen(toks + [t]) == |toks|
    ensures IsOpen(t) && IsContainer(t.typ) ==> LastOpenContainer(toks + [t]) == |toks|
  {
  }

  lemma ConcatClosed(a: seq<Token>, b: seq<Token>)
    requires AllClosed(a) && AllClosed(b)
    ensures AllClosed(a + b)
  {
  }

  lemma {:induction false} TokensClosed(v: Json)
    requires IsJson(v)
    ensures TokensOf(v) != [] && AllClosed(TokensOf(v)) && (v.Leaf? ==> |TokensOf(v)| == 1)
    decreases v, 0
  {
    match v
    case Leaf(_) =>
    case Arr(_, items, _) => ItemsClosed(items);
    case Obj(_, members, _) => MembersClosed(members);
  }

  lemma {:induction false} ItemsClosed(items: seq<Json>)
    requires forall i :: 0 <= i < |items| ==> IsJson(items[i])
    ensures AllClosed(ItemTokens(items))
    decreases items
  {
    if items != [] {
      ItemsClosed(items[..|items| - 1]);
      TokensClosed(items[|items| - 1]);
      ConcatClosed(ItemTokens(items[..|items| - 1]), TokensOf(items[|items| - 1]));
    }
  }

  lemma {:induction false} MembersClosed(members: seq<Member>)
    requires forall i :: 0 <= i < |members| ==> IsMember(members[i])
    ensures AllClosed(MemberTokens(members))
    decreases members, 1
  {
    if members != [] {
      MembersClosed(members[..|members| - 1]);
      MemberClosed(members[|members| - 1]);
      ConcatClosed(MemberTokens(members[..|members| - 1]), TokensOfMember(members[|members| - 1]));
    }
  }

  lemma {:induction false} MemberClosed(m: Member)
    requires IsMember(m)
    ensures AllClosed(TokensOfMember(m))
    decreases m, 0
  {
    TokensClosed(m.value);
    ConcatClosed([Token(String, m.key.start, m.key.end, 1)], TokensOf(m.value));
  }

  // ---- no errors

  lemma {:induction false} YieldNoFail(v: Json)
    requires IsJson(v)
    ensures NoFail(Yield(v))
    decreases v, 0
  {
    match v
    case Leaf(_) =>
    case Arr(_, items, _) => ItemsNoFail(items);
    case Obj(_, members, _) => MembersNoFail(members);
  }

  lemma {:induction false} ItemsNoFail(items: seq<Json>)
    requires forall i :: 0 <= i < |items| ==> IsJson(items[i])
    ensures NoFail(YieldItems(items))
    decreases items
  {
    if items != [] {
      ItemsNoFail(items[..|items| - 1]);
      YieldNoFail(items[|items| - 1]);
    }
  }

  lemma {:induction false} MembersNoFail(members: seq<Member>)
    requires forall i :: 0 <= i < |members| ==> IsMember(members[i])
    ensures NoFail(YieldMembers(members))
    decreases members, 1
  {
    if members != [] {
      MembersNoFail(members[..|members| - 1]);
      MemberNoFail(members[|members| - 1]);
    }
  }

  lemma {:induction false} MemberNoFail(m: Member)
    requires IsMember(m)
    ensures NoFail(YieldMember(m))
    decreases m, 0
  {
    YieldNoFail(m.value);
  }

  // ---- parsing a value

  lemma ParseThree(a: seq<Lexeme>, b: seq<Lexeme>, c: seq<Lexeme>, s0: State, s1: State, s2: State, s3: State, cap: nat)
    requires IsState(s0) && IsState(s1) && IsState(s2) && NoFail(a) && NoFail(b) && NoFail(c)
    requires ParseLexemes(a, s0, cap) == Go(s1) && ParseLexemes(b, s1, cap) == Go(s2)
    requires ParseLexemes(c, s2, cap) == Go(s3)
    ensures NoFail(a + b + c) && ParseLexemes(a + b + c, s0, cap) == Go(s3)
  {
    hide ParseLexemes, NoFail;
    ParseConcat(a, b, s0, cap);
    ParseConcat(a + b, c, s0, cap);
  }

  /** One more child for the container at position |before|. */
  lemma CountedChild(before: seq<Token>, t: Token, after: seq<Token>)
    ensures Counted(before + [t] + after, |before|) == before + [t.(size := t.size + 1)] + after
  {
  }

  lemma One(x: Lexeme, s: State, cap: nat)
    requires IsState(s) && !x.ev.Fail?
    ensures NoFail([x]) && ParseLexemes([x], s, cap) == Step(s, x.ev, x.pos, cap)
  {
    hide Step;
    var r := Step(s, x.ev, x.pos, cap);
    assert [x][1..] == [];
    if r.Go? {
      assert ParseLexemes([], r.s, cap) == Go(r.s);
    }
  }

  lemma LeafParsed(a: Event, s: State, cap: nat)
    requires IsState(s) && a.Atom? && |s.toks| < cap
    ensures ParseLexemes([Lexeme(a, 0)], s, cap)
         == Go(State(Counted(s.toks, s.super) + [Token(a.typ, a.start, a.end, 0)], s.super))
  {
    One(Lexeme(a, 0), s, cap);
  }

  /** A value is parsed into its tokens, counted once for the super-token at its start. */
  lemma {:induction false} ValueParsed(v: Json, s: State, cap: nat)
    requires IsJson(v) && IsState(s) && |s.toks| + |TokensOf(v)| <= cap
    ensures NoFail(Yield(v))
    ensures ParseLexemes(Yield(v), s, cap)
         == Go(State(Counted(s.toks, s.super) + TokensOf(v), if v.Leaf? then s.super else LastOpen(s.toks)))
    decreases v, 2
  {
    match v
    case Leaf(a) => LeafParsed(a, s, cap);
    case Arr(o, items, c) => ArrParsed(o, items, c, s, cap);
    case Obj(o, members, c) => ObjParsed(o, members, c, s, cap);
  }

  lemma {:induction false} ArrParsed(o: nat, items: seq<Json>, c: nat, s: State, cap: nat)
    requires (forall i :: 0 <= i < |items| ==> IsJson(items[i])) && IsState(s)
      && |s.toks| + 1 + |ItemTokens(items)| <= cap
    ensures var ls := [Lexeme(Open(Array), o)] + YieldItems(items) + [Lexeme(Close(Array), c)];
      && NoFail(ls) && ParseLexemes(ls, s, cap)
         == Go(State(Counted(s.toks, s.super) + ([Token(Array, o, c + 1, |items|)] + ItemTokens(items)),
           LastOpen(s.toks)))
    decreases items, 4
  {
    hide ParseLexemes, Counted, LastOpen, NoFail, AllClosed, ItemTokens, YieldItems, IsJson;
    var before := Counted(s.toks, s.super);
    ItemsParsed(items, before, o, cap);
    ItemsClosed(items);
    ContainerParsed(Array, o, YieldItems(items), c, s, ItemTokens(items), |items|, |before|, cap);
  }

  lemma {:induction false} ObjParsed(o: nat, members: seq<Member>, c: nat, s: State, cap: nat)
    requires forall i :: 0 <= i < |members| ==> IsMember(members[i])
    requires IsState(s) && |s.toks| + 1 + |MemberTokens(members)| <= cap
    ensures var ls := [Lexeme(Open(Object), o)] + YieldMembers(members) + [Lexeme(Close(Object), c)];
      && NoFail(ls) && ParseLexemes(ls, s, cap)
         == Go(State(Counted(s.toks, s.super) + ([Token(Object, o, c + 1, |members|)] + MemberTokens(members)),
                     LastOpen(s.toks)))
    decreases members, 6
  {
    hide ParseLexemes, Counted, LastOpen, NoFail, AllClosed, MemberTokens, YieldMembers, IsMember, SuperAfter;
    var before := Counted(s.toks, s.super);
    MembersParsed(members, before, o, cap);
    MembersClosed(members);
    ContainerParsed(Object, o, YieldMembers(members), c, s, MemberTokens(members), |members|,
                    SuperAfter(members, |before|), cap);
  }

  lemma CloseParsed(before: seq<Token>, t: Token, kids: seq<Token>, super: int, c: nat, cap: nat)
    requires IsOpen(t) && IsContainer(t.typ) && AllClosed(kids) && -1 <= super < |before| + 1 + |kids|
    ensures ParseLexemes([Lexeme(Close(t.typ), c)], State(before + [t] + kids, super), cap)
         == Go(State(before + ([t.(end := c + 1)] + kids), LastOpen(before)))
  {
    var s := State(before + [t] + kids, super);
    LastOpenNew(before, t);
    LastOpenAfter(before + [t], kids);
    One(Lexeme(Close(t.typ), c), s, cap);
    hide LastOpen;
    assert s.toks[|before|] == t;
    assert s.toks[|before| := t.(end := c + 1)] == before + ([t.(end := c + 1)] + kids);
    assert (before + ([t.(end := c + 1)] + kids))[..|before|] == before;
  }

  /** The brackets around the elements of a container. */
  lemma ContainerParsed(t: Type, o: nat, inner: seq<Lexeme>, c: nat, s: State, kids: seq<Token>, n: nat, super: int,
      cap: nat)
    requires IsState(s) && IsContainer(t) && NoFail(inner) && AllClosed(kids) && |s.toks| + 1 + |kids| <= cap
    requires var before := Counted(s.toks, s.super);
      && -1 <= super < |before| + 1 + |kids|
      && ParseLexemes(inner, State(before + [Token(t, o, -1, 0)], |before|), cap)
         == Go(State(before + [Token(t, o, -1, n)] + kids, super))
    ensures NoFail([Lexeme(Open(t), o)] + inner + [Lexeme(Close(t), c)])
    ensures ParseLexemes([Lexeme(Open(t), o)] + inner + [Lexeme(Close(t), c)], s, cap)
         == Go(State(Counted(s.toks, s.super) + ([Token(t, o, c + 1, n)] + kids), LastOpen(s.toks)))
  {
    var before := Counted(s.toks, s.super);
    var s1 := State(before + [Token(t, o, -1, 0)], |before|);
    var s2 := State(before + [Token(t, o, -1, n)] + kids, super);
    One(Lexeme(Open(t), o), s, cap);
    CloseParsed(before, Token(t, o, -1, n), kids, super, c, cap);
    LastOpenCounted(s.toks, s.super);
    hide Step, LastOpen, Counted;
    ParseConcat([Lexeme(Open(t), o)], inner, s, cap);
    ParseConcat([Lexeme(Open(t), o)] + inner, [Lexeme(Close(t), c)], s, cap);
  }

  /** Inside an open container that is the super-token. */
  lemma InsideContainer(before: seq<Token>, t: Token, kids: seq<Token>, cap: nat)
    requires IsOpen(t) && IsContainer(t.typ) && AllClosed(kids)
    ensures var s := State(before + [t] + kids, |before|);
      && IsState(s) && LastOpen(s.toks) == |before|
        && Counted(s.toks, s.super) == before + [t.(size := t.size + 1)] + kids
      && ParseLexemes([Lexeme(Comma, 0)], s, cap) == Go(s)
  {
    var s := State(before + [t] + kids, |before|);
    LastOpenNew(before, t);
    LastOpenAfter(before + [t], kids);
    CountedChild(before, t, kids);
    hide LastOpen;
    assert s.toks[s.super] == t;
    One(Lexeme(Comma, 0), s, cap);
  }

  /** One more element. */
  lemma {:induction false} NextItem(init: seq<Json>, v: Json, before: seq<Token>, t: Token, cap: nat)
    requires (forall i :: 0 <= i < |init| ==> IsJson(init[i])) && IsJson(v) && IsOpen(t) && t.typ == Array
    requires |before| + 1 + |ItemTokens(init)| + |TokensOf(v)| <= cap
    ensures var s := State(before + [t] + ItemTokens(init), |before|);
      && IsState(s) && NoFail(Separator(init == [])) && ParseLexemes(Separator(init == []), s, cap) == Go(s)
      && NoFail(Yield(v)) && ParseLexemes(Yield(v), s, cap)
         == Go(State(before + [t.(size := t.size + 1)] + (ItemTokens(init) + TokensOf(v)), |before|))
    decreases v, 3
  {
    var kids := ItemTokens(init);
    var s := State(before + [t] + kids, |before|);
    ItemsClosed(init);
    InsideContainer(before, t, kids, cap);
    hide ItemTokens, ParseLexemes, Counted, LastOpen, AllClosed, IsJson, Yield, TokensOf;
    SeparatorParsed(init == [], s, s, cap);
    ValueParsed(v, s, cap);
    assert before + [t.(size := t.size + 1)] + kids + TokensOf(v)
        == before + [t.(size := t.size + 1)] + (kids + TokensOf(v));
  }

  /** The elements of an array, from just inside its bracket. */
  lemma {:induction false} ItemsParsed(items: seq<Json>, before: seq<Token>, o: nat, cap: nat)
    requires (forall i :: 0 <= i < |items| ==> IsJson(items[i])) && |before| + 1 + |ItemTokens(items)| <= cap
    ensures NoFail(YieldItems(items))
    ensures ParseLexemes(YieldItems(items), State(before + [Token(Array, o, -1, 0)], |before|), cap)
         == Go(State(before + [Token(Array, o, -1, |items|)] + ItemTokens(items), |before|))
    decreases items, 3
  {
    var s0 := State(before + [Token(Array, o, -1, 0)], |before|);
    if items == [] {
      assert before + [Token(Array, o, -1, 0)] + [] == before + [Token(Array, o, -1, 0)];
    } else {
      var m := |items| - 1;
      var init, v := items[..m], items[m];
      assert IsJson(v) && ItemTokens(items) == ItemTokens(init) + TokensOf(v);
      assert YieldItems(items) == YieldItems(init) + Separator(init == []) + Yield(v);
      ItemsParsed(init, before, o, cap);
      var t := Token(Array, o, -1, m);
      NextItem(init, v, before, t, cap);
      var s1 := State(before + [t] + ItemTokens(init), |before|);
      var s3 := State(before + [t.(size := m + 1)] + ItemTokens(items), |before|);
      hide ParseLexemes, NoFail, ItemTokens, YieldItems, Yield, TokensOf, IsJson;
      ParseThree(YieldItems(init), Separator(init == []), Yield(v), s0, s1, s1, s3, cap);
    }
  }

  /** Where the super-token is after the members: at the last key if its value is a leaf, else at the object. */
  function SuperAfter(members: seq<Member>, k: nat): int
    requires forall i :: 0 <= i < |members| ==> IsMember(members[i])
  {
    if members != [] && members[|members| - 1].value.Leaf? then k + |MemberTokens(members)| - 1 else k
  }

  lemma {:induction false} MemberParsed(m: Member, s: State, cap: nat)
    requires IsMember(m) && IsState(s) && |s.toks| + |TokensOfMember(m)| <= cap
    ensures NoFail(YieldMember(m))
    ensures ParseLexemes(YieldMember(m), s, cap)
         == Go(State(Counted(s.toks, s.super) + TokensOfMember(m),
           if m.value.Leaf? then |s.toks| else LastOpen(s.toks)))
    decreases m, 3
  {
    MemberNoFail(m);
    var before, k := Counted(s.toks, s.super), Token(String, m.key.start, m.key.end, 0);
    var s1 := State(before + [k], s.super);
    var s2 := State(before + [k], |before|);
    One(Lexeme(m.key, 0), s, cap);
    One(Lexeme(Colon, 0), s1, cap);
    LastOpenAfter(before, [k]);
    LastOpenCounted(s.toks, s.super);
    CountedChild(before, k, []);
    assert before + [k] + [] == before + [k] && before + [k.(size := 1)] + [] == before + [k.(size := 1)];
    ValueParsed(m.value, s2, cap);
    assert before + [k.(size := 1)] + TokensOf(m.value) == before + TokensOfMember(m);
    YieldNoFail(m.value);
    hide Step, LastOpen, Counted, ParseLexemes, NoFail, TokensOf, Yield;
    assert [Lexeme(m.key, 0)] + [Lexeme(Colon, 0)] == [Lexeme(m.key, 0), Lexeme(Colon, 0)];
    var s3 := State(before + TokensOfMember(m), if m.value.Leaf? then |s.toks| else LastOpen(s.toks));
    ParseThree([Lexeme(m.key, 0)], [Lexeme(Colon, 0)], Yield(m.value), s, s1, s2, s3, cap);
  }

  /** The key before a leaf, the last but one of the members' tokens. */
  lemma LastKey(members: seq<Member>)
    requires forall i :: 0 <= i < |members| ==> IsMember(members[i])
    requires members != [] && members[|members| - 1].value.Leaf?
    ensures var kids := MemberTokens(members); |kids| >= 2 && kids[|kids| - 2].typ == String
  {
    var m := members[|members| - 1];
    TokensClosed(m.value);
    var init, last := MemberTokens(members[..|members| - 1]), TokensOfMember(m);
    hide MemberTokens, AllClosed;
    assert |last| == 2 && last[0].typ == String;
    assert (init + last)[|init|] == last[0];
  }

  /** A comma between members goes back to the object. */
  lemma CommaInObject(members: seq<Member>, before: seq<Token>, t: Token, cap: nat)
    requires forall i :: 0 <= i < |members| ==> IsMember(members[i])
    requires members != [] && IsOpen(t) && t.typ == Object
    ensures var s := State(before + [t] + MemberTokens(members), SuperAfter(members, |before|));
      IsState(s) && ParseLexemes([Lexeme(Comma, 0)], s, cap) == Go(s.(super := |before|))
  {
    var kids := MemberTokens(members);
    var s := State(before + [t] + kids, SuperAfter(members, |before|));
    MembersClosed(members);
    LastOpenNew(before, t);
    LastOpenAfter(before + [t], kids);
    if members[|members| - 1].value.Leaf? {
      LastKey(members);
      assert s.toks[s.super] == kids[|kids| - 2];
    } else {
      assert s.toks[s.super] == t;
    }
    hide MemberTokens, LastOpen, LastOpenContainer, AllClosed, IsMember;
    One(Lexeme(Comma, 0), s, cap);
  }

  lemma SeparatorParsed(first: bool, s: State, s': State, cap: nat)
    requires IsState(s) && (if first then s' == s else ParseLexemes([Lexeme(Comma, 0)], s, cap) == Go(s'))
    ensures NoFail(Separator(first)) && ParseLexemes(Separator(first), s, cap) == Go(s')
  {
  }

  lemma MemberLength(m: Member)
    requires IsMember(m)
    ensures |TokensOfMember(m)| >= 2 && (m.value.Leaf? ==> |TokensOfMember(m)| == 2)
  {
    TokensClosed(m.value);
  }

  /** One more member: from a state after the members before it to one after it. */
  lemma {:induction false} NextMember(init: seq<Member>, m: Member, before: seq<Token>, t: Token, cap: nat)
    requires (forall i :: 0 <= i < |init| ==> IsMember(init[i])) && IsMember(m) && IsOpen(t) && t.typ == Object
    requires |before| + 1 + |MemberTokens(init)| + |TokensOfMember(m)| <= cap
    ensures var s := State(before + [t] + MemberTokens(init), SuperAfter(init, |before|));
      var s' := s.(super := |before|);
      && IsState(s) && NoFail(Separator(init == [])) && ParseLexemes(Separator(init == []), s, cap) == Go(s')
      && NoFail(YieldMember(m)) && ParseLexemes(YieldMember(m), s', cap)
         == Go(State(before + [t.(size := t.size + 1)] + (MemberTokens(init) + TokensOfMember(m)),
                     if m.value.Leaf? then |before| + 1 + |MemberTokens(init)| else |before|))
    decreases m, 4
  {
    var kids := MemberTokens(init);
    var s := State(before + [t] + kids, SuperAfter(init, |before|));
    var s' := s.(super := |before|);
    MembersClosed(init);
    InsideContainer(before, t, kids, cap);
    if init != [] {
      CommaInObject(init, before, t, cap);
    } else {
      assert s == s';
    }
    hide MemberTokens, ParseLexemes, Counted, LastOpen, AllClosed, IsMember;
    SeparatorParsed(init == [], s, s', cap);
    MemberParsed(m, s', cap);
    assert before + [t.(size := t.size + 1)] + kids + TokensOfMember(m)
        == before + [t.(size := t.size + 1)] + (kids + TokensOfMember(m));
  }

  lemma Snoc(init: seq<Member>, m: Member, k: nat)
    requires (forall i :: 0 <= i < |init| ==> IsMember(init[i])) && IsMember(m)
    ensures var members := init + [m];
      && (forall i :: 0 <= i < |members| ==> IsMember(members[i]))
      && MemberTokens(members) == MemberTokens(init) + TokensOfMember(m)
      && YieldMembers(members) == YieldMembers(init) + Separator(init == []) + YieldMember(m)
      && SuperAfter(members, k) == (if m.value.Leaf? then k + 1 + |MemberTokens(init)| else k)
      && -1 <= SuperAfter(members, k) < k + 1 + |MemberTokens(members)|
  {
    var members := init + [m];
    assert members[..|init|] == init && members[|init|] == m;
    MemberLength(m);
  }

  /** The members of an object, from just inside its bracket. */
  lemma {:induction false} MembersParsed(members: seq<Member>, before: seq<Token>, o: nat, cap: nat)
    requires (forall i :: 0 <= i < |members| ==> IsMember(members[i])) && |before| + 1 + |MemberTokens(members)| <= cap
    ensures NoFail(YieldMembers(members))
    ensures ParseLexemes(YieldMembers(members), State(before + [Token(Object, o, -1, 0)], |before|), cap)
         == Go(State(before + [Token(Object, o, -1, |members|)] + MemberTokens(members), SuperAfter(members, |before|)))
    ensures -1 <= SuperAfter(members, |before|) < |before| + 1 + |MemberTokens(members)|
    decreases members, 5
  {
    MembersNoFail(members);
    if members == [] {
      assert before + [Token(Object, o, -1, 0)] + [] == before + [Token(Object, o, -1, 0)];
    } else {
      var n := |members| - 1;
      var init, m := members[..n], members[n];
      assert members == init + [m];
      MembersParsed(init, before, o, cap);
      Snoc(init, m, |before|);
      MembersNext(init, m, before, o, cap);
    }
  }

  lemma {:induction false} MembersNext(init: seq<Member>, m: Member, before: seq<Token>, o: nat, cap: nat)
    requires (forall i :: 0 <= i < |init| ==> IsMember(init[i])) && IsMember(m)
    requires |before| + 1 + |MemberTokens(init)| + |TokensOfMember(m)| <= cap && NoFail(YieldMembers(init))
    requires ParseLexemes(YieldMembers(init), State(before + [Token(Object, o, -1, 0)], |before|), cap)
      == Go(State(before + [Token(Object, o, -1, |init|)] + MemberTokens(init), SuperAfter(init, |before|)))
    ensures var ls := YieldMembers(init) + Separator(init == []) + YieldMember(m);
      && NoFail(ls) && ParseLexemes(ls, State(before + [Token(Object, o, -1, 0)], |before|), cap)
         == Go(State(before + [Token(Object, o, -1, |init| + 1)] + (MemberTokens(init) + TokensOfMember(m)),
                     if m.value.Leaf? then |before| + 1 + |MemberTokens(init)| else |before|))
    decreases m, 5
  {
    hide ParseLexemes, NoFail, MemberTokens, YieldMembers, YieldMember, TokensOfMember, IsMember, SuperAfter, Separator;
    var t := Token(Object, o, -1, |init|);
    NextMember(init, m, before, t, cap);
    var s0 := State(before + [Token(Object, o, -1, 0)], |before|);
    var s1 := State(before + [t] + MemberTokens(init), SuperAfter(init, |before|));
    var s3 := State(before + [Token(Object, o, -1, |init| + 1)] + (MemberTokens(init) + TokensOfMember(m)),
                    if m.value.Leaf? then |before| + 1 + |MemberTokens(init)| else |before|);
    ParseThree(YieldMembers(init), Separator(init == []), YieldMember(m), s0, s1, s1.(super := |before|), s3, cap);
  }

  /** Lexical elements that are those of a value give exactly its tokens. */
  lemma YieldIsParsed(js: string, v: Json, cap: nat)
    requires IsJson(v) && Lexemes(js, 0) == Yield(v) && |TokensOf(v)| <= cap
    ensures Parse(js, cap).ret == |TokensOf(v)| && Parse(js, cap).s.toks == TokensOf(v)
  {
    YieldNoFail(v);
    ParseIsLexemes(js, 0, Start(), cap);
    ValueParsed(v, Start(), cap);
    TokensClosed(v);
    LastOpenAfter([], TokensOf(v));
    assert [] + TokensOf(v) == TokensOf(v);
  }

  // ---- texts, character by character

  predicate BlankTo(js: string, p: nat, q: nat) {
    p <= q <= |js| && forall i :: p <= i < q ==> js[i] in BLANKS
  }

  /** A string in quotes, or an unquoted value up to its delimiter, from p to q. */
  predicate AtomAt(js: string, a: Event, p: nat, q: nat) {
    && a.Atom? && p < q <= |js|
    && if a.typ == String then
         js[p] == '"' && a.start == p + 1 && a.end + 1 == q && BodyTo(js, p + 1, a.end) && Closes(js, a.end)
       else
         && a.typ == Primitive && a.start == p && a.end == q && LiteralTo(js, p, q) && Delimits(js, q)
         && js[p] !in {'{', '[', '"'}
  }

  /** The value v is written from p to q, with blanks where RFC 8259 has them. */
  ghost predicate ValueAt(js: string, v: Json, p: nat, q: nat)
    decreases v, 0
  {
    match v
    case Leaf(a) => AtomAt(js, a, p, q)
    case Arr(o, items, c) =>
      o == p && c + 1 == q && p < c < |js| && js[o] == '[' && js[c] == ']' && ItemsAt(js, items, p + 1, c)
    case Obj(o, members, c) =>
      o == p && c + 1 == q && p < c < |js| && js[o] == '{' && js[c] == '}' && MembersAt(js, members, p + 1, c)
  }

  /** Between one item and the next: a comma and blanks. */
  predicate SeparatorAt(js: string, first: bool, p: nat, q: nat) {
    if first then p == q else p < |js| && js[p] == ',' && BlankTo(js, p + 1, q)
  }

  ghost predicate ItemsAt(js: string, items: seq<Json>, p: nat, q: nat)
    decreases items
  {
    if items == [] then BlankTo(js, p, q)
    else
      var m := |items| - 1;
      exists a: nat, b: nat, c: nat ::
        ItemsAt(js, items[..m], p, a) && SeparatorAt(js, m == 0, a, b) && ValueAt(js, items[m], b, c)
        && BlankTo(js, c, q)
  }

  ghost predicate MembersAt(js: string, members: seq<Member>, p: nat, q: nat)
    decreases members, 1
  {
    if members == [] then BlankTo(js, p, q)
    else
      var m := |members| - 1;
      exists a: nat, b: nat, c: nat ::
        MembersAt(js, members[..m], p, a) && SeparatorAt(js, m == 0, a, b) && MemberAt(js, members[m], b, c)
        && BlankTo(js, c, q)
  }

  predicate ColonAt(js: string, p: nat, q: nat) {
    exists c: nat :: BlankTo(js, p, c) && c < |js| && js[c] == ':' && BlankTo(js, c + 1, q)
  }

  ghost predicate MemberAt(js: string, m: Member, p: nat, q: nat)
    decreases m, 0
  {
    && m.key.Atom? && m.key.typ == String
    && exists a: nat, b: nat :: AtomAt(js, m.key, p, a) && ColonAt(js, a, b) && ValueAt(js, m.value, b, q)
  }

  /** A JSON text: a value with blanks around it, up to the end or a NUL. */
  ghost predicate IsText(js: string, v: Json) {
    exists p: nat, q: nat, r: nat :: BlankTo(js, 0, p) && ValueAt(js, v, p, q) && BlankTo(js, q, r) && AtEnd(js, r)
  }

  lemma {:induction false} BlanksLexed(js: string, p: nat, q: nat)
    requires BlankTo(js, p, q)
    ensures Lexemes(js, p) == Lexemes(js, q)
    decreases q - p
  {
    if p < q {
      EventExact(js, p);
      BlanksLexed(js, p + 1, q);
    }
  }

  lemma SignLexed(js: string, p: nat)
    requires p < |js| && js[p] in {'{', '}', '[', ']', ':', ','}
    ensures !AtEnd(js, p) && Lexemes(js, p) == [LexemeOf(EventAt(js, p), p)] + Lexemes(js, p + 1)
  {
    EventExact(js, p);
  }

  lemma AtomLexed(js: string, a: Event, p: nat, q: nat)
    requires AtomAt(js, a, p, q)
    ensures Lexemes(js, p) == [Lexeme(a, 0)] + Lexemes(js, q)
  {
    assert a.typ == Primitive ==> js[p..q][0] == js[p];
    EventExact(js, p);
    assert EventAt(js, p) == a;
  }

  lemma ColonLexed(js: string, p: nat, q: nat)
    requires ColonAt(js, p, q)
    ensures Lexemes(js, p) == [Lexeme(Colon, 0)] + Lexemes(js, q)
  {
    var c: nat :| BlankTo(js, p, c) && c < |js| && js[c] == ':' && BlankTo(js, c + 1, q);
    BlanksLexed(js, p, c);
    SignLexed(js, c);
    EventExact(js, c);
    BlanksLexed(js, c + 1, q);
  }

  lemma SeparatorLexed(js: string, first: bool, p: nat, q: nat)
    requires SeparatorAt(js, first, p, q)
    ensures Lexemes(js, p) == Separator(first) + Lexemes(js, q)
  {
    if !first {
      SignLexed(js, p);
      EventExact(js, p);
      BlanksLexed(js, p + 1, q);
    }
  }

  /** The lexical elements of a value that is written out are its own. */
  lemma {:induction false} ValueLexed(js: string, v: Json, p: nat, q: nat)
    requires ValueAt(js, v, p, q)
    ensures IsJson(v) && Lexemes(js, p) == Yield(v) + Lexemes(js, q)
    decreases v, 0
  {
    hide Lexemes, AtomAt;
    match v
    case Leaf(a) =>
      assert a.Atom? by { AtomIsAtom(js, a, p, q); }
      AtomLexed(js, a, p, q);
    case Arr(o, items, c) =>
      SignLexed(js, o);
      SignLexed(js, c);
      EventExact(js, o);
      EventExact(js, c);
      ItemsLexed(js, items, p + 1, c);
    case Obj(o, members, c) =>
      SignLexed(js, o);
      SignLexed(js, c);
      EventExact(js, o);
      EventExact(js, c);
      MembersLexed(js, members, p + 1, c);
  }

  lemma AtomIsAtom(js: string, a: Event, p: nat, q: nat)
    requires AtomAt(js, a, p, q)
    ensures a.Atom?
  {
  }

  lemma {:induction false} ItemsLexed(js: string, items: seq<Json>, p: nat, q: nat)
    requires ItemsAt(js, items, p, q)
    ensures forall i :: 0 <= i < |items| ==> IsJson(items[i])
    ensures Lexemes(js, p) == YieldItems(items) + Lexemes(js, q)
    decreases items
  {
    hide Lexemes, ValueAt, SeparatorAt, BlankTo;
    if items == [] {
      BlanksLexed(js, p, q);
    } else {
      var m := |items| - 1;
      var a: nat, b: nat, c: nat :|
        ItemsAt(js, items[..m], p, a) && SeparatorAt(js, m == 0, a, b) && ValueAt(js, items[m], b, c)
        && BlankTo(js, c, q);
      ItemsLexed(js, items[..m], p, a);
      SeparatorLexed(js, m == 0, a, b);
      ValueLexed(js, items[m], b, c);
      BlanksLexed(js, c, q);
      forall i | 0 <= i < |items| ensures IsJson(items[i]) {
        if i < m {
          assert items[..m][i] == items[i];
        }
      }
    }
  }

  lemma {:induction false} MembersLexed(js: string, members: seq<Member>, p: nat, q: nat)
    requires MembersAt(js, members, p, q)
    ensures forall i :: 0 <= i < |members| ==> IsMember(members[i])
    ensures Lexemes(js, p) == YieldMembers(members) + Lexemes(js, q)
    decreases members, 1
  {
    hide Lexemes, MemberAt, SeparatorAt, BlankTo;
    if members == [] {
      BlanksLexed(js, p, q);
    } else {
      var m := |members| - 1;
      var a: nat, b: nat, c: nat :|
        MembersAt(js, members[..m], p, a) && SeparatorAt(js, m == 0, a, b) && MemberAt(js, members[m], b, c)
        && BlankTo(js, c, q);
      MembersLexed(js, members[..m], p, a);
      SeparatorLexed(js, m == 0, a, b);
      MemberLexed(js, members[m], b, c);
      BlanksLexed(js, c, q);
      forall i | 0 <= i < |members| ensures IsMember(members[i]) {
        if i < m {
          assert members[..m][i] == members[i];
        }
      }
    }
  }

  lemma {:induction false} MemberLexed(js: string, m: Member, p: nat, q: nat)
    requires MemberAt(js, m, p, q)
    ensures IsMember(m) && Lexemes(js, p) == YieldMember(m) + Lexemes(js, q)
    decreases m, 0
  {
    hide Lexemes, AtomAt, ColonAt, ValueAt;
    var a: nat, b: nat :| AtomAt(js, m.key, p, a) && ColonAt(js, a, b) && ValueAt(js, m.value, b, q);
    AtomLexed(js, m.key, p, a);
    ColonLexed(js, a, b);
    ValueLexed(js, m.value, b, q);
  }

  lemma TextLexed(js: string, v: Json)
    requires IsText(js, v)
    ensures IsJson(v) && Lexemes(js, 0) == Yield(v)
  {
    hide ValueAt, BlankTo;
    var p: nat, q: nat, r: nat :| BlankTo(js, 0, p) && ValueAt(js, v, p, q) && BlankTo(js, q, r) && AtEnd(js, r);
    BlanksLexed(js, 0, p);
    ValueLexed(js, v, p, q);
    BlanksLexed(js, q, r);
  }

  /** A JSON text is accepted with as many tokens as it has values and keys, and they are exactly these: each
      value and key in order, with its extent and its number of children. */
  lemma JsonIsParsed(js: string, v: Json, cap: nat)
    requires IsText(js, v) && IsJson(v) && |TokensOf(v)| <= cap
    ensures Parse(js, cap).ret == |TokensOf(v)| && Parse(js, cap).s.toks == TokensOf(v)
  {
    TextLexed(js, v);
    YieldIsParsed(js, v, cap);
  }

  /** Such a text is counted so as well. */
  lemma JsonIsCounted(js: string, v: Json)
    requires IsText(js, v) && IsJson(v)
    ensures Count(js) == |TokensOf(v)|
  {
    JsonIsParsed(js, v, |TokensOf(v)|);
    SuccessIsCount(js, |TokensOf(v)|);
  }
}
