/** The JSON tokenizer (src/jsmn.h), with JSMN_STRICT and JSMN_PARENT_LINKS undefined. */
module Jsmn {

  const NOMEM: int := -1
  const INVAL: int := -2
  const PART: int := -3

  datatype Type = Undefined | Object | Array | String | Primitive
  datatype Token = Token(typ: Type, start: int, end: int, size: nat)

  // ---- lexing, which both passes share

  predicate AtEnd(js: string, p: nat) {
    p >= |js| || js[p] == '\0'
  }

  predicate IsEscape(c: char) {
    c in "\"/\\bfrnt"
  }

  /** Where a string that is open at p ends, or the error. */
  function StringEnd(js: string, p: nat): (e: int)
    ensures e >= 0 ==> p <= e < |js| && js[e] == '"'
    decreases |js| - p
  {
    if AtEnd(js, p) then PART
    else if js[p] == '"' then p
    else if js[p] == '\\' && p + 1 < |js| then
      (if IsEscape(js[p + 1]) then StringEnd(js, p + 2) else INVAL)
    else StringEnd(js, p + 1)
  }

  predicate IsDelimiter(c: char) {
    c in ":\t\r\n ,]}"
  }

  predicate IsPrintable(c: char) {
    32 <= c as int < 127
  }

  /** Where an unquoted value ends, or the error. */
  function PrimitiveEnd(js: string, p: nat): (e: int)
    ensures e >= 0 ==> p <= e <= |js|
    ensures p <= |js| && !AtEnd(js, p) && !IsDelimiter(js[p]) && e >= 0 ==> p < e
    decreases |js| - p
  {
    if AtEnd(js, p) then (if p <= |js| then p else INVAL)
    else if IsDelimiter(js[p]) then p
    else if !IsPrintable(js[p]) then INVAL
    else PrimitiveEnd(js, p + 1)
  }

  datatype Event =
    | Open(typ: Type)
    | Close(typ: Type)
    | Atom(typ: Type, start: nat, end: nat)
    | Blank
    | Colon
    | Comma
    | Fail(err: int)

  function EventAt(js: string, p: nat): Event
    requires !AtEnd(js, p)
  {
    var c := js[p];
    if c == '{' then Open(Object)
    else if c == '[' then Open(Array)
    else if c == '}' then Close(Object)
    else if c == ']' then Close(Array)
    else if c == '"' then
      var e := StringEnd(js, p + 1);
      if e < 0 then Fail(e) else Atom(String, p + 1, e)
    else if c in "\t\r\n " then Blank
    else if c == ':' then Colon
    else if c == ',' then Comma
    else
      var e := PrimitiveEnd(js, p);
      if e < 0 then Fail(e) else Atom(Primitive, p, e)
  }

  lemma FailIsNegative(js: string, p: nat)
    requires !AtEnd(js, p)
    ensures EventAt(js, p).Fail? ==> EventAt(js, p).err < 0
  {
  }

  /** The position after the event. */
  function After(js: string, p: nat): (q: nat)
    requires !AtEnd(js, p)
    ensures p < q
    ensures EventAt(js, p).Atom? ==> p <= EventAt(js, p).start <= EventAt(js, p).end <= q <= |js|
  {
    match EventAt(js, p)
    case Atom(t, _, e) => if t == String then e + 1 else e
    case _ => p + 1
  }

  // ---- the counting pass

  predicate MakesToken(ev: Event) {
    ev.Open? || ev.Atom?
  }

  /** jsmn_parse without tokens: the number of tokens, or a lexical error. */
  function CountFrom(js: string, p: nat, n: nat): int
    decreases |js| - p
  {
    if AtEnd(js, p) then n
    else
      var ev := EventAt(js, p);
      if ev.Fail? then ev.err else CountFrom(js, After(js, p), if MakesToken(ev) then n + 1 else n)
  }

  // ---- the token pass

  /** The tokens used so far, and the one that new tokens count for. */
  datatype State = State(toks: seq<Token>, super: int)

  predicate IsOpen(t: Token) {
    t.start != -1 && t.end == -1
  }

  function LastOpen(toks: seq<Token>): (i: int)
    ensures -1 <= i < |toks| && (i >= 0 ==> IsOpen(toks[i]))
    ensures forall j :: i < j < |toks| ==> !IsOpen(toks[j])
  {
    if toks == [] then -1
    else if IsOpen(toks[|toks| - 1]) then |toks| - 1
    else LastOpen(toks[..|toks| - 1])
  }

  predicate IsContainer(t: Type) {
    t == Array || t == Object
  }

  function LastOpenContainer(toks: seq<Token>): (i: int)
    ensures -1 <= i < |toks|
  {
    if toks == [] then -1
    else if IsContainer(toks[|toks| - 1].typ) && IsOpen(toks[|toks| - 1]) then |toks| - 1
    else LastOpenContainer(toks[..|toks| - 1])
  }

  predicate IsState(s: State) {
    -1 <= s.super < |s.toks|
  }

  function Counted(toks: seq<Token>, super: int): (r: seq<Token>)
    requires -1 <= super < |toks|
    ensures |r| == |toks|
  {
    if super == -1 then toks else toks[super := toks[super].(size := toks[super].size + 1)]
  }

  datatype Stepped = Go(s: State) | Stop(err: int)

  function Step(s: State, ev: Event, p: nat, cap: nat): (r: Stepped)
    requires IsState(s) && !ev.Fail?
    ensures r.Go? ==> IsState(r.s)
  {
    match ev
    case Open(t) =>
      if |s.toks| >= cap then Stop(NOMEM)
      else Go(State(Counted(s.toks, s.super) + [Token(t, p, -1, 0)], |s.toks|))
    case Close(t) =>
      var i := LastOpen(s.toks);
      if i == -1 || s.toks[i].typ != t then Stop(INVAL)
      else
        var toks := s.toks[i := s.toks[i].(end := p + 1)];
        Go(State(toks, LastOpen(toks[..i])))
    case Atom(t, b, e) =>
      if |s.toks| >= cap then Stop(NOMEM)
      else Go(State(Counted(s.toks, s.super) + [Token(t, b, e, 0)], s.super))
    case Blank => Go(s)
    case Colon => Go(s.(super := |s.toks| - 1))
    case Comma =>
      if s.super != -1 && !IsContainer(s.toks[s.super].typ) && LastOpenContainer(s.toks) != -1
      then Go(s.(super := LastOpenContainer(s.toks))) else Go(s)
  }

  /** What a call returns, with the parser's tokens and position. */
  datatype Outcome = Outcome(ret: int, s: State, pos: nat)

  /** jsmn_parse from a position, with room for cap tokens. */
  function ParseFrom(js: string, p: nat, s: State, cap: nat): (o: Outcome)
    requires IsState(s)
    ensures IsState(o.s)
    decreases |js| - p
  {
    if AtEnd(js, p) then Outcome(if LastOpen(s.toks) != -1 then PART else |s.toks|, s, p)
    else
      var ev := EventAt(js, p);
      if ev.Fail? then Outcome(ev.err, s, p)
      else
        match Step(s, ev, p, cap)
        case Stop(err) => Outcome(err, s, p)
        case Go(s') => ParseFrom(js, After(js, p), s', cap)
  }

  function Start(): State {
    State([], -1)
  }

  function Count(js: string): int {
    CountFrom(js, 0, 0)
  }

  function Parse(js: string, cap: nat): Outcome {
    ParseFrom(js, 0, Start(), cap)
  }

  // ---- counting and parsing agree

  lemma StepCounts(s: State, ev: Event, p: nat, cap: nat)
    requires IsState(s) && !ev.Fail?
    ensures var r := Step(s, ev, p, cap);
      && (r.Go? ==> |r.s.toks| == if MakesToken(ev) then |s.toks| + 1 else |s.toks|)
      && (r.Stop? ==> r.err == INVAL || (r.err == NOMEM && MakesToken(ev) && |s.toks| >= cap))
  {
  }

  lemma {:induction false} CountGrows(js: string, p: nat, n: nat)
    ensures CountFrom(js, p, n) >= 0 ==> CountFrom(js, p, n) >= n
    decreases |js| - p
  {
    if !AtEnd(js, p) && !EventAt(js, p).Fail? {
      CountGrows(js, After(js, p), if MakesToken(EventAt(js, p)) then n + 1 else n);
    }
  }

  lemma {:induction false} EnoughTokens(js: string, p: nat, s: State, cap: nat)
    requires IsState(s) && 0 <= CountFrom(js, p, |s.toks|) <= cap
    ensures var r := ParseFrom(js, p, s, cap).ret; r != NOMEM && (r >= 0 ==> r == CountFrom(js, p, |s.toks|))
    decreases |js| - p
  {
    if !AtEnd(js, p) {
      var ev := EventAt(js, p);
      StepCounts(s, ev, p, cap);
      CountGrows(js, After(js, p), if MakesToken(ev) then |s.toks| + 1 else |s.toks|);
      hide Step, EventAt;
      if Step(s, ev, p, cap).Go? {
        EnoughTokens(js, After(js, p), Step(s, ev, p, cap).s, cap);
      }
    }
  }

  lemma {:induction false} ParsedIsCounted(js: string, p: nat, s: State, cap: nat)
    requires IsState(s) && ParseFrom(js, p, s, cap).ret >= 0
    ensures CountFrom(js, p, |s.toks|) == ParseFrom(js, p, s, cap).ret
    decreases |js| - p
  {
    if !AtEnd(js, p) && !EventAt(js, p).Fail? {
      StepCounts(s, EventAt(js, p), p, cap);
      hide Step, EventAt;
      if Step(s, EventAt(js, p), p, cap).Go? {
        ParsedIsCounted(js, After(js, p), Step(s, EventAt(js, p), p, cap).s, cap);
      }
    }
  }

  // ---- sizes

  function SizeSum(toks: seq<Token>): nat {
    if toks == [] then 0 else SizeSum(toks[..|toks| - 1]) + toks[|toks| - 1].size
  }

  /** How many tokens a parse adds at top level, where there is no super-token to count them. */
  function TopLevel(js: string, p: nat, s: State, cap: nat): nat
    requires IsState(s)
    decreases |js| - p
  {
    if AtEnd(js, p) || EventAt(js, p).Fail? then 0
    else
      match Step(s, EventAt(js, p), p, cap)
      case Stop(_) => 0
      case Go(s') =>
        (if MakesToken(EventAt(js, p)) && s.super == -1 then 1 else 0) + TopLevel(js, After(js, p), s', cap)
  }

  lemma {:induction false} SumUpdated(toks: seq<Token>, i: nat, t: Token)
    requires i < |toks|
    ensures SizeSum(toks[i := t]) == SizeSum(toks) - toks[i].size + t.size
    decreases |toks|
  {
    var m := |toks| - 1;
    if i < m {
      SumUpdated(toks[..m], i, t);
      assert toks[i := t][..m] == toks[..m][i := t];
    } else {
      assert toks[i := t][..m] == toks[..m];
    }
  }

  lemma StepSizes(s: State, ev: Event, p: nat, cap: nat)
    requires IsState(s) && !ev.Fail? && Step(s, ev, p, cap).Go?
    ensures SizeSum(Step(s, ev, p, cap).s.toks)
         == SizeSum(s.toks) + if MakesToken(ev) && s.super != -1 then 1 else 0
  {
    if MakesToken(ev) {
      var c := Counted(s.toks, s.super);
      assert forall t: Token :: (c + [t])[..|c|] == c;
      if s.super != -1 {
        SumUpdated(s.toks, s.super, c[s.super]);
      }
    } else if ev.Close? {
      var i := LastOpen(s.toks);
      SumUpdated(s.toks, i, s.toks[i].(end := p + 1));
    }
  }

  /** The sizes add up to the number of tokens made below another one. */
  lemma {:induction false} SizesCountTokens(js: string, p: nat, s: State, cap: nat)
    requires IsState(s)
    ensures var o := ParseFrom(js, p, s, cap);
      SizeSum(o.s.toks) + TopLevel(js, p, s, cap) + |s.toks| == |o.s.toks| + SizeSum(s.toks)
    decreases |js| - p
  {
    if !AtEnd(js, p) && !EventAt(js, p).Fail? {
      var ev := EventAt(js, p);
      StepCounts(s, ev, p, cap);
      if Step(s, ev, p, cap).Go? {
        StepSizes(s, ev, p, cap);
        hide Step, EventAt;
        SizesCountTokens(js, After(js, p), Step(s, ev, p, cap).s, cap);
      }
    }
  }

  // ---- resuming after running out of tokens

  lemma StepNoMem(s: State, ev: Event, p: nat, cap: nat, cap': nat)
    requires IsState(s) && !ev.Fail? && cap <= cap'
    ensures Step(s, ev, p, cap) == Step(s, ev, p, cap') || Step(s, ev, p, cap) == Stop(NOMEM)
  {
  }

  /** A parser that ran out of tokens goes on with more of them as if it had had them from the start. */
  lemma {:induction false} ResumeIsOneShot(js: string, p: nat, s: State, cap: nat, cap': nat)
    requires IsState(s) && cap <= cap' && ParseFrom(js, p, s, cap).ret == NOMEM
    ensures var o := ParseFrom(js, p, s, cap); ParseFrom(js, o.pos, o.s, cap') == ParseFrom(js, p, s, cap')
    decreases |js| - p
  {
    if !AtEnd(js, p) && !EventAt(js, p).Fail? {
      var ev := EventAt(js, p);
      StepNoMem(s, ev, p, cap, cap');
      hide Step, EventAt;
      if Step(s, ev, p, cap).Go? {
        ResumeIsOneShot(js, After(js, p), Step(s, ev, p, cap).s, cap, cap');
      }
    }
  }

  // ---- success means balanced brackets

  /** The types of the open tokens, outermost first. */
  function OpenTypes(toks: seq<Token>): seq<Type> {
    if toks == [] then []
    else OpenTypes(toks[..|toks| - 1]) + if IsOpen(toks[|toks| - 1]) then [toks[|toks| - 1].typ] else []
  }

  /** No lexical error, and every closing bracket closes the innermost open bracket, of its type, and none is
      left open. */
  predicate Balanced(js: string, p: nat, stack: seq<Type>)
    decreases |js| - p
  {
    if AtEnd(js, p) then stack == []
    else
      match EventAt(js, p)
      case Fail(_) => false
      case Open(t) => Balanced(js, After(js, p), stack + [t])
      case Close(t) => stack != [] && stack[|stack| - 1] == t && Balanced(js, After(js, p), stack[..|stack| - 1])
      case _ => Balanced(js, After(js, p), stack)
  }

  lemma {:induction false} OpenTypesLast(toks: seq<Token>)
    ensures LastOpen(toks) == -1 <==> OpenTypes(toks) == []
    ensures var i, o := LastOpen(toks), OpenTypes(toks);
      i >= 0 ==> o == OpenTypes(toks[..i]) + [toks[i].typ]
    decreases |toks|
  {
    if toks != [] && !IsOpen(toks[|toks| - 1]) {
      var init := toks[..|toks| - 1];
      OpenTypesLast(init);
      if LastOpen(init) >= 0 {
        assert init[..LastOpen(init)] == toks[..LastOpen(init)];
      }
    }
  }

  lemma {:induction false} SameOpen(a: seq<Token>, b: seq<Token>)
    requires |a| == |b| && forall i :: 0 <= i < |a| ==> a[i].typ == b[i].typ && (IsOpen(a[i]) <==> IsOpen(b[i]))
    ensures OpenTypes(a) == OpenTypes(b)
    decreases |a|
  {
    if a != [] {
      SameOpen(a[..|a| - 1], b[..|b| - 1]);
    }
  }

  /** Tokens that are not open after the last open one do not matter. */
  lemma {:induction false} OpenPrefix(toks: seq<Token>, i: nat)
    requires i <= |toks| && forall j :: i <= j < |toks| ==> !IsOpen(toks[j])
    ensures OpenTypes(toks) == OpenTypes(toks[..i])
    decreases |toks|
  {
    if i < |toks| {
      var init := toks[..|toks| - 1];
      OpenPrefix(init, i);
      assert init[..i] == toks[..i];
    } else {
      assert toks[..i] == toks;
    }
  }

  lemma CountedOpen(s: State, t: Token)
    requires IsState(s)
    ensures OpenTypes(Counted(s.toks, s.super) + [t]) == OpenTypes(s.toks) + if IsOpen(t) then [t.typ] else []
  {
    var c := Counted(s.toks, s.super);
    assert (c + [t])[..|c|] == c;
    SameOpen(c, s.toks);
  }

  lemma ClosedOpen(s: State, p: nat)
    requires IsState(s) && LastOpen(s.toks) >= 0
    ensures var i := LastOpen(s.toks);
      OpenTypes(s.toks[i := s.toks[i].(end := p + 1)]) == OpenTypes(s.toks[..i])
  {
    var i := LastOpen(s.toks);
    var toks := s.toks[i := s.toks[i].(end := p + 1)];
    OpenPrefix(toks, i);
    assert toks[..i] == s.toks[..i];
  }

  /** What a step does to the stack of open brackets. */
  lemma StepStack(s: State, ev: Event, p: nat, cap: nat)
    requires IsState(s) && !ev.Fail? && (MakesToken(ev) ==> |s.toks| < cap)
    ensures var r, o := Step(s, ev, p, cap), OpenTypes(s.toks);
      match ev
      case Open(t) => r.Go? && OpenTypes(r.s.toks) == o + [t]
      case Close(t) => if o != [] && o[|o| - 1] == t then r.Go? && OpenTypes(r.s.toks) == o[..|o| - 1] else r.Stop?
      case _ => r.Go? && OpenTypes(r.s.toks) == o
  {
    OpenTypesLast(s.toks);
    match ev {
      case Open(t) => CountedOpen(s, Token(t, p, -1, 0));
      case Close(t) =>
        if LastOpen(s.toks) >= 0 {
          ClosedOpen(s, p);
        }
      case Atom(t, b, e) => CountedOpen(s, Token(t, b, e, 0));
      case _ =>
    }
  }

  lemma {:induction false} SuccessIsBalanced(js: string, p: nat, s: State, cap: nat)
    requires IsState(s) && (CountFrom(js, p, |s.toks|) >= 0 ==> CountFrom(js, p, |s.toks|) <= cap)
    ensures ParseFrom(js, p, s, cap).ret >= 0 <==> Balanced(js, p, OpenTypes(s.toks))
    decreases |js| - p
  {
    OpenTypesLast(s.toks);
    if !AtEnd(js, p) && !EventAt(js, p).Fail? {
      var ev := EventAt(js, p);
      var n := if MakesToken(ev) then |s.toks| + 1 else |s.toks|;
      CountGrows(js, After(js, p), n);
      StepCounts(s, ev, p, cap);
      if MakesToken(ev) && |s.toks| >= cap {
        LexicalErrorUnbalanced(js, p, OpenTypes(s.toks), |s.toks|);
      } else {
        StepStack(s, ev, p, cap);
        hide Step, EventAt, OpenTypes;
        var r := Step(s, ev, p, cap);
        if r.Go? {
          SuccessIsBalanced(js, After(js, p), r.s, cap);
        }
      }
    }
  }

  lemma {:induction false} LexicalErrorUnbalanced(js: string, p: nat, stack: seq<Type>, n: nat)
    requires CountFrom(js, p, n) < 0
    ensures !Balanced(js, p, stack)
    decreases |js| - p
  {
    if !AtEnd(js, p) && !EventAt(js, p).Fail? {
      var ev := EventAt(js, p);
      var n' := if MakesToken(ev) then n + 1 else n;
      if ev.Open? {
        LexicalErrorUnbalanced(js, After(js, p), stack + [ev.typ], n');
      } else if !ev.Close? {
        LexicalErrorUnbalanced(js, After(js, p), stack, n');
      } else if stack != [] {
        LexicalErrorUnbalanced(js, After(js, p), stack[..|stack| - 1], n');
      }
    }
  }

  /** If counting gives n, parsing with n tokens or more never runs out of tokens, succeeds exactly when the
      brackets are balanced, and then gives n. */
  lemma CountIsEnough(js: string, cap: nat)
    requires 0 <= Count(js) <= cap
    ensures var r := Parse(js, cap).ret;
      r != NOMEM && (r >= 0 <==> Balanced(js, 0, [])) && (r >= 0 ==> r == Count(js))
  {
    EnoughTokens(js, 0, Start(), cap);
    SuccessIsBalanced(js, 0, Start(), cap);
  }

  /** A parse with any number of tokens that succeeds gives what counting gives. */
  lemma SuccessIsCount(js: string, cap: nat)
    ensures Parse(js, cap).ret >= 0 ==> Count(js) == Parse(js, cap).ret
  {
    if Parse(js, cap).ret >= 0 {
      ParsedIsCounted(js, 0, Start(), cap);
    }
  }

  // ---- the structure of the tokens

  function OpenBracket(t: Type): char {
    if t == Object then '{' else '['
  }

  function CloseBracket(t: Type): char {
    if t == Object then '}' else ']'
  }

  /** A token's boundaries are where the text says: brackets of its type, quotes, or a bare value. */
  predicate Bounds(js: string, t: Token) {
    && 0 <= t.start < |js|
    && (t.end != -1 ==> t.start <= t.end <= |js|)
    && match t.typ
       case Undefined => false
       case String => t.end != -1 && t.start > 0 && js[t.start - 1] == '"' && t.end < |js| && js[t.end] == '"'
       case Primitive => t.start < t.end && forall k :: t.start <= k < t.end ==> !IsDelimiter(js[k])
       case _ =>
         js[t.start] == OpenBracket(t.typ) && (t.end != -1 ==> t.end > 0 && js[t.end - 1] == CloseBracket(t.typ))
  }

  /** b starts after a; it is inside a or after it, unless a is still open. */
  predicate Apart(a: Token, b: Token) {
    a.start < b.start && (a.end != -1 ==> a.end <= b.start || (b.end != -1 && b.end <= a.end))
  }

  predicate Laminar(toks: seq<Token>) {
    forall i, j :: 0 <= i < j < |toks| ==> Apart(toks[i], toks[j])
  }

  /** Everything before the position. */
  predicate Behind(toks: seq<Token>, p: nat) {
    forall i :: 0 <= i < |toks| ==> toks[i].start < p && toks[i].end <= p
  }

  predicate WellFormed(js: string, toks: seq<Token>, p: nat) {
    && (forall i :: 0 <= i < |toks| ==> Bounds(js, toks[i]))
    && Laminar(toks) && Behind(toks, p)
  }

  lemma {:induction false} PrimitiveText(js: string, p: nat, k: nat)
    requires PrimitiveEnd(js, p) >= 0 && p <= k < PrimitiveEnd(js, p)
    ensures !IsDelimiter(js[k])
    decreases |js| - p
  {
    if p < k {
      PrimitiveText(js, p + 1, k);
    }
  }

  lemma AtomBounds(js: string, p: nat)
    requires !AtEnd(js, p) && EventAt(js, p).Atom?
    ensures var ev := EventAt(js, p);
      Bounds(js, Token(ev.typ, ev.start, ev.end, 0)) && p <= ev.start < After(js, p) && ev.end <= After(js, p)
  {
    var ev := EventAt(js, p);
    if ev.typ == Primitive {
      forall k: nat | ev.start <= k < ev.end ensures !IsDelimiter(js[k]) {
        PrimitiveText(js, p, k);
      }
    }
  }

  /** A new token, counted for some earlier one. */
  lemma AddedWellFormed(js: string, s: State, p: nat, t: Token, q: nat)
    requires IsState(s) && WellFormed(js, s.toks, p) && Bounds(js, t) && p <= t.start < q && t.end <= q
    ensures WellFormed(js, Counted(s.toks, s.super) + [t], q)
  {
    var r := Counted(s.toks, s.super) + [t];
    hide IsDelimiter;
    forall i, j | 0 <= i < j < |r| ensures Apart(r[i], r[j]) {
      assert j < |s.toks| ==> Apart(s.toks[i], s.toks[j]);
      assert Bounds(js, s.toks[i]);
    }
    forall i | 0 <= i < |r| ensures Bounds(js, r[i]) {
      assert i < |s.toks| ==> Bounds(js, s.toks[i]);
    }
  }

  lemma ClosedLaminar(toks: seq<Token>, i: nat, p: nat)
    requires Laminar(toks) && Behind(toks, p) && i < |toks| && toks[i].end == -1
    requires forall j :: i < j < |toks| ==> toks[j].end != -1
    ensures Laminar(toks[i := toks[i].(end := p + 1)]) && Behind(toks[i := toks[i].(end := p + 1)], p + 1)
  {
    var r := toks[i := toks[i].(end := p + 1)];
    forall k, j | 0 <= k < j < |r| ensures Apart(r[k], r[j]) {
      assert Apart(toks[k], toks[j]);
    }
  }

  lemma BoundsStart(js: string, t: Token)
    requires Bounds(js, t)
    ensures t.start >= 0
  {
  }

  lemma BoundsClosed(js: string, t: Token, p: nat)
    requires Bounds(js, t) && IsOpen(t) && t.start < p < |js| && js[p] == CloseBracket(t.typ)
    ensures Bounds(js, t.(end := p + 1))
  {
  }

  /** Closing the innermost open token. */
  lemma ClosedWellFormed(js: string, toks: seq<Token>, i: nat, p: nat)
    requires WellFormed(js, toks, p) && i < |toks| && i == LastOpen(toks)
    requires p < |js| && js[p] == CloseBracket(toks[i].typ)
    ensures WellFormed(js, toks[i := toks[i].(end := p + 1)], p + 1)
  {
    var r := toks[i := toks[i].(end := p + 1)];
    hide Laminar, Bounds, LastOpen, CloseBracket;
    assert toks[i].start < p;
    BoundsClosed(js, toks[i], p);
    forall j | i < j < |toks| ensures toks[j].end != -1 {
      BoundsStart(js, toks[j]);
    }
    ClosedLaminar(toks, i, p);
    forall j | 0 <= j < |r| ensures Bounds(js, r[j]) {
      assert j != i ==> r[j] == toks[j];
    }
  }

  lemma BehindLater(toks: seq<Token>, p: nat, q: nat)
    requires Behind(toks, p) && p <= q
    ensures Behind(toks, q)
  {
  }

  lemma StepWellFormed(js: string, p: nat, s: State, cap: nat)
    requires !AtEnd(js, p) && !EventAt(js, p).Fail? && IsState(s) && WellFormed(js, s.toks, p)
    requires Step(s, EventAt(js, p), p, cap).Go?
    ensures WellFormed(js, Step(s, EventAt(js, p), p, cap).s.toks, After(js, p))
  {
    var ev := EventAt(js, p);
    BehindLater(s.toks, p, After(js, p));
    match ev {
      case Open(t) =>
        AddedWellFormed(js, s, p, Token(t, p, -1, 0), p + 1);
      case Close(t) =>
        ClosedWellFormed(js, s.toks, LastOpen(s.toks), p);
      case Atom(t, b, e) =>
        AtomBounds(js, p);
        AddedWellFormed(js, s, p, Token(t, b, e, 0), After(js, p));
      case _ =>
    }
  }

  lemma {:induction false} ParseWellFormed(js: string, p: nat, s: State, cap: nat)
    requires IsState(s) && WellFormed(js, s.toks, p)
    ensures var o := ParseFrom(js, p, s, cap); WellFormed(js, o.s.toks, o.pos)
    ensures var o := ParseFrom(js, p, s, cap); o.ret >= 0 ==> LastOpen(o.s.toks) == -1
    decreases |js| - p
  {
    if !AtEnd(js, p) && !EventAt(js, p).Fail? {
      var r := Step(s, EventAt(js, p), p, cap);
      hide WellFormed;
      if r.Go? {
        StepWellFormed(js, p, s, cap);
        hide Step, EventAt;
        ParseWellFormed(js, After(js, p), r.s, cap);
      }
    }
  }

  /** Whatever the text and the room, the tokens are ordered by start, any two are nested or disjoint unless
      the first is still open, and each has the boundaries of its type; after a success all are closed. */
  lemma TokensWellFormed(js: string, cap: nat)
    ensures var o := Parse(js, cap); WellFormed(js, o.s.toks, o.pos)
    ensures var o := Parse(js, cap); o.ret >= 0 ==> forall i :: 0 <= i < |o.s.toks| ==> o.s.toks[i].end != -1
  {
    ParseWellFormed(js, 0, Start(), cap);
    var toks := Parse(js, cap).s.toks;
    forall i | 0 <= i < |toks| && Parse(js, cap).ret >= 0 ensures toks[i].end != -1 {
      assert Bounds(js, toks[i]) && !IsOpen(toks[i]);
    }
  }

  // ---- the parser

  /** The parser's fields; a null token array asks for counting only. */
  class Parser {
    var pos: nat
    var toknext: nat
    var toksuper: int

    /** jsmn_init. */
    constructor ()
      ensures pos == 0 && toknext == 0 && toksuper == -1
    {
      pos, toknext, toksuper := 0, 0, -1;
    }

    predicate Fits(tokens: array<Token>)
      reads this
    {
      toknext <= tokens.Length && -1 <= toksuper < toknext
    }

    function Abs(tokens: array<Token>): State
      requires toknext <= tokens.Length
      reads this, tokens
    {
      State(tokens[..toknext], toksuper)
    }

    /** jsmn_alloc_token; the type is set later. */
    method AllocToken(tokens: array<Token>) returns (ok: bool)
      requires toknext <= tokens.Length
      modifies this`toknext, tokens
      ensures ok <==> old(toknext) < tokens.Length
      ensures !ok ==> toknext == old(toknext) && tokens[..] == old(tokens[..])
      ensures ok ==> toknext == old(toknext) + 1 && tokens[..old(toknext)] == old(tokens[..toknext])
      ensures ok ==> tokens[old(toknext)] == old(tokens[toknext]).(start := -1, end := -1, size := 0)
    {
      if toknext >= tokens.Length {
        return false;
      }
      tokens[toknext] := tokens[toknext].(start := -1, end := -1, size := 0);
      toknext := toknext + 1;
      ok := true;
    }

    /** A string or primitive whose end has been found. */
    method AddAtom(tokens: array<Token>, typ: Type, start: nat, end: nat) returns (ok: bool)
      requires toknext <= tokens.Length
      modifies this`toknext, tokens
      ensures ok <==> old(toknext) < tokens.Length
      ensures !ok ==> toknext == old(toknext) && tokens[..] == old(tokens[..])
      ensures ok ==> toknext == old(toknext) + 1
      ensures ok ==> tokens[..toknext] == old(tokens[..toknext]) + [Token(typ, start, end, 0)]
    {
      ok := AllocToken(tokens);
      if ok {
        tokens[toknext - 1] := Token(typ, start, end, 0);
      }
    }

    /** What jsmn_parse_string and jsmn_parse_primitive do with the end they found, if any. */
    twostate predicate AtomDone(tokens: array?<Token>, typ: Type, start: nat, e: int, last: nat, r: int)
      reads this, tokens
    {
      if e < 0 || (tokens != null && old(toknext) >= tokens.Length) then
        && r == (if e < 0 then e else NOMEM) && pos == old(pos) && toknext == old(toknext) && toksuper == old(toksuper)
        && (tokens != null ==> tokens[..] == old(tokens[..]))
      else if tokens == null then r == 0 && pos == last && toknext == old(toknext) && toksuper == old(toksuper)
      else
        && r == 0 && pos == last && toknext == old(toknext) + 1 && toksuper == old(toksuper)
        && tokens[..toknext] == old(tokens[..toknext]) + [Token(typ, start, e, 0)]
    }

    /** jsmn_parse_string, at a quote. */
    method ParseString(js: string, tokens: array?<Token>) returns (r: int)
      requires pos < |js| && (tokens != null ==> toknext <= tokens.Length)
      modifies this, tokens
      ensures var e := StringEnd(js, old(pos) + 1);
        AtomDone(tokens, String, old(pos) + 1, e, if e < 0 then 0 else e, r)
    {
      var start := pos;
      pos := pos + 1;
      while pos < |js| && js[pos] != '\0'
        invariant pos > start && toknext == old(toknext) && toksuper == old(toksuper)
        invariant tokens != null ==> tokens[..] == old(tokens[..])
        invariant StringEnd(js, pos) == StringEnd(js, start + 1)
        decreases |js| - pos
      {
        var c := js[pos];
        if c == '"' {
          if tokens == null {
            return 0;
          }
          var ok := AddAtom(tokens, String, start + 1, pos);
          if !ok {
            pos := start;
            return NOMEM;
          }
          return 0;
        }
        if c == '\\' && pos + 1 < |js| {
          pos := pos + 1;
          if !IsEscape(js[pos]) {
            pos := start;
            return INVAL;
          }
        }
        pos := pos + 1;
      }
      pos := start;
      r := PART;
    }

    /** jsmn_parse_primitive; the position is left on the last character, for the caller to step over. */
    method ParsePrimitive(js: string, tokens: array?<Token>) returns (r: int)
      requires !AtEnd(js, pos) && !IsDelimiter(js[pos]) && (tokens != null ==> toknext <= tokens.Length)
      modifies this, tokens
      ensures var e := PrimitiveEnd(js, old(pos));
        AtomDone(tokens, Primitive, old(pos), e, if e < 1 then 0 else e - 1, r)
    {
      var start := pos;
      while pos < |js| && js[pos] != '\0' && !IsDelimiter(js[pos])
        invariant start <= pos <= |js| && toknext == old(toknext) && toksuper == old(toksuper)
        invariant tokens != null ==> tokens[..] == old(tokens[..])
        invariant PrimitiveEnd(js, pos) == PrimitiveEnd(js, start)
        decreases |js| - pos
      {
        if !IsPrintable(js[pos]) {
          pos := start;
          return INVAL;
        }
        pos := pos + 1;
      }
      if tokens == null {
        pos := pos - 1;
        return 0;
      }
      var ok := AddAtom(tokens, Primitive, start, pos);
      if !ok {
        pos := start;
        return NOMEM;
      }
      pos := pos - 1;
      r := 0;
    }

    /** The search for the last open token below an index. */
    method FindOpen(tokens: array<Token>, from: nat) returns (i: int)
      requires from <= tokens.Length
      ensures i == LastOpen(tokens[..from])
    {
      i := from - 1;
      while i >= 0 && !(tokens[i].start != -1 && tokens[i].end == -1)
        invariant -1 <= i < from && LastOpen(tokens[..from]) == LastOpen(tokens[..i + 1])
      {
        assert tokens[..i + 1][..i] == tokens[..i];
        i := i - 1;
      }
      if i >= 0 {
        assert tokens[..i + 1][i] == tokens[i];
      }
    }

    /** An opening bracket. */
    method OpenToken(tokens: array<Token>, typ: Type) returns (r: int)
      requires Fits(tokens)
      modifies this`toknext, this`toksuper, tokens
      ensures var s := Step(old(Abs(tokens)), Open(typ), pos, tokens.Length);
        && Fits(tokens) && (s.Stop? ==> r == s.err && Abs(tokens) == old(Abs(tokens)))
        && (s.Go? ==> r == 0 && Abs(tokens) == s.s)
    {
      var ok := AllocToken(tokens);
      if !ok {
        return NOMEM;
      }
      if toksuper != -1 {
        tokens[toksuper] := tokens[toksuper].(size := tokens[toksuper].size + 1);
      }
      tokens[toknext - 1] := tokens[toknext - 1].(typ := typ, start := pos);
      toksuper := toknext - 1;
      r := 0;
      assert tokens[..toknext - 1] == Counted(old(tokens[..toknext]), old(toksuper));
    }

    /** A closing bracket. */
    method CloseToken(tokens: array<Token>, typ: Type) returns (r: int)
      requires Fits(tokens)
      modifies this`toksuper, tokens
      ensures var s := Step(old(Abs(tokens)), Close(typ), pos, tokens.Length);
        && Fits(tokens) && (s.Stop? ==> r == s.err && Abs(tokens) == old(Abs(tokens)))
        && (s.Go? ==> r == 0 && Abs(tokens) == s.s)
    {
      var i := FindOpen(tokens, toknext);
      if i == -1 || tokens[i].typ != typ {
        return INVAL;
      }
      tokens[i] := tokens[i].(end := pos + 1);
      assert tokens[..toknext] == old(tokens[..toknext])[i := old(tokens[i]).(end := pos + 1)];
      assert tokens[..i + 1][..i] == tokens[..toknext][..i] && !IsOpen(tokens[..i + 1][i]);
      toksuper := FindOpen(tokens, i + 1);
      r := 0;
    }

    /** A comma: back from a key to the container it is in. */
    method CommaToken(tokens: array<Token>)
      requires Fits(tokens)
      modifies this`toksuper
      ensures Fits(tokens) && Step(old(Abs(tokens)), Comma, pos, tokens.Length) == Go(Abs(tokens))
    {
      if toksuper != -1 && tokens[toksuper].typ != Array && tokens[toksuper].typ != Object {
        var i := toknext - 1;
        while i >= 0
          invariant -1 <= i < toknext && toksuper == old(toksuper)
          invariant LastOpenContainer(tokens[..toknext]) == LastOpenContainer(tokens[..i + 1])
        {
          assert tokens[..i + 1][..i] == tokens[..i];
          if tokens[i].typ == Array || tokens[i].typ == Object {
            if tokens[i].start != -1 && tokens[i].end == -1 {
              toksuper := i;
              break;
            }
          }
          i := i - 1;
        }
      }
    }

    /** A string or a primitive has been added: it counts for its super-token. */
    method CountAtom(tokens: array<Token>, ghost before: seq<Token>, ghost t: Token)
      requires toknext <= tokens.Length && -1 <= toksuper < |before| && tokens[..toknext] == before + [t]
      modifies tokens
      ensures tokens[..toknext] == Counted(before, toksuper) + [t]
    {
      if toksuper != -1 {
        tokens[toksuper] := tokens[toksuper].(size := tokens[toksuper].size + 1);
      }
    }

    /** What one turn of the loop does: the event at the position, counted or applied to the tokens. */
    twostate predicate CharDone(js: string, tokens: array?<Token>, r: int, before: nat, count: nat)
      requires old(!AtEnd(js, pos)) && (tokens != null ==> Fits(tokens) && old(Fits(tokens)))
      reads this, tokens
    {
      var p := old(pos);
      var ev := EventAt(js, p);
      if ev.Fail? then r == ev.err && pos == p && (tokens != null ==> Abs(tokens) == old(Abs(tokens)))
      else if tokens == null then
        r == 0 && pos + 1 == After(js, p) && toknext == old(toknext)
          && count == if MakesToken(ev) then before + 1 else before
      else
        match Step(old(Abs(tokens)), ev, p, tokens.Length)
        case Stop(err) => r == err && pos == p && Abs(tokens) == old(Abs(tokens))
        case Go(s) =>
          r == 0 && pos + 1 == After(js, p) && Abs(tokens) == s
            && count == if MakesToken(ev) then before + 1 else before
    }

    /** The cases of jsmn_parse that are strings or other values. */
    method AtomChar(js: string, tokens: array?<Token>, before: nat) returns (r: int, count: nat)
      requires !AtEnd(js, pos) && (EventAt(js, pos).Atom? || EventAt(js, pos).Fail?)
        && (tokens != null ==> Fits(tokens))
      modifies this, tokens
      ensures tokens != null ==> Fits(tokens)
      ensures CharDone(js, tokens, r, before, count)
    {
      hide StringEnd, PrimitiveEnd;
      count := before;
      ghost var p := pos;
      if js[pos] == '"' {
        r := ParseString(js, tokens);
      } else {
        r := ParsePrimitive(js, tokens);
      }
      if r < 0 {
        return;
      }
      count := before + 1;
      if toksuper != -1 && tokens != null {
        ghost var ev := EventAt(js, p);
        CountAtom(tokens, old(tokens[..toknext]), Token(ev.typ, ev.start, ev.end, 0));
      }
    }

    /** The body of the loop of jsmn_parse. */
    method OneChar(js: string, tokens: array?<Token>, before: nat) returns (r: int, count: nat)
      requires !AtEnd(js, pos) && (tokens != null ==> Fits(tokens))
      modifies this, tokens
      ensures tokens != null ==> Fits(tokens)
      ensures CharDone(js, tokens, r, before, count)
    {
      hide StringEnd, PrimitiveEnd, LastOpen, LastOpenContainer, Counted;
      var c := js[pos];
      r, count := 0, before;
      if c == '{' || c == '[' {
        count := before + 1;
        if tokens != null {
          r := OpenToken(tokens, if c == '{' then Object else Array);
        }
      } else if c == '}' || c == ']' {
        if tokens != null {
          r := CloseToken(tokens, if c == '}' then Object else Array);
        }
      } else if c in "\t\r\n " {
      } else if c == ':' {
        toksuper := toknext - 1;
      } else if c == ',' {
        if tokens != null {
          CommaToken(tokens);
        }
      } else {
        r, count := AtomChar(js, tokens, before);
      }
    }

    /** jsmn_parse: the counting pass without tokens, the token pass with them. */
    method Parse(js: string, tokens: array?<Token>) returns (r: int)
      requires tokens != null ==> Fits(tokens)
      modifies this, tokens
      ensures tokens == null ==> r == CountFrom(js, old(pos), old(toknext))
      ensures tokens != null ==> Fits(tokens)
      ensures tokens != null ==>
        Outcome(r, Abs(tokens), pos) == ParseFrom(js, old(pos), old(Abs(tokens)), tokens.Length)
    {
      hide EventAt, Step, After, LastOpen;
      var count := toknext;
      while pos < |js| && js[pos] != '\0'
        invariant tokens == null ==> CountFrom(js, pos, count) == CountFrom(js, old(pos), old(toknext))
        invariant tokens != null ==> Fits(tokens) && count == toknext
        invariant tokens != null ==>
          ParseFrom(js, pos, Abs(tokens), tokens.Length) == ParseFrom(js, old(pos), old(Abs(tokens)), tokens.Length)
        decreases |js| - pos
      {
        ghost var p := pos;
        FailIsNegative(js, p);
        if tokens != null && !EventAt(js, p).Fail? {
          StepCounts(Abs(tokens), EventAt(js, p), p, tokens.Length);
        }
        r, count := OneChar(js, tokens, count);
        if r < 0 {
          return;
        }
        pos := pos + 1;
      }
      if tokens != null {
        var i := FindOpen(tokens, toknext);
        if i >= 0 {
          return PART;
        }
      }
      r := count;
    }
  }
}
