/** What the lexer of src/jsmn.h takes for a string and for an unquoted value, character by character, and exactly
    which errors it gives. */
module JsonChars {
  import opened Jsmn

  // ---- strings

  /** A character that stands for itself in a string. */
  predicate IsPlain(c: char) {
    c != '"' && c != '\\' && c != '\0'
  }

  /** The escapes of section 7 of RFC 8259, but for \u. */
  const ESCAPES: set<char> := {'"', '\\', '/', 'b', 'f', 'n', 'r', 't'}

  /** The inside of a string: plain characters, and backslashes each with an escape after it. */
  predicate IsBody(w: string) {
    || w == []
    || (IsPlain(w[0]) && IsBody(w[1..]))
    || (|w| >= 2 && w[0] == '\\' && w[1] in ESCAPES && IsBody(w[2..]))
  }

  /** The string that is open at p goes on to e. */
  predicate BodyTo(js: string, p: nat, e: nat) {
    p <= e <= |js| && IsBody(js[p..e])
  }

  /** There it is closed, or broken off, or continues with a backslash that escapes nothing. */
  predicate Closes(js: string, e: nat) {
    e < |js| && js[e] == '"'
  }

  predicate BreaksOff(js: string, e: nat) {
    e == |js| || (e < |js| && js[e] == '\0') || (e == |js| - 1 && js[e] == '\\')
  }

  predicate BadEscape(js: string, e: nat) {
    e + 1 < |js| && js[e] == '\\' && js[e + 1] !in ESCAPES
  }

  lemma EscapesAre(c: char)
    ensures IsEscape(c) <==> c in ESCAPES
  {
  }

  lemma PlainStep(js: string, p: nat, e: nat)
    requires p < |js| && IsPlain(js[p])
    ensures p < e ==> (BodyTo(js, p, e) <==> BodyTo(js, p + 1, e))
    ensures BodyTo(js, p, p) && !Closes(js, p) && !BreaksOff(js, p) && !BadEscape(js, p)
  {
    if p < e <= |js| {
      assert js[p..e][0] == js[p] && js[p..e][1..] == js[p + 1..e];
    }
  }

  lemma EscapeStep(js: string, p: nat, e: nat)
    requires p + 1 < |js| && js[p] == '\\' && js[p + 1] in ESCAPES
    ensures p + 1 < e ==> (BodyTo(js, p, e) <==> BodyTo(js, p + 2, e))
    ensures !BodyTo(js, p, p + 1)
    ensures !Closes(js, p) && !BreaksOff(js, p) && !BadEscape(js, p)
  {
    assert js[p..p + 1] == ['\\'];
    if p + 1 < e <= |js| {
      assert js[p..e][0] == js[p] && js[p..e][1] == js[p + 1] && js[p..e][2..] == js[p + 2..e];
    }
  }

  /** No body goes on past a quote, a NUL, a backslash that ends the text or one that escapes nothing. */
  lemma NoStep(js: string, p: nat, e: nat)
    requires p < |js| && (Closes(js, p) || BreaksOff(js, p) || BadEscape(js, p))
    ensures p < e ==> !BodyTo(js, p, e)
  {
    if p < e <= |js| {
      assert js[p..e][0] == js[p];
      if e > p + 1 {
        assert js[p..e][1] == js[p + 1];
      }
    }
  }

  /** Where a body may end, the three ways, by what the lexer returns. */
  ghost predicate Ends(js: string, p: nat, e: nat) {
    BodyTo(js, p, e) && (Closes(js, e) || BreaksOff(js, e) || BadEscape(js, e))
  }

  /** There is exactly one place where an open string stops, and the lexer's answer is what it finds there. */
  lemma {:induction false} StringStops(js: string, p: nat) returns (e: nat)
    requires p <= |js|
    ensures Ends(js, p, e) && forall f: nat :: Ends(js, p, f) ==> f == e
    ensures StringEnd(js, p) == if Closes(js, e) then e else if BadEscape(js, e) then INVAL else PART
    decreases |js| - p
  {
    if p == |js| || Closes(js, p) || BreaksOff(js, p) || BadEscape(js, p) {
      e := p;
      assert js[p..p] == [];
      if p < |js| {
        EscapesAre(if p + 1 < |js| then js[p + 1] else 'b');
        if js[p] == '\\' && p + 1 == |js| {
          assert StringEnd(js, p + 1) == PART;
        }
      }
      forall f: nat | Ends(js, p, f) ensures f == e {
        if p < |js| {
          NoStep(js, p, f);
        }
      }
    } else if IsPlain(js[p]) {
      e := StringStops(js, p + 1);
      PlainStep(js, p, e);
      forall f: nat | Ends(js, p, f) ensures f == e {
        PlainStep(js, p, f);
        assert f > p ==> Ends(js, p + 1, f);
      }
    } else {
      EscapesAre(js[p + 1]);
      e := StringStops(js, p + 2);
      EscapeStep(js, p, e);
      forall f: nat | Ends(js, p, f) ensures f == e {
        EscapeStep(js, p, f);
        assert f > p + 1 ==> Ends(js, p + 2, f);
      }
    }
  }

  /** A string ends at e exactly when its body goes on to a quote there. */
  lemma StringEndExact(js: string, p: nat, e: nat)
    requires p <= |js|
    ensures StringEnd(js, p) == e <==> BodyTo(js, p, e) && Closes(js, e)
  {
    var f := StringStops(js, p);
    if BodyTo(js, p, e) && Closes(js, e) {
      assert Ends(js, p, e);
    }
  }

  /** It is invalid exactly when it comes to a backslash that escapes nothing, and unfinished exactly when the
      text, or what is before a NUL, ends first. */
  lemma StringErrorExact(js: string, p: nat)
    requires p <= |js|
    ensures StringEnd(js, p) == INVAL <==> exists e: nat :: BodyTo(js, p, e) && BadEscape(js, e)
    ensures StringEnd(js, p) == PART <==> exists e: nat :: BodyTo(js, p, e) && BreaksOff(js, e)
    ensures StringEnd(js, p) >= 0 || StringEnd(js, p) == INVAL || StringEnd(js, p) == PART
  {
    var f := StringStops(js, p);
    if e: nat :| BodyTo(js, p, e) && BadEscape(js, e) {
      assert Ends(js, p, e);
    }
    if e: nat :| BodyTo(js, p, e) && BreaksOff(js, e) {
      assert Ends(js, p, e);
    }
  }

  // ---- unquoted values

  /** The characters that end an unquoted value. */
  const DELIMITERS: set<char> := {':', '\t', '\r', '\n', ' ', ',', ']', '}'}

  /** What an unquoted value is made of. */
  predicate IsLiteral(w: string) {
    forall i :: 0 <= i < |w| ==> ' ' < w[i] <= '~' && w[i] !in DELIMITERS
  }

  predicate LiteralTo(js: string, p: nat, e: nat) {
    p <= e <= |js| && IsLiteral(js[p..e])
  }

  predicate Delimits(js: string, e: nat) {
    e == |js| || (e < |js| && (js[e] == '\0' || js[e] in DELIMITERS))
  }

  predicate Unprintable(js: string, e: nat) {
    e < |js| && js[e] != '\0' && js[e] !in DELIMITERS && !(' ' < js[e] <= '~')
  }

  /** An unquoted value ends at e exactly when printable characters go on to a delimiter there, and it is invalid
      exactly when they go on to another character. */
  lemma {:induction false} PrimitiveEndExact(js: string, p: nat, e: nat)
    requires p <= |js|
    ensures PrimitiveEnd(js, p) == e <==> LiteralTo(js, p, e) && Delimits(js, e)
    ensures PrimitiveEnd(js, p) < 0 ==> PrimitiveEnd(js, p) == INVAL
    ensures LiteralTo(js, p, e) && Unprintable(js, e) ==> PrimitiveEnd(js, p) == INVAL
    decreases |js| - p
  {
    assert p < |js| ==> (IsDelimiter(js[p]) <==> js[p] in DELIMITERS);
    if p < e <= |js| {
      assert js[p..e][0] == js[p] && js[p..e][1..] == js[p + 1..e];
      assert forall i :: p <= i < e ==> js[i] == js[p..e][i - p];
      assert forall i :: p + 1 <= i < e ==> js[i] == js[p + 1..e][i - p - 1];
    }
    if p < |js| && !Delimits(js, p) && !Unprintable(js, p) {
      PrimitiveEndExact(js, p + 1, e);
    } else if p == e {
      assert js[p..e] == [];
    }
  }

  lemma {:induction false} InvalidAt(js: string, p: nat) returns (e: nat)
    requires p <= |js| && PrimitiveEnd(js, p) == INVAL
    ensures LiteralTo(js, p, e) && Unprintable(js, e)
    decreases |js| - p
  {
    assert p < |js| ==> (IsDelimiter(js[p]) <==> js[p] in DELIMITERS);
    if Unprintable(js, p) {
      e := p;
    } else {
      e := InvalidAt(js, p + 1);
      assert js[p..e][0] == js[p] && forall i :: 1 <= i < |js[p..e]| ==> js[p..e][i] == js[p + 1..e][i - 1];
    }
  }

  /** An unquoted value is invalid exactly when its printable characters go on to one that is not. */
  lemma PrimitiveErrorExact(js: string, p: nat)
    requires p <= |js|
    ensures PrimitiveEnd(js, p) == INVAL <==> exists e: nat :: LiteralTo(js, p, e) && Unprintable(js, e)
    ensures PrimitiveEnd(js, p) >= 0 || PrimitiveEnd(js, p) == INVAL
  {
    PrimitiveEndExact(js, p, p);
    if PrimitiveEnd(js, p) == INVAL {
      var e := InvalidAt(js, p);
    }
    if e: nat :| LiteralTo(js, p, e) && Unprintable(js, e) {
      PrimitiveEndExact(js, p, e);
    }
  }

  // ---- lexical elements

  const BLANKS: set<char> := {'\t', '\r', '\n', ' '}

  /** What begins at a character. */
  lemma EventExact(js: string, p: nat)
    requires p < |js| && js[p] != '\0'
    ensures EventAt(js, p) == Open(Object) <==> js[p] == '{'
    ensures EventAt(js, p) == Close(Object) <==> js[p] == '}'
    ensures EventAt(js, p) == Open(Array) <==> js[p] == '['
    ensures EventAt(js, p) == Close(Array) <==> js[p] == ']'
    ensures EventAt(js, p) == Colon <==> js[p] == ':'
    ensures EventAt(js, p) == Comma <==> js[p] == ','
    ensures EventAt(js, p).Blank? <==> js[p] in BLANKS
    ensures forall e: nat ::
      EventAt(js, p) == Atom(String, p + 1, e) <==> js[p] == '"' && BodyTo(js, p + 1, e) && Closes(js, e)
    ensures forall e: nat ::
      EventAt(js, p) == Atom(Primitive, p, e) <==>
        js[p] !in BLANKS && js[p] !in {'{', '}', '[', ']', ':', ',', '"'} && LiteralTo(js, p, e) && Delimits(js, e)
  {
    forall e: nat
      ensures StringEnd(js, p + 1) == e <==> BodyTo(js, p + 1, e) && Closes(js, e)
      ensures PrimitiveEnd(js, p) == e <==> LiteralTo(js, p, e) && Delimits(js, e)
    {
      StringEndExact(js, p + 1, e);
      PrimitiveEndExact(js, p, e);
    }
    PrimitiveErrorExact(js, p);
    StringErrorExact(js, p + 1);
    hide StringEnd, PrimitiveEnd, BodyTo, Closes, LiteralTo, Delimits;
  }
}
