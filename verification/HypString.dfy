/** The hypothesis buffer filled from its end by both searches (src/fsg_search.c, src/ngram_search.c). */
module HypString {

  /** Words separated by single spaces. */
  function Join(words: seq<string>): string {
    if words == [] then ""
    else if |words| == 1 then words[0]
    else words[0] + " " + Join(words[1..])
  }

  /** The sum of word lengths plus one for each, as the first pass counts it. */
  function Size(words: seq<string>): nat {
    if words == [] then 0 else |words[0]| + 1 + Size(words[1..])
  }

  lemma {:induction false} SizeSnoc(words: seq<string>, more: seq<string>)
    ensures Size(words + more) == Size(words) + Size(more)
  {
    if words == [] {
      assert words + more == more;
    } else {
      SizeSnoc(words[1..], more);
      assert (words + more)[1..] == words[1..] + more;
    }
  }

  lemma SizeZero(words: seq<string>)
    ensures Size(words) == 0 <==> words == []
  {
  }

  lemma SliceAfter(w: string, tail: string, o: nat, n: nat)
    requires o + n <= |tail|
    ensures var all := w + (" " + tail); var p := |w| + 1 + o;
      && all[..|w|] == w && all[|w|] == ' ' && all[p..p + n] == tail[o..o + n]
      && (o + n < |tail| ==> all[p + n] == tail[o + n])
  {
  }

  /** In the joined string each word starts where the words before it, with a space after each, end. */
  lemma {:induction false} JoinExact(words: seq<string>, i: nat)
    requires i < |words|
    ensures |Join(words)| == Size(words) - 1 && Size(words[..i]) + |words[i]| <= |Join(words)|
    ensures var o := Size(words[..i]); Join(words)[o..o + |words[i]|] == words[i]
    ensures var e := Size(words[..i]) + |words[i]|;
      if i == |words| - 1 then e == |Join(words)| else e < |Join(words)| && Join(words)[e] == ' '
    decreases |words|
  {
    var w, rest := words[0], words[1..];
    if |words| == 1 {
      assert words[..0] == [] && rest == [];
    } else {
      JoinExact(rest, if i == 0 then 0 else i - 1);
      assert Join(words) == w + (" " + Join(rest));
      if i == 0 {
        assert words[..0] == [];
        SliceAfter(w, Join(rest), 0, 0);
      } else {
        assert words[..i][0] == w && words[..i][1..] == rest[..i - 1];
        SliceAfter(w, Join(rest), Size(rest[..i - 1]), |words[i]|);
      }
    }
  }

  /** `at` lists, in increasing order, exactly the members of a set. */
  ghost predicate InOrder(at: seq<nat>, members: set<nat>) {
    (forall i, j :: 0 <= i < j < |at| ==> at[i] < at[j]) && forall n: nat :: n in at <==> n in members
  }

  lemma InOrderSnoc(at: seq<nat>, members: set<nat>, n: nat)
    requires InOrder(at, members) && forall m :: m in members ==> m < n
    ensures InOrder(at + [n], members + {n})
  {
    assert forall i :: 0 <= i < |at| ==> at[i] in at;
  }

  /** What is in the buffer before a word is added in front of those already there. */
  function Tail(words: seq<string>): string {
    if words == [] then "" else " " + Join(words)
  }

  lemma JoinCons(w: string, words: seq<string>)
    ensures Join([w] + words) == w + Tail(words)
  {
    assert ([w] + words)[1..] == words;
  }

  class HypBuffer {
    const buf: array<char>
    var c: nat

    ghost predicate Valid()
      reads this
    {
      c < buf.Length
    }

    /** Allocation of `len` zeroed characters; the last one stays the terminator. */
    constructor (len: nat)
      requires len > 0
      ensures Valid() && fresh(buf) && buf.Length == len && c == len - 1
      ensures Holds([], true)
    {
      buf := new char[len](_ => '\0');
      c := len - 1;
    }

    /** The words added so far fill the buffer from c on, after a space if more are to come. */
    ghost predicate Holds(words: seq<string>, more: bool)
      requires Valid()
      reads this, buf
    {
      && buf[buf.Length - 1] == '\0'
      && Filled() == if more then Tail(words) else Join(words)
    }

    function Filled(): string
      requires Valid()
      reads this, buf
    {
      buf[c..buf.Length - 1]
    }

    /** The copy of one word in front of what is there. */
    method CopyIn(w: string)
      requires Valid() && |w| <= c
      modifies this`c, buf
      ensures Valid() && c == old(c) - |w| && buf[buf.Length - 1] == old(buf[buf.Length - 1])
      ensures Filled() == w + old(Filled())
    {
      c := c - |w|;
      for k := 0 to |w|
        invariant c == old(c) - |w|
        invariant forall j :: c + k <= j < buf.Length ==> buf[j] == old(buf[j])
        invariant forall j :: 0 <= j < k ==> buf[c + j] == w[j]
      {
        buf[c + k] := w[k];
      }
    }

    /** A word, then a space if there is room for more. */
    method Prepend(w: string, ghost words: seq<string>)
      requires Valid() && |w| <= c && Holds(words, true)
      modifies this`c, buf
      ensures Valid() && Holds([w] + words, old(c) > |w|)
      ensures c == if old(c) > |w| then old(c) - |w| - 1 else 0
    {
      hide Join;
      CopyIn(w);
      JoinCons(w, words);
      if c > 0 {
        ghost var was := Filled();
        c := c - 1;
        buf[c] := ' ';
        assert Filled() == [' '] + was;
      }
    }

    lemma HoldsAll(words: seq<string>)
      requires Valid() && Holds(words, false)
      ensures Filled() == Join(words)
    {
    }

    /** The finished string. */
    method Text() returns (s: string)
      requires Valid() && c == 0
      ensures s == Filled()
    {
      s := buf[..buf.Length - 1];
    }
  }
}
