/** Marking the nodes of the grammar search's lattice that reach the end node (mark_reachable in
    src/fsg_search.c), with a worklist and in no particular order. */
module FsgReach {
  import opened Basics

  /** entries[v] are the nodes with a link into v. */
  type Entries = seq<seq<nat>>

  predicate IsEntries(entries: Entries) {
    forall v, k :: 0 <= v < |entries| && 0 <= k < |entries[v]| ==> entries[v][k] < |entries|
  }

  /** Links lead along p to its last node. */
  predicate IsRoute(entries: Entries, p: seq<nat>)
    decreases |p|
  {
    p != [] && p[0] < |entries| && (|p| > 1 ==> p[1] < |entries| && p[0] in entries[p[1]] && IsRoute(entries, p[1..]))
  }

  ghost predicate Reaches(entries: Entries, v: nat, end: nat) {
    exists p :: IsRoute(entries, p) && p[0] == v && p[|p| - 1] == end
  }

  lemma ReachesEnd(entries: Entries, end: nat)
    requires end < |entries|
    ensures Reaches(entries, end, end)
  {
    assert IsRoute(entries, [end]);
  }

  lemma ReachesBack(entries: Entries, u: nat, v: nat, end: nat)
    requires u < |entries| && v < |entries| && u in entries[v] && Reaches(entries, v, end)
    ensures Reaches(entries, u, end)
  {
    var p :| IsRoute(entries, p) && p[0] == v && p[|p| - 1] == end;
    var q := [u] + p;
    assert q[1..] == p;
    assert IsRoute(entries, q);
  }

  /** Every predecessor of a marked node is marked. */
  predicate Closed(entries: Entries, marks: seq<bool>)
    requires |marks| == |entries|
  {
    forall v :: 0 <= v < |entries| && marks[v] ==> EntriesMarked(entries[v], marks)
  }

  predicate EntriesMarked(es: seq<nat>, marks: seq<bool>) {
    forall k :: 0 <= k < |es| ==> es[k] < |marks| && marks[es[k]]
  }

  lemma {:induction false} ClosedMarksAll(entries: Entries, marks: seq<bool>, p: seq<nat>)
    requires |marks| == |entries| && Closed(entries, marks) && IsRoute(entries, p)
    requires p[|p| - 1] < |marks| && marks[p[|p| - 1]]
    ensures marks[p[0]]
    decreases |p|
  {
    if |p| > 1 {
      ClosedMarksAll(entries, marks, p[1..]);
      assert EntriesMarked(entries[p[1]], marks);
    }
  }

  class Marker {
    const entries: Entries
    const reachable: array<bool>

    ghost predicate Valid() {
      IsEntries(entries) && reachable.Length == |entries|
    }

    constructor (entries: Entries)
      requires IsEntries(entries)
      ensures Valid() && this.entries == entries && fresh(reachable)
      ensures forall v :: 0 <= v < reachable.Length ==> !reachable[v]
    {
      this.entries := entries;
      reachable := new bool[|entries|](_ => false);
    }

    /** All marked nodes reach the end node, and those not waiting have all their predecessors marked. */
    ghost predicate Progress(end: nat, q: seq<nat>, left: set<nat>)
      requires Valid()
      reads reachable
    {
      && end < |entries| && reachable[end]
      && (forall v :: 0 <= v < |entries| && reachable[v] ==> Reaches(entries, v, end))
      && (forall v :: 0 <= v < |entries| && reachable[v] && v !in q ==> EntriesMarked(entries[v], reachable[..]))
      && (forall k :: 0 <= k < |q| ==> q[k] < |entries| && reachable[q[k]])
      && (forall v: nat :: v in left <==> v < |entries| && !reachable[v])
    }

    /** The predecessors of one node that have not been seen yet. */
    method Expand(node: nat, q0: seq<nat>, ghost end: nat, ghost left0: set<nat>)
      returns (q: seq<nat>, ghost left: set<nat>)
      requires Valid() && node < |entries| && reachable[node] && Progress(end, [node] + q0, left0)
      modifies reachable
      ensures Progress(end, q, left) && left <= left0 && (left == left0 ==> q == q0)
    {
      hide Reaches;
      q, left := q0, left0;
      var es := entries[node];
      assert forall v: nat :: v in [node] + q0 <==> v == node || v in q0;
      forall j | 0 <= j < |q0| ensures q0[j] < |entries| && reachable[q0[j]] {
        assert ([node] + q0)[j + 1] == q0[j];
      }
      for k := 0 to |es|
        invariant reachable[node] && left <= left0 && (left == left0 ==> q == q0)
        invariant forall j :: 0 <= j < k ==> reachable[es[j]]
        invariant end < |entries| && reachable[end]
        invariant forall v :: 0 <= v < |entries| && reachable[v] ==> Reaches(entries, v, end)
        invariant forall v :: 0 <= v < |entries| && reachable[v] && v != node && v !in q ==>
          EntriesMarked(entries[v], reachable[..])
        invariant forall j :: 0 <= j < |q| ==> q[j] < |entries| && reachable[q[j]]
        invariant forall v: nat :: v in left <==> v < |entries| && !reachable[v]
      {
        var next := es[k];
        if !reachable[next] {
          ReachesBack(entries, next, node, end);
          ghost var was := reachable[..];
          reachable[next] := true;
          assert forall v: nat :: v in [next] + q <==> v == next || v in q;
          forall v | 0 <= v < |entries| && reachable[v] && v != node && v !in [next] + q
            ensures EntriesMarked(entries[v], reachable[..])
          {
            assert EntriesMarked(entries[v], was);
          }
          q := [next] + q;
          left := left - {next};
          assert next in left0;
        }
      }
    }

    /** mark_reachable: exactly the nodes from which links lead to the end node are marked. */
    method MarkReachable(end: nat)
      requires Valid() && end < |entries| && forall v :: 0 <= v < reachable.Length ==> !reachable[v]
      modifies reachable
      ensures forall v :: 0 <= v < |entries| ==> (reachable[v] <==> Reaches(entries, v, end))
    {
      reachable[end] := true;
      ReachesEnd(entries, end);
      var q := [end];
      ghost var left := Below(|entries|) - {end};
      hide Reaches;
      while q != []
        invariant Progress(end, q, left)
        decreases left, |q|
      {
        var node := q[0];
        assert q == [node] + q[1..];
        q, left := Expand(node, q[1..], end, left);
      }
      forall v | 0 <= v < |entries| && Reaches(entries, v, end) ensures reachable[v] {
        MarkedIfReaches(v, end);
      }
    }

    lemma MarkedIfReaches(v: nat, end: nat)
      requires Valid() && v < |entries| && Reaches(entries, v, end) && end < |entries| && reachable[end]
      requires forall u :: 0 <= u < |entries| && reachable[u] ==> EntriesMarked(entries[u], reachable[..])
      ensures reachable[v]
    {
      var p :| IsRoute(entries, p) && p[0] == v && p[|p| - 1] == end;
      ClosedMarksAll(entries, reachable[..], p);
    }
  }
}
