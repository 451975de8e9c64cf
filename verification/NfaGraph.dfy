// NFA states and edges (src/nfa.hpp) and the paths through them.

module NfaGraph {
  import opened Bytes

  // An edge with an empty byte set is an epsilon edge.
  datatype Edge = Edge(target: nat, on: set<byte>)
  datatype State = State(out: seq<Edge>, accept: int, boundary: bool)
  type Graph = seq<State>

  function Eps(target: nat): Edge {
    Edge(target, {})
  }

  predicate Enabled(e: Edge, w: Word) {
    e.on == {} || (|w| > 0 && w[0] in e.on)
  }

  function After(e: Edge, w: Word): Word
    requires Enabled(e, w)
  {
    if e.on == {} then w else w[1..]
  }

  // A path of k edges from p to q that reads exactly w.
  ghost predicate Run(S: Graph, p: nat, w: Word, q: nat, k: nat)
    decreases k
  {
    if k == 0 then p == q && w == []
    else p < |S| && exists i :: RunFrom(S, p, i, w, q, k)
  }

  ghost predicate RunFrom(S: Graph, p: nat, i: int, w: Word, q: nat, k: nat)
    requires k > 0 && p < |S|
    decreases k, 0
  {
    0 <= i < |S[p].out| && Enabled(S[p].out[i], w) && Run(S, S[p].out[i].target, After(S[p].out[i], w), q, k - 1)
  }

  ghost predicate Path(S: Graph, p: nat, w: Word, q: nat) {
    exists k: nat :: Run(S, p, w, q, k)
  }

  lemma FirstEdge(S: Graph, p: nat, w: Word, q: nat, k: nat) returns (i: nat)
    requires k > 0 && Run(S, p, w, q, k)
    ensures p < |S| && RunFrom(S, p, i, w, q, k)
  {
    i :| RunFrom(S, p, i, w, q, k);
  }

  lemma PathNil(S: Graph, p: nat)
    ensures Path(S, p, [], p)
  {
    assert Run(S, p, [], p, 0);
  }

  lemma PathEdge(S: Graph, p: nat, i: nat, w: Word, q: nat)
    requires p < |S| && i < |S[p].out| && Enabled(S[p].out[i], w)
    requires Path(S, S[p].out[i].target, After(S[p].out[i], w), q)
    ensures Path(S, p, w, q)
  {
    var k: nat :| Run(S, S[p].out[i].target, After(S[p].out[i], w), q, k);
    assert RunFrom(S, p, i, w, q, k + 1);
    assert Run(S, p, w, q, k + 1);
  }

  lemma {:induction false} RunAppend(S: Graph, p: nat, u: Word, q: nat, j: nat, v: Word, r: nat)
    requires Run(S, p, u, q, j) && Path(S, q, v, r)
    ensures Path(S, p, u + v, r)
    decreases j
  {
    if j == 0 {
      assert u + v == v;
    } else {
      var i := FirstEdge(S, p, u, q, j);
      var e := S[p].out[i];
      RunAppend(S, e.target, After(e, u), q, j - 1, v, r);
      assert After(e, u) + v == After(e, u + v);
      PathEdge(S, p, i, u + v, r);
    }
  }

  lemma PathAppend(S: Graph, p: nat, u: Word, q: nat, v: Word, r: nat)
    requires Path(S, p, u, q) && Path(S, q, v, r)
    ensures Path(S, p, u + v, r)
  {
    var j: nat :| Run(S, p, u, q, j);
    RunAppend(S, p, u, q, j, v, r);
  }

  // ---------- regions ----------------------------------------------------

  /** No edge leaves the states lo..hi. */
  ghost predicate Closed(S: Graph, lo: nat, hi: nat) {
    hi <= |S| && forall p, i :: lo <= p < hi && 0 <= i < |S[p].out| ==> lo <= S[p].out[i].target < hi
  }

  /** T keeps the edges of the states lo..hi of S, except that x gains the epsilon edges extra. */
  ghost predicate Gains(S: Graph, T: Graph, lo: nat, hi: nat, x: nat, extra: seq<Edge>) {
    && lo <= x < hi <= |S| && hi <= |T|
    && (forall p :: lo <= p < hi && p != x ==> T[p].out == S[p].out)
    && T[x].out == S[x].out + extra
    && (forall j :: 0 <= j < |extra| ==> extra[j].on == {})
  }

  /** A path of T from inside a closed region of S either stays in S, or is a path of S to x, then a new edge, then the
      rest. */
  lemma {:induction false} Exit(S: Graph, T: Graph, lo: nat, hi: nat, x: nat, extra: seq<Edge>,
                                p: nat, w: Word, q: nat, k: nat)
    returns (inside: bool, i: nat, j: nat, m: nat)
    requires Closed(S, lo, hi) && Gains(S, T, lo, hi, x, extra) && lo <= p < hi
    requires Run(T, p, w, q, k)
    ensures inside ==> lo <= q < hi && Path(S, p, w, q)
    ensures !inside ==>
            i <= |w| && j < |extra| && m < k && Path(S, p, w[..i], x) && Run(T, extra[j].target, w[i..], q, m)
    decreases k
  {
    inside, i, j, m := true, 0, 0, 0;
    if k == 0 {
      PathNil(S, p);
    } else {
      var c := FirstEdge(T, p, w, q, k);
      var e := T[p].out[c];
      if c < |S[p].out| {
        assert S[p].out[c] == e;
        var v := After(e, w);
        inside, i, j, m := Exit(S, T, lo, hi, x, extra, e.target, v, q, k - 1);
        if inside {
          PathEdge(S, p, c, w, q);
        } else {
          var d := if e.on == {} then 0 else 1;
          assert v[i..] == w[i + d..] && v[..i] == After(e, w[..i + d]);
          i := i + d;
          PathEdge(S, p, c, w[..i], x);
        }
      } else {
        assert p == x && e == extra[c - |S[p].out|];
        inside, i, j, m := false, 0, c - |S[p].out|, k - 1;
        PathNil(S, p);
        assert w[..0] == [] && w[0..] == w;
      }
    }
  }

  lemma {:induction false} RunLift(S: Graph, T: Graph, lo: nat, hi: nat, x: nat, extra: seq<Edge>, p: nat, w: Word,
      q: nat, k: nat)
    requires Closed(S, lo, hi) && Gains(S, T, lo, hi, x, extra) && lo <= p < hi
    requires Run(S, p, w, q, k)
    ensures Path(T, p, w, q)
    decreases k
  {
    if k == 0 {
      PathNil(T, p);
    } else {
      var c := FirstEdge(S, p, w, q, k);
      var e := S[p].out[c];
      assert T[p].out[c] == e;
      RunLift(S, T, lo, hi, x, extra, e.target, After(e, w), q, k - 1);
      PathEdge(T, p, c, w, q);
    }
  }

  lemma PathLift(S: Graph, T: Graph, lo: nat, hi: nat, x: nat, extra: seq<Edge>, p: nat, w: Word, q: nat)
    requires Closed(S, lo, hi) && Gains(S, T, lo, hi, x, extra) && lo <= p < hi
    requires Path(S, p, w, q)
    ensures Path(T, p, w, q)
  {
    var k: nat :| Run(S, p, w, q, k);
    RunLift(S, T, lo, hi, x, extra, p, w, q, k);
  }

  ghost predicate SameEdges(S: Graph, T: Graph, lo: nat, hi: nat) {
    hi <= |S| && hi <= |T| && forall p :: lo <= p < hi ==> T[p].out == S[p].out
  }

  /** Paths that start in a closed region see nothing outside it. */
  lemma PathLocal(S: Graph, T: Graph, lo: nat, hi: nat, p: nat, w: Word, q: nat)
    requires Closed(S, lo, hi) && SameEdges(S, T, lo, hi) && lo <= p < hi
    ensures Path(S, p, w, q) <==> Path(T, p, w, q)
    ensures Path(S, p, w, q) ==> lo <= q < hi
  {
    assert T[p].out == S[p].out + [];
    if Path(S, p, w, q) {
      PathLift(S, T, lo, hi, p, [], p, w, q);
      var k: nat :| Run(S, p, w, q, k);
      assert S[p].out == S[p].out + [];
      var inside, i, j, m := Exit(S, S, lo, hi, p, [], p, w, q, k);
    }
    if Path(T, p, w, q) {
      var k: nat :| Run(T, p, w, q, k);
      var inside, i, j, m := Exit(S, T, lo, hi, p, [], p, w, q, k);
    }
  }

  lemma PathStuck(S: Graph, p: nat, w: Word, q: nat)
    requires p < |S| && S[p].out == [] && Path(S, p, w, q)
    ensures w == [] && q == p
  {
    var k: nat :| Run(S, p, w, q, k);
    if k > 0 {
      var i := FirstEdge(S, p, w, q, k);
      assert false;
    }
  }
}
