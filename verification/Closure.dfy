// Sets of NFA states as sorted vectors, and the moves of the subset
// construction on them (src/dfa.cpp: eps_closure, step).

module SortedSets {
  predicate Sorted(s: seq<nat>) {
    forall i, j :: 0 <= i < j < |s| ==> s[i] < s[j]
  }

  function Insert(s: seq<nat>, x: nat): (r: seq<nat>)
    requires Sorted(s)
    ensures Sorted(r) && forall y :: y in r <==> y in s || y == x
  {
    if s == [] then [x]
    else if x < s[0] then [x] + s
    else if x == s[0] then s
    else
      var t := Insert(s[1..], x);
      assert forall y :: y in t ==> s[0] < y;
      assert forall j :: 0 <= j < |t| ==> t[j] in t;
      assert forall y :: y in s <==> y == s[0] || y in s[1..];
      [s[0]] + t
  }

  // std::sort followed by erasing std::unique's tail.
  function SortUnique(s: seq<nat>): (r: seq<nat>)
    ensures Sorted(r) && forall x :: x in r <==> x in s
  {
    if s == [] then []
    else
      assert s == s[..|s| - 1] + [s[|s| - 1]];
      Insert(SortUnique(s[..|s| - 1]), s[|s| - 1])
  }

  /** Equal sets have equal sorted vectors, so the vector can serve as a key. */
  lemma {:induction false} SortedUnique(a: seq<nat>, b: seq<nat>)
    requires Sorted(a) && Sorted(b) && forall x :: x in a <==> x in b
    ensures a == b
    decreases |a|
  {
    assert b != [] ==> b[0] in a;
    if a != [] {
      assert a[0] in b;
      assert a[0] == b[0];
      assert a == [a[0]] + a[1..] && b == [b[0]] + b[1..];
      forall x ensures x in a[1..] <==> x in b[1..] {
        if x in a[1..] { assert x in b && x != a[0]; }
        if x in b[1..] { assert x in a && x != b[0]; }
      }
      SortedUnique(a[1..], b[1..]);
    }
  }
}

module Closure {
  import opened Bytes
  import opened NfaGraph
  import opened SortedSets

  ghost predicate Targeted(S: Graph) {
    forall p, i :: 0 <= p < |S| && 0 <= i < |S[p].out| ==> S[p].out[i].target < |S|
  }

  ghost predicate InRange(S: Graph, s: seq<nat>) {
    forall p :: p in s ==> p < |S|
  }

  // ---------- epsilon closure --------------------------------------------

  ghost predicate EpsReaches(S: Graph, from: seq<nat>, q: nat) {
    exists p: nat :: p in from && Path(S, p, [], q)
  }

  // t is the sorted vector of exactly the states that from reaches by epsilon edges.
  ghost predicate IsClosure(S: Graph, from: seq<nat>, t: seq<nat>) {
    Sorted(t) && InRange(S, t) && forall q: nat {:trigger EpsReaches(S, from, q)} :: q in t <==> EpsReaches(S, from, q)
  }

  /** Closing a closed set changes nothing, and start lists with the same closure get the same vector. */
  lemma ClosureIdempotent(S: Graph, from: seq<nat>, t: seq<nat>, u: seq<nat>)
    requires IsClosure(S, from, t) && IsClosure(S, t, u)
    ensures t == u
  {
    var nil: Word := [];
    assert nil + nil == nil;
    forall q: nat ensures q in t <==> q in u {
      assert q in u <==> EpsReaches(S, t, q);
      assert q in t <==> EpsReaches(S, from, q);
      if q in t { PathNil(S, q); }
      if q in u {
        var p: nat :| p in t && Path(S, p, [], q);
        assert EpsReaches(S, from, p);
        var x: nat :| x in from && Path(S, x, [], p);
        PathAppend(S, x, [], p, [], q);
      }
    }
    SortedUnique(t, u);
  }

  // The epsilon edges of p before edge i lead into s.
  ghost predicate EpsInside(S: Graph, p: nat, i: nat, s: seq<nat>)
    requires p < |S|
  {
    forall j :: 0 <= j < |S[p].out| && j < i && S[p].out[j].on == {} ==> S[p].out[j].target in s
  }

  lemma {:induction false} EpsStays(S: Graph, s: seq<nat>, p: nat, q: nat, k: nat)
    requires p in s && Run(S, p, [], q, k) && InRange(S, s)
    requires forall x: nat :: x in s ==> EpsInside(S, x, |S[x].out|, s)
    ensures q in s
    decreases k
  {
    if k > 0 {
      var i := FirstEdge(S, p, [], q, k);
      EpsStays(S, s, S[p].out[i].target, q, k - 1);
    }
  }

  lemma EpsStep(S: Graph, from: seq<nat>, p: nat, i: nat)
    requires EpsReaches(S, from, p) && p < |S| && i < |S[p].out| && S[p].out[i].on == {}
    ensures EpsReaches(S, from, S[p].out[i].target)
  {
    var x: nat :| x in from && Path(S, x, [], p);
    PathNil(S, S[p].out[i].target);
    PathEdge(S, p, i, [], S[p].out[i].target);
    PathAppend(S, x, [], p, [], S[p].out[i].target);
    var nil: Word := [];
    assert nil + nil == nil;
  }

  ghost predicate SeenAre(S: Graph, seen: seq<bool>, all: seq<nat>) {
    |seen| == |S| && InRange(S, all) && forall p :: 0 <= p < |S| ==> (seen[p] <==> p in all)
  }

  // The states seen so far are reachable, and each is still on the work stack or has its epsilon edges followed.
  ghost predicate Explored(S: Graph, from: seq<nat>, all: seq<nat>, work: seq<nat>) {
    && InRange(S, all)
    && (forall p :: p in from ==> p in all)
    && (forall p :: p in work ==> p in all)
    && (forall p: nat :: p in all ==> EpsReaches(S, from, p))
    && (forall p: nat :: p in all ==> p in work || EpsInside(S, p, |S[p].out|, all))
  }

  // One turn of eps_closure's loop: push the unseen targets of s's epsilon edges.
  method Visit(S: Graph, s: nat, seen: array<bool>, all: seq<nat>) returns (found: seq<nat>)
    requires Targeted(S) && SeenAre(S, seen[..], all) && s in all
    modifies seen
    ensures SeenAre(S, seen[..], all + found)
    ensures EpsInside(S, s, |S[s].out|, all + found)
    ensures forall x :: x in found ==> x !in all && exists j :: 0 <= j < |S[s].out| && S[s].out[j] == Eps(x)
  {
    found := [];
    var j := 0;
    while j < |S[s].out|
      invariant j <= |S[s].out| && SeenAre(S, seen[..], all + found)
      invariant EpsInside(S, s, j, all + found)
      invariant forall x :: x in found ==> x !in all && exists i :: 0 <= i < |S[s].out| && S[s].out[i] == Eps(x)
    {
      var e := S[s].out[j];
      if e.on == {} && !seen[..][e.target] {
        seen[e.target] := true;
        assert all + (found + [e.target]) == (all + found) + [e.target];
        found := found + [e.target];
      }
      j := j + 1;
    }
  }

  lemma VisitExplores(S: Graph, from: seq<nat>, all: seq<nat>, work: seq<nat>, s: nat, found: seq<nat>)
    requires Targeted(S) && s < |S| && Explored(S, from, all, work + [s])
    requires EpsInside(S, s, |S[s].out|, all + found)
    requires forall x :: x in found ==> x !in all && exists j :: 0 <= j < |S[s].out| && S[s].out[j] == Eps(x)
    ensures Explored(S, from, all + found, work + found)
  {
    assert s in work + [s];
    forall x | x in found ensures x < |S| && EpsReaches(S, from, x) {
      var j :| 0 <= j < |S[s].out| && S[s].out[j] == Eps(x);
      EpsStep(S, from, s, j);
    }
  }

  lemma ExploredAll(S: Graph, from: seq<nat>, all: seq<nat>)
    requires Explored(S, from, all, [])
    ensures forall q: nat :: q in all <==> EpsReaches(S, from, q)
  {
    forall q: nat | EpsReaches(S, from, q) ensures q in all {
      var p: nat :| p in from && Path(S, p, [], q);
      var k: nat :| Run(S, p, [], q, k);
      EpsStays(S, all, p, q, k);
    }
  }

  lemma ExploredFrom(S: Graph, from: seq<nat>)
    requires InRange(S, from)
    ensures Explored(S, from, from, from)
  {
    forall p: nat | p in from ensures EpsReaches(S, from, p) { PathNil(S, p); }
  }

  ghost function Unseen(n: nat, all: seq<nat>): set<nat> {
    set p: nat | p < n && p !in all
  }

  lemma UnseenShrinks(n: nat, all: seq<nat>, found: seq<nat>)
    requires forall x :: x in found ==> x !in all && x < n
    ensures if found == [] then Unseen(n, all + found) == Unseen(n, all) else Unseen(n, all + found) < Unseen(n, all)
  {
    if found != [] {
      assert found[0] in found;
      assert found[0] in Unseen(n, all) && found[0] !in Unseen(n, all + found);
    }
  }

  method MarkAll(n: nat, from: seq<nat>) returns (seen: array<bool>)
    requires forall p :: p in from ==> p < n
    ensures fresh(seen) && seen.Length == n && forall p :: 0 <= p < n ==> (seen[p] <==> p in from)
  {
    seen := new bool[n](_ => false);
    var i := 0;
    while i < |from|
      invariant i <= |from| && forall p :: 0 <= p < n ==> (seen[p] <==> p in from[..i])
    {
      assert from[i] in from && from[..i + 1] == from[..i] + [from[i]];
      seen[from[i]] := true;
      i := i + 1;
    }
    assert from[..i] == from;
  }

  // Pop a state and visit it.
  method VisitTop(S: Graph, ghost from: seq<nat>, seen: array<bool>, all: seq<nat>, work: seq<nat>)
    returns (all': seq<nat>, work': seq<nat>)
    requires Targeted(S) && work != []
    requires SeenAre(S, seen[..], all) && Explored(S, from, all, work)
    modifies seen
    ensures SeenAre(S, seen[..], all') && Explored(S, from, all', work')
    ensures Unseen(|S|, all') < Unseen(|S|, all) || (Unseen(|S|, all') == Unseen(|S|, all) && |work'| < |work|)
  {
    var s := work[|work| - 1];
    var rest := work[..|work| - 1];
    assert work == rest + [s] && s in work;
    var found := Visit(S, s, seen, all);
    VisitExplores(S, from, all, rest, s, found);
    UnseenShrinks(|S|, all, found);
    all', work' := all + found, rest + found;
  }

  /** The least set of states that contains `from` and is closed under epsilon edges, as a sorted vector. */
  method EpsClosure(S: Graph, from: seq<nat>) returns (all: seq<nat>)
    requires Targeted(S) && InRange(S, from)
    ensures IsClosure(S, from, all)
  {
    var seen := MarkAll(|S|, from);
    var work := from;
    all := from;
    ExploredFrom(S, from);
    while work != []
      invariant SeenAre(S, seen[..], all) && Explored(S, from, all, work)
      decreases Unseen(|S|, all), |work|
    {
      all, work := VisitTop(S, from, seen, all, work);
    }
    ExploredAll(S, from, all);
    all := SortUnique(all);
  }

  // ---------- one step ---------------------------------------------------

  // Edge i of p reads byte b.
  predicate ReadsByte(S: Graph, p: nat, i: int, b: byte) {
    p < |S| && 0 <= i < |S[p].out| && b in S[p].out[i].on
  }

  // From s, reading b and then epsilons, the NFA can be at q.
  ghost predicate StepReaches(S: Graph, s: seq<nat>, b: byte, q: nat) {
    exists p: nat, i :: p in s && ReadsByte(S, p, i, b) && Path(S, S[p].out[i].target, [], q)
  }

  ghost predicate IsStep(S: Graph, s: seq<nat>, b: byte, t: seq<nat>) {
    Sorted(t) && InRange(S, t) && forall q: nat {:trigger StepReaches(S, s, b, q)} :: q in t <==>
      StepReaches(S, s, b, q)
  }

  method Step(S: Graph, s: seq<nat>, b: byte) returns (t: seq<nat>)
    requires Targeted(S) && InRange(S, s)
    ensures IsStep(S, s, b, t)
  {
    var out: seq<nat> := [];
    var k := 0;
    while k < |s|
      invariant k <= |s| && InRange(S, out)
      invariant forall x: nat :: x in out <==>
                exists p: nat, i :: p in s[..k] && ReadsByte(S, p, i, b) && S[p].out[i].target == x
    {
      var p := s[k];
      assert p in s;
      var j := 0;
      ghost var out0 := out;
      while j < |S[p].out|
        invariant j <= |S[p].out| && InRange(S, out)
        invariant forall x: nat :: x in out <==>
                  x in out0 || exists i :: i < j && ReadsByte(S, p, i, b) && S[p].out[i].target == x
      {
        if b in S[p].out[j].on { out := out + [S[p].out[j].target]; }
        j := j + 1;
      }
      assert s[..k + 1] == s[..k] + [p];
      k := k + 1;
    }
    assert s[..k] == s;
    t := EpsClosure(S, out);
    forall q: nat ensures EpsReaches(S, out, q) <==> StepReaches(S, s, b, q) {
      if EpsReaches(S, out, q) {
        var x: nat :| x in out && Path(S, x, [], q);
        var p: nat, i :| p in s && ReadsByte(S, p, i, b) && S[p].out[i].target == x;
      }
      if StepReaches(S, s, b, q) {
        var p: nat, i :| p in s && ReadsByte(S, p, i, b) && Path(S, S[p].out[i].target, [], q);
        assert S[p].out[i].target in out;
      }
    }
  }

  lemma StepUnique(S: Graph, s: seq<nat>, b: byte, t: seq<nat>, t': seq<nat>)
    requires IsStep(S, s, b, t) && IsStep(S, s, b, t')
    ensures t == t'
  {
    forall q: nat ensures q in t <==> q in t' {
      assert q in t <==> StepReaches(S, s, b, q);
    }
    SortedUnique(t, t');
  }

  // ---------- words ------------------------------------------------------

  /** t is exactly where the NFA can be after reading w from p. */
  ghost predicate IsReach(S: Graph, p: nat, w: Word, t: seq<nat>) {
    Sorted(t) && InRange(S, t) && forall q: nat {:trigger Path(S, p, w, q)} :: q in t <==> Path(S, p, w, q)
  }

  /** Equal sets give equal keys: two lists of the same reachable states are the same list, whatever start and word they
      were computed for. */
  lemma ReachUnique(S: Graph, p: nat, w: Word, t: seq<nat>, p': nat, w': Word, t': seq<nat>)
    requires IsReach(S, p, w, t) && IsReach(S, p', w', t') && forall q: nat :: Path(S, p, w, q) <==> Path(S, p', w', q)
    ensures t == t'
  {
    forall q: nat ensures q in t <==> q in t' {
      assert q in t <==> Path(S, p, w, q);
    }
    SortedUnique(t, t');
  }

  /** Closing a start state alone gives what it reaches on no input. */
  lemma ClosureIsReach(S: Graph, p: nat, t: seq<nat>)
    requires IsClosure(S, [p], t)
    ensures IsReach(S, p, [], t) && p in t
  {
    forall q: nat ensures q in t <==> Path(S, p, [], q) {
      assert q in t <==> EpsReaches(S, [p], q);
      assert p in [p];
    }
    PathNil(S, p);
  }

  // The last byte of a path, and the state and edge that read it.
  lemma {:induction false} LastByte(S: Graph, p: nat, w: Word, b: byte, q: nat, k: nat) returns (m: nat, i: nat)
    requires Run(S, p, w + [b], q, k)
    ensures Path(S, p, w, m) && ReadsByte(S, m, i, b) && Path(S, S[m].out[i].target, [], q)
    decreases k
  {
    var c := FirstEdge(S, p, w + [b], q, k);
    var e := S[p].out[c];
    if e.on != {} && w == [] {
      assert w + [b] == [b] && [b][1..] == [];
      m, i := p, c;
      PathNil(S, p);
    } else {
      var v := if e.on == {} then w else w[1..];
      assert After(e, w + [b]) == v + [b] && Enabled(e, w);
      m, i := LastByte(S, e.target, v, b, q, k - 1);
      PathEdge(S, p, c, w, m);
    }
  }

  /** Stepping the reachable set by b gives the set reachable on one more byte. */
  lemma ReachStep(S: Graph, p: nat, w: Word, s: seq<nat>, b: byte, t: seq<nat>)
    requires IsReach(S, p, w, s) && IsStep(S, s, b, t)
    ensures IsReach(S, p, w + [b], t)
  {
    forall q: nat ensures q in t <==> Path(S, p, w + [b], q) {
      assert q in t <==> StepReaches(S, s, b, q);
      if q in t {
        var m: nat, i :| m in s && ReadsByte(S, m, i, b) && Path(S, S[m].out[i].target, [], q);
        assert Path(S, p, w, m);
        assert After(S[m].out[i], [b]) == [];
        PathEdge(S, m, i, [b], q);
        PathAppend(S, p, w, m, [b], q);
      }
      if Path(S, p, w + [b], q) {
        var k: nat :| Run(S, p, w + [b], q, k);
        var m, i := LastByte(S, p, w, b, q, k);
      }
    }
  }
}
