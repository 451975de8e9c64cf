// Fragments of an NFA and how the constructions of src/nfa.cpp combine the
// languages read along them.

module Fragments {
  import opened Bytes
  import opened Languages
  import opened NfaGraph
  import opened Regex

  datatype Frag = Frag(s: nat, e: nat)

  ghost function PathWords(S: Graph, p: nat, q: nat): Language {
    iset w: Word | Path(S, p, w, q)
  }

  ghost predicate ReadsMark(S: Graph, lo: nat, hi: nat, p: nat, w: Word)
    requires hi <= |S|
  {
    exists q: nat :: lo <= q < hi && S[q].boundary && Path(S, p, w, q)
  }

  ghost function MarkWords(S: Graph, lo: nat, hi: nat, p: nat): Language
    requires hi <= |S|
  {
    iset w: Word | ReadsMark(S, lo, hi, p, w)
  }

  /** The states lo..hi form a closed fragment f that reads A from f.s to f.e and reaches an r/s marker on M. */
  ghost predicate Reads(S: Graph, lo: nat, hi: nat, f: Frag, A: Language, M: Language) {
    && Closed(S, lo, hi)
    && lo <= f.s < hi && lo <= f.e < hi
    && PathWords(S, f.s, f.e) == A
    && MarkWords(S, lo, hi, f.s) == M
  }

  // A fragment under construction: nothing in it accepts yet.
  ghost predicate IsFrag(S: Graph, lo: nat, hi: nat, f: Frag, A: Language, M: Language) {
    && Reads(S, lo, hi, f, A, M)
    && (forall p :: lo <= p < hi ==> S[p].accept == -1)
  }

  ghost predicate SameMarkers(S: Graph, T: Graph, lo: nat, hi: nat) {
    && hi <= |S| && hi <= |T|
    && forall p :: lo <= p < hi ==> T[p].boundary == S[p].boundary
  }

  /** A fragment is what it is, wherever it sits. */
  lemma ReadsLocal(S: Graph, T: Graph, lo: nat, hi: nat, f: Frag, A: Language, M: Language)
    requires Reads(S, lo, hi, f, A, M) && SameEdges(S, T, lo, hi) && SameMarkers(S, T, lo, hi)
    ensures Reads(T, lo, hi, f, A, M)
  {
    forall w, q ensures Path(S, f.s, w, q) <==> Path(T, f.s, w, q) {
      PathLocal(S, T, lo, hi, f.s, w, q);
    }
    assert PathWords(T, f.s, f.e) == A;
    forall w: Word ensures ReadsMark(S, lo, hi, f.s, w) <==> ReadsMark(T, lo, hi, f.s, w) {
    }
    assert MarkWords(T, lo, hi, f.s) == M;
  }

  // ---------- following a new edge ---------------------------------------

  // A state whose only edges are epsilon edges reads, to any other state, what its targets read.
  lemma Fork(T: Graph, p: nat, w: Word, q: nat)
    requires p < |T| && p != q && forall j :: 0 <= j < |T[p].out| ==> T[p].out[j].on == {}
    ensures Path(T, p, w, q) <==> exists j :: 0 <= j < |T[p].out| && Path(T, T[p].out[j].target, w, q)
  {
    if Path(T, p, w, q) {
      var k: nat :| Run(T, p, w, q, k);
      var j := FirstEdge(T, p, w, q, k);
      assert Path(T, T[p].out[j].target, w, q);
    }
    if exists j :: 0 <= j < |T[p].out| && Path(T, T[p].out[j].target, w, q) {
      var j :| 0 <= j < |T[p].out| && Path(T, T[p].out[j].target, w, q);
      PathEdge(T, p, j, w, q);
    }
  }

  // Inside its region, a state x that gains a way out to b reads to b's region through x only.
  lemma ThroughExit(S: Graph, T: Graph, lo: nat, hi: nat, x: nat, b: nat, lo': nat, hi': nat, p: nat, q: nat)
    requires Closed(S, lo, hi) && Gains(S, T, lo, hi, x, [Eps(b)]) && lo <= p < hi
    requires Closed(S, lo', hi') && SameEdges(S, T, lo', hi') && lo' <= b < hi'
    requires hi <= lo' || hi' <= lo
    ensures lo <= q < hi ==> PathWords(T, p, q) == PathWords(S, p, q)
    ensures lo' <= q < hi' ==> PathWords(T, p, q) == Cat(PathWords(S, p, x), PathWords(S, b, q))
    ensures PathWords(T, p, q) != NOTHING ==> lo <= q < hi || lo' <= q < hi'
  {
    forall w | Path(T, p, w, q) ensures lo <= q < hi || lo' <= q < hi' {
      var k: nat :| Run(T, p, w, q, k);
      var inside, i, j, m := Exit(S, T, lo, hi, x, [Eps(b)], p, w, q, k);
      if !inside { PathLocal(S, T, lo', hi', b, w[i..], q); }
    }
    forall w: Word ensures lo <= q < hi ==> (Path(T, p, w, q) <==> Path(S, p, w, q)) {
      if Path(S, p, w, q) { PathLift(S, T, lo, hi, x, [Eps(b)], p, w, q); }
      if Path(T, p, w, q) && lo <= q < hi {
        var k: nat :| Run(T, p, w, q, k);
        var inside, i, j, m := Exit(S, T, lo, hi, x, [Eps(b)], p, w, q, k);
        if !inside { PathLocal(S, T, lo', hi', b, w[i..], q); }
      }
    }
    var A, B := PathWords(S, p, x), PathWords(S, b, q);
    forall w: Word ensures lo' <= q < hi' ==> (w in PathWords(T, p, q) <==> w in Cat(A, B)) {
      if Path(T, p, w, q) && lo' <= q < hi' {
        var k: nat :| Run(T, p, w, q, k);
        var inside, i, j, m := Exit(S, T, lo, hi, x, [Eps(b)], p, w, q, k);
        PathLocal(S, T, lo', hi', b, w[i..], q);
        CatIntro(w[..i], w[i..], A, B);
        assert w[..i] + w[i..] == w;
      }
      if w in Cat(A, B) {
        var u, v := CatElim(w, A, B);
        PathLift(S, T, lo, hi, x, [Eps(b)], p, u, x);
        PathLocal(S, T, lo', hi', b, v, q);
        assert T[x].out[|S[x].out|] == Eps(b);
        PathEdge(T, x, |S[x].out|, v, q);
        PathAppend(T, p, u, x, v, q);
      }
    }
  }

  // ---------- concatenation ----------------------------------------------

  /** Joining a.e to b.s by an epsilon edge concatenates. */
  lemma JoinFrags(S: Graph, T: Graph, lo: nat, m: nat, hi: nat, a: Frag, b: Frag, A: Language, MA: Language,
      B: Language, MB: Language)
    requires IsFrag(S, lo, m, a, A, MA) && IsFrag(S, m, hi, b, B, MB)
    requires |T| == |S| && T == S[a.e := S[a.e].(out := S[a.e].out + [Eps(b.s)])]
    ensures IsFrag(T, lo, hi, Frag(a.s, b.e), Cat(A, B), MA + Cat(A, MB))
  {
    forall q ensures lo <= q < m ==> PathWords(T, a.s, q) == PathWords(S, a.s, q)
             ensures m <= q < hi ==> PathWords(T, a.s, q) == Cat(A, PathWords(S, b.s, q)) {
      if q >= 0 { ThroughExit(S, T, lo, m, a.e, b.s, m, hi, a.s, q); }
    }
    var M := MarkWords(T, lo, hi, a.s);
    forall w: Word ensures w in M <==> w in MA + Cat(A, MB) {
      if w in M {
        var q: nat :| lo <= q < hi && T[q].boundary && Path(T, a.s, w, q);
        assert w in PathWords(T, a.s, q);
        if q >= m {
          var u, v := CatElim(w, A, PathWords(S, b.s, q));
          assert ReadsMark(S, m, hi, b.s, v);
          CatIntro(u, v, A, MB);
        } else {
          assert ReadsMark(S, lo, m, a.s, w);
        }
      }
      if w in MA {
        var q: nat :| lo <= q < m && S[q].boundary && Path(S, a.s, w, q);
        assert w in PathWords(T, a.s, q);
        assert ReadsMark(T, lo, hi, a.s, w);
      }
      if w in Cat(A, MB) {
        var u, v := CatElim(w, A, MB);
        var q: nat :| m <= q < hi && S[q].boundary && Path(S, b.s, v, q);
        CatIntro(u, v, A, PathWords(S, b.s, q));
        assert w in PathWords(T, a.s, q);
        assert ReadsMark(T, lo, hi, a.s, w);
      }
    }
  }

  // ---------- leaves -----------------------------------------------------

  /** Two fresh states joined by one edge read the edge's class, or nothing at all if it is an epsilon edge. */
  lemma LeafFrag(T: Graph, s: nat, on: set<byte>, marked: bool)
    requires s + 2 == |T| && T[s] == State([Edge(s + 1, on)], -1, false) && T[s + 1] == State([], -1, marked)
    requires marked ==> on == {}
    ensures IsFrag(T, s, |T|, Frag(s, s + 1), if on == {} then EPSILON else ClassWords(on), if marked then EPSILON
            else NOTHING)
  {
    var e := s + 1;
    forall w: Word ensures Path(T, s, w, e) <==> w in if on == {} then EPSILON else ClassWords(on) {
      if Path(T, s, w, e) {
        var k: nat :| Run(T, s, w, e, k);
        assert k > 0;
        var i := FirstEdge(T, s, w, e, k);
        assert Path(T, e, After(T[s].out[0], w), e);
        PathStuck(T, e, After(T[s].out[0], w), e);
      }
      if w in if on == {} then EPSILON else ClassWords(on) {
        PathNil(T, e);
        assert After(T[s].out[0], w) == [];
        PathEdge(T, s, 0, w, e);
      }
    }
    assert PathWords(T, s, e) == if on == {} then EPSILON else ClassWords(on);
    forall w: Word ensures ReadsMark(T, s, |T|, s, w) <==> marked && w == [] {
      if marked && w == [] { assert Path(T, s, w, e); }
      if ReadsMark(T, s, |T|, s, w) { assert Path(T, s, w, e); }
    }
    assert MarkWords(T, s, |T|, s) == if marked then EPSILON else NOTHING;
  }

  // ---------- alternation ------------------------------------------------

  lemma AltBody(S: Graph, T: Graph, lo: nat, m: nat, s: nat, a: Frag, b: Frag, A: Language, MA: Language, B: Language,
      MB: Language)
    requires IsFrag(S, lo, m, a, A, MA) && IsFrag(S, m, s, b, B, MB)
    requires |S| == s + 2 && S[s] == S[s + 1] == State([], -1, false)
    requires T == S[s := State([Eps(a.s), Eps(b.s)], -1, false)]
                   [a.e := S[a.e].(out := S[a.e].out + [Eps(s + 1)])]
                   [b.e := S[b.e].(out := S[b.e].out + [Eps(s + 1)])]
    ensures forall q: nat :: PathWords(T, a.s, q) == if lo <= q < m then PathWords(S, a.s, q) else if q == s + 1
            then A else NOTHING
    ensures forall q: nat :: PathWords(T, b.s, q) == if m <= q < s then PathWords(S, b.s, q) else if q == s + 1 then B
            else NOTHING
    ensures forall q: nat, w: Word :: q != s ==> (Path(T, s, w, q) <==> Path(T, a.s, w, q) || Path(T, b.s, w, q))
  {
    var e, hi := s + 1, s + 2;
    forall w: Word ensures Path(S, e, w, e) <==> w == [] {
      if Path(S, e, w, e) { PathStuck(S, e, w, e); }
      PathNil(S, e);
    }
    assert PathWords(S, e, e) == EPSILON;
    forall q: nat, w: Word | q != s
      ensures Path(T, s, w, q) <==> Path(T, a.s, w, q) || Path(T, b.s, w, q)
    {
      Fork(T, s, w, q);
      if Path(T, a.s, w, q) { assert Path(T, T[s].out[0].target, w, q); }
      if Path(T, b.s, w, q) { assert Path(T, T[s].out[1].target, w, q); }
    }
    forall q: nat
      ensures PathWords(T, a.s, q) == if lo <= q < m then PathWords(S, a.s, q) else if q == e then A else NOTHING
      ensures PathWords(T, b.s, q) == if m <= q < s then PathWords(S, b.s, q) else if q == e then B else NOTHING
    {
      ThroughExit(S, T, lo, m, a.e, e, e, hi, a.s, q);
      ThroughExit(S, T, m, s, b.e, e, e, hi, b.s, q);
      CatEpsilon(A);
      CatEpsilon(B);
    }
  }

  /** A fresh entry forking to two fragments, both leading to a fresh exit. */
  lemma AltFrags(S: Graph, T: Graph, lo: nat, m: nat, s: nat, a: Frag, b: Frag, A: Language, MA: Language,
      B: Language, MB: Language)
    requires IsFrag(S, lo, m, a, A, MA) && IsFrag(S, m, s, b, B, MB)
    requires |S| == s + 2 && S[s] == S[s + 1] == State([], -1, false)
    requires T == S[s := State([Eps(a.s), Eps(b.s)], -1, false)]
                   [a.e := S[a.e].(out := S[a.e].out + [Eps(s + 1)])]
                   [b.e := S[b.e].(out := S[b.e].out + [Eps(s + 1)])]
    ensures IsFrag(T, lo, s + 2, Frag(s, s + 1), A + B, MA + MB)
  {
    var e, hi := s + 1, s + 2;
    AltBody(S, T, lo, m, s, a, b, A, MA, B, MB);
    forall w: Word ensures Path(T, s, w, e) <==> w in A + B {
      assert w in PathWords(T, a.s, e) <==> w in A;
      assert w in PathWords(T, b.s, e) <==> w in B;
    }
    assert PathWords(T, s, e) == A + B;
    forall w: Word ensures ReadsMark(T, lo, hi, s, w) <==> w in MA + MB {
      if ReadsMark(T, lo, hi, s, w) {
        var q: nat :| lo <= q < hi && T[q].boundary && Path(T, s, w, q);
        assert w in PathWords(T, a.s, q) || w in PathWords(T, b.s, q);
        assert ReadsMark(S, lo, m, a.s, w) || ReadsMark(S, m, s, b.s, w);
      }
      if w in MA {
        var q: nat :| lo <= q < m && S[q].boundary && Path(S, a.s, w, q);
        assert w in PathWords(T, a.s, q);
        assert Path(T, s, w, q);
      }
      if w in MB {
        var q: nat :| m <= q < s && S[q].boundary && Path(S, b.s, w, q);
        assert w in PathWords(T, b.s, q);
        assert Path(T, s, w, q);
      }
    }
    assert MarkWords(T, lo, hi, s) == MA + MB;
  }

  // ---------- repetition -------------------------------------------------

  // A region whose exit x loops back to its entry a and leaves to a dead end e.
  ghost predicate Loops(S: Graph, T: Graph, lo: nat, hi: nat, a: nat, x: nat, e: nat) {
    && Closed(S, lo, hi) && lo <= a < hi && Gains(S, T, lo, hi, x, [Eps(a), Eps(e)])
    && hi <= e < |T| && T[e].out == []
  }

  lemma Rejoin(w: Word, i: nat, u: Word, v: Word)
    requires i <= |w| && w[i..] == u + v
    ensures w == (w[..i] + u) + v
  {
    assert w == w[..i] + w[i..];
  }

  lemma WholeWord(w: Word, i: nat)
    requires i == |w|
    ensures w[..i] == w && w == w + []
  {
  }

  // One turn of the loop: stay inside, go round after a word of the body, or leave.
  lemma LoopTurn(S: Graph, T: Graph, lo: nat, hi: nat, a: nat, x: nat, e: nat, w: Word, q: nat, k: nat)
    returns (inside: bool, i: nat, m: nat)
    requires Loops(S, T, lo, hi, a, x, e) && Run(T, a, w, q, k)
    ensures if inside then lo <= q < hi && Path(S, a, w, q)
            else i <= |w| && w[..i] in PathWords(S, a, x) &&
                 ((m < k && Run(T, a, w[i..], q, m)) || (q == e && i == |w|))
  {
    var j;
    inside, i, j, m := Exit(S, T, lo, hi, x, [Eps(a), Eps(e)], a, w, q, k);
    if !inside && j == 1 {
      assert Path(T, e, w[i..], q);
      PathStuck(T, e, w[i..], q);
    }
  }

  lemma {:induction false} LoopRun(S: Graph, T: Graph, lo: nat, hi: nat, a: nat, x: nat, e: nat, w: Word, q: nat,
      k: nat)
    returns (n: nat, u: Word, v: Word)
    requires Loops(S, T, lo, hi, a, x, e) && Run(T, a, w, q, k)
    ensures w == u + v && u in Pow(PathWords(S, a, x), n)
    ensures if q == e then n >= 1 && v == [] else lo <= q < hi && Path(S, a, v, q)
    decreases k
  {
    var inside, i, m := LoopTurn(S, T, lo, hi, a, x, e, w, q, k);
    if inside {
      n, u, v := 0, [], w;
    } else if q == e && i == |w| {
      WholeWord(w, i);
      PowSingle(PathWords(S, a, x), w);
      n, u, v := 1, w, [];
    } else {
      var n', u', v' := LoopRun(S, T, lo, hi, a, x, e, w[i..], q, m);
      PowCons(PathWords(S, a, x), w[..i], u', n');
      Rejoin(w, i, u', v');
      n, u, v := n' + 1, w[..i] + u', v';
    }
  }

  lemma {:induction false} LoopBuild(S: Graph, T: Graph, lo: nat, hi: nat, a: nat, x: nat, e: nat, u: Word, n: nat)
    requires Loops(S, T, lo, hi, a, x, e) && u in Pow(PathWords(S, a, x), n)
    ensures Path(T, a, u, a)
    decreases n
  {
    if n == 0 {
      PathNil(T, a);
    } else {
      var u', v := CatElim(u, PathWords(S, a, x), Pow(PathWords(S, a, x), n - 1));
      LoopBuild(S, T, lo, hi, a, x, e, v, n - 1);
      PathLift(S, T, lo, hi, x, [Eps(a), Eps(e)], a, u', x);
      assert T[x].out[|S[x].out|] == Eps(a);
      PathEdge(T, x, |S[x].out|, v, a);
      PathAppend(T, a, u', x, v, a);
    }
  }

  lemma LoopWords(S: Graph, T: Graph, lo: nat, hi: nat, a: nat, x: nat, e: nat, q: nat)
    requires Loops(S, T, lo, hi, a, x, e)
    ensures lo <= q < hi ==> PathWords(T, a, q) == Cat(AtLeast(PathWords(S, a, x), 0), PathWords(S, a, q))
    ensures q == e ==> PathWords(T, a, q) == AtLeast(PathWords(S, a, x), 1)
    ensures PathWords(T, a, q) != NOTHING ==> lo <= q < hi || q == e
  {
    var A := PathWords(S, a, x);
    forall w | Path(T, a, w, q)
      ensures q == e ==> w in AtLeast(A, 1)
      ensures q != e ==> lo <= q < hi && w in Cat(AtLeast(A, 0), PathWords(S, a, q))
    {
      var k: nat :| Run(T, a, w, q, k);
      var n, u, v := LoopRun(S, T, lo, hi, a, x, e, w, q, k);
      if q == e {
        assert u == w;
        assert InAtLeast(w, A, 1);
      } else {
        assert InAtLeast(u, A, 0);
        CatIntro(u, v, AtLeast(A, 0), PathWords(S, a, q));
      }
    }
    forall w | lo <= q < hi && w in Cat(AtLeast(A, 0), PathWords(S, a, q)) ensures Path(T, a, w, q) {
      var u, v := CatElim(w, AtLeast(A, 0), PathWords(S, a, q));
      var n: nat :| 0 <= n && u in Pow(A, n);
      LoopBuild(S, T, lo, hi, a, x, e, u, n);
      PathLift(S, T, lo, hi, x, [Eps(a), Eps(e)], a, v, q);
      PathAppend(T, a, u, a, v, q);
    }
    forall w | q == e && w in AtLeast(A, 1) ensures Path(T, a, w, q) {
      var n: nat :| 1 <= n && w in Pow(A, n);
      PowSnoc(A, n - 1);
      var u, v := CatElim(w, Pow(A, n - 1), A);
      LoopBuild(S, T, lo, hi, a, x, e, u, n - 1);
      PathLift(S, T, lo, hi, x, [Eps(a), Eps(e)], a, v, x);
      assert T[x].out[|S[x].out| + 1] == Eps(e);
      PathNil(T, e);
      PathEdge(T, x, |S[x].out| + 1, [], e);
      PathAppend(T, a, v, x, [], e);
      assert v + [] == v;
      PathAppend(T, a, u, a, v, e);
    }
  }

  // What a fragment reads once it may be skipped, or repeated, or both.
  ghost function Wrapped(A: Language, skip: bool, back: bool): Language {
    if back then AtLeast(A, if skip then 0 else 1)
    else if skip then A + EPSILON
    else A
  }

  ghost function WrappedMarks(A: Language, M: Language, back: bool): Language {
    if back then Cat(AtLeast(A, 0), M) else M
  }

  lemma WrappedWord(A: Language, skip: bool, back: bool, w: Word)
    ensures w in Wrapped(A, skip, back) <==> w in (if back then AtLeast(A, 1) else A) || (skip && w == [])
  {
    if back && skip {
      if w == [] { assert w in Pow(A, 0); }
      if w in AtLeast(A, 0) {
        var k: nat :| 0 <= k && w in Pow(A, k);
        if k >= 1 { assert InAtLeast(w, A, 1); }
      }
      if w in AtLeast(A, 1) { assert InAtLeast(w, A, 0); }
    }
  }

  /** A fragment between a fresh entry and a fresh exit, optionally skippable, optionally looping. */
  lemma WrapFrag(S: Graph, T: Graph, lo: nat, s: nat, a: Frag, A: Language, M: Language, skip: bool, back: bool)
    requires IsFrag(S, lo, s, a, A, M)
    requires |S| == s + 2 && S[s] == S[s + 1] == State([], -1, false)
    requires T == S[s := State([Eps(a.s)] + (if skip then [Eps(s + 1)] else []), -1, false)]
                   [a.e := S[a.e].(out := S[a.e].out + ((if back then [Eps(a.s)] else []) + [Eps(s + 1)]))]
    ensures IsFrag(T, lo, s + 2, Frag(s, s + 1), Wrapped(A, skip, back), WrappedMarks(A, M, back))
  {
    var e, hi := s + 1, s + 2;
    var R := if back then AtLeast(A, 0) else EPSILON;
    WrapBody(S, T, lo, s, a, A, M, skip, back);
    forall q: nat, w: Word | q != s
      ensures Path(T, s, w, q) <==> Path(T, a.s, w, q) || (skip && q == e && w == [])
    {
      WrapEntry(T, s, a.s, skip, w, q);
    }
    forall w: Word ensures Path(T, s, w, e) <==> w in Wrapped(A, skip, back) {
      WrappedWord(A, skip, back, w);
      assert w in PathWords(T, a.s, e) <==> w in if back then AtLeast(A, 1) else A;
    }
    assert PathWords(T, s, e) == Wrapped(A, skip, back);
    forall w: Word ensures ReadsMark(T, lo, hi, s, w) <==> w in Cat(R, M) {
      if ReadsMark(T, lo, hi, s, w) {
        var q: nat :| lo <= q < hi && T[q].boundary && Path(T, s, w, q);
        assert w in PathWords(T, a.s, q);
        var u, v := CatElim(w, R, PathWords(S, a.s, q));
        assert ReadsMark(S, lo, s, a.s, v);
        CatIntro(u, v, R, M);
      }
      if w in Cat(R, M) {
        var u, v := CatElim(w, R, M);
        var q: nat :| lo <= q < s && S[q].boundary && Path(S, a.s, v, q);
        CatIntro(u, v, R, PathWords(S, a.s, q));
        assert w in PathWords(T, a.s, q);
        assert Path(T, s, w, q);
      }
    }
    assert MarkWords(T, lo, hi, s) == Cat(R, M);
    CatEpsilon(M);
  }

  // The fresh entry s leads to t, and past the fragment to the dead end s+1 if it may be skipped.
  lemma WrapEntry(T: Graph, s: nat, t: nat, skip: bool, w: Word, q: nat)
    requires s + 1 < |T| && q != s && T[s + 1].out == []
    requires T[s].out == [Eps(t)] + if skip then [Eps(s + 1)] else []
    ensures Path(T, s, w, q) <==> Path(T, t, w, q) || (skip && q == s + 1 && w == [])
  {
    var e := s + 1;
    Fork(T, s, w, q);
    if Path(T, t, w, q) { assert Path(T, T[s].out[0].target, w, q); }
    PathNil(T, e);
    if skip { assert T[s].out[1].target == e; }
    if Path(T, e, w, q) { PathStuck(T, e, w, q); }
  }

  lemma WrapBody(S: Graph, T: Graph, lo: nat, s: nat, a: Frag, A: Language, M: Language, skip: bool, back: bool)
    requires IsFrag(S, lo, s, a, A, M)
    requires |S| == s + 2 && S[s] == S[s + 1] == State([], -1, false)
    requires T == S[s := State([Eps(a.s)] + (if skip then [Eps(s + 1)] else []), -1, false)]
                   [a.e := S[a.e].(out := S[a.e].out + ((if back then [Eps(a.s)] else []) + [Eps(s + 1)]))]
    ensures PathWords(T, a.s, s + 1) == if back then AtLeast(A, 1) else A
    ensures forall q :: lo <= q < s ==>
            PathWords(T, a.s, q) == Cat(if back then AtLeast(A, 0) else EPSILON, PathWords(S, a.s, q))
    ensures PathWords(T, a.s, s) == NOTHING
  {
    var e := s + 1;
    forall q: nat
      ensures lo <= q < s ==> PathWords(T, a.s, q) == Cat(if back then AtLeast(A, 0) else EPSILON, PathWords(S, a.s, q))
      ensures q == e ==> PathWords(T, a.s, q) == if back then AtLeast(A, 1) else A
      ensures q == s ==> PathWords(T, a.s, q) == NOTHING
    {
      if back {
        LoopWords(S, T, lo, s, a.s, a.e, e, q);
      } else {
        ThroughExit(S, T, lo, s, a.e, e, e, e + 1, a.s, q);
        CatEpsilon(PathWords(S, a.s, q));
        CatEpsilon(A);
        forall w: Word ensures Path(S, e, w, e) <==> w == [] {
          if Path(S, e, w, e) { PathStuck(S, e, w, e); }
          PathNil(S, e);
        }
        assert PathWords(S, e, e) == EPSILON;
      }
    }
  }
}
