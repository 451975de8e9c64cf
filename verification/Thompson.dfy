// The NFA builder of src/nfa.cpp: compile and its cases.

module Thompson {
  import opened Wrappers
  import opened Bytes
  import opened Languages
  import opened Regex
  import opened NfaGraph
  import opened Fragments
  import opened RuleNfa

  // compile_repeat's `head`: nothing yet, or the copies chained so far.
  ghost predicate IsHead(S: Graph, lo: nat, hi: nat, head: Option<Frag>, A: Language, M: Language) {
    match head
    case None => lo == hi && A == EPSILON && M == NOTHING
    case Some(f) => IsFrag(S, lo, hi, f, A, M)
  }

  // head chains lo to hi copies of what reads A and marks M, from state base to the last state.
  ghost predicate IsCopies(S: Graph, base: nat, head: Option<Frag>, A: Language, M: Language, lo: nat, hi: nat) {
    IsHead(S, base, |S|, head, Between(A, lo, hi), Within(A, M, hi))
  }

  lemma NoCopies(S: Graph, A: Language, M: Language)
    ensures IsCopies(S, |S|, None, A, M, 0, 0)
  {
    BetweenSelf(A, 0);
  }

  // What n is compiled to.
  ghost predicate CompiledTo(n: Node, A: Language, M: Language) {
    A == Meaning(Effective(n)) && M == Marks(Effective(n))
  }

  lemma HeadLocal(S: Graph, T: Graph, lo: nat, hi: nat, head: Option<Frag>, A: Language, M: Language)
    requires IsHead(S, lo, hi, head, A, M) && hi <= |S| && S <= T
    ensures IsHead(T, lo, hi, head, A, M)
  {
    if head.Some? { ReadsLocal(S, T, lo, hi, head.value, A, M); }
  }

  // What one more copy, optional copy or final star does to the words read and marked so far.
  lemma CopyStep(A: Language, M: Language, i: nat)
    ensures Cat(Between(A, i, i), A) == Between(A, i + 1, i + 1)
    ensures Within(A, M, i) + Cat(Between(A, i, i), M) == Within(A, M, i + 1)
  {
    PowSnoc(A, i);
    BetweenSelf(A, i);
    BetweenSelf(A, i + 1);
    WithinStep(A, M, i, i);
  }

  lemma OptionalStep(A: Language, M: Language, lo: nat, hi: nat)
    requires lo <= hi
    ensures Cat(Between(A, lo, hi), A + EPSILON) == Between(A, lo, hi + 1)
    ensures Within(A, M, hi) + Cat(Between(A, lo, hi), M) == Within(A, M, hi + 1)
  {
    BetweenSnoc(A, lo, hi);
    WithinStep(A, M, lo, hi);
  }

  lemma StarStep(A: Language, M: Language, lo: nat)
    ensures Cat(Between(A, lo, lo), AtLeast(A, 0)) == AtLeast(A, lo)
    ensures Within(A, M, lo) + Cat(Between(A, lo, lo), Cat(AtLeast(A, 0), M)) == Cat(AtLeast(A, 0), M)
  {
    BetweenSelf(A, lo);
    AtLeastSplit(A, lo);
    WithinLimit(A, M, lo);
  }

  class Builder {
    var states: Graph
    var condStarts: seq<CondStart>
    var condExcl: seq<bool>
    var ruleBol: seq<bool>
    var ruleEol: seq<bool>
    var ruleTrail: seq<int>
    var ruleBoundary: seq<seq<nat>>

    ghost var rules: seq<Rule>    // the rules added so far
    ghost var at: seq<Region>     // where each of them sits

    function Contents(): Nfa
      reads this
    {
      Nfa(states, condStarts, condExcl, ruleBol, ruleEol, ruleTrail, ruleBoundary)
    }

    ghost predicate Valid()
      reads this
    {
      Layout(Contents(), rules, at) && Disjoint(at)
    }

    /** init_nfa: a normal and a BOL start state per condition. */
    constructor (excl: seq<bool>)
      ensures Valid() && rules == [] && condExcl == excl
    {
      states, condStarts, condExcl := [], [], excl;
      ruleBol, ruleEol, ruleTrail, ruleBoundary := [], [], [], [];
      rules, at := [], [];
      new;
      var i := 0;
      while i < |excl|
        invariant i <= |excl| && |states| == 2 * i && |condStarts| == i && condExcl == excl
        invariant forall p :: 0 <= p < |states| ==> states[p] == State([], -1, false)
        invariant forall c :: 0 <= c < i ==> condStarts[c] == CondStart(2 * c, 2 * c + 1)
        invariant ruleBol == [] && ruleEol == [] && ruleTrail == [] && ruleBoundary == [] && rules == [] && at == []
      {
        var n := NewState();
        var b := NewState();
        condStarts := condStarts + [CondStart(n, b)];
        i := i + 1;
      }
    }

    method NewState() returns (id: nat)
      modifies `states
      ensures id == |old(states)| && states == old(states) + [State([], -1, false)]
    {
      id := |states|;
      states := states + [State([], -1, false)];
    }

    method AddEdge(from: nat, e: Edge)
      requires from < |states|
      modifies `states
      ensures states == old(states)[from := old(states)[from].(out := old(states)[from].out + [e])]
    {
      states := states[from := states[from].(out := states[from].out + [e])];
    }

    method AddEps(from: nat, to: nat)
      requires from < |states|
      modifies `states
      ensures states == old(states)[from := old(states)[from].(out := old(states)[from].out + [Eps(to)])]
    {
      AddEdge(from, Eps(to));
    }

    // compile_class, compile_empty and compile_boundary: two states and one edge.
    method CompileLeaf(on: set<byte>, boundary: bool) returns (f: Frag)
      requires boundary ==> on == {}
      modifies `states
      ensures old(states) <= states
      ensures IsFrag(states, |old(states)|, |states|, f,
                     if on == {} then EPSILON else ClassWords(on), if boundary then EPSILON else NOTHING)
    {
      var s := NewState();
      var e := NewState();
      if boundary { states := states[e := states[e].(boundary := true)]; }
      AddEdge(s, Edge(e, on));
      f := Frag(s, e);
      LeafFrag(states, s, on, boundary);
    }

    method Join(a: Frag, b: Frag, ghost lo: nat, ghost m: nat, ghost A: Language, ghost MA: Language,
        ghost B: Language, ghost MB: Language)
      returns (f: Frag)
      requires IsFrag(states, lo, m, a, A, MA) && IsFrag(states, m, |states|, b, B, MB)
      modifies `states
      ensures |states| == |old(states)| && states[..lo] == old(states)[..lo]
      ensures IsFrag(states, lo, |states|, f, Cat(A, B), MA + Cat(A, MB))
    {
      ghost var S := states;
      AddEps(a.e, b.s);
      f := Frag(a.s, b.e);
      JoinFrags(S, states, lo, m, |states|, a, b, A, MA, B, MB);
    }

    // The edges of a wrapped fragment: its fresh entry s and exit s+1 have none yet.
    method Wire(a: Frag, s: nat, skip: bool, back: bool)
      requires a.s < s && a.e < s && |states| == s + 2 && states[s].out == []
      modifies `states
      ensures states == old(states)[s := old(states)[s].(out := [Eps(a.s)] + (if skip then [Eps(s + 1)] else []))]
                                   [a.e := old(states)[a.e].(out := old(states)[a.e].out +
                                     ((if back then [Eps(a.s)] else []) + [Eps(s + 1)]))]
    {
      ghost var S := states;
      AddEps(s, a.s);
      if skip { AddEps(s, s + 1); }
      assert states[s].out == [Eps(a.s)] + if skip then [Eps(s + 1)] else [];
      assert states == S[s := S[s].(out := [Eps(a.s)] + (if skip then [Eps(s + 1)] else []))];
      ghost var T := states;
      if back { AddEps(a.e, a.s); }
      AddEps(a.e, s + 1);
      assert states[a.e].out == T[a.e].out + ((if back then [Eps(a.s)] else []) + [Eps(s + 1)]);
      assert states == T[a.e := T[a.e].(out := T[a.e].out + ((if back then [Eps(a.s)] else []) + [Eps(s + 1)]))];
    }

    // A fresh entry and exit around a: star, plus, question, and the copies of compile_repeat after the first lo.
    method Wrap(a: Frag, skip: bool, back: bool, ghost lo: nat, ghost A: Language, ghost M: Language) returns (f: Frag)
      requires IsFrag(states, lo, |states|, a, A, M)
      modifies `states
      ensures |states| >= |old(states)| && states[..lo] == old(states)[..lo]
      ensures IsFrag(states, lo, |states|, f, Wrapped(A, skip, back), WrappedMarks(A, M, back))
    {
      ghost var S0 := states;
      var s := NewState();
      var e := NewState();
      ghost var S := states;
      ReadsLocal(S0, S, lo, s, a, A, M);
      Wire(a, s, skip, back);
      f := Frag(s, e);
      WrapFrag(S, states, lo, s, a, A, M, skip, back);
    }

    /** Thompson's construction: the fragment reads exactly what the tree means, and nothing already built changes. */
    method Compile(n: Node) returns (f: Frag)
      modifies `states
      ensures old(states) <= states
      ensures IsFrag(states, |old(states)|, |states|, f, Meaning(Effective(n)), Marks(Effective(n)))
      decreases n, 1
    {
      ghost var lo := |states|;
      match n
      case Empty => f := CompileLeaf({}, false);
      case Class(cls) => f := CompileLeaf(cls, false);
      case Concat(_, _) => f := CompileConcat(n);
      case Alt(_, _) => f := CompileAlt(n);
      case Star(a) => f := CompileWrapped(a, true, true);
      case Plus(a) => f := CompileWrapped(a, false, true);
      case Question(a) => f := CompileWrapped(a, true, false);
      case Repeat(a, l, h) => f := CompileRepeat(a, l, h);
      case TrailBoundary => f := CompileLeaf({}, true);
      case AnchorBOL => f := CompileLeaf({}, false);
      case AnchorEOL => f := CompileLeaf({}, false);
    }

    // compile_star, compile_plus and compile_question.
    method CompileWrapped(a: Node, skip: bool, back: bool) returns (f: Frag)
      modifies `states
      ensures old(states) <= states
      ensures IsFrag(states, |old(states)|, |states|, f, Wrapped(Meaning(Effective(a)), skip, back),
                     WrappedMarks(Meaning(Effective(a)), Marks(Effective(a)), back))
      decreases a, 2
    {
      ghost var lo := |states|;
      f := Compile(a);
      f := Wrap(f, skip, back, lo, Meaning(Effective(a)), Marks(Effective(a)));
    }

    method CompileConcat(n: Node) returns (f: Frag)
      requires n.Concat?
      modifies `states
      ensures old(states) <= states
      ensures IsFrag(states, |old(states)|, |states|, f, Meaning(Effective(n)), Marks(Effective(n)))
      decreases n, 0
    {
      ghost var lo := |states|;
      ghost var a, b := Effective(n.a), Effective(n.b);
      var fa := Compile(n.a);
      ghost var m, S := |states|, states;
      var fb := Compile(n.b);
      ReadsLocal(S, states, lo, m, fa, Meaning(a), Marks(a));
      f := Join(fa, fb, lo, m, Meaning(a), Marks(a), Meaning(b), Marks(b));
    }

    method CompileAlt(n: Node) returns (f: Frag)
      requires n.Alt?
      modifies `states
      ensures old(states) <= states
      ensures IsFrag(states, |old(states)|, |states|, f, Meaning(Effective(n)), Marks(Effective(n)))
      decreases n, 0
    {
      ghost var lo := |states|;
      ghost var a, b := Effective(n.a), Effective(n.b);
      var fa := Compile(n.a);
      ghost var m, S1 := |states|, states;
      var fb := Compile(n.b);
      ghost var S2 := states;
      var s := NewState();
      var e := NewState();
      ghost var S := states;
      AddEps(s, fa.s);
      AddEps(s, fb.s);
      AddEps(fa.e, e);
      AddEps(fb.e, e);
      f := Frag(s, e);
      assert states[s].out == [Eps(fa.s), Eps(fb.s)];
      ReadsLocal(S1, S, lo, m, fa, Meaning(a), Marks(a));
      ReadsLocal(S2, S, m, s, fb, Meaning(b), Marks(b));
      AltFrags(S, states, lo, m, s, fa, fb, Meaning(a), Marks(a), Meaning(b), Marks(b));
    }

    // compile_repeat's `append`.
    method Append(head: Option<Frag>, f: Frag, ghost lo: nat, ghost m: nat,
                  ghost A: Language, ghost MA: Language, ghost B: Language, ghost MB: Language)
      returns (r: Option<Frag>)
      requires IsHead(states, lo, m, head, A, MA) && IsFrag(states, m, |states|, f, B, MB)
      modifies `states
      ensures |states| == |old(states)| && states[..lo] == old(states)[..lo]
      ensures r.Some? && IsFrag(states, lo, |states|, r.value, Cat(A, B), MA + Cat(A, MB))
    {
      match head
      case None =>
        CatEpsilon(B);
        CatEpsilon(MB);
        assert NOTHING + MB == MB;
        r := Some(f);
      case Some(h) =>
        var g := Join(h, f, lo, m, A, MA, B, MB);
        r := Some(g);
    }

    // The body once more, bare or wrapped.
    method CompileCopy(n: Node, skip: bool, back: bool) returns (f: Frag)
      requires back ==> skip
      modifies `states
      ensures old(states) <= states
      ensures IsFrag(states, |old(states)|, |states|, f, Wrapped(Meaning(Effective(n)), skip, back),
                     WrappedMarks(Meaning(Effective(n)), Marks(Effective(n)), back))
      decreases n, 3
    {
      if skip { f := CompileWrapped(n, skip, back); } else { f := Compile(n); }
    }

    // One turn of compile_repeat: compile the body again, wrap it if it is an
    // optional copy or the final star, and append it.
    method AppendCopy(n: Node, head: Option<Frag>, skip: bool, back: bool, ghost lo: nat, ghost A: Language,
        ghost M: Language)
      returns (r: Option<Frag>)
      requires IsHead(states, lo, |states|, head, A, M) && (back ==> skip)
      modifies `states
      ensures old(states)[..lo] <= states && lo <= |states|
      ensures r.Some? &&
              var B := Meaning(Effective(n));
              IsFrag(states, lo, |states|, r.value, Cat(A, Wrapped(B, skip, back)), M +
                Cat(A, WrappedMarks(B, Marks(Effective(n)), back)))
      decreases n, 4
    {
      ghost var m, S := |states|, states;
      ghost var B, MB := Meaning(Effective(n)), Marks(Effective(n));
      var f := CompileCopy(n, skip, back);
      HeadLocal(S, states, lo, m, head, A, M);
      r := Append(head, f, lo, m, A, M, Wrapped(B, skip, back), WrappedMarks(B, MB, back));
    }

    method CompileRepeat(a: Node, min: nat, max: Bound) returns (f: Frag)
      modifies `states
      ensures old(states) <= states
      ensures IsFrag(states, |old(states)|, |states|, f, Copies(Meaning(Effective(a)), min, max),
                     CopyMarks(Meaning(Effective(a)), Marks(Effective(a)), min, max))
      decreases a, 6, 1
    {
      ghost var lo, A, M := |states|, Meaning(Effective(a)), Marks(Effective(a));
      var head := AppendAllRequired(a, min, A, M);
      if max.Unbounded? {
        head := AppendStar(a, head, lo, min, A, M);
      } else {
        head := AppendAllOptional(a, head, lo, min, if max.n >= min then max.n - min else 0, A, M);
      }
      f := Close(head, lo, Copies(A, min, max), CopyMarks(A, M, min, max));
    }

    // The first loop of compile_repeat: lo required copies.
    method AppendAllRequired(a: Node, min: nat, ghost A: Language, ghost M: Language) returns (head: Option<Frag>)
      requires CompiledTo(a, A, M)
      modifies `states
      ensures old(states) <= states && IsCopies(states, |old(states)|, head, A, M, min, min)
      decreases a, 6, 0
    {
      ghost var lo := |states|;
      head := None;
      NoCopies(states, A, M);
      var i := 0;
      while i < min
        invariant i <= min && old(states) <= states
        invariant IsCopies(states, lo, head, A, M, i, i)
      {
        head := AppendRequired(a, head, lo, i, A, M);
        i := i + 1;
      }
    }

    // The second: hi-lo optional copies.
    method AppendAllOptional(a: Node, head: Option<Frag>, ghost base: nat, ghost min: nat, opt: nat,
        ghost A: Language, ghost M: Language)
      returns (r: Option<Frag>)
      requires CompiledTo(a, A, M) && IsCopies(states, base, head, A, M, min, min)
      modifies `states
      ensures base <= |states| && old(states)[..base] <= states && IsCopies(states, base, r, A, M, min, min + opt)
      decreases a, 6, 0
    {
      r := head;
      var i := 0;
      ghost var hi, kept := min, states[..base];
      while i < opt
        invariant i <= opt && hi == min + i && base <= |states| && kept <= states
        invariant IsCopies(states, base, r, A, M, min, hi)
      {
        r := AppendOptional(a, r, base, min, hi, A, M);
        i, hi := i + 1, hi + 1;
      }
    }

    // No copy at all reads as the empty fragment.
    method Close(head: Option<Frag>, ghost lo: nat, ghost A: Language, ghost M: Language) returns (f: Frag)
      requires IsHead(states, lo, |states|, head, A, M)
      modifies `states
      ensures old(states) <= states && IsFrag(states, lo, |states|, f, A, M)
    {
      if head.None? {
        f := CompileLeaf({}, false);
      } else {
        f := head.value;
      }
    }

    method AppendRequired(n: Node, head: Option<Frag>, ghost base: nat, ghost k: nat, ghost A: Language,
        ghost M: Language) returns (r: Option<Frag>)
      requires CompiledTo(n, A, M) && IsCopies(states, base, head, A, M, k, k)
      modifies `states
      ensures base <= |states| && old(states)[..base] <= states
      ensures IsCopies(states, base, r, A, M, k + 1, k + 1)
      decreases n, 5
    {
      CopyStep(A, M, k);
      r := AppendCopy(n, head, false, false, base, Between(A, k, k), Within(A, M, k));
    }

    method AppendOptional(n: Node, head: Option<Frag>, ghost base: nat, ghost lo: nat, ghost k: nat,
        ghost A: Language, ghost M: Language) returns (r: Option<Frag>)
      requires lo <= k && CompiledTo(n, A, M) && IsCopies(states, base, head, A, M, lo, k)
      modifies `states
      ensures base <= |states| && old(states)[..base] <= states
      ensures IsCopies(states, base, r, A, M, lo, k + 1)
      decreases n, 5
    {
      OptionalStep(A, M, lo, k);
      r := AppendCopy(n, head, true, false, base, Between(A, lo, k), Within(A, M, k));
    }

    method AppendStar(n: Node, head: Option<Frag>, ghost base: nat, ghost k: nat, ghost A: Language,
        ghost M: Language) returns (r: Option<Frag>)
      requires CompiledTo(n, A, M) && IsCopies(states, base, head, A, M, k, k)
      modifies `states
      ensures base <= |states| && old(states)[..base] <= states
      ensures r.Some? && IsFrag(states, base, |states|, r.value, AtLeast(A, k), Cat(AtLeast(A, 0), M))
      decreases n, 5
    {
      StarStep(A, M, k);
      r := AppendCopy(n, head, true, true, base, Between(A, k, k), Within(A, M, k));
    }

    // ---------- rules ----------------------------------------------------

    // connect_to_conds' `link`.
    method Link(c: nat, entry: nat, onlyBol: bool, ghost S: Graph, ghost C: set<nat>)
      requires c < |condStarts| && condStarts[c] == CondStart(2 * c, 2 * c + 1)
      requires Linking(S, states, |condStarts|, entry, onlyBol, C)
      modifies `states
      ensures Linking(S, states, |condStarts|, entry, onlyBol, C + {c})
    {
      ghost var before := states;
      assert CondGained(S, before, c, entry, onlyBol, C);
      AddEps(condStarts[c].bol, entry);
      if !onlyBol { AddEps(condStarts[c].normal, entry); }
      forall d: nat | d < |condStarts| ensures CondGained(S, states, d, entry, onlyBol, C + {c}) {
        assert CondGained(S, before, d, entry, onlyBol, C);
      }
    }

    method ConnectToConds(entry: nat, onlyBol: bool, sites: Sites)
      requires |condStarts| == |condExcl| && 2 * |condStarts| <= |states|
      requires forall c :: 0 <= c < |condStarts| ==> condStarts[c] == CondStart(2 * c, 2 * c + 1)
      requires forall i :: 0 <= i < |sites.conds| ==> sites.conds[i] < |condStarts|
      modifies `states
      ensures Linking(old(states), states, |condStarts|, entry, onlyBol, LinkedConds(sites, condExcl))
      ensures |states| == |old(states)| && forall c: nat :: c < |condStarts| ==>
                var links := sites.anyState || c in sites.conds || (sites.conds == [] && (c == 0 || !condExcl[c]));
                StartsLinked(old(states), states, condStarts[c], entry, onlyBol, links)
    {
      ghost var S := states;
      ghost var C: set<nat> := {};
      var i := 0;
      if sites.anyState || sites.conds == [] {
        while i < |condStarts|
          invariant i <= |condStarts| && Linking(S, states, |condStarts|, entry, onlyBol, C)
          invariant C == set c: nat | c < i && Linked(sites, c, condExcl)
        {
          if sites.anyState || i == 0 || !condExcl[i] {
            Link(i, entry, onlyBol, S, C);
            C := C + {i};
          }
          i := i + 1;
        }
      } else {
        while i < |sites.conds|
          invariant i <= |sites.conds| && Linking(S, states, |condStarts|, entry, onlyBol, C)
          invariant forall c :: c in C <==> c in sites.conds[..i]
        {
          Link(sites.conds[i], entry, onlyBol, S, C);
          C := C + {sites.conds[i]};
          i := i + 1;
        }
        assert sites.conds[..i] == sites.conds;
      }
      assert C == LinkedConds(sites, condExcl);
      forall c: nat | c < |condStarts|
        ensures var links := sites.anyState || c in sites.conds || (sites.conds == [] && (c == 0 || !condExcl[c]));
                StartsLinked(S, states, condStarts[c], entry, onlyBol, links)
      {
        LinkedStates(S, states, condExcl, entry, onlyBol, sites, c);
      }
    }

    // The markers that the states from pre on carry.
    method CollectBoundaries(pre: nat) returns (markers: seq<nat>)
      requires pre <= |states|
      ensures forall p: nat :: p in markers <==> pre <= p < |states| && states[p].boundary
    {
      markers := [];
      var i := pre;
      while i < |states|
        invariant pre <= i <= |states|
        invariant forall p: nat :: p in markers <==> pre <= p < i && states[p].boundary
      {
        if states[i].boundary { markers := markers + [i]; }
        i := i + 1;
      }
    }

    method CompileAccepting(body: Node, ruleId: nat) returns (f: Frag)
      modifies `states
      ensures old(states) <= states
      ensures Reads(states, |old(states)|, |states|, f, Meaning(Effective(body)), Marks(Effective(body)))
      ensures forall p :: |old(states)| <= p < |states| ==> states[p].accept == if p == f.e then ruleId else -1
    {
      f := Compile(body);
      ghost var S := states;
      states := states[f.e := states[f.e].(accept := ruleId)];
      ReadsLocal(S, states, |old(states)|, |states|, f, Meaning(Effective(body)), Marks(Effective(body)));
    }

    method GrowRuleTables(ruleId: nat)
      requires |ruleBol| == |ruleEol| == |ruleTrail| == |ruleBoundary| == ruleId
      modifies `ruleBol, `ruleEol, `ruleTrail, `ruleBoundary
      ensures ruleBol == old(ruleBol) + [false] && ruleEol == old(ruleEol) + [false]
      ensures ruleTrail == old(ruleTrail) + [0] && ruleBoundary == old(ruleBoundary) + [[]]
    {
      while |ruleBol| <= ruleId
        invariant ruleId <= |ruleBol| <= ruleId + 1
        invariant ruleBol == old(ruleBol) + seq(|ruleBol| - ruleId, i => false)
        invariant ruleEol == old(ruleEol) + seq(|ruleBol| - ruleId, i => false)
        invariant ruleTrail == old(ruleTrail) + seq(|ruleBol| - ruleId, i => 0)
        invariant ruleBoundary == old(ruleBoundary) + seq(|ruleBol| - ruleId, i => [])
      {
        ruleBol, ruleEol, ruleTrail, ruleBoundary := ruleBol + [false], ruleEol + [false], ruleTrail + [0],
          ruleBoundary + [[]];
      }
    }

    // The entries of a new rule in the tables indexed by rule, whose states are those from pre on.
    method RecordRule(ruleId: nat, bol: bool, eol: bool, trail: int, pre: nat)
      requires ruleId == |ruleBol| == |ruleEol| == |ruleTrail| == |ruleBoundary| && pre <= |states|
      modifies `ruleBol, `ruleEol, `ruleTrail, `ruleBoundary
      ensures ruleBol == old(ruleBol) + [bol] && ruleEol == old(ruleEol) + [eol]
              && ruleTrail == old(ruleTrail) + [trail]
      ensures |ruleBoundary| == ruleId + 1 && ruleBoundary[..ruleId] == old(ruleBoundary)
      ensures forall p: nat :: p in ruleBoundary[ruleId] <==> pre <= p < |states| && states[p].boundary
    {
      GrowRuleTables(ruleId);
      ruleBol, ruleEol, ruleTrail := ruleBol[ruleId := bol], ruleEol[ruleId := eol], ruleTrail[ruleId := trail];
      var markers := CollectBoundaries(pre);
      ruleBoundary := ruleBoundary[ruleId := ruleBoundary[ruleId] + markers];
    }

    /** add_rule_to_nfa, for rules numbered in order as the driver does. */
    method AddRule(root: Node, ruleId: nat, sites: Sites, trail: int)
      requires Valid() && ruleId == |rules|
      requires forall i :: 0 <= i < |sites.conds| ==> sites.conds[i] < |condStarts|
      modifies this
      ensures Valid() && rules == old(rules) + [Rule(root, sites, trail)]
      ensures condExcl == old(condExcl) && |condStarts| == |old(condStarts)|
    {
      ghost var n, rule := Contents(), Rule(root, sites, trail);
      var u := Unwrap(root);
      var pre := |states|;
      var f := CompileAccepting(u.body, ruleId);
      RecordRule(ruleId, u.bol, u.eol, trail, pre);
      ghost var S := states;
      ConnectToConds(f.s, u.bol, sites);
      ReadsLocal(S, states, pre, |states|, f, Meaning(Effective(u.body)), Marks(Effective(u.body)));
      ghost var here := Region(pre, |states|, f);
      LinkingPrefix(S, states, |condStarts|, f.s, u.bol, LinkedConds(sites, condExcl), pre);
      assert S[..pre] == n.states;
      assert Extends(n, Contents(), rule, here);
      ExtendLayout(n, Contents(), rule, at, rules, here);
      rules, at := rules + [rule], at + [here];
    }
  }
}
