// The tables the generated scanner reads (emit_c in src/codegen.cpp), the
// lookup YY_TRANSITION, and what it means for them to implement a rule list.

module ScanTables {
  import opened Bytes
  import opened Regex
  import opened NfaGraph
  import opened Closure
  import opened RuleNfa
  import opened Eclass
  import opened Subset
  import opened Comb

  // -f and -Cfe index yy_nxt[s][ec] directly, -Cem goes through yy_base and yy_chk.
  datatype Transitions = Dense(rows: seq<seq<int>>) | Combed(comb: CompressedDfa)

  // A list of rule lists, flattened: entry s is pool[off[s]..off[s+1]].
  datatype Lists = Lists(off: seq<nat>, pool: seq<nat>)

  datatype Tables = Tables(
    ec: seq<nat>,
    trans: Transitions,
    acceptNormal: seq<int>,
    acceptEol: seq<int>,
    acceptLists: Lists,
    boundaryLists: Lists,
    condNormal: seq<int>,
    condBol: seq<int>,
    ruleTrail: seq<int>,
    ruleEol: seq<bool>)

  ghost predicate ListsShaped(l: Lists, n: nat, bound: nat) {
    && |l.off| == n + 1
    && (forall s :: 0 <= s < n ==> l.off[s] <= l.off[s + 1])
    && (forall s :: 0 <= s <= n ==> l.off[s] <= |l.pool|)
    && (forall s, i :: 0 <= s < n && l.off[s] <= i < l.off[s + 1] ==> l.pool[i] < bound)
  }

  function ListAt(l: Lists, s: nat): seq<nat>
    requires s + 1 < |l.off| && l.off[s] <= l.off[s + 1] <= |l.pool|
  {
    l.pool[l.off[s]..l.off[s + 1]]
  }

  // The raw lookup is in bounds for every state and byte.
  ghost predicate TransShaped(t: Tables) {
    var ns := |t.acceptNormal|;
    && |t.ec| == 256
    && match t.trans
       case Dense(rows) => |rows| == ns && forall s: nat, b: byte :: s < ns ==> t.ec[b] < |rows[s]|
       case Combed(comb) => |comb.base| == ns && |comb.chk| == |comb.nxt| && forall s: nat, b: byte :: s < ns ==>
         comb.base[s] + t.ec[b] < |comb.chk|
  }

  /** YY_TRANSITION(s, b). */
  function Transition(t: Tables, s: nat, b: byte): int
    requires TransShaped(t) && s < |t.acceptNormal|
  {
    match t.trans
    case Dense(rows) => rows[s][t.ec[b]]
    case Combed(comb) => Lookup(comb, s, t.ec[b])
  }

  ghost predicate Shaped(t: Tables) {
    var ns, nr := |t.acceptNormal|, |t.ruleTrail|;
    && TransShaped(t)
    && (forall s: nat, b: byte :: s < ns ==> -1 <= Transition(t, s, b) < ns)
    && |t.acceptEol| == ns && |t.ruleEol| == nr
    && (forall s :: 0 <= s < ns ==> t.acceptNormal[s] < nr && t.acceptEol[s] < nr)
    && ListsShaped(t.acceptLists, ns, nr) && ListsShaped(t.boundaryLists, ns, nr)
    && |t.condNormal| == |t.condBol|
    && (forall c :: 0 <= c < |t.condNormal| ==> 0 <= t.condNormal[c] < ns && 0 <= t.condBol[c] < ns)
  }

  function Start(t: Tables, c: nat, atBol: bool): int
    requires c < |t.condNormal| == |t.condBol|
  {
    if atBol then t.condBol[c] else t.condNormal[c]
  }

  // Where the lookup leads after a word; -1 once it is dead.
  ghost function TRun(t: Tables, s: int, w: Word): (r: int)
    requires Shaped(t) && -1 <= s < |t.acceptNormal|
    ensures -1 <= r < |t.acceptNormal|
  {
    if w == [] then s
    else
      var m := TRun(t, s, w[..|w| - 1]);
      if m < 0 then -1 else Transition(t, m, w[|w| - 1])
  }

  // ---------- the rules as the scanner sees them --------------------------

  datatype Grammar = Grammar(rules: seq<Rule>, excl: seq<bool>)

  predicate IsEol(g: Grammar, r: nat)
    requires r < |g.rules|
  {
    Unwrap(g.rules[r].root).eol
  }

  /** Rule r is active in condition c, entered at a line beginning or not, and its body denotes w. */
  ghost predicate Denotes(g: Grammar, c: nat, b: bool, r: nat, w: Word) {
    r < |g.rules| && c < |g.excl| && Active(g.rules[r], g.excl, c, b) && w in Meaning(Effective(Body(g.rules[r])))
  }

  ghost predicate MayMark(g: Grammar, c: nat, b: bool, r: nat, w: Word) {
    r < |g.rules| && c < |g.excl| && Active(g.rules[r], g.excl, c, b) && w in Marks(Effective(Body(g.rules[r])))
  }

  // slot is the first rule, among those with or without $, that denotes w; or -1.
  ghost predicate FirstRule(g: Grammar, c: nat, b: bool, w: Word, eol: bool, slot: int) {
    if slot < 0 then slot == -1 && forall r :: Denotes(g, c, b, r, w) ==> IsEol(g, r) != eol
    else Denotes(g, c, b, slot, w) && IsEol(g, slot) == eol
         && forall r :: Denotes(g, c, b, r, w) && IsEol(g, r) == eol ==> slot <= r
  }

  /** State s says exactly which rules denote w and which may stand at their marker after w. */
  ghost predicate Knows(t: Tables, g: Grammar, c: nat, b: bool, w: Word, s: int)
    requires Shaped(t) && -1 <= s < |t.acceptNormal|
  {
    if s < 0 then forall r :: !Denotes(g, c, b, r, w) && !MayMark(g, c, b, r, w)
    else
      && FirstRule(g, c, b, w, false, t.acceptNormal[s])
      && FirstRule(g, c, b, w, true, t.acceptEol[s])
      && (forall r: nat {:trigger Denotes(g, c, b, r, w)} :: r in ListAt(t.acceptLists, s) <==> Denotes(g, c, b, r, w))
      && (forall r: nat {:trigger MayMark(g, c, b, r, w)} :: r in ListAt(t.boundaryLists, s) <==>
        MayMark(g, c, b, r, w))
  }

  /** The tables implement the rules: after every word, from every entry, the state reached knows exactly
      what matches. */
  ghost predicate Implements(t: Tables, g: Grammar) {
    && Shaped(t)
    && |t.condNormal| == |g.excl| && |g.rules| <= |t.ruleTrail|
    && (forall r :: 0 <= r < |g.rules| ==> t.ruleEol[r] == IsEol(g, r) && t.ruleTrail[r] == g.rules[r].trail)
    && (forall c: nat, b: bool, w: Word :: c < |g.excl| ==> Knows(t, g, c, b, w, TRun(t, Start(t, c, b), w)))
  }

  // ---------- emitting them ------------------------------------------------

  datatype CompressMode = Full | FullEc | Compress

  /** The tables hold what the DFA holds. */
  ghost predicate TablesFor(t: Tables, n: Nfa, d: Dfa) {
    && Shaped(t)
    && |t.acceptNormal| == |d.states| && |d.eclasses.ec| == 256
    && (forall s: nat, b: byte :: s < |d.states| ==> Transition(t, s, b) == DNext(d, s, b))
    && (forall s :: 0 <= s < |d.states| ==>
      t.acceptNormal[s] == d.states[s].acceptNormal && t.acceptEol[s] == d.states[s].acceptEol)
    && (forall s :: 0 <= s < |d.states| ==> ListAt(t.acceptLists, s) == d.states[s].acceptList)
    && (forall s :: 0 <= s < |d.states| ==> ListAt(t.boundaryLists, s) == d.states[s].boundaryRules)
    && |t.condNormal| == |t.condBol| == |d.condStarts|
    && (forall c, b :: 0 <= c < |d.condStarts| ==> Start(t, c, b) == StartOf(d, c, b))
    && n.ruleTrail <= t.ruleTrail && n.ruleEol <= t.ruleEol
  }

  lemma ListsSnoc(l: Lists, n: nat, bound: nat, x: seq<nat>)
    requires ListsShaped(l, n, bound) && l.off[n] == |l.pool| && forall i :: 0 <= i < |x| ==> x[i] < bound
    ensures var l' := Lists(l.off + [|l.pool + x|], l.pool + x);
            && ListsShaped(l', n + 1, bound) && l'.off[n + 1] == |l'.pool|
            && ListAt(l', n) == x && forall s :: 0 <= s < n ==> ListAt(l', s) == ListAt(l, s)
  {
    var l' := Lists(l.off + [|l.pool + x|], l.pool + x);
    assert forall s :: 0 <= s <= n ==> l'.off[s] == l.off[s];
    forall s, i | 0 <= s < n + 1 && l'.off[s] <= i < l'.off[s + 1] ensures l'.pool[i] < bound {
      if s < n { assert i < |l.pool| && l'.pool[i] == l.pool[i]; } else { assert l'.pool[i] == x[i - |l.pool|]; }
    }
    forall s | 0 <= s < n ensures ListAt(l', s) == ListAt(l, s) {
      assert l.off[s + 1] <= |l.pool|;
    }
  }

  method Flatten(lists: seq<seq<nat>>, ghost bound: nat) returns (l: Lists)
    requires forall s, r :: 0 <= s < |lists| && r in lists[s] ==> r < bound
    ensures ListsShaped(l, |lists|, bound) && forall s :: 0 <= s < |lists| ==> ListAt(l, s) == lists[s]
  {
    l := Lists([0], []);
    var s := 0;
    while s < |lists|
      invariant s <= |lists| && ListsShaped(l, s, bound) && l.off[s] == |l.pool|
      invariant forall x :: 0 <= x < s ==> ListAt(l, x) == lists[x]
    {
      assert forall i :: 0 <= i < |lists[s]| ==> lists[s][i] in lists[s];
      ListsSnoc(l, s, bound, lists[s]);
      l := Lists(l.off + [|l.pool + lists[s]|], l.pool + lists[s]);
      s := s + 1;
    }
    if l.pool == [] { l := l.(pool := [0]); }
  }

  method EmitTransitions(d: Dfa, mode: CompressMode) returns (tr: Transitions)
    requires forall s :: 0 <= s < |d.states| ==> |d.states[s].next| == d.eclasses.nclasses
    ensures tr.Combed? <==> mode.Compress?
    ensures match tr
            case Dense(rows) => |rows| == |d.states| && forall s :: 0 <= s < |rows| ==> rows[s] == d.states[s].next
            case Combed(comb) =>
              var rows := seq(|d.states|, s requires 0 <= s < |d.states| => d.states[s].next);
              Rectangular(rows, d.eclasses.nclasses) && Lossless(rows, d.eclasses.nclasses, comb)
  {
    var rows := seq(|d.states|, s requires 0 <= s < |d.states| => d.states[s].next);
    if mode.Compress? {
      var comb := CompressDfa(rows, d.eclasses.nclasses);
      tr := Combed(comb);
    } else {
      tr := Dense(rows);
    }
  }

  // What emit_c may rely on: the rows of a DFA built for n, and rule ids in range.
  ghost predicate Emittable(n: Nfa, d: Dfa) {
    && (forall s :: 0 <= s < |d.states| ==> |d.states[s].next| == d.eclasses.nclasses)
    && Onto(d.eclasses.ec, d.eclasses.nclasses)
    && (forall s, c :: 0 <= s < |d.states| && 0 <= c < d.eclasses.nclasses ==>
      d.states[s].next[c] == -1 || 1 <= d.states[s].next[c] < |d.states|)
    && (forall s, r :: 0 <= s < |d.states| && r in d.states[s].acceptList ==> r < |n.ruleEol|)
    && (forall s, r :: 0 <= s < |d.states| && r in d.states[s].boundaryRules ==> r < |n.ruleEol|)
    && (forall s :: 0 <= s < |d.states| ==>
      d.states[s].acceptNormal < |n.ruleEol| && d.states[s].acceptEol < |n.ruleEol|)
    && (forall c :: 0 <= c < |d.condStarts| ==>
      0 <= d.condStarts[c].normal < |d.states| && 0 <= d.condStarts[c].bol < |d.states|)
    && |n.ruleTrail| == |n.ruleEol|
    && |d.states| > 0 && (forall c :: 0 <= c < d.eclasses.nclasses ==> d.states[0].next[c] == -1)
  }

  lemma BuiltIsEmittable(n: Nfa, d: Dfa, sets: seq<seq<nat>>)
    requires WellFormed(n) && DfaFor(n, d, sets)
    ensures Emittable(n, d)
  {
    forall s | 0 <= s < |d.states|
      ensures forall r :: r in d.states[s].acceptList ==> r < |n.ruleEol|
      ensures forall r :: r in d.states[s].boundaryRules ==> r < |n.ruleEol|
      ensures d.states[s].acceptNormal < |n.ruleEol| && d.states[s].acceptEol < |n.ruleEol|
    {
      if s > 0 {
        var x := d.states[s];
        assert AcceptInfo(n, sets[s - 1], x);
        forall r | r in x.acceptList ensures r < |n.ruleEol| {
          assert AcceptsIn(n, sets[s - 1], r);
        }
        forall r | r in x.boundaryRules ensures r < |n.ruleEol| {
          assert MarksIn(n, sets[s - 1], r);
        }
      }
    }
    forall c | 0 <= c < |d.condStarts| ensures 0 <= d.condStarts[c].normal < |d.states|
      && 0 <= d.condStarts[c].bol < |d.states| {
      assert StartsAt(n, d, sets, c, false) && StartsAt(n, d, sets, c, true);
    }
  }

  /** The tables are those of the mode: packed by the comb iff the mode is Compress, with every byte a class of its own
      in Full, and in the other modes with two bytes in one class iff no edge of the NFA tells them apart. */
  ghost predicate InMode(t: Tables, n: Nfa, mode: CompressMode) {
    && (t.trans.Combed? <==> mode.Compress?)
    && |t.ec| == 256
    && if mode.Full? then forall b: byte :: t.ec[b] == b
       else forall a: byte, b: byte :: t.ec[a] == t.ec[b] <==>
              forall p, i :: 0 <= p < |n.states| && 0 <= i < |n.states[p].out| ==>
                (a in n.states[p].out[i].on <==> b in n.states[p].out[i].on)
  }

  // The class map of the DFA is the one the mode calls for.
  ghost predicate ClassedFor(n: Nfa, d: Dfa, mode: CompressMode) {
    if mode.Full? then d.eclasses.ec == seq(256, i => i) else Exact(n.states, d.eclasses)
  }

  lemma ModeIs(t: Tables, n: Nfa, d: Dfa, mode: CompressMode)
    requires (t.trans.Combed? <==> mode.Compress?) && ClassedFor(n, d, mode) && t.ec == d.eclasses.ec
    ensures InMode(t, n, mode)
  {
    forall a: byte, b: byte | !mode.Full? ensures t.ec[a] == t.ec[b] <==> Indistinct(n.states, a, b) {
    }
  }

  method EmitTables(n: Nfa, d: Dfa, mode: CompressMode) returns (t: Tables)
    requires Emittable(n, d) && ClassedFor(n, d, mode)
    ensures TablesFor(t, n, d) && InMode(t, n, mode)
  {
    var ec := if mode.Full? then seq(256, i => i) else d.eclasses.ec;
    var trans := EmitTransitions(d, mode);
    var ns := |d.states|;
    var trail := if n.ruleTrail == [] then [0] else n.ruleTrail;
    var reol := if n.ruleEol == [] then [false] else n.ruleEol;
    var accept := Flatten(seq(ns, s requires 0 <= s < ns => d.states[s].acceptList), |trail|);
    var boundary := Flatten(seq(ns, s requires 0 <= s < ns => d.states[s].boundaryRules), |trail|);
    t := Tables(ec, trans,
                seq(ns, s requires 0 <= s < ns => d.states[s].acceptNormal),
                seq(ns, s requires 0 <= s < ns => d.states[s].acceptEol),
                accept, boundary,
                seq(|d.condStarts|, c requires 0 <= c < |d.condStarts| => d.condStarts[c].normal),
                seq(|d.condStarts|, c requires 0 <= c < |d.condStarts| => d.condStarts[c].bol),
                trail, reol);
    TransitionsAgree(t, n, d);
    ModeIs(t, n, d, mode);
  }

  /** Every mode looks a transition up alike. */
  lemma TransitionsAgree(t: Tables, n: Nfa, d: Dfa)
    requires Emittable(n, d) && t.ec == d.eclasses.ec && |t.acceptNormal| == |d.states|
    requires match t.trans
             case Dense(rows) => |rows| == |d.states| && forall s :: 0 <= s < |rows| ==> rows[s] == d.states[s].next
             case Combed(comb) =>
               var rows := seq(|d.states|, s requires 0 <= s < |d.states| => d.states[s].next);
               Rectangular(rows, d.eclasses.nclasses) && Lossless(rows, d.eclasses.nclasses, comb)
    ensures TransShaped(t)
    ensures forall s: nat, b: byte :: s < |d.states| ==> Transition(t, s, b) == DNext(d, s, b)
  {
    forall b: byte ensures t.ec[b] < d.eclasses.nclasses {
      assert d.eclasses.ec[b as int] < d.eclasses.nclasses;
    }
    match t.trans
    case Dense(rows) =>
    case Combed(comb) =>
      forall s: nat, b: byte | s < |d.states|
        ensures comb.base[s] + t.ec[b] < |comb.chk|
        ensures Lookup(comb, s, t.ec[b]) == DNext(d, s, b)
      {
        var c := t.ec[b];
        assert Answers(seq(|d.states|, s requires 0 <= s < |d.states| => d.states[s].next), comb, s, c);
        assert d.states[s].next[c] == -1 || 1 <= d.states[s].next[c] < |d.states|;
        assert s == 0 ==> d.states[0].next[c] == -1;
      }
  }

  lemma SameRun(t: Tables, n: Nfa, d: Dfa, s: int, w: Word)
    requires TablesFor(t, n, d) && -1 <= s < |d.states|
    ensures TRun(t, s, w) == DRun(d, s, w)
    decreases |w|
  {
    if w != [] { SameRun(t, n, d, s, w[..|w| - 1]); }
  }

  // ---------- the tables implement the rules --------------------------------

  lemma InSet(n: Nfa, p: nat, w: Word, set': seq<nat>, r: nat)
    requires IsReach(n.states, p, w, set') && r < |n.ruleBoundary|
    ensures AcceptsIn(n, set', r) <==> Accepts(n, p, w, r)
    ensures MarksIn(n, set', r) <==> Marked(n, p, w, r)
  {
    if AcceptsIn(n, set', r) {
      var q: nat :| q in set' && q < |n.states| && n.states[q].accept == r;
      assert Path(n.states, p, w, q);
    }
    if Accepts(n, p, w, r) {
      var q: nat :| q < |n.states| && n.states[q].accept == r && Path(n.states, p, w, q);
      assert q in set';
    }
    if MarksIn(n, set', r) {
      var q: nat :| q in n.ruleBoundary[r] && q in set';
      assert Path(n.states, p, w, q);
    }
    if Marked(n, p, w, r) {
      var q: nat :| q in n.ruleBoundary[r] && Path(n.states, p, w, q);
      assert q in set';
    }
  }

  lemma SetKnows(n: Nfa, g: Grammar, d: Dfa, sets: seq<seq<nat>>, c: nat, b: bool, w: Word, r: nat)
    requires NfaFor(n, g.rules) && n.condExcl == g.excl && DfaFor(n, d, sets) && c < |g.excl| && r < |g.rules|
    ensures var set' := SetAt(sets, DRun(d, StartOf(d, c, b), w));
            && (AcceptsIn(n, set', r) <==> Denotes(g, c, b, r, w))
            && (MarksIn(n, set', r) <==> MayMark(g, c, b, r, w))
  {
    SubsetConstructionCorrect(n, d, sets, c, b, w);
    InSet(n, EntryOf(n, c, b), w, SetAt(sets, DRun(d, StartOf(d, c, b), w)), r);
    assert KeepsRule(n, g.rules[r], c, b, w, r);
  }

  // The lists of a live state are those of the rules denoting, and marked at, the word.
  lemma StateLists(n: Nfa, g: Grammar, d: Dfa, sets: seq<seq<nat>>, c: nat, b: bool, w: Word, s: nat)
    requires NfaFor(n, g.rules) && n.condExcl == g.excl && DfaFor(n, d, sets) && c < |g.excl|
    requires s == DRun(d, StartOf(d, c, b), w) && 1 <= s < |d.states| && AcceptInfo(n, sets[s - 1], d.states[s])
    ensures forall r: nat :: r in d.states[s].acceptList <==> Denotes(g, c, b, r, w)
    ensures forall r: nat :: r in d.states[s].boundaryRules <==> MayMark(g, c, b, r, w)
  {
    forall r: nat
      ensures r in d.states[s].acceptList <==> Denotes(g, c, b, r, w)
      ensures r in d.states[s].boundaryRules <==> MayMark(g, c, b, r, w)
    {
      assert r in d.states[s].acceptList <==> AcceptsIn(n, sets[s - 1], r);
      assert r in d.states[s].boundaryRules <==> MarksIn(n, sets[s - 1], r);
      if r < |g.rules| { SetKnows(n, g, d, sets, c, b, w, r); }
    }
  }

  lemma DeadState(n: Nfa, g: Grammar, d: Dfa, sets: seq<seq<nat>>, c: nat, b: bool, w: Word)
    requires NfaFor(n, g.rules) && n.condExcl == g.excl && DfaFor(n, d, sets) && c < |g.excl|
             && DRun(d, StartOf(d, c, b), w) == -1
    ensures forall r :: !Denotes(g, c, b, r, w) && !MayMark(g, c, b, r, w)
  {
    forall r: nat ensures !Denotes(g, c, b, r, w) && !MayMark(g, c, b, r, w) {
      if r < |g.rules| { SetKnows(n, g, d, sets, c, b, w, r); }
    }
  }

  lemma StateKnows(n: Nfa, g: Grammar, d: Dfa, sets: seq<seq<nat>>, t: Tables, c: nat, b: bool, w: Word)
    requires NfaFor(n, g.rules) && n.condExcl == g.excl && DfaFor(n, d, sets) && TablesFor(t, n, d) && c < |g.excl|
    ensures Knows(t, g, c, b, w, TRun(t, Start(t, c, b), w))
  {
    SameRun(t, n, d, Start(t, c, b), w);
    var s := TRun(t, Start(t, c, b), w);
    SubsetConstructionCorrect(n, d, sets, c, b, w);
    if s >= 0 {
      assert AcceptInfo(n, sets[s - 1], d.states[s]);
      StateLists(n, g, d, sets, c, b, w, s);
    } else {
      DeadState(n, g, d, sets, c, b, w);
    }
  }

  /** The compiler's back end is correct: tables emitted, in any mode, from a DFA built for the rules' NFA implement
      the rules. */
  lemma TablesImplement(n: Nfa, g: Grammar, d: Dfa, sets: seq<seq<nat>>, t: Tables)
    requires NfaFor(n, g.rules) && n.condExcl == g.excl && DfaFor(n, d, sets) && TablesFor(t, n, d)
    ensures Implements(t, g)
  {
    forall c: nat, b: bool, w: Word | c < |g.excl| ensures Knows(t, g, c, b, w, TRun(t, Start(t, c, b), w)) {
      StateKnows(n, g, d, sets, t, c, b, w);
    }
  }
}
