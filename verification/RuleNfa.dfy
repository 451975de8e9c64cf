// The NFA of a whole scanner (struct NFA of src/nfa.hpp): one fragment per
// rule, entered from the start states of the conditions the rule belongs to.

module RuleNfa {
  import opened Bytes
  import opened Regex
  import opened NfaGraph
  import opened Fragments

  datatype CondStart = CondStart(normal: nat, bol: nat)

  datatype Nfa = Nfa(
    states: Graph,
    condStarts: seq<CondStart>,
    condExcl: seq<bool>,
    ruleBol: seq<bool>,
    ruleEol: seq<bool>,
    ruleTrail: seq<int>,
    ruleBoundary: seq<seq<nat>>)

  // RuleSites: the conditions a rule names; none at all means INITIAL and the inclusive ones.
  datatype Sites = Sites(conds: seq<nat>, anyState: bool)
  datatype Rule = Rule(root: Node, sites: Sites, trail: int)

  predicate Linked(sites: Sites, c: nat, excl: seq<bool>)
    requires c < |excl|
  {
    if sites.anyState then true
    else if sites.conds == [] then c == 0 || !excl[c]
    else c in sites.conds
  }

  predicate Active(rule: Rule, excl: seq<bool>, c: nat, atBol: bool)
    requires c < |excl|
  {
    Linked(rule.sites, c, excl) && (Unwrap(rule.root).bol ==> atBol)
  }

  function Body(rule: Rule): Node {
    Unwrap(rule.root).body
  }

  function EntryOf(n: Nfa, c: nat, atBol: bool): nat
    requires c < |n.condStarts|
  {
    if atBol then n.condStarts[c].bol else n.condStarts[c].normal
  }

  // ---------- what the finished NFA promises ----------------------------

  ghost predicate WellFormed(n: Nfa) {
    && (forall p, i :: 0 <= p < |n.states| && 0 <= i < |n.states[p].out| ==> n.states[p].out[i].target < |n.states|)
    && (forall p :: 0 <= p < |n.states| ==> -1 <= n.states[p].accept < |n.ruleEol|)
    && (forall c :: 0 <= c < |n.condStarts| ==> n.condStarts[c].normal < |n.states| && n.condStarts[c].bol < |n.states|)
    && |n.ruleBol| == |n.ruleEol| == |n.ruleTrail| == |n.ruleBoundary|
    && (forall r, i :: 0 <= r < |n.ruleBoundary| && 0 <= i < |n.ruleBoundary[r]| ==> n.ruleBoundary[r][i] < |n.states|)
    && |n.condExcl| == |n.condStarts|
  }

  ghost predicate Accepts(n: Nfa, p: nat, w: Word, r: int) {
    exists q: nat :: q < |n.states| && n.states[q].accept == r && Path(n.states, p, w, q)
  }

  ghost predicate Marked(n: Nfa, p: nat, w: Word, r: nat)
    requires r < |n.ruleBoundary|
  {
    exists q: nat :: q in n.ruleBoundary[r] && Path(n.states, p, w, q)
  }

  ghost predicate KeepsRule(n: Nfa, rule: Rule, c: nat, b: bool, w: Word, r: nat)
    requires c < |n.condStarts| == |n.condExcl| && r < |n.ruleBoundary|
  {
    && (Accepts(n, EntryOf(n, c, b), w, r) <==> Active(rule, n.condExcl, c, b) && w in Meaning(Effective(Body(rule))))
    && (Marked(n, EntryOf(n, c, b), w, r) <==> Active(rule, n.condExcl, c, b) && w in Marks(Effective(Body(rule))))
  }

  /** Entered for a condition, normally or at the beginning of a line, the NFA accepts rule r on w iff r is
      active there and w is a word of its body; and it stands at r's marker on w iff r's body may. */
  ghost predicate NfaFor(n: Nfa, rules: seq<Rule>) {
    && WellFormed(n)
    && |n.ruleEol| == |rules|
    && (forall r :: 0 <= r < |rules| ==> n.ruleEol[r] == Unwrap(rules[r].root).eol && n.ruleTrail[r] == rules[r].trail)
    && (forall c: nat, b: bool, w: Word, r: nat :: c < |n.condStarts| && r < |rules| ==>
      KeepsRule(n, rules[r], c, b, w, r))
  }

  // ---------- how it is laid out -----------------------------------------

  // The states lo..hi of one rule, and its fragment.
  datatype Region = Region(lo: nat, hi: nat, f: Frag)

  ghost predicate RuleAt(n: Nfa, rule: Rule, r: nat, at: Region) {
    && Reads(n.states, at.lo, at.hi, at.f, Meaning(Effective(Body(rule))), Marks(Effective(Body(rule))))
    && 2 * |n.condStarts| <= at.lo && r < |n.ruleBoundary|
    && (forall p :: at.lo <= p < at.hi ==> n.states[p].accept == if p == at.f.e then r else -1)
    && (forall p: nat :: p in n.ruleBoundary[r] <==> at.lo <= p < at.hi && n.states[p].boundary)
  }

  // A start state forks to the entries of the active rules and to nothing else.
  ghost predicate StartAt(n: Nfa, rules: seq<Rule>, at: seq<Region>, c: nat, b: bool)
    requires c < |n.condStarts| == |n.condExcl| && |at| == |rules|
  {
    var p := EntryOf(n, c, b);
    && p < |n.states| && p < 2 * |n.condStarts|
    && n.states[p].accept == -1
    && (forall j :: 0 <= j < |n.states[p].out| ==>
      n.states[p].out[j].on == {} && LeadsToRule(n, rules, at, c, b, n.states[p].out[j].target))
    && (forall r :: 0 <= r < |rules| && Active(rules[r], n.condExcl, c, b) ==> Eps(at[r].f.s) in n.states[p].out)
  }

  ghost predicate LeadsToRule(n: Nfa, rules: seq<Rule>, at: seq<Region>, c: nat, b: bool, target: nat)
    requires c < |n.condExcl| && |at| == |rules|
  {
    exists r :: 0 <= r < |rules| && Active(rules[r], n.condExcl, c, b) && target == at[r].f.s
  }

  ghost predicate Layout(n: Nfa, rules: seq<Rule>, at: seq<Region>) {
    && |rules| == |at| == |n.ruleBol| == |n.ruleEol| == |n.ruleTrail| == |n.ruleBoundary|
    && |n.condStarts| == |n.condExcl|
    && 2 * |n.condStarts| <= |n.states|
    && (forall c :: 0 <= c < |n.condStarts| ==> n.condStarts[c] == CondStart(2 * c, 2 * c + 1))
    && (forall r :: 0 <= r < |rules| ==> n.ruleEol[r] == Unwrap(rules[r].root).eol && n.ruleTrail[r] == rules[r].trail)
    && (forall r :: 0 <= r < |rules| ==> RuleAt(n, rules[r], r, at[r]))
    && (forall c, b :: 0 <= c < |n.condStarts| ==> StartAt(n, rules, at, c, b))
    && (forall p: nat :: 2 * |n.condStarts| <= p < |n.states| ==> Covered(at, p))
  }

  ghost predicate Covered(at: seq<Region>, p: nat) {
    exists r :: 0 <= r < |at| && at[r].lo <= p < at[r].hi
  }

  ghost predicate Disjoint(at: seq<Region>) {
    forall i, j :: 0 <= i < j < |at| ==> at[i].hi <= at[j].lo
  }

  // ---------- from layout to promise -------------------------------------

  lemma LayoutWellFormed(n: Nfa, rules: seq<Rule>, at: seq<Region>)
    requires Layout(n, rules, at)
    ensures WellFormed(n)
  {
    forall p | 0 <= p < |n.states|
      ensures -1 <= n.states[p].accept < |n.ruleEol|
      ensures forall i :: 0 <= i < |n.states[p].out| ==> n.states[p].out[i].target < |n.states|
    {
      if p < 2 * |n.condStarts| {
        var c := p / 2;
        var b := p % 2 == 1;
        assert StartAt(n, rules, at, c, b) && EntryOf(n, c, b) == p;
        forall i | 0 <= i < |n.states[p].out| ensures n.states[p].out[i].target < |n.states| {
          assert LeadsToRule(n, rules, at, c, b, n.states[p].out[i].target);
          var r :| 0 <= r < |rules| && Active(rules[r], n.condExcl, c, b) && n.states[p].out[i].target == at[r].f.s;
          assert RuleAt(n, rules[r], r, at[r]);
        }
      } else {
        assert Covered(at, p);
        var r :| 0 <= r < |at| && at[r].lo <= p < at[r].hi;
        assert RuleAt(n, rules[r], r, at[r]);
      }
    }
    forall r, i | 0 <= r < |n.ruleBoundary| && 0 <= i < |n.ruleBoundary[r]| ensures n.ruleBoundary[r][i] < |n.states| {
      assert RuleAt(n, rules[r], r, at[r]);
      assert n.ruleBoundary[r][i] in n.ruleBoundary[r];
    }
  }

  // A start state reads what the entries of its active rules read.
  lemma StartLeads(n: Nfa, rules: seq<Rule>, at: seq<Region>, c: nat, b: bool, w: Word, q: nat) returns (r: nat)
    requires Layout(n, rules, at) && c < |n.condStarts| && q >= 2 * |n.condStarts|
    requires Path(n.states, EntryOf(n, c, b), w, q)
    ensures r < |rules| && Active(rules[r], n.condExcl, c, b) && Path(n.states, at[r].f.s, w, q)
  {
    var p := EntryOf(n, c, b);
    assert StartAt(n, rules, at, c, b);
    Fork(n.states, p, w, q);
    var j :| 0 <= j < |n.states[p].out| && Path(n.states, n.states[p].out[j].target, w, q);
    assert LeadsToRule(n, rules, at, c, b, n.states[p].out[j].target);
    r :| 0 <= r < |rules| && Active(rules[r], n.condExcl, c, b) && n.states[p].out[j].target == at[r].f.s;
  }

  lemma StartFollows(n: Nfa, rules: seq<Rule>, at: seq<Region>, c: nat, b: bool, w: Word, q: nat, r: nat)
    requires Layout(n, rules, at) && c < |n.condStarts| && q >= 2 * |n.condStarts|
    requires r < |rules| && Active(rules[r], n.condExcl, c, b) && Path(n.states, at[r].f.s, w, q)
    ensures Path(n.states, EntryOf(n, c, b), w, q)
  {
    var p := EntryOf(n, c, b);
    assert StartAt(n, rules, at, c, b);
    var j :| 0 <= j < |n.states[p].out| && n.states[p].out[j] == Eps(at[r].f.s);
    PathEdge(n.states, p, j, w, q);
  }

  // A path from a rule's entry stays in the rule's region, so it never meets another rule's states.
  lemma RuleReads(n: Nfa, rules: seq<Rule>, at: seq<Region>, r: nat, w: Word, q: nat)
    requires Layout(n, rules, at) && r < |rules| && Path(n.states, at[r].f.s, w, q)
    ensures at[r].lo <= q < at[r].hi
  {
    assert RuleAt(n, rules[r], r, at[r]);
    PathLocal(n.states, n.states, at[r].lo, at[r].hi, at[r].f.s, w, q);
  }

  lemma StartsNeverAccept(n: Nfa, rules: seq<Rule>, at: seq<Region>)
    requires Layout(n, rules, at)
    ensures forall q :: 0 <= q < 2 * |n.condStarts| ==> n.states[q].accept == -1
  {
    forall q | 0 <= q < 2 * |n.condStarts| ensures n.states[q].accept == -1 {
      var c, b := q / 2, q % 2 == 1;
      assert StartAt(n, rules, at, c, b) && EntryOf(n, c, b) == q;
    }
  }

  lemma OnlyAcceptor(n: Nfa, rules: seq<Rule>, at: seq<Region>, q: nat, r: nat)
    requires Layout(n, rules, at) && q < |n.states| && n.states[q].accept == r
    ensures r < |rules| && q == at[r].f.e
  {
    StartsNeverAccept(n, rules, at);
    assert Covered(at, q);
    var r' :| 0 <= r' < |at| && at[r'].lo <= q < at[r'].hi;
    assert RuleAt(n, rules[r'], r', at[r']);
  }

  // Only rule r's own fragment leads to a state of r's region.
  lemma StartReadsRule(n: Nfa, rules: seq<Rule>, at: seq<Region>, c: nat, b: bool, w: Word, r: nat, q: nat)
    requires Layout(n, rules, at) && Disjoint(at)
    requires c < |n.condStarts| && r < |rules| && at[r].lo <= q < at[r].hi
    ensures Path(n.states, EntryOf(n, c, b), w, q) <==>
            Active(rules[r], n.condExcl, c, b) && Path(n.states, at[r].f.s, w, q)
  {
    assert RuleAt(n, rules[r], r, at[r]);
    if Path(n.states, EntryOf(n, c, b), w, q) {
      var r' := StartLeads(n, rules, at, c, b, w, q);
      RuleReads(n, rules, at, r', w, q);
      assert r' == r;
    }
    if Active(rules[r], n.condExcl, c, b) && Path(n.states, at[r].f.s, w, q) {
      StartFollows(n, rules, at, c, b, w, q, r);
    }
  }

  lemma RuleAccepts(n: Nfa, rules: seq<Rule>, at: seq<Region>, c: nat, b: bool, w: Word, r: nat)
    requires Layout(n, rules, at) && Disjoint(at) && c < |n.condStarts| && r < |rules|
    ensures Accepts(n, EntryOf(n, c, b), w, r) <==>
            Active(rules[r], n.condExcl, c, b) && w in Meaning(Effective(Body(rules[r])))
  {
    var e := at[r].f.e;
    assert RuleAt(n, rules[r], r, at[r]);
    assert w in PathWords(n.states, at[r].f.s, e) <==> Path(n.states, at[r].f.s, w, e);
    StartReadsRule(n, rules, at, c, b, w, r, e);
    forall q: nat | q < |n.states| && n.states[q].accept == r ensures q == e {
      OnlyAcceptor(n, rules, at, q, r);
    }
  }

  lemma RuleMarks(n: Nfa, rules: seq<Rule>, at: seq<Region>, c: nat, b: bool, w: Word, r: nat)
    requires Layout(n, rules, at) && Disjoint(at) && c < |n.condStarts| && r < |rules|
    ensures Marked(n, EntryOf(n, c, b), w, r) <==>
            Active(rules[r], n.condExcl, c, b) && w in Marks(Effective(Body(rules[r])))
  {
    assert RuleAt(n, rules[r], r, at[r]);
    assert ReadsMark(n.states, at[r].lo, at[r].hi, at[r].f.s, w) <==>
      w in MarkWords(n.states, at[r].lo, at[r].hi, at[r].f.s);
    forall q: nat | q in n.ruleBoundary[r]
      ensures Path(n.states, EntryOf(n, c, b), w, q) <==>
              Active(rules[r], n.condExcl, c, b) && Path(n.states, at[r].f.s, w, q)
    {
      StartReadsRule(n, rules, at, c, b, w, r, q);
    }
  }

  /** Rules do not interfere: a laid-out NFA keeps its promise rule by rule. */
  lemma LayoutKeepsPromise(n: Nfa, rules: seq<Rule>, at: seq<Region>)
    requires Layout(n, rules, at) && Disjoint(at)
    ensures NfaFor(n, rules)
  {
    LayoutWellFormed(n, rules, at);
    forall c: nat, b: bool, w: Word, r: nat | c < |n.condStarts| && r < |rules|
      ensures KeepsRule(n, rules[r], c, b, w, r)
    {
      RuleAccepts(n, rules, at, c, b, w, r);
      RuleMarks(n, rules, at, c, b, w, r);
    }
  }

  /** Appending rules never changes which words an earlier rule accepts, or where it is marked, from any start. */
  lemma LaterRulesDoNotInterfere(n: Nfa, rules: seq<Rule>, n': Nfa, more: seq<Rule>, c: nat, b: bool, w: Word, r: nat)
    requires NfaFor(n, rules) && NfaFor(n', rules + more) && n.condExcl == n'.condExcl
    requires c < |n.condStarts| && r < |rules|
    ensures Accepts(n, EntryOf(n, c, b), w, r) <==> Accepts(n', EntryOf(n', c, b), w, r)
    ensures Marked(n, EntryOf(n, c, b), w, r) <==> Marked(n', EntryOf(n', c, b), w, r)
  {
    assert (rules + more)[r] == rules[r];
    assert KeepsRule(n, rules[r], c, b, w, r) && KeepsRule(n', rules[r], c, b, w, r);
  }

  // ---------- adding a rule ----------------------------------------------

  // A start state gains epsilon edges to entry, at least one iff some.
  ghost predicate Gained(s: State, t: State, entry: nat, some: bool) {
    && t.accept == s.accept && t.boundary == s.boundary
    && s.out <= t.out
    && (forall j :: |s.out| <= j < |t.out| ==> t.out[j] == Eps(entry))
    && (|t.out| > |s.out| <==> some)
  }

  /** connect_to_conds: the start states of the conditions C are linked to entry, from the normal one only if the rule
      has no ^. */
  ghost predicate Linking(S: Graph, T: Graph, nconds: nat, entry: nat, onlyBol: bool, C: set<nat>) {
    && |S| == |T| && 2 * nconds <= |S|
    && (forall p :: 2 * nconds <= p < |S| ==> T[p] == S[p])
    && (forall c: nat :: c < nconds ==> CondGained(S, T, c, entry, onlyBol, C))
  }

  ghost predicate CondGained(S: Graph, T: Graph, c: nat, entry: nat, onlyBol: bool, C: set<nat>)
    requires 2 * c + 1 < |S| == |T|
  {
    && Gained(S[2 * c], T[2 * c], entry, c in C && !onlyBol)
    && Gained(S[2 * c + 1], T[2 * c + 1], entry, c in C)
  }

  /** A state gains edges to entry that read nothing, at least one, and is otherwise as before. */
  ghost predicate LinksTo(s: State, t: State, entry: nat) {
    && t == s.(out := t.out) && s.out < t.out
    && forall j :: |s.out| <= j < |t.out| ==> t.out[j] == Edge(entry, {})
  }

  // The two start states of condition c, when the rule belongs to it or not.
  ghost predicate StartsLinked(S: Graph, T: Graph, cs: CondStart, entry: nat, onlyBol: bool, links: bool)
    requires cs.bol < |S| == |T| && cs.normal < |S|
  {
    && (if links then LinksTo(S[cs.bol], T[cs.bol], entry) else T[cs.bol] == S[cs.bol])
    && (if links && !onlyBol then LinksTo(S[cs.normal], T[cs.normal], entry) else T[cs.normal] == S[cs.normal])
  }

  lemma LinkedStates(S: Graph, T: Graph, excl: seq<bool>, entry: nat, onlyBol: bool, sites: Sites, c: nat)
    requires Linking(S, T, |excl|, entry, onlyBol, LinkedConds(sites, excl)) && c < |excl|
    ensures var links := sites.anyState || c in sites.conds || (sites.conds == [] && (c == 0 || !excl[c]));
            StartsLinked(S, T, CondStart(2 * c, 2 * c + 1), entry, onlyBol, links)
  {
    assert CondGained(S, T, c, entry, onlyBol, LinkedConds(sites, excl));
  }

  lemma LinkingPrefix(S: Graph, T: Graph, nconds: nat, entry: nat, onlyBol: bool, C: set<nat>, m: nat)
    requires Linking(S, T, nconds, entry, onlyBol, C) && 2 * nconds <= m <= |S|
    ensures Linking(S[..m], T[..m], nconds, entry, onlyBol, C)
  {
    forall c: nat | c < nconds ensures CondGained(S[..m], T[..m], c, entry, onlyBol, C) {
      assert CondGained(S, T, c, entry, onlyBol, C);
    }
  }

  function LinkedConds(sites: Sites, excl: seq<bool>): set<nat> {
    set c: nat | c < |excl| && Linked(sites, c, excl)
  }

  // n' is n with one more rule: its fragment at the end, accepting, and linked.
  ghost predicate Extends(n: Nfa, n': Nfa, rule: Rule, at: Region) {
    var r, S, T, u := |n.ruleEol|, n.states, n'.states, Unwrap(rule.root);
    && n'.condStarts == n.condStarts && n'.condExcl == n.condExcl
    && n'.ruleBol == n.ruleBol + [u.bol] && n'.ruleEol == n.ruleEol + [u.eol]
      && n'.ruleTrail == n.ruleTrail + [rule.trail]
    && |n'.ruleBoundary| == r + 1 && n'.ruleBoundary[..r] == n.ruleBoundary
    && |S| == at.lo < at.hi == |T|
    && Reads(T, at.lo, at.hi, at.f, Meaning(Effective(u.body)), Marks(Effective(u.body)))
    && (forall p :: at.lo <= p < at.hi ==> T[p].accept == if p == at.f.e then r else -1)
    && (forall p: nat :: p in n'.ruleBoundary[r] <==> at.lo <= p < at.hi && T[p].boundary)
    && Linking(S, T[..|S|], |n.condStarts|, at.f.s, u.bol, LinkedConds(rule.sites, n.condExcl))
  }

  lemma OldRuleKept(n: Nfa, n': Nfa, rule: Rule, at: seq<Region>, rules: seq<Rule>, here: Region, r: nat)
    requires Layout(n, rules, at) && Extends(n, n', rule, here) && r < |rules|
    ensures RuleAt(n', rules[r], r, at[r])
  {
    assert RuleAt(n, rules[r], r, at[r]);
    assert n'.ruleBoundary[r] == n'.ruleBoundary[..|rules|][r];
    forall p | at[r].lo <= p < at[r].hi ensures n'.states[p] == n.states[p] {
      assert n'.states[p] == n'.states[..|n.states|][p];
    }
    ReadsLocal(n.states, n'.states, at[r].lo, at[r].hi, at[r].f, Meaning(Effective(Body(rules[r]))),
      Marks(Effective(Body(rules[r]))));
  }

  lemma StartKept(n: Nfa, n': Nfa, rule: Rule, at: seq<Region>, rules: seq<Rule>, here: Region, c: nat, b: bool)
    requires Layout(n, rules, at) && Extends(n, n', rule, here) && c < |n.condStarts|
    ensures StartAt(n', rules + [rule], at + [here], c, b)
  {
    assert StartAt(n, rules, at, c, b);
    var p := EntryOf(n, c, b);
    var T := n'.states[..|n.states|];
    assert CondGained(n.states, T, c, here.f.s, Unwrap(rule.root).bol, LinkedConds(rule.sites, n.condExcl));
    assert p == if b then 2 * c + 1 else 2 * c;
    assert Gained(n.states[p], T[p], here.f.s, Active(rule, n.condExcl, c, b));
    assert T[p] == n'.states[p];
    var rules', at' := rules + [rule], at + [here];
    forall j | 0 <= j < |T[p].out|
      ensures T[p].out[j].on == {} && LeadsToRule(n', rules', at', c, b, T[p].out[j].target)
    {
      if j < |n.states[p].out| {
        assert LeadsToRule(n, rules, at, c, b, n.states[p].out[j].target);
        var r :| 0 <= r < |rules| && Active(rules[r], n.condExcl, c, b) && n.states[p].out[j].target == at[r].f.s;
        assert rules'[r] == rules[r] && at'[r] == at[r];
      } else {
        assert rules'[|rules|] == rule && at'[|rules|] == here;
      }
    }
    forall r | 0 <= r < |rules'| && Active(rules'[r], n.condExcl, c, b) ensures Eps(at'[r].f.s) in T[p].out {
      if r < |rules| {
        assert Eps(at[r].f.s) in n.states[p].out;
      } else {
        assert T[p].out[|n.states[p].out|] == Eps(here.f.s);
      }
    }
  }

  lemma ExtendLayout(n: Nfa, n': Nfa, rule: Rule, at: seq<Region>, rules: seq<Rule>, here: Region)
    requires Layout(n, rules, at) && Disjoint(at) && Extends(n, n', rule, here)
    ensures Layout(n', rules + [rule], at + [here]) && Disjoint(at + [here])
  {
    var rules', at' := rules + [rule], at + [here];
    forall r | 0 <= r < |rules'| ensures RuleAt(n', rules'[r], r, at'[r]) {
      if r < |rules| { OldRuleKept(n, n', rule, at, rules, here, r); }
    }
    forall c, b | 0 <= c < |n.condStarts| ensures StartAt(n', rules', at', c, b) {
      StartKept(n, n', rule, at, rules, here, c, b);
    }
    forall p: nat | 2 * |n.condStarts| <= p < |n'.states| ensures Covered(at', p) {
      if p < |n.states| {
        assert Covered(at, p);
        var r :| 0 <= r < |at| && at[r].lo <= p < at[r].hi;
        assert at'[r].lo <= p < at'[r].hi;
      } else {
        assert at'[|at|].lo <= p < at'[|at|].hi;
      }
    }
    forall i | 0 <= i < |at| ensures at[i].hi <= here.lo {
      assert RuleAt(n, rules[i], i, at[i]);
    }
  }
}
