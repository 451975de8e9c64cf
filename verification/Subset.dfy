// Subset construction (src/dfa.cpp: accept_for, class_reps, build_dfa).

module Subset {
  import opened Bytes
  import opened NfaGraph
  import opened SortedSets
  import opened Closure
  import opened RuleNfa
  import opened Eclass

  datatype DState = DState(next: seq<int>, acceptNormal: int, acceptEol: int, acceptList: seq<nat>,
    boundaryRules: seq<nat>)
  datatype DStart = DStart(normal: int, bol: int)
  datatype Dfa = Dfa(states: seq<DState>, condStarts: seq<DStart>, eclasses: Eclasses)

  // ---------- accepting rules of a set -----------------------------------

  ghost predicate AcceptsIn(n: Nfa, set': seq<nat>, r: int) {
    exists q: nat :: q in set' && q < |n.states| && n.states[q].accept == r
  }

  ghost predicate MarksIn(n: Nfa, set': seq<nat>, r: nat) {
    exists q: nat :: r < |n.ruleBoundary| && q in n.ruleBoundary[r] && q in set'
  }

  // slot is the first rule of the sorted list whose $ flag is eol, or -1.
  ghost predicate IsFirst(n: Nfa, list: seq<nat>, eol: bool, slot: int) {
    if slot < 0 then slot == -1 && forall r :: r in list && r < |n.ruleEol| ==> n.ruleEol[r] != eol
    else slot in list && slot < |n.ruleEol| && n.ruleEol[slot] == eol
         && forall r :: r in list && r < |n.ruleEol| && n.ruleEol[r] == eol ==> slot <= r
  }

  /** The accept information of a state describes exactly the rules accepting, or marked, in its set. */
  ghost predicate AcceptInfo(n: Nfa, set': seq<nat>, s: DState) {
    && Sorted(s.acceptList) && (forall r: nat {:trigger AcceptsIn(n, set', r)} :: r in s.acceptList <==>
      AcceptsIn(n, set', r))
    && IsFirst(n, s.acceptList, false, s.acceptNormal)
    && IsFirst(n, s.acceptList, true, s.acceptEol)
    && Sorted(s.boundaryRules) && (forall r: nat {:trigger MarksIn(n, set', r)} :: r in s.boundaryRules <==>
      MarksIn(n, set', r))
  }

  method AcceptList(n: Nfa, set': seq<nat>) returns (rules: seq<nat>)
    requires WellFormed(n) && InRange(n.states, set')
    ensures Sorted(rules) && forall r: nat :: r in rules <==> AcceptsIn(n, set', r)
  {
    rules := [];
    var i := 0;
    while i < |set'|
      invariant i <= |set'|
      invariant forall r: nat :: r in rules <==> AcceptsIn(n, set'[..i], r)
    {
      assert set'[i] in set' && set'[..i + 1] == set'[..i] + [set'[i]];
      var r := n.states[set'[i]].accept;
      if r >= 0 { rules := rules + [r]; }
      i := i + 1;
    }
    assert set'[..i] == set';
    rules := SortUnique(rules);
  }

  // The two accept slots, filled in one pass.
  method AcceptSlots(n: Nfa, rules: seq<nat>) returns (normal: int, eol: int)
    requires WellFormed(n) && forall r :: r in rules ==> r < |n.ruleEol|
    ensures IsFirst(n, rules, false, normal) && IsFirst(n, rules, true, eol)
  {
    normal, eol := -1, -1;
    var i := 0;
    while i < |rules|
      invariant i <= |rules|
      invariant IsFirst(n, rules[..i], false, normal) && IsFirst(n, rules[..i], true, eol)
    {
      var r := rules[i];
      assert r in rules && rules[..i + 1] == rules[..i] + [r];
      if n.ruleEol[r] {
        if eol < 0 || r < eol { eol := r; }
      } else {
        if normal < 0 || r < normal { normal := r; }
      }
      i := i + 1;
    }
    assert rules[..i] == rules;
  }

  method BoundaryList(n: Nfa, set': seq<nat>) returns (rules: seq<nat>)
    requires WellFormed(n)
    ensures Sorted(rules) && forall r: nat :: r in rules <==> MarksIn(n, set', r)
  {
    rules := [];
    var r := 0;
    while r < |n.ruleBoundary|
      invariant r <= |n.ruleBoundary|
      invariant Sorted(rules) && forall x: nat :: x in rules <==> x < r && MarksIn(n, set', x)
    {
      var markers := n.ruleBoundary[r];
      var j := 0;
      while j < |markers| && markers[j] !in set'
        invariant j <= |markers| && forall i :: 0 <= i < j ==> markers[i] !in set'
      {
        j := j + 1;
      }
      if j < |markers| { assert markers[j] in markers; }
      assert MarksIn(n, set', r) <==> j < |markers|;
      if j < |markers| {
        assert forall i :: 0 <= i < |rules| ==> rules[i] in rules;
        rules := rules + [r];
      }
      r := r + 1;
    }
  }

  method AcceptFor(n: Nfa, set': seq<nat>, nclasses: nat) returns (s: DState)
    requires WellFormed(n) && InRange(n.states, set')
    ensures AcceptInfo(n, set', s) && s.next == seq(nclasses, _ => -1)
  {
    var list := AcceptList(n, set');
    forall r | r in list ensures r < |n.ruleEol| {
      var q: nat :| q in set' && q < |n.states| && n.states[q].accept == r;
    }
    var normal, eol := AcceptSlots(n, list);
    var boundary := BoundaryList(n, set');
    s := DState(seq(nclasses, _ => -1), normal, eol, list, boundary);
  }

  // ---------- class representatives ---------------------------------------

  // The first byte of each class.
  method ClassReps(e: Eclasses) returns (reps: seq<nat>)
    requires Onto(e.ec, e.nclasses)
    ensures |reps| == e.nclasses && forall c :: 0 <= c < |reps| ==> reps[c] < 256 && e.ec[reps[c]] == c
    ensures forall c, b :: 0 <= c < |reps| && 0 <= b < reps[c] ==> e.ec[b] != c
  {
    reps := seq(e.nclasses, _ => 256);
    var b: nat := 0;
    while b < 256
      invariant b <= 256 && |reps| == e.nclasses
      invariant forall c :: 0 <= c < |reps| ==> reps[c] == 256 || (reps[c] < 256 && e.ec[reps[c]] == c)
      invariant forall a :: 0 <= a < b ==> reps[e.ec[a]] <= a
      invariant forall c :: 0 <= c < |reps| ==> reps[c] == 256 || reps[c] < b
      invariant forall c, a :: 0 <= c < |reps| && 0 <= a < b && a < reps[c] ==> e.ec[a] != c
    {
      var c := e.ec[b];
      if reps[c] == 256 { reps := reps[c := b]; }
      b := b + 1;
    }
    forall c | 0 <= c < |reps| ensures reps[c] < 256 {
      assert Has(e.ec, c);
    }
  }

  // ---------- the set of all subsets, for termination ---------------------

  function AllExtended(sets: set<seq<nat>>, x: nat): set<seq<nat>> {
    set s | s in sets :: s + [x]
  }

  function Subsets(m: nat): set<seq<nat>> {
    if m == 0 then {[]} else Subsets(m - 1) + AllExtended(Subsets(m - 1), m - 1)
  }

  lemma InExtended(s: seq<nat>, sets: set<seq<nat>>, x: nat)
    requires s != [] && s[..|s| - 1] in sets && s[|s| - 1] == x
    ensures s in AllExtended(sets, x)
  {
    assert s == s[..|s| - 1] + [x];
  }

  lemma {:induction false} InSubsets(s: seq<nat>, m: nat)
    requires Sorted(s) && forall i :: 0 <= i < |s| ==> s[i] < m
    ensures s in Subsets(m)
  {
    assert s != [] ==> s[0] < m;
    if m > 0 {
      var last := |s| - 1;
      if s != [] && s[last] == m - 1 {
        InSubsets(s[..last], m - 1);
        InExtended(s, Subsets(m - 1), m - 1);
      } else {
        assert forall i :: 0 <= i < last ==> s[i] < s[last];
        InSubsets(s, m - 1);
      }
    }
  }

  // ---------- the finished DFA --------------------------------------------

  // The set that a transition leads to; -1 is the empty set.
  function SetAt(sets: seq<seq<nat>>, id: int): seq<nat> {
    if 1 <= id <= |sets| then sets[id - 1] else []
  }

  // Each id but the dead state 0 stands for a nonempty set, and the dead state 0 goes nowhere.
  ghost predicate Indexed(n: Nfa, states: seq<DState>, sets: seq<seq<nat>>, nclasses: nat) {
    && |states| == |sets| + 1
    && (forall i :: 0 <= i < |sets| ==>
      sets[i] != [] && Sorted(sets[i]) && InRange(n.states, sets[i]) && AcceptInfo(n, sets[i], states[i + 1]))
    && (forall id, c :: 0 <= id < |states| && 0 <= c < |states[id].next| ==>
      states[id].next[c] == -1 || 1 <= states[id].next[c] < |states|)
    && (forall id :: 0 <= id < |states| ==> |states[id].next| == nclasses)
    && states[0] == DState(seq(nclasses, _ => -1), -1, -1, [], [])
  }

  lemma IndexedSnoc(n: Nfa, states: seq<DState>, sets: seq<seq<nat>>, nclasses: nat, s: DState, set': seq<nat>)
    requires Indexed(n, states, sets, nclasses)
    requires set' != [] && Sorted(set') && InRange(n.states, set') && AcceptInfo(n, set', s)
             && s.next == seq(nclasses, _ => -1)
    ensures Indexed(n, states + [s], sets + [set'], nclasses)
  {
    var states', sets' := states + [s], sets + [set'];
    forall i | 0 <= i < |sets'|
      ensures sets'[i] != [] && Sorted(sets'[i]) && InRange(n.states, sets'[i])
              && AcceptInfo(n, sets'[i], states'[i + 1])
    {
      if i < |sets| { assert sets'[i] == sets[i] && states'[i + 1] == states[i + 1]; }
    }
    forall id, c | 0 <= id < |states'| && 0 <= c < |states'[id].next|
      ensures states'[id].next[c] == -1 || 1 <= states'[id].next[c] < |states'|
    {
      if id < |states| { assert states'[id] == states[id]; }
    }
  }

  /** sets[id-1] is the set of NFA states that DFA state id stands for. */
  ghost predicate DfaFor(n: Nfa, d: Dfa, sets: seq<seq<nat>>) {
    && Respects(n.states, d.eclasses)
    && Indexed(n, d.states, sets, d.eclasses.nclasses)
    && (forall id, b: byte :: 1 <= id < |d.states| ==>
      IsStep(n.states, sets[id - 1], b, SetAt(sets, d.states[id].next[d.eclasses.ec[b]])))
    && |d.condStarts| == |n.condStarts|
    && (forall c, b: bool :: 0 <= c < |d.condStarts| ==> StartsAt(n, d, sets, c, b))
  }

  function StartOf(d: Dfa, c: nat, atBol: bool): int
    requires c < |d.condStarts|
  {
    if atBol then d.condStarts[c].bol else d.condStarts[c].normal
  }

  ghost predicate StandsFor(n: Nfa, sets: seq<seq<nat>>, id: int, entry: nat) {
    1 <= id <= |sets| && IsReach(n.states, entry, [], sets[id - 1])
  }

  ghost predicate Started(n: Nfa, sets: seq<seq<nat>>, starts: seq<DStart>, c: nat)
    requires c < |starts| <= |n.condStarts|
  {
    StandsFor(n, sets, starts[c].normal, n.condStarts[c].normal)
      && StandsFor(n, sets, starts[c].bol, n.condStarts[c].bol)
  }

  lemma StandsForStill(n: Nfa, sets: seq<seq<nat>>, sets': seq<seq<nat>>, id: int, entry: nat)
    requires StandsFor(n, sets, id, entry) && sets <= sets'
    ensures StandsFor(n, sets', id, entry)
  {
    assert sets'[id - 1] == sets[id - 1];
  }

  lemma StartedStill(n: Nfa, sets: seq<seq<nat>>, sets': seq<seq<nat>>, starts: seq<DStart>, s: DStart)
    requires |starts| < |n.condStarts| && sets <= sets'
    requires forall c :: 0 <= c < |starts| ==> Started(n, sets, starts, c)
    requires StandsFor(n, sets', s.normal, n.condStarts[|starts|].normal)
             && StandsFor(n, sets', s.bol, n.condStarts[|starts|].bol)
    ensures forall c :: 0 <= c < |starts| + 1 ==> Started(n, sets', starts + [s], c)
  {
    forall c | 0 <= c < |starts| ensures Started(n, sets', starts + [s], c) {
      assert Started(n, sets, starts, c);
      StandsForStill(n, sets, sets', starts[c].normal, n.condStarts[c].normal);
      StandsForStill(n, sets, sets', starts[c].bol, n.condStarts[c].bol);
    }
  }

  ghost predicate StartsAt(n: Nfa, d: Dfa, sets: seq<seq<nat>>, c: nat, b: bool)
    requires c < |d.condStarts| == |n.condStarts|
  {
    StandsFor(n, sets, StartOf(d, c, b), EntryOf(n, c, b))
  }

  // ---------- construction ------------------------------------------------

  // Row id has the right entry for class c.
  ghost predicate RowOk(n: Nfa, states: seq<DState>, sets: seq<seq<nat>>, reps: seq<nat>, id: nat, c: nat)
    requires 1 <= id < |states| && |states| == |sets| + 1 && c < |states[id].next| && c < |reps| && reps[c] < 256
  {
    IsStep(n.states, sets[id - 1], reps[c], SetAt(sets, states[id].next[c]))
  }

  ghost predicate Reps(reps: seq<nat>) {
    forall c :: 0 <= c < |reps| ==> reps[c] < 256
  }

  // Every entry is right or still -1; the first `upTo` entries of row `now`, and all entries of the rows
  // that are not on the queue, are right.
  ghost predicate Filled(n: Nfa, states: seq<DState>, sets: seq<seq<nat>>, reps: seq<nat>, work: seq<nat>, now: nat,
      upTo: nat)
    requires Indexed(n, states, sets, |reps|) && Reps(reps)
  {
    && (forall id :: id in work ==> 1 <= id < |states|)
    && (forall id: nat, c: nat :: 1 <= id < |states| && c < |reps| ==>
      states[id].next[c] == -1 || RowOk(n, states, sets, reps, id, c))
    && (forall id: nat, c: nat ::
          1 <= id < |states| && c < |reps| && (if id == now then c < upTo else id !in work) ==>
          RowOk(n, states, sets, reps, id, c))
  }

  // Nothing was discovered and the queue is as it was, or a new set was indexed.
  ghost predicate Advances(keys: set<seq<nat>>, work: seq<nat>, keys': set<seq<nat>>, work': seq<nat>) {
    (keys' == keys && work' == work) || keys < keys'
  }

  // The hash index of build_dfa: from a set to its id.
  ghost predicate Keyed(index: map<seq<nat>, nat>, sets: seq<seq<nat>>) {
    && (forall i :: 0 <= i < |sets| ==> sets[i] in index && index[sets[i]] == i + 1)
    && (forall s :: s in index ==> 1 <= index[s] <= |sets| && sets[index[s] - 1] == s)
  }

  lemma KeyedSnoc(index: map<seq<nat>, nat>, sets: seq<seq<nat>>, s: seq<nat>)
    requires Keyed(index, sets) && s !in index
    ensures Keyed(index[s := |sets| + 1], sets + [s])
  {
  }

  lemma RowKept(n: Nfa, states: seq<DState>, sets: seq<seq<nat>>, reps: seq<nat>, states': seq<DState>,
      sets': seq<seq<nat>>, id: nat, c: nat)
    requires Indexed(n, states, sets, |reps|) && Indexed(n, states', sets', |reps|) && Reps(reps)
    requires states <= states' && sets <= sets' && 1 <= id < |states| && c < |reps|
    ensures states'[id] == states[id]
    ensures RowOk(n, states', sets', reps, id, c) <==> RowOk(n, states, sets, reps, id, c)
  {
    assert states'[id] == states[id] && sets'[id - 1] == sets[id - 1];
    assert states[id].next[c] == -1 || 1 <= states[id].next[c] < |states|;
    assert SetAt(sets', states[id].next[c]) == SetAt(sets, states[id].next[c]);
  }

  // One entry, when the set of the next id is indexed and queued.
  lemma EntryGrow(n: Nfa, states: seq<DState>, sets: seq<seq<nat>>, reps: seq<nat>, work: seq<nat>, now: nat, upTo: nat,
                  states': seq<DState>, sets': seq<seq<nat>>, id: nat, c: nat)
    requires Indexed(n, states, sets, |reps|) && Indexed(n, states', sets', |reps|) && Reps(reps)
    requires Filled(n, states, sets, reps, work, now, upTo)
    requires |states'| == |states| + 1 && states <= states' && sets <= sets'
    requires states'[|states|].next == seq(|reps|, _ => -1)
    requires 1 <= id < |states'| && c < |reps|
    ensures states'[id].next[c] == -1 || RowOk(n, states', sets', reps, id, c)
    ensures id < |states| && (if id == now then c < upTo else id !in work) ==> RowOk(n, states', sets', reps, id, c)
  {
    if id < |states| { RowKept(n, states, sets, reps, states', sets', id, c); }
  }

  lemma FilledGrow(n: Nfa, states: seq<DState>, sets: seq<seq<nat>>, reps: seq<nat>, work: seq<nat>, now: nat,
                   upTo: nat, states': seq<DState>, sets': seq<seq<nat>>)
    requires Indexed(n, states, sets, |reps|) && Indexed(n, states', sets', |reps|) && Reps(reps)
    requires Filled(n, states, sets, reps, work, now, upTo) && now < |states|
    requires |states'| == |states| + 1 && states <= states' && sets <= sets'
    requires states'[|states|].next == seq(|reps|, _ => -1)
    ensures Filled(n, states', sets', reps, work + [|states|], now, upTo)
  {
    var work' := work + [|states|];
    assert |states| in work' && forall id :: id in work ==> id in work';
    forall id: nat, c: nat | 1 <= id < |states'| && c < |reps|
      ensures states'[id].next[c] == -1 || RowOk(n, states', sets', reps, id, c)
      ensures (if id == now then c < upTo else id !in work') ==> RowOk(n, states', sets', reps, id, c)
    {
      EntryGrow(n, states, sets, reps, work, now, upTo, states', sets', id, c);
    }
  }

  function SetNext(states: seq<DState>, id: nat, c: nat, target: int): seq<DState>
    requires id < |states| && c < |states[id].next|
  {
    states[id := states[id].(next := states[id].next[c := target])]
  }

  lemma FilledSet(n: Nfa, states: seq<DState>, sets: seq<seq<nat>>, reps: seq<nat>, work: seq<nat>, now: nat, c: nat,
      target: nat)
    requires Indexed(n, states, sets, |reps|) && Reps(reps)
    requires 1 <= now < |states| && c < |reps| && 1 <= target < |states|
    requires Filled(n, states, sets, reps, work, now, c)
    requires IsStep(n.states, sets[now - 1], reps[c], sets[target - 1])
    ensures Indexed(n, SetNext(states, now, c, target), sets, |reps|)
    ensures Filled(n, SetNext(states, now, c, target), sets, reps, work, now, c + 1)
  {
    var after := SetNext(states, now, c, target);
    IndexedSet(n, states, sets, |reps|, now, c, target);
    assert RowOk(n, after, sets, reps, now, c);
    forall id: nat, d: nat | 1 <= id < |after| && d < |reps| && (id != now || d != c)
      ensures after[id].next[d] == states[id].next[d]
      ensures RowOk(n, after, sets, reps, id, d) <==> RowOk(n, states, sets, reps, id, d)
    {
    }
  }

  // Taking the head off the queue opens its row; a finished row need not be queued.
  lemma Pop(n: Nfa, states: seq<DState>, sets: seq<seq<nat>>, reps: seq<nat>, work: seq<nat>)
    requires Indexed(n, states, sets, |reps|) && Reps(reps) && work != []
    requires Filled(n, states, sets, reps, work, 0, 0)
    ensures 1 <= work[0] < |states| && Filled(n, states, sets, reps, work[1..], work[0], 0)
  {
    assert work[0] in work && forall id :: id in work <==> id == work[0] || id in work[1..];
  }

  // A finished row counts like any other.
  lemma RowDone(n: Nfa, states: seq<DState>, sets: seq<seq<nat>>, reps: seq<nat>, work: seq<nat>, now: nat)
    requires Indexed(n, states, sets, |reps|) && Reps(reps)
    requires Filled(n, states, sets, reps, work, now, |reps|)
    ensures Filled(n, states, sets, reps, work, 0, 0)
  {
  }

  lemma FewerLeft(all: set<seq<nat>>, keys: set<seq<nat>>, keys': set<seq<nat>>)
    requires keys <= keys' <= all
    ensures if keys == keys' then all - keys' == all - keys else all - keys' < all - keys
  {
    if keys != keys' {
      var s :| s in keys' && s !in keys;
      assert s in all - keys && s !in all - keys';
    }
  }

  lemma FilledQueue(n: Nfa, states: seq<DState>, sets: seq<seq<nat>>, reps: seq<nat>, work: seq<nat>, id: nat)
    requires Indexed(n, states, sets, |reps|) && Reps(reps) && 1 <= id < |states|
    requires Filled(n, states, sets, reps, work, 0, 0)
    ensures Filled(n, states, sets, reps, work + [id], 0, 0)
  {
  }

  lemma KeysBounded(n: Nfa, states: seq<DState>, sets: seq<seq<nat>>, nclasses: nat, index: map<seq<nat>, nat>)
    requires Indexed(n, states, sets, nclasses) && Keyed(index, sets)
    ensures index.Keys <= Subsets(|n.states|)
  {
    forall s | s in index ensures s in Subsets(|n.states|) {
      assert sets[index[s] - 1] == s;
      assert forall i :: 0 <= i < |s| ==> s[i] in s;
      InSubsets(s, |n.states|);
    }
  }

  lemma EmptyStep(n: Nfa, states: seq<DState>, sets: seq<seq<nat>>, reps: seq<nat>, work: seq<nat>, now: nat, c: nat)
    requires Indexed(n, states, sets, |reps|) && Reps(reps) && 1 <= now < |states| && c < |reps|
    requires Filled(n, states, sets, reps, work, now, c)
    requires IsStep(n.states, sets[now - 1], reps[c], [])
    ensures Filled(n, states, sets, reps, work, now, c + 1)
  {
    assert RowOk(n, states, sets, reps, now, c);
  }

  lemma IndexedSet(n: Nfa, states: seq<DState>, sets: seq<seq<nat>>, nclasses: nat, now: nat, c: nat, target: nat)
    requires Indexed(n, states, sets, nclasses) && 1 <= now < |states| && c < nclasses && 1 <= target < |states|
    ensures Indexed(n, SetNext(states, now, c, target), sets, nclasses)
  {
    var after := SetNext(states, now, c, target);
    forall i | 0 <= i < |sets| ensures AcceptInfo(n, sets[i], after[i + 1]) {
      assert AcceptInfo(n, sets[i], states[i + 1]);
    }
    forall id, d | 0 <= id < |after| && 0 <= d < |after[id].next|
      ensures after[id].next[d] == -1 || 1 <= after[id].next[d] < |after|
    {
      assert states[id].next[d] == -1 || 1 <= states[id].next[d] < |states|;
    }
  }

  lemma KeyedInjective(index: map<seq<nat>, nat>, sets: seq<seq<nat>>)
    requires Keyed(index, sets)
    ensures forall i, j :: 0 <= i < j < |sets| ==> sets[i] != sets[j]
  {
    forall i, j | 0 <= i < j < |sets| ensures sets[i] != sets[j] {
      assert index[sets[i]] != index[sets[j]];
    }
  }

  class Construction {
    const n: Nfa
    const reps: seq<nat>
    var states: seq<DState>
    var index: map<seq<nat>, nat>
    var sets: seq<seq<nat>>      // id_to_set
    var work: seq<nat>

    ghost predicate Valid()
      reads this
    {
      && WellFormed(n) && Reps(reps)
      && Indexed(n, states, sets, |reps|)
      && Keyed(index, sets)
    }

    constructor (n: Nfa, reps: seq<nat>)
      requires WellFormed(n) && Reps(reps)
      ensures Valid() && this.n == n && this.reps == reps && sets == [] && work == []
    {
      this.n, this.reps := n, reps;
      states := [DState(seq(|reps|, _ => -1), -1, -1, [], [])];
      index, sets, work := map[], [], [];
    }

    // A set not met before gets the next id, and a row that goes nowhere yet.
    method NewState(set': seq<nat>) returns (id: nat)
      requires Valid() && set' != [] && Sorted(set') && InRange(n.states, set') && set' !in index
      modifies `states, `index, `sets
      ensures Valid() && index == old(index)[set' := id]
      ensures sets == old(sets) + [set'] && id == |sets| && |states| == id + 1
      ensures states[..id] == old(states) && states[id].next == seq(|reps|, _ => -1)
    {
      id := |states|;
      var s := AcceptFor(n, set', |reps|);
      KeyedSnoc(index, sets, set');
      IndexedSnoc(n, states, sets, |reps|, s, set');
      states := states + [s];
      sets := sets + [set'];
      index := index[set' := id];
    }

    // get_state: the id of a set, new or old.
    method GetState(set': seq<nat>) returns (id: nat)
      requires Valid() && set' != [] && Sorted(set') && InRange(n.states, set')
      modifies `states, `index, `sets
      ensures Valid() && 1 <= id <= |sets| && sets[id - 1] == set'
      ensures set' in old(index) ==> states == old(states) && index == old(index) && sets == old(sets)
      ensures set' !in old(index) ==>
                && sets == old(sets) + [set'] && id == |sets|
                && states[..id] == old(states) && states[id].next == seq(|reps|, _ => -1)
                && index.Keys == old(index).Keys + {set'}
    {
      if set' in index {
        id := index[set'];
      } else {
        id := NewState(set');
      }
    }

    ghost predicate Progress(now: nat, upTo: nat)
      reads this
    {
      Valid() && now < |states| && Filled(n, states, sets, reps, work, now, upTo)
    }

    // The state for a set reached, queued if it is new.
    method Target(t: seq<nat>, ghost now: nat, ghost upTo: nat) returns (id: nat)
      requires Progress(now, upTo) && t != [] && Sorted(t) && InRange(n.states, t)
      modifies `states, `index, `sets, `work
      ensures Progress(now, upTo) && 1 <= id < |states| && sets[id - 1] == t
      ensures Advances(old(index.Keys), old(work), index.Keys, work)
      ensures old(sets) <= sets
    {
      if t in index {
        id := index[t];
      } else {
        ghost var states0, sets0 := states, sets;
        id := GetState(t);
        FilledGrow(n, states0, sets0, reps, work, now, upTo, states, sets);
        work := work + [id];
        assert t in index.Keys && t !in old(index).Keys;
      }
    }

    // The body of build_dfa's inner loop.
    method ExpandClass(now: nat, c: nat)
      requires Progress(now, c) && 1 <= now && c < |reps|
      modifies `states, `index, `sets, `work
      ensures Progress(now, c + 1)
      ensures Advances(old(index.Keys), old(work), index.Keys, work)
      ensures old(sets) <= sets
    {
      var t := Step(n.states, sets[now - 1], reps[c]);
      if t == [] {
        EmptyStep(n, states, sets, reps, work, now, c);
      } else {
        var target := Target(t, now, c);
        SetEntry(now, c, target);
      }
    }

    method SetEntry(now: nat, c: nat, target: nat)
      requires Progress(now, c) && 1 <= now && c < |reps| && 1 <= target < |states|
      requires IsStep(n.states, sets[now - 1], reps[c], sets[target - 1])
      modifies `states
      ensures Progress(now, c + 1)
    {
      FilledSet(n, states, sets, reps, work, now, c, target);
      states := SetNext(states, now, c, target);
    }

    method Expand(now: nat)
      requires Progress(now, 0) && 1 <= now
      modifies `states, `index, `sets, `work
      ensures Progress(now, |reps|)
      ensures Advances(old(index.Keys), old(work), index.Keys, work)
      ensures old(sets) <= sets
    {
      var c := 0;
      while c < |reps|
        invariant c <= |reps| && Progress(now, c)
        invariant Advances(old(index.Keys), old(work), index.Keys, work)
        invariant old(sets) <= sets
      {
        ExpandClass(now, c);
        c := c + 1;
      }
    }

    // One turn of the worklist.
    method ExpandHead()
      requires Progress(0, 0) && work != []
      modifies `states, `index, `sets, `work
      ensures Progress(0, 0) && old(sets) <= sets
      ensures var before, after := Subsets(|n.states|) - old(index.Keys), Subsets(|n.states|) - index.Keys;
              after < before || (after == before && |work| < |old(work)|)
    {
      var now := work[0];
      Pop(n, states, sets, reps, work);
      work := work[1..];
      Expand(now);
      KeysBounded(n, states, sets, |reps|, index);
      FewerLeft(Subsets(|n.states|), old(index.Keys), index.Keys);
      RowDone(n, states, sets, reps, work, now);
    }

    /** The worklist: it ends, since either a new subset is indexed or the queue gets shorter. */
    method Drain()
      requires Progress(0, 0)
      modifies `states, `index, `sets, `work
      ensures Progress(0, 0) && work == [] && old(sets) <= sets
    {
      while work != []
        invariant Progress(0, 0) && old(sets) <= sets
        decreases Subsets(|n.states|) - index.Keys, |work|
      {
        ExpandHead();
      }
    }

    method StartSet(entry: nat) returns (t: seq<nat>)
      requires Targeted(n.states) && entry < |n.states|
      ensures t != [] && IsReach(n.states, entry, [], t)
    {
      t := EpsClosure(n.states, [entry]);
      ClosureIsReach(n.states, entry, t);
    }

    // Queue the state of a set, which may have been seen before.
    method Enqueue(t: seq<nat>) returns (id: nat)
      requires Progress(0, 0) && t != [] && Sorted(t) && InRange(n.states, t)
      modifies `states, `index, `sets, `work
      ensures Progress(0, 0) && old(sets) <= sets
      ensures 1 <= id <= |sets| && sets[id - 1] == t
    {
      ghost var states0, sets0, seen := states, sets, t in index;
      id := GetState(t);
      if seen {
        FilledQueue(n, states, sets, reps, work, id);
      } else {
        FilledGrow(n, states0, sets0, reps, work, 0, 0, states, sets);
      }
      work := work + [id];
    }

    // Seeds with the closure of a start state.
    method Seed(entry: nat) returns (id: nat)
      requires Progress(0, 0) && entry < |n.states|
      modifies `states, `index, `sets, `work
      ensures Progress(0, 0) && old(sets) <= sets
      ensures StandsFor(n, sets, id, entry)
    {
      var t := StartSet(entry);
      id := Enqueue(t);
    }

    /** build_dfa's seeding loop: two start sets per condition. */
    method SeedAll() returns (starts: seq<DStart>)
      requires Progress(0, 0)
      modifies `states, `index, `sets, `work
      ensures Progress(0, 0) && |starts| == |n.condStarts|
      ensures forall c :: 0 <= c < |starts| ==> Started(n, sets, starts, c)
    {
      starts := [];
      while |starts| < |n.condStarts|
        invariant Progress(0, 0) && |starts| <= |n.condStarts|
        invariant forall c :: 0 <= c < |starts| ==> Started(n, sets, starts, c)
      {
        var c := |starts|;
        ghost var sets0 := sets;
        var normal := Seed(n.condStarts[c].normal);
        ghost var sets1 := sets;
        var bol := Seed(n.condStarts[c].bol);
        StandsForStill(n, sets1, sets, normal, n.condStarts[c].normal);
        StartedStill(n, sets0, sets, starts, DStart(normal, bol));
        starts := starts + [DStart(normal, bol)];
      }
    }

    method Run() returns (starts: seq<DStart>)
      requires Progress(0, 0)
      modifies `states, `index, `sets, `work
      ensures Progress(0, 0) && work == [] && |starts| == |n.condStarts|
      ensures forall c :: 0 <= c < |starts| ==> Started(n, sets, starts, c)
    {
      starts := SeedAll();
      ghost var seeded := sets;
      Drain();
      forall c | 0 <= c < |starts| ensures Started(n, sets, starts, c) {
        assert Started(n, seeded, starts, c);
        StandsForStill(n, seeded, sets, starts[c].normal, n.condStarts[c].normal);
        StandsForStill(n, seeded, sets, starts[c].bol, n.condStarts[c].bol);
      }
    }
  }

  // Bytes that no edge tells apart have the same steps.
  lemma SameStep(S: Graph, s: seq<nat>, a: byte, b: byte, t: seq<nat>)
    requires IsStep(S, s, a, t) && Indistinct(S, a, b)
    ensures IsStep(S, s, b, t)
  {
    forall q: nat ensures StepReaches(S, s, a, q) <==> StepReaches(S, s, b, q) {
      if StepReaches(S, s, a, q) {
        var p: nat, i :| p in s && ReadsByte(S, p, i, a) && Path(S, S[p].out[i].target, [], q);
        assert ReadsByte(S, p, i, b);
      }
      if StepReaches(S, s, b, q) {
        var p: nat, i :| p in s && ReadsByte(S, p, i, b) && Path(S, S[p].out[i].target, [], q);
        assert ReadsByte(S, p, i, a);
      }
    }
  }

  lemma RowsForBytes(n: Nfa, e: Eclasses, states: seq<DState>, sets: seq<seq<nat>>, reps: seq<nat>)
    requires Respects(n.states, e) && |reps| == e.nclasses && Reps(reps)
    requires forall c :: 0 <= c < |reps| ==> e.ec[reps[c]] == c
    requires Indexed(n, states, sets, |reps|) && Filled(n, states, sets, reps, [], 0, 0)
    ensures forall id, b: byte :: 1 <= id < |states| ==>
            IsStep(n.states, sets[id - 1], b, SetAt(sets, states[id].next[e.ec[b]]))
  {
    forall id, b: byte | 1 <= id < |states|
      ensures IsStep(n.states, sets[id - 1], b, SetAt(sets, states[id].next[e.ec[b]])) {
      var c := e.ec[b];
      assert RowOk(n, states, sets, reps, id, c);
      SameStep(n.states, sets[id - 1], reps[c], b, SetAt(sets, states[id].next[c]));
    }
  }

  /** build_dfa terminates for every well-formed NFA with ids and sets in bijection, and every transition on every byte
      leads to the state of exactly the set reached, or to -1 when that set is empty. */
  method BuildDfa(n: Nfa, useEclasses: bool) returns (d: Dfa, ghost sets: seq<seq<nat>>)
    requires WellFormed(n)
    ensures DfaFor(n, d, sets)
    ensures forall i, j :: 0 <= i < j < |sets| ==> sets[i] != sets[j]
    ensures if useEclasses then Exact(n.states, d.eclasses) else d.eclasses == Eclasses(seq(256, i => i), 256)
  {
    var e;
    if useEclasses { e := ComputeEclasses(n.states); } else { e := IdentityEclasses(); }
    var reps := ClassReps(e);
    var k := new Construction(n, reps);
    var starts := k.Run();
    sets := k.sets;
    RowsForBytes(n, e, k.states, sets, reps);
    d := Dfa(k.states, starts, e);
    forall c, b: bool | 0 <= c < |d.condStarts| ensures StartsAt(n, d, sets, c, b) {
      assert Started(n, sets, starts, c);
    }
    KeyedInjective(k.index, sets);
  }

  // ---------- running it --------------------------------------------------

  function DNext(d: Dfa, id: int, b: byte): int
    requires |d.eclasses.ec| == 256
  {
    var c := d.eclasses.ec[b];
    if 0 <= id < |d.states| && c < |d.states[id].next| then d.states[id].next[c] else -1
  }

  function DRun(d: Dfa, id: int, w: Word): int
    requires |d.eclasses.ec| == 256
  {
    if w == [] then id else DNext(d, DRun(d, id, w[..|w| - 1]), w[|w| - 1])
  }

  lemma DeadStep(S: Graph, x: byte)
    ensures IsStep(S, [], x, [])
  {
    forall q: nat ensures !StepReaches(S, [], x, q) {}
  }

  lemma OneStep(n: Nfa, d: Dfa, sets: seq<seq<nat>>, id: int, x: byte)
    requires DfaFor(n, d, sets) && (id == -1 || 1 <= id < |d.states|)
    ensures var id' := DNext(d, id, x);
            (id' == -1 || 1 <= id' < |d.states|) && IsStep(n.states, SetAt(sets, id), x, SetAt(sets, id'))
  {
    if id == -1 { DeadStep(n.states, x); }
  }

  lemma SplitLast(w: Word)
    requires w != []
    ensures w == w[..|w| - 1] + [w[|w| - 1]]
  {
  }

  lemma {:induction false} RunReach(n: Nfa, d: Dfa, sets: seq<seq<nat>>, p: nat, start: int, w: Word)
    requires DfaFor(n, d, sets) && StandsFor(n, sets, start, p)
    ensures
      var id := DRun(d, start, w);
      (id == -1 || 1 <= id < |d.states|) && IsReach(n.states, p, w, SetAt(sets, id))
    decreases |w|
  {
    if w != [] {
      var v, x := w[..|w| - 1], w[|w| - 1];
      SplitLast(w);
      RunReach(n, d, sets, p, start, v);
      var m := DRun(d, start, v);
      OneStep(n, d, sets, m, x);
      ReachStep(n.states, p, v, SetAt(sets, m), x, SetAt(sets, DNext(d, m, x)));
    }
  }

  lemma EmptyReach(S: Graph, p: nat, w: Word, t: seq<nat>)
    requires IsReach(S, p, w, t)
    ensures t == [] <==> forall q: nat :: !Path(S, p, w, q)
  {
    if t != [] {
      assert t[0] in t;
      assert Path(S, p, w, t[0]);
    }
  }

  /** After any word the DFA is in the state of exactly the reachable NFA states, and dead iff there are none. */
  lemma SubsetConstructionCorrect(n: Nfa, d: Dfa, sets: seq<seq<nat>>, c: nat, b: bool, w: Word)
    requires DfaFor(n, d, sets) && c < |n.condStarts|
    ensures
      var id := DRun(d, StartOf(d, c, b), w);
      && (id == -1 || 1 <= id < |d.states|)
      && IsReach(n.states, EntryOf(n, c, b), w, SetAt(sets, id))
      && (id == -1 <==> forall q: nat :: !Path(n.states, EntryOf(n, c, b), w, q))
  {
    var id := DRun(d, StartOf(d, c, b), w);
    assert StartsAt(n, d, sets, c, b);
    RunReach(n, d, sets, EntryOf(n, c, b), StartOf(d, c, b), w);
    assert id == -1 <==> SetAt(sets, id) == [];
    EmptyReach(n.states, EntryOf(n, c, b), w, SetAt(sets, id));
  }
}
