// The scanner loop with REJECT that yy_lex_body_reject emits (src/codegen.cpp).

module Reject {
  import opened Bytes
  import opened ScanTables
  import opened Matching
  import opened Scanner

  /** len is the longest, among the first m bytes, that rule r may be selected with; -1 if none. */
  ghost predicate LongestFor(h: Here, m: nat, r: nat, len: int) {
    if len < 0 then len == -1 && forall k: nat :: k <= m ==> !Candidate(h, r, k)
    else len <= m && Candidate(h, r, len) && forall k: nat :: k <= m && Candidate(h, r, k) ==> k <= len
  }

  ghost predicate Lens(h: Here, m: nat, lens: seq<int>) {
    forall r: nat :: r < |lens| ==> LongestFor(h, m, r, lens[r])
  }

  // The rules of a list that are valid here, by their $ flag, get length m.
  method Raise(t: Tables, off: nat, list: seq<nat>, lens: array<int>, m: nat, atEol: bool)
    requires off + |list| <= |t.acceptLists.pool| && t.acceptLists.pool[off..off + |list|] == list
    requires lens.Length == |t.ruleEol| && (forall i :: 0 <= i < |list| ==> list[i] < lens.Length)
    requires forall r :: 0 <= r < lens.Length ==> lens[r] < m
    modifies lens
    ensures forall r: nat :: r < lens.Length ==> lens[r] == if r in list && (t.ruleEol[r] ==> atEol) then m
            else old(lens[r])
  {
    var i := 0;
    while i < |list|
      invariant i <= |list|
      invariant forall r: nat :: r < lens.Length ==>
                  lens[r] == if r in list[..i] && (t.ruleEol[r] ==> atEol) then m else old(lens[r])
    {
      assert list[..i + 1] == list[..i] + [list[i]];
      var r := t.acceptLists.pool[off + i];
      if !(t.ruleEol[r] && !atEol) {
        if lens[r] < m { lens[r] := m; }
      }
      i := i + 1;
    }
    assert list[..i] == list;
  }

  // The accepting rules of a state entered after m bytes, filtered by $ at this very length.
  method Collect(t: Tables, state: nat, lens: array<int>, buf: array<byte>, mb: nat, end: nat, m: nat, ghost h: Here)
    requires mb + m <= end <= buf.Length && h.input == buf[mb..end] && lens as object != buf
    requires Reached(t, h, m, state) && lens.Length == |t.ruleTrail|
    requires if m == 0 then forall r :: 0 <= r < lens.Length ==> lens[r] == -1 else Lens(h, m - 1, lens[..])
    modifies lens
    ensures Lens(h, m, lens[..])
  {
    AtKnows(t, h, m, state);
    ghost var before := lens[..];
    var list := ListAt(t.acceptLists, state);
    var atEol := mb + m >= end || buf[mb + m] == NEWLINE;
    assert atEol <==> AtEol(h, m) by { if mb + m < end { assert buf[mb + m] == h.input[m]; } }
    forall r | 0 <= r < lens.Length ensures lens[r] < m { if m > 0 { assert LongestFor(h, m - 1, r, before[r]); } }
    Raise(t, t.acceptLists.off[state], list, lens, m, atEol);
    forall r: nat | r < lens.Length ensures LongestFor(h, m, r, lens[r]) {
      CollectOk(t, h, m, state, r, before[r], lens[r], atEol);
    }
  }

  lemma CollectOk(t: Tables, h: Here, m: nat, state: nat, r: nat, before: int, after: int, atEol: bool)
    requires Reached(t, h, m, state) && state < |t.acceptNormal| && r < |t.ruleEol| && (atEol <==> AtEol(h, m))
    requires if m == 0 then before == -1 else LongestFor(h, m - 1, r, before)
    requires after == if r in ListAt(t.acceptLists, state) && (t.ruleEol[r] ==> atEol) then m else before
    ensures LongestFor(h, m, r, after)
  {
    AtKnows(t, h, m, state);
    assert r in ListAt(t.acceptLists, state) <==> Denotes(h.g, h.c, h.b, r, h.input[..m]);
    assert Candidate(h, r, m) <==> r in ListAt(t.acceptLists, state) && (t.ruleEol[r] ==> atEol);
  }

  /** yy_match_lens after the scan: every rule's longest length that is valid for its $ flag, over the whole rest. */
  method ScanLens(t: Tables, buf: array<byte>, mb: nat, end: nat, c: nat, atBol: bool, lens: array<int>,
      ghost g: Grammar)
    requires mb <= end <= buf.Length && Implements(t, g) && c < |g.excl|
    requires lens.Length == |t.ruleTrail| && lens as object != buf && forall r :: 0 <= r < lens.Length ==> lens[r] == -1
    modifies lens
    ensures var h := Here(g, c, atBol, buf[mb..end]); Lens(h, |h.input|, lens[..])
  {
    ghost var h := Here(g, c, atBol, buf[mb..end]);
    var state := Start(t, c, atBol);
    AtStart(t, h, state);
    var m := 0;
    Collect(t, state, lens, buf, mb, end, m, h);
    while mb + m < end
      invariant mb + m <= end && Reached(t, h, m, state) && Lens(h, m, lens[..])
    {
      AtKnows(t, h, m, state);
      NextState(t, h, m, state);
      assert buf[mb + m] == h.input[m];
      var next := Transition(t, state, buf[mb + m]);
      if next < 0 {
        LensEnd(t, h, m, lens[..]);
        break;
      }
      state := next;
      m := m + 1;
      Collect(t, state, lens, buf, mb, end, m, h);
    }
  }

  lemma LensEnd(t: Tables, h: Here, m: nat, lens: seq<int>)
    requires Implements(t, h.g) && h.c < |h.g.excl| && m < |h.input| && Lens(h, m, lens)
    requires TRun(t, Start(t, h.c, h.b), h.input[..m + 1]) == -1
    ensures Lens(h, |h.input|, lens)
  {
    forall r: nat, k: nat | m < k <= |h.input| ensures !Candidate(h, r, k) {
      DeadBeyond(t, h, m + 1, k);
      assert Silent(h, k);
    }
    forall r: nat | r < |lens| ensures LongestFor(h, |h.input|, r, lens[r]) {
      assert LongestFor(h, m, r, lens[r]);
    }
  }

  // The best of the lengths left: the longest, of the earliest rule among equals; -1 if none is left.
  ghost predicate BestLeft(lens: seq<int>, rule: int, len: nat) {
    if rule < 0 then rule == -1 && len == 0 && forall r :: 0 <= r < |lens| ==> lens[r] < 0
    else rule < |lens| && lens[rule] == len
         && forall r :: 0 <= r < |lens| ==> lens[r] < len || (lens[r] == len && rule <= r)
  }

  // yy_find_best.
  method FindBest(lens: array<int>) returns (rule: int, len: nat)
    ensures BestLeft(lens[..], rule, len)
  {
    rule, len := -1, 0;
    var r := 0;
    while r < lens.Length
      invariant r <= lens.Length && BestLeft(lens[..r], rule, len)
    {
      assert lens[..r + 1] == lens[..r] + [lens[r]];
      if lens[r] >= 0 {
        if rule < 0 || lens[r] > len { rule, len := r, lens[r]; }
      }
      r := r + 1;
    }
    assert lens[..r] == lens[..];
  }

  // ---------- every action rejecting ----------------------------------------

  // (rule, length) in the order in which the actions run.
  type Chain = seq<(nat, nat)>

  ghost predicate InOrder(chain: Chain) {
    forall i, j :: 0 <= i < j < |chain| ==>
      chain[j].1 < chain[i].1 || (chain[j].1 == chain[i].1 && chain[i].0 < chain[j].0)
  }

  // What is still in lens comes after everything in the chain.
  ghost predicate AllLater(chain: Chain, lens: seq<int>) {
    forall i, r :: 0 <= i < |chain| && 0 <= r < |lens| && lens[r] > 0 ==>
      lens[r] < chain[i].1 || (lens[r] == chain[i].1 && chain[i].0 < r)
  }

  // all is partitioned into the rules already tried, now -1, and the rest.
  ghost predicate Tried(all: seq<int>, lens: seq<int>, chain: Chain) {
    && |lens| == |all|
    && (forall r :: 0 <= r < |lens| ==> lens[r] == all[r] || (lens[r] == -1 && all[r] > 0 && (r, all[r]) in chain))
    && (forall i :: 0 <= i < |chain| ==>
      chain[i].0 < |all| && chain[i].1 > 0 && all[chain[i].0] == chain[i].1 && lens[chain[i].0] == -1)
  }

  ghost predicate Trying(all: seq<int>, lens: seq<int>, chain: Chain) {
    Tried(all, lens, chain) && InOrder(chain) && AllLater(chain, lens)
  }

  lemma ChainStep(all: seq<int>, lens: seq<int>, chain: Chain, rule: nat, len: nat)
    requires Trying(all, lens, chain) && BestLeft(lens, rule, len) && len > 0
    ensures Trying(all, lens[rule := -1], chain + [(rule, len)])
  {
    var chain', lens' := chain + [(rule, len)], lens[rule := -1];
    assert lens[rule] == all[rule];
    forall r | 0 <= r < |lens'| ensures lens'[r] == all[r] || (lens'[r] == -1 && all[r] > 0 && (r, all[r]) in chain') {
      if r == rule { assert chain'[|chain|] == (rule, len); }
    }
  }

  lemma LeftFits(h: Here, all: seq<int>, lens: seq<int>, chain: Chain, rule: nat, len: nat)
    requires Trying(all, lens, chain) && BestLeft(lens, rule, len) && len > 0 && Lens(h, |h.input|, all)
    ensures len <= |h.input| && Hit(h, rule, len)
  {
    assert LongestFor(h, |h.input|, rule, all[rule]);
  }

  ghost function Left(lens: seq<int>): nat {
    if lens == [] then 0 else Left(lens[..|lens| - 1]) + if lens[|lens| - 1] > 0 then 1 else 0
  }

  lemma {:induction false} LeftShrinks(lens: seq<int>, r: nat)
    requires r < |lens| && lens[r] > 0
    ensures Left(lens[r := -1]) < Left(lens)
  {
    var last := |lens| - 1;
    if r == last {
      assert lens[r := -1][..last] == lens[..last];
    } else {
      LeftShrinks(lens[..last], r);
      assert lens[r := -1][..last] == lens[..last][r := -1];
    }
  }

  /** Every rule with a valid match of positive length, once, at its longest length: the longest first, of the earliest
      rule among equals. */
  ghost predicate IsChain(h: Here, chain: Chain) {
    InOrder(chain) && forall r: nat, k: nat :: (r, k) in chain <==> k > 0 && LongestFor(h, |h.input|, r, k)
  }

  lemma ChainComplete(h: Here, all: seq<int>, lens: seq<int>, chain: Chain)
    requires Trying(all, lens, chain) && Lens(h, |h.input|, all)
    requires forall r :: 0 <= r < |lens| ==> lens[r] <= 0
    requires |h.g.rules| <= |all|
    ensures IsChain(h, chain)
  {
    forall r: nat, k: nat ensures (r, k) in chain <==> k > 0 && LongestFor(h, |h.input|, r, k) {
      if r < |all| { assert LongestFor(h, |h.input|, r, all[r]); }
    }
  }

  lemma SomeElement(chain: Chain)
    ensures chain != [] ==> exists x :: x in chain
  {
    if chain != [] { assert chain[0] in chain; }
  }

  lemma SameFirst(chain: Chain, chain': Chain)
    requires InOrder(chain) && InOrder(chain') && chain != [] && chain' != []
    requires chain[0] in chain' && chain'[0] in chain
    ensures chain[0] == chain'[0]
  {
  }

  // The first comes once only.
  lemma RestHas(chain: Chain, x: (nat, nat))
    requires InOrder(chain) && chain != []
    ensures x in chain[1..] <==> x in chain && x != chain[0]
  {
  }

  lemma {:induction false} SameOrder(chain: Chain, chain': Chain)
    requires InOrder(chain) && InOrder(chain') && forall x :: x in chain <==> x in chain'
    ensures chain == chain'
  {
    SomeElement(chain);
    SomeElement(chain');
    if chain != [] {
      assert chain[0] in chain && chain'[0] in chain';
      SameFirst(chain, chain');
      forall x ensures x in chain[1..] <==> x in chain'[1..] { RestHas(chain, x); RestHas(chain', x); }
      SameOrder(chain[1..], chain'[1..]);
      assert chain == [chain[0]] + chain[1..] && chain' == [chain'[0]] + chain'[1..];
    }
  }

  /** The rules determine what is tried, and in what order. */
  lemma ChainUnique(h: Here, chain: Chain, chain': Chain)
    requires IsChain(h, chain) && IsChain(h, chain')
    ensures chain == chain'
  {
    forall x ensures x in chain <==> x in chain' { assert x == (x.0, x.1); }
    SameOrder(chain, chain');
  }

  lemma {:induction false} SomeBest(lens: seq<int>) returns (rule: int, len: nat)
    ensures BestLeft(lens, rule, len)
  {
    if lens == [] {
      rule, len := -1, 0;
    } else {
      var last := |lens| - 1;
      rule, len := SomeBest(lens[..last]);
      if lens[last] >= 0 && (rule < 0 || lens[last] > len) { rule, len := last, lens[last]; }
    }
  }

  // What is tried if every action rejects from here on, the best one left being the next.
  lemma {:induction false} Completed(h: Here, all: seq<int>, lens: seq<int>, chain: Chain, rule: int, len: nat)
    returns (full: Chain)
    requires Trying(all, lens, chain) && Lens(h, |h.input|, all) && |h.g.rules| <= |all| && BestLeft(lens, rule, len)
    ensures IsChain(h, full) && chain <= full
    ensures if len > 0 then |chain| < |full| && full[|chain|] == (rule, len) else full == chain
    decreases Left(lens)
  {
    if len > 0 {
      ChainStep(all, lens, chain, rule, len);
      LeftShrinks(lens, rule);
      var lens' := lens[rule := -1];
      var rule', len' := SomeBest(lens');
      full := Completed(h, all, lens', chain + [(rule as nat, len)], rule', len');
    } else {
      full := chain;
      ChainComplete(h, all, lens, chain);
    }
  }

  /** The first rule tried is the one the lexing rule picks, with no condition on the $ rules. */
  lemma FirstIsPick(h: Here, chain: Chain)
    requires IsChain(h, chain)
    ensures if chain == [] then IsPick(h, -1, 0) else IsPick(h, chain[0].0, chain[0].1)
  {
    forall r: nat, k: nat | Eligible(h, false, r, k) && k > 0
      ensures chain != [] && (k < chain[0].1 || (k == chain[0].1 && chain[0].0 <= r))
    {
      var k' := LongestCandidate(h, r, k);
      assert (r, k') in chain;
    }
    if chain != [] { assert chain[0] in chain; }
  }

  lemma {:induction false} LongestCandidate(h: Here, r: nat, k: nat) returns (k': nat)
    requires Candidate(h, r, k)
    ensures k <= k' && LongestFor(h, |h.input|, r, k')
    decreases |h.input| - k
  {
    if k2: nat :| Candidate(h, r, k2) && k2 > k {
      k' := LongestCandidate(h, r, k2);
    } else {
      k' := k;
    }
  }

  /** The two loops agree on the first choice exactly when no shorter $ match is hidden. */
  lemma LoopsAgree(h: Here, chain: Chain, rule: int, len: nat)
    requires IsChain(h, chain)
    requires IsPlainPick(h, rule, len)
    ensures !HiddenEol(h) <==> if chain == [] then rule == -1 else rule == chain[0].0 && len == chain[0].1
  {
    FirstIsPick(h, chain);
    PlainIffNotHidden(h, rule, len);
    if IsPick(h, rule, len) {
      if chain == [] {
        PickUnique(h, false, rule, len, -1, 0);
      } else {
        PickUnique(h, false, rule, len, chain[0].0, chain[0].1);
      }
    }
  }
}
