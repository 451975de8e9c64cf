// The plain scanner loop that yy_lex_body emits (src/codegen.cpp).

module Scanner {
  import opened Bytes
  import opened ScanTables
  import opened Matching

  // ---------- what the loop has learnt --------------------------------------

  // acc and accLen are the longest match among the first m bytes of a rule with, or without, $.
  ghost predicate Longest(h: Here, m: nat, eol: bool, acc: int, accLen: nat)
    requires m <= |h.input|
  {
    if acc < 0 then acc == -1 && accLen == 0 && forall r: nat, k: nat :: k <= m && Hit(h, r, k) ==> IsEol(h.g, r) != eol
    else accLen <= m && FirstRule(h.g, h.c, h.b, h.input[..accLen], eol, acc)
         && forall r: nat, k: nat :: k <= m && Hit(h, r, k) && IsEol(h.g, r) == eol ==> k <= accLen
  }

  ghost predicate MarkAt(h: Here, r: nat, k: nat) {
    k <= |h.input| && MayMark(h.g, h.c, h.b, r, h.input[..k])
  }

  /** pos is the last place, within the first m bytes from mb, where rule r may stand at its marker; or -1. */
  ghost predicate LastMark(h: Here, mb: nat, m: nat, r: nat, pos: int) {
    if pos < 0 then pos == -1 && forall k: nat :: k <= m ==> !MarkAt(h, r, k)
    else mb <= pos <= mb + m && MarkAt(h, r, pos - mb) && forall k: nat :: pos - mb < k <= m ==> !MarkAt(h, r, k)
  }

  ghost predicate AllMarked(h: Here, mb: nat, m: nat, marks: seq<int>) {
    forall r: nat :: r < |marks| ==> LastMark(h, mb, m, r, marks[r])
  }

  // The loop's state after m bytes.
  ghost predicate Reached(t: Tables, h: Here, m: nat, state: int) {
    && Implements(t, h.g) && h.c < |h.g.excl| && m <= |h.input|
    && 0 <= state == TRun(t, Start(t, h.c, h.b), h.input[..m])
  }

  lemma AtKnows(t: Tables, h: Here, m: nat, state: int)
    requires Reached(t, h, m, state)
    ensures 0 <= state < |t.acceptNormal| && Shaped(t) && Knows(t, h.g, h.c, h.b, h.input[..m], state)
  {
  }

  // One more byte: the table's answer is the state after it.
  lemma NextState(t: Tables, h: Here, m: nat, state: int)
    requires Reached(t, h, m, state) && m < |h.input|
    ensures var next := Transition(t, state, h.input[m]);
            if next < 0 then TRun(t, Start(t, h.c, h.b), h.input[..m + 1]) == -1 else Reached(t, h, m + 1, next)
  {
    assert h.input[..m + 1][..m] == h.input[..m];
  }

  ghost predicate Silent(h: Here, k: nat) {
    forall r: nat :: !Hit(h, r, k) && !MarkAt(h, r, k)
  }

  // Once dead, always dead: no longer prefix matches or marks.
  lemma {:induction false} DeadBeyond(t: Tables, h: Here, m: nat, k: nat)
    requires Implements(t, h.g) && h.c < |h.g.excl| && m <= k <= |h.input|
    requires TRun(t, Start(t, h.c, h.b), h.input[..m]) == -1
    ensures TRun(t, Start(t, h.c, h.b), h.input[..k]) == -1
    ensures Silent(h, k)
    decreases k
  {
    if m < k {
      DeadBeyond(t, h, m, k - 1);
      assert h.input[..k][..k - 1] == h.input[..k - 1];
    }
    assert Knows(t, h.g, h.c, h.b, h.input[..k], TRun(t, Start(t, h.c, h.b), h.input[..k]));
  }

  lemma LongestHit(h: Here, m: nat, eol: bool, slot: nat)
    requires m <= |h.input| && FirstRule(h.g, h.c, h.b, h.input[..m], eol, slot)
    ensures Longest(h, m, eol, slot, m)
  {
  }

  lemma LongestMiss(h: Here, m: nat, eol: bool, acc: int, accLen: nat)
    requires m < |h.input| && FirstRule(h.g, h.c, h.b, h.input[..m + 1], eol, -1) && Longest(h, m, eol, acc, accLen)
    ensures Longest(h, m + 1, eol, acc, accLen)
  {
    forall r: nat, k: nat | k <= m + 1 && Hit(h, r, k) && IsEol(h.g, r) == eol ensures k <= m {
      assert Denotes(h.g, h.c, h.b, r, h.input[..k]);
    }
  }

  lemma LongestStep(t: Tables, h: Here, m: nat, state: int, eol: bool, acc: int, accLen: nat)
    requires m < |h.input| && Reached(t, h, m + 1, state) && Longest(h, m, eol, acc, accLen)
    ensures var slot := if eol then t.acceptEol[state] else t.acceptNormal[state];
            if slot >= 0 then Longest(h, m + 1, eol, slot, m + 1) else Longest(h, m + 1, eol, acc, accLen)
  {
    AtKnows(t, h, m + 1, state);
    var slot := if eol then t.acceptEol[state] else t.acceptNormal[state];
    if slot >= 0 { LongestHit(h, m + 1, eol, slot); } else { LongestMiss(h, m, eol, acc, accLen); }
  }

  lemma LongestInit(t: Tables, h: Here, state: int, eol: bool)
    requires Reached(t, h, 0, state)
    ensures var slot := if eol then t.acceptEol[state] else t.acceptNormal[state];
            if slot >= 0 then Longest(h, 0, eol, slot, 0) else Longest(h, 0, eol, -1, 0)
  {
    AtKnows(t, h, 0, state);
  }

  lemma DeadEnds(t: Tables, h: Here, mb: nat, m: nat, eol: bool, acc: int, accLen: nat, marks: seq<int>)
    requires Implements(t, h.g) && h.c < |h.g.excl| && m < |h.input|
    requires TRun(t, Start(t, h.c, h.b), h.input[..m + 1]) == -1
    requires Longest(h, m, eol, acc, accLen) && AllMarked(h, mb, m, marks)
    ensures Longest(h, |h.input|, eol, acc, accLen) && AllMarked(h, mb, |h.input|, marks)
  {
    forall k: nat | m < k <= |h.input| ensures Silent(h, k) {
      DeadBeyond(t, h, m + 1, k);
    }
    assert forall r: nat, k: nat :: m < k <= |h.input| && Hit(h, r, k) ==> !Silent(h, k);
    assert forall r: nat, k: nat :: m < k <= |h.input| && MarkAt(h, r, k) ==> !Silent(h, k);
  }

  // Record the scan position for every rule at its marker in this state.
  method RecordMarks(t: Tables, state: nat, marks: array<int>, scan: nat, ghost h: Here, ghost mb: nat)
    requires mb <= scan && Reached(t, h, scan - mb, state) && marks.Length == |t.ruleTrail|
    requires scan > mb ==> AllMarked(h, mb, scan - mb - 1, marks[..])
    requires scan == mb ==> forall r :: 0 <= r < marks.Length ==> marks[r] == -1
    modifies marks
    ensures AllMarked(h, mb, scan - mb, marks[..])
  {
    AtKnows(t, h, scan - mb, state);
    ghost var before := marks[..];
    var off := t.boundaryLists.off[state];
    var n := t.boundaryLists.off[state + 1] - off;
    ghost var list := ListAt(t.boundaryLists, state);
    var i := 0;
    while i < n
      invariant i <= n == |list|
      invariant forall r: nat :: r < marks.Length ==> marks[r] == if r in list[..i] then scan else before[r]
    {
      assert list[..i + 1] == list[..i] + [list[i]];
      assert t.boundaryLists.pool[off + i] == list[i];
      marks[t.boundaryLists.pool[off + i]] := scan;
      i := i + 1;
    }
    assert list[..i] == list;
    forall r: nat | r < marks.Length ensures LastMark(h, mb, scan - mb, r, marks[r]) {
      assert r in list <==> MayMark(h.g, h.c, h.b, r, h.input[..scan - mb]);
      assert scan > mb ==> LastMark(h, mb, scan - mb - 1, r, before[r]);
    }
  }

  datatype Accepted = Accepted(n: int, nLen: nat, e: int, eLen: nat)

  ghost predicate Learnt(h: Here, m: nat, a: Accepted)
    requires m <= |h.input|
  {
    Longest(h, m, false, a.n, a.nLen) && Longest(h, m, true, a.e, a.eLen)
  }

  // yy_accept_normal and yy_accept_eol of a state entered after m bytes.
  function Accept(t: Tables, state: nat, m: nat, a: Accepted): Accepted
    requires state < |t.acceptNormal| == |t.acceptEol|
  {
    var an, ae := t.acceptNormal[state], t.acceptEol[state];
    Accepted(if an >= 0 then an else a.n, if an >= 0 then m else a.nLen,
             if ae >= 0 then ae else a.e, if ae >= 0 then m else a.eLen)
  }

  lemma AcceptStep(t: Tables, h: Here, m: nat, state: int, a: Accepted)
    requires Reached(t, h, m, state)
    requires if m == 0 then a == Accepted(-1, 0, -1, 0) else Learnt(h, m - 1, a)
    ensures Learnt(h, m, Accept(t, state, m, a))
  {
    if m == 0 {
      LongestInit(t, h, state, false);
      LongestInit(t, h, state, true);
    } else {
      LongestStep(t, h, m - 1, state, false, a.n, a.nLen);
      LongestStep(t, h, m - 1, state, true, a.e, a.eLen);
    }
  }

  ghost predicate Known(h: Here, mb: nat, m: nat, a: Accepted, track: bool, marks: seq<int>) {
    m <= |h.input| && Learnt(h, m, a) && (track ==> AllMarked(h, mb, m, marks))
  }

  // Entering a state: record markers, then acceptances.
  method Enter(t: Tables, state: nat, scan: nat, track: bool, marks: array<int>, a: Accepted, ghost h: Here, mb: nat)
    returns (a': Accepted)
    requires mb <= scan && Reached(t, h, scan - mb, state) && marks.Length == |t.ruleTrail|
    requires if scan == mb then a == Accepted(-1, 0, -1, 0) && forall r :: 0 <= r < marks.Length ==> marks[r] == -1
             else Known(h, mb, scan - mb - 1, a, track, marks[..])
    modifies marks
    ensures Known(h, mb, scan - mb, a', track, marks[..])
  {
    if track { RecordMarks(t, state, marks, scan, h, mb); }
    AtKnows(t, h, scan - mb, state);
    AcceptStep(t, h, scan - mb, state, a);
    a' := Accept(t, state, scan - mb, a);
  }

  /** The scanning loop: the longest match with and without $ over the whole rest of the buffer, and, when some rule
      has variable trailing context, the last position of every rule's marker. */
  method Scan(t: Tables, buf: array<byte>, mb: nat, end: nat, c: nat, atBol: bool, track: bool, marks: array<int>,
      ghost g: Grammar)
    returns (a: Accepted)
    requires mb <= end <= buf.Length && Implements(t, g) && c < |g.excl|
    requires marks.Length == |t.ruleTrail| && marks as object != buf && forall r :: 0 <= r < marks.Length ==>
             marks[r] == -1
    modifies marks
    ensures var h := Here(g, c, atBol, buf[mb..end]); Known(h, mb, |h.input|, a, track, marks[..])
  {
    ghost var h := Here(g, c, atBol, buf[mb..end]);
    var state := Start(t, c, atBol);
    var scan := mb;
    AtStart(t, h, state);
    a := Enter(t, state, scan, track, marks, Accepted(-1, 0, -1, 0), h, mb);
    var live := true;
    while live && scan < end
      invariant mb <= scan <= end && Reached(t, h, scan - mb, state)
      invariant Known(h, mb, if live then scan - mb else |h.input|, a, track, marks[..])
      decreases end - scan, live
    {
      state, scan, live, a := Turn(t, state, buf, scan, end, track, marks, a, h, mb);
    }
  }

  lemma AtStart(t: Tables, h: Here, state: int)
    requires Implements(t, h.g) && h.c < |h.g.excl| && state == Start(t, h.c, h.b)
    ensures Reached(t, h, 0, state)
  {
    assert h.input[..0] == [];
  }

  // One turn of the loop; the `break` on a dead transition makes it the last.
  method Turn(t: Tables, state: nat, buf: array<byte>, scan: nat, end: nat, track: bool, marks: array<int>,
      a: Accepted, ghost h: Here, mb: nat)
    returns (state': nat, scan': nat, live: bool, a': Accepted)
    requires mb <= scan < end <= buf.Length && h.input == buf[mb..end] && marks as object != buf
    requires marks.Length == |t.ruleTrail| && Reached(t, h, scan - mb, state)
             && Known(h, mb, scan - mb, a, track, marks[..])
    modifies marks
    ensures scan <= scan' <= end && (live ==> scan' == scan + 1) && Reached(t, h, scan' - mb, state')
    ensures Known(h, mb, if live then scan' - mb else |h.input|, a', track, marks[..])
  {
    AtKnows(t, h, scan - mb, state);
    NextState(t, h, scan - mb, state);
    assert buf[scan] == h.input[scan - mb];
    var next := Transition(t, state, buf[scan]);
    if next < 0 {
      StopScan(t, h, mb, scan - mb, a, track, marks[..]);
      return state, scan, false, a;
    }
    state', scan', live := next, scan + 1, true;
    a' := Enter(t, next, scan + 1, track, marks, a, h, mb);
  }

  lemma StopScan(t: Tables, h: Here, mb: nat, m: nat, a: Accepted, track: bool, marks: seq<int>)
    requires Implements(t, h.g) && h.c < |h.g.excl| && m < |h.input|
    requires TRun(t, Start(t, h.c, h.b), h.input[..m + 1]) == -1
    requires Known(h, mb, m, a, track, marks)
    ensures Known(h, mb, |h.input|, a, track, marks)
  {
    DeadEnds(t, h, mb, m, false, a.n, a.nLen, if track then marks else []);
    DeadEnds(t, h, mb, m, true, a.e, a.eLen, if track then marks else []);
  }

  /** The selection after the loop: only the longest $ match is tested for the line end. */
  method Select(buf: array<byte>, mb: nat, end: nat, a: Accepted, ghost h: Here) returns (rule: int, len: nat)
    requires mb <= end <= buf.Length && h.input == buf[mb..end] && Learnt(h, |h.input|, a)
    ensures IsPlainPick(h, rule, len)
  {
    rule, len := -1, 0;
    if a.e >= 0 && a.eLen > 0 {
      var after := mb + a.eLen;
      var eolOk := after >= end || buf[after] == NEWLINE;
      assert after < end ==> buf[after] == h.input[a.eLen];
      assert eolOk <==> AtEol(h, a.eLen);
      if eolOk {
        if a.nLen > a.eLen {
          rule, len := a.n, a.nLen;
        } else if a.nLen == a.eLen && a.n >= 0 && a.n < a.e {
          rule, len := a.n, a.nLen;
        } else {
          rule, len := a.e, a.eLen;
        }
      }
    }
    if rule < 0 && a.n >= 0 && a.nLen > 0 {
      rule, len := a.n, a.nLen;
    }
    SelectOk(h, a, rule, len);
  }

  lemma SelectOk(h: Here, a: Accepted, rule: int, len: nat)
    requires Learnt(h, |h.input|, a)
    requires var eolWins := a.e >= 0 && a.eLen > 0 && AtEol(h, a.eLen)
             && !(a.nLen > a.eLen || (a.nLen == a.eLen && 0 <= a.n < a.e));
             if eolWins then rule == a.e && len == a.eLen
             else if a.n >= 0 && a.nLen > 0 then rule == a.n && len == a.nLen
             else rule == -1
    ensures IsPlainPick(h, rule, len)
  {
    forall r: nat, k: nat | Eligible(h, true, r, k) && k > 0
      ensures rule >= 0 && (k < len || (k == len && rule <= r))
    {
      assert Hit(h, r, k);
      if IsEol(h.g, r) {
        assert EolHit(h, a.e, a.eLen);
        assert k == a.eLen;
      }
    }
    if rule >= 0 {
      assert Hit(h, rule, len);
    }
  }

  // ---------- trailing context ----------------------------------------------

  method AnyVariableTrail(t: Tables) returns (track: bool)
    ensures track <==> exists r :: 0 <= r < |t.ruleTrail| && t.ruleTrail[r] < 0
  {
    track := false;
    var r := 0;
    while r < |t.ruleTrail|
      invariant r <= |t.ruleTrail| && (track <==> exists i :: 0 <= i < r && t.ruleTrail[i] < 0)
    {
      if t.ruleTrail[r] < 0 { track := true; }
      r := r + 1;
    }
  }

  /** The length of the token once the trailing context is given back: a fixed length is subtracted, a variable one
      ends at the last position of the rule's marker, if that is inside the match. */
  ghost predicate IsToken(h: Here, rule: nat, len: nat, token: nat)
    requires rule < |h.g.rules|
  {
    var trail := h.g.rules[rule].trail;
    if trail >= 0 then token == if trail <= len then len - trail else len
    else exists pos: int :: LastMark(h, 0, |h.input|, rule, pos) && token == if 0 <= pos <= len then pos else len
  }

  /** One match of the generated scanner: the rule picked, the length matched, and the length of the token. */
  method Match(t: Tables, buf: array<byte>, mb: nat, end: nat, c: nat, atBol: bool, ghost g: Grammar)
    returns (rule: int, len: nat, token: nat)
    requires mb <= end <= buf.Length && Implements(t, g) && c < |g.excl|
    ensures var h := Here(g, c, atBol, buf[mb..end]);
            && IsPlainPick(h, rule, len)
            && (rule >= 0 ==>
              rule < |g.rules| && 0 < len <= |h.input| && Hit(h, rule, len) && IsToken(h, rule, len, token))
  {
    ghost var h := Here(g, c, atBol, buf[mb..end]);
    var track := AnyVariableTrail(t);
    var marks := new int[|t.ruleTrail|](_ => -1);
    var a := Scan(t, buf, mb, end, c, atBol, track, marks, g);
    rule, len := Select(buf, mb, end, a, h);
    token := len;
    if rule >= 0 {
      assert Hit(h, rule, len);
      var trail := t.ruleTrail[rule];
      if trail > 0 && trail <= len {
        token := len - trail;
      } else if track && trail < 0 {
        var bp := marks[rule];
        if bp != -1 && bp >= mb && bp <= mb + len { token := bp - mb; }
        assert LastMark(h, mb, |h.input|, rule, marks[..][rule]);
        assert LastMark(h, 0, |h.input|, rule, if bp < 0 then -1 else bp - mb);
      }
    }
  }
}
