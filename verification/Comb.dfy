// Row-displacement compression of the transition table (src/dfa.cpp: compress_dfa).

module Comb {
  // yy_base, yy_nxt and yy_chk; yy_def is always 0 and yy_chk == -1 means unallocated.
  datatype CompressedDfa = CompressedDfa(base: seq<nat>, def: seq<int>, nxt: seq<int>, chk: seq<int>)

  // A transition worth storing.
  datatype Exc = Exc(cls: nat, target: int)

  ghost predicate Rectangular(rows: seq<seq<int>>, nclasses: nat) {
    forall s :: 0 <= s < |rows| ==> |rows[s]| == nclasses
  }

  /** What the packed table must answer: dead (-1) and the dead state (0) both read as -1, and state 0 goes nowhere. */
  function Entry(rows: seq<seq<int>>, s: nat, c: nat): int
    requires s < |rows| && c < |rows[s]|
  {
    if s != 0 && rows[s][c] > 0 then rows[s][c] else -1
  }

  /** YY_TRANSITION of the compressed mode. */
  function Lookup(t: CompressedDfa, s: nat, c: nat): int
    requires s < |t.base| && t.base[s] + c < |t.chk| == |t.nxt|
  {
    var i := t.base[s] + c;
    if t.chk[i] == s then t.nxt[i] else -1
  }

  // The exceptions among the first m classes, in order.
  ghost predicate IsExcs(row: seq<int>, m: nat, excs: seq<Exc>)
    requires m <= |row|
  {
    && (forall i :: 0 <= i < |excs| ==> excs[i].cls < m && excs[i].target == row[excs[i].cls] > 0)
    && (forall c: nat :: c < m && row[c] > 0 ==> Exc(c, row[c]) in excs)
  }

  method Exceptions(row: seq<int>) returns (excs: seq<Exc>)
    ensures IsExcs(row, |row|, excs)
  {
    excs := [];
    var c: nat := 0;
    while c < |row|
      invariant c <= |row| && IsExcs(row, c, excs)
    {
      if row[c] > 0 { excs := excs + [Exc(c, row[c])]; }
      c := c + 1;
    }
  }

  // ---------- packing order ----------------------------------------------

  predicate Distinct(xs: seq<nat>) {
    forall i, j :: 0 <= i < j < |xs| ==> xs[i] != xs[j]
  }

  predicate Descending(xs: seq<nat>, excs: seq<seq<Exc>>)
    requires forall i :: 0 <= i < |xs| ==> xs[i] < |excs|
  {
    forall i, j :: 0 <= i < j < |xs| ==> |excs[xs[i]]| >= |excs[xs[j]]|
  }

  // A list of states in bounds, without repetition, largest exception list first.
  ghost predicate Ordered(xs: seq<nat>, excs: seq<seq<Exc>>) {
    && (forall i :: 0 <= i < |xs| ==> 1 <= xs[i] < |excs|)
    && Distinct(xs) && Descending(xs, excs)
  }

  // Insertion, for std::sort by number of exceptions.
  method InsertBySize(xs: seq<nat>, x: nat, excs: seq<seq<Exc>>) returns (r: seq<nat>)
    requires Ordered(xs, excs) && 1 <= x < |excs| && x !in xs
    ensures Ordered(r, excs) && forall y :: y in r <==> y in xs || y == x
  {
    var i := 0;
    while i < |xs| && |excs[xs[i]]| >= |excs[x]|
      invariant i <= |xs| && forall j :: 0 <= j < i ==> |excs[xs[j]]| >= |excs[x]|
    {
      i := i + 1;
    }
    r := xs[..i] + [x] + xs[i..];
    InsertKeepsOrder(xs, i, x, excs);
  }

  lemma InsertedAt(xs: seq<nat>, i: nat, x: nat)
    requires i <= |xs|
    ensures var r := xs[..i] + [x] + xs[i..];
            && |r| == |xs| + 1 && (forall j :: 0 <= j < |r| ==> r[j] == if j < i then xs[j] else if j == i then x
                                                      else xs[j - 1])
            && forall y :: y in r <==> y in xs || y == x
  {
    assert xs == xs[..i] + xs[i..];
  }

  lemma InsertKeepsOrder(xs: seq<nat>, i: nat, x: nat, excs: seq<seq<Exc>>)
    requires Ordered(xs, excs) && 1 <= x < |excs| && x !in xs && i <= |xs|
    requires forall j :: 0 <= j < i ==> |excs[xs[j]]| >= |excs[x]|
    requires i < |xs| ==> |excs[xs[i]]| < |excs[x]|
    ensures var r := xs[..i] + [x] + xs[i..];
            Ordered(r, excs) && forall y :: y in r <==> y in xs || y == x
  {
    InsertedAt(xs, i, x);
    forall j | 0 <= j < |xs| ensures xs[j] != x && (j >= i ==> |excs[xs[j]]| < |excs[x]|) {
      assert xs[j] in xs;
    }
  }

  method PackingOrder(excs: seq<seq<Exc>>) returns (order: seq<nat>)
    ensures Ordered(order, excs)
    ensures forall s: nat :: s in order <==> 1 <= s < |excs| && excs[s] != []
  {
    order := [];
    var s: nat := 1;
    while s < |excs|
      invariant 1 <= s && Ordered(order, excs)
      invariant forall x: nat :: x in order <==> 1 <= x < s && x < |excs| && excs[x] != []
    {
      if excs[s] != [] { order := InsertBySize(order, s, excs); }
      s := s + 1;
    }
  }

  // ---------- the pool ----------------------------------------------------

  // Cell i of the pool is free, or holds the transition of a placed state for its distance from that state's base.
  ghost predicate CellOk(rows: seq<seq<int>>, base: seq<nat>, chk: seq<int>, nxt: seq<int>, placed: set<nat>, i: nat)
    requires i < |chk| == |nxt| && |base| == |rows|
  {
    chk[i] == -1 ||
    (chk[i] >= 1 && chk[i] in placed && chk[i] < |rows| && base[chk[i]] <= i < base[chk[i]] + |rows[chk[i]]|
     && nxt[i] == rows[chk[i]][i - base[chk[i]]] > 0)
  }

  // Every transition of a placed state is in its cell.
  ghost predicate Stored(rows: seq<seq<int>>, base: seq<nat>, chk: seq<int>, nxt: seq<int>, s: nat, c: nat)
    requires |chk| == |nxt| && |base| == |rows| && s < |rows| && c < |rows[s]|
  {
    rows[s][c] > 0 ==> base[s] + c < |chk| && chk[base[s] + c] == s && nxt[base[s] + c] == rows[s][c]
  }

  ghost predicate Packed(rows: seq<seq<int>>, base: seq<nat>, chk: seq<int>, nxt: seq<int>, placed: set<nat>) {
    && |chk| == |nxt| && |base| == |rows|
    && (forall i: nat :: i < |chk| ==> CellOk(rows, base, chk, nxt, placed, i))
    && (forall s: nat, c: nat :: s in placed && s < |rows| && c < |rows[s]| ==> Stored(rows, base, chk, nxt, s, c))
  }

  class Packer {
    const rows: seq<seq<int>>
    var base: seq<nat>
    var chk: seq<int>
    var nxt: seq<int>

    constructor (rows: seq<seq<int>>, nclasses: nat)
      ensures this.rows == rows && Packed(rows, base, chk, nxt, {})
      ensures base == seq(|rows|, _ => 0)
    {
      this.rows := rows;
      base := seq(|rows|, _ => 0);
      chk, nxt := seq(nclasses, _ => -1), seq(nclasses, _ => 0);
    }

    predicate Fits(b: nat, excs: seq<Exc>)
      reads this
    {
      forall i :: 0 <= i < |excs| ==> b + excs[i].cls >= |chk| || chk[b + excs[i].cls] == -1
    }

    method FitsAt(b: nat, excs: seq<Exc>) returns (ok: bool)
      ensures ok <==> Fits(b, excs)
    {
      var i := 0;
      while i < |excs|
        invariant i <= |excs|
        invariant forall j :: 0 <= j < i ==> b + excs[j].cls >= |chk| || chk[b + excs[j].cls] == -1
      {
        var k := b + excs[i].cls;
        if k < |chk| && chk[k] != -1 { return false; }
        i := i + 1;
      }
      return true;
    }

    /** First fit. The search always succeeds, at the latest at the end of the pool, so the fallback base is never
        used. */
    method FirstFit(excs: seq<Exc>) returns (best: nat)
      ensures best <= |chk| && Fits(best, excs)
      ensures forall b: nat :: b < best ==> !Fits(b, excs)
    {
      best := 0;
      var b := 0;
      while b < |chk| + 1
        invariant b <= |chk| + 1
        invariant forall b': nat :: b' < b ==> !Fits(b', excs)
      {
        var ok := FitsAt(b, excs);
        if ok { return b; }
        b := b + 1;
      }
      assert Fits(|chk|, excs);
      assert false;
    }

    method Resize(hi: nat)
      modifies `chk, `nxt
      requires |chk| == |nxt|
      ensures |chk| == |nxt| == if hi > |old(chk)| then hi else |old(chk)|
      ensures old(chk) <= chk && old(nxt) <= nxt
      ensures forall i :: |old(chk)| <= i < |chk| ==> chk[i] == -1
    {
      if hi > |chk| {
        chk, nxt := chk + seq(hi - |chk|, _ => -1), nxt + seq(hi - |nxt|, _ => 0);
      }
    }

    // place_at: the exceptions of state s go to base b.
    method PlaceAt(s: nat, b: nat, excs: seq<Exc>, ghost placed: set<nat>)
      requires Packed(rows, base, chk, nxt, placed) && 1 <= s < |rows| && s !in placed
      requires IsExcs(rows[s], |rows[s]|, excs) && Fits(b, excs)
      modifies `base, `chk, `nxt
      ensures Packed(rows, base, chk, nxt, placed + {s}) && base == old(base)[s := b]
    {
      var hi: nat := 0;
      var i := 0;
      while i < |excs|
        invariant i <= |excs| && forall j :: 0 <= j < i ==> b + excs[j].cls < hi
      {
        if b + excs[i].cls + 1 > hi { hi := b + excs[i].cls + 1; }
        i := i + 1;
      }
      Resize(hi);
      base := base[s := b];
      forall k: nat | k < |chk| ensures chk[k] != s {
        if k < |old(chk)| {
          assert CellOk(rows, old(base), old(chk), old(nxt), placed, k);
          assert chk[k] == old(chk)[k];
        }
      }
      forall j | 0 <= j < |excs| ensures chk[b + excs[j].cls] == -1 {
        var k := b + excs[j].cls;
        assert k < |old(chk)| ==> chk[k] == old(chk)[k];
      }
      StorePlaced(s, b, excs);
      PlacedOk(rows, old(base), old(chk), old(nxt), chk, nxt, placed, s, b, excs);
    }

    method StorePlaced(s: nat, b: nat, excs: seq<Exc>)
      requires s < |rows| && IsExcs(rows[s], |rows[s]|, excs)
      requires |chk| == |nxt|
      requires forall i :: 0 <= i < |excs| ==> b + excs[i].cls < |chk| && chk[b + excs[i].cls] == -1
      requires forall k :: 0 <= k < |chk| ==> chk[k] != s
      modifies `chk, `nxt
      ensures |chk| == |nxt| == |old(chk)|
      ensures forall k :: 0 <= k < |chk| ==>
              InRow(rows[s], s, b, chk, nxt, k) || (chk[k] == old(chk)[k] && nxt[k] == old(nxt)[k])
      ensures forall k :: 0 <= k < |chk| && old(chk)[k] != -1 ==> chk[k] == old(chk)[k]
      ensures forall j :: 0 <= j < |excs| ==> chk[b + excs[j].cls] == s && nxt[b + excs[j].cls] == excs[j].target
    {
      ghost var chk0, nxt0 := chk, nxt;
      var i := 0;
      while i < |excs|
        invariant i <= |excs| && |chk| == |nxt| == |chk0|
        invariant forall k :: 0 <= k < |chk| ==>
                  InRow(rows[s], s, b, chk, nxt, k) || (chk[k] == chk0[k] && nxt[k] == nxt0[k])
        invariant forall k :: 0 <= k < |chk| && chk0[k] != -1 ==> chk[k] == chk0[k]
        invariant forall j :: 0 <= j < i ==> chk[b + excs[j].cls] == s && nxt[b + excs[j].cls] == excs[j].target
      {
        var k := b + excs[i].cls;
        chk := chk[k := s];
        nxt := nxt[k := excs[i].target];
        i := i + 1;
      }
    }
  }

  // Cell k holds the transition of state s, based at b.
  ghost predicate InRow(row: seq<int>, s: nat, b: nat, chk: seq<int>, nxt: seq<int>, k: nat)
    requires k < |chk| == |nxt|
  {
    chk[k] == s && b <= k < b + |row| && nxt[k] == row[k - b] > 0
  }

  // The pool before and after the row of state s is placed at b.
  ghost predicate Placing(rows: seq<seq<int>>, base: seq<nat>, chk: seq<int>, nxt: seq<int>, chk': seq<int>,
      nxt': seq<int>, s: nat, b: nat) {
    && s < |rows| == |base| && |nxt| == |chk| <= |chk'| == |nxt'|
    && (forall k :: 0 <= k < |chk'| && !InRow(rows[s], s, b, chk', nxt', k) ==>
          if k < |chk| then chk'[k] == chk[k] && nxt'[k] == nxt[k] else chk'[k] == -1)
    && (forall k :: 0 <= k < |chk| && chk[k] != -1 ==> chk'[k] == chk[k])
  }

  lemma CellPlaced(rows: seq<seq<int>>, base: seq<nat>, chk: seq<int>, nxt: seq<int>, chk': seq<int>, nxt': seq<int>,
                   placed: set<nat>, s: nat, b: nat, i: nat)
    requires Packed(rows, base, chk, nxt, placed) && s !in placed && 1 <= s && i < |chk'|
    requires Placing(rows, base, chk, nxt, chk', nxt', s, b)
    ensures CellOk(rows, base[s := b], chk', nxt', placed + {s}, i)
  {
    if !InRow(rows[s], s, b, chk', nxt', i) && i < |chk| {
      assert CellOk(rows, base, chk, nxt, placed, i);
    }
  }

  lemma StoredKept(rows: seq<seq<int>>, base: seq<nat>, chk: seq<int>, nxt: seq<int>, chk': seq<int>, nxt': seq<int>,
                   placed: set<nat>, s: nat, b: nat, t: nat, c: nat)
    requires Packed(rows, base, chk, nxt, placed) && s !in placed && t in placed && t < |rows| && c < |rows[t]|
    requires Placing(rows, base, chk, nxt, chk', nxt', s, b)
    ensures Stored(rows, base[s := b], chk', nxt', t, c)
  {
    assert Stored(rows, base, chk, nxt, t, c);
  }

  lemma PlacedOk(rows: seq<seq<int>>, base: seq<nat>, chk: seq<int>, nxt: seq<int>, chk': seq<int>, nxt': seq<int>,
                 placed: set<nat>, s: nat, b: nat, excs: seq<Exc>)
    requires Packed(rows, base, chk, nxt, placed) && 1 <= s < |rows| && s !in placed && IsExcs(rows[s], |rows[s]|, excs)
    requires Placing(rows, base, chk, nxt, chk', nxt', s, b)
    requires forall j :: 0 <= j < |excs| ==>
             b + excs[j].cls < |chk'| && chk'[b + excs[j].cls] == s && nxt'[b + excs[j].cls] == excs[j].target
    ensures Packed(rows, base[s := b], chk', nxt', placed + {s})
  {
    var base', placed' := base[s := b], placed + {s};
    forall i: nat | i < |chk'| ensures CellOk(rows, base', chk', nxt', placed', i) {
      CellPlaced(rows, base, chk, nxt, chk', nxt', placed, s, b, i);
    }
    forall t: nat, c: nat | t in placed' && t < |rows| && c < |rows[t]| ensures Stored(rows, base', chk', nxt', t, c) {
      if t == s {
        if rows[s][c] > 0 {
          var j :| 0 <= j < |excs| && excs[j] == Exc(c, rows[s][c]);
        }
      } else {
        StoredKept(rows, base, chk, nxt, chk', nxt', placed, s, b, t, c);
      }
    }
  }

  // ---------- compress_dfa ------------------------------------------------

  /** Every lookup falls inside the pool and answers as the row does. */
  ghost predicate Lossless(rows: seq<seq<int>>, nclasses: nat, t: CompressedDfa)
    requires Rectangular(rows, nclasses)
  {
    && |t.base| == |t.def| == |rows| && |t.chk| == |t.nxt|
    && forall s: nat, c: nat :: s < |rows| && c < nclasses ==> Answers(rows, t, s, c)
  }

  ghost predicate Answers(rows: seq<seq<int>>, t: CompressedDfa, s: nat, c: nat)
    requires s < |t.base| == |rows| && |t.chk| == |t.nxt| && c < |rows[s]|
  {
    t.base[s] + c < |t.chk| && Lookup(t, s, c) == Entry(rows, s, c)
  }

  lemma PackedLossless(rows: seq<seq<int>>, nclasses: nat, t: CompressedDfa, placed: set<nat>)
    requires Rectangular(rows, nclasses) && Packed(rows, t.base, t.chk, t.nxt, placed) && |t.def| == |rows|
    requires forall s: nat :: s < |rows| ==> t.base[s] + nclasses <= |t.chk|
    requires 0 !in placed
    requires forall s: nat, c: nat :: 1 <= s < |rows| && c < nclasses && rows[s][c] > 0 ==> s in placed
    ensures Lossless(rows, nclasses, t)
  {
    forall s: nat, c: nat | s < |rows| && c < nclasses
      ensures Answers(rows, t, s, c)
    {
      var i := t.base[s] + c;
      assert CellOk(rows, t.base, t.chk, t.nxt, placed, i);
      if s in placed { assert Stored(rows, t.base, t.chk, t.nxt, s, c); }
    }
  }

  method MaxOf(xs: seq<nat>) returns (max: nat)
    ensures forall i :: 0 <= i < |xs| ==> xs[i] <= max
  {
    max := 0;
    var i := 0;
    while i < |xs|
      invariant i <= |xs| && forall j :: 0 <= j < i ==> xs[j] <= max
    {
      if xs[i] > max { max := xs[i]; }
      i := i + 1;
    }
  }

  method AllExceptions(rows: seq<seq<int>>) returns (excs: seq<seq<Exc>>)
    ensures |excs| == |rows| && forall s :: 1 <= s < |rows| ==> IsExcs(rows[s], |rows[s]|, excs[s])
    ensures |rows| > 0 ==> excs[0] == []
  {
    excs := [];
    var s := 0;
    while s < |rows|
      invariant s <= |rows| && |excs| == s
      invariant forall i :: 1 <= i < s ==> IsExcs(rows[i], |rows[i]|, excs[i])
      invariant s > 0 ==> excs[0] == []
    {
      var row: seq<Exc> := [];
      if s != 0 { row := Exceptions(rows[s]); }
      excs := excs + [row];
      s := s + 1;
    }
  }

  /** Comb packing is lossless, whatever the order in which equally long rows are packed. */
  method CompressDfa(rows: seq<seq<int>>, nclasses: nat) returns (t: CompressedDfa)
    requires Rectangular(rows, nclasses)
    ensures Lossless(rows, nclasses, t)
    ensures forall s :: 0 <= s < |rows| ==> t.def[s] == 0
  {
    var excs := AllExceptions(rows);
    var order := PackingOrder(excs);
    var p := new Packer(rows, nclasses);
    ghost var placed: set<nat> := {};
    var i := 0;
    while i < |order|
      invariant i <= |order|
      invariant forall s :: s in placed <==> s in order[..i]
      invariant Packed(rows, p.base, p.chk, p.nxt, placed)
    {
      var s := order[i];
      assert s !in order[..i] && order[..i + 1] == order[..i] + [s];
      var best := p.FirstFit(excs[s]);
      p.PlaceAt(s, best, excs[s], placed);
      placed := placed + {s};
      i := i + 1;
    }
    assert order[..i] == order;
    var max := MaxOf(p.base);
    ghost var chk0, nxt0 := p.chk, p.nxt;
    p.Resize(max + nclasses);
    t := CompressedDfa(p.base, seq(|rows|, _ => 0), p.nxt, p.chk);
    PackedGrow(rows, p.base, chk0, nxt0, p.chk, p.nxt, placed);
    forall s: nat, c: nat | 1 <= s < |rows| && c < nclasses && rows[s][c] > 0 ensures s in placed {
      assert IsExcs(rows[s], |rows[s]|, excs[s]);
      assert Exc(c, rows[s][c]) in excs[s];
    }
    assert 0 !in placed;
    PackedLossless(rows, nclasses, t, placed);
  }

  lemma PackedGrow(rows: seq<seq<int>>, base: seq<nat>, chk: seq<int>, nxt: seq<int>, chk': seq<int>, nxt': seq<int>,
      placed: set<nat>)
    requires Packed(rows, base, chk, nxt, placed) && |chk'| == |nxt'| && chk <= chk' && nxt <= nxt'
    requires forall i :: |chk| <= i < |chk'| ==> chk'[i] == -1
    ensures Packed(rows, base, chk', nxt', placed)
  {
    forall i: nat | i < |chk'| ensures CellOk(rows, base, chk', nxt', placed, i) {
      if i < |chk| { assert CellOk(rows, base, chk, nxt, placed, i); }
    }
    forall s: nat, c: nat | s in placed && s < |rows| && c < |rows[s]| ensures Stored(rows, base, chk', nxt', s, c) {
      assert Stored(rows, base, chk, nxt, s, c);
    }
  }
}
