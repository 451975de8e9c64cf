// Byte equivalence classes (src/eclass.cpp).

module Eclass {
  import opened Bytes
  import opened NfaGraph

  // byte -> class id, and the number of classes
  datatype Eclasses = Eclasses(ec: seq<nat>, nclasses: nat)

  ghost predicate Has(s: seq<int>, x: int) {
    exists i :: 0 <= i < |s| && s[i] == x
  }

  /** The ids are exactly 0..n: every byte has one and every one has a byte. */
  ghost predicate Onto(cls: seq<nat>, n: nat) {
    && |cls| == 256
    && (forall b :: 0 <= b < 256 ==> cls[b] < n)
    && (forall c: nat :: c < n ==> Has(cls, c))
  }

  // No edge of S tells a and b apart.
  ghost predicate Indistinct(S: Graph, a: byte, b: byte) {
    forall p, i :: 0 <= p < |S| && 0 <= i < |S[p].out| ==> (a in S[p].out[i].on <==> b in S[p].out[i].on)
  }

  ghost predicate Respects(S: Graph, e: Eclasses) {
    && Onto(e.ec, e.nclasses)
    && forall a: byte, b: byte :: e.ec[a] == e.ec[b] ==> Indistinct(S, a, b)
  }

  ghost predicate Exact(S: Graph, e: Eclasses) {
    && Onto(e.ec, e.nclasses)
    && forall a: byte, b: byte :: e.ec[a] == e.ec[b] <==> Indistinct(S, a, b)
  }

  // ---------- pigeonhole -------------------------------------------------

  ghost function Values(cls: seq<nat>, m: nat): set<nat>
    requires m <= |cls|
  {
    set i | 0 <= i < m :: cls[i]
  }

  lemma {:induction false} ValuesSize(cls: seq<nat>, m: nat)
    requires m <= |cls|
    ensures |Values(cls, m)| <= m
    ensures (exists i, j :: 0 <= i < j < m && cls[i] == cls[j]) ==> |Values(cls, m)| < m
  {
    if m > 0 {
      ValuesSize(cls, m - 1);
      assert Values(cls, m) == Values(cls, m - 1) + {cls[m - 1]};
      if i, j :| 0 <= i < j < m && cls[i] == cls[j] {
        if j == m - 1 { assert Values(cls, m) == Values(cls, m - 1); }
      }
    }
  }

  ghost function Range(n: nat): (r: set<nat>)
    ensures |r| == n && forall k: nat :: k in r <==> k < n
  {
    if n == 0 then {} else Range(n - 1) + {n - 1}
  }

  /** There are at most 256 classes, and if there are 256 then every byte is alone in its own. */
  lemma Pigeonhole(cls: seq<nat>, n: nat)
    requires Onto(cls, n)
    ensures n <= 256
    ensures n == 256 ==> forall a, b :: 0 <= a < 256 && 0 <= b < 256 && cls[a] == cls[b] ==> a == b
  {
    ValuesSize(cls, 256);
    forall k: nat | k < n ensures k in Values(cls, 256) { assert Has(cls, k); }
    assert Values(cls, 256) == Range(n);
  }

  // ---------- refinement -------------------------------------------------

  method IdentityEclasses() returns (e: Eclasses)
    ensures e.nclasses == 256 && Onto(e.ec, 256) && forall b: byte :: e.ec[b] == b
    ensures forall S :: Respects(S, e)
  {
    e := Eclasses(seq(256, i => i), 256);
    forall c: nat | c < 256 ensures Has(e.ec, c) { assert e.ec[c] == c; }
  }

  // Class c has bytes on both sides of B.
  ghost predicate Split(cls: seq<nat>, B: set<byte>, c: nat)
    requires |cls| == 256
  {
    && (exists a: byte :: cls[a] == c && a in B)
    && (exists a: byte :: cls[a] == c && a !in B)
  }

  // remap gives the first m classes that B splits the ids n..n' in turn, and the others -1.
  ghost predicate Remapped(cls: seq<nat>, n: nat, B: set<byte>, remap: seq<int>, m: nat, n': nat)
    requires |cls| == 256
  {
    && |remap| == n <= n'
    && (forall c :: 0 <= c < n ==> -1 <= remap[c] < n')
    && (forall c :: 0 <= c < n && remap[c] >= 0 ==> n <= remap[c] && c < m && Split(cls, B, c))
    && (forall c :: 0 <= c < n && c < m && Split(cls, B, c) ==> remap[c] >= 0)
    && (forall c, d :: 0 <= c < d < n && remap[c] >= 0 ==> remap[c] != remap[d])
    && (forall id: int :: n <= id < n' ==> Has(remap, id))
  }

  function Moved(cls: seq<nat>, B: set<byte>, remap: seq<int>, b: nat): nat
    requires |cls| == 256 && b < 256 && cls[b] < |remap|
  {
    if b in B && remap[cls[b]] >= 0 then remap[cls[b]] else cls[b]
  }

  function AllMoved(cls: seq<nat>, B: set<byte>, remap: seq<int>): seq<nat>
    requires |cls| == 256 && forall b :: 0 <= b < 256 ==> cls[b] < |remap|
  {
    seq(256, b requires 0 <= b < 256 => Moved(cls, B, remap, b))
  }

  lemma MovedOnto(cls: seq<nat>, n: nat, B: set<byte>, remap: seq<int>, m: nat, n': nat)
    requires Onto(cls, n) && Remapped(cls, n, B, remap, m, n')
    ensures Onto(AllMoved(cls, B, remap), n')
    ensures n' <= 256
  {
    var moved := AllMoved(cls, B, remap);
    forall id: nat | id < n' ensures Has(moved, id) {
      if id < n {
        assert Has(cls, id);
        var b :| 0 <= b < 256 && cls[b] == id;
        if remap[id] >= 0 {
          var a: byte :| cls[a] == id && a !in B;
          assert moved[a] == id;
        } else {
          assert moved[b] == id;
        }
      } else {
        assert Has(remap, id);
        var c :| 0 <= c < n && remap[c] == id;
        var a: byte :| cls[a] == c && a in B;
        assert moved[a] == id;
      }
    }
    forall b | 0 <= b < 256 ensures moved[b] < n' {
      assert cls[b] < n;
    }
    Pigeonhole(moved, n');
  }

  lemma RemapSplit(cls: seq<nat>, n: nat, B: set<byte>, remap: seq<int>, c: nat, n': nat)
    requires Onto(cls, n) && Remapped(cls, n, B, remap, c, n') && Split(cls, B, c)
    ensures c < n && Remapped(cls, n, B, remap[c := n'], c + 1, n' + 1)
  {
    var a: byte :| cls[a] == c && a in B;
    var after := remap[c := n'];
    forall id | n <= id < n' + 1 ensures Has(after, id) {
      if id == n' {
        assert after[c] == id;
      } else {
        assert Has(remap, id);
        var d :| 0 <= d < n && remap[d] == id;
        assert after[d] == id;
      }
    }
  }

  /** Moving the bytes of B in split classes separates exactly the pairs that B parts. */
  lemma MovedSeparates(cls: seq<nat>, n: nat, B: set<byte>, remap: seq<int>, m: nat, n': nat, a: byte, b: byte)
    requires Onto(cls, n) && Remapped(cls, n, B, remap, m, n') && n <= m
    ensures Moved(cls, B, remap, a) == Moved(cls, B, remap, b) <==> cls[a] == cls[b] && (a in B <==> b in B)
  {
    if cls[a] == cls[b] && a in B && b !in B { assert Split(cls, B, cls[a]); }
    if cls[a] == cls[b] && a !in B && b in B { assert Split(cls, B, cls[a]); }
  }

  // Both halves of class c, as far as the loop needs to look.
  method Halves(cls: array<nat>, B: set<byte>, c: nat) returns (inAny: bool, outAny: bool)
    requires cls.Length == 256 && c < 256
    ensures inAny && outAny <==> Split(cls[..], B, c)
  {
    inAny, outAny := false, false;
    var b: nat := 0;
    while b < 256
      invariant b <= 256
      invariant inAny <==> exists a: byte :: a < b && cls[..][a] == c && a in B
      invariant outAny <==> exists a: byte :: a < b && cls[..][a] == c && a !in B
    {
      if cls[b] == c % 256 {
        if (b as byte) in B { inAny := true; } else { outAny := true; }
      }
      b := b + 1;
      if inAny && outAny { break; }
    }
  }

  /** One refinement step: bytes stay together iff they were together and B does not part them. The source's
      "saturated" return is unreachable. */
  method Refine(cls: array<nat>, n: nat, B: set<byte>) returns (n': nat)
    requires cls.Length == 256 && Onto(cls[..], n)
    modifies cls
    ensures n <= n' <= 256 && Onto(cls[..], n')
    ensures forall a: byte, b: byte :: cls[a] == cls[b] <==> old(cls[a] == cls[b]) && (a in B <==> b in B)
  {
    ghost var before := cls[..];
    Pigeonhole(before, n);
    var remap := seq(n, _ => -1);
    n' := n;
    var c := 0;
    while c < n'
      invariant c <= n' <= 256 && cls[..] == before
      invariant Remapped(before, n, B, remap, c, n')
      decreases 256 - c
    {
      var inAny, outAny := Halves(cls, B, c);
      if inAny && outAny {
        RemapSplit(before, n, B, remap, c, n');
        remap := remap[c := n'];
        n' := n' + 1;
        MovedOnto(before, n, B, remap, c + 1, n');
      }
      c := c + 1;
    }
    MovedOnto(before, n, B, remap, c, n');
    Reassign(cls, n, B, remap);
    forall a: byte, b: byte ensures cls[a] == cls[b] <==> before[a] == before[b] && (a in B <==> b in B) {
      MovedSeparates(before, n, B, remap, c, n', a, b);
      assert cls[a] == cls[..][a] && cls[b] == cls[..][b];
    }
  }

  // The second loop of refine.
  method Reassign(cls: array<nat>, ghost n: nat, B: set<byte>, remap: seq<int>)
    requires cls.Length == 256 && |remap| == n && Onto(cls[..], n)
    modifies cls
    ensures cls[..] == AllMoved(old(cls[..]), B, remap)
  {
    ghost var before := cls[..];
    var b: nat := 0;
    while b < 256
      invariant b <= 256
      invariant forall a :: 0 <= a < b ==> cls[a] == Moved(before, B, remap, a)
      invariant forall a :: b <= a < 256 ==> cls[a] == before[a]
    {
      assert before[b] < n;
      var r := remap[cls[b]];
      if r >= 0 && (b as byte) in B { cls[b] := r; }
      b := b + 1;
    }
  }

  // a and b agree on every edge before edge i of state p.
  ghost predicate AgreeUpTo(S: Graph, p: nat, i: nat, a: byte, b: byte) {
    forall q, j :: 0 <= q < |S| && 0 <= j < |S[q].out| && (q < p || (q == p && j < i)) ==>
      (a in S[q].out[j].on <==> b in S[q].out[j].on)
  }

  // The inner loop of compute_eclasses: the edges of state p. It stops early once every byte is alone.
  method RefineState(S: Graph, p: nat, cls: array<nat>, n: nat) returns (n': nat)
    requires p < |S| && cls.Length == 256 && Onto(cls[..], n)
    requires forall a: byte, b: byte :: cls[..][a] == cls[..][b] <==> AgreeUpTo(S, p, 0, a, b)
    modifies cls
    ensures Onto(cls[..], n')
    ensures n' < 256 ==> forall a: byte, b: byte :: cls[..][a] == cls[..][b] <==> AgreeUpTo(S, p + 1, 0, a, b)
    ensures n' >= 256 ==> forall a: byte, b: byte :: cls[..][a] == cls[..][b] <==> Indistinct(S, a, b)
  {
    var i := 0;
    n' := n;
    while i < |S[p].out|
      invariant i <= |S[p].out| && Onto(cls[..], n')
      invariant forall a: byte, b: byte :: cls[..][a] == cls[..][b] <==> AgreeUpTo(S, p, i, a, b)
    {
      var B := S[p].out[i].on;
      if B != {} {
        n' := Refine(cls, n', B);
        if n' >= 256 {
          Pigeonhole(cls[..], n');
          return;
        }
      }
      i := i + 1;
    }
    Pigeonhole(cls[..], n');
  }

  /** Two bytes share a class iff every edge of the NFA covers both or neither. */
  method ComputeEclasses(S: Graph) returns (e: Eclasses)
    ensures Exact(S, e)
  {
    var cls := new nat[256](_ => 0);
    var n: nat := 1;
    var p := 0;
    assert cls[..][0] == 0;
    while p < |S|
      invariant p <= |S| && Onto(cls[..], n)
      invariant forall a: byte, b: byte :: cls[..][a] == cls[..][b] <==> AgreeUpTo(S, p, 0, a, b)
    {
      n := RefineState(S, p, cls, n);
      if n >= 256 { return Eclasses(cls[..], n); }
      p := p + 1;
    }
    return Eclasses(cls[..], n);
  }
}
