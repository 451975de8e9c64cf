// Bytes, words, and the algebra of languages that regexes denote.

module Bytes {
  type byte = b: int | 0 <= b < 256
  type Word = seq<byte>
  type Language = iset<Word>

  const NEWLINE: byte := 10
}

module Languages {
  import opened Bytes

  const EPSILON: Language := iset{[]}
  const NOTHING: Language := iset{}

  ghost predicate Splits(w: Word, i: int, A: Language, B: Language) {
    0 <= i <= |w| && w[..i] in A && w[i..] in B
  }

  ghost predicate InCat(w: Word, A: Language, B: Language) {
    exists i :: Splits(w, i, A, B)
  }

  ghost function Cat(A: Language, B: Language): Language {
    iset w: Word | InCat(w, A, B)
  }

  ghost function Pow(A: Language, k: nat): Language {
    if k == 0 then EPSILON else Cat(A, Pow(A, k - 1))
  }

  // A concatenation of lo to hi words of A, for a natural or no upper bound.
  ghost predicate InBetween(w: Word, A: Language, lo: nat, hi: nat) {
    exists k: nat :: lo <= k <= hi && w in Pow(A, k)
  }

  ghost predicate InAtLeast(w: Word, A: Language, lo: nat) {
    exists k: nat :: lo <= k && w in Pow(A, k)
  }

  ghost function Between(A: Language, lo: nat, hi: nat): Language {
    iset w: Word | InBetween(w, A, lo, hi)
  }

  ghost function AtLeast(A: Language, lo: nat): Language {
    iset w: Word | InAtLeast(w, A, lo)
  }

  lemma CatIntro(u: Word, v: Word, A: Language, B: Language)
    requires u in A && v in B
    ensures u + v in Cat(A, B)
  {
    assert (u + v)[..|u|] == u && (u + v)[|u|..] == v;
    assert Splits(u + v, |u|, A, B);
  }

  lemma CatElim(w: Word, A: Language, B: Language) returns (u: Word, v: Word)
    requires w in Cat(A, B)
    ensures w == u + v && u in A && v in B
  {
    var i :| Splits(w, i, A, B);
    u, v := w[..i], w[i..];
  }

  lemma CatEpsilon(A: Language)
    ensures Cat(EPSILON, A) == A && Cat(A, EPSILON) == A
  {
    forall w: Word ensures w in Cat(EPSILON, A) <==> w in A {
      if w in Cat(EPSILON, A) { var u, v := CatElim(w, EPSILON, A); assert w == v; }
      if w in A { CatIntro([], w, EPSILON, A); assert [] + w == w; }
    }
    forall w: Word ensures w in Cat(A, EPSILON) <==> w in A {
      if w in Cat(A, EPSILON) { var u, v := CatElim(w, A, EPSILON); assert w == u; }
      if w in A { CatIntro(w, [], A, EPSILON); assert w + [] == w; }
    }
  }

  lemma CatAssoc(A: Language, B: Language, C: Language)
    ensures Cat(Cat(A, B), C) == Cat(A, Cat(B, C))
  {
    forall w: Word ensures w in Cat(Cat(A, B), C) <==> w in Cat(A, Cat(B, C)) {
      if w in Cat(Cat(A, B), C) {
        var uv, z := CatElim(w, Cat(A, B), C);
        var u, v := CatElim(uv, A, B);
        CatIntro(v, z, B, C); CatIntro(u, v + z, A, Cat(B, C));
        assert u + (v + z) == w;
      }
      if w in Cat(A, Cat(B, C)) {
        var u, vz := CatElim(w, A, Cat(B, C));
        var v, z := CatElim(vz, B, C);
        CatIntro(u, v, A, B); CatIntro(u + v, z, Cat(A, B), C);
        assert (u + v) + z == w;
      }
    }
  }

  lemma {:induction false} PowAdd(A: Language, j: nat, k: nat)
    ensures Cat(Pow(A, j), Pow(A, k)) == Pow(A, j + k)
  {
    if j == 0 {
      CatEpsilon(Pow(A, k));
    } else {
      CatAssoc(A, Pow(A, j - 1), Pow(A, k));
      PowAdd(A, j - 1, k);
    }
  }

  lemma PowOne(A: Language)
    ensures Pow(A, 1) == A
  {
    CatEpsilon(A);
    assert Pow(A, 1) == Cat(A, Pow(A, 0));
  }

  lemma PowSnoc(A: Language, k: nat)
    ensures Cat(Pow(A, k), A) == Pow(A, k + 1)
  {
    PowOne(A);
    PowAdd(A, k, 1);
  }

  // A word of Pow(A, j) followed by one of Pow(A, k) is one of Pow(A, j + k).
  lemma PowJoin(A: Language, u: Word, j: nat, v: Word, k: nat)
    requires u in Pow(A, j) && v in Pow(A, k)
    ensures u + v in Pow(A, j + k)
  {
    CatIntro(u, v, Pow(A, j), Pow(A, k));
    PowAdd(A, j, k);
  }

  lemma PowSingle(A: Language, w: Word)
    requires w in A
    ensures w in Pow(A, 1)
  {
    CatIntro(w, [], A, Pow(A, 0));
    assert w + [] == w;
  }

  lemma PowCons(A: Language, u: Word, v: Word, k: nat)
    requires u in A && v in Pow(A, k)
    ensures u + v in Pow(A, k + 1)
  {
    CatIntro(u, v, A, Pow(A, k));
  }

  lemma BetweenSnocIntro(A: Language, lo: nat, hi: nat, u: Word, v: Word)
    requires u in Between(A, lo, hi) && (v in A || v == [])
    ensures u + v in Between(A, lo, hi + 1)
  {
    var k: nat :| lo <= k <= hi && u in Pow(A, k);
    if v in A {
      PowSingle(A, v);
      PowJoin(A, u, k, v, 1);
    } else {
      assert u + v == u;
    }
  }

  lemma BetweenSnocElim(A: Language, lo: nat, hi: nat, w: Word) returns (u: Word, v: Word)
    requires lo <= hi && w in Between(A, lo, hi + 1)
    ensures w == u + v && u in Between(A, lo, hi) && (v in A || v == [])
  {
    var k: nat :| lo <= k <= hi + 1 && w in Pow(A, k);
    if k <= hi {
      u, v := w, [];
      assert InBetween(u, A, lo, hi);
    } else {
      PowSnoc(A, hi);
      u, v := CatElim(w, Pow(A, hi), A);
      assert InBetween(u, A, lo, hi);
    }
  }

  /** One more optional copy: {lo,hi} followed by an optional copy is {lo,hi+1}. */
  lemma BetweenSnoc(A: Language, lo: nat, hi: nat)
    requires lo <= hi
    ensures Cat(Between(A, lo, hi), A + EPSILON) == Between(A, lo, hi + 1)
  {
    forall w: Word ensures w in Cat(Between(A, lo, hi), A + EPSILON) <==> w in Between(A, lo, hi + 1) {
      if w in Cat(Between(A, lo, hi), A + EPSILON) {
        var u, v := CatElim(w, Between(A, lo, hi), A + EPSILON);
        BetweenSnocIntro(A, lo, hi, u, v);
      }
      if w in Between(A, lo, hi + 1) {
        var u, v := BetweenSnocElim(A, lo, hi, w);
        CatIntro(u, v, Between(A, lo, hi), A + EPSILON);
      }
    }
  }

  /** lo copies and then any number of them is {lo,}. */
  lemma AtLeastSplit(A: Language, lo: nat)
    ensures Cat(Pow(A, lo), AtLeast(A, 0)) == AtLeast(A, lo)
  {
    forall w: Word ensures w in Cat(Pow(A, lo), AtLeast(A, 0)) <==> w in AtLeast(A, lo) {
      if w in Cat(Pow(A, lo), AtLeast(A, 0)) {
        var u, v := CatElim(w, Pow(A, lo), AtLeast(A, 0));
        var k: nat :| 0 <= k && v in Pow(A, k);
        PowJoin(A, u, lo, v, k);
      }
      if w in AtLeast(A, lo) { AtLeastSplitWord(A, lo, w); }
    }
  }

  lemma AtLeastSplitWord(A: Language, lo: nat, w: Word)
    requires w in AtLeast(A, lo)
    ensures w in Cat(Pow(A, lo), AtLeast(A, 0))
  {
    var k: nat :| lo <= k && w in Pow(A, k);
    var d: nat := k - lo;
    PowAdd(A, lo, d);
    var u, v := CatElim(w, Pow(A, lo), Pow(A, d));
    assert InAtLeast(v, A, 0);
    CatIntro(u, v, Pow(A, lo), AtLeast(A, 0));
  }

  lemma BetweenSelf(A: Language, k: nat)
    ensures Between(A, k, k) == Pow(A, k)
  {
    forall w: Word ensures w in Between(A, k, k) <==> w in Pow(A, k) {
    }
  }

  // Fewer than n copies of A, then a word of M: the words on which the
  // body of a repetition, entered at most n times, reaches a mark of M.
  ghost predicate InWithin(w: Word, A: Language, M: Language, n: nat) {
    exists k: nat :: k < n && w in Cat(Pow(A, k), M)
  }

  ghost function Within(A: Language, M: Language, n: nat): Language {
    iset w: Word | InWithin(w, A, M, n)
  }

  lemma WithinStep(A: Language, M: Language, lo: nat, hi: nat)
    requires lo <= hi
    ensures Within(A, M, hi) + Cat(Between(A, lo, hi), M) == Within(A, M, hi + 1)
  {
    forall w: Word ensures w in Within(A, M, hi) + Cat(Between(A, lo, hi), M) <==> w in Within(A, M, hi + 1) {
      if w in Cat(Between(A, lo, hi), M) {
        var u, v := CatElim(w, Between(A, lo, hi), M);
        var k: nat :| lo <= k <= hi && u in Pow(A, k);
        CatIntro(u, v, Pow(A, k), M);
      }
      if w in Within(A, M, hi + 1) {
        var k: nat :| k < hi + 1 && w in Cat(Pow(A, k), M);
        if k == hi {
          var u, v := CatElim(w, Pow(A, k), M);
          assert InBetween(u, A, lo, hi);
          CatIntro(u, v, Between(A, lo, hi), M);
        }
      }
    }
  }

  lemma WithinLimit(A: Language, M: Language, lo: nat)
    ensures Within(A, M, lo) + Cat(Pow(A, lo), Cat(AtLeast(A, 0), M)) == Cat(AtLeast(A, 0), M)
  {
    CatAssoc(Pow(A, lo), AtLeast(A, 0), M);
    AtLeastSplit(A, lo);
    forall w: Word ensures w in Within(A, M, lo) + Cat(AtLeast(A, lo), M) <==> w in Cat(AtLeast(A, 0), M) {
      if w in Within(A, M, lo) {
        var k: nat :| k < lo && w in Cat(Pow(A, k), M);
        var u, v := CatElim(w, Pow(A, k), M);
        assert InAtLeast(u, A, 0);
        CatIntro(u, v, AtLeast(A, 0), M);
      }
      if w in Cat(AtLeast(A, lo), M) {
        var u, v := CatElim(w, AtLeast(A, lo), M);
        assert InAtLeast(u, A, 0);
        CatIntro(u, v, AtLeast(A, 0), M);
      }
      if w in Cat(AtLeast(A, 0), M) {
        var u, v := CatElim(w, AtLeast(A, 0), M);
        var k: nat :| 0 <= k && u in Pow(A, k);
        if k < lo { CatIntro(u, v, Pow(A, k), M); } else { CatIntro(u, v, AtLeast(A, lo), M); }
      }
    }
  }

  ghost predicate AllOfLength(A: Language, n: nat) {
    forall w :: w in A ==> |w| == n
  }

  lemma CatLength(A: Language, m: nat, B: Language, n: nat)
    requires AllOfLength(A, m) && AllOfLength(B, n)
    ensures AllOfLength(Cat(A, B), m + n)
  {
    forall w | w in Cat(A, B) ensures |w| == m + n {
      var u, v := CatElim(w, A, B);
    }
  }

  lemma {:induction false} PowLength(A: Language, n: nat, k: nat)
    requires AllOfLength(A, n)
    ensures AllOfLength(Pow(A, k), n * k)
  {
    if k > 0 {
      PowLength(A, n, k - 1);
      CatLength(A, n, Pow(A, k - 1), n * (k - 1));
    }
  }

  // ---------- monotonicity ------------------------------------------------

  lemma CatMonotone(A: Language, A': Language, B: Language, B': Language)
    requires A <= A' && B <= B'
    ensures Cat(A, B) <= Cat(A', B')
  {
    forall w | w in Cat(A, B) ensures w in Cat(A', B') {
      var u, v := CatElim(w, A, B);
      CatIntro(u, v, A', B');
    }
  }

  lemma {:induction false} PowMonotone(A: Language, A': Language, k: nat)
    requires A <= A'
    ensures Pow(A, k) <= Pow(A', k)
  {
    if k > 0 {
      PowMonotone(A, A', k - 1);
      CatMonotone(A, A', Pow(A, k - 1), Pow(A', k - 1));
    }
  }

  lemma RepeatMonotone(A: Language, A': Language, lo: nat, hi: nat)
    requires A <= A'
    ensures AtLeast(A, lo) <= AtLeast(A', lo) && Between(A, lo, hi) <= Between(A', lo, hi)
  {
    forall k: nat ensures Pow(A, k) <= Pow(A', k) { PowMonotone(A, A', k); }
  }
}
