// What stands in a text is read alike in any larger text, as long as what
// follows there cannot be part of it.

module RegexLocality {
  import opened Wrappers
  import opened Bytes
  import opened RegexText
  import opened RegexAtoms
  import opened Regex
  import opened Slash

  /** t holds s from position o on, and after it ends, or goes on with a slash or a closing parenthesis. */
  predicate Stands(s: Text, t: Text, o: nat) {
    o + |s| <= |t| && (forall i :: 0 <= i < |s| ==> t[o + i] == s[i]) && CharAt(t, o + |s|) in [NUL, '/', ')']
  }

  lemma SameChar(s: Text, t: Text, o: nat, p: nat)
    requires Stands(s, t, o) && p < |s|
    ensures CharAt(t, o + p) == CharAt(s, p) == s[p]
  {
  }

  lemma SameSlice(s: Text, t: Text, o: nat, i: nat, j: nat)
    requires Stands(s, t, o) && i <= j <= |s|
    ensures t[o + i..o + j] == s[i..j]
  {
    forall k | 0 <= k < j - i ensures t[o + i..o + j][k] == s[i..j][k] {
      SameChar(s, t, o, i + k);
    }
  }

  // A run of characters that can be continued neither by the end nor by a slash or parenthesis.
  lemma {:induction false} RunInside(f: ch -> bool, s: Text, t: Text, o: nat, i: nat, limit: nat, limit': nat)
    requires Stands(s, t, o) && i <= |s| && i <= limit && o + i <= limit' && !f('/') && !f(')') && !f(NUL)
    requires limit' == o + limit || (limit == |s| && limit' == |t|)
    ensures RunEnd(f, t, o + i, limit') == o + RunEnd(f, s, i, limit)
    decreases limit - i
  {
    if i < |s| {
      SameChar(s, t, o, i);
      if i < limit && f(s[i]) { RunInside(f, s, t, o, i + 1, limit, limit'); }
    }
  }

  // ---------- escapes -------------------------------------------------------

  lemma OctalInside(s: Text, t: Text, o: nat, p: nat)
    requires Stands(s, t, o) && p + 1 < |s| && IsOctal(s[p + 1])
    ensures EscapeAt(t, o + p) == (EscapeAt(s, p).0, o + EscapeAt(s, p).1)
  {
    RunInside(IsOctal, s, t, o, p + 1, p + 4, o + p + 4);
    SameChar(s, t, o, p + 1);
    SameSlice(s, t, o, p + 1, EscapeAt(s, p).1);
  }

  lemma HexInside(s: Text, t: Text, o: nat, p: nat)
    requires Stands(s, t, o) && p + 1 < |s| && s[p + 1] == 'x'
    ensures EscapeAt(t, o + p) == (EscapeAt(s, p).0, o + EscapeAt(s, p).1)
  {
    RunInside(IsXDigit, s, t, o, p + 2, p + 4, o + p + 4);
    SameChar(s, t, o, p + 1);
    SameSlice(s, t, o, p + 2, EscapeAt(s, p).1);
  }

  lemma EscapeInside(s: Text, t: Text, o: nat, p: nat)
    requires Stands(s, t, o) && p + 1 < |s|
    ensures EscapeAt(t, o + p) == (EscapeAt(s, p).0, o + EscapeAt(s, p).1)
  {
    SameChar(s, t, o, p + 1);
    if IsOctal(s[p + 1]) { OctalInside(s, t, o, p); } else if s[p + 1] == 'x' { HexInside(s, t, o, p); }
  }

  lemma ClassByteInside(s: Text, t: Text, o: nat, p: nat)
    requires Stands(s, t, o) && p < |s| && (s[p] == '\\' ==> p + 1 < |s|)
    ensures ClassByteAt(t, o + p) == (ClassByteAt(s, p).0, o + ClassByteAt(s, p).1)
  {
    SameChar(s, t, o, p);
    if s[p] == '\\' { EscapeInside(s, t, o, p); }
  }

  // ---------- bracket expressions -------------------------------------------

  // The byte at p is a and ends at m. Here and below such a statement is made of every position equal to p, so that
  // lemmas that only pass it on do not unfold what it says.
  ghost predicate ByteIs(s: Text, p: nat, a: byte, m: nat) {
    p < m && forall q :: p <= q < |s| && q == p ==> ClassByteAt(s, q) == (a, m)
  }

  lemma ByteShift(s: Text, t: Text, o: nat, p: nat, a: byte, m: nat)
    requires Stands(s, t, o) && p < |s| && (s[p] == '\\' ==> p + 1 < |s|) && ByteIs(s, p, a, m)
    ensures ByteIs(t, o + p, a, o + m)
  {
    assert ClassByteAt(s, p) == (a, m);
    ClassByteInside(s, t, o, p);
  }

  predicate Ranged(s: Text, m: nat) {
    CharAt(s, m) == '-' && CharAt(s, m + 1) != ']' && CharAt(s, m + 1) != NUL
  }

  // The element at p is x and ends at e.
  ghost predicate ElementIs(s: Text, p: nat, ci: bool, x: set<byte>, e: nat) {
    p < e && forall q :: p <= q < |s| && q == p ==> ElementAt(s, q, ci) == (x, e)
  }

  lemma SingleElement(s: Text, p: nat, ci: bool, a: byte, m: nat)
    requires p < |s| && ByteIs(s, p, a, m) && !Ranged(s, m)
    ensures ElementIs(s, p, ci, Folded(a, ci), m)
  {
  }

  lemma RangedElement(s: Text, p: nat, ci: bool, a: byte, m: nat, b: byte, e: nat)
    requires p < |s| && ByteIs(s, p, a, m) && Ranged(s, m) && ByteIs(s, m + 1, b, e)
    ensures ElementIs(s, p, ci, RangeOf(a, b, ci), e)
  {
  }

  lemma ElementParts(s: Text, p: nat, ci: bool, x: set<byte>, e: nat) returns (a: byte, m: nat, b: byte)
    requires p < |s| && ElementIs(s, p, ci, x, e)
    ensures ByteIs(s, p, a, m)
    ensures if Ranged(s, m) then ByteIs(s, m + 1, b, e) && x == RangeOf(a, b, ci) else x == Folded(a, ci) && m == e
  {
    var (a', m') := ClassByteAt(s, p);
    a, m, b := a', m', a';
    assert ElementAt(s, p, ci) == (x, e);
    if Ranged(s, m) { b := ClassByteAt(s, m + 1).0; }
  }

  // The element at p ends by e, where a bracket stands.
  lemma ElementShift(s: Text, t: Text, o: nat, p: nat, ci: bool, x: set<byte>, e: nat, last: nat)
    requires Stands(s, t, o) && p < e <= last < |s| && s[last] == ']' && ElementIs(s, p, ci, x, e)
    ensures ElementIs(t, o + p, ci, x, o + e)
  {
    var a, m, b := ElementParts(s, p, ci, x, e);
    ByteShift(s, t, o, p, a, m);
    SameChar(s, t, o, m);
    if m < last { SameChar(s, t, o, m + 1); }
    if Ranged(s, m) {
      ByteShift(s, t, o, m + 1, b, e);
      RangedElement(t, o + p, ci, a, o + m, b, o + e);
    } else {
      SingleElement(t, o + p, ci, a, o + m);
    }
  }

  lemma ElementInside(s: Text, t: Text, o: nat, p: nat, e: nat, ci: bool)
    requires Stands(s, t, o) && p < e < |s| && s[e] == ']' && ElementAt(s, p, ci).1 <= e
    ensures ElementAt(t, o + p, ci) == (ElementAt(s, p, ci).0, o + ElementAt(s, p, ci).1)
  {
    ElementShift(s, t, o, p, ci, ElementAt(s, p, ci).0, ElementAt(s, p, ci).1, e);
  }

  // What [:name:] reads as, once the name is known and whether it is closed.
  function PosixNamed(name: Text, closed: bool, e: nat, ci: bool): Option<(set<byte>, nat)> {
    if !closed || PosixClass(name, ci).None? then None else Some((PosixClass(name, ci).value, e + 2))
  }

  lemma PosixIs(s: Text, p: nat, name: Text, e: nat, ci: bool)
    requires CharAt(s, p) == '[' && CharAt(s, p + 1) == ':'
    requires e == RunEnd(IsAlpha, s, p + 2, p + 18) && name == s[p + 2..e]
    ensures PosixAt(s, p, ci) == PosixNamed(name, CharAt(s, e) == ':' && CharAt(s, e + 1) == ']', e, ci)
  {
  }

  lemma PosixEnd(s: Text, t: Text, o: nat, p: nat) returns (e: nat)
    requires Stands(s, t, o) && CharAt(s, p) == '[' && CharAt(s, p + 1) == ':'
    ensures CharAt(t, o + p) == '[' && CharAt(t, o + p + 1) == ':'
    ensures p + 2 <= e <= |s| && e == RunEnd(IsAlpha, s, p + 2, p + 18)
    ensures o + e == RunEnd(IsAlpha, t, o + p + 2, o + p + 18) && t[o + p + 2..o + e] == s[p + 2..e]
    ensures CharAt(s, e) == ':' && CharAt(s, e + 1) == ']' <==> CharAt(t, o + e) == ':' && CharAt(t, o + e + 1) == ']'
  {
    e := RunEnd(IsAlpha, s, p + 2, p + 18);
    SameChar(s, t, o, p);
    SameChar(s, t, o, p + 1);
    RunInside(IsAlpha, s, t, o, p + 2, p + 18, o + p + 18);
    SameSlice(s, t, o, p + 2, e);
    if e < |s| { SameChar(s, t, o, e); }
    if e + 1 < |s| { SameChar(s, t, o, e + 1); }
  }

  lemma PosixInside(s: Text, t: Text, o: nat, p: nat, ci: bool)
    requires Stands(s, t, o) && CharAt(s, p) == '[' && CharAt(s, p + 1) == ':'
    ensures CharAt(t, o + p) == '[' && CharAt(t, o + p + 1) == ':'
    ensures match PosixAt(s, p, ci)
            case None => PosixAt(t, o + p, ci).None?
            case Some(x) => PosixAt(t, o + p, ci) == Some((x.0, o + x.1))
  {
    var e := PosixEnd(s, t, o, p);
    var name := s[p + 2..e];
    PosixIs(s, p, name, e, ci);
    PosixIs(t, o + p, name, o + e, ci);
  }

  lemma NextInside(s: Text, t: Text, o: nat, p: nat, e: nat, ci: bool)
    requires Stands(s, t, o) && p < e < |s| && s[e] == ']' && NextAt(s, p, ci).1 <= e
    ensures NextAt(t, o + p, ci) == (NextAt(s, p, ci).0, o + NextAt(s, p, ci).1)
  {
    SameChar(s, t, o, p);
    SameChar(s, t, o, p + 1);
    var posix := CharAt(s, p) == '[' && CharAt(s, p + 1) == ':';
    if posix { PosixInside(s, t, o, p, ci); }
    if !posix || PosixAt(s, p, ci).None? { ElementInside(s, t, o, p, e, ci); }
  }

  // The next element at p is x and ends at m.
  ghost predicate NextIs(s: Text, p: nat, ci: bool, x: set<byte>, m: nat) {
    p < m && forall q :: p <= q < |s| && q == p ==> NextAt(s, q, ci) == (x, m)
  }

  // The elements from p on are x and end at e.
  ghost predicate ElementsAre(s: Text, p: nat, first: bool, ci: bool, x: set<byte>, e: nat) {
    p <= e && forall q :: p <= q <= |s| && q == p ==> ElementsAt(s, q, first, ci) == (x, e)
  }

  lemma ElementsStep(s: Text, p: nat, first: bool, ci: bool, x: set<byte>, m: nat, rest: set<byte>, e: nat)
    requires p < |s| && (first || s[p] != ']') && NextIs(s, p, ci, x, m)
    requires m <= |s| && ElementsAre(s, m, false, ci, rest, e)
    ensures ElementsAre(s, p, first, ci, x + rest, e)
  {
  }

  lemma ElementsSplit(s: Text, p: nat, first: bool, ci: bool, y: set<byte>, e: nat)
      returns (x: set<byte>, m: nat, rest: set<byte>)
    requires p < |s| && (first || s[p] != ']') && ElementsAre(s, p, first, ci, y, e) && e < |s|
    ensures NextIs(s, p, ci, x, m) && m <= e && ElementsAre(s, m, false, ci, rest, e)
    ensures y == x + rest
  {
    var (x', m') := NextAt(s, p, ci);
    var (rest', e') := ElementsAt(s, m', false, ci);
    x, m, rest := x', m', rest';
    assert ElementsAt(s, p, first, ci) == (y, e);
  }

  lemma NextShift(s: Text, t: Text, o: nat, p: nat, e: nat, ci: bool, x: set<byte>, m: nat)
    requires Stands(s, t, o) && p < e < |s| && s[e] == ']' && NextIs(s, p, ci, x, m) && m <= e
    ensures NextIs(t, o + p, ci, x, o + m)
  {
    assert NextAt(s, p, ci) == (x, m);
    NextInside(s, t, o, p, e, ci);
  }

  lemma ElementsEnd(s: Text, p: nat, first: bool, ci: bool, x: set<byte>, e: nat)
    requires p < |s| && ElementsAre(s, p, first, ci, x, e) && e < |s|
    ensures s[e] == ']' && (first || s[p] != ']' ==> p < e)
    ensures !(first || s[p] != ']') ==> x == {} && e == p
  {
    assert ElementsAt(s, p, first, ci) == (x, e);
    ElementsLand(s, p, first, ci);
  }

  lemma {:induction false} ElementsInside(s: Text, t: Text, o: nat, p: nat, first: bool, ci: bool, x: set<byte>, e: nat)
    requires Stands(s, t, o) && p < |s| && ElementsAre(s, p, first, ci, x, e) && e < |s|
    ensures ElementsAre(t, o + p, first, ci, x, o + e)
    decreases |s| - p
  {
    SameChar(s, t, o, p);
    ElementsEnd(s, p, first, ci, x, e);
    if first || s[p] != ']' {
      var y, m, rest := ElementsSplit(s, p, first, ci, x, e);
      NextShift(s, t, o, p, e, ci, y, m);
      ElementsInside(s, t, o, m, false, ci, rest, e);
      ElementsStep(t, o + p, first, ci, y, o + m, rest, o + e);
    }
  }

  // The bracket expression at p has the elements x from `from` up to e.
  ghost predicate Bracketed(s: Text, p: nat, neg: bool, from: nat, x: set<byte>, e: nat, ci: bool) {
    && from == (if neg then p + 2 else p + 1) <= |s| && (neg <==> CharAt(s, p + 1) == '^')
    && ElementsAt(s, from, true, ci).0 == x && ElementsAt(s, from, true, ci).1 == e < |s| && s[e] == ']'
  }

  lemma BracketFrom(s: Text, p: nat, neg: bool, from: nat, x: set<byte>, e: nat, ci: bool)
    requires Bracketed(s, p, neg, from, x, e, ci)
    ensures p < |s| && BracketAt(s, p, ci) == Bracket(if neg then ALL - x else x, true, e + 1)
  {
  }

  lemma ClosedBracket(s: Text, p: nat, ci: bool) returns (neg: bool, from: nat, x: set<byte>, e: nat)
    requires p < |s| && s[p] == '[' && BracketAt(s, p, ci).closed
    ensures Bracketed(s, p, neg, from, x, e, ci)
  {
    neg := CharAt(s, p + 1) == '^';
    from := if neg then p + 2 else p + 1;
    var (x', e') := ElementsAt(s, from, true, ci);
    x, e := x', e';
    BracketLands(s, p, ci);
  }

  lemma BracketedInside(s: Text, t: Text, o: nat, p: nat, neg: bool, from: nat, x: set<byte>, e: nat, ci: bool)
    requires Stands(s, t, o) && Bracketed(s, p, neg, from, x, e, ci)
    ensures Bracketed(t, o + p, neg, o + from, x, o + e, ci)
  {
    SameChar(s, t, o, p + 1);
    SameChar(s, t, o, e);
    ElementsInside(s, t, o, from, true, ci, x, e);
  }

  lemma BracketInside(s: Text, t: Text, o: nat, p: nat, ci: bool)
    requires Stands(s, t, o) && p < |s| && s[p] == '[' && BracketAt(s, p, ci).closed
    ensures var b := BracketAt(s, p, ci); BracketAt(t, o + p, ci) == Bracket(b.cls, true, o + b.end)
  {
    var neg, from, x, e := ClosedBracket(s, p, ci);
    BracketedInside(s, t, o, p, neg, from, x, e, ci);
    BracketFrom(s, p, neg, from, x, e, ci);
    BracketFrom(t, o + p, neg, o + from, x, o + e, ci);
  }

  // ---------- atoms ---------------------------------------------------------

  lemma {:induction false} QuotedInside(s: Text, t: Text, o: nat, p: nat)
    requires Stands(s, t, o) && p <= |s| && CharAt(s, QuotedAt(s, p).1) == '"'
    ensures QuotedAt(t, o + p) == (QuotedAt(s, p).0, o + QuotedAt(s, p).1)
    decreases |s| - p
  {
    SameChar(s, t, o, p);
    if s[p] != '"' {
      ClassByteInside(s, t, o, p);
      QuotedInside(s, t, o, ClassByteAt(s, p).1);
    }
  }

  lemma ClassAtom(s: Text, p: nat, q: nat, n: Node, ci: bool)
    requires p < |s| && s[p] == '['
    ensures AtomAt(s, p, ci) == Some(Atom(n, q, true)) <==>
            BracketAt(s, p, ci).closed && n == Class(BracketAt(s, p, ci).cls) && q == BracketAt(s, p, ci).end
  {
  }

  lemma QuotedAtom(s: Text, p: nat, q: nat, n: Node, ci: bool)
    requires p < |s| && s[p] == '"'
    ensures AtomAt(s, p, ci) == Some(Atom(n, q, true)) <==>
            CharAt(s, QuotedAt(s, p + 1).1) == '"' && n == OrEmpty(Literal(QuotedAt(s, p + 1).0, ci))
            && q == QuotedAt(s, p + 1).1 + 1
  {
  }

  lemma ClassAtomInside(s: Text, t: Text, o: nat, p: nat, q: nat, n: Node, ci: bool)
    requires Stands(s, t, o) && p < |s| && s[p] == '[' && AtomAt(s, p, ci) == Some(Atom(n, q, true))
    ensures AtomAt(t, o + p, ci) == Some(Atom(n, o + q, true))
  {
    SameChar(s, t, o, p);
    ClassAtom(s, p, q, n, ci);
    BracketInside(s, t, o, p, ci);
    ClassAtom(t, o + p, o + q, n, ci);
  }

  lemma QuotedAtomInside(s: Text, t: Text, o: nat, p: nat, q: nat, n: Node, ci: bool)
    requires Stands(s, t, o) && p < |s| && s[p] == '"' && AtomAt(s, p, ci) == Some(Atom(n, q, true))
    ensures AtomAt(t, o + p, ci) == Some(Atom(n, o + q, true))
  {
    SameChar(s, t, o, p);
    QuotedAtom(s, p, q, n, ci);
    QuotedInside(s, t, o, p + 1);
    SameChar(s, t, o, QuotedAt(s, p + 1).1);
    QuotedAtom(t, o + p, o + q, n, ci);
  }

  // A dot, an escape or a plain character.
  lemma CharAtomInside(s: Text, t: Text, o: nat, p: nat, q: nat, n: Node, ci: bool)
    requires Stands(s, t, o) && p < |s| && s[p] !in ['[', '"'] && (s[p] == '\\' ==> p + 1 < |s|)
    requires AtomAt(s, p, ci) == Some(Atom(n, q, true))
    ensures AtomAt(t, o + p, ci) == Some(Atom(n, o + q, true))
  {
    SameChar(s, t, o, p);
    if s[p] == '\\' { EscapeInside(s, t, o, p); }
  }

  lemma AtomInside(s: Text, t: Text, o: nat, p: nat, q: nat, n: Node, ci: bool)
    requires Stands(s, t, o) && p < |s| && (s[p] == '\\' ==> p + 1 < |s|)
    requires AtomAt(s, p, ci) == Some(Atom(n, q, true))
    ensures AtomAt(t, o + p, ci) == Some(Atom(n, o + q, true))
  {
    if s[p] == '[' {
      ClassAtomInside(s, t, o, p, q, n, ci);
    } else if s[p] == '"' {
      QuotedAtomInside(s, t, o, p, q, n, ci);
    } else {
      CharAtomInside(s, t, o, p, q, n, ci);
    }
  }

  // ---------- operators and names -------------------------------------------

  lemma NumberInside(s: Text, t: Text, o: nat, p: nat)
    requires Stands(s, t, o) && p <= |s|
    ensures NumberAt(t, o + p) == (NumberAt(s, p).0, o + NumberAt(s, p).1)
  {
    RunInside(IsDigit, s, t, o, p, |s|, |t|);
    SameSlice(s, t, o, p, NumberAt(s, p).1);
  }

  lemma SameOrEnd(s: Text, t: Text, o: nat, p: nat)
    requires Stands(s, t, o) && p <= |s|
    ensures CharAt(t, o + p) == CharAt(s, p) || (CharAt(s, p) == NUL && CharAt(t, o + p) in ['/', ')'])
  {
  }

  lemma UpperInside(s: Text, t: Text, o: nat, p: nat, lo: nat)
    requires Stands(s, t, o) && p <= |s|
    ensures UpperAt(t, o + p, lo) == (UpperAt(s, p, lo).0, o + UpperAt(s, p, lo).1)
  {
    SameOrEnd(s, t, o, p);
    if CharAt(s, p) == ',' {
      SameOrEnd(s, t, o, p + 1);
      NumberInside(s, t, o, p + 1);
    }
  }

  // Where the bounds at p would end, and what they are.
  function BoundsFrom(lo: nat, hi: Bound, e: nat, closed: bool): Option<Bounds> {
    if closed then Some(Bounds(lo, hi, e + 1)) else None
  }

  lemma BoundsIs(s: Text, p: nat, lo: nat, e: nat, hi: Bound, e': nat)
    requires CharAt(s, p) == '{' && IsDigit(CharAt(s, p + 1))
    requires NumberAt(s, p + 1) == (lo, e) && UpperAt(s, e, lo) == (hi, e')
    ensures BoundsAt(s, p) == BoundsFrom(lo, hi, e', CharAt(s, e') == '}')
  {
  }

  lemma BoundsShift(s: Text, t: Text, o: nat, p: nat, lo: nat, e: nat, hi: Bound, e': nat)
    requires Stands(s, t, o) && CharAt(s, p) == '{' == CharAt(t, o + p)
    requires IsDigit(CharAt(s, p + 1)) && IsDigit(CharAt(t, o + p + 1))
    requires NumberAt(s, p + 1) == (lo, e) && UpperAt(s, e, lo) == (hi, e')
    ensures BoundsAt(t, o + p) == BoundsFrom(lo, hi, o + e', CharAt(s, e') == '}')
  {
    NumberInside(s, t, o, p + 1);
    UpperInside(s, t, o, e, lo);
    SameOrEnd(s, t, o, e');
    BoundsIs(t, o + p, lo, o + e, hi, o + e');
  }

  lemma BoundsInside(s: Text, t: Text, o: nat, p: nat)
    requires Stands(s, t, o) && CharAt(s, p) == '{'
    ensures CharAt(t, o + p) == '{'
    ensures match BoundsAt(s, p)
            case None => BoundsAt(t, o + p).None?
            case Some(b) => BoundsAt(t, o + p) == Some(Bounds(b.lo, b.hi, o + b.end))
  {
    SameChar(s, t, o, p);
    SameOrEnd(s, t, o, p + 1);
    if IsDigit(CharAt(s, p + 1)) {
      var (lo, e) := NumberAt(s, p + 1);
      var (hi, e') := UpperAt(s, e, lo);
      BoundsIs(s, p, lo, e, hi, e');
      BoundsShift(s, t, o, p, lo, e, hi, e');
    }
  }

  lemma OperatorInside(s: Text, t: Text, o: nat, p: nat, a: Node)
    requires Stands(s, t, o) && p <= |s|
    ensures OperatorAt(t, o + p, a) == (OperatorAt(s, p, a).0, o + OperatorAt(s, p, a).1)
  {
    SameOrEnd(s, t, o, p);
    if CharAt(s, p) == '{' { BoundsInside(s, t, o, p); }
  }

  lemma NameInside(s: Text, t: Text, o: nat, p: nat)
    requires Stands(s, t, o) && p < |s|
    ensures match NameAt(s, p)
            case None => NameAt(t, o + p).None?
            case Some(x) => NameAt(t, o + p) == Some((x.0, o + x.1))
  {
    var e := RunEnd(IsNameChar, s, p + 1, |s|);
    RunInside(IsNameChar, s, t, o, p + 1, |s|, |t|);
    SameSlice(s, t, o, p + 1, e);
    SameOrEnd(s, t, o, e);
  }
}
