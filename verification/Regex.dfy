// The regex trees of src/regex.hpp: what they denote, fixed_length, and the
// lowering of trailing context `r/s` (src/regex.cpp).

module Regex {
  import opened Bytes
  import opened Languages

  // The upper bound of {lo,hi}; Unbounded is Node::kInf.
  datatype Bound = Finite(n: nat) | Unbounded

  // A null child behaves as Empty everywhere in the source, so there is no null.
  datatype Node =
    | Empty
    | Class(cls: set<byte>)
    | Concat(a: Node, b: Node)
    | Alt(a: Node, b: Node)
    | Star(a: Node)
    | Plus(a: Node)
    | Question(a: Node)
    | Repeat(a: Node, lo: nat, hi: Bound)
    | AnchorBOL
    | AnchorEOL
    | TrailBoundary

  ghost function ClassWords(cls: set<byte>): Language {
    iset w: Word | |w| == 1 && w[0] in cls
  }

  // lo to hi copies; with hi < lo, exactly lo copies.
  ghost function Copies(A: Language, lo: nat, hi: Bound): Language {
    match hi
    case Unbounded => AtLeast(A, lo)
    case Finite(n) => Between(A, lo, if n >= lo then n else lo)
  }

  ghost function CopyMarks(A: Language, M: Language, lo: nat, hi: Bound): Language {
    match hi
    case Unbounded => Cat(AtLeast(A, 0), M)
    case Finite(n) => Within(A, M, if n >= lo then n else lo)
  }

  /** The language of a tree. Anchors and the r/s marker are zero-width. */
  ghost function Meaning(n: Node): Language {
    match n
    case Empty => EPSILON
    case Class(cls) => ClassWords(cls)
    case Concat(a, b) => Cat(Meaning(a), Meaning(b))
    case Alt(a, b) => Meaning(a) + Meaning(b)
    case Star(a) => AtLeast(Meaning(a), 0)
    case Plus(a) => AtLeast(Meaning(a), 1)
    case Question(a) => Meaning(a) + EPSILON
    case Repeat(a, lo, hi) => Copies(Meaning(a), lo, hi)
    case AnchorBOL => EPSILON
    case AnchorEOL => EPSILON
    case TrailBoundary => EPSILON
  }

  /** The words after which a match of the tree may stand at an r/s marker. */
  ghost function Marks(n: Node): Language {
    match n
    case Empty => NOTHING
    case Class(_) => NOTHING
    case Concat(a, b) => Marks(a) + Cat(Meaning(a), Marks(b))
    case Alt(a, b) => Marks(a) + Marks(b)
    case Star(a) => Cat(AtLeast(Meaning(a), 0), Marks(a))
    case Plus(a) => Cat(AtLeast(Meaning(a), 0), Marks(a))
    case Question(a) => Marks(a)
    case Repeat(a, lo, hi) => CopyMarks(Meaning(a), Marks(a), lo, hi)
    case AnchorBOL => NOTHING
    case AnchorEOL => NOTHING
    case TrailBoundary => EPSILON
  }

  // ---------- empty classes ---------------------------------------------

  /** The tree the NFA builder in effect compiles: an edge with an empty byte set is an epsilon edge. */
  function Effective(n: Node): Node {
    match n
    case Class(cls) => if cls == {} then Empty else n
    case Concat(a, b) => Concat(Effective(a), Effective(b))
    case Alt(a, b) => Alt(Effective(a), Effective(b))
    case Star(a) => Star(Effective(a))
    case Plus(a) => Plus(Effective(a))
    case Question(a) => Question(Effective(a))
    case Repeat(a, lo, hi) => Repeat(Effective(a), lo, hi)
    case _ => n
  }

  predicate Subtree(m: Node, n: Node) {
    m == n ||
    match n
    case Concat(a, b) => Subtree(m, a) || Subtree(m, b)
    case Alt(a, b) => Subtree(m, a) || Subtree(m, b)
    case Star(a) => Subtree(m, a)
    case Plus(a) => Subtree(m, a)
    case Question(a) => Subtree(m, a)
    case Repeat(a, _, _) => Subtree(m, a)
    case _ => false
  }

  ghost predicate Faithful(n: Node) {
    Meaning(Effective(n)) == Meaning(n)
  }

  predicate ClassesNonempty(n: Node) {
    !Subtree(Class({}), n)
  }

  lemma EffectiveIdentity(n: Node)
    ensures Effective(n) == n <==> ClassesNonempty(n)
  {
  }

  lemma SubtreeTransitive(k: Node, m: Node, n: Node)
    requires Subtree(k, m) && Subtree(m, n)
    ensures Subtree(k, n)
  {
  }

  /** Every part of a tree is compiled to the language it denotes exactly when the tree has no empty class. */
  lemma EffectiveIffNonempty(n: Node)
    ensures (forall m :: Subtree(m, n) ==> Faithful(m)) <==> ClassesNonempty(n)
  {
    if ClassesNonempty(n) {
      forall m | Subtree(m, n) ensures Faithful(m) {
        if !ClassesNonempty(m) { SubtreeTransitive(Class({}), m, n); }
        EffectiveIdentity(m);
      }
    } else {
      var m := Class({});
      assert Subtree(m, n);
      assert [] in Meaning(Effective(m)) && [] !in Meaning(m);
      assert !Faithful(m);
    }
  }

  /** Compiling an empty class as the empty word only ever adds matches. */
  lemma {:induction false} EffectiveContains(n: Node)
    ensures Meaning(n) <= Meaning(Effective(n))
  {
    match n
    case Concat(a, b) =>
      EffectiveContains(a);
      EffectiveContains(b);
      CatMonotone(Meaning(a), Meaning(Effective(a)), Meaning(b), Meaning(Effective(b)));
    case Alt(a, b) =>
      EffectiveContains(a);
      EffectiveContains(b);
    case Star(a) => EffectiveContains(a); RepeatMonotone(Meaning(a), Meaning(Effective(a)), 0, 0);
    case Plus(a) => EffectiveContains(a); RepeatMonotone(Meaning(a), Meaning(Effective(a)), 1, 0);
    case Question(a) => EffectiveContains(a);
    case Repeat(a, lo, hi) =>
      EffectiveContains(a);
      RepeatMonotone(Meaning(a), Meaning(Effective(a)), lo, if hi.Finite? && hi.n >= lo then hi.n else lo);
    case _ =>
  }

  /** For a whole tree, having no empty class is sufficient but not necessary. */
  lemma FaithfulWithEmptyClass()
    ensures Faithful(Star(Class({}))) && !ClassesNonempty(Star(Class({})))
  {
    forall w: Word ensures w in AtLeast(ClassWords({}), 0) <==> w == [] {
      assert [] in Pow(ClassWords({}), 0);
      if w in AtLeast(ClassWords({}), 0) { NothingRepeated(w); }
    }
    forall w: Word ensures w in AtLeast(EPSILON, 0) <==> w == [] {
      assert [] in Pow(EPSILON, 0);
      if w in AtLeast(EPSILON, 0) {
        var k: nat :| 0 <= k && w in Pow(EPSILON, k);
        EpsilonPow(k, w);
      }
    }
    assert AtLeast(ClassWords({}), 0) == AtLeast(EPSILON, 0);
  }

  lemma NothingPowered(w: Word, k: nat)
    requires k > 0
    ensures w !in Pow(ClassWords({}), k)
  {
    var none, rest := ClassWords({}), Pow(ClassWords({}), k - 1);
    forall i ensures !Splits(w, i, none, rest) {
    }
  }

  lemma NothingRepeated(w: Word)
    requires w in AtLeast(ClassWords({}), 0)
    ensures w == []
  {
    forall k: nat | k > 0 ensures w !in Pow(ClassWords({}), k) { NothingPowered(w, k); }
    assert w in Pow(ClassWords({}), 0);
  }

  lemma {:induction false} EpsilonPow(k: nat, w: Word)
    requires w in Pow(EPSILON, k)
    ensures w == []
  {
    if k > 0 {
      var u, v := CatElim(w, EPSILON, Pow(EPSILON, k - 1));
      EpsilonPow(k - 1, v);
    }
  }

  // ---------- fixed_length ----------------------------------------------

  /** The length of every match, or -1. */
  function FixedLength(n: Node): int {
    match n
    case Empty => 0
    case Class(_) => 1
    case Concat(a, b) =>
      var la := FixedLength(a);
      if la < 0 then -1 else
        var lb := FixedLength(b);
        if lb < 0 then -1 else la + lb
    case Alt(a, b) =>
      var la, lb := FixedLength(a), FixedLength(b);
      if la < 0 || lb < 0 || la != lb then -1 else la
    case Star(_) => -1
    case Plus(_) => -1
    case Question(_) => -1
    case Repeat(a, lo, hi) =>
      if hi == Finite(lo) then
        var la := FixedLength(a);
        if la < 0 then -1 else la * lo
      else -1
    case AnchorBOL => 0
    case AnchorEOL => 0
    case TrailBoundary => 0
  }

  lemma {:induction false} FixedLengthSound(n: Node)
    requires FixedLength(n) >= 0
    ensures AllOfLength(Meaning(n), FixedLength(n))
  {
    match n
    case Concat(a, b) =>
      FixedLengthSound(a);
      FixedLengthSound(b);
      CatLength(Meaning(a), FixedLength(a), Meaning(b), FixedLength(b));
    case Alt(a, b) =>
      FixedLengthSound(a);
      FixedLengthSound(b);
    case Repeat(a, lo, hi) =>
      FixedLengthSound(a);
      PowLength(Meaning(a), FixedLength(a), lo);
      BetweenSelf(Meaning(a), lo);
    case _ =>
  }

  // ---------- marker-free trees -----------------------------------------

  predicate HasMarker(n: Node) {
    Subtree(TrailBoundary, n)
  }

  lemma CatNothing(A: Language)
    ensures Cat(A, NOTHING) == NOTHING
  {
    forall w: Word ensures w !in Cat(A, NOTHING) {
      if w in Cat(A, NOTHING) { var u, v := CatElim(w, A, NOTHING); }
    }
  }

  lemma {:induction false} NoMarkerNoMarks(n: Node)
    requires !HasMarker(n)
    ensures Marks(n) == NOTHING
  {
    match n
    case Concat(a, b) =>
      NoMarkerNoMarks(a);
      NoMarkerNoMarks(b);
      CatNothing(Meaning(a));
    case Alt(a, b) =>
      NoMarkerNoMarks(a);
      NoMarkerNoMarks(b);
    case Star(a) => NoMarkerNoMarks(a); CatNothing(AtLeast(Meaning(a), 0));
    case Plus(a) => NoMarkerNoMarks(a); CatNothing(AtLeast(Meaning(a), 0));
    case Question(a) => NoMarkerNoMarks(a);
    case Repeat(a, lo, Finite(hi)) =>
      NoMarkerNoMarks(a);
      forall k: nat ensures Cat(Pow(Meaning(a), k), NOTHING) == NOTHING {
        CatNothing(Pow(Meaning(a), k));
      }
    case Repeat(a, lo, Unbounded) => NoMarkerNoMarks(a); CatNothing(AtLeast(Meaning(a), 0));
    case _ =>
  }

  // ---------- anchors at the root ---------------------------------------

  datatype Unwrapped = Unwrapped(bol: bool, eol: bool, body: Node)

  /** unwrap_anchors of src/nfa.cpp: strip one leading ^ and then one trailing $ from the root. */
  function Unwrap(root: Node): Unwrapped {
    var bol := root.Concat? && root.a.AnchorBOL?;
    var inner := if bol then root.b else root;
    var eol := inner.Concat? && inner.b.AnchorEOL?;
    Unwrapped(bol, eol, if eol then inner.a else inner)
  }

  /** The root that parse_top builds around a body. */
  function Anchored(bol: bool, body: Node, eol: bool): Node {
    var inner := if eol then Concat(body, AnchorEOL) else body;
    if bol then Concat(AnchorBOL, inner) else inner
  }

  predicate HasAnchor(n: Node) {
    Subtree(AnchorBOL, n) || Subtree(AnchorEOL, n)
  }

  // A body as parse_alt returns it: no anchor and no r/s marker inside.
  predicate Plain(n: Node) {
    !HasAnchor(n) && !HasMarker(n)
  }

  lemma AnchorFreeRoot(n: Node)
    requires !HasAnchor(n)
    ensures !n.AnchorBOL? && !n.AnchorEOL?
    ensures n.Concat? ==> !n.a.AnchorBOL? && !n.b.AnchorEOL?
  {
    if n.Concat? {
      assert Subtree(AnchorBOL, AnchorBOL) && Subtree(AnchorEOL, AnchorEOL);
    }
  }

  /** unwrap_anchors recovers exactly what parse_top wrapped. */
  lemma UnwrapAnchored(bol: bool, body: Node, eol: bool)
    requires !HasAnchor(body)
    ensures Unwrap(Anchored(bol, body, eol)) == Unwrapped(bol, eol, body)
  {
    AnchorFreeRoot(body);
  }

  // ---------- trailing context ------------------------------------------

  datatype Pattern = Pattern(tree: Node, trailLen: int)
  datatype Lowered = Lowered(pattern: Pattern) | EolOnHead

  predicate PeekEol(n: Node) {
    n.AnchorEOL? || (n.Concat? && n.b.AnchorEOL?)
  }

  function StripEol(n: Node): Node {
    if n.AnchorEOL? then Empty
    else if n.Concat? && n.b.AnchorEOL? then n.a
    else n
  }

  function WithNewline(n: Node, eol: bool): Node {
    if eol then Concat(n, Class({NEWLINE})) else n
  }

  // The combined bodies for a tail of fixed and of variable length.
  function FixedBody(r: Node, s: Node, eol: bool): Node {
    WithNewline(Concat(r, s), eol)
  }

  function VariableBody(r: Node, s: Node, eol: bool): Node {
    Concat(r, WithNewline(Concat(TrailBoundary, s), eol))
  }

  /** The part of parse_pattern after both sides of `r/s` are parsed. */
  function Lower(head: Node, tail: Node): Lowered {
    var bol := head.Concat? && head.a.AnchorBOL?;
    var r := if bol then head.b else head;
    var eol := PeekEol(tail);
    var s := StripEol(tail);
    if PeekEol(r) then EolOnHead else
      var len := FixedLength(s);
      var trailLen := if len >= 0 then len + if eol then 1 else 0 else -1;
      var body := if len >= 0 then FixedBody(r, s, eol) else VariableBody(r, s, eol);
      Lowered(Pattern(if bol then Concat(AnchorBOL, body) else body, trailLen))
  }

  ghost function NewlineIf(eol: bool): Language {
    if eol then ClassWords({NEWLINE}) else EPSILON
  }

  /** The other side of `r/s` as written: ^ and $ around a body. */
  datatype Tail = Tail(bol: bool, s: Node, eol: bool)

  function TailRoot(tail: Tail): Node {
    Anchored(tail.bol, tail.s, tail.eol)
  }

  /** What must follow the token: a word of s, and after it the newline that `s$` calls for. Where s begins with ^ the
      code does not see the $. */
  ghost function TailWords(tail: Tail): Language {
    if tail.eol && !tail.bol then iset w: Word | w != [] && w[|w| - 1] == NEWLINE && w[..|w| - 1] in Meaning(tail.s)
    else Meaning(tail.s)
  }

  lemma ConcatMeaning(a: Node, b: Node)
    ensures Meaning(Concat(a, b)) == Cat(Meaning(a), Meaning(b))
  {
  }

  lemma WithNewlineMeaning(n: Node, eol: bool)
    ensures Meaning(WithNewline(n, eol)) == Cat(Meaning(n), NewlineIf(eol))
  {
    if eol {
      var nl := Class({NEWLINE});
      assert Meaning(nl) == NewlineIf(true);
      ConcatMeaning(n, nl);
    } else {
      CatEpsilon(Meaning(n));
    }
  }

  lemma WithNewlineMarks(n: Node, eol: bool)
    ensures Marks(WithNewline(n, eol)) == Marks(n)
  {
    ConcatMarks(n, Class({NEWLINE}));
    CatNothing(Meaning(n));
    PlusNothing(Marks(n));
  }

  lemma FixedBodyMeaning(r: Node, s: Node, eol: bool)
    requires FixedLength(s) >= 0
    ensures Meaning(FixedBody(r, s, eol)) == Cat(Meaning(r), Cat(Meaning(s), NewlineIf(eol)))
    ensures AllOfLength(Cat(Meaning(s), NewlineIf(eol)), FixedLength(s) + if eol then 1 else 0)
  {
    WithNewlineMeaning(Concat(r, s), eol);
    CatAssoc(Meaning(r), Meaning(s), NewlineIf(eol));
    FixedLengthSound(s);
    CatLength(Meaning(s), FixedLength(s), NewlineIf(eol), if eol then 1 else 0);
  }

  lemma MarkerMeaning(s: Node)
    ensures Meaning(Concat(TrailBoundary, s)) == Meaning(s)
  {
    ConcatMeaning(TrailBoundary, s);
    CatEpsilon(Meaning(s));
  }

  lemma VariableBodyMeaning(r: Node, s: Node, eol: bool)
    ensures Meaning(VariableBody(r, s, eol)) == Cat(Meaning(r), Cat(Meaning(s), NewlineIf(eol)))
  {
    var inner := Concat(TrailBoundary, s);
    MarkerMeaning(s);
    WithNewlineMeaning(inner, eol);
    ConcatMeaning(r, WithNewline(inner, eol));
  }

  lemma ConcatMarks(a: Node, b: Node)
    ensures Marks(Concat(a, b)) == Marks(a) + Cat(Meaning(a), Marks(b))
  {
  }

  lemma PlusNothing(A: Language)
    ensures NOTHING + A == A && A + NOTHING == A
  {
  }

  lemma MarkerMarks(s: Node)
    requires !HasMarker(s)
    ensures Marks(Concat(TrailBoundary, s)) == EPSILON
  {
    ConcatMarks(TrailBoundary, s);
    NoMarkerNoMarks(s);
    CatNothing(EPSILON);
    PlusNothing(EPSILON);
  }

  lemma HeadMarks(r: Node, rest: Node)
    requires !HasMarker(r) && Marks(rest) == EPSILON
    ensures Marks(Concat(r, rest)) == Meaning(r)
  {
    ConcatMarks(r, rest);
    NoMarkerNoMarks(r);
    CatEpsilon(Meaning(r));
    PlusNothing(Meaning(r));
  }

  lemma VariableBodyMarks(r: Node, s: Node, eol: bool)
    requires !HasMarker(r) && !HasMarker(s)
    ensures Marks(VariableBody(r, s, eol)) == Meaning(r)
  {
    var inner := Concat(TrailBoundary, s);
    MarkerMarks(s);
    WithNewlineMarks(inner, eol);
    HeadMarks(r, WithNewline(inner, eol));
  }

  lemma {:induction false} BeforeEol(n: Node)
    ensures Meaning(Concat(n, AnchorEOL)) == Meaning(n) && FixedLength(Concat(n, AnchorEOL)) == FixedLength(n)
  {
    var eol := AnchorEOL;
    assert Meaning(eol) == EPSILON && FixedLength(eol) == 0;
    ConcatMeaning(n, eol);
    CatEpsilon(Meaning(n));
  }

  lemma {:induction false} AfterBol(n: Node)
    ensures Meaning(Concat(AnchorBOL, n)) == Meaning(n) && FixedLength(Concat(AnchorBOL, n)) == FixedLength(n)
  {
    ConcatMeaning(AnchorBOL, n);
    CatEpsilon(Meaning(n));
  }

  lemma {:induction false} AnchoredMeaning(bol: bool, n: Node, eol: bool)
    ensures Meaning(Anchored(bol, n, eol)) == Meaning(n) && FixedLength(Anchored(bol, n, eol)) == FixedLength(n)
  {
    if eol { BeforeEol(n); }
    if bol { AfterBol(if eol then Concat(n, AnchorEOL) else n); }
  }

  lemma {:induction false} AnchoredMarkers(bol: bool, n: Node, eol: bool)
    requires !HasMarker(n)
    ensures !HasMarker(Anchored(bol, n, eol))
  {
    assert !HasMarker(AnchorBOL) && !HasMarker(AnchorEOL);
    assert !HasMarker(if eol then Concat(n, AnchorEOL) else n);
  }

  lemma LastNewline(A: Language)
    ensures Cat(A, NewlineIf(true)) == iset w: Word | w != [] && w[|w| - 1] == NEWLINE && w[..|w| - 1] in A
  {
    forall w: Word ensures w in Cat(A, NewlineIf(true)) <==> w != [] && w[|w| - 1] == NEWLINE && w[..|w| - 1] in A {
      if w in Cat(A, NewlineIf(true)) {
        var u, v := CatElim(w, A, NewlineIf(true));
        assert w[..|w| - 1] == u;
      }
      if w != [] && w[|w| - 1] == NEWLINE && w[..|w| - 1] in A {
        CatIntro(w[..|w| - 1], [w[|w| - 1]], A, NewlineIf(true));
        assert w[..|w| - 1] + [w[|w| - 1]] == w;
      }
    }
  }

  // Where the root shows the $, it is stripped; else the root stays as it is.
  lemma {:induction false} TailShape(tail: Tail)
    requires Plain(tail.s)
    ensures PeekEol(TailRoot(tail)) <==> tail.eol && !tail.bol
    ensures StripEol(TailRoot(tail)) == if tail.eol && !tail.bol then tail.s else TailRoot(tail)
  {
    AnchorFreeRoot(tail.s);
  }

  // What StripEol and PeekEol make of a tail.
  lemma {:induction false} TailStripped(tail: Tail)
    requires Plain(tail.s)
    ensures Cat(Meaning(StripEol(TailRoot(tail))), NewlineIf(PeekEol(TailRoot(tail)))) == TailWords(tail)
    ensures FixedLength(StripEol(TailRoot(tail))) == FixedLength(tail.s) && !HasMarker(StripEol(TailRoot(tail)))
  {
    TailShape(tail);
    if tail.eol && !tail.bol {
      LastNewline(Meaning(tail.s));
    } else {
      AnchoredMeaning(tail.bol, tail.s, tail.eol);
      AnchoredMarkers(tail.bol, tail.s, tail.eol);
      CatEpsilon(Meaning(TailRoot(tail)));
    }
  }

  /** A $ on r is an error, and nothing else is. */
  lemma LowerRefuses(bol: bool, r: Node, eol: bool, tail: Node)
    requires Plain(r)
    ensures Lower(Anchored(bol, r, eol), tail).EolOnHead? <==> eol
  {
    AnchorFreeRoot(r);
  }

  // What Lower makes of a plain r and a tail whose root shows eol and leaves s.
  lemma {:induction false} LowerIs(bol: bool, r: Node, tail: Node)
    requires Plain(r)
    ensures var s, eol, l := StripEol(tail), PeekEol(tail), Lower(Anchored(bol, r, false), tail);
            && l.Lowered? && l.pattern.trailLen ==
              (if FixedLength(s) < 0 then -1 else FixedLength(s) + if eol then 1 else 0)
            && Unwrap(l.pattern.tree) ==
               Unwrapped(bol, false, if FixedLength(s) >= 0 then FixedBody(r, s, eol) else VariableBody(r, s, eol))
  {
    AnchorFreeRoot(r);
  }

  /** Lowering loses nothing: the rule matches r then the tail, is anchored as r was, and the length to trim is
      the length of every word of the tail, or else the marker stands exactly after the words of r. */
  lemma {:induction false} LowerMeaning(bol: bool, r: Node, tail: Tail)
    requires Plain(r) && Plain(tail.s)
    ensures
      Lower(Anchored(bol, r, false), TailRoot(tail)).Lowered? &&
      var p := Lower(Anchored(bol, r, false), TailRoot(tail)).pattern;
      var u := Unwrap(p.tree);
      && u.bol == bol && !u.eol
      && Meaning(u.body) == Cat(Meaning(r), TailWords(tail))
      && p.trailLen == (if FixedLength(tail.s) < 0 then -1
                        else FixedLength(tail.s) + if tail.eol && !tail.bol then 1 else 0)
      && (p.trailLen >= 0 ==> AllOfLength(TailWords(tail), p.trailLen))
      && (p.trailLen < 0 ==> Marks(u.body) == Meaning(r))
  {
    var s, eol := StripEol(TailRoot(tail)), PeekEol(TailRoot(tail));
    LowerIs(bol, r, TailRoot(tail));
    TailShape(tail);
    TailStripped(tail);
    if FixedLength(s) >= 0 {
      FixedBodyMeaning(r, s, eol);
    } else {
      VariableBodyMeaning(r, s, eol);
      VariableBodyMarks(r, s, eol);
    }
  }

  // ---------- the empty word ------------------------------------------------

  /** Does the tree match the empty word? */
  predicate Nullable(n: Node) {
    match n
    case Class(_) => false
    case Concat(a, b) => Nullable(a) && Nullable(b)
    case Alt(a, b) => Nullable(a) || Nullable(b)
    case Plus(a) => Nullable(a)
    case Repeat(a, lo, _) => lo == 0 || Nullable(a)
    case _ => true
  }

  lemma EmptyInCat(A: Language, B: Language)
    ensures [] in Cat(A, B) <==> [] in A && [] in B
  {
    if [] in Cat(A, B) { var u, v := CatElim([], A, B); }
    var none: Word := [];
    if [] in A && [] in B { CatIntro(none, none, A, B); assert none + none == none; }
  }

  lemma {:induction false} EmptyInPow(A: Language, k: nat)
    ensures [] in Pow(A, k) <==> k == 0 || [] in A
  {
    if k > 0 {
      EmptyInCat(A, Pow(A, k - 1));
      EmptyInPow(A, k - 1);
    }
  }

  lemma EmptyInCopies(A: Language, lo: nat, hi: Bound)
    ensures [] in AtLeast(A, lo) <==> lo == 0 || [] in A
    ensures [] in Copies(A, lo, hi) <==> lo == 0 || [] in A
  {
    forall k: nat ensures [] in Pow(A, k) <==> k == 0 || [] in A { EmptyInPow(A, k); }
    if lo == 0 || [] in A {
      assert [] in Pow(A, lo);
      assert InAtLeast([], A, lo);
      if hi.Finite? { assert InBetween([], A, lo, if hi.n >= lo then hi.n else lo); }
    }
  }

  lemma {:induction false} NullableSound(n: Node)
    ensures [] in Meaning(n) <==> Nullable(n)
  {
    match n
    case Concat(a, b) =>
      NullableSound(a);
      NullableSound(b);
      EmptyInCat(Meaning(a), Meaning(b));
    case Alt(a, b) => NullableSound(a); NullableSound(b);
    case Star(a) => EmptyInCopies(Meaning(a), 0, Unbounded);
    case Plus(a) => NullableSound(a); EmptyInCopies(Meaning(a), 1, Unbounded);
    case Repeat(a, lo, hi) => NullableSound(a); EmptyInCopies(Meaning(a), lo, hi);
    case _ =>
  }

  lemma {:induction false} PowWord(A: Language, w: Word, k: nat) returns (v: Word)
    requires w in A
    ensures v in Pow(A, k) && |v| == k * |w|
  {
    if k == 0 {
      v := [];
    } else {
      var u := PowWord(A, w, k - 1);
      v := w + u;
      CatIntro(w, u, A, Pow(A, k - 1));
    }
  }

  lemma CopiesWord(A: Language, w: Word, lo: nat, hi: Bound) returns (v: Word)
    requires w in A
    ensures v in Copies(A, lo, hi) && v in AtLeast(A, lo)
  {
    v := PowWord(A, w, lo);
    assert InAtLeast(v, A, lo);
    if hi.Finite? { assert InBetween(v, A, lo, if hi.n >= lo then hi.n else lo); }
  }

  /** A tree without empty classes has a word. */
  lemma {:induction false} SomeWord(n: Node) returns (w: Word)
    requires ClassesNonempty(n)
    ensures w in Meaning(n)
  {
    match n
    case Class(cls) =>
      var b :| b in cls;
      w := [b];
    case Concat(a, b) =>
      var u := SomeWord(a);
      var v := SomeWord(b);
      w := u + v;
      CatIntro(u, v, Meaning(a), Meaning(b));
    case Alt(a, _) => w := SomeWord(a);
    case Plus(a) =>
      var u := SomeWord(a);
      w := CopiesWord(Meaning(a), u, 1, Unbounded);
    case Repeat(a, lo, hi) =>
      var u := SomeWord(a);
      w := CopiesWord(Meaning(a), u, lo, hi);
    case _ =>
      w := [];
      NullableSound(n);
  }

  // ---------- fixed_length is exact -------------------------------------------

  /** Does the tree match a word that is not empty? It has no empty class. */
  predicate HasLonger(n: Node) {
    match n
    case Class(_) => true
    case Concat(a, b) => HasLonger(a) || HasLonger(b)
    case Alt(a, b) => HasLonger(a) || HasLonger(b)
    case Star(a) => HasLonger(a)
    case Plus(a) => HasLonger(a)
    case Question(a) => HasLonger(a)
    case Repeat(a, lo, hi) => HasLonger(a) && (lo > 0 || hi != Finite(0))
    case _ => false
  }

  /** What is repeated does not only match the empty word, and bounds are in order and not {0}. */
  predicate Telling(n: Node) {
    match n
    case Concat(a, b) => Telling(a) && Telling(b)
    case Alt(a, b) => Telling(a) && Telling(b)
    case Star(a) => HasLonger(a)
    case Plus(a) => HasLonger(a)
    case Question(a) => HasLonger(a)
    case Repeat(a, lo, Unbounded) => HasLonger(a)
    case Repeat(a, lo, Finite(hi)) => if lo == hi then lo > 0 && Telling(a) else lo < hi && HasLonger(a)
    case _ => true
  }

  lemma InCopies(A: Language, v: Word, k: nat, lo: nat, hi: Bound)
    requires v in Pow(A, k) && lo <= k && (hi.Finite? ==> k <= hi.n || k == lo)
    ensures v in Copies(A, lo, hi) && v in AtLeast(A, lo)
  {
    assert InAtLeast(v, A, lo);
    if hi.Finite? { assert InBetween(v, A, lo, if hi.n >= lo then hi.n else lo); }
  }

  lemma LongerCopies(A: Language, u: Word, lo: nat, hi: Bound) returns (w: Word)
    requires u in A && u != [] && (lo > 0 || hi != Finite(0))
    ensures w in Copies(A, lo, hi) && w in AtLeast(A, lo) && w != []
  {
    var k := if lo == 0 then 1 else lo;
    w := PowWord(A, u, k);
    assert (k - 1) * |u| >= 0;
    InCopies(A, w, k, lo, hi);
  }

  lemma {:induction false} LongerWord(n: Node) returns (w: Word)
    requires ClassesNonempty(n) && HasLonger(n)
    ensures w in Meaning(n) && w != []
  {
    match n
    case Class(cls) => w := SomeWord(n); assert |w| == 1;
    case Concat(a, b) =>
      var u, v;
      if HasLonger(a) { u := LongerWord(a); v := SomeWord(b); } else { u := SomeWord(a); v := LongerWord(b); }
      w := u + v;
      CatIntro(u, v, Meaning(a), Meaning(b));
    case Alt(a, b) => if HasLonger(a) { w := LongerWord(a); } else { w := LongerWord(b); }
    case Star(a) =>
      var u := LongerWord(a);
      w := LongerCopies(Meaning(a), u, 0, Unbounded);
    case Plus(a) =>
      var u := LongerWord(a);
      w := LongerCopies(Meaning(a), u, 1, Unbounded);
    case Question(a) => w := LongerWord(a);
    case Repeat(a, lo, hi) =>
      var u := LongerWord(a);
      w := LongerCopies(Meaning(a), u, lo, hi);
  }

  // Two numbers of copies of a word that is not empty.
  lemma TwoPowers(A: Language, w: Word, lo: nat, hi: Bound) returns (u: Word, v: Word)
    requires w in A && w != [] && (hi.Finite? ==> lo < hi.n)
    ensures u in Copies(A, lo, hi) && v in Copies(A, lo, hi) && u in AtLeast(A, lo) && v in AtLeast(A, lo)
    ensures |u| != |v|
  {
    u := PowWord(A, w, lo);
    v := PowWord(A, w, lo + 1);
    assert (lo + 1) * |w| == lo * |w| + |w|;
    InCopies(A, u, lo, lo, hi);
    InCopies(A, v, lo + 1, lo, hi);
  }

  // One copy more of two words of different lengths.
  lemma ExactCopies(A: Language, u: Word, v: Word, lo: nat) returns (u': Word, v': Word)
    requires u in A && v in A && |u| != |v| && lo > 0
    ensures u' in Copies(A, lo, Finite(lo)) && v' in Copies(A, lo, Finite(lo)) && |u'| != |v'|
  {
    var rest := PowWord(A, u, lo - 1);
    u', v' := u + rest, v + rest;
    PowCons(A, u, rest, lo - 1);
    PowCons(A, v, rest, lo - 1);
    InCopies(A, u', lo, lo, Finite(lo));
    InCopies(A, v', lo, lo, Finite(lo));
  }

  lemma {:induction false} TwoLengths(n: Node) returns (u: Word, v: Word)
    requires ClassesNonempty(n) && Telling(n) && FixedLength(n) < 0
    ensures u in Meaning(n) && v in Meaning(n) && |u| != |v|
    decreases n, 1
  {
    match n
    case Concat(a, b) => u, v := TwoConcats(a, b);
    case Alt(a, b) => u, v := TwoAlternatives(a, b);
    case Star(a) =>
      var w := LongerWord(a);
      u, v := TwoPowers(Meaning(a), w, 0, Unbounded);
    case Plus(a) =>
      var w := LongerWord(a);
      u, v := TwoPowers(Meaning(a), w, 1, Unbounded);
    case Question(a) =>
      u := [];
      v := LongerWord(a);
    case Repeat(a, lo, hi) =>
      if hi == Finite(lo) {
        u, v := TwoLengths(a);
        u, v := ExactCopies(Meaning(a), u, v, lo);
      } else {
        var w := LongerWord(a);
        u, v := TwoPowers(Meaning(a), w, lo, hi);
      }
  }

  lemma {:induction false} TwoConcats(a: Node, b: Node) returns (u: Word, v: Word)
    requires ClassesNonempty(Concat(a, b)) && Telling(a) && Telling(b) && FixedLength(Concat(a, b)) < 0
    ensures u in Meaning(Concat(a, b)) && v in Meaning(Concat(a, b)) && |u| != |v|
    decreases Concat(a, b), 0
  {
    if FixedLength(a) < 0 {
      var x, y := TwoLengths(a);
      var w := SomeWord(b);
      u, v := x + w, y + w;
      CatIntro(x, w, Meaning(a), Meaning(b));
      CatIntro(y, w, Meaning(a), Meaning(b));
    } else {
      var w := SomeWord(a);
      var x, y := TwoLengths(b);
      u, v := w + x, w + y;
      CatIntro(w, x, Meaning(a), Meaning(b));
      CatIntro(w, y, Meaning(a), Meaning(b));
    }
  }

  lemma {:induction false} TwoAlternatives(a: Node, b: Node) returns (u: Word, v: Word)
    requires ClassesNonempty(Alt(a, b)) && Telling(a) && Telling(b) && FixedLength(Alt(a, b)) < 0
    ensures u in Meaning(Alt(a, b)) && v in Meaning(Alt(a, b)) && |u| != |v|
    decreases Alt(a, b), 0
  {
    if FixedLength(a) < 0 {
      u, v := TwoLengths(a);
    } else if FixedLength(b) < 0 {
      u, v := TwoLengths(b);
    } else {
      u := SomeWord(a);
      v := SomeWord(b);
      FixedLengthSound(a);
      FixedLengthSound(b);
    }
  }

  // All words are equally long.
  ghost predicate OneLength(A: Language) {
    exists k: nat :: AllOfLength(A, k)
  }

  lemma HasOne(A: Language, k: nat)
    requires AllOfLength(A, k)
    ensures OneLength(A)
  {
  }

  lemma HasTwo(A: Language, u: Word, v: Word)
    requires u in A && v in A && |u| != |v|
    ensures !OneLength(A)
  {
    forall k: nat ensures !AllOfLength(A, k) {
      assert AllOfLength(A, k) ==> |u| == k && |v| == k;
    }
  }

  /** fixed_length finds the length that all words have exactly when there is one. */
  lemma {:induction false} FixedLengthExact(n: Node)
    requires ClassesNonempty(n) && Telling(n)
    ensures FixedLength(n) >= 0 <==> OneLength(Meaning(n))
  {
    if FixedLength(n) >= 0 {
      FixedLengthSound(n);
      HasOne(Meaning(n), FixedLength(n));
    } else {
      var u, v := TwoLengths(n);
      HasTwo(Meaning(n), u, v);
    }
  }
}
