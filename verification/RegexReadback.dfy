// Every tree can be written: its text, as RegexText shows it, derives the tree.

module RegexReadback {
  import opened Wrappers
  import opened Bytes
  import opened Regex
  import opened RegexText
  import opened RegexAtoms
  import opened RegexGrammar

  // ---------- how texts come apart ------------------------------------------

  // The bytes between the brackets.
  function Listed(cls: set<byte>): (bs: seq<byte>)
    ensures bs != []
  {
    var all := Members(ALL, 256);
    assert 0 in all;
    if cls == {} then all else
      var bs := Members(cls, 256);
      assert forall b :: b in cls ==> b in bs;
      bs
  }

  lemma ClosedText(x: Text, body: Text, more: Text)
    ensures (x + (body + [']'])) + more == x + (body + ([']'] + more))
  {
  }

  lemma Caret(t: Text)
    ensures ['[', '^'] + t == ['['] + (['^'] + t)
  {
  }

  lemma ClassText(cls: set<byte>, more: Text)
    ensures var elements := HexAll(Listed(cls)) + ([']'] + more);
            && elements[0] == '\\'
            && ShowClass(cls) + more == ['['] + if cls == {} then ['^'] + elements else elements
  {
    var bs := Listed(cls);
    assert HexAll(bs)[0] == Hex(bs[0])[0];
    ClosedText(if cls == {} then ['[', '^'] else ['['], HexAll(bs), more);
    Caret(HexAll(bs) + ([']'] + more));
  }

  lemma ListedFolds(cls: set<byte>, ci: bool)
    ensures Fold(Class(cls), ci) == Class(if cls == {} then ALL - FoldedAll(Listed(cls), ci)
            else FoldedAll(Listed(cls), ci))
  {
    if cls == {} {
      FoldedAllIs(Members(ALL, 256), ci);
      FoldClass({}, ci);
      forall b: byte ensures b in FoldedAll(Members(ALL, 256), ci) {
        assert b in Members(ALL, 256) && b in Folded(b, ci);
      }
    }
  }

  lemma CharOf(s: Text, p: nat, t: Text)
    requires p <= |s| && s[p..] == t
    ensures CharAt(s, p) == if t == [] then NUL else t[0]
    ensures t == [] <==> p == |s|
  {
  }

  // ---------- reading a class back ------------------------------------------

  // The text of the byte b stands at p.
  ghost predicate HexStands(s: Text, p: nat, b: byte) {
    p + 4 <= |s| && s[p] == '\\' && s[p + 1] == 'x' && s[p + 2] == HexDigit(b / 16) && s[p + 3] == HexDigit(b % 16)
  }

  lemma HexEscape(s: Text, p: nat, b: byte)
    requires HexStands(s, p, b)
    ensures EscapeAt(s, p) == (b, p + 4)
  {
    assert RunEnd(IsXDigit, s, p + 4, p + 4) == p + 4;
    assert RunEnd(IsXDigit, s, p + 3, p + 4) == p + 4;
    var ds := s[p + 2..p + 4];
    assert ds == [HexDigit(b / 16), HexDigit(b % 16)];
    assert ds[..1] == [HexDigit(b / 16)] && ds[..1][..0] == [];
    assert Numeral(ds[..1], 16) == b / 16;
  }

  lemma HexNext(s: Text, p: nat, b: byte, ci: bool)
    requires HexStands(s, p, b) && p + 4 < |s| && s[p + 4] in ['\\', ']']
    ensures NextAt(s, p, ci) == (Folded(b, ci), p + 4)
  {
    HexEscape(s, p, b);
  }

  // The text of all of bs stands at p.
  ghost predicate AllHex(s: Text, p: nat, bs: seq<byte>)
    decreases |bs|
  {
    bs == [] || (HexStands(s, p, bs[0]) && AllHex(s, p + 4, bs[1..]))
  }

  lemma {:induction false} HexElements(s: Text, p: nat, bs: seq<byte>, first: bool, ci: bool)
    requires p + 4 * |bs| < |s| && s[p + 4 * |bs|] == ']' && (bs != [] || !first) && AllHex(s, p, bs)
    ensures ElementsAt(s, p, first, ci) == (FoldedAll(bs, ci), p + 4 * |bs|)
    decreases |bs|
  {
    if bs != [] {
      HexNext(s, p, bs[0], ci);
      HexElements(s, p + 4, bs[1..], false, ci);
      FoldedFirst(bs, ci);
    }
  }

  lemma {:induction false} FoldedFirst(bs: seq<byte>, ci: bool)
    requires bs != []
    ensures FoldedAll(bs, ci) == Folded(bs[0], ci) + FoldedAll(bs[1..], ci)
  {
    var last := |bs| - 1;
    if last > 0 {
      FoldedFirst(bs[..last], ci);
      assert bs[..last][1..] == bs[1..][..last - 1];
    }
  }

  lemma {:induction false} HexAllStands(s: Text, p: nat, bs: seq<byte>, t: Text)
    requires p <= |s| && s[p..] == HexAll(bs) + t
    ensures AllHex(s, p, bs) && p + 4 * |bs| <= |s| && s[p + 4 * |bs|..] == t
    decreases |bs|
  {
    if bs != [] {
      HexAllSplit(bs, t);
      TakeHex(s, p, bs[0], HexAll(bs[1..]) + t);
      HexAllStands(s, p + 4, bs[1..], t);
    }
  }

  lemma TakeHex(s: Text, p: nat, b: byte, u: Text)
    requires p <= |s| && s[p..] == Hex(b) + u
    ensures HexStands(s, p, b) && s[p + 4..] == u
  {
    assert forall i :: 0 <= i < 4 ==> s[p..][i] == Hex(b)[i];
  }

  lemma HexAllSplit(bs: seq<byte>, t: Text)
    requires bs != []
    ensures HexAll(bs) + t == Hex(bs[0]) + (HexAll(bs[1..]) + t)
  {
  }

  lemma TakeOne(s: Text, p: nat, c: ch, t: Text)
    requires p <= |s| && s[p..] == [c] + t
    ensures p < |s| && s[p] == c && s[p + 1..] == t
  {
    assert s[p..][0] == c;
  }

  lemma ClassOpens(s: Text, p: nat, cls: set<byte>, more: Text) returns (start: nat)
    requires p <= |s| && s[p..] == ShowClass(cls) + more
    ensures p < start <= |s| && s[p] == '[' && start == p + if cls == {} then 2 else 1
    ensures cls == {} ==> s[p + 1] == '^'
    ensures s[start..] == HexAll(Listed(cls)) + ([']'] + more)
  {
    var elements := HexAll(Listed(cls)) + ([']'] + more);
    ClassText(cls, more);
    if cls == {} {
      TakeOne(s, p, '[', ['^'] + elements);
      TakeOne(s, p + 1, '^', elements);
      start := p + 2;
    } else {
      TakeOne(s, p, '[', elements);
      start := p + 1;
    }
  }

  lemma BracketIs(s: Text, p: nat, neg: bool, x: set<byte>, e: nat, ci: bool)
    requires p < |s| && (neg <==> CharAt(s, p + 1) == '^')
    requires ElementsAt(s, if neg then p + 2 else p + 1, true, ci) == (x, e) && CharAt(s, e) == ']'
    ensures BracketAt(s, p, ci) == Bracket(if neg then ALL - x else x, true, e + 1)
  {
  }

  lemma NotCaret(s: Text, p: nat, bs: seq<byte>)
    requires bs != [] && AllHex(s, p, bs)
    ensures CharAt(s, p) == '\\'
  {
  }

  lemma ClassStands(s: Text, p: nat, cls: set<byte>, more: Text) returns (start: nat, e: nat)
    requires p <= |s| && s[p..] == ShowClass(cls) + more
    ensures p < |s| && s[p] == '[' && start == (p + if cls == {} then 2 else 1)
            && (cls == {} ==> CharAt(s, p + 1) == '^')
    ensures AllHex(s, start, Listed(cls)) && e == start + 4 * |Listed(cls)|
    ensures e < |s| && s[e] == ']' && s[e + 1..] == more
  {
    start := ClassOpens(s, p, cls, more);
    HexAllStands(s, start, Listed(cls), [']'] + more);
    e := start + 4 * |Listed(cls)|;
    TakeOne(s, e, ']', more);
  }

  lemma StandingReads(s: Text, p: nat, cls: set<byte>, start: nat, e: nat, ci: bool)
    requires p < |s| && s[p] == '[' && start == (p + if cls == {} then 2 else 1)
             && (cls == {} ==> CharAt(s, p + 1) == '^')
    requires e == start + 4 * |Listed(cls)| && e < |s| && s[e] == ']' && AllHex(s, start, Listed(cls))
    ensures var b := BracketAt(s, p, ci); b.closed && Class(b.cls) == Fold(Class(cls), ci) && b.end == e + 1
  {
    var bs := Listed(cls);
    NotCaret(s, start, bs);
    HexElements(s, start, bs, true, ci);
    BracketIs(s, p, cls == {}, FoldedAll(bs, ci), e, ci);
    ListedFolds(cls, ci);
  }

  /** A class reads back from its text. */
  lemma ClassReads(s: Text, p: nat, cls: set<byte>, more: Text, ci: bool)
    requires p <= |s| && s[p..] == ShowClass(cls) + more
    ensures p < |s| && s[p] == '['
    ensures var b := BracketAt(s, p, ci); b.closed && Class(b.cls) == Fold(Class(cls), ci) && s[b.end..] == more
  {
    var start, e := ClassStands(s, p, cls, more);
    StandingReads(s, p, cls, start, e, ci);
  }

  // ---------- reading bounds back -------------------------------------------

  lemma {:induction false} RunEndIs(p: ch -> bool, s: Text, i: nat, j: nat, limit: nat)
    requires i <= j <= |s| && j <= limit && (forall k :: i <= k < j ==> p(s[k]))
    requires j == limit || j == |s| || !p(s[j])
    ensures RunEnd(p, s, i, limit) == j
    decreases j - i
  {
    if i < j { RunEndIs(p, s, i + 1, j, limit); }
  }

  lemma NumberReads(s: Text, p: nat, n: nat, t: Text)
    requires p <= |s| && s[p..] == Decimal(n) + t && t != [] && !IsDigit(t[0])
    ensures IsDigit(CharAt(s, p))
    ensures var e := p + |Decimal(n)|; e <= |s| && NumberAt(s, p) == (n, e) && s[e..] == t
  {
    var ds := Decimal(n);
    var e := p + |ds|;
    assert s[p..e] == ds && s[e..] == t;
    assert s[p] == ds[0] && s[e] == t[0];
    assert forall k :: p <= k < e ==> s[k] == ds[k - p];
    RunEndIs(IsDigit, s, p, e, |s|);
    DecimalValue(n);
  }

  // What follows the lower bound.
  function AfterLo(hi: Bound, more: Text): Text {
    [','] + if hi.Finite? then Decimal(hi.n) + (['}'] + more) else ['}'] + more
  }

  lemma BoundsText(lo: nat, hi: Bound, more: Text)
    ensures ShowBounds(lo, hi) + more == ['{'] + (Decimal(lo) + AfterLo(hi, more))
  {
  }

  lemma BoundsOpen(s: Text, p: nat, lo: nat, hi: Bound, more: Text)
    requires p <= |s| && s[p..] == ShowBounds(lo, hi) + more
    ensures p < |s| && s[p] == '{' && s[p + 1..] == Decimal(lo) + AfterLo(hi, more)
    ensures AfterLo(hi, more) != [] && !IsDigit(AfterLo(hi, more)[0])
  {
    BoundsText(lo, hi, more);
    TakeOne(s, p, '{', Decimal(lo) + AfterLo(hi, more));
  }

  lemma BoundsAre(s: Text, p: nat, lo: nat, e: nat, hi: Bound, e': nat)
    requires CharAt(s, p) == '{' && IsDigit(CharAt(s, p + 1)) && NumberAt(s, p + 1) == (lo, e)
    requires UpperAt(s, e, lo) == (hi, e') && CharAt(s, e') == '}'
    ensures BoundsAt(s, p) == Some(Bounds(lo, hi, e' + 1))
  {
  }

  lemma BoundsOpened(s: Text, p: nat, lo: nat, hi: Bound, t: Text, more: Text)
    requires p < |s| && s[p] == '{' && s[p + 1..] == Decimal(lo) + t && t == AfterLo(hi, more) && t != []
             && !IsDigit(t[0])
    ensures IsDigit(CharAt(s, p + 1)) && BoundsAt(s, p).Some?
    ensures var b := BoundsAt(s, p).value; b.lo == lo && b.hi == hi && s[b.end..] == more
  {
    var e := p + 1 + |Decimal(lo)|;
    NumberReads(s, p + 1, lo, t);
    UpperReads(s, e, lo, hi, more);
    BoundsAre(s, p, lo, e, hi, UpperAt(s, e, lo).1);
  }

  /** Bounds read back from their text. */
  lemma BoundsRead(s: Text, p: nat, lo: nat, hi: Bound, more: Text)
    requires p <= |s| && s[p..] == ShowBounds(lo, hi) + more
    ensures CharAt(s, p) == '{' && IsDigit(CharAt(s, p + 1)) && BoundsAt(s, p).Some?
    ensures var b := BoundsAt(s, p).value; b.lo == lo && b.hi == hi && s[b.end..] == more
  {
    BoundsOpen(s, p, lo, hi, more);
    BoundsOpened(s, p, lo, hi, AfterLo(hi, more), more);
  }

  lemma UpperReads(s: Text, p: nat, lo: nat, hi: Bound, more: Text)
    requires p <= |s| && s[p..] == AfterLo(hi, more)
    ensures UpperAt(s, p, lo).0 == hi
    ensures var e := UpperAt(s, p, lo).1; e < |s| && s[e] == '}' && s[e + 1..] == more
  {
    match hi
    case Finite(n) => FiniteReads(s, p, n, more);
    case Unbounded =>
      TakeOne(s, p, ',', ['}'] + more);
      TakeOne(s, p + 1, '}', more);
  }

  lemma FiniteReads(s: Text, p: nat, n: nat, more: Text)
    requires p <= |s| && s[p..] == [','] + (Decimal(n) + (['}'] + more))
    ensures CharAt(s, p) == ',' && IsDigit(CharAt(s, p + 1)) && NumberAt(s, p + 1).0 == n
    ensures var e := NumberAt(s, p + 1).1; e < |s| && s[e] == '}' && s[e + 1..] == more
  {
    TakeOne(s, p, ',', Decimal(n) + (['}'] + more));
    NumberReads(s, p + 1, n, ['}'] + more);
    TakeOne(s, p + 1 + |Decimal(n)|, '}', more);
  }

  // ---------- reading a tree back -------------------------------------------

  // No postfix operator stands at p.
  predicate NoOperator(s: Text, p: nat) {
    CharAt(s, p) !in ['*', '+', '?', '{']
  }

  lemma BareFactor(s: Text, env: Env, x: set<Text>, p: nat, q: nat, n: Node)
    requires p < q && Primary(s, env, x, p, q, n) && NoOperator(s, q)
    ensures Factor(s, env, x, p, q, n)
  {
    assert OperatorAt(s, q, n) == (n, q);
  }

  lemma OperatedFactor(s: Text, env: Env, x: set<Text>, p: nat, m: nat, a: Node, n: Node, q: nat)
    requires p < m <= q && Primary(s, env, x, p, m, a) && OperatorAt(s, m, a) == (n, q)
    ensures Factor(s, env, x, p, q, n)
  {
  }

  lemma NoFactor(s: Text, env: Env, x: set<Text>, p: nat)
    requires AtTerminator(s, p)
    ensures Concatenation(s, env, x, p, p, Empty)
  {
    assert Factors(s, env, x, p, p, None, None);
  }

  lemma OneFactor(s: Text, env: Env, x: set<Text>, p: nat, q: nat, f: Node)
    requires p < q && !AtTerminator(s, p) && Factor(s, env, x, p, q, f) && AtTerminator(s, q)
    ensures Concatenation(s, env, x, p, q, f)
  {
    assert Factors(s, env, x, q, q, Some(f), Some(f));
    assert Factors(s, env, x, p, q, None, Some(f));
  }

  lemma TwoFactors(s: Text, env: Env, x: set<Text>, p: nat, m: nat, q: nat, a: Node, b: Node)
    requires p < m < q && !AtTerminator(s, p) && !AtTerminator(s, m) && AtTerminator(s, q)
    requires Factor(s, env, x, p, m, a) && Factor(s, env, x, m, q, b)
    ensures Concatenation(s, env, x, p, q, Concat(a, b))
  {
    assert Factors(s, env, x, q, q, Some(Concat(a, b)), Some(Concat(a, b)));
    assert Factors(s, env, x, m, q, Some(a), Some(Concat(a, b)));
    assert Factors(s, env, x, p, q, None, Some(Concat(a, b)));
  }

  lemma OneAlternative(s: Text, env: Env, x: set<Text>, p: nat, q: nat, n: Node)
    requires p <= q && Concatenation(s, env, x, p, q, n) && CharAt(s, q) != '|'
    ensures Alternation(s, env, x, p, q, n)
  {
    assert Alternatives(s, env, x, q, q, n, n);
  }

  lemma TwoAlternatives(s: Text, env: Env, x: set<Text>, p: nat, m: nat, q: nat, a: Node, b: Node)
    requires p <= m < q && Concatenation(s, env, x, p, m, a) && CharAt(s, m) == '|'
    requires Concatenation(s, env, x, m + 1, q, b) && CharAt(s, q) != '|'
    ensures Alternation(s, env, x, p, q, Alt(a, b))
  {
    assert Alternatives(s, env, x, q, q, Alt(a, b), Alt(a, b));
    assert Alternatives(s, env, x, m, q, a, Alt(a, b));
  }

  /** Repetition binds tighter than concatenation, and that tighter than alternation: a, b with its operator, a bar and
      c are read as (a(b*))|c, whatever the primaries a and b, the operator and the concatenation c. */
  lemma Precedence(s: Text, env: Env, x: set<Text>, p: nat, m: nat, k: nat, e: nat, q: nat, a: Node, b: Node, n: Node,
      c: Node)
    requires p < m < k <= e < q && !AtTerminator(s, p) && !AtTerminator(s, m)
    requires Primary(s, env, x, p, m, a) && NoOperator(s, m)
    requires Primary(s, env, x, m, k, b) && OperatorAt(s, k, b) == (n, e)
    requires CharAt(s, e) == '|' && Concatenation(s, env, x, e + 1, q, c) && CharAt(s, q) != '|'
    ensures Alternation(s, env, x, p, q, Alt(Concat(a, n), c))
  {
    BareFactor(s, env, x, p, m, a);
    OperatedFactor(s, env, x, m, k, b, n, e);
    TwoFactors(s, env, x, p, m, e, a, n);
    TwoAlternatives(s, env, x, p, e, q, Concat(a, n), c);
  }

  predicate EndsAlt(t: Text) {
    t == [] || t[0] in [')', '$']
  }

  lemma GroupOpens(s: Text, p: nat, n: Node, more: Text)
    requires p <= |s| && s[p..] == Group(n) + more
    ensures p < |s| && s[p] == '(' && s[p + 1..] == Show(n) + ([')'] + more)
  {
    assert Group(n) + more == ['('] + (Show(n) + ([')'] + more));
    TakeOne(s, p, '(', Show(n) + ([')'] + more));
  }

  lemma {:induction false} GroupDerives(s: Text, env: Env, x: set<Text>, p: nat, n: Node, more: Text) returns (q: nat)
    requires Plain(n) && p <= |s| && s[p..] == Group(n) + more
    ensures p < q <= |s| && s[q..] == more && s[p] == '(' && Primary(s, env, x, p, q, Fold(n, env.ci))
    decreases n, 4
  {
    GroupOpens(s, p, n, more);
    var e := ShowDerives(s, env, x, p + 1, n, [')'] + more);
    TakeOne(s, e, ')', more);
    q := e + 1;
  }

  // The operator after a, as it is written.
  predicate IsOperator(n: Node, a: Node, op: Text) {
    match n
    case Star(a') => a' == a && op == ['*']
    case Plus(a') => a' == a && op == ['+']
    case Question(a') => a' == a && op == ['?']
    case Repeat(a', lo, hi) => a' == a && op == ShowBounds(lo, hi)
    case _ => false
  }

  lemma BoundsOperator(s: Text, m: nat, a: Node, lo: nat, hi: Bound, more: Text) returns (q: nat)
    requires m <= |s| && s[m..] == ShowBounds(lo, hi) + more
    ensures m <= q <= |s| && s[q..] == more && OperatorAt(s, m, a) == (Repeat(a, lo, hi), q)
  {
    BoundsRead(s, m, lo, hi, more);
    q := BoundsAt(s, m).value.end;
  }

  lemma MarkOperator(s: Text, m: nat, a: Node, c: ch, more: Text)
    requires m <= |s| && s[m..] == [c] + more && c in ['*', '+', '?']
    ensures m < |s| && s[m + 1..] == more
    ensures OperatorAt(s, m, a) == (if c == '*' then Star(a) else if c == '+' then Plus(a) else Question(a), m + 1)
  {
    TakeOne(s, m, c, more);
  }

  // An operator reads back from its text.
  lemma OperatorReads(s: Text, m: nat, a: Node, op: Text, n: Node, more: Text, ci: bool) returns (q: nat)
    requires IsOperator(n, a, op) && m <= |s| && s[m..] == op + more
    ensures m <= q <= |s| && s[q..] == more && OperatorAt(s, m, Fold(a, ci)) == (Fold(n, ci), q)
  {
    if n.Repeat? {
      q := BoundsOperator(s, m, Fold(a, ci), n.lo, n.hi, more);
    } else {
      MarkOperator(s, m, Fold(a, ci), op[0], more);
      q := m + 1;
    }
  }

  // A group and a postfix operator.
  lemma {:induction false} OperatorDerives(s: Text, env: Env, x: set<Text>, p: nat, a: Node, op: Text, n: Node,
      more: Text) returns (q: nat)
    requires Plain(a) && p <= |s| && s[p..] == Group(a) + (op + more) && EndsAlt(more) && IsOperator(n, a, op)
    ensures p < q <= |s| && s[q..] == more && Alternation(s, env, x, p, q, Fold(n, env.ci))
    decreases a, 5
  {
    var m := GroupDerives(s, env, x, p, a, op + more);
    q := OperatorReads(s, m, a, op, n, more, env.ci);
    OperatedFactor(s, env, x, p, m, Fold(a, env.ci), Fold(n, env.ci), q);
    FactorEnds(s, env, x, p, q, Fold(n, env.ci), more);
  }

  lemma FactorEnds(s: Text, env: Env, x: set<Text>, p: nat, q: nat, n: Node, more: Text)
    requires p < q <= |s| && !AtTerminator(s, p) && Factor(s, env, x, p, q, n) && s[q..] == more && EndsAlt(more)
    ensures Alternation(s, env, x, p, q, n)
  {
    CharOf(s, q, more);
    OneFactor(s, env, x, p, q, n);
    OneAlternative(s, env, x, p, q, n);
  }

  // Where an alternation ends.
  predicate AltEnd(s: Text, q: nat) {
    AtTerminator(s, q) && CharAt(s, q) != '|' && NoOperator(s, q)
  }

  lemma EndsAre(s: Text, q: nat, more: Text)
    requires q <= |s| && s[q..] == more && EndsAlt(more)
    ensures AltEnd(s, q)
  {
    CharOf(s, q, more);
  }

  lemma PairJoins(s: Text, env: Env, x: set<Text>, p: nat, m: nat, q: nat, a: Node, b: Node)
    requires p < m < q && !AtTerminator(s, p) && !AtTerminator(s, m) && NoOperator(s, m) && AltEnd(s, q)
    requires Primary(s, env, x, p, m, a) && Primary(s, env, x, m, q, b)
    ensures Alternation(s, env, x, p, q, Concat(a, b))
  {
    BareFactor(s, env, x, p, m, a);
    BareFactor(s, env, x, m, q, b);
    TwoFactors(s, env, x, p, m, q, a, b);
    OneAlternative(s, env, x, p, q, Concat(a, b));
  }

  lemma BarJoins(s: Text, env: Env, x: set<Text>, p: nat, m: nat, q: nat, a: Node, b: Node)
    requires p < m && m + 1 < q && !AtTerminator(s, p) && CharAt(s, m) == '|' && !AtTerminator(s, m + 1) && AltEnd(s, q)
    requires Primary(s, env, x, p, m, a) && Primary(s, env, x, m + 1, q, b)
    ensures Alternation(s, env, x, p, q, Alt(a, b))
  {
    BareFactor(s, env, x, p, m, a);
    BareFactor(s, env, x, m + 1, q, b);
    OneFactor(s, env, x, p, m, a);
    OneFactor(s, env, x, m + 1, q, b);
    TwoAlternatives(s, env, x, p, m, q, a, b);
  }

  lemma {:induction false} PairDerives(s: Text, env: Env, x: set<Text>, p: nat, a: Node, b: Node, more: Text)
    returns (q: nat)
    requires Plain(a) && Plain(b) && EndsAlt(more) && p <= |s| && s[p..] == Group(a) + (Group(b) + more)
    ensures p <= q <= |s| && s[q..] == more && Alternation(s, env, x, p, q, Concat(Fold(a, env.ci), Fold(b, env.ci)))
    decreases Concat(a, b), 2
  {
    var m := GroupDerives(s, env, x, p, a, Group(b) + more);
    q := GroupDerives(s, env, x, m, b, more);
    EndsAre(s, q, more);
    PairJoins(s, env, x, p, m, q, Fold(a, env.ci), Fold(b, env.ci));
  }

  lemma {:induction false} BarRest(s: Text, env: Env, x: set<Text>, m: nat, b: Node, more: Text) returns (q: nat)
    requires Plain(b) && EndsAlt(more) && m <= |s| && s[m..] == ['|'] + (Group(b) + more)
    ensures m + 1 < q <= |s| && s[m] == '|' && s[m + 1] == '(' && s[q..] == more && AltEnd(s, q)
    ensures Primary(s, env, x, m + 1, q, Fold(b, env.ci))
    decreases b, 5
  {
    TakeOne(s, m, '|', Group(b) + more);
    q := GroupDerives(s, env, x, m + 1, b, more);
    EndsAre(s, q, more);
  }

  lemma {:induction false} BarDerives(s: Text, env: Env, x: set<Text>, p: nat, a: Node, b: Node, more: Text)
    returns (q: nat)
    requires Plain(a) && Plain(b) && EndsAlt(more) && p <= |s| && s[p..] == Group(a) + (['|'] + (Group(b) + more))
    ensures p <= q <= |s| && s[q..] == more && Alternation(s, env, x, p, q, Alt(Fold(a, env.ci), Fold(b, env.ci)))
    decreases Alt(a, b), 2
  {
    var m := GroupDerives(s, env, x, p, a, ['|'] + (Group(b) + more));
    q := BarRest(s, env, x, m, b, more);
    BarJoins(s, env, x, p, m, q, Fold(a, env.ci), Fold(b, env.ci));
  }

  lemma ClassDerives(s: Text, env: Env, x: set<Text>, p: nat, cls: set<byte>, more: Text) returns (q: nat)
    requires EndsAlt(more) && p <= |s| && s[p..] == ShowClass(cls) + more
    ensures p <= q <= |s| && s[q..] == more && Alternation(s, env, x, p, q, Fold(Class(cls), env.ci))
  {
    ClassReads(s, p, cls, more, env.ci);
    q := BracketAt(s, p, env.ci).end;
    CharOf(s, q, more);
    BareFactor(s, env, x, p, q, Fold(Class(cls), env.ci));
    FactorEnds(s, env, x, p, q, Fold(Class(cls), env.ci), more);
  }

  lemma NothingDerives(s: Text, env: Env, x: set<Text>, p: nat, more: Text)
    requires EndsAlt(more) && p <= |s| && s[p..] == more
    ensures Alternation(s, env, x, p, p, Empty)
  {
    CharOf(s, p, more);
    NoFactor(s, env, x, p);
    OneAlternative(s, env, x, p, p, Empty);
  }

  lemma Reassociate(x: Text, y: Text, z: Text, more: Text)
    ensures (x + y) + more == x + (y + more)
    ensures (x + (y + z)) + more == x + (y + (z + more))
  {
  }

  /** The text of any tree without anchors derives that tree. */
  lemma {:induction false} ShowDerives(s: Text, env: Env, x: set<Text>, p: nat, n: Node, more: Text) returns (q: nat)
    requires Plain(n) && EndsAlt(more) && p <= |s| && s[p..] == Show(n) + more
    ensures p <= q <= |s| && s[q..] == more && Alternation(s, env, x, p, q, Fold(n, env.ci))
    decreases n, 3
  {
    match n
    case Empty =>
      assert s[p..] == more;
      q := p;
      NothingDerives(s, env, x, p, more);
    case Class(cls) => q := ClassDerives(s, env, x, p, cls, more);
    case Concat(a, b) =>
      Reassociate(Group(a), Group(b), [], more);
      q := PairDerives(s, env, x, p, a, b, more);
    case Alt(a, b) =>
      Reassociate(Group(a), ['|'], Group(b), more);
      q := BarDerives(s, env, x, p, a, b, more);
    case Star(a) =>
      Reassociate(Group(a), ['*'], [], more);
      q := OperatorDerives(s, env, x, p, a, ['*'], n, more);
    case Plus(a) =>
      Reassociate(Group(a), ['+'], [], more);
      q := OperatorDerives(s, env, x, p, a, ['+'], n, more);
    case Question(a) =>
      Reassociate(Group(a), ['?'], [], more);
      q := OperatorDerives(s, env, x, p, a, ['?'], n, more);
    case Repeat(a, lo, hi) =>
      Reassociate(Group(a), ShowBounds(lo, hi), [], more);
      q := OperatorDerives(s, env, x, p, a, ShowBounds(lo, hi), n, more);
  }

  lemma TopText(bol: bool, n: Node, eol: bool)
    ensures var rest := Show(n) + if eol then ['$'] else [];
            && ShowTop(bol, n, eol) == (if bol then ['^'] + rest else rest)
            && (Plain(n) ==> rest == [] || rest[0] in ['(', '[', '$'])
  {
  }

  lemma TopOpens(bol: bool, n: Node, eol: bool)
    requires Plain(n)
    ensures var s, start := ShowTop(bol, n, eol), if bol then 1 else 0;
            start <= |s| && s[start..] == (Show(n) + if eol then ['$'] else []) && (CharAt(s, 0) == '^' <==> bol)
  {
    var s, rest := ShowTop(bol, n, eol), Show(n) + if eol then ['$'] else [];
    TopText(bol, n, eol);
    assert s[0..] == s;
    if bol { TakeOne(s, 0, '^', rest); } else { CharOf(s, 0, rest); }
  }

  lemma TopCloses(s: Text, env: Env, start: nat, q: nat, body: Node, eol: bool)
    requires Alternation(s, env, {}, start, q, body) && q <= |s| && s[q..] == if eol then ['$'] else []
    requires start == if CharAt(s, 0) == '^' then 1 else 0
    ensures Whole(s, env, Anchored(start == 1, body, eol))
  {
    CharOf(s, q, if eol then ['$'] else []);
    assert |s| - q == |s[q..]|;
    assert WholeBody(s, env, start, q, body);
  }

  /** ^r$ as written derives r with these anchors. */
  lemma TopDerives(env: Env, bol: bool, n: Node, eol: bool)
    requires Plain(n)
    ensures Whole(ShowTop(bol, n, eol), env, Anchored(bol, Fold(n, env.ci), eol))
  {
    var s, start := ShowTop(bol, n, eol), if bol then 1 else 0;
    TopOpens(bol, n, eol);
    var q := ShowDerives(s, env, {}, start, n, if eol then ['$'] else []);
    TopCloses(s, env, start, q, Fold(n, env.ci), eol);
  }
}
