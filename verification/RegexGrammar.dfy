// The grammar of regexes as an inductive relation: which tree the source
// stands for from one position to another, macros expanded.

module RegexGrammar {
  import opened Wrappers
  import opened Bytes
  import opened Regex
  import opened RegexText
  import opened RegexAtoms

  // The macro table, and whether case is ignored.
  datatype Env = Env(defs: map<Text, Text>, ci: bool)

  // The resolver of the driver puts parentheses around a definition.
  function Expanded(env: Env, name: Text): Text
    requires name in env.defs
  {
    ['('] + env.defs[name] + [')']
  }

  function Span(p: nat, q: nat): nat {
    if p <= q then q - p else 0
  }

  predicate AtTerminator(s: Text, p: nat) {
    p >= |s| || IsTerminator(s[p])
  }

  lemma FewerMacros(keys: set<Text>, x: set<Text>, name: Text)
    requires name in keys && name !in x
    ensures |keys - (x + {name})| < |keys - x|
  {
    assert keys - x == (keys - (x + {name})) + {name};
  }

  // In all of these s[p..q] stands for n, while the macros in x are being expanded.

  /** Concatenations separated by bars, grouped to the left; no bar follows. */
  ghost predicate Alternation(s: Text, env: Env, x: set<Text>, p: nat, q: nat, n: Node)
    decreases |env.defs.Keys - x|, Span(p, q), 6
  {
    exists m: nat, f :: p <= m <= q && Concatenation(s, env, x, p, m, f) && Alternatives(s, env, x, m, q, f, n)
  }

  // The bars from p on, after the alternatives that make acc.
  ghost predicate Alternatives(s: Text, env: Env, x: set<Text>, p: nat, q: nat, acc: Node, n: Node)
    decreases |env.defs.Keys - x|, Span(p, q), 5
  {
    if CharAt(s, p) != '|' then q == p && n == acc
    else
      exists m: nat, f ::
        p < m <= q && Concatenation(s, env, x, p + 1, m, f) && Alternatives(s, env, x, m, q, Alt(acc, f), n)
  }

  /** Factors up to a terminator, grouped to the left; none at all is the empty word. */
  ghost predicate Concatenation(s: Text, env: Env, x: set<Text>, p: nat, q: nat, n: Node)
    decreases |env.defs.Keys - x|, Span(p, q), 4
  {
    exists res: Option<Node> :: Factors(s, env, x, p, q, None, res) && n == OrEmpty(res)
  }

  ghost predicate Factors(s: Text, env: Env, x: set<Text>, p: nat, q: nat, acc: Option<Node>, res: Option<Node>)
    decreases |env.defs.Keys - x|, Span(p, q), 3
  {
    if AtTerminator(s, p) then q == p && res == acc
    else
      exists m: nat, f ::
        p < m <= q && Factor(s, env, x, p, m, f) && Factors(s, env, x, m, q, Some(ConcatOf(acc, f)), res)
  }

  /** A primary and at most one postfix operator. */
  ghost predicate Factor(s: Text, env: Env, x: set<Text>, p: nat, q: nat, n: Node)
    decreases |env.defs.Keys - x|, Span(p, q), 2
  {
    exists m: nat, a :: p < m <= q && Primary(s, env, x, p, m, a) && OperatorAt(s, m, a) == (n, q)
  }

  /** A closed group, a macro or an atom. */
  ghost predicate Primary(s: Text, env: Env, x: set<Text>, p: nat, q: nat, n: Node)
    decreases |env.defs.Keys - x|, Span(p, q), 1
  {
    if CharAt(s, p) == '(' then p + 1 < q <= |s| && s[q - 1] == ')' && Alternation(s, env, x, p + 1, q - 1, n)
    else if CharAt(s, p) == '{' then Macro(s, env, x, p, q, n)
    else AtomAt(s, p, env.ci) == Some(Atom(n, q, true))
  }

  /** A macro that is defined and not being expanded stands for its definition, as far as that can be read. */
  ghost predicate Macro(s: Text, env: Env, x: set<Text>, p: nat, q: nat, n: Node)
    requires CharAt(s, p) == '{'
    decreases |env.defs.Keys - x|, Span(p, q), 0
  {
    match NameAt(s, p)
    case None => q == p + 1 && n == Class(Folded('{' as int, env.ci))
    case Some((name, e)) => q == e && name in env.defs && name !in x && Expansion(env, x, name, n)
  }

  ghost predicate Expansion(env: Env, x: set<Text>, name: Text, n: Node)
    requires name in env.defs && name !in x
    decreases |env.defs.Keys - x|, 0, 0
  {
    FewerMacros(env.defs.Keys, x, name);
    exists t: nat :: Alternation(Expanded(env, name), env, x + {name}, 0, t, n)
  }

  /** A whole regex: ^ and $ at its ends only. */
  ghost predicate Whole(s: Text, env: Env, root: Node) {
    var start := if CharAt(s, 0) == '^' then 1 else 0;
    exists q: nat, body :: WholeBody(s, env, start, q, body) && root == Anchored(start == 1, body, CharAt(s, q) == '$')
  }

  ghost predicate WholeBody(s: Text, env: Env, p: nat, q: nat, body: Node) {
    Alternation(s, env, {}, p, q, body) && |s| == if CharAt(s, q) == '$' then q + 1 else q
  }

  // ---------- derived trees have no anchors and no marker ---------------------

  lemma {:induction false} AlternationPlain(s: Text, env: Env, x: set<Text>, p: nat, q: nat, n: Node)
    requires Alternation(s, env, x, p, q, n)
    ensures Plain(n)
    decreases |env.defs.Keys - x|, Span(p, q), 6
  {
    var m: nat, f :| p <= m <= q && Concatenation(s, env, x, p, m, f) && Alternatives(s, env, x, m, q, f, n);
    ConcatenationPlain(s, env, x, p, m, f);
    AlternativesPlain(s, env, x, m, q, f, n);
  }

  lemma {:induction false} AlternativesPlain(s: Text, env: Env, x: set<Text>, p: nat, q: nat, acc: Node, n: Node)
    requires Alternatives(s, env, x, p, q, acc, n) && Plain(acc)
    ensures Plain(n)
    decreases |env.defs.Keys - x|, Span(p, q), 5
  {
    if CharAt(s, p) == '|' {
      var m: nat, f :| p < m <= q && Concatenation(s, env, x, p + 1, m, f)
        && Alternatives(s, env, x, m, q, Alt(acc, f), n);
      ConcatenationPlain(s, env, x, p + 1, m, f);
      AlternativesPlain(s, env, x, m, q, Alt(acc, f), n);
    }
  }

  lemma {:induction false} ConcatenationPlain(s: Text, env: Env, x: set<Text>, p: nat, q: nat, n: Node)
    requires Concatenation(s, env, x, p, q, n)
    ensures Plain(n)
    decreases |env.defs.Keys - x|, Span(p, q), 4
  {
    var res: Option<Node> :| Factors(s, env, x, p, q, None, res) && n == OrEmpty(res);
    FactorsPlain(s, env, x, p, q, None, res);
  }

  lemma {:induction false} FactorsPlain(s: Text, env: Env, x: set<Text>, p: nat, q: nat, acc: Option<Node>,
      res: Option<Node>)
    requires Factors(s, env, x, p, q, acc, res) && Plain(OrEmpty(acc))
    ensures Plain(OrEmpty(res))
    decreases |env.defs.Keys - x|, Span(p, q), 3
  {
    if !AtTerminator(s, p) {
      var m: nat, f :| p < m <= q && Factor(s, env, x, p, m, f)
        && Factors(s, env, x, m, q, Some(ConcatOf(acc, f)), res);
      FactorPlain(s, env, x, p, m, f);
      FactorsPlain(s, env, x, m, q, Some(ConcatOf(acc, f)), res);
    }
  }

  lemma {:induction false} FactorPlain(s: Text, env: Env, x: set<Text>, p: nat, q: nat, n: Node)
    requires Factor(s, env, x, p, q, n)
    ensures Plain(n)
    decreases |env.defs.Keys - x|, Span(p, q), 2
  {
    var m: nat, a :| p < m <= q && Primary(s, env, x, p, m, a) && OperatorAt(s, m, a) == (n, q);
    PrimaryPlain(s, env, x, p, m, a);
    OperatorPlain(s, m, a);
  }

  lemma {:induction false} PrimaryPlain(s: Text, env: Env, x: set<Text>, p: nat, q: nat, n: Node)
    requires Primary(s, env, x, p, q, n)
    ensures Plain(n)
    decreases |env.defs.Keys - x|, Span(p, q), 1
  {
    if CharAt(s, p) == '(' {
      AlternationPlain(s, env, x, p + 1, q - 1, n);
    } else if CharAt(s, p) == '{' {
      match NameAt(s, p) {
        case None => ClassPlain(Folded('{' as int, env.ci));
        case Some((name, _)) => ExpansionPlain(env, x, name, n);
      }
    } else {
      AtomPlain(s, p, env.ci);
    }
  }

  lemma ClassPlain(cls: set<byte>)
    ensures Plain(Class(cls))
  {
  }

  lemma {:induction false} ExpansionPlain(env: Env, x: set<Text>, name: Text, n: Node)
    requires name in env.defs && name !in x && Expansion(env, x, name, n)
    ensures Plain(n)
    decreases |env.defs.Keys - x|, 0, 0
  {
    FewerMacros(env.defs.Keys, x, name);
    var t: nat :| Alternation(Expanded(env, name), env, x + {name}, 0, t, n);
    AlternationPlain(Expanded(env, name), env, x + {name}, 0, t, n);
  }

  ghost predicate IsTop(root: Node, bol: bool, body: Node, eol: bool) {
    Plain(body) && root == Anchored(bol, body, eol)
  }

  /** The tree of a whole pattern: anchors at the root only, no marker. */
  ghost predicate TopShaped(root: Node) {
    exists bol, body, eol :: IsTop(root, bol, body, eol)
  }

  lemma WholeShaped(s: Text, env: Env, root: Node)
    requires Whole(s, env, root)
    ensures TopShaped(root)
  {
    var start := if CharAt(s, 0) == '^' then 1 else 0;
    var q: nat, body :| WholeBody(s, env, start, q, body) && root == Anchored(start == 1, body, CharAt(s, q) == '$');
    AlternationPlain(s, env, {}, start, q, body);
    assert IsTop(root, start == 1, body, CharAt(s, q) == '$');
  }

  // ---------- the grammar is unambiguous --------------------------------------

  lemma {:induction false} AlternationUnique(s: Text, env: Env, x: set<Text>, p: nat, q: nat, n: Node, q': nat,
      n': Node)
    requires Alternation(s, env, x, p, q, n) && Alternation(s, env, x, p, q', n')
    ensures q == q' && n == n'
    decreases |env.defs.Keys - x|, Span(p, q), 6
  {
    var m: nat, f :| p <= m <= q && Concatenation(s, env, x, p, m, f) && Alternatives(s, env, x, m, q, f, n);
    var m': nat, f' :| p <= m' <= q' && Concatenation(s, env, x, p, m', f') && Alternatives(s, env, x, m', q', f', n');
    ConcatenationUnique(s, env, x, p, m, f, m', f');
    AlternativesUnique(s, env, x, m, q, f, n, q', n');
  }

  lemma {:induction false} AlternativesUnique(s: Text, env: Env, x: set<Text>, p: nat, q: nat, acc: Node, n: Node,
      q': nat, n': Node)
    requires Alternatives(s, env, x, p, q, acc, n) && Alternatives(s, env, x, p, q', acc, n')
    ensures q == q' && n == n'
    decreases |env.defs.Keys - x|, Span(p, q), 5
  {
    if CharAt(s, p) == '|' {
      var m: nat, f :| p < m <= q && Concatenation(s, env, x, p + 1, m, f)
        && Alternatives(s, env, x, m, q, Alt(acc, f), n);
      var m': nat, f' :| p < m' <= q' && Concatenation(s, env, x, p + 1, m', f')
        && Alternatives(s, env, x, m', q', Alt(acc, f'), n');
      ConcatenationUnique(s, env, x, p + 1, m, f, m', f');
      AlternativesUnique(s, env, x, m, q, Alt(acc, f), n, q', n');
    }
  }

  lemma {:induction false} ConcatenationUnique(s: Text, env: Env, x: set<Text>, p: nat, q: nat, n: Node, q': nat,
      n': Node)
    requires Concatenation(s, env, x, p, q, n) && Concatenation(s, env, x, p, q', n')
    ensures q == q' && n == n'
    decreases |env.defs.Keys - x|, Span(p, q), 4
  {
    var res: Option<Node> :| Factors(s, env, x, p, q, None, res) && n == OrEmpty(res);
    var res': Option<Node> :| Factors(s, env, x, p, q', None, res') && n' == OrEmpty(res');
    FactorsUnique(s, env, x, p, q, None, res, q', res');
  }

  lemma {:induction false} FactorsUnique(s: Text, env: Env, x: set<Text>, p: nat, q: nat, acc: Option<Node>,
      res: Option<Node>, q': nat, res': Option<Node>)
    requires Factors(s, env, x, p, q, acc, res) && Factors(s, env, x, p, q', acc, res')
    ensures q == q' && res == res'
    decreases |env.defs.Keys - x|, Span(p, q), 3
  {
    if !AtTerminator(s, p) {
      var m: nat, f :| p < m <= q && Factor(s, env, x, p, m, f)
        && Factors(s, env, x, m, q, Some(ConcatOf(acc, f)), res);
      var m': nat, f' :| p < m' <= q' && Factor(s, env, x, p, m', f')
        && Factors(s, env, x, m', q', Some(ConcatOf(acc, f')), res');
      FactorUnique(s, env, x, p, m, f, m', f');
      FactorsUnique(s, env, x, m, q, Some(ConcatOf(acc, f)), res, q', res');
    }
  }

  lemma {:induction false} FactorUnique(s: Text, env: Env, x: set<Text>, p: nat, q: nat, n: Node, q': nat, n': Node)
    requires Factor(s, env, x, p, q, n) && Factor(s, env, x, p, q', n')
    ensures q == q' && n == n'
    decreases |env.defs.Keys - x|, Span(p, q), 2
  {
    var m: nat, a :| p < m <= q && Primary(s, env, x, p, m, a) && OperatorAt(s, m, a) == (n, q);
    var m': nat, a' :| p < m' <= q' && Primary(s, env, x, p, m', a') && OperatorAt(s, m', a') == (n', q');
    PrimaryUnique(s, env, x, p, m, a, m', a');
  }

  lemma {:induction false} PrimaryUnique(s: Text, env: Env, x: set<Text>, p: nat, q: nat, n: Node, q': nat, n': Node)
    requires Primary(s, env, x, p, q, n) && Primary(s, env, x, p, q', n')
    ensures q == q' && n == n'
    decreases |env.defs.Keys - x|, Span(p, q), 1
  {
    if CharAt(s, p) == '(' {
      AlternationUnique(s, env, x, p + 1, q - 1, n, q' - 1, n');
    } else if CharAt(s, p) == '{' && NameAt(s, p).Some? {
      ExpansionUnique(env, x, NameAt(s, p).value.0, n, n');
    }
  }

  lemma {:induction false} ExpansionUnique(env: Env, x: set<Text>, name: Text, n: Node, n': Node)
    requires name in env.defs && name !in x && Expansion(env, x, name, n) && Expansion(env, x, name, n')
    ensures n == n'
    decreases |env.defs.Keys - x|, 0, 0
  {
    FewerMacros(env.defs.Keys, x, name);
    var t: nat :| Alternation(Expanded(env, name), env, x + {name}, 0, t, n);
    var t': nat :| Alternation(Expanded(env, name), env, x + {name}, 0, t', n');
    AlternationUnique(Expanded(env, name), env, x + {name}, 0, t, n, t', n');
  }

  /** A source derives at most one tree. */
  lemma WholeUnique(s: Text, env: Env, root: Node, root': Node)
    requires Whole(s, env, root) && Whole(s, env, root')
    ensures root == root'
  {
    var start := if CharAt(s, 0) == '^' then 1 else 0;
    var q: nat, body :| WholeBody(s, env, start, q, body) && root == Anchored(start == 1, body, CharAt(s, q) == '$');
    var q': nat, body' :| WholeBody(s, env, start, q', body')
      && root' == Anchored(start == 1, body', CharAt(s, q') == '$');
    AlternationUnique(s, env, {}, start, q, body, q', body');
  }

  // ---------- a group must be closed ------------------------------------------

  // What is derived at p begins with a primary, if anything stands there.
  lemma FirstPrimary(s: Text, env: Env, x: set<Text>, p: nat, q: nat, n: Node) returns (e: nat, a: Node)
    requires !AtTerminator(s, p) && Alternation(s, env, x, p, q, n)
    ensures p < e && Primary(s, env, x, p, e, a)
  {
    var m: nat, f :| p <= m <= q && Concatenation(s, env, x, p, m, f) && Alternatives(s, env, x, m, q, f, n);
    var res: Option<Node> :| Factors(s, env, x, p, m, None, res) && f == OrEmpty(res);
    e, a := FirstOfFactors(s, env, x, p, m, res);
  }

  lemma FirstOfFactors(s: Text, env: Env, x: set<Text>, p: nat, q: nat, res: Option<Node>) returns (e: nat, a: Node)
    requires !AtTerminator(s, p) && Factors(s, env, x, p, q, None, res)
    ensures p < e && Primary(s, env, x, p, e, a)
  {
    var m: nat, f :| p < m <= q && Factor(s, env, x, p, m, f) && Factors(s, env, x, m, q, Some(ConcatOf(None, f)), res);
    e, a :| p < e <= m && Primary(s, env, x, p, e, a) && OperatorAt(s, e, a) == (f, m);
  }

  lemma GroupCloses(s: Text, env: Env, x: set<Text>, p: nat, q: nat, n: Node)
    requires CharAt(s, p) == '(' && Alternation(s, env, x, p, q, n)
    ensures ')' in s[p..]
  {
    var e, a := FirstPrimary(s, env, x, p, q, n);
    assert s[p..][e - 1 - p] == ')';
  }

  /** A regex that opens with a parenthesis and closes none derives nothing. */
  lemma UnclosedGroup(s: Text, env: Env, root: Node)
    requires CharAt(s, 0) == '(' && ')' !in s
    ensures !Whole(s, env, root)
  {
    assert s[0..] == s;
    forall q: nat, body ensures !WholeBody(s, env, 0, q, body) {
      if WholeBody(s, env, 0, q, body) { GroupCloses(s, env, {}, 0, q, body); }
    }
  }

  lemma ClassCloses(s: Text, env: Env, x: set<Text>, p: nat, q: nat, n: Node)
    requires CharAt(s, p) == '[' && Alternation(s, env, x, p, q, n)
    ensures BracketAt(s, p, env.ci).closed
  {
    var e, a := FirstPrimary(s, env, x, p, q, n);
  }

  /** A regex that opens with a bracket expression that is not closed derives nothing. */
  lemma UnclosedClass(s: Text, env: Env, root: Node)
    requires CharAt(s, 0) == '[' && !BracketAt(s, 0, env.ci).closed
    ensures !Whole(s, env, root)
  {
    forall q: nat, body ensures !WholeBody(s, env, 0, q, body) {
      if WholeBody(s, env, 0, q, body) { ClassCloses(s, env, {}, 0, q, body); }
    }
  }

  // The characters of an ordinary pattern, ab*|c, and its tree.
  const ORDINARY: Text := ['a', 'b', '*', '|', 'c']

  function OrdinaryTree(): Node {
    Alt(Concat(Class({97}), Star(Class({98}))), Class({99}))
  }

  lemma OrdinaryPieces(env: Env)
    requires !env.ci
    ensures Factor(ORDINARY, env, {}, 0, 1, Class({97})) && Factor(ORDINARY, env, {}, 1, 3, Star(Class({98})))
    ensures Factor(ORDINARY, env, {}, 4, 5, Class({99}))
  {
    assert Primary(ORDINARY, env, {}, 0, 1, Class({97}));
    assert Primary(ORDINARY, env, {}, 1, 2, Class({98}));
    assert Primary(ORDINARY, env, {}, 4, 5, Class({99}));
  }

  lemma OrdinarySides(env: Env)
    requires !env.ci
    ensures Concatenation(ORDINARY, env, {}, 0, 3, Concat(Class({97}), Star(Class({98}))))
            && Concatenation(ORDINARY, env, {}, 4, 5, Class({99}))
  {
    var s, x, a, b, c := ORDINARY, {}, Class({97}), Star(Class({98})), Class({99});
    OrdinaryPieces(env);
    assert Factors(s, env, x, 3, 3, Some(Concat(a, b)), Some(Concat(a, b)));
    assert Factors(s, env, x, 1, 3, Some(a), Some(Concat(a, b)));
    assert Factors(s, env, x, 0, 3, None, Some(Concat(a, b)));
    assert Factors(s, env, x, 5, 5, Some(c), Some(c));
    assert Factors(s, env, x, 4, 5, None, Some(c));
  }

  /** An ordinary pattern derives the tree its reader expects: repetition binds tighter than concatenation, and that
      tighter than alternation. */
  lemma OrdinaryPattern(env: Env)
    requires !env.ci
    ensures Whole(ORDINARY, env, OrdinaryTree())
  {
    var s, x, ab := ORDINARY, {}, Concat(Class({97}), Star(Class({98})));
    OrdinarySides(env);
    assert Alternatives(s, env, x, 5, 5, OrdinaryTree(), OrdinaryTree());
    assert Alternatives(s, env, x, 3, 5, ab, OrdinaryTree());
    assert WholeBody(s, env, 0, 5, OrdinaryTree());
  }
}
