// A derived regex is a row of whole tokens with its parentheses matched, so
// the grammar's slash never lies inside a group, and the slash of r/s is the
// one between r and s whatever r and s are.

module SlashTokens {
  import opened Wrappers
  import opened Regex
  import opened RegexText
  import opened RegexAtoms
  import opened RegexGrammar
  import opened RegexLocality
  import opened Slash

  // ---------- rows of tokens ------------------------------------------------

  // The bracket expression or quoted string at p, if there is one, is closed.
  predicate TokenClosed(s: Text, p: nat, ci: bool)
    requires p < |s|
  {
    (s[p] == '[' ==> BracketAt(s, p, ci).closed) && (s[p] == '"' ==> CharAt(s, QuotedAt(s, p + 1).1) == '"')
  }

  /** Whole tokens from p to q that close k parentheses more than they open, the last of them at the end. */
  predicate Tokens(s: Text, p: nat, k: nat, q: nat, ci: bool)
    requires q <= |s|
    decreases q - p
  {
    if p >= q then p == q && k == 0
    else
      TokenClosed(s, p, ci) && (s[p] == ')' ==> k > 0) &&
      Tokens(s, TokenEnd(s, p, ci), DepthAfter(s[p], k, Top), q, ci)
  }

  lemma {:induction false} TokensJoin(s: Text, p: nat, k: nat, m: nat, j: nat, q: nat, ci: bool)
    requires p <= m <= q <= |s| && Tokens(s, p, k, m, ci) && Tokens(s, m, j, q, ci)
    ensures Tokens(s, p, k + j, q, ci)
    decreases m - p
  {
    if p < m {
      var e := TokenEnd(s, p, ci);
      assert Tokens(s, e, DepthAfter(s[p], k, Top), m, ci);
      TokensJoin(s, e, DepthAfter(s[p], k, Top), m, j, q, ci);
    }
  }

  // A character that is a token and no parenthesis.
  predicate Single(c: ch) {
    c !in ['\\', '[', '"', '(', ')']
  }

  lemma {:induction false} Singles(s: Text, p: nat, q: nat, ci: bool)
    requires p <= q <= |s| && forall i :: p <= i < q ==> Single(s[i])
    ensures Tokens(s, p, 0, q, ci)
    decreases q - p
  {
    if p < q { Singles(s, p + 1, q, ci); }
  }

  /** From inside at least one parenthesis, a row of tokens is passed over. Outside all, so it is unless the slash lies
      in it. */
  lemma {:induction false} TokensPass(s: Text, p: nat, k: nat, q: nat, base: nat, ci: bool)
    requires p <= q <= |s| && Tokens(s, p, k, q, ci)
    ensures SlashAt(s, p, base + k, ci) == SlashAt(s, q, base, ci) || (base == 0 && p <= SlashAt(s, p, k, ci) < q)
    decreases q - p
  {
    if p < q && !SlashHere(s, p, base + k, Top) {
      TokensPass(s, TokenEnd(s, p, ci), DepthAfter(s[p], k, Top), q, base, ci);
    }
  }

  // ---------- derived regexes are rows of tokens ------------------------------

  lemma {:induction false} AlternationTokens(s: Text, env: Env, x: set<Text>, p: nat, q: nat, n: Node)
    requires Alternation(s, env, x, p, q, n) && p <= q <= |s|
    ensures Tokens(s, p, 0, q, env.ci)
    decreases |env.defs.Keys - x|, Span(p, q), 6
  {
    var m: nat, f :| p <= m <= q && Concatenation(s, env, x, p, m, f) && Alternatives(s, env, x, m, q, f, n);
    ConcatenationTokens(s, env, x, p, m, f);
    AlternativesTokens(s, env, x, m, q, f, n);
    TokensJoin(s, p, 0, m, 0, q, env.ci);
  }

  lemma {:induction false} AlternativesTokens(s: Text, env: Env, x: set<Text>, p: nat, q: nat, acc: Node, n: Node)
    requires Alternatives(s, env, x, p, q, acc, n) && p <= q <= |s|
    ensures Tokens(s, p, 0, q, env.ci)
    decreases |env.defs.Keys - x|, Span(p, q), 5
  {
    if CharAt(s, p) == '|' {
      var m: nat, f :| p < m <= q && Concatenation(s, env, x, p + 1, m, f)
        && Alternatives(s, env, x, m, q, Alt(acc, f), n);
      ConcatenationTokens(s, env, x, p + 1, m, f);
      AlternativesTokens(s, env, x, m, q, Alt(acc, f), n);
      TokensJoin(s, p + 1, 0, m, 0, q, env.ci);
    }
  }

  lemma {:induction false} ConcatenationTokens(s: Text, env: Env, x: set<Text>, p: nat, q: nat, n: Node)
    requires Concatenation(s, env, x, p, q, n) && p <= q <= |s|
    ensures Tokens(s, p, 0, q, env.ci)
    decreases |env.defs.Keys - x|, Span(p, q), 4
  {
    var res: Option<Node> :| Factors(s, env, x, p, q, None, res) && n == OrEmpty(res);
    FactorsTokens(s, env, x, p, q, None, res);
  }

  lemma {:induction false} FactorsTokens(s: Text, env: Env, x: set<Text>, p: nat, q: nat, acc: Option<Node>,
      res: Option<Node>)
    requires Factors(s, env, x, p, q, acc, res) && p <= q <= |s|
    ensures Tokens(s, p, 0, q, env.ci)
    decreases |env.defs.Keys - x|, Span(p, q), 3
  {
    if !AtTerminator(s, p) {
      var m: nat, f :| p < m <= q && Factor(s, env, x, p, m, f)
        && Factors(s, env, x, m, q, Some(ConcatOf(acc, f)), res);
      FactorTokens(s, env, x, p, m, f);
      FactorsTokens(s, env, x, m, q, Some(ConcatOf(acc, f)), res);
      TokensJoin(s, p, 0, m, 0, q, env.ci);
    }
  }

  lemma {:induction false} FactorTokens(s: Text, env: Env, x: set<Text>, p: nat, q: nat, n: Node)
    requires Factor(s, env, x, p, q, n) && p <= q <= |s|
    ensures Tokens(s, p, 0, q, env.ci)
    decreases |env.defs.Keys - x|, Span(p, q), 2
  {
    var m: nat, a :| p < m <= q && Primary(s, env, x, p, m, a) && OperatorAt(s, m, a) == (n, q);
    PrimaryTokens(s, env, x, p, m, a);
    OperatorTokens(s, m, a, env.ci);
    TokensJoin(s, p, 0, m, 0, q, env.ci);
  }

  lemma OperatorTokens(s: Text, p: nat, a: Node, ci: bool)
    requires p <= |s|
    ensures Tokens(s, p, 0, OperatorAt(s, p, a).1, ci)
  {
    if CharAt(s, p) == '{' && BoundsAt(s, p).Some? { BoundsSingle(s, p); }
    Singles(s, p, OperatorAt(s, p, a).1, ci);
  }

  lemma BoundsSingle(s: Text, p: nat)
    requires CharAt(s, p) == '{' && BoundsAt(s, p).Some?
    ensures forall i :: p <= i < BoundsAt(s, p).value.end ==> Single(s[i])
  {
  }

  lemma GroupTokens(s: Text, p: nat, q: nat, ci: bool)
    requires p + 1 < q <= |s| && s[p] == '(' && s[q - 1] == ')' && Tokens(s, p + 1, 0, q - 1, ci)
    ensures Tokens(s, p, 0, q, ci)
  {
    assert Tokens(s, q - 1, 1, q, ci);
    TokensJoin(s, p + 1, 0, q - 1, 1, q, ci);
  }

  lemma MacroTokens(s: Text, env: Env, x: set<Text>, p: nat, q: nat, n: Node)
    requires CharAt(s, p) == '{' && Macro(s, env, x, p, q, n) && p < q <= |s|
    ensures Tokens(s, p, 0, q, env.ci)
  {
    Singles(s, p, q, env.ci);
  }

  lemma AtomTokens(s: Text, p: nat, q: nat, n: Node, ci: bool)
    requires p < q <= |s| && AtomAt(s, p, ci) == Some(Atom(n, q, true))
    ensures Tokens(s, p, 0, q, ci)
  {
    assert TokenEnd(s, p, ci) == q;
  }

  lemma {:induction false} PrimaryTokens(s: Text, env: Env, x: set<Text>, p: nat, q: nat, n: Node)
    requires Primary(s, env, x, p, q, n) && p < q <= |s|
    ensures Tokens(s, p, 0, q, env.ci)
    decreases |env.defs.Keys - x|, Span(p, q), 1
  {
    if CharAt(s, p) == '(' {
      AlternationTokens(s, env, x, p + 1, q - 1, n);
      GroupTokens(s, p, q, env.ci);
    } else if CharAt(s, p) == '{' {
      MacroTokens(s, env, x, p, q, n);
    } else {
      AtomTokens(s, p, q, n, env.ci);
    }
  }

  lemma BodyTokens(s: Text, env: Env, start: nat, q: nat, body: Node)
    requires start <= |s| && (forall i :: 0 <= i < start ==> Single(s[i])) && WholeBody(s, env, start, q, body)
    ensures q <= |s| && Tokens(s, 0, 0, q, env.ci)
  {
    AlternationTokens(s, env, {}, start, q, body);
    Singles(s, 0, start, env.ci);
    TokensJoin(s, 0, 0, start, 0, q, env.ci);
  }

  /** A regex is a row of tokens. */
  lemma WholeTokens(s: Text, env: Env, root: Node)
    requires Whole(s, env, root)
    ensures Tokens(s, 0, 0, |s|, env.ci)
  {
    var start := if CharAt(s, 0) == '^' then 1 else 0;
    var q: nat, body :| WholeBody(s, env, start, q, body) && root == Anchored(start == 1, body, CharAt(s, q) == '$');
    BodyTokens(s, env, start, q, body);
    Singles(s, q, |s|, env.ci);
    TokensJoin(s, 0, 0, q, 0, |s|, env.ci);
  }

  /** A slash inside a group of a regex is never the grammar's: from inside a parenthesis, what is derived is passed
      over. */
  lemma GroupPassed(s: Text, env: Env, x: set<Text>, p: nat, q: nat, n: Node, depth: nat)
    requires Alternation(s, env, x, p, q, n) && p <= q <= |s| && depth > 0
    ensures SlashAt(s, p, depth, env.ci) == SlashAt(s, q, depth, env.ci)
  {
    AlternationTokens(s, env, x, p, q, n);
    TokensPass(s, p, 0, q, depth, env.ci);
  }

  // ---------- what follows a token does not change it -------------------------

  /** The text ends in a backslash that escapes nothing. */
  predicate Dangling(s: Text, p: nat, ci: bool)
    requires p <= |s|
    decreases |s| - p
  {
    p < |s| && ((s[p] == '\\' && p + 1 == |s|) || Dangling(s, TokenEnd(s, p, ci), ci))
  }

  lemma TokenInside(s: Text, t: Text, o: nat, p: nat, ci: bool)
    requires Stands(s, t, o) && p < |s| && TokenClosed(s, p, ci) && (s[p] == '\\' ==> p + 1 < |s|)
    ensures CharAt(t, o + p) == s[p] && TokenEnd(t, o + p, ci) == o + TokenEnd(s, p, ci)
  {
    SameChar(s, t, o, p);
    if s[p] == '\\' {
      EscapeInside(s, t, o, p);
    } else if s[p] == '[' {
      BracketInside(s, t, o, p, ci);
    } else if s[p] == '"' {
      QuotedInside(s, t, o, p + 1);
      SameChar(s, t, o, QuotedAt(s, p + 1).1);
    }
  }

  lemma {:induction false} SlashAfter(s: Text, t: Text, p: nat, k: nat, ci: bool)
    requires Stands(s, t, 0) && CharAt(t, |s|) == '/' && p <= |s|
    requires Tokens(s, p, k, |s|, ci) && !Dangling(s, p, ci) && SlashAt(s, p, k, ci) < 0
    ensures SlashAt(t, p, k, ci) == |s|
    decreases |s| - p
  {
    if p < |s| {
      TokenInside(s, t, 0, p, ci);
      SlashAfter(s, t, TokenEnd(s, p, ci), DepthAfter(s[p], k, Top), ci);
    }
  }

  /** The grammar's slash in r/s is the one between r and s, for every regex r that has none of its own and does not end
      in a backslash, whatever s is. */
  lemma SlashBetween(r: Text, s: Text, env: Env, root: Node)
    requires Whole(r, env, root) && SlashAt(r, 0, 0, env.ci) < 0 && !Dangling(r, 0, env.ci)
    ensures SlashAt(r + (['/'] + s), 0, 0, env.ci) == |r|
  {
    WholeTokens(r, env, root);
    SlashAfter(r, r + (['/'] + s), 0, 0, env.ci);
  }
}
