// What a macro reference stands for, in terms of the definition in the macro
// table: exactly the tree that the definition derives by itself.

module MacroReads {
  import opened Wrappers
  import opened Regex
  import opened RegexText
  import opened RegexAtoms
  import opened RegexGrammar
  import opened RegexLocality
  import opened RegexReadback
  import opened Slash
  import opened SlashTokens

  // ---------- a derivation stays one in a larger text -------------------------

  // Where s ends in t, a regex ends.
  predicate Ends(s: Text, t: Text, o: nat) {
    Stands(s, t, o) && CharAt(t, o + |s|) in [NUL, ')']
  }

  lemma {:induction false} DanglingOn(s: Text, p: nat, k: nat, m: nat, ci: bool)
    requires p <= m <= |s| && Tokens(s, p, k, m, ci) && !Dangling(s, p, ci)
    ensures !Dangling(s, m, ci)
    decreases m - p
  {
    if p < m { DanglingOn(s, TokenEnd(s, p, ci), DepthAfter(s[p], k, Top), m, ci); }
  }

  lemma {:induction false} AlternationEmbeds(s: Text, t: Text, o: nat, env: Env, x: set<Text>, p: nat, q: nat, n: Node)
    requires Ends(s, t, o) && p <= q <= |s| && !Dangling(s, p, env.ci) && Alternation(s, env, x, p, q, n)
    ensures Alternation(t, env, x, o + p, o + q, n)
    decreases |env.defs.Keys - x|, Span(p, q), 6
  {
    var m: nat, f :| p <= m <= q && Concatenation(s, env, x, p, m, f) && Alternatives(s, env, x, m, q, f, n);
    ConcatenationEmbeds(s, t, o, env, x, p, m, f);
    ConcatenationTokens(s, env, x, p, m, f);
    DanglingOn(s, p, 0, m, env.ci);
    AlternativesEmbeds(s, t, o, env, x, m, q, f, n);
    assert o + p <= o + m <= o + q;
  }

  lemma {:induction false} AlternativesEmbeds(s: Text, t: Text, o: nat, env: Env, x: set<Text>, p: nat, q: nat,
                                              acc: Node, n: Node)
    requires Ends(s, t, o) && p <= q <= |s| && !Dangling(s, p, env.ci) && Alternatives(s, env, x, p, q, acc, n)
    ensures Alternatives(t, env, x, o + p, o + q, acc, n)
    decreases |env.defs.Keys - x|, Span(p, q), 5
  {
    SameOrEnd(s, t, o, p);
    if CharAt(s, p) == '|' {
      var m: nat, f :| p < m <= q && Concatenation(s, env, x, p + 1, m, f)
        && Alternatives(s, env, x, m, q, Alt(acc, f), n);
      ConcatenationEmbeds(s, t, o, env, x, p + 1, m, f);
      ConcatenationTokens(s, env, x, p + 1, m, f);
      DanglingOn(s, p + 1, 0, m, env.ci);
      AlternativesEmbeds(s, t, o, env, x, m, q, Alt(acc, f), n);
      MoreAlternatives(t, env, x, o + p, o + m, o + q, acc, f, n);
    }
  }

  lemma MoreAlternatives(s: Text, env: Env, x: set<Text>, p: nat, m: nat, q: nat, acc: Node, f: Node, n: Node)
    requires p < m <= q && CharAt(s, p) == '|' && Concatenation(s, env, x, p + 1, m, f)
    requires Alternatives(s, env, x, m, q, Alt(acc, f), n)
    ensures Alternatives(s, env, x, p, q, acc, n)
  {
  }

  lemma {:induction false} ConcatenationEmbeds(s: Text, t: Text, o: nat, env: Env, x: set<Text>, p: nat, q: nat,
      n: Node)
    requires Ends(s, t, o) && p <= q <= |s| && !Dangling(s, p, env.ci) && Concatenation(s, env, x, p, q, n)
    ensures Concatenation(t, env, x, o + p, o + q, n)
    decreases |env.defs.Keys - x|, Span(p, q), 4
  {
    var res: Option<Node> :| Factors(s, env, x, p, q, None, res) && n == OrEmpty(res);
    FactorsEmbed(s, t, o, env, x, p, q, None, res);
  }

  lemma {:induction false} FactorsEmbed(s: Text, t: Text, o: nat, env: Env, x: set<Text>, p: nat, q: nat,
                                        acc: Option<Node>, res: Option<Node>)
    requires Ends(s, t, o) && p <= q <= |s| && !Dangling(s, p, env.ci) && Factors(s, env, x, p, q, acc, res)
    ensures Factors(t, env, x, o + p, o + q, acc, res)
    decreases |env.defs.Keys - x|, Span(p, q), 3
  {
    SameOrEnd(s, t, o, p);
    if !AtTerminator(s, p) {
      var m: nat, f :| p < m <= q && Factor(s, env, x, p, m, f)
        && Factors(s, env, x, m, q, Some(ConcatOf(acc, f)), res);
      FactorEmbeds(s, t, o, env, x, p, m, f);
      FactorTokens(s, env, x, p, m, f);
      DanglingOn(s, p, 0, m, env.ci);
      FactorsEmbed(s, t, o, env, x, m, q, Some(ConcatOf(acc, f)), res);
      assert o + p < o + m <= o + q;
    }
  }

  lemma {:induction false} FactorEmbeds(s: Text, t: Text, o: nat, env: Env, x: set<Text>, p: nat, q: nat, n: Node)
    requires Ends(s, t, o) && p <= q <= |s| && !Dangling(s, p, env.ci) && Factor(s, env, x, p, q, n)
    ensures Factor(t, env, x, o + p, o + q, n)
    decreases |env.defs.Keys - x|, Span(p, q), 2
  {
    var m: nat, a :| p < m <= q && Primary(s, env, x, p, m, a) && OperatorAt(s, m, a) == (n, q);
    PrimaryEmbeds(s, t, o, env, x, p, m, a);
    OperatedInside(s, t, o, env, x, p, m, a, n, q);
  }

  lemma OperatedInside(s: Text, t: Text, o: nat, env: Env, x: set<Text>, p: nat, m: nat, a: Node, n: Node, q: nat)
    requires Stands(s, t, o) && p < m <= q <= |s| && OperatorAt(s, m, a) == (n, q)
    requires Primary(t, env, x, o + p, o + m, a)
    ensures Factor(t, env, x, o + p, o + q, n)
  {
    OperatorInside(s, t, o, m, a);
    OperatedFactor(t, env, x, o + p, o + m, a, n, o + q);
  }

  lemma {:induction false} PrimaryEmbeds(s: Text, t: Text, o: nat, env: Env, x: set<Text>, p: nat, q: nat, n: Node)
    requires Ends(s, t, o) && p < q <= |s| && !Dangling(s, p, env.ci) && Primary(s, env, x, p, q, n)
    ensures Primary(t, env, x, o + p, o + q, n)
    decreases |env.defs.Keys - x|, Span(p, q), 1
  {
    SameChar(s, t, o, p);
    if CharAt(s, p) == '(' {
      AlternationEmbeds(s, t, o, env, x, p + 1, q - 1, n);
      SameChar(s, t, o, q - 1);
    } else if CharAt(s, p) == '{' {
      NameInside(s, t, o, p);
    } else {
      AtomInside(s, t, o, p, q, n, env.ci);
    }
  }

  // ---------- what a reference stands for -------------------------------------

  lemma InParentheses(d: Text)
    ensures Ends(d, ['('] + d + [')'], 1)
  {
    var t := ['('] + d + [')'];
    assert forall i :: 0 <= i < |d| ==> t[1 + i] == d[i];
  }

  // The text in parentheses derives what it derives without them.
  lemma ParenthesesDerive(d: Text, env: Env, x: set<Text>, n: Node)
    requires Alternation(d, env, x, 0, |d|, n) && !Dangling(d, 0, env.ci)
    ensures Alternation(['('] + d + [')'], env, x, 0, |d| + 2, n)
  {
    var t := ['('] + d + [')'];
    InParentheses(d);
    AlternationEmbeds(d, t, 1, env, x, 0, |d|, n);
    assert Primary(t, env, x, 0, |d| + 2, n);
    BareFactor(t, env, x, 0, |d| + 2, n);
    OneFactor(t, env, x, 0, |d| + 2, n);
    OneAlternative(t, env, x, 0, |d| + 2, n);
  }

  lemma TakesParenthesis(t: Text, p: nat, k: nat, e: nat, ci: bool)
    requires p + 2 == |t| && t[p] == '\\' && t[p + 1] == ')' && p <= e < |t|
    ensures Tokens(t, p, k, e, ci) ==> p == e
  {
    assert TokenEnd(t, p, ci) == |t|;
    if p < e { assert !Tokens(t, |t|, DepthAfter(t[p], k, Top), e, ci); }
  }

  // The token at p ends at m; stated of every position equal to p, so that uses do not unfold it.
  ghost predicate EndIs(s: Text, p: nat, ci: bool, m: nat) {
    p < m <= |s| && forall q :: p <= q < |s| && q == p ==> TokenEnd(s, q, ci) == m
  }

  lemma EndShift(s: Text, t: Text, o: nat, p: nat, ci: bool, m: nat)
    requires Stands(s, t, o) && p < |s| && TokenClosed(s, p, ci) && (s[p] == '\\' ==> p + 1 < |s|) && EndIs(s, p, ci, m)
    ensures EndIs(t, o + p, ci, o + m)
  {
    assert TokenEnd(s, p, ci) == m;
    TokenInside(s, t, o, p, ci);
  }

  lemma DanglingStep(s: Text, p: nat, k: nat, ci: bool) returns (m: nat)
    requires p <= |s| && Tokens(s, p, k, |s|, ci) && Dangling(s, p, ci) && !(CharAt(s, p) == '\\' && p + 1 == |s|)
    ensures p < m <= |s| && EndIs(s, p, ci, m) && TokenClosed(s, p, ci) && (s[p] == '\\' ==> p + 1 < |s|)
    ensures Tokens(s, m, DepthAfter(s[p], k, Top), |s|, ci) && Dangling(s, m, ci)
  {
    m := TokenEnd(s, p, ci);
  }

  lemma TokensStep(s: Text, p: nat, k: nat, q: nat, ci: bool, m: nat)
    requires p < q <= |s| && Tokens(s, p, k, q, ci) && EndIs(s, p, ci, m)
    ensures m <= q && Tokens(s, m, DepthAfter(s[p], k, Top), q, ci)
  {
  }

  // From p on d is a row of tokens that ends in a lone backslash, and its copy in t begins one up to e.
  ghost predicate InStep(d: Text, t: Text, p: nat, k: nat, e: nat, ci: bool) {
    && Stands(d, t, 1) && |t| == |d| + 2 && t[|d| + 1] == ')'
    && p <= |d| && Tokens(d, p, k, |d|, ci) && Dangling(d, p, ci)
    && 1 + p <= e < |t| && t[e] == ')' && Tokens(t, 1 + p, k, e, ci)
  }

  lemma DanglingShift(d: Text, t: Text, p: nat, k: nat, ci: bool) returns (m: nat)
    requires Stands(d, t, 1) && p <= |d| && Tokens(d, p, k, |d|, ci) && Dangling(d, p, ci)
    requires !(CharAt(d, p) == '\\' && p + 1 == |d|)
    ensures p < m <= |d| && EndIs(t, 1 + p, ci, 1 + m) && t[1 + p] == d[p]
    ensures Tokens(d, m, DepthAfter(d[p], k, Top), |d|, ci) && Dangling(d, m, ci)
  {
    m := DanglingStep(d, p, k, ci);
    EndShift(d, t, 1, p, ci, m);
    SameChar(d, t, 1, p);
  }

  lemma InStepOn(d: Text, t: Text, p: nat, k: nat, e: nat, ci: bool) returns (m: nat, j: nat)
    requires InStep(d, t, p, k, e, ci) && !(CharAt(d, p) == '\\' && p + 1 == |d|) && 1 + p < e
    ensures p < m && InStep(d, t, m, j, e, ci)
  {
    m := DanglingShift(d, t, p, k, ci);
    j := DepthAfter(d[p], k, Top);
    TokensStep(t, 1 + p, k, e, ci, 1 + m);
  }

  // The backslash at its end takes the closing parenthesis: no token ends before that.
  lemma {:induction false} NeverCloses(d: Text, t: Text, p: nat, k: nat, e: nat, ci: bool)
    ensures !InStep(d, t, p, k, e, ci)
    decreases |d| - p
  {
    if InStep(d, t, p, k, e, ci) {
      SameChar(d, t, 1, p);
      if d[p] == '\\' && p + 1 == |d| {
        TakesParenthesis(t, 1 + p, k, e, ci);
      } else if 1 + p < e {
        var m, j := InStepOn(d, t, p, k, e, ci);
        NeverCloses(d, t, m, j, e, ci);
      }
    }
  }

  lemma DanglingDerivesNothing(d: Text, env: Env, x: set<Text>, n: Node, q: nat, n': Node)
    requires Alternation(d, env, x, 0, |d|, n) && Dangling(d, 0, env.ci)
    ensures !Alternation(['('] + d + [')'], env, x, 0, q, n')
  {
    var t := ['('] + d + [')'];
    if Alternation(t, env, x, 0, q, n') {
      var e, a := FirstPrimary(t, env, x, 0, q, n');
      AlternationTokens(t, env, x, 1, e - 1, a);
      AlternationTokens(d, env, x, 0, |d|, n);
      InParentheses(d);
      assert e >= 2 && t[e - 1] == ')';
      NeverCloses(d, t, 0, 0, e - 1, env.ci);
    }
  }

  /** A macro whose definition derives n by itself, as an alternation and in full, stands for exactly n: its parentheses
      change nothing. Only a definition that ends in a lone backslash stands for nothing, since that takes the closing
      parenthesis. */
  lemma MacroStandsFor(env: Env, x: set<Text>, name: Text, n: Node, n': Node)
    requires name in env.defs && name !in x
    requires Alternation(env.defs[name], env, x + {name}, 0, |env.defs[name]|, n)
    ensures Expansion(env, x, name, n') <==> n' == n && !Dangling(env.defs[name], 0, env.ci)
  {
    var d := env.defs[name];
    if Dangling(d, 0, env.ci) {
      forall q: nat ensures !Alternation(['('] + d + [')'], env, x + {name}, 0, q, n') {
        DanglingDerivesNothing(d, env, x + {name}, n, q, n');
      }
    } else {
      ParenthesesDerive(d, env, x + {name}, n);
      assert Alternation(Expanded(env, name), env, x + {name}, 0, |d| + 2, n);
      if Expansion(env, x, name, n') { ExpansionUnique(env, x, name, n, n'); }
    }
  }

  lemma NameReads(s: Text, p: nat, name: Text, more: Text)
    requires name != []
    requires forall i :: 0 <= i < |name| ==>
               'a' <= name[i] <= 'z' || 'A' <= name[i] <= 'Z' || '0' <= name[i] <= '9' || name[i] in ['_', '-']
    requires p <= |s| && s[p..] == ['{'] + (name + (['}'] + more))
    ensures p < |s| && s[p] == '{' && NameAt(s, p) == Some((name, p + |name| + 2))
  {
    TakeOne(s, p, '{', name + (['}'] + more));
    var e := p + 1 + |name|;
    assert s[p + 1..e] == name && s[e..] == ['}'] + more;
    TakeOne(s, e, '}', more);
    assert forall k :: p + 1 <= k < e ==> s[k] == name[k - (p + 1)];
    RunEndIs(IsNameChar, s, p + 1, e, |s|);
  }

  /** A reference in braces derives the tree that the definition of that name derives, and no other. */
  lemma ReferenceDerives(s: Text, env: Env, x: set<Text>, p: nat, name: Text, more: Text, n: Node, q: nat, n': Node)
    requires name != []
    requires forall i :: 0 <= i < |name| ==>
               'a' <= name[i] <= 'z' || 'A' <= name[i] <= 'Z' || '0' <= name[i] <= '9' || name[i] in ['_', '-']
    requires p <= |s| && s[p..] == ['{'] + (name + (['}'] + more))
    requires name in env.defs && name !in x && !Dangling(env.defs[name], 0, env.ci)
    requires Alternation(env.defs[name], env, x + {name}, 0, |env.defs[name]|, n)
    ensures Primary(s, env, x, p, q, n') <==> q == p + |name| + 2 && n' == n
  {
    NameReads(s, p, name, more);
    MacroStandsFor(env, x, name, n, n');
  }

  /** A name that is not defined, or is being expanded already, derives nothing. */
  lemma ReferenceFails(s: Text, env: Env, x: set<Text>, p: nat, name: Text, more: Text, q: nat, n: Node)
    requires name != []
    requires forall i :: 0 <= i < |name| ==>
               'a' <= name[i] <= 'z' || 'A' <= name[i] <= 'Z' || '0' <= name[i] <= '9' || name[i] in ['_', '-']
    requires p <= |s| && s[p..] == ['{'] + (name + (['}'] + more))
    requires name !in env.defs || name in x
    ensures !Primary(s, env, x, p, q, n)
  {
    NameReads(s, p, name, more);
  }

  /** An operator after a reference applies to all that the reference stands for. */
  lemma ReferenceOperated(s: Text, env: Env, x: set<Text>, p: nat, q: nat, n: Node)
    requires CharAt(s, p) == '{' && p < q && Primary(s, env, x, p, q, n)
    ensures CharAt(s, q) == '*' ==> Factor(s, env, x, p, q + 1, Star(n))
    ensures CharAt(s, q) == '+' ==> Factor(s, env, x, p, q + 1, Plus(n))
    ensures CharAt(s, q) == '?' ==> Factor(s, env, x, p, q + 1, Question(n))
    ensures CharAt(s, q) == '{' && BoundsAt(s, q).Some? ==>
            var b := BoundsAt(s, q).value; Factor(s, env, x, p, b.end, Repeat(n, b.lo, b.hi))
  {
    var (n', q') := OperatorAt(s, q, n);
    OperatedFactor(s, env, x, p, q, n, n', q');
  }
}
