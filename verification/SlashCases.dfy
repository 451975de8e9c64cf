// Patterns whose trailing-context slash find_top_level_slash mistakes, and one
// that it gets right although a class seems to it to end early.

module SlashCases {
  import opened Wrappers
  import opened Bytes
  import opened Regex
  import opened RegexText
  import opened RegexAtoms
  import opened RegexGrammar
  import opened RegexReadback
  import opened Slash
  import opened PatternParser


  lemma FromStart(s: Text)
    ensures FoundFrom(s, 0, 0, Top) == SlashIn(s, 0, Top)
  {
    assert s[0..] == s;
  }

  // A bracket expression that is all of the source.
  lemma BracketWhole(s: Text, env: Env)
    requires CharAt(s, 0) == '[' && BracketAt(s, 0, env.ci).closed && BracketAt(s, 0, env.ci).end == |s|
    ensures Whole(s, env, Class(BracketAt(s, 0, env.ci).cls))
  {
    var n := Class(BracketAt(s, 0, env.ci).cls);
    BareFactor(s, env, {}, 0, |s|, n);
    OneFactor(s, env, {}, 0, |s|, n);
    OneAlternative(s, env, {}, 0, |s|, n);
    assert s[|s|..] == [];
    TopCloses(s, env, 0, |s|, n, false);
  }

  // If the part before the slash found is an unclosed bracket expression, the source is refused.
  lemma HeadRefused(s: Text, env: Env)
    requires SlashIn(s, 0, Top) > 0 && CharAt(s[..SlashIn(s, 0, Top)], 0) == '['
    requires !BracketAt(s[..SlashIn(s, 0, Top)], 0, env.ci).closed
    ensures !Admitted(s, env)
  {
    var slash := SlashIn(s, 0, Top);
    forall head, tail ensures !Sides(s, env, slash, head, tail) { UnclosedClass(s[..slash], env, head); }
  }

  // ---------- []/] ------------------------------------------------------------

  const SLASH_CLASS: Text := ['[', ']', '/', ']']

  lemma SlashClassReads(ci: bool)
    ensures BracketAt(SLASH_CLASS, 0, ci) == Bracket(Folded(93, ci) + Folded(47, ci), true, 4)
  {
    assert ElementsAt(SLASH_CLASS, 3, false, ci) == ({}, 3);
    assert ElementsAt(SLASH_CLASS, 2, false, ci) == (Folded(47, ci) + {}, 3);
    assert ElementsAt(SLASH_CLASS, 1, true, ci) == (Folded(93, ci) + (Folded(47, ci) + {}), 3);
  }

  lemma SlashClassFound()
    ensures SlashIn(SLASH_CLASS, 0, Top) == 2
  {
    FromStart(SLASH_CLASS);
    FoundStep(SLASH_CLASS, 0, 0, Top);
    FoundStep(SLASH_CLASS, 1, 0, InClass);
    FoundStep(SLASH_CLASS, 2, 0, Top);
  }

  /** A class of a bracket and a slash: the slash in it is taken for one of trailing context, and the
      pattern refused. */
  lemma SlashClassRefused(env: Env)
    ensures Derives(SLASH_CLASS, env, Pattern(Class(Folded(93, env.ci) + Folded(47, env.ci)), 0))
    ensures SlashIn(SLASH_CLASS, 0, Top) == 2 && !Admitted(SLASH_CLASS, env) && !SlashSafe(SLASH_CLASS, env)
  {
    SlashClassReads(env.ci);
    SlashClassFound();
    BracketWhole(SLASH_CLASS, env);
    assert SLASH_CLASS[..2] == ['[', ']'];
    assert ElementsAt(['[', ']'], 2, false, env.ci) == ({}, 2);
    HeadRefused(SLASH_CLASS, env);
    if SlashSafe(SLASH_CLASS, env) { ReadIsDerived(SLASH_CLASS, env); }
  }

  // ---------- [[:alpha:]/] ----------------------------------------------------

  const LETTERS: set<byte> := set b | b in ALL && IsAlpha(b as char)

  const ALPHA: Text := ['[', '[', ':', 'a', 'l', 'p', 'h', 'a', ':', ']']

  // The source begins with [[:alpha:].
  predicate AlphaFirst(s: Text) {
    ALPHA <= s
  }

  lemma AlphaAt(s: Text, ci: bool)
    requires AlphaFirst(s)
    ensures s[0] == '[' && s[1] == '[' && s[2] == ':' && PosixAt(s, 1, ci) == Some((LETTERS, 10))
  {
    assert forall i :: 0 <= i < 10 ==> s[i] == ALPHA[i];
    RunEndIs(IsAlpha, s, 3, 8, 19);
    assert s[3..8] == "alpha";
    assert PosixClass("alpha", ci) == Some(LETTERS);
  }

  lemma AlphaLeft(s: Text)
    requires AlphaFirst(s)
    ensures ClassLeft(s, 1) == 10
  {
    assert forall i :: 0 <= i < 10 ==> s[i] == ALPHA[i];
    assert ClassLeft(s, 9) == 10;
    assert ClassLeft(s, 7) == 10;
    assert ClassLeft(s, 5) == 10;
    assert ClassLeft(s, 3) == 10;
  }

  // What is found after it.
  lemma AlphaFound(s: Text)
    requires AlphaFirst(s)
    ensures SlashIn(s, 0, Top) == FoundFrom(s, 10, 0, Top)
  {
    FromStart(s);
    AlphaLeft(s);
    FoundStep(s, 0, 0, Top);
    LeftFound(s, 1, 0);
  }

  const ALPHA_SLASH: Text := ALPHA + ['/', ']']

  lemma AlphaSlashReads(ci: bool)
    ensures BracketAt(ALPHA_SLASH, 0, ci) == Bracket(LETTERS + Folded(47, ci), true, 12)
    ensures !BracketAt(ALPHA, 0, ci).closed
  {
    AlphaAt(ALPHA_SLASH, ci);
    AlphaAt(ALPHA, ci);
    assert ElementsAt(ALPHA_SLASH, 11, false, ci) == ({}, 11);
    assert ElementsAt(ALPHA_SLASH, 10, false, ci) == (Folded(47, ci) + {}, 11);
    assert ElementsAt(ALPHA, 10, false, ci) == ({}, 10);
  }

  /** Letters and a slash: the same. */
  lemma AlphaSlashRefused(env: Env)
    ensures Derives(ALPHA_SLASH, env, Pattern(Class(LETTERS + Folded(47, env.ci)), 0))
    ensures SlashIn(ALPHA_SLASH, 0, Top) == 10 && !Admitted(ALPHA_SLASH, env) && !SlashSafe(ALPHA_SLASH, env)
  {
    AlphaSlashReads(env.ci);
    AlphaFound(ALPHA_SLASH);
    FoundStep(ALPHA_SLASH, 10, 0, Top);
    BracketWhole(ALPHA_SLASH, env);
    assert ALPHA_SLASH[..10] == ALPHA;
    HeadRefused(ALPHA_SLASH, env);
    if SlashSafe(ALPHA_SLASH, env) { ReadIsDerived(ALPHA_SLASH, env); }
  }

  // ---------- [[:alpha:]_] ----------------------------------------------------

  const ALPHA_LINE: Text := ALPHA + ['_', ']']

  lemma AlphaLineReads(ci: bool)
    ensures LastElement(ALPHA_LINE, 0, ci) == 11 && BracketAt(ALPHA_LINE, 0, ci).closed
            && BracketAt(ALPHA_LINE, 0, ci).end == 12
  {
    AlphaAt(ALPHA_LINE, ci);
    assert ElementsAt(ALPHA_LINE, 11, false, ci) == ({}, 11);
    assert ElementsAt(ALPHA_LINE, 10, false, ci) == (Folded(95, ci) + {}, 11);
  }

  lemma AlphaLineState(depth: nat)
    ensures StateAfter(ALPHA_LINE, 2, 12, depth, InClass) == Some((depth, Top))
  {
    InertState(ALPHA_LINE, 2, 9, depth, InClass);
    assert StateAfter(ALPHA_LINE, 9, 12, depth, InClass) == Some((depth, Top));
    StateOn(ALPHA_LINE, 2, 9, 12, depth, InClass, depth, InClass);
  }

  /** Letters and an underscore: the class seems to end early here too, but what is left of it does no harm. */
  lemma AlphaLineCrossed(depth: nat, ci: bool)
    ensures !Neat(ALPHA_LINE, 0, ci) && Crossed(ALPHA_LINE, 0, depth, ci)
  {
    var s := ALPHA_LINE;
    AlphaLineReads(ci);
    AlphaLeft(s);
    LeavesIffNeat(s, 0, depth, ci);
    AlphaLineState(depth);
    assert StateAfter(s, 1, 12, depth, InClass) == Some((depth, Top));
  }

  // ---------- [](]/b ----------------------------------------------------------

  const PARENTHESIS: Text := ['[', ']', '(', ']']
  const LOST_TAIL: Text := PARENTHESIS + ['/', 'b']

  lemma ParenthesisReads(s: Text, ci: bool)
    requires PARENTHESIS <= s
    ensures s[0] == '[' && BracketAt(s, 0, ci) == Bracket(Folded(93, ci) + Folded(40, ci), true, 4)
  {
    assert forall i :: 0 <= i < 4 ==> s[i] == PARENTHESIS[i];
    assert ElementsAt(s, 3, false, ci) == ({}, 3);
    assert ElementsAt(s, 2, false, ci) == (Folded(40, ci) + {}, 3);
    assert ElementsAt(s, 1, true, ci) == (Folded(93, ci) + (Folded(40, ci) + {}), 3);
  }

  lemma LostTailFound()
    ensures SlashIn(LOST_TAIL, 0, Top) == -1
  {
    var s := LOST_TAIL;
    FromStart(s);
    FoundStep(s, 0, 0, Top);
    FoundStep(s, 1, 0, InClass);
    FoundStep(s, 2, 0, Top);
    FoundStep(s, 3, 1, Top);
    FoundStep(s, 4, 1, Top);
    FoundStep(s, 5, 1, Top);
  }

  lemma ThreeFactors(s: Text, env: Env, x: set<Text>, p: nat, m: nat, k: nat, q: nat, a: Node, b: Node, c: Node)
    requires p < m < k < q && !AtTerminator(s, p) && !AtTerminator(s, m) && !AtTerminator(s, k) && AtTerminator(s, q)
    requires Factor(s, env, x, p, m, a) && Factor(s, env, x, m, k, b) && Factor(s, env, x, k, q, c)
    ensures Concatenation(s, env, x, p, q, Concat(Concat(a, b), c))
  {
    var two, three := Concat(a, b), Concat(Concat(a, b), c);
    assert Factors(s, env, x, q, q, Some(three), Some(three));
    assert Factors(s, env, x, k, q, Some(two), Some(three));
    assert Factors(s, env, x, m, q, Some(a), Some(three));
    assert Factors(s, env, x, p, q, None, Some(three));
  }

  lemma LostTailFactors(env: Env, head: Node, slash: Node, b: Node)
    requires head == Class(Folded(93, env.ci) + Folded(40, env.ci))
    requires slash == Class(Folded(47, env.ci)) && b == Class(Folded(98, env.ci))
    ensures Factor(LOST_TAIL, env, {}, 0, 4, head) && Factor(LOST_TAIL, env, {}, 4, 5, slash)
    ensures Factor(LOST_TAIL, env, {}, 5, 6, b)
  {
    ParenthesisReads(LOST_TAIL, env.ci);
    BareFactor(LOST_TAIL, env, {}, 0, 4, head);
    BareFactor(LOST_TAIL, env, {}, 4, 5, slash);
    BareFactor(LOST_TAIL, env, {}, 5, 6, b);
  }

  lemma LostTailRead(env: Env, head: Node, slash: Node, b: Node)
    requires head == Class(Folded(93, env.ci) + Folded(40, env.ci))
    requires slash == Class(Folded(47, env.ci)) && b == Class(Folded(98, env.ci))
    ensures Whole(LOST_TAIL, env, Concat(Concat(head, slash), b))
  {
    LostTailFactors(env, head, slash, b);
    ThreeFactors(LOST_TAIL, env, {}, 0, 4, 5, 6, head, slash, b);
    OneAlternative(LOST_TAIL, env, {}, 0, 6, Concat(Concat(head, slash), b));
    TopCloses(LOST_TAIL, env, 0, 6, Concat(Concat(head, slash), b), false);
  }

  lemma TailWhole(env: Env)
    ensures Whole(['b'], env, Class(Folded(98, env.ci)))
  {
    var t, b: Node := ['b'], Class(Folded(98, env.ci));
    BareFactor(t, env, {}, 0, 1, b);
    OneFactor(t, env, {}, 0, 1, b);
    OneAlternative(t, env, {}, 0, 1, b);
    TopCloses(t, env, 0, 1, b, false);
  }

  lemma LostTailSides(env: Env)
    ensures SlashAt(LOST_TAIL, 0, 0, env.ci) == 4
    ensures Sides(LOST_TAIL, env, 4, Class(Folded(93, env.ci) + Folded(40, env.ci)), Class(Folded(98, env.ci)))
  {
    ParenthesisReads(LOST_TAIL, env.ci);
    ParenthesisReads(PARENTHESIS, env.ci);
    BracketWhole(PARENTHESIS, env);
    TailWhole(env);
    assert LOST_TAIL[..4] == PARENTHESIS && LOST_TAIL[5..] == ['b'];
  }

  /** A parenthesis in a class: the slash after it is not found, and the pattern is accepted with its trailing context
      read as a slash and a b to be matched. */
  lemma LostTailAccepted(env: Env) returns (read: Pattern, derived: Pattern)
    ensures ReadAs(LOST_TAIL, env, read) && Derives(LOST_TAIL, env, derived)
    ensures read.trailLen == 0 && derived.trailLen == 1 && !Derives(LOST_TAIL, env, read) && !SlashSafe(LOST_TAIL, env)
  {
    var head, slash, b := Class(Folded(93, env.ci) + Folded(40, env.ci)), Class(Folded(47, env.ci)),
      Class(Folded(98, env.ci));
    LostTailFound();
    LostTailRead(env, head, slash, b);
    LostTailSides(env);
    read := Pattern(Concat(Concat(head, slash), b), 0);
    derived := Lower(head, b).pattern;
    LowersSides(LOST_TAIL, env, 4, head, b);
    if Derives(LOST_TAIL, env, read) { DerivesUnique(LOST_TAIL, env, read, derived); }
    if SlashSafe(LOST_TAIL, env) { ReadIsDerived(LOST_TAIL, env); }
  }
}
