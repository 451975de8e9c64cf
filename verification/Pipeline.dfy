// The whole compiler: patterns to rules to NFA to DFA to tables (the driver in
// src/main.cpp), and what the scanner then picks in terms of the patterns alone.

module Pipeline {
  import opened Wrappers
  import opened Bytes
  import opened Languages
  import opened Regex
  import opened RegexText
  import opened RegexAtoms
  import opened RegexGrammar
  import opened RegexReadback
  import opened Slash
  import opened PatternParser
  import opened RuleNfa
  import opened Thompson
  import opened Eclass
  import opened Subset
  import opened ScanTables
  import opened Matching
  import opened Scanner
  import opened Trailing
  import opened Reject
  import opened TableFile
  import opened TableLoader
  import opened Runs
  import opened Runtime

  // ---------- from text to tables -------------------------------------------

  datatype RuleText = RuleText(pattern: Text, sites: Sites)

  /** The rule is what its text is read as. */
  ghost predicate FromText(rule: Rule, text: RuleText, env: Env) {
    rule.sites == text.sites && ReadAs(text.pattern, env, Pattern(rule.root, rule.trail))
  }

  ghost predicate AllFrom(rules: seq<Rule>, texts: seq<RuleText>, env: Env)
    requires |rules| <= |texts|
  {
    forall i {:trigger FromText(rules[i], texts[i], env)} :: 0 <= i < |rules| ==> FromText(rules[i], texts[i], env)
  }

  // Every one of the first n texts can be read.
  ghost predicate AllAdmitted(texts: seq<RuleText>, n: nat, env: Env)
    requires n <= |texts|
  {
    forall i {:trigger Admitted(texts[i].pattern, env)} :: 0 <= i < n ==> Admitted(texts[i].pattern, env)
  }

  lemma NotAdmitted(texts: seq<RuleText>, i: nat, env: Env)
    requires i < |texts| && !Admitted(texts[i].pattern, env)
    ensures !AllAdmitted(texts, |texts|, env)
  {
  }

  lemma AdmittedSnoc(texts: seq<RuleText>, i: nat, env: Env)
    requires i < |texts|
    ensures AllAdmitted(texts, i + 1, env) <==> AllAdmitted(texts, i, env) && Admitted(texts[i].pattern, env)
  {
  }

  lemma AllFromSnoc(rules: seq<Rule>, rule: Rule, texts: seq<RuleText>, env: Env)
    requires |rules| < |texts| && AllFrom(rules, texts, env) && FromText(rule, texts[|rules|], env)
    ensures AllFrom(rules + [rule], texts, env)
  {
    forall i | 0 <= i < |rules + [rule]| ensures FromText((rules + [rule])[i], texts[i], env) {
      if i < |rules| { assert FromText(rules[i], texts[i], env); }
    }
  }

  method ParseRule(text: RuleText, env: Env) returns (rule: Option<Rule>)
    ensures rule.Some? <==> Admitted(text.pattern, env)
    ensures rule.Some? ==> FromText(rule.value, text, env)
  {
    var p, ok := ParsePattern(text.pattern, env);
    rule := if ok then Some(Rule(p.value.tree, text.sites, p.value.trailLen)) else None;
  }

  // The scan for the slash crosses every bracket expression of every text.
  predicate AllSlashSafe(texts: seq<RuleText>, env: Env) {
    forall i :: 0 <= i < |texts| ==> SlashSafe(texts[i].pattern, env)
  }

  /** The rule is what the grammar derives from its text. */
  ghost predicate Derived(rule: Rule, text: RuleText, env: Env) {
    rule.sites == text.sites && Derives(text.pattern, env, Pattern(rule.root, rule.trail))
  }

  ghost predicate AllDerived(rules: seq<Rule>, texts: seq<RuleText>, env: Env)
    requires |rules| <= |texts|
  {
    forall i {:trigger Derived(rules[i], texts[i], env)} :: 0 <= i < |rules| ==> Derived(rules[i], texts[i], env)
  }

  ghost predicate AllDerivable(texts: seq<RuleText>, env: Env) {
    forall i {:trigger Derivable(texts[i].pattern, env)} :: 0 <= i < |texts| ==> Derivable(texts[i].pattern, env)
  }

  lemma AdmittedIsDerivable(texts: seq<RuleText>, env: Env)
    requires AllSlashSafe(texts, env)
    ensures AllAdmitted(texts, |texts|, env) <==> AllDerivable(texts, env)
  {
    forall i | 0 <= i < |texts| ensures Admitted(texts[i].pattern, env) <==> Derivable(texts[i].pattern, env) {
      ReadIsDerived(texts[i].pattern, env);
    }
  }

  lemma FromIsDerived(rules: seq<Rule>, texts: seq<RuleText>, env: Env)
    requires AllSlashSafe(texts, env) && |rules| == |texts| && AllFrom(rules, texts, env)
    ensures AllDerived(rules, texts, env)
  {
    forall i | 0 <= i < |rules| ensures Derived(rules[i], texts[i], env) {
      assert FromText(rules[i], texts[i], env);
      ReadIsDerived(texts[i].pattern, env);
    }
  }

  // Parsed as the texts are read; and as the grammar derives them, if every bracket expression is crossed.
  ghost predicate ParsedAs(ok: bool, rules: seq<Rule>, texts: seq<RuleText>, env: Env) {
    && (ok <==> AllAdmitted(texts, |texts|, env))
    && (ok ==> |rules| == |texts| && AllFrom(rules, texts, env))
    && (AllSlashSafe(texts, env) ==> (ok <==> AllDerivable(texts, env)) && (ok ==> AllDerived(rules, texts, env)))
  }

  lemma ParsedSafely(ok: bool, rules: seq<Rule>, texts: seq<RuleText>, env: Env)
    requires ok <==> AllAdmitted(texts, |texts|, env)
    requires ok ==> |rules| == |texts| && AllFrom(rules, texts, env)
    ensures ParsedAs(ok, rules, texts, env)
  {
    if AllSlashSafe(texts, env) {
      AdmittedIsDerivable(texts, env);
      if ok { FromIsDerived(rules, texts, env); }
    }
  }

  /** The rules of a scanner, parsed in order: accepted iff every text is a pattern. */
  method ParseRules(texts: seq<RuleText>, env: Env) returns (rules: seq<Rule>, ok: bool)
    ensures ParsedAs(ok, rules, texts, env)
  {
    rules, ok := [], true;
    var i := 0;
    while i < |texts|
      invariant i <= |texts| && |rules| == i && AllAdmitted(texts, i, env) && AllFrom(rules, texts, env)
    {
      var rule := ParseRule(texts[i], env);
      if rule.None? {
        NotAdmitted(texts, i, env);
        ParsedSafely(false, rules, texts, env);
        return rules, false;
      }
      AdmittedSnoc(texts, i, env);
      AllFromSnoc(rules, rule.value, texts, env);
      rules := rules + [rule.value];
      i := i + 1;
    }
    ParsedSafely(true, rules, texts, env);
  }

  // Every condition a rule names exists.
  predicate CondsKnown(rules: seq<Rule>, excl: seq<bool>) {
    forall r, i :: 0 <= r < |rules| && 0 <= i < |rules[r].sites.conds| ==> rules[r].sites.conds[i] < |excl|
  }

  method BuildNfa(rules: seq<Rule>, excl: seq<bool>) returns (n: Nfa)
    requires CondsKnown(rules, excl)
    ensures NfaFor(n, rules) && n.condExcl == excl
  {
    var b := new Builder(excl);
    var i := 0;
    while i < |rules|
      invariant i <= |rules| && b.Valid() && b.rules == rules[..i] && b.condExcl == excl && |b.condStarts| == |excl|
      invariant fresh(b)
    {
      b.AddRule(rules[i].root, i, rules[i].sites, rules[i].trail);
      assert rules[..i + 1] == rules[..i] + [rules[i]];
      i := i + 1;
    }
    assert rules[..i] == rules;
    n := Nfa(b.states, b.condStarts, b.condExcl, b.ruleBol, b.ruleEol, b.ruleTrail, b.ruleBoundary);
    LayoutKeepsPromise(n, rules, b.at);
  }

  /** The tables of an NFA in one mode. */
  method CompileNfa(n: Nfa, rules: seq<Rule>, mode: CompressMode) returns (t: Tables)
    requires NfaFor(n, rules)
    ensures Implements(t, Grammar(rules, n.condExcl)) && InMode(t, n, mode)
  {
    var d;
    ghost var sets;
    d, sets := BuildDfa(n, !mode.Full?);
    BuiltIsEmittable(n, d, sets);
    t := EmitTables(n, d, mode);
    TablesImplement(n, Grammar(rules, n.condExcl), d, sets, t);
  }

  /** The compiler is correct: in each table mode the tables are those of the mode and implement the rules. */
  method CompileScanner(rules: seq<Rule>, excl: seq<bool>, mode: CompressMode) returns (t: Tables, ghost n: Nfa)
    requires CondsKnown(rules, excl)
    ensures Implements(t, Grammar(rules, excl))
    ensures NfaFor(n, rules) && n.condExcl == excl && InMode(t, n, mode)
  {
    var nfa := BuildNfa(rules, excl);
    n := nfa;
    t := CompileNfa(nfa, rules, mode);
  }

  /** What a rule is part of: after any word, from any entry, the tables' state accepts the rule iff it has <*>, or
      names the condition, or names none and that is INITIAL or inclusive; moreover the entry is a line beginning if
      the rule has a ^; and the word is one of its body. */
  lemma TakesPart(t: Tables, g: Grammar, c: nat, atBol: bool, w: Word, r: nat, bol: bool, body: Node, eol: bool)
    requires Implements(t, g) && c < |g.excl| && r < |g.rules|
    requires g.rules[r].root == Anchored(bol, body, eol) && !HasAnchor(body)
    ensures var s, sites := TRun(t, Start(t, c, atBol), w), g.rules[r].sites;
            (0 <= s < |t.acceptNormal| && r in ListAt(t.acceptLists, s)) <==>
            && (sites.anyState || c in sites.conds || (sites.conds == [] && (c == 0 || !g.excl[c])))
            && (bol ==> atBol) && w in Meaning(Effective(body))
  {
    UnwrapAnchored(bol, body, eol);
    var s := TRun(t, Start(t, c, atBol), w);
    assert Knows(t, g, c, atBol, w, s);
    assert Denotes(g, c, atBol, r, w) <==>
           Active(g.rules[r], g.excl, c, atBol) && w in Meaning(Effective(body));
  }

  /** A rule that names no condition matches nothing in an exclusive condition other than INITIAL, and so is never
      picked there; in every inclusive one, and in INITIAL, it matches the words of its body. */
  lemma UnnamedRule(h: Here, r: nat, k: nat, bol: bool, body: Node, eol: bool)
    requires r < |h.g.rules| && h.c < |h.g.excl| && k <= |h.input|
    requires h.g.rules[r].root == Anchored(bol, body, eol) && !HasAnchor(body)
    requires h.g.rules[r].sites == Sites([], false)
    ensures h.c != 0 && h.g.excl[h.c] ==> !Hit(h, r, k) && !IsPlainPick(h, r, k) && !LongestFor(h, |h.input|, r, k)
    ensures h.c == 0 || !h.g.excl[h.c] ==>
            (Hit(h, r, k) <==> (bol ==> h.b) && h.input[..k] in Meaning(Effective(body)))
  {
    UnwrapAnchored(bol, body, eol);
  }

  // What a scanner's own file does to its tables.
  method SaveLoad(n: Nfa, d: Dfa, compressed: bool, name: Word, meta: Word, ghost emitted: Tables)
    returns (data: Word, ok: bool, l: Loader, ghost f: File, ghost t: Tables)
    requires Writable(d) && Emittable(n, d) && TablesFor(emitted, n, d)
    ensures data == Image(f) && Sized(f) && f.name == name && f.compressed == compressed
    ensures Fits32(f) ==> (ok <==> n.ruleTrail != []) && (ok ==> Overwritten(emitted, l, t) && TablesFor(t, n, d))
  {
    var comb;
    data, f, comb := SerialiseTables(n, d, compressed, name, meta);
    l := new Loader(SizesOf(n, d, compressed, comb));
    ok := l.Fload(data, f);
    OwnFileTaken(n, d, compressed, name, f.meta, comb);
    t := emitted;
    if Fits32(f) && ok {
      FilledIsRestored(l, n, d, name, f.meta, comb);
      RestoredShape(l, n, d, comb);
      t := Overwrite(emitted, l);
      LoadedTables(emitted, l, t, n, d, comb);
    }
  }

  /** Writing a scanner's tables to a file and loading them back: if every number fits 32 bits, the file is accepted iff
      there is a rule, and then the scanner's tables still implement the rules. */
  method CompileSaveLoad(rules: seq<Rule>, excl: seq<bool>, mode: CompressMode, name: Word, meta: Word)
    returns (data: Word, ok: bool, l: Loader, ghost n: Nfa, ghost f: File, ghost emitted: Tables, ghost t: Tables)
    requires CondsKnown(rules, excl)
    ensures data == Image(f) && Sized(f) && f.name == name && (f.compressed <==> mode.Compress?)
    ensures Implements(emitted, Grammar(rules, excl)) && NfaFor(n, rules) && InMode(emitted, n, mode)
    ensures Fits32(f) ==>
            (ok <==> rules != []) && (ok ==> Overwritten(emitted, l, t) && Implements(t, Grammar(rules, excl)))
  {
    var nfa := BuildNfa(rules, excl);
    n := nfa;
    var d;
    ghost var sets;
    d, sets := BuildDfa(nfa, !mode.Full?);
    BuiltIsEmittable(n, d, sets);
    BuiltIsWritable(n, d, sets);
    var tables := EmitTables(nfa, d, mode);
    emitted := tables;
    data, ok, l, f, t := SaveLoad(nfa, d, mode.Compress?, name, meta, emitted);
    TablesImplement(n, Grammar(rules, excl), d, sets, emitted);
    if Fits32(f) && ok { TablesImplement(n, Grammar(rules, excl), d, sets, t); }
  }

  lemma BuiltIsWritable(n: Nfa, d: Dfa, sets: seq<seq<nat>>)
    requires WellFormed(n) && DfaFor(n, d, sets)
    ensures Writable(d)
  {
    Pigeonhole(d.eclasses.ec, d.eclasses.nclasses);
  }

  /** From the text of the patterns to tables that implement what the texts are read as, which is what the grammar
      derives from them if every bracket expression is crossed; refused iff a text is no pattern. */
  method CompileText(texts: seq<RuleText>, env: Env, excl: seq<bool>, mode: CompressMode)
    returns (t: Option<Tables>, ghost rules: seq<Rule>, ghost n: Nfa)
    requires forall r, i :: 0 <= r < |texts| && 0 <= i < |texts[r].sites.conds| ==> texts[r].sites.conds[i] < |excl|
    ensures t.Some? <==> AllAdmitted(texts, |texts|, env)
    ensures ParsedAs(t.Some?, rules, texts, env)
    ensures t.Some? ==> Implements(t.value, Grammar(rules, excl)) && NfaFor(n, rules) && InMode(t.value, n, mode)
  {
    var parsed, ok := ParseRules(texts, env);
    rules := parsed;
    n := Nfa([], [], [], [], [], [], []);
    if !ok { return None, rules, n; }
    forall r, i | 0 <= r < |parsed| && 0 <= i < |parsed[r].sites.conds| ensures parsed[r].sites.conds[i] < |excl| {
      assert FromText(parsed[r], texts[r], env);
    }
    var tables;
    tables, n := CompileScanner(parsed, excl, mode);
    t := Some(tables);
  }

  /** A rule written as ^r$ with case respected has exactly these anchors and this body. */
  lemma WrittenRule(rule: Rule, text: RuleText, env: Env, w: Written)
    requires FromText(rule, text, env) && !env.ci && WellWritten(w) && w.tail.None? && text.pattern == ShowPattern(w)
    ensures Unwrap(rule.root) == Unwrapped(w.bol, w.eol, w.r) && rule.trail == 0
  {
    WrittenDerives(w, env);
    DerivesUnique(text.pattern, env, Pattern(rule.root, rule.trail), Intended(w, env.ci).pattern);
    FoldRespectingCase(w.r);
    UnwrapAnchored(w.bol, w.r, w.eol);
  }

  /** The trailing context of every accepted r/s pattern without empty classes is split as Trailing proves. */
  lemma AcceptedIsWritten(g: Grammar, rule: nat, src: Text, env: Env, slash: int, bol: bool, r: Node, eol: bool,
                          tail: Tail)
    requires rule < |g.rules|
    requires Comes(src, env, slash, Pattern(g.rules[rule].root, g.rules[rule].trail), bol, r, eol, Some(tail))
    requires ClassesNonempty(Body(g.rules[rule]))
    ensures WrittenAs(g, rule, bol, r, tail)
  {
  }

  // ---------- the lexing rule of POSIX lex ----------------------------------

  /** The rule belongs to the condition: it has <*>, or names it, or names none and the condition is INITIAL or
      inclusive. And if it ends in $, what it matches is followed by a newline or the end. */
  ghost predicate Fits(h: Here, rule: nat, len: nat) {
    && rule < |h.g.rules| && h.c < |h.g.excl| && len <= |h.input|
    && (var sites := h.g.rules[rule].sites;
        sites.anyState || h.c in sites.conds || (sites.conds == [] && (h.c == 0 || !h.g.excl[h.c])))
    && (Unwrap(h.g.rules[rule].root).eol ==> len == |h.input| || h.input[len] == 0x0A)
  }

  /** Rule r can match the first k bytes. It belongs to the condition: it has <*>, or names it, or names none and the
      condition is INITIAL or inclusive. If it has ^, this is a line beginning. The bytes are a word of its body. If it
      ends in $, a newline or the end follows them. */
  ghost predicate CanMatch(h: Here, r: nat, k: nat) {
    && Fits(h, r, k)
    && (Unwrap(h.g.rules[r].root).bol ==> h.b)
    && h.input[..k] in Meaning(Unwrap(h.g.rules[r].root).body)
  }

  /** The longest match of at least one byte, the earliest rule among equals; rule -1 if there is none. */
  ghost predicate PosixPick(h: Here, rule: int, len: nat) {
    if rule < 0 then rule == -1 && forall r: nat, k: nat :: CanMatch(h, r, k) ==> k == 0
    else CanMatch(h, rule, len) && len > 0
         && forall r: nat, k: nat :: CanMatch(h, r, k) ==> k < len || (k == len && rule <= r)
  }

  predicate AllNonempty(g: Grammar) {
    forall r :: 0 <= r < |g.rules| ==> ClassesNonempty(Body(g.rules[r]))
  }

  // Every body is compiled to the language it denotes.
  ghost predicate AllFaithful(g: Grammar) {
    forall r :: 0 <= r < |g.rules| ==> Faithful(Body(g.rules[r]))
  }

  lemma NonemptyFaithful(g: Grammar)
    requires AllNonempty(g)
    ensures AllFaithful(g)
  {
    forall r | 0 <= r < |g.rules| ensures Faithful(Body(g.rules[r])) { EffectiveIdentity(Body(g.rules[r])); }
  }

  /** With empty classes the scanner can only match more. */
  lemma MatchesKept(h: Here, r: nat, k: nat)
    requires CanMatch(h, r, k)
    ensures Candidate(h, r, k)
  {
    EffectiveContains(Body(h.g.rules[r]));
  }

  lemma SameMatches(h: Here, r: nat, k: nat)
    requires AllFaithful(h.g)
    ensures CanMatch(h, r, k) <==> Candidate(h, r, k)
  {
    if r < |h.g.rules| { assert Faithful(Body(h.g.rules[r])); }
  }

  /** If the bodies are compiled to what they denote, what the compiled rules call for is what the patterns call for. */
  lemma PickIsPosix(h: Here, rule: int, len: nat)
    requires AllFaithful(h.g)
    ensures IsPick(h, rule, len) <==> PosixPick(h, rule, len)
  {
    forall r: nat, k: nat ensures CanMatch(h, r, k) <==> Eligible(h, false, r, k) {
      SameMatches(h, r, k);
    }
  }

  /** End to end: compiled in any mode, the scanner obeys the lexing rule of POSIX lex at every place exactly when no
      shorter $ match is hidden there by a longer one, which cannot happen if no $ pattern matches a newline. */
  method LexOnce(rules: seq<Rule>, excl: seq<bool>, mode: CompressMode, buf: array<byte>, mb: nat, end: nat, c: nat,
      atBol: bool)
    returns (rule: int, len: nat, token: nat)
    requires CondsKnown(rules, excl) && AllFaithful(Grammar(rules, excl))
    requires mb <= end <= buf.Length && c < |excl|
    ensures var h := Here(Grammar(rules, excl), c, atBol, buf[mb..end]);
            && (PosixPick(h, rule, len) <==> !HiddenEol(h))
            && (EolBodiesNewlineFree(h.g) ==> PosixPick(h, rule, len))
            && (rule >= 0 ==> rule < |rules| && Hit(h, rule, len) && IsToken(h, rule, len, token))
            && (rule >= 0 ==> Fits(h, rule, len))
  {
    var t, _ := CompileScanner(rules, excl, mode);
    ghost var h := Here(Grammar(rules, excl), c, atBol, buf[mb..end]);
    rule, len, token := Match(t, buf, mb, end, c, atBol, h.g);
    PickObeys(h, rule, len);
    if rule >= 0 { PickFits(h, rule, len); }
  }

  lemma PickObeys(h: Here, rule: int, len: nat)
    requires AllFaithful(h.g) && IsPlainPick(h, rule, len)
    ensures PosixPick(h, rule, len) <==> !HiddenEol(h)
    ensures EolBodiesNewlineFree(h.g) ==> PosixPick(h, rule, len)
  {
    PlainIffNotHidden(h, rule, len);
    PickIsPosix(h, rule, len);
    if EolBodiesNewlineFree(h.g) { NewlineFreeHidesNothing(h); }
  }

  lemma CandidateFits(h: Here, rule: nat, len: nat)
    requires Candidate(h, rule, len)
    ensures Fits(h, rule, len)
  {
  }

  lemma PickFits(h: Here, rule: nat, len: nat)
    requires IsPlainPick(h, rule, len)
    ensures Fits(h, rule, len)
  {
    CandidateFits(h, rule, len);
  }

  ghost predicate LongestMatch(h: Here, r: nat, k: nat) {
    CanMatch(h, r, k) && forall k': nat :: CanMatch(h, r, k') ==> k' <= k
  }

  lemma SameLongest(h: Here, r: nat, k: nat)
    requires AllFaithful(h.g)
    ensures LongestMatch(h, r, k) <==> LongestFor(h, |h.input|, r, k)
  {
    forall k': nat ensures CanMatch(h, r, k') <==> Candidate(h, r, k') { SameMatches(h, r, k'); }
  }

  // A lexer over the bytes, standing anywhere in them.
  method LexerAt(t: Tables, ghost g: Grammar, bytes: Word, at: nat, c: nat, atBol: bool) returns (l: Lexer)
    requires at <= |bytes|
    ensures fresh(l) && fresh(l.buf) && l.Valid() && !l.Sealed() && l.t == t && l.g == g && l.Contents() == bytes
    ensures l.Where() == Here(g, c, atBol, bytes[at..]) && l.pos == at && l.end == |bytes|
  {
    l := new Lexer(t, g, bytes);
    l.pos, l.start, l.atBol := at, c, atBol;
  }

  /** With REJECT in every action no condition on $ patterns is needed: the rules that can match are tried each at its
      longest length, longest first and earlier rules first among equals, beginning with the one POSIX lex picks, and
      then the byte at this place is echoed as if nothing had been tried. */
  method LexRejecting(rules: seq<Rule>, excl: seq<bool>, mode: CompressMode, bytes: Word, at: nat, c: nat, atBol: bool)
    returns (chain: Chain, seen: seq<Event>, x: byte, after: Lexer)
    requires CondsKnown(rules, excl) && AllFaithful(Grammar(rules, excl))
    requires at < |bytes| && c < |excl|
    ensures var h := Here(Grammar(rules, excl), c, atBol, bytes[at..]);
            && InOrder(chain)
            && (if chain == [] then PosixPick(h, -1, 0) else PosixPick(h, chain[0].0, chain[0].1))
            && (forall r: nat, k: nat :: (r, k) in chain <==> k > 0 && LongestMatch(h, r, k))
            && Shown(h, chain, seen) && forall r: nat, k: nat :: (r, k) in chain ==> Fits(h, r, k)
    ensures after.Valid() && after.Contents() == bytes && after.pos == at + 1 && x == bytes[at]
  {
    var t, _ := CompileScanner(rules, excl, mode);
    ghost var h := Here(Grammar(rules, excl), c, atBol, bytes[at..]);
    after := LexerAt(t, h.g, bytes, at, c, atBol);
    chain, seen, x := after.RejectAll();
    FirstIsPick(h, chain);
    PickIsPosix(h, if chain == [] then -1 else chain[0].0, if chain == [] then 0 else chain[0].1);
    forall r: nat, k: nat ensures LongestMatch(h, r, k) <==> LongestFor(h, |h.input|, r, k) {
      SameLongest(h, r, k);
    }
    forall r: nat, k: nat | (r, k) in chain ensures Fits(h, r, k) { CandidateFits(h, r, k); }
  }

  /** The three table modes agree on every rule list: the tables of the three modes, with every byte a class of its own,
      with merged classes, and packed, give the same events for the same bytes and actions, turn by turn, and leave the
      scanner at the same place. */
  method LexInEveryMode(rules: seq<Rule>, excl: seq<bool>, bytes: Word, turns: nat, act: seq<Event> -> nat)
    returns (full: Tables, merged: Tables, packed: Tables, logs: seq<seq<Event>>, ghost n: Nfa, ghost to: Place)
    requires CondsKnown(rules, excl) && excl != []
    requires forall l: seq<Event> :: act(l) < |excl|
    ensures NfaFor(n, rules) && InMode(full, n, Full) && InMode(merged, n, FullEc) && InMode(packed, n, Compress)
    ensures |logs| == 3 && logs[0] == logs[1] == logs[2] && |logs[0]| == turns
    ensures Walk(Grammar(rules, excl), bytes, 0, act, Place(0, true), logs[0], to)
  {
    ghost var g := Grammar(rules, excl);
    var nfa := BuildNfa(rules, excl);
    n := nfa;
    full := CompileNfa(nfa, rules, Full);
    merged := CompileNfa(nfa, rules, FullEc);
    packed := CompileNfa(nfa, rules, Compress);
    ghost var to1, to2;
    var log, log1, log2;
    log, to := LexTurns(full, g, bytes, turns, act);
    log1, to1 := LexTurns(merged, g, bytes, turns, act);
    log2, to2 := LexTurns(packed, g, bytes, turns, act);
    WalksAgree(g, bytes, 0, act, Place(0, true), log, to, log1, to1);
    WalksAgree(g, bytes, 0, act, Place(0, true), log, to, log2, to2);
    logs := [log, log1, log2];
  }

  /** The turns of a scanner with the given tables. */
  method LexTurns(t: Tables, ghost g: Grammar, bytes: Word, turns: nat, act: seq<Event> -> nat)
    returns (log: seq<Event>, ghost to: Place)
    requires Implements(t, g) && g.excl != []
    requires forall l: seq<Event> :: act(l) < |g.excl|
    ensures |log| == turns && Walk(g, bytes, 0, act, Place(0, true), log, to)
  {
    var l := new Lexer(t, g, bytes);
    log := l.Turns(turns, act);
    to := l.Now();
  }

  /** If no head of a trailing context matches the empty word, then in every mode scanning ends and the events' text is
      the whole input. */
  method LexAll(rules: seq<Rule>, excl: seq<bool>, mode: CompressMode, bytes: Word, act: seq<Event> -> nat)
    returns (log: seq<Event>)
    requires CondsKnown(rules, excl) && HeadsNonempty(Grammar(rules, excl)) && excl != []
    requires forall l: seq<Event> :: act(l) < |excl|
    ensures AllText(log) == bytes
    ensures Walk(Grammar(rules, excl), bytes, 0, act, Place(0, true), log, Place(|bytes|, BolAt(bytes, |bytes|)))
  {
    var t, _ := CompileScanner(rules, excl, mode);
    var l := new Lexer(t, Grammar(rules, excl), bytes);
    assert l.Remaining() == bytes;
    log := l.Run(act);
  }

  // ---------- where the code departs from it --------------------------------

  const A: byte := 97
  const B: byte := 98

  // The rule a(\nb)?$ alone.
  function Tricky(): Rule {
    Rule(Concat(Concat(Class({A}), Question(Concat(Class({NEWLINE}), Class({B})))), AnchorEOL), Sites([], false), 0)
  }

  // At the beginning of "a\nbc".
  function TrickyPlace(): Here {
    Here(Grammar([Tricky()], [false]), 0, true, [A, NEWLINE, B, 99])
  }

  lemma TrickyWords(w: Word)
    ensures w in Meaning(Body(Tricky())) <==> w == [A] || w == [A, NEWLINE, B]
  {
    var a, nl, b := ClassWords({A}), ClassWords({NEWLINE}), ClassWords({B});
    if w in Meaning(Body(Tricky())) {
      var u, v := CatElim(w, a, Cat(nl, b) + EPSILON);
      if v in Cat(nl, b) { var x, y := CatElim(v, nl, b); }
    }
    if w == [A] { assert w == [A] + []; CatIntro([A], [], a, Cat(nl, b) + EPSILON); }
    if w == [A, NEWLINE, B] {
      CatIntro([NEWLINE], [B], nl, b);
      assert [NEWLINE, B] == [NEWLINE] + [B];
      CatIntro([A], [NEWLINE, B], a, Cat(nl, b) + EPSILON);
      assert w == [A] + [NEWLINE, B];
    }
  }

  lemma TrickyHits(r: nat, k: nat)
    ensures Hit(TrickyPlace(), r, k) <==> r == 0 && (k == 1 || k == 3)
  {
    var h := TrickyPlace();
    EffectiveIdentity(Body(Tricky()));
    if r == 0 && k <= 4 {
      TrickyWords(h.input[..k]);
      assert k == 1 ==> h.input[..k] == [A];
      assert k == 3 ==> h.input[..k] == [A, NEWLINE, B];
    }
  }

  lemma TrickyMatches(r: nat, k: nat)
    ensures CanMatch(TrickyPlace(), r, k) <==> r == 0 && k == 1
    ensures Candidate(TrickyPlace(), r, k) <==> r == 0 && k == 1
  {
    NonemptyFaithful(TrickyPlace().g);
    SameMatches(TrickyPlace(), r, k);
    TrickyHits(r, k);
    assert IsEol(TrickyPlace().g, 0);
  }

  // The longest $ match does not end at a line end, so nothing is eligible for the plain loop.
  lemma TrickyEligible(r: nat, k: nat)
    ensures !Eligible(TrickyPlace(), true, r, k)
  {
    TrickyMatches(r, k);
    TrickyHits(0, 3);
    assert EolHit(TrickyPlace(), 0, 3);
  }

  /** The hypothesis on $ patterns is needed: here a $ match of length 1 is hidden by the longest one, of length 3, so
      the lexing rule wants a token and the plain loop takes none. */
  lemma HiddenEolExample()
    ensures AllNonempty(TrickyPlace().g) && !EolBodiesNewlineFree(TrickyPlace().g)
    ensures PosixPick(TrickyPlace(), 0, 1) && IsPlainPick(TrickyPlace(), -1, 0)
  {
    var h := TrickyPlace();
    assert IsEol(h.g, 0) && !NewlineFree(Body(h.g.rules[0]));
    forall r: nat, k: nat ensures CanMatch(h, r, k) <==> r == 0 && k == 1 { TrickyMatches(r, k); }
    forall r: nat, k: nat ensures !Eligible(h, true, r, k) { TrickyEligible(r, k); }
  }

  // The pattern a[^\x00-\xff], which denotes nothing, and the place before "a".
  const EMPTY_CLASS: Text := ['a', '[', '^', '\\', 'x', '0', '0', '-', '\\', 'x', 'f', 'f', ']']

  function NothingTree(): Node {
    Concat(Class({A}), Class({}))
  }

  function NothingPlace(): Here {
    Here(Grammar([Rule(NothingTree(), Sites([], false), 0)], [false]), 0, true, [A])
  }

  lemma LetterDerives(s: Text, env: Env, p: nat)
    requires p < |s| && IsLower(s[p]) && !env.ci
    ensures Primary(s, env, {}, p, p + 1, Class({Byte(s[p])}))
  {
  }

  lemma BracketDerives(s: Text, env: Env, p: nat)
    requires p < |s| && s[p] == '[' && BracketAt(s, p, env.ci).closed
    ensures Primary(s, env, {}, p, BracketAt(s, p, env.ci).end, Class(BracketAt(s, p, env.ci).cls))
  {
  }

  lemma EmptyClassPieces(env: Env)
    requires !env.ci
    ensures Primary(EMPTY_CLASS, env, {}, 0, 1, Class({A})) && Primary(EMPTY_CLASS, env, {}, 1, 13, Class({}))
  {
    EmptyClassReads();
    LetterDerives(EMPTY_CLASS, env, 0);
    BracketDerives(EMPTY_CLASS, env, 1);
  }

  lemma EmptyClassWhole(env: Env)
    requires !env.ci
    ensures Whole(EMPTY_CLASS, env, NothingTree())
  {
    EmptyClassPieces(env);
    PairJoins(EMPTY_CLASS, env, {}, 0, 1, 13, Class({A}), Class({}));
    assert EMPTY_CLASS[13..] == [];
    TopCloses(EMPTY_CLASS, env, 0, 13, NothingTree(), false);
  }

  lemma NoSlashNoSplit(src: Text, env: Env, root: Node)
    requires '/' !in src && Whole(src, env, root)
    ensures Derives(src, env, Pattern(root, 0)) && ReadAs(src, env, Pattern(root, 0))
  {
    SlashIsThere(src, env.ci);
  }

  lemma EmptyClassText(env: Env)
    requires !env.ci
    ensures Derives(EMPTY_CLASS, env, Pattern(NothingTree(), 0)) && ReadAs(EMPTY_CLASS, env, Pattern(NothingTree(), 0))
  {
    EmptyClassWhole(env);
    NoSlashNoSplit(EMPTY_CLASS, env, NothingTree());
  }

  lemma SlashIsThere(s: Text, ci: bool)
    ensures SlashIn(s, 0, Top) >= 0 || SlashAt(s, 0, 0, ci) >= 0 ==> '/' in s
  {
    if SlashIn(s, 0, Top) >= 0 { assert s[SlashIn(s, 0, Top)] in s; }
  }

  lemma EmptyClassReads()
    ensures BracketAt(EMPTY_CLASS, 1, false) == Bracket({}, true, 13)
  {
    var s := EMPTY_CLASS;
    assert HexStands(s, 3, 0) && HexStands(s, 8, 255);
    HexEscape(s, 3, 0);
    HexEscape(s, 8, 255);
    assert RangeOf(0, 255, false) == ALL by {
      forall b: byte ensures b in RangeOf(0, 255, false) { assert b in ALL && b in Folded(b, false); }
    }
    assert ElementAt(s, 3, false) == (ALL, 12);
    assert ElementsAt(s, 12, false, false) == ({}, 12);
    assert ElementsAt(s, 3, true, false).0 == ALL && ElementsAt(s, 3, true, false).1 == 12;
  }

  /** The hypothesis on empty classes is needed: this pattern denotes no word at all, and the scanner takes a for it. */
  lemma EmptyClassExample()
    ensures !AllNonempty(NothingPlace().g) && !AllFaithful(NothingPlace().g)
    ensures PosixPick(NothingPlace(), -1, 0) && IsPlainPick(NothingPlace(), 0, 1) && IsPick(NothingPlace(), 0, 1)
  {
    var h := NothingPlace();
    var body := NothingTree();
    forall w: Word ensures w !in Meaning(body) {
      if w in Meaning(body) { var u, v := CatElim(w, ClassWords({A}), ClassWords({})); }
    }
    CatIntro([A], [], ClassWords({A}), EPSILON);
    assert [A] + [] == [A];
    assert h.input[..1] == [A] && Hit(h, 0, 1) && Eligible(h, false, 0, 1) && Eligible(h, true, 0, 1);
    assert Body(h.g.rules[0]) == body && !Faithful(body);
    assert Subtree(Class({}), body);
  }
}
