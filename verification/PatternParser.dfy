// parse_pattern of src/regex.cpp: a pattern is split at its trailing-context
// slash, both sides are parsed, and the two trees are lowered to one.

module PatternParser {
  import opened Wrappers
  import opened Bytes
  import opened Languages
  import opened Regex
  import opened RegexText
  import opened RegexGrammar
  import opened Slash
  import opened SlashTokens
  import opened RegexReadback
  import opened RegexParser

  // ---------- what it skips -------------------------------------------------

  // Scanning x from one state leaves the scanner in the other, with no slash found.
  ghost predicate Skips(x: Text, depth: nat, inside: Inside, depth': nat, inside': Inside) {
    forall t: Text :: SkipsBefore(x, t, depth, inside, depth', inside')
  }

  ghost predicate SkipsBefore(x: Text, t: Text, depth: nat, inside: Inside, depth': nat, inside': Inside) {
    SlashIn(x + t, depth, inside) == Shifted(|x|, SlashIn(t, depth', inside'))
  }

  lemma SkipsBoth(x: Text, y: Text, d0: nat, i0: Inside, d1: nat, i1: Inside, d2: nat, i2: Inside)
    requires Skips(x, d0, i0, d1, i1) && Skips(y, d1, i1, d2, i2)
    ensures Skips(x + y, d0, i0, d2, i2)
  {
    forall t: Text ensures SkipsBefore(x + y, t, d0, i0, d2, i2) {
      assert (x + y) + t == x + (y + t);
      assert SkipsBefore(x, y + t, d0, i0, d1, i1) && SkipsBefore(y, t, d1, i1, d2, i2);
    }
  }

  lemma SkipsNone(depth: nat, inside: Inside)
    ensures Skips([], depth, inside, depth, inside)
  {
    forall t: Text ensures SkipsBefore([], t, depth, inside, depth, inside) {
      assert [] + t == t;
    }
  }

  // A character that is neither a bracket, a quote, a parenthesis, a backslash nor a slash.
  predicate Dull(c: ch) {
    c !in ['\\', '[', '"', '(', ')', '/', ']']
  }

  lemma SkipsDull(c: ch, depth: nat, inside: Inside)
    requires Dull(c) && inside != InQuotes
    ensures Skips([c], depth, inside, depth, inside)
  {
    forall t: Text ensures SkipsBefore([c], t, depth, inside, depth, inside) {
      assert ([c] + t)[1..] == t;
    }
  }

  lemma {:induction false} SkipsAllDull(s: Text, depth: nat, inside: Inside)
    requires (forall i :: 0 <= i < |s| ==> Dull(s[i])) && inside != InQuotes
    ensures Skips(s, depth, inside, depth, inside)
  {
    if s == [] {
      SkipsNone(depth, inside);
    } else {
      SkipsDull(s[0], depth, inside);
      SkipsAllDull(s[1..], depth, inside);
      SkipsBoth([s[0]], s[1..], depth, inside, depth, inside, depth, inside);
      assert s == [s[0]] + s[1..];
    }
  }

  lemma SkipsEscape(c: ch, depth: nat, inside: Inside)
    ensures Skips(['\\', c], depth, inside, depth, inside)
  {
    forall t: Text ensures SkipsBefore(['\\', c], t, depth, inside, depth, inside) {
      assert (['\\', c] + t)[2..] == t;
    }
  }

  lemma SkipsHex(b: byte, depth: nat)
    ensures Skips(Hex(b), depth, InClass, depth, InClass)
  {
    var digits := [HexDigit(b / 16), HexDigit(b % 16)];
    SkipsEscape('x', depth, InClass);
    SkipsAllDull(digits, depth, InClass);
    SkipsBoth(['\\', 'x'], digits, depth, InClass, depth, InClass, depth, InClass);
    assert Hex(b) == ['\\', 'x'] + digits;
  }

  lemma {:induction false} SkipsHexAll(bs: seq<byte>, depth: nat)
    ensures Skips(HexAll(bs), depth, InClass, depth, InClass)
  {
    if bs == [] {
      SkipsNone(depth, InClass);
    } else {
      SkipsHex(bs[0], depth);
      SkipsHexAll(bs[1..], depth);
      SkipsBoth(Hex(bs[0]), HexAll(bs[1..]), depth, InClass, depth, InClass, depth, InClass);
    }
  }

  lemma SkipsBracket(c: ch, depth: nat, inside: Inside, depth': nat, inside': Inside)
    requires (c, inside, inside') in [('[', Top, InClass), (']', InClass, Top), ('(', Top, Top), (')', Top, Top)]
    requires depth' == if c == '(' then depth + 1 else if c == ')' && depth > 0 then depth - 1 else depth
    ensures Skips([c], depth, inside, depth', inside')
  {
    forall t: Text ensures SkipsBefore([c], t, depth, inside, depth', inside') {
      assert ([c] + t)[1..] == t && ([c] + t)[0] == c;
    }
  }

  lemma SkipsClass(cls: set<byte>, depth: nat)
    ensures Skips(ShowClass(cls), depth, Top, depth, Top)
  {
    var elements := HexAll(Listed(cls));
    SkipsHexAll(Listed(cls), depth);
    SkipsBracket('[', depth, Top, depth, InClass);
    SkipsBracket(']', depth, InClass, depth, Top);
    SkipsBoth(elements, [']'], depth, InClass, depth, InClass, depth, Top);
    if cls == {} {
      SkipsDull('^', depth, InClass);
      SkipsBoth(['['], ['^'], depth, Top, depth, InClass, depth, InClass);
      assert ['['] + ['^'] == ['[', '^'];
      SkipsBoth(['[', '^'], elements + [']'], depth, Top, depth, InClass, depth, Top);
    } else {
      SkipsBoth(['['], elements + [']'], depth, Top, depth, InClass, depth, Top);
    }
  }

  lemma SkipsParens(x: Text, depth: nat)
    requires Skips(x, depth + 1, Top, depth + 1, Top)
    ensures Skips(['('] + (x + [')']), depth, Top, depth, Top)
  {
    SkipsBracket('(', depth, Top, depth + 1, Top);
    SkipsBracket(')', depth + 1, Top, depth, Top);
    SkipsBoth(x, [')'], depth + 1, Top, depth + 1, Top, depth, Top);
    SkipsBoth(['('], x + [')'], depth, Top, depth + 1, Top, depth, Top);
  }

  lemma {:induction false} SkipsGroup(n: Node, depth: nat)
    ensures Skips(Group(n), depth, Top, depth, Top)
    decreases n, 1
  {
    SkipsShow(n, depth + 1);
    SkipsParens(Show(n), depth);
  }

  lemma SkipsSuffix(x: Text, y: Text, depth: nat)
    requires Skips(x, depth, Top, depth, Top) && forall i :: 0 <= i < |y| ==> Dull(y[i])
    ensures Skips(x + y, depth, Top, depth, Top)
  {
    SkipsAllDull(y, depth, Top);
    SkipsBoth(x, y, depth, Top, depth, Top, depth, Top);
  }

  /** The text of a tree holds no slash of its own and leaves the scanner where it was. */
  lemma {:induction false} SkipsShow(n: Node, depth: nat)
    ensures Skips(Show(n), depth, Top, depth, Top)
    decreases n, 0
  {
    match n
    case Class(cls) => SkipsClass(cls, depth);
    case Concat(a, b) =>
      SkipsGroup(a, depth);
      SkipsGroup(b, depth);
      SkipsBoth(Group(a), Group(b), depth, Top, depth, Top, depth, Top);
    case Alt(a, b) =>
      SkipsGroup(a, depth);
      SkipsGroup(b, depth);
      SkipsDull('|', depth, Top);
      SkipsBoth(['|'], Group(b), depth, Top, depth, Top, depth, Top);
      SkipsBoth(Group(a), ['|'] + Group(b), depth, Top, depth, Top, depth, Top);
    case Star(a) => SkipsGroup(a, depth); SkipsSuffix(Group(a), ['*'], depth);
    case Plus(a) => SkipsGroup(a, depth); SkipsSuffix(Group(a), ['+'], depth);
    case Question(a) => SkipsGroup(a, depth); SkipsSuffix(Group(a), ['?'], depth);
    case Repeat(a, lo, hi) => SkipsGroup(a, depth); SkipsSuffix(Group(a), ShowBounds(lo, hi), depth);
    case _ => SkipsNone(depth, Top);
  }

  lemma SkipsTop(bol: bool, n: Node, eol: bool)
    ensures Skips(ShowTop(bol, n, eol), 0, Top, 0, Top)
  {
    SkipsShow(n, 0);
    SkipsSuffix(Show(n), if eol then ['$'] else [], 0);
    SkipsAllDull(if bol then ['^'] else [], 0, Top);
    SkipsBoth(if bol then ['^'] else [], Show(n) + if eol then ['$'] else [], 0, Top, 0, Top, 0, Top);
  }

  lemma NoSlash(x: Text)
    requires Skips(x, 0, Top, 0, Top)
    ensures SlashIn(x, 0, Top) == -1
  {
    assert SkipsBefore(x, [], 0, Top, 0, Top);
    assert x + [] == x;
  }

  lemma SlashNext(x: Text, t: Text)
    requires Skips(x, 0, Top, 0, Top) && t != [] && t[0] == '/'
    ensures SlashIn(x + t, 0, Top) == |x|
  {
    assert SlashIn(t, 0, Top) == 0;
    assert SkipsBefore(x, t, 0, Top, 0, Top);
  }

  lemma Around(x: Text, c: ch, y: Text)
    ensures (x + ([c] + y))[..|x|] == x && (x + ([c] + y))[|x| + 1..] == y
  {
  }

  // No slash in the text, and no backslash at its end.
  predicate Clean(s: Text) {
    '/' !in s && (s != [] ==> s[|s| - 1] != '\\')
  }

  lemma CleanJoin(x: Text, y: Text)
    requires Clean(x) && Clean(y)
    ensures Clean(x + y)
  {
  }

  lemma {:induction false} CleanHex(bs: seq<byte>)
    ensures Clean(HexAll(bs))
  {
    if bs != [] {
      CleanHex(bs[1..]);
      assert Clean(Hex(bs[0]));
    }
  }

  lemma {:induction false} CleanGroup(n: Node)
    ensures Clean(Group(n))
    decreases n, 1
  {
    CleanShow(n);
  }

  lemma {:induction false} CleanShow(n: Node)
    ensures Clean(Show(n))
    decreases n, 0
  {
    match n
    case Class(cls) => CleanHex(Listed(cls));
    case Concat(a, b) => CleanGroup(a); CleanGroup(b);
    case Alt(a, b) => CleanGroup(a); CleanGroup(b);
    case Star(a) => CleanGroup(a);
    case Plus(a) => CleanGroup(a);
    case Question(a) => CleanGroup(a);
    case Repeat(a, lo, hi) => CleanGroup(a); CleanJoin(Group(a), ShowBounds(lo, hi));
    case _ =>
  }

  lemma CleanTop(bol: bool, n: Node, eol: bool)
    ensures Clean(ShowTop(bol, n, eol))
  {
    CleanShow(n);
  }

  lemma {:induction false} CleanDangles(s: Text, p: nat, ci: bool)
    requires p <= |s| && Clean(s)
    ensures !Dangling(s, p, ci)
    decreases |s| - p
  {
    if p < |s| { CleanDangles(s, TokenEnd(s, p, ci), ci); }
  }

  // Where the slash of a written pattern is.
  function SlashOf(w: Written): int {
    if w.tail.None? then -1 else |ShowTop(w.bol, w.r, false)|
  }

  /** In a pattern as written the scan and the grammar agree: the slash of r/s is the one between r and s, and without s
      there is none. */
  lemma SlashFound(w: Written, env: Env)
    requires WellWritten(w)
    ensures SlashIn(ShowPattern(w), 0, Top) == SlashOf(w) == SlashAt(ShowPattern(w), 0, 0, env.ci)
  {
    var head := ShowTop(w.bol, w.r, false);
    match w.tail
    case None =>
      SkipsTop(w.bol, w.r, w.eol);
      NoSlash(ShowPattern(w));
      CleanTop(w.bol, w.r, w.eol);
    case Some(s) =>
      SkipsTop(w.bol, w.r, false);
      SlashNext(head, ['/'] + ShowTop(false, s, w.eol));
      CleanTop(w.bol, w.r, false);
      CleanDangles(head, 0, env.ci);
      TopDerives(env, w.bol, w.r, false);
      SlashBetween(head, ShowTop(false, s, w.eol), env, Anchored(w.bol, Fold(w.r, env.ci), false));
  }

  // ---------- parse_pattern -------------------------------------------------

  // A pattern as it may be written: ^r$, or ^r/s$ with no $ on r.
  datatype Written = Written(bol: bool, r: Node, eol: bool, tail: Option<Node>)

  predicate WellWritten(w: Written) {
    Plain(w.r) && (w.tail.Some? ==> Plain(w.tail.value))
  }

  function ShowPattern(w: Written): Text {
    match w.tail
    case None => ShowTop(w.bol, w.r, w.eol)
    case Some(s) => ShowTop(w.bol, w.r, false) + (['/'] + ShowTop(false, s, w.eol))
  }

  /** What a written pattern is lowered to. */
  function Intended(w: Written, ci: bool): Lowered {
    match w.tail
    case None => Lowered(Pattern(Anchored(w.bol, Fold(w.r, ci), w.eol), 0))
    case Some(s) => Lower(Anchored(w.bol, Fold(w.r, ci), false), Anchored(false, Fold(s, ci), w.eol))
  }

  // ---------- what a pattern is derived as ----------------------------------

  // What the source derives when it is split at the slash, or not at all.
  ghost predicate DerivesSplit(src: Text, env: Env, slash: int, p: Pattern)
    requires slash < |src|
  {
    if slash < 0 then p.trailLen == 0 && Whole(src, env, p.tree)
    else exists head, tail :: Sides(src, env, slash, head, tail) && Lower(head, tail) == Lowered(p)
  }

  ghost predicate Sides(src: Text, env: Env, slash: nat, head: Node, tail: Node)
    requires slash < |src|
  {
    Whole(src[..slash], env, head) && Whole(src[slash + 1..], env, tail)
  }

  /** The tree and trail length that the grammar gives the source of a pattern. */
  ghost predicate Derives(src: Text, env: Env, p: Pattern) {
    DerivesSplit(src, env, SlashAt(src, 0, 0, env.ci), p)
  }

  ghost predicate Derivable(src: Text, env: Env) {
    exists p :: Derives(src, env, p)
  }

  /** The tree and trail length that the code gives it, which looks for the slash by find_top_level_slash. */
  ghost predicate ReadAs(src: Text, env: Env, p: Pattern) {
    DerivesSplit(src, env, SlashIn(src, 0, Top), p)
  }

  ghost predicate Admitted(src: Text, env: Env) {
    exists p :: ReadAs(src, env, p)
  }

  /** Every bracket expression before the grammar's slash is crossed by the scan for it. */
  predicate SlashSafe(src: Text, env: Env) {
    AllCrossed(src, 0, 0, env.ci)
  }

  /** Then the code reads the source as the grammar derives it. */
  lemma ReadIsDerived(src: Text, env: Env)
    requires SlashSafe(src, env)
    ensures SlashIn(src, 0, Top) == SlashAt(src, 0, 0, env.ci)
    ensures forall p :: ReadAs(src, env, p) <==> Derives(src, env, p)
  {
    FoundIsSlash(src, 0, 0, env.ci);
    assert src[0..] == src;
  }

  lemma SidesUnique(src: Text, env: Env, slash: nat, head: Node, tail: Node, head': Node, tail': Node)
    requires slash < |src| && Sides(src, env, slash, head, tail) && Sides(src, env, slash, head', tail')
    ensures head == head' && tail == tail'
  {
    WholeUnique(src[..slash], env, head, head');
    WholeUnique(src[slash + 1..], env, tail, tail');
  }

  /** A source, split at most once and at a given place, derives at most one pattern. */
  lemma SplitUnique(src: Text, env: Env, slash: int, p: Pattern, p': Pattern)
    requires slash < |src| && DerivesSplit(src, env, slash, p) && DerivesSplit(src, env, slash, p')
    ensures p == p'
  {
    if slash < 0 {
      WholeUnique(src, env, p.tree, p'.tree);
    } else {
      var head, tail :| Sides(src, env, slash, head, tail) && Lower(head, tail) == Lowered(p);
      var head', tail' :| Sides(src, env, slash, head', tail') && Lower(head', tail') == Lowered(p');
      SidesUnique(src, env, slash, head, tail, head', tail');
    }
  }

  /** A source derives at most one pattern, and is read as at most one. */
  lemma DerivesUnique(src: Text, env: Env, p: Pattern, p': Pattern)
    requires (Derives(src, env, p) && Derives(src, env, p')) || (ReadAs(src, env, p) && ReadAs(src, env, p'))
    ensures p == p'
  {
    var slash := if Derives(src, env, p) && Derives(src, env, p') then SlashAt(src, 0, 0, env.ci)
      else SlashIn(src, 0, Top);
    SplitUnique(src, env, slash, p, p');
  }

  method ParseRegex(src: Text, env: Env) returns (r: Option<Node>, ok: bool)
    ensures ok ==> r.Some? && Whole(src, env, r.value)
    ensures forall root :: Whole(src, env, root) ==> ok && r == Some(root)
  {
    var p := new Parser(src, env.defs, env.ci, {});
    assert p.Env() == env;
    r := p.ParseTop();
    ok := p.ok;
  }

  // The source split at the slash found.
  method ParseSides(src: Text, env: Env, slash: nat) returns (p: Option<Pattern>, ok: bool)
    requires slash < |src|
    ensures ok ==> p.Some? && DerivesSplit(src, env, slash, p.value)
    ensures forall p' :: DerivesSplit(src, env, slash, p') ==> ok && p == Some(p')
  {
    var head, tail, okTail;
    head, ok := ParseRegex(src[..slash], env);
    tail, okTail := ParseRegex(src[slash + 1..], env);
    ok := ok && okTail;
    assert forall h, t :: Sides(src, env, slash, h, t) ==> ok && head == Some(h) && tail == Some(t);
    if head.None? || tail.None? { return None, false; }
    var l := Lower(head.value, tail.value);
    if l.EolOnHead? { return None, false; }
    p := Some(l.pattern);
    assert ok ==> Sides(src, env, slash, head.value, tail.value);
  }

  /** parse_pattern ends on every source and macro table, and accepts a source iff it can be read as a pattern, which is
      then the one returned. If every bracket expression is crossed, that is the one the grammar derives. */
  method ParsePattern(src: Text, env: Env) returns (p: Option<Pattern>, ok: bool)
    ensures (ok <==> Admitted(src, env)) && (ok ==> p.Some? && ReadAs(src, env, p.value))
    ensures SlashSafe(src, env) ==> (ok <==> Derivable(src, env)) && (ok ==> Derives(src, env, p.value))
    ensures forall p' :: ReadAs(src, env, p') ==> p == Some(p')
  {
    var slash := FindTopLevelSlash(src);
    if slash < 0 {
      var tree;
      tree, ok := ParseRegex(src, env);
      p := if tree.None? then None else Some(Pattern(tree.value, 0));
      assert ok ==> ReadAs(src, env, p.value);
    } else {
      p, ok := ParseSides(src, env, slash);
      assert ok ==> ReadAs(src, env, p.value);
    }
    if SlashSafe(src, env) { ReadIsDerived(src, env); }
  }

  // ---------- written patterns ----------------------------------------------

  lemma FoldPlain(n: Node, ci: bool)
    requires Plain(n)
    ensures Plain(Fold(n, ci))
  {
  }

  lemma LowersSides(src: Text, env: Env, slash: nat, head: Node, tail: Node)
    requires slash < |src| && Sides(src, env, slash, head, tail) && Lower(head, tail).Lowered?
    ensures DerivesSplit(src, env, slash, Lower(head, tail).pattern)
  {
  }

  lemma LowersPlain(bol: bool, r: Node, tail: Node)
    requires Plain(r)
    ensures Lower(Anchored(bol, r, false), tail).Lowered?
  {
    AnchorFreeRoot(r);
  }

  lemma WrittenSplits(w: Written, env: Env)
    requires WellWritten(w)
    ensures Intended(w, env.ci).Lowered? && SlashOf(w) < |ShowPattern(w)|
    ensures DerivesSplit(ShowPattern(w), env, SlashOf(w), Intended(w, env.ci).pattern)
  {
    match w.tail
    case None => TopDerives(env, w.bol, w.r, w.eol);
    case Some(s) =>
      var head, tail := Anchored(w.bol, Fold(w.r, env.ci), false), Anchored(false, Fold(s, env.ci), w.eol);
      Around(ShowTop(w.bol, w.r, false), '/', ShowTop(false, s, w.eol));
      TopDerives(env, w.bol, w.r, false);
      TopDerives(env, false, s, w.eol);
      FoldPlain(w.r, env.ci);
      LowersPlain(w.bol, Fold(w.r, env.ci), tail);
      LowersSides(ShowPattern(w), env, |ShowTop(w.bol, w.r, false)|, head, tail);
  }

  /** Every pattern that is written out derives what it says, and is read so. */
  lemma WrittenDerives(w: Written, env: Env)
    requires WellWritten(w)
    ensures Intended(w, env.ci).Lowered? && Derives(ShowPattern(w), env, Intended(w, env.ci).pattern)
    ensures ReadAs(ShowPattern(w), env, Intended(w, env.ci).pattern)
  {
    SlashFound(w, env);
    WrittenSplits(w, env);
  }

  // ---------- what a pattern means ------------------------------------------

  // The pattern is r, with or without a tail, where these come from the source split at the slash.
  ghost predicate Comes(src: Text, env: Env, slash: int, p: Pattern, bol: bool, r: Node, eol: bool,
                        tail: Option<Tail>) {
    && Plain(r) && slash < |src|
    && match tail
       case None => slash < 0 && Whole(src, env, Anchored(bol, r, eol)) && p == Pattern(Anchored(bol, r, eol), 0)
       case Some(t) =>
         && !eol && slash >= 0 && Sides(src, env, slash, Anchored(bol, r, false), TailRoot(t))
         && Plain(t.s) && Lower(Anchored(bol, r, false), TailRoot(t)) == Lowered(p)
  }

  lemma WholeComes(src: Text, env: Env, slash: int, p: Pattern) returns (bol: bool, r: Node, eol: bool)
    requires slash < 0 && DerivesSplit(src, env, slash, p)
    ensures Comes(src, env, slash, p, bol, r, eol, None)
  {
    WholeShaped(src, env, p.tree);
    bol, r, eol :| IsTop(p.tree, bol, r, eol);
  }

  lemma SidesCome(src: Text, env: Env, slash: nat, p: Pattern, head: Node, tail: Node)
    returns (bol: bool, r: Node, t: Tail)
    requires slash < |src| && Sides(src, env, slash, head, tail) && Lower(head, tail) == Lowered(p)
    ensures Comes(src, env, slash, p, bol, r, false, Some(t))
  {
    WholeShaped(src[..slash], env, head);
    WholeShaped(src[slash + 1..], env, tail);
    var eol;
    bol, r, eol :| IsTop(head, bol, r, eol);
    var tbol, s, teol :| IsTop(tail, tbol, s, teol);
    t := Tail(tbol, s, teol);
    LowerRefuses(bol, r, eol, tail);
  }

  lemma SplitComes(src: Text, env: Env, slash: int, p: Pattern)
    returns (bol: bool, r: Node, eol: bool, tail: Option<Tail>)
    requires slash < |src| && DerivesSplit(src, env, slash, p)
    ensures Comes(src, env, slash, p, bol, r, eol, tail)
  {
    if slash < 0 {
      bol, r, eol := WholeComes(src, env, slash, p);
      tail := None;
    } else {
      var head, s :| Sides(src, env, slash, head, s) && Lower(head, s) == Lowered(p);
      var t;
      bol, r, t := SidesCome(src, env, slash, p, head, s);
      eol, tail := false, Some(t);
    }
  }

  // Without a slash the words of r, anchored as written; with one, a word of r and then one of the tail, and the trail
  // length is the tail's, or else the marker stands exactly after the words of r.
  ghost predicate Denoted(p: Pattern, bol: bool, r: Node, eol: bool, tail: Option<Tail>) {
    var u := Unwrap(p.tree);
    && u.bol == bol && u.eol == eol
    && match tail
       case None => p.trailLen == 0 && u.body == r
       case Some(t) =>
         && Meaning(u.body) == Cat(Meaning(r), TailWords(t))
         && (p.trailLen >= 0 <==> FixedLength(t.s) >= 0)
         && (p.trailLen >= 0 ==> AllOfLength(TailWords(t), p.trailLen))
         && (p.trailLen < 0 ==> Marks(u.body) == Meaning(r))
  }

  /** What a pattern denotes, in terms of the trees derived from its source as split. */
  lemma SplitMeaning(src: Text, env: Env, slash: int, p: Pattern)
    returns (bol: bool, r: Node, eol: bool, tail: Option<Tail>)
    requires slash < |src| && DerivesSplit(src, env, slash, p)
    ensures Comes(src, env, slash, p, bol, r, eol, tail) && Denoted(p, bol, r, eol, tail)
  {
    bol, r, eol, tail := SplitComes(src, env, slash, p);
    match tail
    case None => UnwrapAnchored(bol, r, eol);
    case Some(t) => LowerMeaning(bol, r, t);
  }

  /** What an accepted pattern denotes: its source is split at the slash found, which is the grammar's if every bracket
      expression is crossed. */
  lemma AcceptedMeaning(src: Text, env: Env, p: Pattern) returns (bol: bool, r: Node, eol: bool, tail: Option<Tail>)
    requires ReadAs(src, env, p)
    ensures Comes(src, env, SlashIn(src, 0, Top), p, bol, r, eol, tail) && Denoted(p, bol, r, eol, tail)
    ensures SlashSafe(src, env) ==> Comes(src, env, SlashAt(src, 0, 0, env.ci), p, bol, r, eol, tail)
  {
    bol, r, eol, tail := SplitMeaning(src, env, SlashIn(src, 0, Top), p);
    if SlashSafe(src, env) { ReadIsDerived(src, env); }
  }

  // The tail of a written pattern, as it is read.
  function ReadTail(w: Written, ci: bool): Option<Tail> {
    if w.tail.None? then None else Some(Tail(false, Fold(w.tail.value, ci), w.eol))
  }

  /** And that denotes what was written: the words of r, followed by those of s and a newline for its $. */
  lemma WrittenMeaning(w: Written, ci: bool)
    requires WellWritten(w)
    ensures Intended(w, ci).Lowered?
    ensures Denoted(Intended(w, ci).pattern, w.bol, Fold(w.r, ci), w.tail.None? && w.eol, ReadTail(w, ci))
  {
    FoldPlain(w.r, ci);
    match w.tail
    case None => UnwrapAnchored(w.bol, Fold(w.r, ci), w.eol);
    case Some(s) =>
      FoldPlain(s, ci);
      LowerMeaning(w.bol, Fold(w.r, ci), Tail(false, Fold(s, ci), w.eol));
  }
}
