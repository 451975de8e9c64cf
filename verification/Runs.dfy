// What a run of the generated scanner is, in terms of the rules only: which
// event follows at a place, where it leads, and what follows from that.

module Runs {
  import opened Bytes
  import opened Languages
  import opened Regex
  import opened RuleNfa
  import opened ScanTables
  import opened Matching
  import opened Scanner
  import opened Reject
  import opened Trailing

  datatype Event = Token(rule: nat, text: Word) | Echo(byte: byte) | EndOfInput

  ghost predicate HeadsNonempty(g: Grammar) {
    forall r :: 0 <= r < |g.rules| ==> HeadNonempty(g.rules[r])
  }

  // ---------- one event -----------------------------------------------------

  ghost predicate Picked(h: Here, rule: int, len: nat, token: nat) {
    && IsPlainPick(h, rule, len)
    && 0 <= rule < |h.g.rules| && Hit(h, rule, len) && IsToken(h, rule, len, token)
  }

  // No match, or a rule and the length of its token.
  ghost predicate PickedAt(h: Here, rule: int, token: nat) {
    if rule < 0 then IsPlainPick(h, -1, 0) else token <= |h.input| && exists len: nat :: Picked(h, rule, len, token)
  }

  /** The event that the rules call for at h, having consumed the given bytes. */
  ghost predicate Follows(h: Here, e: Event, consumed: Word) {
    && consumed <= h.input
    && match e
       case EndOfInput => h.input == [] && consumed == []
       case Echo(x) => IsPlainPick(h, -1, 0) && consumed == [x]
       case Token(r, w) => w == consumed && exists len: nat :: Picked(h, r, len, |w|)
  }

  lemma TokenFollows(h: Here, rule: nat, token: nat)
    requires PickedAt(h, rule, token)
    ensures token <= |h.input| && Follows(h, Token(rule, h.input[..token]), h.input[..token])
  {
    var len: nat :| Picked(h, rule, len, token);
    assert |h.input[..token]| == token;
  }

  function TextOf(e: Event): Word {
    match e
    case Token(_, w) => w
    case Echo(x) => [x]
    case EndOfInput => []
  }

  lemma FollowsText(h: Here, e: Event, x: Word)
    requires Follows(h, e, x)
    ensures x == TextOf(e)
  {
  }

  lemma TokenFits(h: Here, rule: nat, len: nat, token: nat)
    requires rule < |h.g.rules| && IsToken(h, rule, len, token)
    ensures token <= len
  {
  }

  lemma TokenNonempty(h: Here, rule: nat, len: nat, token: nat)
    requires rule < |h.g.rules| && HeadNonempty(h.g.rules[rule]) && Hit(h, rule, len) && len > 0
    requires IsToken(h, rule, len, token)
    ensures token > 0
  {
    var trail := h.g.rules[rule].trail;
    if trail > 0 {
      assert |h.input[..len]| == len;
    } else if trail < 0 {
      var pos: int :| LastMark(h, 0, |h.input|, rule, pos) && token == if 0 <= pos <= len then pos else len;
      assert h.input[..0] == [];
      if pos == 0 { assert MarkAt(h, rule, 0); }
    }
  }

  /** If no head matches the empty word, every event before the end consumes something. */
  lemma Progresses(h: Here, e: Event, x: Word)
    requires Follows(h, e, x) && HeadsNonempty(h.g) && h.input != []
    ensures |x| > 0
  {
    if e.Token? {
      var len: nat :| Picked(h, e.rule, len, |e.text|);
      TokenNonempty(h, e.rule, len, |e.text|);
    }
  }

  // ---------- the rules determine the event ---------------------------------

  lemma LastMarkUnique(h: Here, mb: nat, m: nat, r: nat, pos: int, pos': int)
    requires LastMark(h, mb, m, r, pos) && LastMark(h, mb, m, r, pos')
    ensures pos == pos'
  {
    if pos >= 0 { assert MarkAt(h, r, pos - mb); }
    if pos' >= 0 { assert MarkAt(h, r, pos' - mb); }
  }

  lemma TokenUnique(h: Here, rule: nat, len: nat, token: nat, token': nat)
    requires rule < |h.g.rules| && IsToken(h, rule, len, token) && IsToken(h, rule, len, token')
    ensures token == token'
  {
    if h.g.rules[rule].trail < 0 {
      var pos: int :| LastMark(h, 0, |h.input|, rule, pos) && token == if 0 <= pos <= len then pos else len;
      var pos': int :| LastMark(h, 0, |h.input|, rule, pos') && token' == if 0 <= pos' <= len then pos' else len;
      LastMarkUnique(h, 0, |h.input|, rule, pos, pos');
    }
  }

  lemma PickedUnique(h: Here, rule: int, len: nat, token: nat, rule': int, len': nat, token': nat)
    requires Picked(h, rule, len, token) && Picked(h, rule', len', token')
    ensures rule == rule' && token == token'
  {
    PickUnique(h, true, rule, len, rule', len');
    TokenUnique(h, rule, len, token, token');
  }

  // A place where there is a token to pick.
  lemma TokenIsPick(h: Here, e: Event, x: Word)
    requires Follows(h, e, x) && e.Token?
    ensures !IsPlainPick(h, -1, 0) && h.input != []
  {
    var len: nat :| Picked(h, e.rule, len, |e.text|);
    if IsPlainPick(h, -1, 0) { PickUnique(h, true, e.rule, len, -1, 0); }
  }

  lemma EchoIsFirst(h: Here, e: Event, x: Word)
    requires Follows(h, e, x) && e.Echo?
    ensures IsPlainPick(h, -1, 0) && h.input != [] && h.input[0] == e.byte
  {
    assert h.input[0] == x[0];
  }

  lemma SameToken(h: Here, e: Event, x: Word, e': Event, x': Word)
    requires Follows(h, e, x) && Follows(h, e', x') && e.Token? && e'.Token?
    ensures e == e'
  {
    var len: nat :| Picked(h, e.rule, len, |e.text|);
    var len': nat :| Picked(h, e'.rule, len', |e'.text|);
    PickedUnique(h, e.rule, len, |e.text|, e'.rule, len', |e'.text|);
    assert e.text == h.input[..|e.text|] && e'.text == h.input[..|e'.text|];
  }

  /** The rules determine the event, trailing context or not. */
  lemma FollowsUnique(h: Here, e: Event, x: Word, e': Event, x': Word)
    requires Follows(h, e, x) && Follows(h, e', x')
    ensures e == e' && x == x'
  {
    FollowsText(h, e, x);
    FollowsText(h, e', x');
    match e
    case Token(_, _) =>
      TokenIsPick(h, e, x);
      if e'.Token? { SameToken(h, e, x, e', x'); } else if e'.Echo? { EchoIsFirst(h, e', x'); }
    case Echo(_) =>
      EchoIsFirst(h, e, x);
      if e'.Echo? { EchoIsFirst(h, e', x'); } else if e'.Token? { TokenIsPick(h, e', x'); }
    case EndOfInput =>
      if e'.Echo? { EchoIsFirst(h, e', x'); } else if e'.Token? { TokenIsPick(h, e', x'); }
  }

  // ---------- REJECT --------------------------------------------------------

  // What the rejecting actions see: each the token of its rule.
  ghost predicate Shown(h: Here, chain: Chain, seen: seq<Event>) {
    |seen| == |chain| && forall i :: 0 <= i < |chain| ==> ShownAt(h, chain[i], seen[i])
  }

  /** The action of a rule tried at some length sees the beginning of its match that the trailing context leaves. */
  ghost predicate ShownAt(h: Here, tried: (nat, nat), e: Event) {
    && e.Token? && e.rule == tried.0 < |h.g.rules|
    && |e.text| <= tried.1 <= |h.input| && e.text == h.input[..|e.text|]
    && RejectToken(h, tried.0, tried.1, |e.text|)
  }

  lemma ShownSnoc(h: Here, chain: Chain, seen: seq<Event>, rule: nat, len: nat, e: Event)
    requires Shown(h, chain, seen) && ShownAt(h, (rule, len), e)
    ensures Shown(h, chain + [(rule, len)], seen + [e])
  {
  }

  lemma ShowsToken(h: Here, rule: nat, len: nat, n: nat)
    requires n <= len && Hit(h, rule, len)
    requires var trail := h.g.rules[rule].trail; n == if 0 < trail <= len then len - trail else len
    ensures ShownAt(h, (rule, len), Token(rule, h.input[..n]))
  {
    RejectTokenIs(h, rule, len, n);
    assert |h.input[..n]| == n;
  }

  // ---------- runs ----------------------------------------------------------

  // The position in the buffer, and yyb_at_bol.
  datatype Place = Place(pos: nat, atBol: bool)

  // yy_at_bol after an event; the end of the buffer leaves it alone.
  function BolAfter(atBol: bool, e: Event): bool {
    match e
    case Token(_, w) => w != [] && w[|w| - 1] == NEWLINE
    case Echo(x) => x == NEWLINE
    case EndOfInput => atBol
  }

  /** In condition c, event e is what the rules call for at one place, and leads to the other. */
  ghost predicate Steps(g: Grammar, contents: Word, c: nat, from: Place, e: Event, to: Place) {
    && from.pos <= to.pos <= |contents|
    && Follows(Here(g, c, from.atBol, contents[from.pos..]), e, contents[from.pos..to.pos])
    && to.atBol == BolAfter(from.atBol, e)
  }

  // The condition that the actions have set after the events so far.
  function CondAt(c0: nat, act: seq<Event> -> nat, log: seq<Event>): nat {
    if log == [] then c0 else act(log)
  }

  /** The run from one place to another whose events are log, every one of them what the rules call for. */
  ghost predicate Walk(g: Grammar, contents: Word, c0: nat, act: seq<Event> -> nat, from: Place, log: seq<Event>,
      to: Place)
    decreases |log|
  {
    if log == [] then to == from && from.pos <= |contents| else WalkVia(g, contents, c0, act, from, log, to)
  }

  ghost predicate WalkVia(g: Grammar, contents: Word, c0: nat, act: seq<Event> -> nat, from: Place, log: seq<Event>,
      to: Place)
    requires log != []
    decreases |log|, 0
  {
    var before := log[..|log| - 1];
    exists mid :: Walk(g, contents, c0, act, from, before, mid)
      && Steps(g, contents, CondAt(c0, act, before), mid, log[|log| - 1], to)
  }

  lemma WalkSnoc(g: Grammar, contents: Word, c0: nat, act: seq<Event> -> nat, from: Place, log: seq<Event>,
      mid: Place, e: Event, to: Place)
    requires Walk(g, contents, c0, act, from, log, mid) && Steps(g, contents, CondAt(c0, act, log), mid, e, to)
    ensures Walk(g, contents, c0, act, from, log + [e], to)
  {
    var log' := log + [e];
    assert log'[..|log'| - 1] == log && log'[|log'| - 1] == e;
    assert WalkVia(g, contents, c0, act, from, log', to);
  }

  lemma StepsUnique(g: Grammar, contents: Word, c: nat, from: Place, e: Event, to: Place, e': Event, to': Place)
    requires Steps(g, contents, c, from, e, to) && Steps(g, contents, c, from, e', to')
    ensures e == e' && to == to'
  {
    FollowsUnique(Here(g, c, from.atBol, contents[from.pos..]), e, contents[from.pos..to.pos], e',
      contents[from.pos..to'.pos]);
    assert |contents[from.pos..to.pos]| == to.pos - from.pos && |contents[from.pos..to'.pos]| == to'.pos - from.pos;
  }

  lemma SameLog(log: seq<Event>, log': seq<Event>)
    requires |log| == |log'| > 0 && log[..|log| - 1] == log'[..|log| - 1] && log[|log| - 1] == log'[|log| - 1]
    ensures log == log'
  {
    assert log == log[..|log| - 1] + [log[|log| - 1]];
  }

  /** Runs of as many turns from the same place, under the same rules and actions, are the same event by event and end
      at the same place. Nothing is asked of the rules, and the runs need not be over. */
  lemma {:induction false} WalksAgree(g: Grammar, contents: Word, c0: nat, act: seq<Event> -> nat, from: Place,
                                      log: seq<Event>, to: Place, log': seq<Event>, to': Place)
    requires |log| == |log'| && Walk(g, contents, c0, act, from, log, to) && Walk(g, contents, c0, act, from, log', to')
    ensures log == log' && to == to'
    decreases |log|
  {
    if log != [] {
      var last := |log| - 1;
      var before, before' := log[..last], log'[..last];
      var mid :| Walk(g, contents, c0, act, from, before, mid)
        && Steps(g, contents, CondAt(c0, act, before), mid, log[last], to);
      var mid' :| Walk(g, contents, c0, act, from, before', mid')
        && Steps(g, contents, CondAt(c0, act, before'), mid', log'[last], to');
      WalksAgree(g, contents, c0, act, from, before, mid, before', mid');
      StepsUnique(g, contents, CondAt(c0, act, before), mid, log[last], to, log'[last], to');
      SameLog(log, log');
    }
  }

  /** Every event is what the rules call for in the condition that the actions have set after those before it. */
  lemma InCondition(g: Grammar, contents: Word, c0: nat, act: seq<Event> -> nat, from: Place, log: seq<Event>,
      to: Place)
    returns (mid: Place)
    requires log != [] && Walk(g, contents, c0, act, from, log, to)
    ensures var c := if |log| == 1 then c0 else act(log[..|log| - 1]);
            && mid.pos <= to.pos <= |contents|
            && Follows(Here(g, c, mid.atBol, contents[mid.pos..]), log[|log| - 1], contents[mid.pos..to.pos])
  {
    var before, e := log[..|log| - 1], log[|log| - 1];
    mid :| Walk(g, contents, c0, act, from, before, mid) && Steps(g, contents, CondAt(c0, act, before), mid, e, to);
  }

  function AllText(log: seq<Event>): Word {
    if log == [] then [] else AllText(log[..|log| - 1]) + TextOf(log[|log| - 1])
  }

  lemma SliceJoin(s: Word, i: nat, j: nat, k: nat)
    requires i <= j <= k <= |s|
    ensures s[i..k] == s[i..j] + s[j..k]
  {
  }

  /** The lexemes and echoed bytes of a run are exactly what lies between its ends. */
  lemma {:induction false} WalkText(g: Grammar, contents: Word, c0: nat, act: seq<Event> -> nat, from: Place,
      log: seq<Event>, to: Place)
    requires Walk(g, contents, c0, act, from, log, to)
    ensures from.pos <= to.pos <= |contents| && AllText(log) == contents[from.pos..to.pos]
    decreases |log|
  {
    if log != [] {
      var before, e := log[..|log| - 1], log[|log| - 1];
      var mid :| Walk(g, contents, c0, act, from, before, mid)
        && Steps(g, contents, CondAt(c0, act, before), mid, e, to);
      WalkText(g, contents, c0, act, from, before, mid);
      FollowsText(Here(g, CondAt(c0, act, before), mid.atBol, contents[mid.pos..]), e, contents[mid.pos..to.pos]);
      SliceJoin(contents, from.pos, mid.pos, to.pos);
    }
  }

  // ---------- line beginnings -----------------------------------------------

  predicate BolAt(contents: Word, p: nat)
    requires p <= |contents|
  {
    p == 0 || contents[p - 1] == NEWLINE
  }

  // The last event before the end of the buffer is a token that its trailing context left empty.
  predicate Cleared(log: seq<Event>) {
    log != [] &&
    match log[|log| - 1]
    case Token(_, w) => w == []
    case Echo(_) => false
    case EndOfInput => Cleared(log[..|log| - 1])
  }

  lemma StepsBol(g: Grammar, contents: Word, c: nat, from: Place, e: Event, to: Place)
    requires Steps(g, contents, c, from, e, to)
    ensures to.pos > from.pos ==> to.atBol == BolAt(contents, to.pos) && !e.EndOfInput? && TextOf(e) != []
    ensures to.pos == from.pos ==> TextOf(e) == [] && (to.atBol <==> e.EndOfInput? && from.atBol)
  {
    FollowsText(Here(g, c, from.atBol, contents[from.pos..]), e, contents[from.pos..to.pos]);
    if to.pos > from.pos {
      var x := contents[from.pos..to.pos];
      assert x[|x| - 1] == contents[to.pos - 1];
    }
  }

  /** yy_at_bol means position 0 or after a newline, except that a token left empty by its trailing context
      clears it. */
  lemma {:induction false} WalkBol(g: Grammar, contents: Word, c0: nat, act: seq<Event> -> nat, from: Place,
      log: seq<Event>, to: Place)
    requires from.pos <= |contents| && from.atBol == BolAt(contents, from.pos)
    requires Walk(g, contents, c0, act, from, log, to)
    ensures to.pos <= |contents| && (to.atBol <==> BolAt(contents, to.pos) && !Cleared(log))
    decreases |log|
  {
    if log != [] {
      var before, e := log[..|log| - 1], log[|log| - 1];
      var mid :| Walk(g, contents, c0, act, from, before, mid)
        && Steps(g, contents, CondAt(c0, act, before), mid, e, to);
      WalkBol(g, contents, c0, act, from, before, mid);
      StepsBol(g, contents, CondAt(c0, act, before), mid, e, to);
    }
  }

  /** If no head matches the empty word no token is empty, so yy_at_bol always means position 0 or after a newline. */
  lemma {:induction false} NeverCleared(g: Grammar, contents: Word, c0: nat, act: seq<Event> -> nat, from: Place,
      log: seq<Event>, to: Place)
    requires HeadsNonempty(g) && Walk(g, contents, c0, act, from, log, to)
    ensures !Cleared(log)
    decreases |log|
  {
    if log != [] {
      var before, e := log[..|log| - 1], log[|log| - 1];
      var mid :| Walk(g, contents, c0, act, from, before, mid)
        && Steps(g, contents, CondAt(c0, act, before), mid, e, to);
      NeverCleared(g, contents, c0, act, from, before, mid);
      var h := Here(g, CondAt(c0, act, before), mid.atBol, contents[mid.pos..]);
      if e.Token? {
        var len: nat :| Picked(h, e.rule, len, |e.text|);
        TokenNonempty(h, e.rule, len, |e.text|);
      }
    }
  }

  // ---------- runs that get nowhere -----------------------------------------

  function Repeated(e: Event, n: nat): (log: seq<Event>)
    ensures |log| == n && forall i :: 0 <= i < n ==> log[i] == e
  {
    seq(n, _ => e)
  }

  // The turns from one place lead back to it, whatever the actions do.
  lemma {:induction false} WalksInPlace(g: Grammar, contents: Word, c0: nat, act: seq<Event> -> nat, here: Place,
      e: Event, n: nat)
    requires Steps(g, contents, c0, here, e, here)
    requires forall l: seq<Event> :: act(l) == c0
    ensures Walk(g, contents, c0, act, here, Repeated(e, n), here)
  {
    if n > 0 {
      WalksInPlace(g, contents, c0, act, here, e, n - 1);
      WalkSnoc(g, contents, c0, act, here, Repeated(e, n - 1), here, e, here);
      assert Repeated(e, n) == Repeated(e, n - 1) + [e];
    }
  }

  /** Once a token is empty where yy_at_bol is off, and the actions keep the condition, it is so for ever: every run
      from there is that token again and again, and never moves. */
  lemma Stuck(g: Grammar, contents: Word, c0: nat, act: seq<Event> -> nat, here: Place, e: Event, next: Place,
      log: seq<Event>, to: Place)
    requires Steps(g, contents, c0, here, e, next) && e.Token? && TextOf(e) == [] && !here.atBol
    requires forall l: seq<Event> :: act(l) == c0
    requires Walk(g, contents, c0, act, here, log, to)
    ensures log == Repeated(e, |log|) && to == here
  {
    FollowsText(Here(g, c0, here.atBol, contents[here.pos..]), e, contents[here.pos..next.pos]);
    assert |contents[here.pos..next.pos]| == next.pos - here.pos;
    WalksInPlace(g, contents, c0, act, here, e, |log|);
    WalksAgree(g, contents, c0, act, here, log, to, Repeated(e, |log|), here);
  }

  const X: byte := 120
  const B: byte := 98

  // The rule x*/b alone.
  function EmptyHead(): Rule {
    Rule(Concat(Star(Class({X})), Class({B})), Sites([], false), 1)
  }

  // Somewhere before "b".
  function BeforeB(atBol: bool): Here {
    Here(Grammar([EmptyHead()], [false]), 0, atBol, [B])
  }

  lemma EmptyHeadWords()
    ensures [B] in Meaning(Effective(Body(EmptyHead()))) && [] !in Meaning(Effective(Body(EmptyHead())))
  {
    var stars, b := AtLeast(ClassWords({X}), 0), ClassWords({B});
    assert [] in Pow(ClassWords({X}), 0);
    CatIntro([], [B], stars, b);
    assert [] + [B] == [B];
    if [] in Cat(stars, b) { var u, v := CatElim([], stars, b); }
  }

  lemma EmptyHeadHits(atBol: bool, r: nat, k: nat)
    ensures Hit(BeforeB(atBol), r, k) <==> r == 0 && k == 1
  {
    EmptyHeadWords();
    assert BeforeB(atBol).input[..1] == [B] && BeforeB(atBol).input[..0] == [];
  }

  lemma EmptyHeadPicks(atBol: bool)
    ensures Picked(BeforeB(atBol), 0, 1, 0)
  {
    var h := BeforeB(atBol);
    assert !IsEol(h.g, 0);
    EmptyHeadHits(atBol, 0, 1);
    forall r: nat, k: nat | Eligible(h, true, r, k) ensures k == 1 && r == 0 { EmptyHeadHits(atBol, r, k); }
  }

  /** At the beginning of "b" that rule leaves an empty token: yy_at_bol is cleared at position 0, nothing is consumed,
      and so it goes on, however many turns are taken. */
  lemma EmptyHeadExample(act: seq<Event> -> nat, n: nat)
    requires forall l: seq<Event> :: act(l) == 0
    ensures Lower(Star(Class({X})), Class({B})) == Lowered(Pattern(EmptyHead().root, EmptyHead().trail))
    ensures Steps(BeforeB(true).g, [B], 0, Place(0, true), Token(0, []), Place(0, false)) && BolAt([B], 0)
    ensures Walk(BeforeB(false).g, [B], 0, act, Place(0, false), Repeated(Token(0, []), n), Place(0, false))
    ensures !HeadsNonempty(BeforeB(true).g)
  {
    EmptyHeadPicks(true);
    EmptyHeadPicks(false);
    assert [B][0..] == [B] && [B][0..0] == [];
    WalksInPlace(BeforeB(false).g, [B], 0, act, Place(0, false), Token(0, []), n);
    EmptyHeadWords();
    assert !HeadNonempty(BeforeB(true).g.rules[0]) && |[B]| == 1;
  }
}
