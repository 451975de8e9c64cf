// The slash of r/s: where find_top_level_slash (src/regex.cpp) sees it, where
// the grammar of regexes has it, and exactly when the two agree.

module Slash {
  import opened Wrappers
  import opened RegexText
  import opened RegexAtoms

  // ---------- find_top_level_slash ------------------------------------------

  datatype Inside = Top | InClass | InQuotes

  function Shifted(k: nat, i: int): int {
    if i < 0 then -1 else i + k
  }

  // Where a character that is not escaped leads.
  function InsideAfter(c: ch, inside: Inside): Inside {
    match inside
    case InClass => if c == ']' then Top else InClass
    case InQuotes => if c == '"' then Top else InQuotes
    case Top => if c == '[' then InClass else if c == '"' then InQuotes else Top
  }

  function DepthAfter(c: ch, depth: nat, inside: Inside): nat {
    if inside == Top && c == '(' then depth + 1
    else if inside == Top && c == ')' && depth > 0 then depth - 1
    else depth
  }

  // The slash that the scan of s finds, or -1. It leaves a class at the first bracket that is not escaped.
  function SlashIn(s: Text, depth: nat, inside: Inside): (i: int)
    ensures -1 <= i < |s| && (i >= 0 ==> s[i] == '/')
  {
    if s == [] then -1
    else if s[0] == '\\' && |s| > 1 then Shifted(2, SlashIn(s[2..], depth, inside))
    else if s[0] == '/' && depth == 0 && inside == Top then 0
    else Shifted(1, SlashIn(s[1..], DepthAfter(s[0], depth, inside), InsideAfter(s[0], inside)))
  }

  lemma SlashStep(s: Text, i: nat, depth: nat, inside: Inside)
    requires i < |s|
    ensures SlashIn(s[i..], depth, inside) ==
            if s[i] == '\\' && i + 1 < |s| then Shifted(2, SlashIn(s[i + 2..], depth, inside))
            else if s[i] == '/' && depth == 0 && inside == Top then 0
            else Shifted(1, SlashIn(s[i + 1..], DepthAfter(s[i], depth, inside), InsideAfter(s[i], inside)))
  {
    assert s[i..][1..] == s[i + 1..];
    if i + 1 < |s| { assert s[i..][2..] == s[i + 2..]; }
  }

  // The same by positions in s: what the scan finds from p on.
  function FoundFrom(s: Text, p: nat, depth: nat, inside: Inside): int
    requires p <= |s|
  {
    Shifted(p, SlashIn(s[p..], depth, inside))
  }

  // An escape is two characters; a NUL after the backslash may as well be counted by itself.
  function Stride(s: Text, p: nat): nat
    requires p < |s|
  {
    if s[p] == '\\' && CharAt(s, p + 1) != NUL then 2 else 1
  }

  predicate SlashHere(s: Text, p: nat, depth: nat, inside: Inside)
    requires p < |s|
  {
    s[p] == '/' && depth == 0 && inside == Top
  }

  lemma FoundStep(s: Text, p: nat, depth: nat, inside: Inside)
    requires p < |s|
    ensures FoundFrom(s, p, depth, inside) ==
            if SlashHere(s, p, depth, inside) then p
            else if Stride(s, p) == 2 then FoundFrom(s, p + 2, depth, inside)
            else FoundFrom(s, p + 1, DepthAfter(s[p], depth, inside), InsideAfter(s[p], inside))
  {
    SlashStep(s, p, depth, inside);
    if p + 1 < |s| { SlashStep(s, p + 1, depth, inside); }
  }

  // ---------- the grammar's slash -------------------------------------------

  function QuoteEnd(s: Text, p: nat): (e: nat)
    requires p < |s|
    ensures p < e <= |s|
  {
    var e := QuotedAt(s, p + 1).1;
    if CharAt(s, e) == '"' then e + 1 else e
  }

  /** Where what stands at p ends: an escape, a bracket expression, a quoted string, or one character. */
  function TokenEnd(s: Text, p: nat, ci: bool): (e: nat)
    requires p < |s|
    ensures p < e <= |s|
  {
    if s[p] == '\\' then EscapeAt(s, p).1
    else if s[p] == '[' then BracketAt(s, p, ci).end
    else if s[p] == '"' then QuoteEnd(s, p)
    else p + 1
  }

  /** The first slash, from p on, that stands for itself outside all parentheses; or -1. */
  function SlashAt(s: Text, p: nat, depth: nat, ci: bool): (i: int)
    requires p <= |s|
    ensures i == -1 || (p <= i < |s| && s[i] == '/')
    decreases |s| - p
  {
    if p == |s| then -1
    else if SlashHere(s, p, depth, Top) then p
    else SlashAt(s, TokenEnd(s, p, ci), DepthAfter(s[p], depth, Top), ci)
  }

  // ---------- what the scan makes of one token ------------------------------

  // The scan comes to position e.
  predicate Lands(s: Text, p: nat, e: nat)
    requires e <= |s|
    decreases e - p
  {
    p == e || (p < e && Lands(s, p + Stride(s, p), e))
  }

  lemma {:induction false} LandsOn(s: Text, p: nat, m: nat, e: nat)
    requires m <= e <= |s| && Lands(s, p, m) && Lands(s, m, e)
    ensures Lands(s, p, e)
    decreases m - p
  {
    if p < m { LandsOn(s, p + Stride(s, p), m, e); }
  }

  // The state at e, unless a slash was found before it.
  function StateAfter(s: Text, p: nat, e: nat, depth: nat, inside: Inside): Option<(nat, Inside)>
    requires e <= |s|
    decreases e - p
  {
    if p >= e then if p == e then Some((depth, inside)) else None
    else if SlashHere(s, p, depth, inside) then None
    else if Stride(s, p) == 2 then StateAfter(s, p + 2, e, depth, inside)
    else StateAfter(s, p + 1, e, DepthAfter(s[p], depth, inside), InsideAfter(s[p], inside))
  }

  lemma {:induction false} StateFound(s: Text, p: nat, e: nat, depth: nat, inside: Inside)
    requires p <= e <= |s|
    ensures match StateAfter(s, p, e, depth, inside)
            case Some((d, i)) => FoundFrom(s, p, depth, inside) == FoundFrom(s, e, d, i)
            case None => Lands(s, p, e) ==> p <= FoundFrom(s, p, depth, inside) < e
    decreases e - p
  {
    if p < e && !SlashHere(s, p, depth, inside) {
      FoundStep(s, p, depth, inside);
      if Stride(s, p) == 2 {
        if p + 2 <= e { StateFound(s, p + 2, e, depth, inside); } else { assert !Lands(s, p + Stride(s, p), e); }
      } else {
        StateFound(s, p + 1, e, DepthAfter(s[p], depth, inside), InsideAfter(s[p], inside));
      }
    } else if p < e {
      FoundStep(s, p, depth, inside);
    }
  }

  // A character that means the same to the scan wherever it stands.
  predicate Inert(c: ch) {
    c !in ['\\', '[', ']', '"', '(', ')', '/']
  }

  lemma {:induction false} InertState(s: Text, p: nat, e: nat, depth: nat, inside: Inside)
    requires p <= e <= |s| && forall k :: p <= k < e ==> Inert(s[k])
    ensures StateAfter(s, p, e, depth, inside) == Some((depth, inside)) && Lands(s, p, e)
    decreases e - p
  {
    if p < e { InertState(s, p + 1, e, depth, inside); }
  }

  lemma EscapeState(s: Text, p: nat, depth: nat, inside: Inside)
    requires p < |s| && s[p] == '\\'
    ensures var e := EscapeAt(s, p).1; StateAfter(s, p, e, depth, inside) == Some((depth, inside)) && Lands(s, p, e)
  {
    var e := EscapeAt(s, p).1;
    if Stride(s, p) == 2 { InertState(s, p + 2, e, depth, inside); }
  }

  lemma {:induction false} StateOn(s: Text, p: nat, m: nat, e: nat, depth: nat, inside: Inside, d: nat, i: Inside)
    requires p <= m <= e <= |s| && StateAfter(s, p, m, depth, inside) == Some((d, i))
    ensures StateAfter(s, p, e, depth, inside) == StateAfter(s, m, e, d, i)
    decreases m - p
  {
    if p < m {
      if Stride(s, p) == 2 {
        StateOn(s, p + 2, m, e, depth, inside, d, i);
      } else {
        StateOn(s, p + 1, m, e, DepthAfter(s[p], depth, inside), InsideAfter(s[p], inside), d, i);
      }
    }
  }

  lemma {:induction false} QuotedState(s: Text, p: nat, depth: nat)
    requires p <= |s|
    ensures StateAfter(s, p, QuotedAt(s, p).1, depth, InQuotes) == Some((depth, InQuotes))
    decreases |s| - p
  {
    if p < |s| && s[p] != '"' {
      var e := ClassByteAt(s, p).1;
      if s[p] == '\\' { EscapeState(s, p, depth, InQuotes); }
      QuotedState(s, e, depth);
      StateOn(s, p, e, QuotedAt(s, p).1, depth, InQuotes, depth, InQuotes);
    }
  }

  // A quoted string that is closed leaves the scan as it was; after one that is not there is nothing left.
  lemma QuoteFound(s: Text, p: nat, depth: nat)
    requires p < |s| && s[p] == '"'
    ensures FoundFrom(s, p, depth, Top) == FoundFrom(s, QuoteEnd(s, p), depth, Top)
  {
    var e := QuotedAt(s, p + 1).1;
    FoundStep(s, p, depth, Top);
    QuotedState(s, p + 1, depth);
    StateFound(s, p + 1, e, depth, InQuotes);
    QuoteStops(s, p + 1);
    if e < |s| { FoundStep(s, e, depth, InQuotes); }
  }

  lemma {:induction false} QuoteStops(s: Text, p: nat)
    requires p <= |s|
    ensures var e := QuotedAt(s, p).1; e == |s| || s[e] == '"'
    decreases |s| - p
  {
    if p < |s| && s[p] != '"' { QuoteStops(s, ClassByteAt(s, p).1); }
  }

  // ---------- what it makes of a bracket expression -------------------------

  lemma ClassByteLands(s: Text, p: nat)
    requires p < |s|
    ensures Lands(s, p, ClassByteAt(s, p).1)
  {
    if s[p] == '\\' { EscapeState(s, p, 0, InClass); }
  }

  lemma ElementLands(s: Text, p: nat, ci: bool)
    requires p < |s|
    ensures Lands(s, p, ElementAt(s, p, ci).1)
  {
    var e, end := ClassByteAt(s, p).1, ElementAt(s, p, ci).1;
    ClassByteLands(s, p);
    if CharAt(s, e) == '-' && CharAt(s, e + 1) != ']' && CharAt(s, e + 1) != NUL {
      ClassByteLands(s, e + 1);
      assert Lands(s, e, end);
      LandsOn(s, p, e, end);
    }
  }

  lemma PosixLands(s: Text, p: nat, ci: bool)
    requires CharAt(s, p) == '[' && CharAt(s, p + 1) == ':' && PosixAt(s, p, ci).Some?
    ensures Lands(s, p, PosixAt(s, p, ci).value.1)
  {
    var e := RunEnd(IsAlpha, s, p + 2, p + 18);
    InertState(s, p + 1, e + 1, 0, InClass);
    LandsOn(s, p, p + 1, e + 1);
    LandsOn(s, p, e + 1, e + 2);
  }

  lemma {:induction false} ElementsLand(s: Text, p: nat, first: bool, ci: bool)
    requires p <= |s|
    ensures var e := ElementsAt(s, p, first, ci).1; Lands(s, p, e) && (e == |s| || s[e] == ']')
    decreases |s| - p
  {
    if p < |s| && (first || s[p] != ']') {
      var e := NextAt(s, p, ci).1;
      if CharAt(s, p) == '[' && CharAt(s, p + 1) == ':' && PosixAt(s, p, ci).Some? {
        PosixLands(s, p, ci);
      } else {
        ElementLands(s, p, ci);
      }
      ElementsLand(s, e, false, ci);
      LandsOn(s, p, e, ElementsAt(s, p, first, ci).1);
    }
  }

  // Where the elements of the bracket expression at p end.
  function LastElement(s: Text, p: nat, ci: bool): (e: nat)
    requires p < |s| && s[p] == '['
    ensures p < e <= |s|
  {
    ElementsAt(s, if CharAt(s, p + 1) == '^' then p + 2 else p + 1, true, ci).1
  }

  lemma LastLands(s: Text, p: nat, ci: bool)
    requires p < |s| && s[p] == '['
    ensures var e := LastElement(s, p, ci); Lands(s, p + 1, e) && (e == |s| || s[e] == ']')
  {
    ElementsLand(s, if CharAt(s, p + 1) == '^' then p + 2 else p + 1, true, ci);
  }

  lemma BracketLands(s: Text, p: nat, ci: bool)
    requires p < |s| && s[p] == '['
    ensures var b, e := BracketAt(s, p, ci), LastElement(s, p, ci);
            && Lands(s, p + 1, e) && Lands(s, p, b.end) && (e == |s| || s[e] == ']')
            && b.closed == (e < |s|) && b.end == if b.closed then e + 1 else e
  {
    var b, e := BracketAt(s, p, ci), LastElement(s, p, ci);
    LastLands(s, p, ci);
    if b.closed {
      assert Lands(s, e, e + 1);
      LandsOn(s, p + 1, e, e + 1);
    }
    assert Lands(s, p + 1, b.end);
  }

  /** Scanned from where it stands, the bracket expression at p holds no slash and, if it is closed, leaves the scan
      outside all classes and quotes and as deep in parentheses as before. */
  predicate Crossed(s: Text, p: nat, depth: nat, ci: bool)
    requires p < |s| && s[p] == '['
  {
    match StateAfter(s, p, BracketAt(s, p, ci).end, depth, Top)
    case None => false
    case Some((d, i)) => BracketAt(s, p, ci).closed ==> d == depth && i == Top
  }

  // Every bracket expression up to the grammar's slash is crossed.
  predicate AllCrossed(s: Text, p: nat, depth: nat, ci: bool)
    requires p <= |s|
    decreases |s| - p
  {
    p == |s| || SlashHere(s, p, depth, Top) ||
    ((s[p] == '[' ==> Crossed(s, p, depth, ci)) && AllCrossed(s, TokenEnd(s, p, ci), DepthAfter(s[p], depth, Top), ci))
  }

  /** Where every bracket expression is crossed, the slash found is the grammar's. */
  lemma {:induction false} FoundIsSlash(s: Text, p: nat, depth: nat, ci: bool)
    requires p <= |s| && AllCrossed(s, p, depth, ci)
    ensures FoundFrom(s, p, depth, Top) == SlashAt(s, p, depth, ci)
    decreases |s| - p
  {
    if p < |s| {
      var e := TokenEnd(s, p, ci);
      FoundStep(s, p, depth, Top);
      if !SlashHere(s, p, depth, Top) {
        FoundIsSlash(s, e, DepthAfter(s[p], depth, Top), ci);
        if s[p] == '\\' {
          EscapeState(s, p, depth, Top);
          StateFound(s, p, e, depth, Top);
        } else if s[p] == '[' {
          BracketLands(s, p, ci);
          StateFound(s, p, e, depth, Top);
        } else if s[p] == '"' {
          QuoteFound(s, p, depth);
        }
      }
    }
  }

  /** Exactly: a slash is the one found iff the scan comes to it without another, outside all parentheses, classes and
      quotes. */
  lemma FoundIff(s: Text, p: nat, e: nat, depth: nat)
    requires p <= e < |s| && s[e] == '/'
    ensures FoundFrom(s, p, depth, Top) == e <==> StateAfter(s, p, e, depth, Top) == Some((0, Top))
  {
    StateFound(s, p, e, depth, Top);
    match StateAfter(s, p, e, depth, Top)
    case None => FoundPast(s, p, e, depth, Top);
    case Some((d, i)) => FoundStep(s, e, d, i);
  }

  lemma {:induction false} FoundPast(s: Text, p: nat, e: nat, depth: nat, inside: Inside)
    requires p <= e <= |s| && StateAfter(s, p, e, depth, inside).None?
    ensures FoundFrom(s, p, depth, inside) != e
    decreases e - p
  {
    if p < e {
      FoundStep(s, p, depth, inside);
      if !SlashHere(s, p, depth, inside) {
        if Stride(s, p) == 1 {
          FoundPast(s, p + 1, e, DepthAfter(s[p], depth, inside), InsideAfter(s[p], inside));
        } else if p + 2 <= e {
          FoundPast(s, p + 2, e, depth, inside);
        }
      }
    }
  }

  /** And none is found iff the scan comes to the end. */
  lemma NoneIff(s: Text, p: nat, depth: nat)
    requires p <= |s|
    ensures FoundFrom(s, p, depth, Top) == -1 <==> StateAfter(s, p, |s|, depth, Top).Some?
  {
    StateFound(s, p, |s|, depth, Top);
    LandsAtEnd(s, p);
  }

  lemma {:induction false} LandsAtEnd(s: Text, p: nat)
    requires p <= |s|
    ensures Lands(s, p, |s|)
    decreases |s| - p
  {
    if p < |s| { LandsAtEnd(s, p + Stride(s, p)); }
  }

  // The scan comes from the beginning to the grammar's slash, or to the end if there is none, outside all parentheses,
  // classes and quotes in the first case, and without having found a slash.
  predicate ScanArrives(s: Text, ci: bool) {
    var i := SlashAt(s, 0, 0, ci);
    if i >= 0 then StateAfter(s, 0, i, 0, Top) == Some((0, Top)) else StateAfter(s, 0, |s|, 0, Top).Some?
  }

  /** The slash found is the grammar's exactly when the scan arrives at that. */
  lemma RightIffArrives(s: Text, ci: bool)
    ensures SlashIn(s, 0, Top) == SlashAt(s, 0, 0, ci) <==> ScanArrives(s, ci)
  {
    var i := SlashAt(s, 0, 0, ci);
    assert s[0..] == s;
    if i >= 0 { FoundIff(s, 0, i, 0); } else { NoneIff(s, 0, 0); }
  }

  /** It is needed: the slash right after a bracket expression is found iff that is crossed. */
  lemma FoundIffCrossed(s: Text, p: nat, ci: bool)
    requires p < |s| && s[p] == '[' && BracketAt(s, p, ci).closed && CharAt(s, BracketAt(s, p, ci).end) == '/'
    ensures SlashAt(s, p, 0, ci) == BracketAt(s, p, ci).end
    ensures FoundFrom(s, p, 0, Top) == BracketAt(s, p, ci).end <==> Crossed(s, p, 0, ci)
  {
    FoundIff(s, p, BracketAt(s, p, ci).end, 0);
  }

  // ---------- a simple check ------------------------------------------------

  // No bracket from p to e but escaped ones.
  predicate NoneUnescaped(s: Text, p: nat, e: nat)
    requires e <= |s|
    decreases e - p
  {
    p >= e || (s[p] != ']' && NoneUnescaped(s, p + Stride(s, p), e))
  }

  /** No unescaped bracket before the one that closes it. */
  predicate Neat(s: Text, p: nat, ci: bool)
    requires p < |s| && s[p] == '['
  {
    NoneUnescaped(s, p + 1, LastElement(s, p, ci))
  }

  // Where the scan, inside a class at p, leaves it.
  function ClassLeft(s: Text, p: nat): (e: nat)
    requires p <= |s|
    ensures p <= e <= |s|
    decreases |s| - p
  {
    if p == |s| then p else if s[p] == ']' then p + 1 else ClassLeft(s, p + Stride(s, p))
  }

  lemma {:induction false} LeftState(s: Text, p: nat, e: nat, depth: nat)
    requires e <= |s| && Lands(s, p, e) && NoneUnescaped(s, p, e)
    ensures StateAfter(s, p, e, depth, InClass) == Some((depth, InClass))
    decreases e - p
  {
    if p < e { LeftState(s, p + Stride(s, p), e, depth); }
  }

  lemma {:induction false} LeftFound(s: Text, p: nat, depth: nat)
    requires p <= |s|
    ensures FoundFrom(s, p, depth, InClass) == FoundFrom(s, ClassLeft(s, p), depth, Top)
    decreases |s| - p
  {
    if p < |s| {
      FoundStep(s, p, depth, InClass);
      if s[p] != ']' { LeftFound(s, p + Stride(s, p), depth); }
    }
  }

  lemma {:induction false} LeftAtEnd(s: Text, p: nat, e: nat)
    requires e < |s| && s[e] == ']' && Lands(s, p, e)
    ensures ClassLeft(s, p) <= e + 1 && (ClassLeft(s, p) == e + 1 <==> NoneUnescaped(s, p, e))
    decreases e - p
  {
    if p < e && s[p] != ']' { LeftAtEnd(s, p + Stride(s, p), e); }
  }

  /** The scan leaves a bracket expression where it ends iff no unescaped bracket stands before its end. */
  lemma LeavesIffNeat(s: Text, p: nat, depth: nat, ci: bool)
    requires p < |s| && s[p] == '[' && BracketAt(s, p, ci).closed
    ensures FoundFrom(s, p, depth, Top) == FoundFrom(s, ClassLeft(s, p + 1), depth, Top)
    ensures ClassLeft(s, p + 1) <= BracketAt(s, p, ci).end
    ensures ClassLeft(s, p + 1) == BracketAt(s, p, ci).end <==> Neat(s, p, ci)
  {
    BracketLands(s, p, ci);
    FoundStep(s, p, depth, Top);
    LeftFound(s, p + 1, depth);
    LeftAtEnd(s, p + 1, LastElement(s, p, ci));
  }

  /** Then it is crossed, at any depth. */
  lemma NeatCrossed(s: Text, p: nat, depth: nat, ci: bool)
    requires p < |s| && s[p] == '[' && Neat(s, p, ci)
    ensures Crossed(s, p, depth, ci)
  {
    var e := LastElement(s, p, ci);
    BracketLands(s, p, ci);
    LeftState(s, p + 1, e, depth);
    if e < |s| { StateOn(s, p + 1, e, e + 1, depth, InClass, depth, InClass); }
  }

  // Every bracket expression up to the grammar's slash is neat.
  predicate AllNeat(s: Text, p: nat, depth: nat, ci: bool)
    requires p <= |s|
    decreases |s| - p
  {
    p == |s| || SlashHere(s, p, depth, Top) ||
    ((s[p] == '[' ==> Neat(s, p, ci)) && AllNeat(s, TokenEnd(s, p, ci), DepthAfter(s[p], depth, Top), ci))
  }

  lemma {:induction false} AllNeatCrossed(s: Text, p: nat, depth: nat, ci: bool)
    requires p <= |s| && AllNeat(s, p, depth, ci)
    ensures AllCrossed(s, p, depth, ci)
    decreases |s| - p
  {
    if p < |s| && !SlashHere(s, p, depth, Top) {
      if s[p] == '[' { NeatCrossed(s, p, depth, ci); }
      AllNeatCrossed(s, TokenEnd(s, p, ci), DepthAfter(s[p], depth, Top), ci);
    }
  }

  /** The slash found is the grammar's iff the scan arrives there; so it is in every source whose bracket expressions
      are all crossed, as those with no unescaped bracket before their end are. */
  method FindTopLevelSlash(src: Text) returns (r: int)
    ensures r == SlashIn(src, 0, Top)
    ensures forall ci :: r == SlashAt(src, 0, 0, ci) <==> ScanArrives(src, ci)
    ensures forall ci :: AllCrossed(src, 0, 0, ci) || AllNeat(src, 0, 0, ci) ==> r == SlashAt(src, 0, 0, ci)
  {
    r := ScanForSlash(src);
    assert src[0..] == src;
    forall ci ensures r == SlashAt(src, 0, 0, ci) <==> ScanArrives(src, ci) { RightIffArrives(src, ci); }
    forall ci | AllCrossed(src, 0, 0, ci) || AllNeat(src, 0, 0, ci) ensures r == SlashAt(src, 0, 0, ci) {
      if AllNeat(src, 0, 0, ci) { AllNeatCrossed(src, 0, 0, ci); }
      FoundIsSlash(src, 0, 0, ci);
    }
  }

  // The loop.
  method ScanForSlash(src: Text) returns (r: int)
    ensures r == SlashIn(src, 0, Top)
  {
    var depth: nat, inside, i := 0, Top, 0;
    assert src[0..] == src;
    while i < |src|
      invariant i <= |src| && SlashIn(src, 0, Top) == Shifted(i, SlashIn(src[i..], depth, inside))
      decreases |src| - i
    {
      SlashStep(src, i, depth, inside);
      var c := src[i];
      if c == '\\' && i + 1 < |src| {
        i := i + 2;
        continue;
      }
      match inside {
        case InClass => if c == ']' { inside := Top; }
        case InQuotes => if c == '"' { inside := Top; }
        case Top =>
          if c == '[' { inside := InClass; }
          else if c == '"' { inside := InQuotes; }
          else if c == '(' { depth := depth + 1; }
          else if c == ')' { if depth > 0 { depth := depth - 1; } }
          else if c == '/' && depth == 0 { return i; }
      }
      i := i + 1;
    }
    return -1;
  }
}
