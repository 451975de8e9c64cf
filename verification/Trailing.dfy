// Trailing context: what the scanner gives back is exactly the tail of `r/s`.

module Trailing {
  import opened Bytes
  import opened Languages
  import opened Regex
  import opened RuleNfa
  import opened ScanTables
  import opened Matching
  import opened Scanner

  /** Rule `rule` was written r/s (or ^r/s), s possibly with anchors of its own, and none of its classes is empty. */
  ghost predicate WrittenAs(g: Grammar, rule: nat, bol: bool, r: Node, tail: Tail) {
    && rule < |g.rules|
    && Plain(r) && Plain(tail.s)
    && Lower(Anchored(bol, r, false), TailRoot(tail)) == Lowered(Pattern(g.rules[rule].root, g.rules[rule].trail))
    && ClassesNonempty(Body(g.rules[rule]))
  }

  // The first `token` of len bytes are a word of r, the rest a word of the tail.
  ghost predicate SplitAt(h: Here, r: Node, tail: Tail, len: nat, token: nat) {
    token <= len <= |h.input| && h.input[..token] in Meaning(r) && h.input[token..len] in TailWords(tail)
  }

  lemma HitSplits(h: Here, rule: nat, len: nat, bol: bool, r: Node, tail: Tail) returns (j: nat)
    requires WrittenAs(h.g, rule, bol, r, tail) && Hit(h, rule, len)
    ensures SplitAt(h, r, tail, len, j)
  {
    LowerMeaning(bol, r, tail);
    EffectiveIdentity(Body(h.g.rules[rule]));
    var u, v := CatElim(h.input[..len], Meaning(r), TailWords(tail));
    j := |u|;
    assert h.input[..len][..j] == u && h.input[..len][j..] == v;
    assert h.input[..j] == u && h.input[j..len] == v;
  }

  lemma TailLength(g: Grammar, rule: nat, bol: bool, r: Node, tail: Tail)
    requires WrittenAs(g, rule, bol, r, tail) && g.rules[rule].trail >= 0
    ensures AllOfLength(TailWords(tail), g.rules[rule].trail)
  {
    LowerMeaning(bol, r, tail);
  }

  // n bytes are the one and only split.
  ghost predicate OnlySplit(h: Here, r: Node, tail: Tail, len: nat, n: nat) {
    SplitAt(h, r, tail, len, n) && forall j: nat :: SplitAt(h, r, tail, len, j) ==> j == n
  }

  /** Fixed trailing context: the token is the one and only split of the match into r and its tail. */
  lemma FixedTrailSplits(h: Here, rule: nat, len: nat, token: nat, bol: bool, r: Node, tail: Tail)
    requires WrittenAs(h.g, rule, bol, r, tail) && h.g.rules[rule].trail >= 0
    requires Hit(h, rule, len) && IsToken(h, rule, len, token)
    ensures OnlySplit(h, r, tail, len, token)
  {
    var j := HitSplits(h, rule, len, bol, r, tail);
    TailLength(h.g, rule, bol, r, tail);
    forall i: nat | SplitAt(h, r, tail, len, i) ensures len - i == h.g.rules[rule].trail {
      assert |h.input[i..len]| == h.g.rules[rule].trail;
    }
  }

  /** Safe variable trailing context: with r of fixed length, the marker is recorded exactly at the end of r, however
      far the scan ran on, and the token is the one and only split. */
  lemma SafeTrailSplits(h: Here, rule: nat, len: nat, token: nat, bol: bool, r: Node, tail: Tail)
    requires WrittenAs(h.g, rule, bol, r, tail) && h.g.rules[rule].trail < 0 && FixedLength(r) >= 0
    requires Hit(h, rule, len) && IsToken(h, rule, len, token)
    ensures token == FixedLength(r) && OnlySplit(h, r, tail, len, token)
  {
    var j := HitSplits(h, rule, len, bol, r, tail);
    LowerMeaning(bol, r, tail);
    EffectiveIdentity(Body(h.g.rules[rule]));
    FixedLengthSound(r);
    assert forall i: nat :: MarkAt(h, rule, i) ==> i == FixedLength(r);
    assert MarkAt(h, rule, j);
    assert forall i: nat :: SplitAt(h, r, tail, len, i) ==> |h.input[..i]| == FixedLength(r);
  }

  // ---------- the token under REJECT ----------------------------------------

  /** What is left of a match when its action runs in the REJECT loop: all of it if the rule has no trailing context of
      fixed length, else all but that; and that is the one split of the match into r and the tail. */
  ghost predicate RejectToken(h: Here, rule: nat, len: nat, n: nat)
    requires rule < |h.g.rules|
  {
    var trail := h.g.rules[rule].trail;
    && (trail <= 0 ==> n == len)
    && (trail > 0 ==> n + trail == len || (n == len < trail))
    && forall bol, r, tail {:trigger WrittenAs(h.g, rule, bol, r, tail)} ::
         WrittenAs(h.g, rule, bol, r, tail) && trail >= 0 ==> OnlySplit(h, r, tail, len, n)
  }

  lemma RejectTokenIs(h: Here, rule: nat, len: nat, n: nat)
    requires rule < |h.g.rules| && Hit(h, rule, len)
    requires var trail := h.g.rules[rule].trail; n == if 0 < trail <= len then len - trail else len
    ensures RejectToken(h, rule, len, n)
  {
    forall bol, r, tail | WrittenAs(h.g, rule, bol, r, tail) && h.g.rules[rule].trail >= 0
      ensures OnlySplit(h, r, tail, len, n)
    {
      FixedTrailSplits(h, rule, len, n, bol, r, tail);
    }
  }

  // ---------- may the token be empty? ---------------------------------------

  /** The trailing context of the rule cannot be all that it matches: of r/s, r does not match the empty word. */
  ghost predicate HeadNonempty(rule: Rule) {
    && (rule.trail > 0 ==> forall w :: w in Meaning(Effective(Body(rule))) ==> |w| != rule.trail)
    && (rule.trail < 0 ==> [] !in Marks(Effective(Body(rule))))
  }

  lemma SomeTail(g: Grammar, rule: nat, bol: bool, r: Node, tail: Tail) returns (v: Word)
    requires WrittenAs(g, rule, bol, r, tail)
    ensures v in TailWords(tail)
  {
    var w := SomeWord(Body(g.rules[rule]));
    LowerMeaning(bol, r, tail);
    var u;
    u, v := CatElim(w, Meaning(r), TailWords(tail));
  }

  /** A check on the rule as written: the trailing context can be all that it matches iff r can match the empty word and
      the tail is not always empty. */
  lemma HeadCheck(g: Grammar, rule: nat, bol: bool, r: Node, tail: Tail)
    requires WrittenAs(g, rule, bol, r, tail)
    ensures HeadNonempty(g.rules[rule]) <==> !Nullable(r) || g.rules[rule].trail == 0
  {
    var body, trail := Body(g.rules[rule]), g.rules[rule].trail;
    LowerMeaning(bol, r, tail);
    EffectiveIdentity(body);
    NullableSound(r);
    if trail > 0 {
      forall w | w in Meaning(body) && !Nullable(r) ensures |w| != trail {
        var u, v := CatElim(w, Meaning(r), TailWords(tail));
        assert |v| == trail;
      }
      if Nullable(r) {
        var v := SomeTail(g, rule, bol, r, tail);
        CatIntro([], v, Meaning(r), TailWords(tail));
        assert [] + v == v && |v| == trail;
      }
    }
  }
}
