// Which match the scanner is meant to pick, in terms of the rules' languages
// only: longest match, ties to the earlier rule, `$` only at a line end.

module Matching {
  import opened Bytes
  import opened Languages
  import opened Regex
  import opened RuleNfa
  import opened ScanTables

  // Where the scanner stands: the condition, whether at a line beginning, and the rest of the buffer.
  datatype Here = Here(g: Grammar, c: nat, b: bool, input: Word)

  predicate AtEol(h: Here, k: nat) {
    k >= |h.input| || h.input[k] == NEWLINE
  }

  // Rule r's body matches the next k bytes.
  ghost predicate Hit(h: Here, r: nat, k: nat) {
    k <= |h.input| && Denotes(h.g, h.c, h.b, r, h.input[..k])
  }

  ghost predicate EolHit(h: Here, r: nat, k: nat) {
    Hit(h, r, k) && IsEol(h.g, r)
  }

  /** Rule r may be selected with length k: its body matches, and if it ends in $ a newline or the end follows. */
  ghost predicate Candidate(h: Here, r: nat, k: nat) {
    Hit(h, r, k) && (IsEol(h.g, r) ==> AtEol(h, k))
  }

  // The plain loop remembers only the longest $ match, so it loses shorter ones.
  ghost predicate Eligible(h: Here, plain: bool, r: nat, k: nat) {
    Candidate(h, r, k) && (plain && IsEol(h.g, r) ==> forall r': nat, k': nat :: EolHit(h, r', k') ==> k' <= k)
  }

  // The longest eligible match of nonzero length, the earliest rule among equals; -1 if there is none.
  ghost predicate IsBest(h: Here, plain: bool, rule: int, len: nat) {
    if rule < 0 then rule == -1 && forall r: nat, k: nat :: Eligible(h, plain, r, k) ==> k == 0
    else Eligible(h, plain, rule, len) && len > 0
         && forall r: nat, k: nat :: Eligible(h, plain, r, k) ==> k < len || (k == len && rule <= r)
  }

  /** The lexing rule of POSIX lex. */
  ghost predicate IsPick(h: Here, rule: int, len: nat) {
    IsBest(h, false, rule, len)
  }

  /** What the plain loop picks. */
  ghost predicate IsPlainPick(h: Here, rule: int, len: nat) {
    IsBest(h, true, rule, len)
  }

  lemma PickUnique(h: Here, plain: bool, rule: int, len: nat, rule': int, len': nat)
    requires IsBest(h, plain, rule, len) && IsBest(h, plain, rule', len')
    ensures rule == rule' && (rule >= 0 ==> len == len')
  {
    if rule >= 0 { assert Eligible(h, plain, rule, len); }
    if rule' >= 0 { assert Eligible(h, plain, rule', len'); }
  }

  // ---------- when the two agree -------------------------------------------

  // A $ match of length k at a line end that beats every ordinary match, hidden behind a longer $ match that is
  // the longest there is but does not end at a line end.
  ghost predicate Hides(h: Here, r: nat, k: nat, r': nat, k': nat) {
    && EolHit(h, r, k) && 0 < k && AtEol(h, k)
    && EolHit(h, r', k') && k < k' && !AtEol(h, k')
    && (forall r2: nat, k2: nat :: EolHit(h, r2, k2) ==> k2 <= k')
    && (forall r2: nat, k2: nat :: Hit(h, r2, k2) && !IsEol(h.g, r2) ==> k2 < k || (k2 == k && r < r2))
  }

  ghost predicate HiddenEol(h: Here) {
    exists r: nat, k: nat, r': nat, k': nat :: Hides(h, r, k, r', k')
  }

  lemma HiddenBeats(h: Here, rule: int, len: nat, r: nat, k: nat, r': nat, k': nat)
    requires IsPlainPick(h, rule, len) && Hides(h, r, k, r', k')
    ensures rule < 0 || len < k || (len == k && r < rule)
  {
    if rule >= 0 {
      assert Eligible(h, true, rule, len);
      if IsEol(h.g, rule) {
        assert EolHit(h, rule, len);
      }
    }
  }

  /** The plain loop obeys the lexing rule exactly when no shorter $ match is hidden by a longer one. */
  lemma PlainIffNotHidden(h: Here, rule: int, len: nat)
    requires IsPlainPick(h, rule, len)
    ensures IsPick(h, rule, len) <==> !HiddenEol(h)
  {
    if r: nat, k: nat, r': nat, k': nat :| Hides(h, r, k, r', k') {
      HiddenBeats(h, rule, len, r, k, r', k');
      assert Eligible(h, false, r, k);
    }
    if !HiddenEol(h) {
      forall r: nat, k: nat | Candidate(h, r, k) && k > 0 && !Eligible(h, true, r, k)
        ensures rule >= 0 && (k < len || (k == len && rule <= r))
      {
        LostToBetter(h, rule, len, r, k);
      }
      if rule >= 0 { assert Eligible(h, true, rule, len); }
    }
  }

  // The longest $ match.
  lemma {:induction false} LongestEol(h: Here, r: nat, k: nat) returns (r': nat, k': nat)
    requires EolHit(h, r, k)
    ensures EolHit(h, r', k') && k <= k' && forall r2: nat, k2: nat :: EolHit(h, r2, k2) ==> k2 <= k'
    decreases |h.input| - k
  {
    if r2: nat, k2: nat :| EolHit(h, r2, k2) && k2 > k {
      r', k' := LongestEol(h, r2, k2);
    } else {
      r', k' := r, k;
    }
  }

  lemma LostToBetter(h: Here, rule: int, len: nat, r: nat, k: nat)
    requires IsPlainPick(h, rule, len) && !HiddenEol(h)
    requires Candidate(h, r, k) && k > 0 && !Eligible(h, true, r, k)
    ensures rule >= 0 && (k < len || (k == len && rule <= r))
  {
    var r', k' := LongestEol(h, r, k);
    if AtEol(h, k') {
      assert Eligible(h, true, r', k');
    } else {
      assert !Hides(h, r, k, r', k');
      var r2: nat, k2: nat :| Hit(h, r2, k2) && !IsEol(h.g, r2) && !(k2 < k || (k2 == k && r < r2));
      assert Eligible(h, true, r2, k2);
    }
  }

  // ---------- newline-free $ bodies ----------------------------------------

  predicate NewlineFree(n: Node) {
    match n
    case Class(cls) => NEWLINE !in cls
    case Concat(a, b) => NewlineFree(a) && NewlineFree(b)
    case Alt(a, b) => NewlineFree(a) && NewlineFree(b)
    case Star(a) => NewlineFree(a)
    case Plus(a) => NewlineFree(a)
    case Question(a) => NewlineFree(a)
    case Repeat(a, _, _) => NewlineFree(a)
    case _ => true
  }

  ghost predicate NoNewlines(A: Language) {
    forall w, i :: w in A && 0 <= i < |w| ==> w[i] != NEWLINE
  }

  lemma CatNoNewlines(A: Language, B: Language)
    requires NoNewlines(A) && NoNewlines(B)
    ensures NoNewlines(Cat(A, B))
  {
    forall w, i | w in Cat(A, B) && 0 <= i < |w| ensures w[i] != NEWLINE {
      var u, v := CatElim(w, A, B);
      assert if i < |u| then w[i] == u[i] else w[i] == v[i - |u|];
    }
  }

  lemma {:induction false} PowNoNewlines(A: Language, k: nat)
    requires NoNewlines(A)
    ensures NoNewlines(Pow(A, k))
  {
    if k > 0 {
      PowNoNewlines(A, k - 1);
      CatNoNewlines(A, Pow(A, k - 1));
    }
  }

  lemma RepeatNoNewlines(A: Language)
    requires NoNewlines(A)
    ensures forall lo :: NoNewlines(AtLeast(A, lo))
    ensures forall lo, hi :: NoNewlines(Between(A, lo, hi))
  {
    forall k: nat ensures NoNewlines(Pow(A, k)) { PowNoNewlines(A, k); }
  }

  lemma {:induction false} NewlineFreeSound(n: Node)
    requires NewlineFree(n)
    ensures NoNewlines(Meaning(Effective(n)))
  {
    match n
    case Concat(a, b) =>
      NewlineFreeSound(a);
      NewlineFreeSound(b);
      CatNoNewlines(Meaning(Effective(a)), Meaning(Effective(b)));
    case Alt(a, b) =>
      NewlineFreeSound(a);
      NewlineFreeSound(b);
    case Star(a) => NewlineFreeSound(a); RepeatNoNewlines(Meaning(Effective(a)));
    case Plus(a) => NewlineFreeSound(a); RepeatNoNewlines(Meaning(Effective(a)));
    case Question(a) => NewlineFreeSound(a);
    case Repeat(a, _, _) => NewlineFreeSound(a); RepeatNoNewlines(Meaning(Effective(a)));
    case _ =>
  }

  predicate EolBodiesNewlineFree(g: Grammar) {
    forall r :: 0 <= r < |g.rules| && IsEol(g, r) ==> NewlineFree(Body(g.rules[r]))
  }

  /** If no $ body can match a newline, nothing is ever hidden: the plain loop obeys the lexing rule on every input. */
  lemma NewlineFreeHidesNothing(h: Here)
    requires EolBodiesNewlineFree(h.g)
    ensures !HiddenEol(h)
  {
    if HiddenEol(h) {
      var r: nat, k: nat, r': nat, k': nat :| Hides(h, r, k, r', k');
      assert EolHit(h, r', k') && h.input[..k'][k] == NEWLINE;
      NewlineFreeSound(Body(h.g.rules[r']));
    }
  }
}
