// What single atoms stand for, in numbers and ranges of ASCII: escapes, case,
// POSIX classes, ranges, complements, quoted strings and bounds.

module AtomReads {
  import opened Bytes
  import opened Languages
  import opened Regex
  import opened RegexText
  import opened RegexAtoms
  import opened RegexLocality
  import opened RegexReadback

  // ---------- case ------------------------------------------------------------

  /** The two cases of one ASCII letter. */
  predicate SameLetter(x: byte, y: byte) {
    (0x41 <= x <= 0x5A && y == x + 0x20) || (0x61 <= x <= 0x7A && y == x - 0x20)
  }

  /** Ignoring case a byte stands for itself and, if it is a letter, for its other case. */
  lemma FoldedIs(b: byte, x: byte, ci: bool)
    ensures x in Folded(b, ci) <==> x == b || (ci && SameLetter(b, x))
  {
  }

  // ---------- escapes ---------------------------------------------------------

  lemma HexValues(i: nat)
    ensures i < 10 ==> XDigitValue((0x30 + i) as char) == i
    ensures i < 6 ==> XDigitValue((0x41 + i) as char) == 10 + i && XDigitValue((0x61 + i) as char) == 10 + i
  {
  }

  /** An escape of one character: the seven of C, or that character itself. */
  lemma CharEscape(s: Text, p: nat, c: ch)
    requires p + 1 < |s| && s[p] == '\\' && s[p + 1] == c && c != NUL && c != 'x' && !('0' <= c <= '7')
    ensures EscapeAt(s, p).1 == p + 2
    ensures var b := EscapeAt(s, p).0;
            && (c == 'a' ==> b == 0x07) && (c == 'b' ==> b == 0x08) && (c == 't' ==> b == 0x09)
            && (c == 'n' ==> b == 0x0A == NEWLINE) && (c == 'v' ==> b == 0x0B) && (c == 'f' ==> b == 0x0C)
            && (c == 'r' ==> b == 0x0D) && (c !in ['a', 'b', 't', 'n', 'v', 'f', 'r'] ==> b == c as int)
  {
  }

  lemma OctalRun(s: Text, p: nat, n: nat)
    requires 1 <= n <= 3 && p + n < |s| && s[p] == '\\' && (forall k :: p < k <= p + n ==> '0' <= s[k] <= '7')
    requires n == 3 || p + n + 1 == |s| || !('0' <= s[p + n + 1] <= '7')
    ensures forall c :: c in s[p + 1..p + n + 1] ==> IsXDigit(c)
    ensures EscapeAt(s, p) == (Numeral(s[p + 1..p + n + 1], 8) % 256, p + n + 1)
  {
    assert IsOctal(CharAt(s, p + 1));
    RunEndIs(IsOctal, s, p + 1, p + n + 1, p + 4);
  }

  lemma ThreeDigits(d: Text, base: nat)
    requires |d| == 3 && forall i :: 0 <= i < 3 ==> IsXDigit(d[i])
    ensures Numeral(d[..1], base) == XDigitValue(d[0])
    ensures Numeral(d[..2], base) == XDigitValue(d[0]) * base + XDigitValue(d[1])
    ensures Numeral(d, base) == (XDigitValue(d[0]) * base + XDigitValue(d[1])) * base + XDigitValue(d[2])
  {
    assert d[..1][..0] == [] && d[..2][..1] == d[..1];
  }

  /** Three octal digits: a byte, modulo 256. */
  lemma OctalEscape(s: Text, p: nat)
    requires p + 3 < |s| && s[p] == '\\' && forall k :: p < k <= p + 3 ==> '0' <= s[k] <= '7'
    ensures EscapeAt(s, p).1 == p + 4
    ensures EscapeAt(s, p).0 ==
            ((s[p + 1] as int - 0x30) * 64 + (s[p + 2] as int - 0x30) * 8 + (s[p + 3] as int - 0x30)) % 256
  {
    OctalRun(s, p, 3);
    ThreeDigits(s[p + 1..p + 4], 8);
  }

  /** Fewer of them, before anything else. */
  lemma OneOctalEscape(s: Text, p: nat)
    requires p + 1 < |s| && s[p] == '\\' && '0' <= s[p + 1] <= '7' && (p + 2 == |s| || !('0' <= s[p + 2] <= '7'))
    ensures EscapeAt(s, p) == (s[p + 1] as int - 0x30, p + 2)
  {
    OctalRun(s, p, 1);
    ThreeDigits([s[p + 1], '0', '0'], 8);
    assert s[p + 1..p + 2] == [s[p + 1], '0', '0'][..1];
  }

  lemma TwoOctalEscape(s: Text, p: nat)
    requires p + 2 < |s| && s[p] == '\\' && '0' <= s[p + 1] <= '7' && '0' <= s[p + 2] <= '7'
    requires p + 3 == |s| || !('0' <= s[p + 3] <= '7')
    ensures EscapeAt(s, p) == ((s[p + 1] as int - 0x30) * 8 + (s[p + 2] as int - 0x30), p + 3)
  {
    OctalRun(s, p, 2);
    ThreeDigits([s[p + 1], s[p + 2], '0'], 8);
    assert s[p + 1..p + 3] == [s[p + 1], s[p + 2], '0'][..2];
  }

  /** Two hexadecimal digits, of either case. */
  lemma HexEscapeReads(s: Text, p: nat)
    requires p + 3 < |s| && s[p] == '\\' && s[p + 1] == 'x' && IsXDigit(s[p + 2]) && IsXDigit(s[p + 3])
    ensures EscapeAt(s, p) == (XDigitValue(s[p + 2]) * 16 + XDigitValue(s[p + 3]), p + 4)
  {
    RunEndIs(IsXDigit, s, p + 2, p + 4, p + 4);
    ThreeDigits([s[p + 2], s[p + 3], '0'], 16);
    assert s[p + 2..p + 4] == [s[p + 2], s[p + 3], '0'][..2];
  }

  // ---------- classes ---------------------------------------------------------

  lemma LetterIs(b: byte)
    ensures b in ALL && (b as char) as int == b
    ensures IsUpper(b as char) <==> 0x41 <= b <= 0x5A
    ensures IsLower(b as char) <==> 0x61 <= b <= 0x7A
    ensures IsDigit(b as char) <==> 0x30 <= b <= 0x39
  {
  }

  /** The POSIX classes in the C locale. */
  lemma PosixLetters(b: byte, ci: bool)
    ensures PosixClass("alpha", ci).Some? && PosixClass("upper", ci).Some? && PosixClass("lower", ci).Some?
    ensures b in PosixClass("alpha", ci).value <==> 0x41 <= b <= 0x5A || 0x61 <= b <= 0x7A
    ensures b in PosixClass("upper", ci).value <==> 0x41 <= b <= 0x5A || (ci && 0x61 <= b <= 0x7A)
    ensures b in PosixClass("lower", ci).value <==> 0x61 <= b <= 0x7A || (ci && 0x41 <= b <= 0x5A)
  {
    LetterIs(b);
  }

  lemma PosixDigits(b: byte, ci: bool)
    ensures PosixClass("digit", ci).Some? && PosixClass("xdigit", ci).Some? && PosixClass("alnum", ci).Some?
    ensures b in PosixClass("digit", ci).value <==> 0x30 <= b <= 0x39
    ensures b in PosixClass("xdigit", ci).value <==> 0x30 <= b <= 0x39 || 0x41 <= b <= 0x46 || 0x61 <= b <= 0x66
    ensures b in PosixClass("alnum", ci).value <==> 0x30 <= b <= 0x39 || 0x41 <= b <= 0x5A || 0x61 <= b <= 0x7A
  {
    LetterIs(b);
  }

  lemma PosixOthers(b: byte, ci: bool)
    ensures PosixClass("space", ci).Some? && PosixClass("blank", ci).Some? && PosixClass("cntrl", ci).Some?
    ensures b in PosixClass("space", ci).value <==> b in {0x20, 0x09, 0x0A, 0x0B, 0x0C, 0x0D}
    ensures b in PosixClass("blank", ci).value <==> b in {0x20, 0x09}
    ensures b in PosixClass("cntrl", ci).value <==> b < 0x20 || b == 0x7F
  {
  }

  lemma PosixVisible(b: byte, ci: bool)
    ensures PosixClass("print", ci).Some? && PosixClass("graph", ci).Some? && PosixClass("punct", ci).Some?
    ensures b in PosixClass("print", ci).value <==> 0x20 <= b <= 0x7E
    ensures b in PosixClass("graph", ci).value <==> 0x20 < b <= 0x7E
    ensures b in PosixClass("punct", ci).value <==>
            0x21 <= b <= 0x2F || 0x3A <= b <= 0x40 || 0x5B <= b <= 0x60 || 0x7B <= b <= 0x7E
  {
  }

  /** There are twelve of them. */
  lemma PosixNames(name: Text, ci: bool)
    ensures PosixClass(name, ci).Some? <==>
            name in ["alpha", "upper", "lower", "digit", "xdigit", "alnum", "space", "blank", "cntrl", "print", "graph",
                     "punct"]
  {
  }

  predicate SameUpToCase(z: byte, x: byte, ci: bool) {
    x == z || (ci && SameLetter(z, x))
  }

  lemma RangeIs(a: byte, b: byte, ci: bool, x: byte)
    ensures x in RangeOf(a, b, ci) <==>
            exists z: byte :: (a <= z <= b || b <= z <= a) && SameUpToCase(z, x, ci)
  {
    if x in RangeOf(a, b, ci) {
      var z: byte :| (a <= z <= b || b <= z <= a) && x in Folded(z, ci);
      FoldedIs(z, x, ci);
      assert SameUpToCase(z, x, ci);
    }
    if z: byte :| (a <= z <= b || b <= z <= a) && SameUpToCase(z, x, ci) {
      FoldedIs(z, x, ci);
      AllBytes(z);
      assert x in RangeOf(a, b, ci);
    }
  }

  /** a-b is every byte from a to b, whichever is the greater, and in the other case if case is ignored. */
  lemma RangeReads(s: Text, p: nat, x: byte, ci: bool)
    requires p + 2 < |s| && s[p + 1] == '-' && s[p] != '\\' && s[p + 2] !in ['\\', ']', NUL]
    ensures ElementAt(s, p, ci).1 == p + 3
    ensures var a, b := s[p] as int, s[p + 2] as int;
            x in ElementAt(s, p, ci).0 <==>
            exists z: byte :: (a <= z <= b || b <= z <= a) && SameUpToCase(z, x, ci)
  {
    RangeIs(Byte(s[p]), Byte(s[p + 2]), ci, x);
  }

  /** An element that no dash follows is one character. */
  lemma SingleReads(s: Text, p: nat, x: byte, ci: bool)
    requires p < |s| && s[p] != '\\' && CharAt(s, p + 1) != '-'
    ensures ElementAt(s, p, ci).1 == p + 1 && (x in ElementAt(s, p, ci).0 <==> SameUpToCase(s[p] as int, x, ci))
  {
    FoldedIs(s[p] as int, x, ci);
  }

  /** A dash that comes last is an element of its own. */
  lemma LastDash(s: Text, p: nat, x: byte, ci: bool)
    requires p + 2 < |s| && s[p] != '\\' && s[p + 1] == '-' && s[p + 2] == ']'
    ensures ElementAt(s, p, ci).1 == p + 1 && (x in ElementAt(s, p, ci).0 <==> SameUpToCase(s[p] as int, x, ci))
  {
    FoldedIs(s[p] as int, x, ci);
  }

  /** [:name:] within a class, for the known names, is the class of that name. */
  lemma NamedReads(s: Text, p: nat, name: Text, more: Text, ci: bool)
    requires p <= |s| && s[p..] == "[:" + (name + (":]" + more))
    requires |name| <= 16 && forall i :: 0 <= i < |name| ==> 'a' <= name[i] <= 'z' || 'A' <= name[i] <= 'Z'
    requires PosixClass(name, ci).Some?
    ensures p < |s| && NextAt(s, p, ci) == (PosixClass(name, ci).value, p + |name| + 4)
  {
    var e := p + 2 + |name|;
    assert s[p] == s[p..][0] && s[p + 1] == s[p..][1] && s[e] == s[p..][2 + |name|] && s[e + 1] == s[p..][3 + |name|];
    assert s[p + 2..e] == s[p..][2..2 + |name|] == name;
    assert forall k :: p + 2 <= k < e ==> s[k] == name[k - (p + 2)];
    RunEndIs(IsAlpha, s, p + 2, e, p + 18);
    PosixIs(s, p, name, e, ci);
  }

  lemma StandsAfter(head: Text, body: Text)
    ensures Stands(body, head + body, |head|)
  {
  }

  lemma ElementsAfter(head: Text, body: Text, ci: bool, x: set<byte>, e: nat)
    requires body != [] && ElementsAre(body, 0, true, ci, x, e) && e < |body|
    ensures ElementsAre(head + body, |head|, true, ci, x, |head| + e) && (head + body)[|head| + e] == ']'
  {
    StandsAfter(head, body);
    ElementsEnd(body, 0, true, ci, x, e);
    SameChar(body, head + body, |head|, e);
    ElementsInside(body, head + body, |head|, 0, true, ci, x, e);
  }

  lemma BracketAfter(neg: bool, body: Text, ci: bool, x: set<byte>, e: nat)
    requires body != [] && body[0] != '^' && ElementsAre(body, 0, true, ci, x, e) && e < |body|
    ensures var head := if neg then ['[', '^'] else ['['];
            BracketAt(head + body, 0, ci) == Bracket(if neg then ALL - x else x, true, |head| + e + 1)
  {
    var head := if neg then ['[', '^'] else ['['];
    ElementsAfter(head, body, ci, x, e);
    assert (head + body)[|head|] == body[0];
    BracketFrom(head + body, 0, neg, |head|, x, |head| + e, ci);
  }

  /** After ^ the class is the complement of what the same elements make without it. */
  lemma NegatedReads(body: Text, ci: bool)
    requires body != [] && body[0] != '^' && ElementsAt(body, 0, true, ci).1 < |body|
    ensures var b, c := BracketAt(['['] + body, 0, ci), BracketAt(['[', '^'] + body, 0, ci);
            b.closed && c.closed && c.end == b.end + 1 && c.cls == ALL - b.cls
  {
    var (x, e) := ElementsAt(body, 0, true, ci);
    BracketAfter(false, body, ci, x, e);
    BracketAfter(true, body, ci, x, e);
  }

  lemma AllBytes(x: byte)
    ensures x in ALL
  {
  }

  // ---------- other atoms -----------------------------------------------------

  /** A dot is any byte but a newline. */
  lemma DotReads(s: Text, p: nat, ci: bool)
    requires p < |s| && s[p] == '.'
    ensures AtomAt(s, p, ci).Some? && AtomAt(s, p, ci).value.end == p + 1 && AtomAt(s, p, ci).value.n.Class?
    ensures forall x: byte :: x in AtomAt(s, p, ci).value.n.cls <==> x != 0x0A
  {
    forall x: byte ensures x in ALL { AllBytes(x); }
  }

  // Words that spell bs, in either case of each letter if case is ignored.
  ghost predicate Spells(w: Word, bs: seq<byte>, ci: bool) {
    |w| == |bs| && forall i :: 0 <= i < |bs| ==> SameUpToCase(bs[i], w[i], ci)
  }

  lemma {:induction false} LiteralMeaning(bs: seq<byte>, ci: bool, w: Word)
    ensures w in Meaning(OrEmpty(Literal(bs, ci))) <==> Spells(w, bs, ci)
    decreases |bs|
  {
    if bs != [] {
      var init, last := bs[..|bs| - 1], bs[|bs| - 1];
      assert init + [last] == bs;
      forall u: Word ensures u in Meaning(OrEmpty(Literal(init, ci))) <==> Spells(u, init, ci) {
        LiteralMeaning(init, ci, u);
      }
      OneMore(init, last, ci, w);
    }
  }

  lemma OneMore(init: seq<byte>, last: byte, ci: bool, w: Word)
    requires forall u: Word :: u in Meaning(OrEmpty(Literal(init, ci))) <==> Spells(u, init, ci)
    ensures w in Meaning(ConcatOf(Literal(init, ci), Class(Folded(last, ci)))) <==> Spells(w, init + [last], ci)
  {
    var c := Class(Folded(last, ci));
    forall x: byte ensures [x] in Meaning(c) <==> SameUpToCase(last, x, ci) { FoldedIs(last, x, ci); }
    match Literal(init, ci)
    case None =>
      assert init == [] by { assert init != [] ==> Literal(init, ci).Some?; }
      assert |w| == 1 ==> w == [w[0]];
    case Some(x) =>
      ConcatMeaning(x, c);
      if w in Cat(Meaning(x), Meaning(c)) {
        var u, v := CatElim(w, Meaning(x), Meaning(c));
        assert v == [v[0]] && Spells(u, init, ci);
      }
      if Spells(w, init + [last], ci) {
        var u := w[..|init|];
        assert Spells(u, init, ci) && w == u + [w[|init|]];
        CatIntro(u, [w[|init|]], Meaning(x), Meaning(c));
      }
  }

  // The characters from p on are those of bs, none of them a quote or a backslash.
  predicate Spelled(s: Text, p: nat, bs: seq<byte>) {
    p + |bs| <= |s| && forall k :: p <= k < p + |bs| ==> s[k] as int == bs[k - p] && s[k] !in ['\\', '"']
  }

  lemma {:induction false} PlainQuoted(s: Text, p: nat, bs: seq<byte>)
    requires Spelled(s, p, bs) && CharAt(s, p + |bs|) == '"'
    ensures QuotedAt(s, p) == (bs, p + |bs|)
    decreases |bs|
  {
    if bs != [] {
      assert s[p] as int == bs[0] && bs == [bs[0]] + bs[1..];
      PlainQuoted(s, p + 1, bs[1..]);
    }
  }

  /** A string in quotes, of characters other than quotes and backslashes, is matched by what spells it, and by that
      alone. */
  lemma QuotedReads(s: Text, p: nat, bs: seq<byte>, ci: bool, w: Word)
    requires CharAt(s, p) == '"' && Spelled(s, p + 1, bs) && CharAt(s, p + 1 + |bs|) == '"'
    ensures AtomAt(s, p, ci).Some?
    ensures var a := AtomAt(s, p, ci).value; a.ok && a.end == p + |bs| + 2 && (w in Meaning(a.n) <==> Spells(w, bs, ci))
  {
    PlainQuoted(s, p + 1, bs);
    LiteralMeaning(bs, ci, w);
  }

  /** A character that has no other part to play stands for itself, in either case if case is ignored. */
  lemma PlainReads(s: Text, p: nat, x: byte, ci: bool)
    requires p < |s| && s[p] !in ['(', ')', '{', '|', '$', '[', '"', '.', '\\', NUL]
    ensures AtomAt(s, p, ci).Some?
    ensures var a := AtomAt(s, p, ci).value;
            a.ok && a.end == p + 1 && ([x] in Meaning(a.n) <==> SameUpToCase(s[p] as int, x, ci))
  {
    FoldedIs(s[p] as int, x, ci);
  }

  /** So does an escaped byte. */
  lemma EscapedReads(s: Text, p: nat, x: byte, ci: bool)
    requires p < |s| && s[p] == '\\'
    ensures AtomAt(s, p, ci).Some?
    ensures var a := AtomAt(s, p, ci).value;
            a.ok && a.end == EscapeAt(s, p).1 && ([x] in Meaning(a.n) <==> SameUpToCase(EscapeAt(s, p).0, x, ci))
  {
    FoldedIs(EscapeAt(s, p).0, x, ci);
  }

  /** {n} is exactly n. */
  lemma ExactBounds(s: Text, p: nat, n: nat, more: Text)
    requires p <= |s| && s[p..] == ['{'] + (Decimal(n) + (['}'] + more))
    ensures CharAt(s, p) == '{' && BoundsAt(s, p).Some?
    ensures var b := BoundsAt(s, p).value; b.lo == n && b.hi == Finite(n) && s[b.end..] == more
  {
    TakeOne(s, p, '{', Decimal(n) + (['}'] + more));
    NumberReads(s, p + 1, n, ['}'] + more);
    var e := p + 1 + |Decimal(n)|;
    TakeOne(s, e, '}', more);
    BoundsAre(s, p, n, e, Finite(n), e);
  }
}
