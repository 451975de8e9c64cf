// How regexes are written: the characters and character classes of the regex
// parser (src/regex.cpp), and the plainest text of a given tree.

module RegexText {
  import opened Bytes
  import opened Regex

  // The source is bytes; a character here is one of them.
  type ch = c: char | c as int < 256 witness 'a'
  type Text = seq<ch>

  const NUL: ch := 0 as char

  function Byte(c: ch): byte {
    c as int
  }

  predicate IsDigit(c: ch) {
    '0' <= c <= '9'
  }

  predicate IsUpper(c: ch) {
    'A' <= c <= 'Z'
  }

  predicate IsLower(c: ch) {
    'a' <= c <= 'z'
  }

  predicate IsAlpha(c: ch) {
    IsUpper(c) || IsLower(c)
  }

  predicate IsAlnum(c: ch) {
    IsAlpha(c) || IsDigit(c)
  }

  predicate IsOctal(c: ch) {
    '0' <= c <= '7'
  }

  predicate IsXDigit(c: ch) {
    IsDigit(c) || 'a' <= c <= 'f' || 'A' <= c <= 'F'
  }

  function XDigitValue(c: ch): (d: nat)
    requires IsXDigit(c)
    ensures d < 16
  {
    if c <= '9' then c as int - '0' as int
    else if c >= 'a' then c as int - 'a' as int + 10
    else c as int - 'A' as int + 10
  }

  // ---------- case folding --------------------------------------------------

  /** add_byte_ci: a byte, and its other case when case is ignored. */
  function Folded(b: byte, ci: bool): set<byte> {
    if ci && 'a' as int <= b <= 'z' as int then {b, b - 32}
    else if ci && 'A' as int <= b <= 'Z' as int then {b, b + 32}
    else {b}
  }

  function FoldedAll(bs: seq<byte>, ci: bool): set<byte> {
    if bs == [] then {} else FoldedAll(bs[..|bs| - 1], ci) + Folded(bs[|bs| - 1], ci)
  }

  // ---------- numbers -------------------------------------------------------

  function Digit(d: nat): (c: ch)
    requires d < 10
    ensures IsDigit(c) && XDigitValue(c) == d
  {
    ('0' as int + d) as char
  }

  function HexDigit(d: nat): (c: ch)
    requires d < 16
    ensures IsXDigit(c) && XDigitValue(c) == d
  {
    if d < 10 then Digit(d) else ('a' as int + d - 10) as char
  }

  function Decimal(n: nat): (s: Text)
    ensures s != [] && forall i :: 0 <= i < |s| ==> IsDigit(s[i])
  {
    if n < 10 then [Digit(n)] else Decimal(n / 10) + [Digit(n % 10)]
  }

  function Numeral(s: Text, base: nat): nat
    requires forall i :: 0 <= i < |s| ==> IsXDigit(s[i])
  {
    if s == [] then 0 else Numeral(s[..|s| - 1], base) * base + XDigitValue(s[|s| - 1])
  }

  lemma {:induction false} DecimalValue(n: nat)
    ensures Numeral(Decimal(n), 10) == n
  {
    if n >= 10 {
      DecimalValue(n / 10);
      assert Decimal(n)[..|Decimal(n)| - 1] == Decimal(n / 10);
    } else {
      assert Decimal(n)[..0] == [];
    }
  }

  // ---------- the text of a tree --------------------------------------------

  function Hex(b: byte): (s: Text)
    ensures |s| == 4
  {
    ['\\', 'x', HexDigit(b / 16), HexDigit(b % 16)]
  }

  function HexAll(bs: seq<byte>): Text {
    if bs == [] then [] else Hex(bs[0]) + HexAll(bs[1..])
  }

  // The bytes below n that are in cls, in order.
  function Members(cls: set<byte>, n: nat): (bs: seq<byte>)
    requires n <= 256
    ensures forall b :: b in bs <==> b in cls && b < n
  {
    if n == 0 then [] else
      var bs := Members(cls, n - 1);
      if n - 1 in cls then bs + [n - 1] else bs
  }

  const ALL: set<byte> := set b: byte | true

  // The empty class is written as the complement of all bytes: [] would start a class with a literal bracket.
  function ShowClass(cls: set<byte>): Text {
    if cls == {} then ['[', '^'] + (HexAll(Members(ALL, 256)) + [']'])
    else ['['] + (HexAll(Members(cls, 256)) + [']'])
  }

  function Group(n: Node): Text
    decreases n, 1
  {
    ['('] + (Show(n) + [')'])
  }

  /** Every operand in parentheses. Anchors and the r/s marker have no text inside a regex. */
  function Show(n: Node): Text
    decreases n, 0
  {
    match n
    case Class(cls) => ShowClass(cls)
    case Concat(a, b) => Group(a) + Group(b)
    case Alt(a, b) => Group(a) + (['|'] + Group(b))
    case Star(a) => Group(a) + ['*']
    case Plus(a) => Group(a) + ['+']
    case Question(a) => Group(a) + ['?']
    case Repeat(a, lo, hi) => Group(a) + ShowBounds(lo, hi)
    case _ => []
  }

  function ShowBounds(lo: nat, hi: Bound): Text {
    match hi
    case Finite(m) => ['{'] + (Decimal(lo) + ([','] + (Decimal(m) + ['}'])))
    case Unbounded => ['{'] + (Decimal(lo) + [',', '}'])
  }

  function ShowTop(bol: bool, n: Node, eol: bool): Text {
    (if bol then ['^'] else []) + (Show(n) + if eol then ['$'] else [])
  }

  /** The tree read back when case is ignored. */
  function Fold(n: Node, ci: bool): Node {
    match n
    case Class(cls) => Class(FoldedAll(Members(cls, 256), ci))
    case Concat(a, b) => Concat(Fold(a, ci), Fold(b, ci))
    case Alt(a, b) => Alt(Fold(a, ci), Fold(b, ci))
    case Star(a) => Star(Fold(a, ci))
    case Plus(a) => Plus(Fold(a, ci))
    case Question(a) => Question(Fold(a, ci))
    case Repeat(a, lo, hi) => Repeat(Fold(a, ci), lo, hi)
    case _ => n
  }

  lemma {:induction false} FoldedAllIs(bs: seq<byte>, ci: bool)
    ensures forall x :: x in FoldedAll(bs, ci) <==> exists b :: b in bs && x in Folded(b, ci)
  {
    if bs != [] {
      var last := |bs| - 1;
      FoldedAllIs(bs[..last], ci);
      assert bs == bs[..last] + [bs[last]];
    }
  }

  /** Respecting case, every tree is its own folding; ignoring it, a class holds both cases of its letters. */
  lemma FoldClass(cls: set<byte>, ci: bool)
    ensures Fold(Class(cls), ci).cls == set b, x | b in cls && x in Folded(b, ci) :: x
    ensures !ci ==> Fold(Class(cls), ci) == Class(cls)
  {
    FoldedAllIs(Members(cls, 256), ci);
  }

  lemma {:induction false} FoldRespectingCase(n: Node)
    ensures Fold(n, false) == n
  {
    match n
    case Class(cls) => FoldClass(cls, false);
    case Concat(a, b) => FoldRespectingCase(a); FoldRespectingCase(b);
    case Alt(a, b) => FoldRespectingCase(a); FoldRespectingCase(b);
    case Star(a) => FoldRespectingCase(a);
    case Plus(a) => FoldRespectingCase(a);
    case Question(a) => FoldRespectingCase(a);
    case Repeat(a, _, _) => FoldRespectingCase(a);
    case _ =>
  }
}
