// What the regex parser of src/regex.cpp reads in one piece: characters,
// escapes, classes, quoted strings, postfix operators and macro names.

module RegexAtoms {
  import opened Wrappers
  import opened Bytes
  import opened Regex
  import opened RegexText

  // concat: a missing side is dropped.
  function ConcatOf(a: Option<Node>, b: Node): Node {
    match a
    case None => b
    case Some(x) => Concat(x, b)
  }

  function OrEmpty(n: Option<Node>): Node {
    match n
    case None => Empty
    case Some(x) => x
  }

  // The bytes of a POSIX class, or none if there is no such class.
  function PosixClass(name: Text, ci: bool): Option<set<byte>> {
    if name == "alpha" then Some(set b | b in ALL && IsAlpha(b as char))
    else if name == "upper" then Some(set b | b in ALL && (IsUpper(b as char) || (ci && IsLower(b as char))))
    else if name == "lower" then Some(set b | b in ALL && (IsLower(b as char) || (ci && IsUpper(b as char))))
    else if name == "digit" then Some(set b | b in ALL && IsDigit(b as char))
    else if name == "xdigit" then Some(set b | b in ALL && IsXDigit(b as char))
    else if name == "alnum" then Some(set b | b in ALL && IsAlnum(b as char))
    else if name == "space" then Some(set b | b in ALL && (b == 0x20 || 0x09 <= b <= 0x0d))
    else if name == "blank" then Some(set b | b in ALL && (b == 0x20 || b == 0x09))
    else if name == "cntrl" then Some(set b | b in ALL && (b <= 0x1f || b == 0x7f))
    else if name == "print" then Some(set b | b in ALL && 0x20 <= b <= 0x7e)
    else if name == "graph" then Some(set b | b in ALL && 0x21 <= b <= 0x7e)
    else if name == "punct" then Some(set b | b in ALL && 0x21 <= b <= 0x7e && !IsAlnum(b as char))
    else None
  }

  // ---------- atoms ---------------------------------------------------------

  // peek.
  function CharAt(s: Text, k: nat): ch {
    if k < |s| then s[k] else NUL
  }

  // Where the run of characters from i that satisfy p ends, at the latest at limit.
  function RunEnd(p: ch -> bool, s: Text, i: nat, limit: nat): (j: nat)
    requires i <= |s| && i <= limit
    ensures i <= j <= limit && j <= |s| && forall k :: i <= k < j ==> p(s[k])
    decreases limit - i
  {
    if i == limit || i == |s| || !p(s[i]) then i else RunEnd(p, s, i + 1, limit)
  }

  function Escaped(c: ch): byte {
    match c
    case 'n' => 10
    case 't' => 9
    case 'r' => 13
    case 'f' => 12
    case 'v' => 11
    case 'a' => 7
    case 'b' => 8
    case _ => Byte(c)
  }

  /** The byte that the escape at p stands for, and where it ends: up to three octal digits, x and up to two hex digits,
      or one character. */
  function EscapeAt(s: Text, p: nat): (r: (byte, nat))
    requires p < |s|
    ensures p < r.1 <= |s|
  {
    var c := CharAt(s, p + 1);
    if c == NUL then (0, p + 1)
    else if IsOctal(c) then
      var e := RunEnd(IsOctal, s, p + 1, p + 4);
      (Numeral(s[p + 1..e], 8) % 256, e)
    else if c == 'x' then
      var e := RunEnd(IsXDigit, s, p + 2, p + 4);
      (Numeral(s[p + 2..e], 16) % 256, e)
    else (Escaped(c), p + 2)
  }

  function ClassByteAt(s: Text, p: nat): (r: (byte, nat))
    requires p < |s|
    ensures p < r.1 <= |s|
  {
    if s[p] == '\\' then EscapeAt(s, p) else (Byte(s[p]), p + 1)
  }

  // The bytes between a and b, in either order.
  function RangeOf(a: byte, b: byte, ci: bool): set<byte> {
    set x, y | x in ALL && (a <= x <= b || b <= x <= a) && y in Folded(x, ci) :: y
  }

  function ElementAt(s: Text, p: nat, ci: bool): (r: (set<byte>, nat))
    requires p < |s|
    ensures p < r.1 <= |s|
  {
    var (a, e) := ClassByteAt(s, p);
    if CharAt(s, e) == '-' && CharAt(s, e + 1) != ']' && CharAt(s, e + 1) != NUL then
      var (b, e') := ClassByteAt(s, e + 1);
      (RangeOf(a, b, ci), e')
    else (Folded(a, ci), e)
  }

  // [:name:], if the name is known.
  function PosixAt(s: Text, p: nat, ci: bool): (r: Option<(set<byte>, nat)>)
    requires CharAt(s, p) == '[' && CharAt(s, p + 1) == ':'
    ensures r.Some? ==> p < r.value.1 <= |s|
  {
    var e := RunEnd(IsAlpha, s, p + 2, p + 18);
    if CharAt(s, e) != ':' || CharAt(s, e + 1) != ']' then None else
      match PosixClass(s[p + 2..e], ci)
      case None => None
      case Some(bytes) => Some((bytes, e + 2))
  }

  function NextAt(s: Text, p: nat, ci: bool): (r: (set<byte>, nat))
    requires p < |s|
    ensures p < r.1 <= |s|
  {
    if CharAt(s, p) == '[' && CharAt(s, p + 1) == ':' && PosixAt(s, p, ci).Some? then PosixAt(s, p, ci).value
      else ElementAt(s, p, ci)
  }

  // The elements up to the closing bracket; a bracket that comes first is an element.
  function ElementsAt(s: Text, p: nat, first: bool, ci: bool): (r: (set<byte>, nat))
    requires p <= |s|
    ensures p <= r.1 <= |s|
    decreases |s| - p
  {
    if p == |s| || (!first && s[p] == ']') then ({}, p) else
      var (x, e) := NextAt(s, p, ci);
      var (rest, e') := ElementsAt(s, e, false, ci);
      (x + rest, e')
  }

  datatype Bracket = Bracket(cls: set<byte>, closed: bool, end: nat)

  // The end of a bracket expression with the elements x.
  function ClosedAt(s: Text, e: nat, neg: bool, x: set<byte>): Bracket {
    if CharAt(s, e) != ']' then Bracket(x, false, e) else Bracket(if neg then ALL - x else x, true, e + 1)
  }

  /** The bracket expression at p. One that is not closed is an error, and is not complemented. */
  function BracketAt(s: Text, p: nat, ci: bool): (r: Bracket)
    requires p < |s|
    ensures p < r.end <= |s|
  {
    var neg := CharAt(s, p + 1) == '^';
    var (x, e) := ElementsAt(s, if neg then p + 2 else p + 1, true, ci);
    ClosedAt(s, e, neg, x)
  }

  // The bytes up to the closing quote.
  function QuotedAt(s: Text, p: nat): (r: (seq<byte>, nat))
    requires p <= |s|
    ensures p <= r.1 <= |s|
    decreases |s| - p
  {
    if p == |s| || s[p] == '"' then ([], p) else
      var (b, e) := ClassByteAt(s, p);
      var (bs, e') := QuotedAt(s, e);
      ([b] + bs, e')
  }

  function Literal(bs: seq<byte>, ci: bool): Option<Node> {
    if bs == [] then None else Some(ConcatOf(Literal(bs[..|bs| - 1], ci), Class(Folded(bs[|bs| - 1], ci))))
  }

  datatype Atom = Atom(n: Node, end: nat, ok: bool)

  /** What stands alone at p: a class, a quoted string, a dot, an escape or a plain character. It is an error only if it
      is not closed. */
  function AtomAt(s: Text, p: nat, ci: bool): (r: Option<Atom>) {
    var c := CharAt(s, p);
    if c in ['(', '{', ')', '|', '$', NUL] then None
    else if c == '[' then
      var b := BracketAt(s, p, ci);
      Some(Atom(Class(b.cls), b.end, b.closed))
    else if c == '"' then
      var (bs, e) := QuotedAt(s, p + 1);
      Some(Atom(OrEmpty(Literal(bs, ci)), if CharAt(s, e) == '"' then e + 1 else e, CharAt(s, e) == '"'))
    else if c == '.' then Some(Atom(Class(ALL - {NEWLINE}), p + 1, true))
    else if c == '\\' then Some(Atom(Class(Folded(EscapeAt(s, p).0, ci)), EscapeAt(s, p).1, true))
    else Some(Atom(Class(Folded(Byte(c), ci)), p + 1, true))
  }

  lemma LiteralSnoc(bs: seq<byte>, b: byte, ci: bool)
    ensures Literal(bs + [b], ci) == Some(ConcatOf(Literal(bs, ci), Class(Folded(b, ci))))
  {
    assert (bs + [b])[..|bs|] == bs;
  }

  lemma {:induction false} LiteralPlain(bs: seq<byte>, ci: bool)
    ensures Plain(OrEmpty(Literal(bs, ci)))
  {
    if bs != [] {
      LiteralPlain(bs[..|bs| - 1], ci);
      assert Plain(Class(Folded(bs[|bs| - 1], ci)));
    }
  }

  lemma AtomPlain(s: Text, p: nat, ci: bool)
    ensures AtomAt(s, p, ci).Some? ==> Plain(AtomAt(s, p, ci).value.n)
  {
    if p < |s| { LiteralPlain(QuotedAt(s, p + 1).0, ci); }
  }

  // ---------- postfix operators ---------------------------------------------

  datatype Bounds = Bounds(lo: nat, hi: Bound, end: nat)

  function NumberAt(s: Text, p: nat): (r: (nat, nat))
    requires p <= |s|
    ensures p <= r.1 <= |s|
  {
    var e := RunEnd(IsDigit, s, p, |s|);
    (Numeral(s[p..e], 10), e)
  }

  function UpperAt(s: Text, p: nat, lo: nat): (r: (Bound, nat))
    requires p <= |s|
    ensures p <= r.1 <= |s|
  {
    if CharAt(s, p) != ',' then (Finite(lo), p)
    else if IsDigit(CharAt(s, p + 1)) then (Finite(NumberAt(s, p + 1).0), NumberAt(s, p + 1).1)
    else (Unbounded, p + 1)
  }

  /** {lo}, {lo,} or {lo,hi} at p. */
  function BoundsAt(s: Text, p: nat): (r: Option<Bounds>)
    requires CharAt(s, p) == '{'
    ensures r.Some? ==> p < r.value.end <= |s|
  {
    if !IsDigit(CharAt(s, p + 1)) then None else
      var (lo, e) := NumberAt(s, p + 1);
      var (hi, e') := UpperAt(s, e, lo);
      if CharAt(s, e') == '}' then Some(Bounds(lo, hi, e' + 1)) else None
  }

  /** What a postfix operator at p makes of a, and where it ends. */
  function OperatorAt(s: Text, p: nat, a: Node): (r: (Node, nat))
    ensures r.1 >= p && (p <= |s| ==> r.1 <= |s|)
  {
    var c := CharAt(s, p);
    if c == '*' then (Star(a), p + 1)
    else if c == '+' then (Plus(a), p + 1)
    else if c == '?' then (Question(a), p + 1)
    else if c == '{' && BoundsAt(s, p).Some? then
      var b := BoundsAt(s, p).value;
      (Repeat(a, b.lo, b.hi), b.end)
    else (a, p)
  }

  lemma OperatorPlain(s: Text, p: nat, a: Node)
    requires Plain(a)
    ensures Plain(OperatorAt(s, p, a).0)
  {
  }

  // One more digit.
  lemma NumeralNext(s: Text, i: nat, j: nat, base: nat)
    requires i <= j < |s| && forall k :: i <= k < j + 1 ==> IsXDigit(s[k])
    ensures Numeral(s[i..j + 1], base) == Numeral(s[i..j], base) * base + XDigitValue(s[j])
  {
    assert s[i..j + 1][..j - i] == s[i..j];
  }

  // ---------- names ---------------------------------------------------------

  predicate IsNameChar(c: ch) {
    IsAlnum(c) || c in ['_', '-']
  }

  // The macro name between braces, and where the reference ends; a brace that starts none stands for itself.
  function NameAt(s: Text, p: nat): (r: Option<(Text, nat)>)
    requires p < |s|
    ensures r.Some? ==> p < r.value.1 <= |s|
  {
    var e := RunEnd(IsNameChar, s, p + 1, |s|);
    if e == p + 1 || CharAt(s, e) != '}' then None else Some((s[p + 1..e], e + 1))
  }

  // is_concat_terminator.
  predicate IsTerminator(c: ch) {
    c == NUL || c == '|' || c == ')' || c == '$'
  }
}
