// The recursive-descent parser of src/regex.cpp, with macro expansion. It
// ends on every source and macro table, and succeeds with a tree exactly when
// the grammar derives that tree.

module RegexParser {
  import opened Wrappers
  import opened Bytes
  import opened Regex
  import opened RegexText
  import opened RegexAtoms
  import opened RegexGrammar

  class Parser {
    const src: Text
    const defs: map<Text, Text>
    const ci: bool
    var pos: nat
    var expanding: set<Text>
    var ok: bool             // no error reported so far

    predicate Valid()
      reads this
    {
      pos <= |src| && expanding <= defs.Keys
    }

    constructor (src: Text, defs: map<Text, Text>, ci: bool, expanding: set<Text>)
      requires expanding <= defs.Keys
      ensures this.src == src && this.defs == defs && this.ci == ci
      ensures Valid() && pos == 0 && this.expanding == expanding && ok
    {
      this.src, this.defs, this.ci := src, defs, ci;
      pos, this.expanding, ok := 0, expanding, true;
    }

    predicate AtEnd()
      reads this
    {
      pos >= |src|
    }

    function Peek(k: nat): (c: ch)
      reads this
      ensures c == CharAt(src, pos + k)
    {
      if pos + k < |src| then src[pos + k] else NUL
    }

    method Advance() returns (c: ch)
      requires Valid()
      modifies `pos
      ensures Valid() && c == old(Peek(0))
      ensures pos == if old(pos) < |src| then old(pos) + 1 else old(pos)
    {
      c := Peek(0);
      if pos < |src| {
        pos := pos + 1;
      }
    }

    // ---------- atoms -------------------------------------------------------

    method ReadOctal() returns (v: nat)
      requires Valid()
      modifies `pos
      ensures Valid() && pos == RunEnd(IsOctal, src, old(pos), old(pos) + 3) && v == Numeral(src[old(pos)..pos], 8)
    {
      v := 0;
      var i := 0;
      while i < 3 && IsDigit(Peek(0)) && IsOctal(Peek(0))
        invariant Valid() && i <= 3 && pos == old(pos) + i
        invariant RunEnd(IsOctal, src, pos, old(pos) + 3) == RunEnd(IsOctal, src, old(pos), old(pos) + 3)
        invariant (forall k :: old(pos) <= k < pos ==> IsOctal(src[k])) && v == Numeral(src[old(pos)..pos], 8)
      {
        NumeralNext(src, old(pos), pos, 8);
        var c := Advance();
        v := v * 8 + XDigitValue(c);
        i := i + 1;
      }
    }

    method ReadHex() returns (v: nat)
      requires Valid()
      modifies `pos
      ensures Valid() && pos == RunEnd(IsXDigit, src, old(pos), old(pos) + 2) && v == Numeral(src[old(pos)..pos], 16)
    {
      v := 0;
      var n := 0;
      while n < 2 && IsXDigit(Peek(0))
        invariant Valid() && n <= 2 && pos == old(pos) + n
        invariant RunEnd(IsXDigit, src, pos, old(pos) + 2) == RunEnd(IsXDigit, src, old(pos), old(pos) + 2)
        invariant (forall k :: old(pos) <= k < pos ==> IsXDigit(src[k])) && v == Numeral(src[old(pos)..pos], 16)
      {
        NumeralNext(src, old(pos), pos, 16);
        var h := Advance();
        v := v * 16 + XDigitValue(h);
        n := n + 1;
      }
    }

    // After a backslash: a byte.
    method ReadEscape() returns (b: byte)
      requires Valid() && !AtEnd()
      modifies `pos
      ensures Valid() && (b, pos) == EscapeAt(src, old(pos))
    {
      var _ := Advance();
      var c := Peek(0);
      if c == NUL { return 0; }
      if IsOctal(c) {
        var v := ReadOctal();
        return v % 256;
      }
      var _ := Advance();
      if c == 'x' {
        var v := ReadHex();
        return v % 256;
      }
      b := Escaped(c);
    }

    method ReadClassByte() returns (b: byte)
      requires Valid() && !AtEnd()
      modifies `pos
      ensures Valid() && (b, pos) == ClassByteAt(src, old(pos))
    {
      if Peek(0) == '\\' {
        b := ReadEscape();
      } else {
        var c := Advance();
        b := Byte(c);
      }
    }

    // Up to 16 letters.
    method PosixName() returns (name: Text)
      requires Valid()
      modifies `pos
      ensures Valid() && pos == RunEnd(IsAlpha, src, old(pos), old(pos) + 16) && name == src[old(pos)..pos]
    {
      name := [];
      while !AtEnd() && Peek(0) != ':' && Peek(0) != ']' && |name| < 16
        invariant Valid() && pos == old(pos) + |name| && |name| <= 16 && name == src[old(pos)..pos]
        invariant RunEnd(IsAlpha, src, pos, old(pos) + 16) == RunEnd(IsAlpha, src, old(pos), old(pos) + 16)
        decreases |src| - pos
      {
        if !IsAlpha(Peek(0)) { break; }
        var c := Advance();
        name := name + [c];
      }
    }

    // [:name:] inside a class; an unknown name is left to be read as literal characters.
    method TryPosixClass(s: set<byte>) returns (taken: bool, s': set<byte>)
      requires Valid() && Peek(0) == '[' && Peek(1) == ':'
      modifies `pos
      ensures Valid() && match PosixAt(src, old(pos), ci)
                         case None => !taken && pos == old(pos) && s' == s
                         case Some(x) => taken && pos == x.1 && s' == s + x.0
    {
      var save := pos;
      var name := PosixBracket();
      var bytes := if name == [] then None else PosixClass(name, ci);
      taken := bytes.Some?;
      if taken { s' := s + bytes.value; } else { pos, s' := save, s; }
    }

    // The name in [:name:], or nothing if the brackets are not closed; an empty name is no class either.
    method PosixBracket() returns (name: Text)
      requires Valid() && Peek(0) == '[' && Peek(1) == ':'
      modifies `pos
      ensures Valid() && var e := RunEnd(IsAlpha, src, old(pos) + 2, old(pos) + 18);
              if CharAt(src, e) == ':' && CharAt(src, e + 1) == ']' then name == src[old(pos) + 2..e] && pos == e + 2
                else name == []
    {
      var _ := Advance();
      var _ := Advance();
      name := PosixName();
      if Peek(0) != ':' || Peek(1) != ']' { return []; }
      var _ := Advance();
      var _ := Advance();
    }

    // add_range_ci.
    method AddRange(s: set<byte>, a: byte, b: byte) returns (s': set<byte>)
      ensures s' == s + RangeOf(a, b, ci)
    {
      var lo, hi := if a <= b then a else b, if a <= b then b else a;
      s' := s;
      for x := lo to hi + 1
        invariant s' == s + set z, y | z in ALL && lo <= z < x && y in Folded(z, ci) :: y
      {
        s' := s' + Folded(x, ci);
      }
    }

    // A byte or a range of bytes.
    method ClassElement(s: set<byte>) returns (s': set<byte>)
      requires Valid() && !AtEnd()
      modifies `pos
      ensures Valid() && s' == s + ElementAt(src, old(pos), ci).0 && pos == ElementAt(src, old(pos), ci).1
    {
      var a := ReadClassByte();
      if Peek(0) == '-' && Peek(1) != ']' && Peek(1) != NUL {
        var _ := Advance();
        var b := ReadClassByte();
        s' := AddRange(s, a, b);
      } else {
        s' := s + Folded(a, ci);
      }
    }

    method NextElement(s: set<byte>) returns (s': set<byte>)
      requires Valid() && !AtEnd()
      modifies `pos
      ensures Valid() && s' == s + NextAt(src, old(pos), ci).0 && pos == NextAt(src, old(pos), ci).1
    {
      if Peek(0) == '[' && Peek(1) == ':' {
        var taken;
        taken, s' := TryPosixClass(s);
        if taken { return; }
      }
      s' := ClassElement(s);
    }

    method ClassElements() returns (s: set<byte>)
      requires Valid()
      modifies `pos
      ensures Valid() && (s, pos) == ElementsAt(src, old(pos), true, ci)
    {
      s := {};
      var first := true;
      ghost var all := ElementsAt(src, pos, true, ci);
      while !AtEnd() && (first || Peek(0) != ']')
        invariant Valid()
        invariant all.0 == s + ElementsAt(src, pos, first, ci).0 && all.1 == ElementsAt(src, pos, first, ci).1
        decreases |src| - pos
      {
        first := false;
        s := NextElement(s);
      }
    }

    method ParseClass() returns (n: Node)
      requires Valid() && !AtEnd()
      modifies `pos, `ok
      ensures Valid() && var b := BracketAt(src, old(pos), ci);
              n == Class(b.cls) && pos == b.end && ok == (old(ok) && b.closed)
    {
      var _ := Advance();
      var neg := Peek(0) == '^';
      if neg { var _ := Advance(); }
      var s := ClassElements();
      n := CloseClass(neg, s);
    }

    // The closing bracket.
    method CloseClass(neg: bool, s: set<byte>) returns (n: Node)
      requires Valid()
      modifies `pos, `ok
      ensures Valid() && var b := ClosedAt(src, old(pos), neg, s);
              n == Class(b.cls) && pos == b.end && ok == (old(ok) && b.closed)
    {
      if Peek(0) != ']' {
        ok := false;
        return Class(s);
      }
      var _ := Advance();
      n := Class(if neg then ALL - s else s);
    }

    method QuotedBytes() returns (acc: Option<Node>)
      requires Valid()
      modifies `pos
      ensures Valid() && var (bs, e) := QuotedAt(src, old(pos)); acc == Literal(bs, ci) && pos == e
    {
      acc := None;
      ghost var bs: seq<byte>, all := [], QuotedAt(src, pos);
      while !AtEnd() && Peek(0) != '"'
        invariant Valid() && acc == Literal(bs, ci)
        invariant all.0 == bs + QuotedAt(src, pos).0 && all.1 == QuotedAt(src, pos).1
        decreases |src| - pos
      {
        ghost var rest := QuotedAt(src, ClassByteAt(src, pos).1).0;
        var b;
        if Peek(0) == '\\' {
          b := ReadEscape();
        } else {
          var c := Advance();
          b := Byte(c);
        }
        assert bs + ([b] + rest) == (bs + [b]) + rest;
        LiteralSnoc(bs, b, ci);
        acc := Some(ConcatOf(acc, Class(Folded(b, ci))));
        bs := bs + [b];
      }
      assert bs + [] == bs;
    }

    // The atom at p was read as n.
    ghost predicate Took(p: nat, was: bool, n: Node)
      reads this
    {
      && Valid() && AtomAt(src, p, ci).Some?
      && var a := AtomAt(src, p, ci).value; n == a.n && pos == a.end && ok == (was && a.ok)
    }

    method ParseQuoted() returns (n: Node)
      requires Valid() && Peek(0) == '"'
      modifies `pos, `ok
      ensures Took(old(pos), old(ok), n)
    {
      var _ := Advance();
      var acc := QuotedBytes();
      if Peek(0) != '"' {
        ok := false;
      } else {
        var _ := Advance();
      }
      n := OrEmpty(acc);
    }

    // The cases of parse_primary that do not recurse.
    method ParseAtom() returns (n: Node)
      requires Valid() && Peek(0) !in ['(', '{', ')', '|', '$', NUL]
      modifies `pos, `ok
      ensures Took(old(pos), old(ok), n) && pos > old(pos)
    {
      var c := Peek(0);
      if c == '[' {
        n := ParseClass();
      } else if c == '"' {
        n := ParseQuoted();
      } else if c == '.' {
        var _ := Advance();
        n := Class(ALL - {NEWLINE});
      } else if c == '\\' {
        var b := ReadEscape();
        n := Class(Folded(b, ci));
      } else {
        var _ := Advance();
        n := Class(Folded(Byte(c), ci));
      }
    }

    // ---------- bounds ------------------------------------------------------

    method ReadNumber() returns (v: nat, any: bool)
      requires Valid()
      modifies `pos
      ensures Valid() && (v, pos) == NumberAt(src, old(pos)) && any == IsDigit(old(Peek(0)))
    {
      v, any := 0, false;
      while IsDigit(Peek(0))
        invariant Valid() && pos >= old(pos) && (any <==> pos > old(pos))
        invariant RunEnd(IsDigit, src, pos, |src|) == RunEnd(IsDigit, src, old(pos), |src|)
        invariant (forall k :: old(pos) <= k < pos ==> IsDigit(src[k])) && v == Numeral(src[old(pos)..pos], 10)
        decreases |src| - pos
      {
        NumeralNext(src, old(pos), pos, 10);
        var c := Advance();
        v := v * 10 + XDigitValue(c);
        any := true;
      }
    }

    // Bounds after p; anything else is left for the next factor.
    method ParseRepeat(p: Node) returns (n: Node)
      requires Valid() && Peek(0) == '{'
      modifies `pos
      ensures Valid() && match BoundsAt(src, old(pos))
                         case None => n == p && pos == old(pos)
                         case Some(b) => n == Repeat(p, b.lo, b.hi) && pos == b.end
    {
      var save := pos;
      var _ := Advance();
      var lo, any := ReadNumber();
      if !any { pos := save; return p; }
      var hi := UpperBound(lo);
      if Peek(0) != '}' { pos := save; return p; }
      var _ := Advance();
      n := Repeat(p, lo, hi);
    }

    method UpperBound(lo: nat) returns (hi: Bound)
      requires Valid()
      modifies `pos
      ensures Valid() && (hi, pos) == UpperAt(src, old(pos), lo)
    {
      hi := Finite(lo);
      if Peek(0) == ',' {
        var _ := Advance();
        if IsDigit(Peek(0)) {
          var m, _ := ReadNumber();
          hi := Finite(m);
        } else {
          hi := Unbounded;
        }
      }
    }

    // ---------- the grammar -------------------------------------------------

    function Env(): Env {
      RegexGrammar.Env(defs, ci)
    }

    method ParseAlt() returns (r: Node)
      requires Valid()
      modifies `pos, `ok, `expanding
      ensures Valid() && expanding == old(expanding) && pos >= old(pos) && (ok ==> old(ok))
      ensures ok ==> Alternation(src, Env(), expanding, old(pos), pos, r)
      ensures forall q, n :: Alternation(src, Env(), expanding, old(pos), q, n) ==> ok == old(ok) && pos == q && r == n
      decreases |defs.Keys - expanding|, |src| - pos, 5
    {
      r := ParseConcat();
      while Peek(0) == '|'
        invariant Valid() && expanding == old(expanding) && pos >= old(pos) && (ok ==> old(ok))
        invariant ok ==> forall q, n :: Alternatives(src, Env(), expanding, pos, q, r, n) ==>
                  Alternation(src, Env(), expanding, old(pos), q, n)
        invariant forall q, n :: Alternation(src, Env(), expanding, old(pos), q, n) ==>
                    ok == old(ok) && Alternatives(src, Env(), expanding, pos, q, r, n)
        decreases |src| - pos
      {
        r := ParseOther(r);
      }
    }

    // A bar and the alternative after it.
    method ParseOther(acc: Node) returns (r: Node)
      requires Valid() && Peek(0) == '|'
      modifies `pos, `ok, `expanding
      ensures Valid() && expanding == old(expanding) && pos > old(pos) && (ok ==> old(ok))
      ensures ok ==> forall q, n :: Alternatives(src, Env(), expanding, pos, q, r, n) ==>
              Alternatives(src, Env(), expanding, old(pos), q, acc, n)
      ensures forall q, n :: Alternatives(src, Env(), expanding, old(pos), q, acc, n) ==>
                ok == old(ok) && Alternatives(src, Env(), expanding, pos, q, r, n)
      decreases |defs.Keys - expanding|, |src| - pos, 4
    {
      var _ := Advance();
      var b := ParseConcat();
      r := Alt(acc, b);
    }

    method ParseConcat() returns (r: Node)
      requires Valid()
      modifies `pos, `ok, `expanding
      ensures Valid() && expanding == old(expanding) && pos >= old(pos) && (ok ==> old(ok))
      ensures ok ==> Concatenation(src, Env(), expanding, old(pos), pos, r)
      ensures forall q, n :: Concatenation(src, Env(), expanding, old(pos), q, n) ==>
              ok == old(ok) && pos == q && r == n
      decreases |defs.Keys - expanding|, |src| - pos, 3
    {
      var acc: Option<Node> := None;
      while !AtEnd() && !IsTerminator(Peek(0))
        invariant Valid() && expanding == old(expanding) && pos >= old(pos) && (ok ==> old(ok))
        invariant ok ==> forall q, res :: Factors(src, Env(), expanding, pos, q, acc, res) ==>
                  Factors(src, Env(), expanding, old(pos), q, None, res)
        invariant forall q, res :: Factors(src, Env(), expanding, old(pos), q, None, res) ==>
                    ok == old(ok) && Factors(src, Env(), expanding, pos, q, acc, res)
        decreases |src| - pos
      {
        ghost var here := pos;
        var p := ParsePostfix();
        if p.None? {
          assert forall q, n :: !Factor(src, Env(), expanding, here, q, n);
          assert forall q, res :: !Factors(src, Env(), expanding, here, q, acc, res);
          break;
        }
        acc := Some(ConcatOf(acc, p.value));
      }
      r := OrEmpty(acc);
    }

    method ParsePostfix() returns (r: Option<Node>)
      requires Valid()
      modifies `pos, `ok, `expanding
      ensures Valid() && expanding == old(expanding) && pos >= old(pos) && (ok ==> old(ok))
              && (r.Some? ==> pos > old(pos))
      ensures r.None? && !AtTerminator(src, old(pos)) ==> !ok
      ensures ok && r.Some? ==> Factor(src, Env(), expanding, old(pos), pos, r.value)
      ensures forall q, n :: Factor(src, Env(), expanding, old(pos), q, n) ==> ok == old(ok) && pos == q && r == Some(n)
      decreases |defs.Keys - expanding|, |src| - pos, 2
    {
      r := ParsePrimary();
      if r.None? { return; }
      var n := ParseOperator(r.value);
      r := Some(n);
    }

    method ParseOperator(a: Node) returns (n: Node)
      requires Valid()
      modifies `pos
      ensures Valid() && (n, pos) == OperatorAt(src, old(pos), a) && pos >= old(pos)
    {
      var c := Peek(0);
      if c == '*' {
        var _ := Advance();
        n := Star(a);
      } else if c == '+' {
        var _ := Advance();
        n := Plus(a);
      } else if c == '?' {
        var _ := Advance();
        n := Question(a);
      } else if c == '{' && IsDigit(Peek(1)) {
        n := ParseRepeat(a);
      } else {
        n := a;
      }
    }

    /** A primary that is not null consumes a byte; a group that is not closed is an error. */
    method ParsePrimary() returns (r: Option<Node>)
      requires Valid()
      modifies `pos, `ok, `expanding
      ensures Valid() && expanding == old(expanding) && pos >= old(pos) && (ok ==> old(ok))
              && (r.Some? ==> pos > old(pos))
      ensures r.None? && !AtTerminator(src, old(pos)) ==> !ok
      ensures ok && r.Some? ==> Primary(src, Env(), expanding, old(pos), pos, r.value)
      ensures forall q, n :: Primary(src, Env(), expanding, old(pos), q, n) ==>
              ok == old(ok) && pos == q && r == Some(n)
      decreases |defs.Keys - expanding|, |src| - pos, 1
    {
      var c := Peek(0);
      if c in [')', '|', '$', NUL] { return None; }
      if c == '(' {
        r := ParseGroup();
      } else if c == '{' {
        var n := ParseMacro();
        r := Some(n);
      } else {
        var n := ParseAtom();
        r := Some(n);
      }
    }

    method ParseGroup() returns (r: Option<Node>)
      requires Valid() && Peek(0) == '('
      modifies `pos, `ok, `expanding
      ensures Valid() && expanding == old(expanding) && pos > old(pos) && (ok ==> old(ok)) && (r.None? ==> !ok)
      ensures ok ==> Primary(src, Env(), expanding, old(pos), pos, r.value)
      ensures forall q, n :: Primary(src, Env(), expanding, old(pos), q, n) ==>
              ok == old(ok) && pos == q && r == Some(n)
      decreases |defs.Keys - expanding|, |src| - pos, 0
    {
      var _ := Advance();
      var inner := ParseAlt();
      if Peek(0) != ')' {
        ok := false;
        return None;
      }
      var _ := Advance();
      r := Some(inner);
    }

    // The name of a macro, or nothing and the source as before.
    method MacroName() returns (name: Text)
      requires Valid() && Peek(0) == '{'
      modifies `pos
      ensures Valid() && match NameAt(src, old(pos))
                         case None => name == [] && pos == old(pos)
                         case Some((x, e)) => name == x != [] && pos == e
    {
      var save := pos;
      var _ := Advance();
      name := [];
      while !AtEnd() && IsNameChar(Peek(0))
        invariant Valid() && pos == save + 1 + |name| && name == src[save + 1..pos]
        invariant RunEnd(IsNameChar, src, pos, |src|) == RunEnd(IsNameChar, src, save + 1, |src|)
        decreases |src| - pos
      {
        var c := Advance();
        name := name + [c];
      }
      if name == [] || Peek(0) != '}' {
        pos := save;
        return [];
      }
      var _ := Advance();
    }

    /** {name} reads as its definition; a name that is unknown, or being expanded, is an error. */
    method ParseMacro() returns (n: Node)
      requires Valid() && Peek(0) == '{'
      modifies `pos, `ok, `expanding
      ensures Valid() && expanding == old(expanding) && pos > old(pos) && (ok ==> old(ok))
      ensures ok ==> Macro(src, Env(), expanding, old(pos), pos, n)
      ensures forall q, n' :: Macro(src, Env(), expanding, old(pos), q, n') ==> ok == old(ok) && pos == q && n == n'
      decreases |defs.Keys - expanding|, |src| - pos, 0
    {
      var name := MacroName();
      if name == [] {
        var _ := Advance();
        return Class(Folded('{' as int, ci));
      }
      if name in expanding || name !in defs { ok := false; return Empty; }
      n := Expand(name);
    }

    // The definition is parsed by a parser of its own, which may not expand the name again.
    method Expand(name: Text) returns (n: Node)
      requires Valid() && name in defs && name !in expanding
      modifies `ok, `expanding
      ensures Valid() && expanding == old(expanding) && (ok ==> old(ok))
      ensures ok ==> Expansion(Env(), expanding, name, n)
      ensures forall n' :: Expansion(Env(), expanding, name, n') ==> ok == old(ok) && n == n'
      decreases |defs.Keys - expanding|, 0, 0
    {
      FewerMacros(defs.Keys, expanding, name);
      ghost var was := expanding;
      expanding := expanding + {name};
      var sub := new Parser(Expanded(Env(), name), defs, ci, expanding);
      assert sub.Env() == Env() && sub.expanding == was + {name};
      n := sub.ParseAlt();
      assert forall t: nat, n' :: Alternation(sub.src, sub.Env(), sub.expanding, 0, t, n') ==> sub.ok && n == n';
      assert forall t: nat, n' :: Alternation(Expanded(Env(), name), Env(), was + {name}, 0, t, n') ==>
        sub.ok && n == n';
      ok := ok && sub.ok;
      expanding := expanding - {name};
      assert expanding == was;
    }

    /** parse_top: succeeds with exactly the tree that the grammar derives for the whole source. */
    method ParseTop() returns (r: Option<Node>)
      requires Valid() && pos == 0 && expanding == {}
      modifies `pos, `ok, `expanding
      ensures (ok ==> old(ok)) && (r.None? ==> !ok)
      ensures ok ==> Whole(src, Env(), r.value)
      ensures forall root :: Whole(src, Env(), root) ==> ok == old(ok) && r == Some(root)
    {
      var bol, eol := Peek(0) == '^', false;
      if bol { var _ := Advance(); }
      var body := ParseAlt();
      if Peek(0) == '$' {
        eol := true;
        var _ := Advance();
      }
      if !AtEnd() {
        ok := false;
        return None;
      }
      r := Some(Anchored(bol, body, eol));
    }
  }
}
