// The generated scanner at run time: the buffer and yytext of
// runtime/runtime.c.in, and the loop around each match (src/codegen.cpp).

module Runtime {
  import opened Bytes
  import opened ScanTables
  import opened Matching
  import opened Scanner
  import opened Reject
  import opened Runs

  lemma SliceOfRest(s: Word, i: nat, n: nat)
    requires i + n <= |s|
    ensures s[i..][..n] == s[i..i + n]
  {
  }

  lemma SplitRest(s: Word, i: nat, j: nat)
    requires i <= j <= |s|
    ensures s[i..] == s[i..j] + s[j..]
  {
  }

  class Lexer {
    const t: Tables
    ghost const g: Grammar

    var buf: array<byte>     // yyb_data, size + 2 bytes
    var size: nat            // yyb_size
    var pos: nat             // yyb_pos
    var end: nat             // yyb_end
    var atBol: bool          // yyb_at_bol
    var start: nat           // yy_start
    var text: int            // yytext, as an offset into buf; -1 is null
    var leng: nat            // yyleng
    var save: byte           // yy_text_save
    var active: bool         // yy_text_active

    /** The buffer is fully loaded; while yytext is active its terminating NUL stands in for the saved byte. */
    ghost predicate Valid()
      reads this, buf
    {
      && buf.Length == size + 2 && pos <= end <= size
      && -1 <= text
      && (Sealed() ==> text + leng < buf.Length && (text + leng < end ==> buf[text + leng] == 0))
    }

    predicate Sealed()
      reads this
    {
      active && text >= 0
    }

    // The buffer's contents with the sealed byte restored.
    ghost function Contents(): (s: Word)
      reads this, buf
      requires Valid()
      ensures |s| == end
    {
      if Sealed() && text + leng < end then buf[..end][text + leng := save] else buf[..end]
    }

    ghost function Remaining(): Word
      reads this, buf
      requires Valid()
    {
      Contents()[pos..]
    }

    // yytext with its length, as long as it is the token just matched.
    ghost predicate HasToken()
      reads this, buf
      requires Valid()
    {
      Sealed() && text + leng == pos
    }

    /** yy_scan_bytes: a fully loaded buffer holding the given bytes. */
    constructor (t: Tables, ghost g: Grammar, bytes: Word)
      ensures Valid() && this.t == t && this.g == g
      ensures Contents() == bytes && pos == 0 && atBol && start == 0 && !active && fresh(buf)
    {
      var b := new byte[|bytes| + 2](i => if 0 <= i < |bytes| then bytes[i] else 0);
      this.t, this.g, buf, size := t, g, b, |bytes|;
      pos, end, atBol, start := 0, |bytes|, true, 0;
      text, leng, save, active := -1, 0, 0, false;
      new;
      assert buf[..end] == bytes;
    }

    /** yy_text_seal. On a text that is already sealed it overwrites the saved byte with the NUL that stands in for it,
        so the contents survive exactly when that byte lay outside them or was NUL itself. */
    method TextSeal()
      requires Valid()
      modifies this, buf
      ensures Valid() && unchanged(`buf, `size, `pos, `end, `atBol, `start, `text, `leng, `active)
      ensures Contents() == old(Contents()) <==> old(Sealed() && text + leng < end ==> save == 0)
    {
      ghost var before := Contents();
      if active && text >= 0 {
        save := buf[text + leng];
        buf[text + leng] := 0;
      }
      assert Sealed() && text + leng < end ==> before[text + leng] == old(save) && Contents()[text + leng] == 0;
    }

    /** yy_text_unseal never changes the contents. */
    method TextUnseal()
      requires Valid()
      modifies this, buf
      ensures Valid() && unchanged(`buf, `size, `pos, `end, `atBol, `start, `text, `leng)
      ensures !Sealed() && Contents() == old(Contents()) == buf[..end]
    {
      if active && text >= 0 {
        buf[text + leng] := save;
        active := false;
      }
    }

    /** yy_buf_grow: at least `want` bytes of room, same contents. */
    method BufGrow(want: nat)
      requires Valid() && !Sealed()
      modifies this
      ensures Valid() && unchanged(`pos, `end, `atBol, `start, `text, `leng, `save, `active)
      ensures buf == old(buf) || fresh(buf)
      ensures size >= want && size >= old(size) && Contents() == old(Contents())
    {
      if size >= want { return; }
      var s := if size != 0 then size else 4096;
      while s < want
        invariant s >= size && s > 0
      {
        s := s * 2;
      }
      var old' := buf;
      var p := new byte[s + 2](i requires 0 <= i reads old' => if i < old'.Length then old'[i] else 0);
      buf, size := p, s;
      buf[end], buf[end + 1] := 0, 0;
      assert buf[..end] == old'[..end];
    }

    // unput's move: with nothing consumed yet, make room for one byte before the contents.
    method ShiftRight()
      requires Valid() && !Sealed() && pos == 0
      modifies this, buf
      ensures Valid() && !Sealed() && unchanged(`start)
      ensures pos == 1 && end == old(end) + 1 && buf[1..end] == old(buf[..end])
      ensures buf == old(buf) || fresh(buf)
    {
      BufGrow(end + 1);
      ghost var moved := buf[..end];
      forall i | 0 <= i < end { buf[i + 1] := buf[i]; }
      end := end + 1;
      pos := 1;
      assert forall i :: 0 <= i < |moved| ==> buf[i + 1] == moved[i];
      assert buf[1..end] == moved;
    }

    /** unput: the byte is what comes next, before everything that was still to come, even if the buffer must grow and
        shift. */
    method Unput(c: byte)
      requires Valid()
      modifies this, buf
      ensures Valid() && !Sealed() && unchanged(`start)
      ensures Remaining() == [c] + old(Remaining())
      ensures Contents()[..pos] == if old(pos) == 0 then [] else old(Contents())[..old(pos) - 1]
      ensures atBol == (c == NEWLINE)
    {
      TextUnseal();
      if pos == 0 { ShiftRight(); }
      PutBack(c);
    }

    // unput's last step, with a consumed byte to overwrite.
    method PutBack(c: byte)
      requires Valid() && !Sealed() && pos > 0
      modifies `pos, `atBol, buf
      ensures Valid() && !Sealed() && unchanged(`start)
      ensures Remaining() == [c] + old(Remaining())
      ensures Contents()[..pos] == old(Contents())[..old(pos) - 1]
      ensures atBol == (c == NEWLINE)
    {
      ghost var rest := Remaining();
      assert buf[pos..end] == rest;
      pos := pos - 1;
      buf[pos] := c;
      atBol := c == NEWLINE;
      assert buf[pos..end] == [c] + rest;
    }

    /** input: the next byte, or 0 at the end of the buffer. */
    method Input() returns (c: int)
      requires Valid()
      modifies this, buf
      ensures Valid() && !Sealed() && unchanged(`start, `atBol) && Contents() == old(Contents())
      ensures if old(Remaining()) == [] then c == 0 && Remaining() == []
              else [c] + Remaining() == old(Remaining())
    {
      TextUnseal();
      if pos >= end { return 0; }
      c := buf[pos];
      pos := pos + 1;
    }

    /** yyless(n): the token keeps its first n bytes and the others are to come again. */
    method Yyless(n: nat)
      requires Valid() && HasToken() && n <= leng
      modifies this, buf
      ensures Valid() && HasToken() && unchanged(`buf, `size, `end, `start, `text, `active)
      ensures leng == n && Contents() == old(Contents())
      ensures Remaining() == old(Contents()[text + n..text + leng]) + old(Remaining())
      ensures atBol == (n > 0 && Contents()[text + n - 1] == NEWLINE)
    {
      ghost var before, p := Contents(), pos;
      Restore();
      pos := pos - (leng - n);
      leng := n;
      Cover();
      atBol := n > 0 && buf[text + n - 1] == NEWLINE;
      SplitRest(before, pos, p);
    }

    // The saved byte goes back behind yytext.
    method Restore()
      requires Valid() && Sealed()
      modifies buf
      ensures buf[..end] == old(Contents())
    {
      buf[text + leng] := save;
    }

    // The terminating NUL goes behind yytext, and the byte it replaces is saved.
    method Cover()
      requires buf.Length == size + 2 && pos <= end <= size && active && 0 <= text && text + leng < buf.Length
      modifies `save, buf
      ensures Valid() && Contents() == old(buf[..end]) && save == old(buf[text + leng])
      ensures forall i :: 0 <= i < text + leng && i < end ==> buf[i] == Contents()[i]
    {
      save := buf[text + leng];
      buf[text + leng] := 0;
    }

    // ---------- one turn of yylex ------------------------------------------

    // Where the scanner stands.
    ghost function Where(): Here
      reads this, buf
      requires Valid()
    {
      Here(g, start, atBol, Remaining())
    }

    // The place where the turn began; an action that rejected may have changed yy_at_bol since.
    ghost predicate At(h: Here)
      reads this, buf
      requires Valid()
    {
      h.g == g && h.input == Remaining()
    }

    // yytext is the n bytes from pos, which are thereby consumed.
    method TakeToken(n: nat)
      requires Valid() && !Sealed() && pos + n <= end
      modifies this, buf
      ensures Valid() && HasToken() && unchanged(`buf, `end, `start)
      ensures Contents() == old(Contents()) && text == old(pos) && leng == n && pos == old(pos) + n
      ensures pos < end ==> save == Contents()[pos]
      ensures atBol == (n > 0 && Contents()[pos - 1] == NEWLINE)
    {
      text := pos;
      pos := pos + n;
      leng := n;
      active := true;
      Cover();
      atBol := n > 0 && buf[text + n - 1] == NEWLINE;
    }

    // yytext, as an action reads it.
    method TokenText() returns (w: Word)
      requires Valid() && HasToken() && pos <= end
      ensures w == Contents()[text..text + leng]
    {
      w := buf[text..text + leng];
    }

    // The end-of-buffer branch: an empty yytext.
    method AtEnd()
      requires Valid() && !Sealed() && pos == end
      modifies this
      ensures Valid() && unchanged(`buf, `pos, `end, `start, `atBol) && Contents() == old(Contents())
    {
      text, leng, save, active := pos, 0, 0, true;
    }

    // The default rule: copy one byte through.
    method EchoByte() returns (x: byte)
      requires Valid() && !Sealed() && pos < end
      modifies this
      ensures Valid() && !Sealed() && unchanged(`buf, `end, `start) && Contents() == old(Contents())
      ensures pos == old(pos) + 1 && x == Contents()[old(pos)] && atBol == (x == NEWLINE)
    {
      x := buf[pos];
      pos := pos + 1;
      atBol := x == NEWLINE;
    }

    // The match at pos, as a rule and the length of its token, with nothing consumed yet.
    method MatchHere() returns (rule: int, token: nat)
      requires Valid() && !Sealed() && pos < end && Implements(t, g) && start < |g.excl|
      ensures PickedAt(Where(), rule, token)
    {
      assert buf[pos..end] == Remaining();
      var len;
      rule, len, token := Match(t, buf, pos, end, start, atBol, g);
      if rule >= 0 {
        TokenFits(Where(), rule, len, token);
        assert Picked(Where(), rule, len, token);
      }
    }

    // The token of the rule picked at h.
    method TakePicked(rule: nat, token: nat, ghost h: Here) returns (e: Event)
      requires Valid() && !Sealed() && At(h) && token <= |h.input|
      modifies this, buf
      ensures Valid() && unchanged(`buf, `end, `start) && Contents() == old(Contents()) && pos == old(pos) + token
      ensures HasToken() && e == Token(rule, h.input[..token]) && Contents()[old(pos)..pos] == h.input[..token]
      ensures atBol == (token > 0 && h.input[token - 1] == NEWLINE)
    {
      SliceOfRest(Contents(), pos, token);
      TakeToken(token);
      var yytext := TokenText();
      e := Token(rule, yytext);
    }

    // The selected token, or the default rule's byte.
    method Consume(rule: int, token: nat) returns (e: Event)
      requires Valid() && !Sealed() && pos < end && PickedAt(Where(), rule, token)
      modifies this, buf
      ensures Valid() && unchanged(`buf, `end, `start) && Contents() == old(Contents())
      ensures old(pos) <= pos && Follows(old(Where()), e, Contents()[old(pos)..pos]) && atBol == BolAfter(old(atBol), e)
    {
      if rule < 0 {
        var x := EchoByte();
        e := Echo(x);
      } else {
        TokenFollows(Where(), rule, token);
        e := TakePicked(rule, token, Where());
      }
    }

    ghost function Now(): Place
      reads this
    {
      Place(pos, atBol)
    }

    /** One turn of the scanner's loop, default rule included: the event is what the rules call for at this place and
        leads to the next, and the buffer's contents never change. */
    method Next() returns (e: Event)
      requires Valid() && Implements(t, g) && start < |g.excl|
      modifies this, buf
      ensures Valid() && unchanged(`buf, `end, `start) && Contents() == old(Contents())
      ensures Steps(g, Contents(), start, old(Now()), e, Now())
    {
      ghost var h := Where();
      TextUnseal();
      assert Where() == h;
      if pos >= end {
        AtEnd();
        e := EndOfInput;
      } else {
        var rule, token := MatchHere();
        e := Consume(rule, token);
      }
    }

    // The run so far.
    ghost predicate Ran(contents: Word, from: Place, c0: nat, act: seq<Event> -> nat, log: seq<Event>)
      reads this, buf
    {
      && Valid() && Contents() == contents
      && start == CondAt(c0, act, log) < |g.excl|
      && Walk(g, contents, c0, act, from, log, Now())
    }

    // BEGIN.
    method Begin(c: nat)
      requires Valid()
      modifies `start
      ensures start == c && Valid() && Contents() == old(Contents())
    {
      start := c;
    }

    // One turn and the action that follows it, whose only effect here is BEGIN.
    method Turn(act: seq<Event> -> nat, log: seq<Event>, ghost contents: Word, ghost from: Place, ghost c0: nat)
      returns (log': seq<Event>)
      requires Implements(t, g) && Ran(contents, from, c0, act, log)
      requires forall l: seq<Event> :: act(l) < |g.excl|
      modifies this, buf
      ensures Ran(contents, from, c0, act, log') && |log'| == |log| + 1 && unchanged(`buf, `end) && pos >= old(pos)
      ensures HeadsNonempty(g) && old(pos) < end ==> pos > old(pos)
    {
      ghost var here, h := Now(), Where();
      var e := Next();
      if HeadsNonempty(g) && here.pos < end { Progresses(h, e, contents[here.pos..pos]); }
      WalkSnoc(g, contents, c0, act, from, log, here, e, Now());
      log' := log + [e];
      Begin(act(log'));
    }

    /** Any number of turns, for any rules: every event is what the rules call for where it happened, the events' text
        is what was consumed, and at_bol means position 0 or after a newline unless an empty token has just cleared it.
        Actions see what happened so far and may only change the start condition. */
    method Turns(n: nat, act: seq<Event> -> nat) returns (log: seq<Event>)
      requires Valid() && Implements(t, g) && start < |g.excl|
      requires forall l: seq<Event> :: act(l) < |g.excl|
      modifies this, buf
      ensures Valid() && Contents() == old(Contents()) && |log| == n
      ensures Walk(g, Contents(), old(start), act, old(Now()), log, Now())
      ensures old(pos) <= pos && AllText(log) == Contents()[old(pos)..pos]
      ensures old(atBol) == BolAt(Contents(), old(pos)) ==> (atBol <==> BolAt(Contents(), pos) && !Cleared(log))
    {
      log := [];
      ghost var contents, from, c0 := Contents(), Now(), start;
      var i := 0;
      while i < n
        invariant i <= n && |log| == i && unchanged(`buf, `end) && Ran(contents, from, c0, act, log)
      {
        log := Turn(act, log, contents, from, c0);
        i := i + 1;
      }
      WalkText(g, contents, c0, act, from, log, Now());
      if from.atBol == BolAt(contents, from.pos) { WalkBol(g, contents, c0, act, from, log, Now()); }
    }

    /** The whole run, if no head of a trailing context matches the empty word: it ends, and the lexemes and echoed
        bytes are exactly the rest of the buffer. */
    method Run(act: seq<Event> -> nat) returns (log: seq<Event>)
      requires Valid() && Implements(t, g) && start < |g.excl| && HeadsNonempty(g)
      requires forall l: seq<Event> :: act(l) < |g.excl|
      modifies this, buf
      ensures Valid() && Contents() == old(Contents()) && pos == end
      ensures AllText(log) == old(Remaining())
      ensures Walk(g, Contents(), old(start), act, old(Now()), log, Now())
      ensures old(atBol) == BolAt(Contents(), old(pos)) ==> atBol == BolAt(Contents(), pos)
    {
      log := [];
      ghost var contents, from, c0 := Contents(), Now(), start;
      while pos < end
        invariant unchanged(`buf, `end) && Ran(contents, from, c0, act, log)
      {
        log := Turn(act, log, contents, from, c0);
      }
      WalkText(g, contents, c0, act, from, log, Now());
      NeverCleared(g, contents, c0, act, from, log, Now());
      if from.atBol == BolAt(contents, from.pos) { WalkBol(g, contents, c0, act, from, log, Now()); }
    }

    // ---------- REJECT in every action --------------------------------------

    // The REJECT macro: the sealed byte goes back, and so does the position.
    method Reject(mb: nat)
      requires Valid() && HasToken() && mb <= pos
      modifies this, buf
      ensures Valid() && !Sealed() && unchanged(`buf, `end, `start) && Contents() == old(Contents()) && pos == mb
    {
      ghost var before := Contents();
      buf[text + leng] := save;
      active := false;
      pos := mb;
      assert Contents() == before;
    }

    // The action of a rule matched with len bytes sees its token.
    method ShowRule(rule: nat, len: nat, ghost h: Here) returns (e: Event)
      requires Valid() && !Sealed() && Implements(t, g) && At(h) && Hit(h, rule, len)
      modifies this, buf
      ensures Valid() && HasToken() && unchanged(`buf, `end, `start) && Contents() == old(Contents())
      ensures pos == old(pos) + |TextOf(e)| && ShownAt(h, (rule, len), e) && atBol == BolAfter(old(atBol), e)
    {
      var n := len;
      var trail := t.ruleTrail[rule];
      if trail > 0 && trail <= len { n := len - trail; }
      ShowsToken(h, rule, len, n);
      e := TakePicked(rule, n, h);
    }

    // It sees it and rejects.
    method TryRule(rule: nat, len: nat, ghost h: Here) returns (e: Event)
      requires Valid() && !Sealed() && Implements(t, g) && At(h) && Hit(h, rule, len)
      modifies this, buf
      ensures Valid() && !Sealed() && unchanged(`buf, `end, `start) && Contents() == old(Contents()) && pos == old(pos)
      ensures ShownAt(h, (rule, len), e)
    {
      var mb := pos;
      e := ShowRule(rule, len, h);
      Reject(mb);
    }

    // One turn from yy_find_best: the best rule left is tried, unless there is none.
    method TryBest(lens: array<int>, ghost all: seq<int>, chain: Chain, seen: seq<Event>, ghost h: Here)
      returns (more: bool, chain': Chain, seen': seq<Event>)
      requires Valid() && !Sealed() && Implements(t, g) && At(h) && lens.Length == |t.ruleTrail|
               && lens as object != buf
      requires Trying(all, lens[..], chain) && Shown(h, chain, seen) && Lens(h, |h.input|, all)
      modifies this, buf, lens
      ensures Valid() && !Sealed() && unchanged(`buf, `end, `start) && Contents() == old(Contents()) && pos == old(pos)
      ensures Trying(all, lens[..], chain') && Shown(h, chain', seen')
      ensures |chain'| == if more then |chain| + 1 else |chain|
      ensures if more then Left(lens[..]) < old(Left(lens[..])) else forall r :: 0 <= r < lens.Length ==> lens[r] <= 0
    {
      chain', seen' := chain, seen;
      var rule, len := FindBest(lens);
      more := rule >= 0 && len > 0;
      if more {
        LeftFits(h, all, lens[..], chain, rule, len);
        ChainStep(all, lens[..], chain, rule, len);
        LeftShrinks(lens[..], rule);
        var e := TryRule(rule, len, h);
        ShownSnoc(h, chain, seen, rule, len, e);
        chain', seen' := chain + [(rule, len)], seen + [e];
        lens[rule] := -1;
      }
    }

    method TryAll(lens: array<int>, ghost h: Here) returns (chain: Chain, seen: seq<Event>)
      requires Valid() && !Sealed() && Implements(t, g) && At(h) && lens.Length == |t.ruleTrail|
      requires lens as object != buf && Lens(h, |h.input|, lens[..])
      modifies this, buf, lens
      ensures Valid() && !Sealed() && unchanged(`buf, `end, `start) && Contents() == old(Contents()) && pos == old(pos)
      ensures IsChain(h, chain) && Shown(h, chain, seen)
    {
      ghost var all := lens[..];
      chain, seen := [], [];
      var more := true;
      while more
        invariant Valid() && !Sealed() && unchanged(`buf, `end, `start) && Contents() == old(Contents())
                  && pos == old(pos)
        invariant Trying(all, lens[..], chain) && Shown(h, chain, seen)
        invariant !more ==> forall r :: 0 <= r < lens.Length ==> lens[r] <= 0
        decreases more, Left(lens[..])
      {
        more, chain, seen := TryBest(lens, all, chain, seen, h);
      }
      ChainComplete(h, all, lens[..], chain);
    }

    // yy_match_lens after the scan from here.
    method Lengths() returns (lens: array<int>)
      requires Valid() && !Sealed() && Implements(t, g) && start < |g.excl|
      ensures fresh(lens) && lens.Length == |t.ruleTrail| && Lens(Where(), |Where().input|, lens[..])
    {
      assert buf[pos..end] == Remaining();
      lens := new int[|t.ruleTrail|](_ => -1);
      ScanLens(t, buf, pos, end, start, atBol, lens, g);
    }

    /** REJECT in every action: each rule with a valid match of positive length is tried exactly once, at its longest
        length, in order of length descending then rule ascending; each action sees its token; and then the default
        rule takes over on the untouched buffer. */
    method RejectAll() returns (chain: Chain, seen: seq<Event>, x: byte)
      requires Valid() && !Sealed() && pos < end && Implements(t, g) && start < |g.excl|
      modifies this, buf
      ensures IsChain(old(Where()), chain) && Shown(old(Where()), chain, seen)
      ensures Valid() && !Sealed() && Contents() == old(Contents())
      ensures pos == old(pos) + 1 && x == Contents()[old(pos)] && atBol == (x == NEWLINE)
    {
      ghost var h := Where();
      var lens := Lengths();
      chain, seen := TryAll(lens, h);
      x := EchoByte();
    }

    // At most j actions reject.
    method TryTimes(j: nat, lens: array<int>, ghost all: seq<int>, ghost h: Here)
      returns (chain: Chain, seen: seq<Event>)
      requires Valid() && !Sealed() && Implements(t, g) && At(h) && all == lens[..]
      requires lens.Length == |t.ruleTrail| && lens as object != buf && Lens(h, |h.input|, all)
      modifies this, buf, lens
      ensures Valid() && !Sealed() && unchanged(`buf, `end, `start) && Contents() == old(Contents()) && pos == old(pos)
      ensures Trying(all, lens[..], chain) && Shown(h, chain, seen) && |chain| <= j
      ensures |chain| < j ==> forall r :: 0 <= r < lens.Length ==> lens[r] <= 0
    {
      chain, seen := [], [];
      var more := true;
      while more && |chain| < j
        invariant Valid() && !Sealed() && unchanged(`buf, `end, `start) && Contents() == old(Contents())
                  && pos == old(pos)
        invariant Trying(all, lens[..], chain) && Shown(h, chain, seen) && |chain| <= j
        invariant !more ==> forall r :: 0 <= r < lens.Length ==> lens[r] <= 0
        decreases more, Left(lens[..])
      {
        more, chain, seen := TryBest(lens, all, chain, seen, h);
      }
    }

    // The rule whose turn it is after at most j have rejected, and the rules that would be tried if all did.
    method TryThenBest(j: nat, lens: array<int>, ghost h: Here)
      returns (tried: Chain, seen: seq<Event>, rule: int, len: nat, ghost full: Chain)
      requires Valid() && !Sealed() && Implements(t, g) && At(h) && lens.Length == |t.ruleTrail|
      requires lens as object != buf && Lens(h, |h.input|, lens[..])
      modifies this, buf, lens
      ensures Valid() && !Sealed() && unchanged(`buf, `end, `start) && Contents() == old(Contents()) && pos == old(pos)
      ensures IsChain(h, full) && tried == full[..if j < |full| then j else |full|] && Shown(h, tried, seen)
      ensures if j < |full| then full[j] == (rule, len) && len > 0 && Hit(h, rule, len) else len == 0
    {
      ghost var all := lens[..];
      tried, seen := TryTimes(j, lens, all, h);
      rule, len := FindBest(lens);
      full := Completed(h, all, lens[..], tried, rule, len);
      if len > 0 { LeftFits(h, all, lens[..], tried, rule, len); }
    }

    // The action of the best rule left, which does not reject; or the default rule.
    method Settle(rule: int, len: nat, ghost h: Here) returns (last: Event)
      requires Valid() && !Sealed() && pos < end && Implements(t, g) && At(h)
      requires len > 0 ==> rule >= 0 && Hit(h, rule, len)
      modifies this, buf
      ensures Valid() && unchanged(`buf, `end, `start) && Contents() == old(Contents())
      ensures pos == old(pos) + |TextOf(last)| && atBol == BolAfter(old(atBol), last)
      ensures if len > 0 then HasToken() && ShownAt(h, (rule as nat, len), last)
              else !Sealed() && last == Echo(Contents()[old(pos)])
    {
      if len > 0 {
        last := ShowRule(rule, len, h);
      } else {
        var x := EchoByte();
        last := Echo(x);
      }
    }

    /** Actions that reject j times: they see the first j of the rules that would be tried if all of them rejected, and
        then the action of the next one sees its token and keeps it. With fewer rules than that the default rule takes
        over, as when all reject. */
    method RejectTimes(j: nat) returns (tried: Chain, seen: seq<Event>, last: Event, ghost full: Chain)
      requires Valid() && !Sealed() && pos < end && Implements(t, g) && start < |g.excl|
      modifies this, buf
      ensures Valid() && Contents() == old(Contents())
      ensures IsChain(old(Where()), full)
      ensures tried == full[..if j < |full| then j else |full|] && Shown(old(Where()), tried, seen)
      ensures if j < |full| then HasToken() && ShownAt(old(Where()), full[j], last)
              else !Sealed() && last == Echo(old(Contents()[pos]))
      ensures pos == old(pos) + |TextOf(last)| && atBol == BolAfter(old(atBol), last)
    {
      ghost var h := Where();
      var lens := Lengths();
      var rule, len;
      tried, seen, rule, len, full := TryThenBest(j, lens, h);
      last := Settle(rule, len, h);
    }
  }

  /** Sealing a token that is already sealed loses a byte: here the b of "ab", with the token a matched and sealed. */
  method SealTwice(t: Tables, ghost g: Grammar) returns (l: Lexer)
    ensures l.Valid() && l.Contents() != [97, 98]
  {
    l := new Lexer(t, g, [97, 98]);
    l.TakeToken(1);
    assert l.Contents() == [97, 98] && l.Contents()[1] == 98;
    l.TextSeal();
  }
}
