// The binary table file: what it holds, and the writer of src/tables.cpp.

module TableFile {
  import opened Bytes
  import opened RuleNfa
  import opened Eclass
  import opened Subset
  import opened Comb
  import opened TableBytes

  const MAGIC: int := 0xF13C57B1 - TWO_32 // as a 32-bit int

  // ---------- the file ------------------------------------------------------

  // What the tables file holds. Dense files keep yy_nxt row by row in nxt and have no base, def and chk.
  datatype File = File(
    compressed: bool,
    name: Word,
    nclasses: nat,
    nstates: nat,
    pool: nat,
    ec: Word,
    meta: Word,
    base: seq<int>, def: seq<int>, nxt: seq<int>, chk: seq<int>,
    acceptNormal: seq<int>, acceptEol: seq<int>,
    condNormal: seq<int>, condBol: seq<int>,
    ruleTrail: seq<int>)

  // The arrays have the lengths the header announces.
  predicate Sized(f: File) {
    && f.nclasses <= 256 && |f.ec| == 256 && |f.meta| == f.nclasses
    && (if f.compressed then |f.base| == |f.def| == f.nstates && |f.nxt| == |f.chk| == f.pool
        else f.base == f.def == f.chk == [] && f.pool == 0 && |f.nxt| == f.nstates * f.nclasses)
    && |f.acceptNormal| == |f.acceptEol| == f.nstates && |f.condNormal| == |f.condBol|
  }

  // Every number fits 32 bits.
  predicate Fits32(f: File) {
    && |f.name| < TWO_31 && f.nstates < TWO_31 && f.pool < TWO_31 && |f.condNormal| < TWO_31
    && AllInt32(f.base) && AllInt32(f.def) && AllInt32(f.nxt) && AllInt32(f.chk)
    && AllInt32(f.acceptNormal) && AllInt32(f.acceptEol) && AllInt32(f.condNormal) && AllInt32(f.condBol)
      && AllInt32(f.ruleTrail)
  }

  // The header's nine pieces.
  function Head(name: Word, compressed: bool, nclasses: nat, nstates: nat, nrules: nat, pool: nat): seq<Word> {
    [Be32(MAGIC), Be32(1), Be32(|name|), name, Be32(if compressed then 1 else 0),
     Be32(nclasses), Be32(nstates), Be32(nrules), Be32(pool)]
  }

  // The header, the class map and the meta classes, in pieces.
  function Header(f: File): seq<Word> {
    Head(f.name, f.compressed, f.nclasses, f.nstates, |f.ruleTrail|, f.pool) + [f.ec, f.meta]
  }

  // Everything after them is integers.
  function Stream(f: File): seq<int> {
    f.base + f.def + f.nxt + f.chk + f.acceptNormal + f.acceptEol + [|f.condNormal|] + f.condNormal + f.condBol +
      f.ruleTrail
  }

  function Glue(pieces: seq<Word>): Word {
    if pieces == [] then [] else pieces[0] + Glue(pieces[1..])
  }

  /** The bytes of a table file. */
  function Image(f: File): Word {
    Glue(Header(f)) + Ints(Stream(f))
  }

  // The pieces of the header, one by one.
  ghost predicate PreamblePieces(f: File, ps: seq<Word>) {
    |ps| == 11 && ps[0] == Be32(MAGIC) && ps[1] == Be32(1) && ps[2] == Be32(|f.name|) && ps[3] == f.name
  }

  ghost predicate DimensionPieces(f: File, ps: seq<Word>) {
    && |ps| == 11 && ps[4] == Be32(if f.compressed then 1 else 0) && ps[5] == Be32(f.nclasses)
      && ps[6] == Be32(f.nstates)
    && ps[7] == Be32(|f.ruleTrail|) && ps[8] == Be32(f.pool)
  }

  ghost predicate ClassPieces(f: File, ps: seq<Word>) {
    |ps| == 11 && ps[9] == f.ec && ps[10] == f.meta
  }

  lemma HeaderStands(f: File) returns (ps: seq<Word>)
    ensures PreamblePieces(f, ps) && DimensionPieces(f, ps) && ClassPieces(f, ps)
            && Image(f) == Glue(ps) + Ints(Stream(f))
  {
    ps := Header(f);
  }

  lemma {:induction false} GlueSnoc(ps: seq<Word>, p: Word)
    ensures Glue(ps + [p]) == Glue(ps) + p
  {
    if ps == [] {
      assert (ps + [p])[1..] == [];
      assert Glue([]) == [];
    } else {
      assert (ps + [p])[1..] == ps[1..] + [p];
      GlueSnoc(ps[1..], p);
    }
  }

  lemma GlueUpto(ps: seq<Word>, k: nat)
    requires k < |ps|
    ensures Glue(ps[..k + 1]) == Glue(ps[..k]) + ps[k]
  {
    assert ps[..k + 1] == ps[..k] + [ps[k]];
    GlueSnoc(ps[..k], ps[k]);
  }

  // ---------- the writer ----------------------------------------------------

  // What serialise_tables relies on.
  ghost predicate Writable(d: Dfa) {
    && Onto(d.eclasses.ec, d.eclasses.nclasses) && d.eclasses.nclasses <= 256 && |d.eclasses.ec| == 256
    && forall s :: 0 <= s < |d.states| ==> |d.states[s].next| == d.eclasses.nclasses
  }

  function ClassMap(e: Eclasses): Word
    requires |e.ec| == 256 && forall i :: 0 <= i < 256 ==> e.ec[i] < 256
  {
    seq(256, i requires 0 <= i < 256 => e.ec[i])
  }

  // The meta classes, the identity where there are none.
  function MetaOf(meta: Word, nclasses: nat): Word
    requires nclasses <= 256
  {
    seq(nclasses, i requires 0 <= i < nclasses => if i < |meta| then meta[i] else i)
  }

  function Rows(d: Dfa): seq<seq<int>> {
    seq(|d.states|, s requires 0 <= s < |d.states| => d.states[s].next)
  }

  function NormalSlots(d: Dfa): seq<int> {
    seq(|d.states|, s requires 0 <= s < |d.states| => d.states[s].acceptNormal)
  }

  function EolSlots(d: Dfa): seq<int> {
    seq(|d.states|, s requires 0 <= s < |d.states| => d.states[s].acceptEol)
  }

  function Normals(d: Dfa): seq<int> {
    seq(|d.condStarts|, c requires 0 <= c < |d.condStarts| => d.condStarts[c].normal)
  }

  function Bols(d: Dfa): seq<int> {
    seq(|d.condStarts|, c requires 0 <= c < |d.condStarts| => d.condStarts[c].bol)
  }

  // Rows one after the other.
  function Flat(rows: seq<seq<int>>): seq<int> {
    if rows == [] then [] else Flat(rows[..|rows| - 1]) + rows[|rows| - 1]
  }

  lemma {:induction false} FlatLength(rows: seq<seq<int>>, m: nat)
    requires forall i :: 0 <= i < |rows| ==> |rows[i]| == m
    ensures |Flat(rows)| == |rows| * m
  {
    if rows != [] {
      FlatLength(rows[..|rows| - 1], m);
      assert |rows| * m == (|rows| - 1) * m + m;
    }
  }

  /** Cell (s, c) of the flattened rows is where a two-dimensional array of width m has it. */
  lemma {:induction false} FlatAt(rows: seq<seq<int>>, m: nat, s: nat, c: nat)
    requires (forall i :: 0 <= i < |rows| ==> |rows[i]| == m) && s < |rows| && c < m
    ensures 0 <= s * m + c < |Flat(rows)| && Flat(rows)[s * m + c] == rows[s][c]
  {
    var k := |rows| - 1;
    FlatLength(rows[..k], m);
    if s < k {
      FlatAt(rows[..k], m, s, c);
    } else {
      assert s * m == k * m;
    }
  }

  // The file of a DFA; comb is its packed form, looked at only in a compressed file.
  function FileOf(n: Nfa, d: Dfa, compressed: bool, name: Word, meta: Word, comb: CompressedDfa): File
    requires |d.eclasses.ec| == 256 && forall i :: 0 <= i < 256 ==> d.eclasses.ec[i] < 256
  {
    File(compressed, name, d.eclasses.nclasses, |d.states|, if compressed then |comb.chk| else 0,
         ClassMap(d.eclasses), meta,
         if compressed then comb.base else [], if compressed then comb.def else [],
         if compressed then comb.nxt else Flat(Rows(d)), if compressed then comb.chk else [],
         NormalSlots(d), EolSlots(d), Normals(d), Bols(d), n.ruleTrail)
  }

  lemma FileSized(n: Nfa, d: Dfa, compressed: bool, name: Word, meta: Word, comb: CompressedDfa)
    requires Writable(d) && |meta| == d.eclasses.nclasses
    requires compressed ==> Rectangular(Rows(d), d.eclasses.nclasses) && Lossless(Rows(d), d.eclasses.nclasses, comb)
    ensures Sized(FileOf(n, d, compressed, name, meta, comb))
  {
    FlatLength(Rows(d), d.eclasses.nclasses);
  }

  lemma FlatSnoc(rows: seq<seq<int>>, s: nat)
    requires s < |rows|
    ensures Flat(rows[..s + 1]) == Flat(rows[..s]) + rows[s]
  {
    assert rows[..s + 1][..s] == rows[..s];
  }

  method PutRows(out: Word, d: Dfa) returns (out': Word)
    ensures out' == out + Ints(Flat(Rows(d)))
  {
    ghost var rows := Rows(d);
    out' := out;
    var s := 0;
    while s < |d.states|
      invariant s <= |d.states| && out' == out + Ints(Flat(rows[..s]))
    {
      FlatSnoc(rows, s);
      out' := PutMore(out', d.states[s].next, out, Flat(rows[..s]));
      s := s + 1;
    }
    assert rows[..s] == rows;
  }

  method PutClasses(out: Word, e: Eclasses, meta: Word) returns (out': Word)
    requires |e.ec| == 256 && e.nclasses <= 256 && forall i :: 0 <= i < 256 ==> e.ec[i] < 256
    ensures out' == out + ClassMap(e) + MetaOf(meta, e.nclasses)
  {
    out' := out;
    ghost var ec, m := ClassMap(e), MetaOf(meta, e.nclasses);
    var i := 0;
    while i < 256
      invariant i <= 256 && out' == out + ec[..i]
    {
      out' := out' + [e.ec[i]];
      i := i + 1;
    }
    assert ec[..i] == ec;
    i := 0;
    while i < e.nclasses
      invariant i <= e.nclasses && out' == out + ec + m[..i]
    {
      out' := out' + [if i < |meta| then meta[i] else i];
      i := i + 1;
    }
    assert m[..i] == m;
  }

  lemma GlueNine(ps: seq<Word>)
    requires |ps| == 9
    ensures Glue(ps) == [] + ps[0] + ps[1] + ps[2] + ps[3] + ps[4] + ps[5] + ps[6] + ps[7] + ps[8]
  {
    GlueUpto(ps, 0); GlueUpto(ps, 1); GlueUpto(ps, 2); GlueUpto(ps, 3); GlueUpto(ps, 4);
    GlueUpto(ps, 5); GlueUpto(ps, 6); GlueUpto(ps, 7); GlueUpto(ps, 8);
    assert ps[..9] == ps;
  }

  /** The first bytes of a file, where the numbers are small. */
  lemma HeadBytes(name: Word, compressed: bool, nclasses: byte, nstates: byte, nrules: byte, pool: byte)
    requires |name| < 256
    ensures Glue(Head(name, compressed, nclasses, nstates, nrules, pool)) ==
            [0xF1, 0x3C, 0x57, 0xB1, 0, 0, 0, 1, 0, 0, 0, |name|] + name +
            [0, 0, 0, if compressed then 1 else 0, 0, 0, 0, nclasses, 0, 0, 0, nstates, 0, 0, 0, nrules, 0, 0, 0, pool]
  {
    var ps := Head(name, compressed, nclasses, nstates, nrules, pool);
    GlueNine(ps);
    MagicBytes();
    SmallNumber(1);
    SmallNumber(0);
    SmallNumber(|name|);
    SmallNumber(nclasses);
    SmallNumber(nstates);
    SmallNumber(nrules);
    SmallNumber(pool);
    assert [] + ps[0] + ps[1] + ps[2] == [0xF1, 0x3C, 0x57, 0xB1, 0, 0, 0, 1, 0, 0, 0, |name|];
  }

  lemma MagicBytes()
    ensures Be32(MAGIC) == [0xF1, 0x3C, 0x57, 0xB1]
  {
  }

  method PutHeader(name: Word, compressed: bool, nclasses: nat, nstates: nat, nrules: nat, pool: nat)
    returns (out: Word)
    ensures out == Glue(Head(name, compressed, nclasses, nstates, nrules, pool))
  {
    ghost var ps := Head(name, compressed, nclasses, nstates, nrules, pool);
    GlueNine(ps);
    out := [];
    out := out + Be32(MAGIC);
    out := out + Be32(1);
    out := out + Be32(|name|);
    out := out + name;
    out := out + Be32(if compressed then 1 else 0);
    out := out + Be32(nclasses);
    out := out + Be32(nstates);
    out := out + Be32(nrules);
    out := out + Be32(pool);
  }

  // The integers vs after those already written.
  method PutMore(out: Word, vs: seq<int>, ghost head: Word, ghost done: seq<int>) returns (out': Word)
    requires out == head + Ints(done)
    ensures out' == head + Ints(done + vs)
  {
    out' := PutInts(out, vs);
    IntsAppend(done, vs);
  }

  method PutTransitions(out: Word, d: Dfa, compressed: bool, comb: CompressedDfa) returns (out': Word)
    ensures out' == out + Ints(if compressed then comb.base + comb.def + comb.nxt + comb.chk else Flat(Rows(d)))
  {
    if compressed {
      out' := PutInts(out, comb.base);
      out' := PutMore(out', comb.def, out, comb.base);
      out' := PutMore(out', comb.nxt, out, comb.base + comb.def);
      out' := PutMore(out', comb.chk, out, comb.base + comb.def + comb.nxt);
    } else {
      out' := PutRows(out, d);
    }
  }

  method PutStates(out: Word, n: Nfa, d: Dfa, ghost head: Word, ghost done: seq<int>) returns (out': Word)
    requires out == head + Ints(done)
    ensures out' == head + Ints(done + NormalSlots(d) + EolSlots(d) + [|d.condStarts|] + Normals(d) + Bols(d) +
            n.ruleTrail)
  {
    ghost var s := done;
    out' := PutMore(out, NormalSlots(d), head, s);
    s := s + NormalSlots(d);
    out' := PutMore(out', EolSlots(d), head, s);
    s := s + EolSlots(d);
    out' := PutMore(out', [|d.condStarts|], head, s);
    s := s + [|d.condStarts|];
    out' := PutMore(out', Normals(d), head, s);
    s := s + Normals(d);
    out' := PutMore(out', Bols(d), head, s);
    s := s + Bols(d);
    out' := PutMore(out', n.ruleTrail, head, s);
  }

  // The fields of f are those of d.
  ghost predicate Describes(f: File, n: Nfa, d: Dfa, compressed: bool, name: Word, comb: CompressedDfa) {
    && f.name == name && f.compressed == compressed && f.nclasses == d.eclasses.nclasses && f.nstates == |d.states|
    && (if compressed then f.base == comb.base && f.def == comb.def && f.nxt == comb.nxt && f.chk == comb.chk
        else f.base == f.def == f.chk == [] && f.nxt == Flat(Rows(d)))
    && f.acceptNormal == NormalSlots(d) && f.acceptEol == EolSlots(d)
    && f.condNormal == Normals(d) && f.condBol == Bols(d) && f.ruleTrail == n.ruleTrail
  }

  lemma FileDescribes(n: Nfa, d: Dfa, compressed: bool, name: Word, meta: Word, comb: CompressedDfa)
    requires Writable(d)
    ensures Describes(FileOf(n, d, compressed, name, meta, comb), n, d, compressed, name, comb)
  {
  }

  lemma StreamOf(f: File, n: Nfa, d: Dfa, compressed: bool, name: Word, comb: CompressedDfa)
    requires Describes(f, n, d, compressed, name, comb)
    ensures Stream(f) == (if compressed then comb.base + comb.def + comb.nxt + comb.chk else Flat(Rows(d)))
                         + NormalSlots(d) + EolSlots(d) + [|d.condStarts|] + Normals(d) + Bols(d) + n.ruleTrail
  {
    if !compressed { assert f.base + f.def + f.nxt + f.chk == f.nxt; }
  }

  method PutFile(n: Nfa, d: Dfa, compressed: bool, name: Word, meta: Word, comb: CompressedDfa, pool: nat,
      ghost f: File)
      returns (out: Word)
    requires Writable(d) && Describes(f, n, d, compressed, name, comb) && f.pool == pool
    requires f.ec == ClassMap(d.eclasses) && f.meta == MetaOf(meta, d.eclasses.nclasses)
    ensures out == Image(f)
  {
    ghost var head := Head(name, compressed, d.eclasses.nclasses, |d.states|, |n.ruleTrail|, pool);
    GlueSnoc(head, f.ec);
    GlueSnoc(head + [f.ec], f.meta);
    assert Header(f) == head + [f.ec] + [f.meta];
    out := PutHeader(name, compressed, d.eclasses.nclasses, |d.states|, |n.ruleTrail|, pool);
    out := PutClasses(out, d.eclasses, meta);
    out := PutStream(out, n, d, compressed, name, comb, f);
  }

  method PutStream(out: Word, n: Nfa, d: Dfa, compressed: bool, name: Word, comb: CompressedDfa, ghost f: File)
    returns (out': Word)
    requires Describes(f, n, d, compressed, name, comb)
    ensures out' == out + Ints(Stream(f))
  {
    out' := PutTransitions(out, d, compressed, comb);
    out' := PutStates(out', n, d, out, if compressed then comb.base + comb.def + comb.nxt + comb.chk
      else Flat(Rows(d)));
    StreamOf(f, n, d, compressed, name, comb);
  }

  method Pack(d: Dfa, compressed: bool) returns (comb: CompressedDfa, pool: nat)
    requires Writable(d)
    ensures compressed ==> Rectangular(Rows(d), d.eclasses.nclasses) && Lossless(Rows(d), d.eclasses.nclasses, comb)
    ensures pool == if compressed then |comb.chk| else 0
  {
    pool := 0;
    comb := CompressedDfa([], [], [], []);
    if compressed {
      comb := CompressDfa(Rows(d), d.eclasses.nclasses);
      pool := |comb.chk|;
    }
  }

  /** serialise_tables: what is written is the image of the DFA's file, in the dense and in the packed layout. */
  method SerialiseTables(n: Nfa, d: Dfa, compressed: bool, name: Word, meta: Word)
      returns (out: Word, ghost f: File, comb: CompressedDfa)
    requires Writable(d)
    ensures out == Image(f) && f == FileOf(n, d, compressed, name, MetaOf(meta, d.eclasses.nclasses), comb) && Sized(f)
    ensures compressed ==> Rectangular(Rows(d), d.eclasses.nclasses) && Lossless(Rows(d), d.eclasses.nclasses, comb)
  {
    var pool;
    comb, pool := Pack(d, compressed);
    f := FileOf(n, d, compressed, name, MetaOf(meta, d.eclasses.nclasses), comb);
    FileSized(n, d, compressed, name, f.meta, comb);
    FileDescribes(n, d, compressed, name, f.meta, comb);
    out := PutFile(n, d, compressed, name, meta, comb, pool, f);
  }
}
