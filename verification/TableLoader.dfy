// The loader of table files that is emitted with a scanner (yytables_fload, at
// the end of emit_c in src/codegen.cpp), and the round trip through a file.

module TableLoader {
  import opened Bytes
  import opened NfaGraph
  import opened RuleNfa
  import opened Eclass
  import opened Subset
  import opened Comb
  import opened ScanTables
  import opened TableBytes
  import opened TableFile

  // The numbers the emitted loader compares or counts with.
  datatype Sizes = Sizes(compressed: bool, nclasses: nat, nstates: nat, pool: nat, nconds: nat, nrules: nat)

  // How many integers the loader takes for the transitions.
  function TransSize(z: Sizes): nat {
    if z.compressed then z.nstates + z.nstates + z.pool + z.pool else z.nstates * z.nclasses
  }

  // Where it expects the number of conditions.
  function CountAt(z: Sizes): nat {
    TransSize(z) + z.nstates + z.nstates
  }

  // The dimensions it compares. Neither the layout flag nor the number of rules is among them.
  predicate SameShape(z: Sizes, f: File) {
    f.nclasses == z.nclasses && f.nstates == z.nstates && (z.compressed ==> f.pool == z.pool)
  }

  // The integers of a file as the loader counts them: the number of conditions where it expects it, and enough after
  // it.
  predicate FitsStream(z: Sizes, s: seq<int>) {
    CountAt(z) < |s| && s[CountAt(z)] == z.nconds && CountAt(z) + 1 + z.nconds + z.nconds + z.nrules <= |s|
  }

  /** A file the loader takes, whatever its layout. */
  predicate Takes(z: Sizes, f: File) {
    SameShape(z, f) && FitsStream(z, Stream(f))
  }

  predicate Readable(f: File) {
    Sized(f) && Fits32(f)
  }

  lemma StreamInt32(f: File)
    requires Fits32(f)
    ensures AllInt32(Stream(f))
  {
  }

  // ---------- the header, piece by piece ------------------------------------

  // Four bytes that read back as v.
  predicate Number(b: Word, v: int) {
    |b| == 4 && (IsInt32(v) ==> FromBe32(b) == v)
  }

  lemma NumberOf(v: int)
    ensures Number(Be32(v), v)
  {
    if IsInt32(v) { Be32RoundTrip(v); }
  }

  ghost predicate PreambleNumbers(f: File, ps: seq<Word>) {
    |ps| == 11 && Number(ps[0], MAGIC) && Number(ps[1], 1) && Number(ps[2], |f.name|) && ps[3] == f.name
  }

  ghost predicate DimensionNumbers(f: File, ps: seq<Word>) {
    |ps| == 11 && |ps[4]| == 4 && Number(ps[5], f.nclasses) && Number(ps[6], f.nstates) && |ps[7]| == 4
      && Number(ps[8], f.pool)
  }

  lemma PreambleReads(f: File, ps: seq<Word>)
    requires PreamblePieces(f, ps)
    ensures PreambleNumbers(f, ps)
  {
    NumberOf(MAGIC);
    NumberOf(1);
    NumberOf(|f.name|);
  }

  lemma DimensionsRead(f: File, ps: seq<Word>)
    requires DimensionPieces(f, ps)
    ensures DimensionNumbers(f, ps)
  {
    NumberOf(f.nclasses);
    NumberOf(f.nstates);
    NumberOf(f.pool);
  }

  lemma GlueHead(ps: seq<Word>, k: nat, tail: Word)
    requires k < |ps|
    ensures Glue(ps[k..]) + tail == ps[k] + (Glue(ps[k + 1..]) + tail)
  {
    assert ps[k..][0] == ps[k] && ps[k..][1..] == ps[k + 1..];
  }

  lemma TakeDrop(x: Word, y: Word)
    ensures (x + y)[..|x|] == x && (x + y)[|x|..] == y
  {
  }

  // The scanner's table arrays, filled by the loader.
  class Loader {
    const z: Sizes
    var ec: Word
    var meta: Word
    var base: seq<int>
    var def: seq<int>
    var nxt: seq<int>
    var chk: seq<int>
    var acceptNormal: seq<int>
    var acceptEol: seq<int>
    var condNormal: seq<int>
    var condBol: seq<int>
    var ruleTrail: seq<int>

    constructor (z: Sizes)
      ensures this.z == z
    {
      this.z := z;
      ec, meta := [], [];
      base, def, nxt, chk := [], [], [], [];
      acceptNormal, acceptEol, condNormal, condBol, ruleTrail := [], [], [], [], [];
    }

    // The reader stands before piece k of the header; tail is what follows the header.
    static ghost predicate At(r: Reader, ps: seq<Word>, k: nat, tail: Word)
      requires k <= |ps|
      reads r
    {
      r.Rest() == Glue(ps[k..]) + tail
    }

    method Int(r: Reader, ghost ps: seq<Word>, ghost k: nat, ghost tail: Word) returns (ok: bool, x: int)
      requires k < |ps|
      modifies r
      ensures old(At(r, ps, k, tail)) && |ps[k]| == 4 ==> ok && At(r, ps, k + 1, tail) && x == FromBe32(ps[k])
      ensures ok ==> |old(r.Rest())| >= 4 && x == FromBe32(old(r.Rest())[..4])
    {
      GlueHead(ps, k, tail);
      TakeDrop(ps[k], Glue(ps[k + 1..]) + tail);
      ok, x := r.ReadBe32();
    }

    method Bytes(r: Reader, n: nat, ghost ps: seq<Word>, ghost k: nat, ghost tail: Word) returns (ok: bool, bytes: Word)
      requires k < |ps|
      modifies r
      ensures old(At(r, ps, k, tail)) && |ps[k]| == n ==> ok && bytes == ps[k] && At(r, ps, k + 1, tail)
    {
      GlueHead(ps, k, tail);
      TakeDrop(ps[k], Glue(ps[k + 1..]) + tail);
      ok, bytes := r.Read(n);
    }

    method Skip(r: Reader, n: int, ghost ps: seq<Word>, ghost k: nat, ghost tail: Word) returns (ok: bool)
      requires k < |ps|
      modifies r
      ensures old(At(r, ps, k, tail)) && |ps[k]| == n && old(r.Rest()) != [] ==> ok && At(r, ps, k + 1, tail)
    {
      GlueHead(ps, k, tail);
      TakeDrop(ps[k], Glue(ps[k + 1..]) + tail);
      ok := r.Seek(n);
    }

    // Magic number and version.
    method Magic(r: Reader, ghost f: File, ghost ps: seq<Word>, ghost tail: Word) returns (ok: bool)
      requires PreambleNumbers(f, ps)
      modifies r
      ensures old(At(r, ps, 0, tail)) ==> ok && At(r, ps, 2, tail)
      ensures |old(r.Rest())| < 4 || FromBe32(old(r.Rest())[..4]) != MAGIC ==> !ok
    {
      var v;
      ok, v := Int(r, ps, 0, tail);
      if !ok || v != MAGIC { return false; }
      ok, v := Int(r, ps, 1, tail);
      ok := ok && v == 1;
    }

    // The name is skipped.
    method Name(r: Reader, ghost f: File, ghost ps: seq<Word>, ghost tail: Word) returns (ok: bool)
      requires PreambleNumbers(f, ps) && |ps[4]| == 4
      modifies r
      ensures |f.name| < TWO_31 && old(At(r, ps, 2, tail)) ==> ok && At(r, ps, 4, tail)
    {
      var v;
      ok, v := Int(r, ps, 2, tail);
      if !ok { return false; }
      GlueHead(ps, 3, tail);
      GlueHead(ps, 4, tail);
      ok := Skip(r, v, ps, 3, tail);
    }

    // Flags and the first dimensions.
    method Shape(r: Reader, ghost f: File, ghost ps: seq<Word>, ghost tail: Word)
      returns (ok: bool, nclasses: int, nstates: int)
      requires DimensionNumbers(f, ps)
      modifies r
      ensures Readable(f) && old(At(r, ps, 4, tail)) ==>
              ok && At(r, ps, 7, tail) && nclasses == f.nclasses && nstates == f.nstates
    {
      nclasses, nstates := 0, 0;
      var flags;
      ok, flags := Int(r, ps, 4, tail);
      if !ok { return; }
      ok, nclasses := Int(r, ps, 5, tail);
      if !ok { return; }
      ok, nstates := Int(r, ps, 6, tail);
    }

    // All of them; the flags and the number of rules are read and not looked at.
    // The number of rules is read and not looked at.
    method RulesAndPool(r: Reader, ghost f: File, ghost ps: seq<Word>, ghost tail: Word) returns (ok: bool, pool: int)
      requires DimensionNumbers(f, ps)
      modifies r
      ensures Readable(f) && old(At(r, ps, 7, tail)) ==> ok && At(r, ps, 9, tail) && pool == f.pool
    {
      var nrules;
      pool := 0;
      ok, nrules := Int(r, ps, 7, tail);
      if !ok { return; }
      ok, pool := Int(r, ps, 8, tail);
    }

    method Dimensions(r: Reader, ghost f: File, ghost ps: seq<Word>, ghost tail: Word) returns (ok: bool, pool: int)
      requires DimensionNumbers(f, ps)
      modifies r
      ensures Readable(f) && old(At(r, ps, 4, tail)) ==>
                && (ok <==> f.nclasses == z.nclasses && f.nstates == z.nstates)
                && (ok ==> At(r, ps, 9, tail) && pool == f.pool)
    {
      var nclasses, nstates;
      pool := 0;
      ok, nclasses, nstates := Shape(r, f, ps, tail);
      if !ok { return; }
      ok, pool := RulesAndPool(r, f, ps, tail);
      ok := ok && nclasses == z.nclasses && nstates == z.nstates;
    }

    method ReadHeader(r: Reader, ghost f: File, ghost ps: seq<Word>, ghost tail: Word) returns (ok: bool, pool: int)
      requires PreambleNumbers(f, ps) && DimensionNumbers(f, ps)
      modifies r
      ensures Readable(f) && old(At(r, ps, 0, tail)) ==>
                && (ok <==> f.nclasses == z.nclasses && f.nstates == z.nstates)
                && (ok ==> At(r, ps, 9, tail) && pool == f.pool)
      ensures |old(r.Rest())| < 4 || FromBe32(old(r.Rest())[..4]) != MAGIC ==> !ok
    {
      pool := 0;
      ok := Magic(r, f, ps, tail);
      if !ok { return; }
      ok := Name(r, f, ps, tail);
      if !ok { return; }
      ok, pool := Dimensions(r, f, ps, tail);
    }

    // yy_ec and yy_meta; the dense scanner has no yy_meta and reads past it.
    method Classes(r: Reader, ghost f: File, ghost ps: seq<Word>, ghost tail: Word) returns (ok: bool)
      requires ClassPieces(f, ps)
      modifies r, `ec, `meta
      ensures Sized(f) && f.nclasses == z.nclasses && old(At(r, ps, 9, tail)) ==>
                ok && r.Rest() == tail && ec == f.ec && (z.compressed ==> meta == f.meta)
    {
      var bytes;
      ok, bytes := Bytes(r, 256, ps, 9, tail);
      if !ok { return; }
      ec := bytes;
      ok, bytes := Bytes(r, z.nclasses, ps, 10, tail);
      if ok && z.compressed { meta := bytes; }
      assert ps[11..] == [];
    }

    // ---------- the integers ------------------------------------------------

    method PackedTransitions(r: Reader, ghost s: seq<int>, ghost rests: seq<Word>) returns (ok: bool)
      modifies r, `base, `def, `nxt, `chk
      ensures z.compressed && old(r.Before(s, rests, 0)) ==>
                && (ok <==> TransSize(z) <= |s|)
                && (ok ==> r.Before(s, rests, TransSize(z)) && TransFilled(s))
    {
      var xs;
      ok, xs := r.ReadInts(z.nstates, s, rests, 0);
      if !ok { return; }
      base := xs;
      ok, xs := r.ReadInts(z.nstates, s, rests, z.nstates);
      if !ok { return; }
      def := xs;
      ok, xs := r.ReadInts(z.pool, s, rests, z.nstates + z.nstates);
      if !ok { return; }
      nxt := xs;
      ok, xs := r.ReadInts(z.pool, s, rests, z.nstates + z.nstates + z.pool);
      if !ok { return; }
      chk := xs;
    }

    method Transitions(r: Reader, pool: int, ghost s: seq<int>, ghost rests: seq<Word>) returns (ok: bool)
      modifies r, `base, `def, `nxt, `chk
      ensures old(r.Before(s, rests, 0)) ==>
                && (ok <==> (z.compressed ==> pool == z.pool) && TransSize(z) <= |s|)
                && (ok ==> r.Before(s, rests, TransSize(z)) && TransFilled(s))
    {
      if z.compressed {
        if pool != z.pool { return false; }
        ok := PackedTransitions(r, s, rests);
      } else {
        var xs;
        ok, xs := r.ReadInts(z.nstates * z.nclasses, s, rests, 0);
        if ok { nxt := xs; }
      }
    }

    method Slots(r: Reader, ghost s: seq<int>, ghost rests: seq<Word>, ghost t: nat) returns (ok: bool)
      modifies r, `acceptNormal, `acceptEol
      ensures old(r.Before(s, rests, t)) ==>
                && (ok <==> t + z.nstates + z.nstates <= |s|)
                && (ok ==> r.Before(s, rests, t + z.nstates + z.nstates) && SlotsFilled(s, t))
    {
      var xs;
      ok, xs := r.ReadInts(z.nstates, s, rests, t);
      if !ok { return; }
      acceptNormal := xs;
      ok, xs := r.ReadInts(z.nstates, s, rests, t + z.nstates);
      if ok { acceptEol := xs; }
    }

    // The number of conditions, which must be as expected.
    method Count(r: Reader, ghost s: seq<int>, ghost rests: seq<Word>, ghost k: nat) returns (ok: bool)
      modifies r
      ensures old(r.Before(s, rests, k)) ==> (ok <==> k < |s| && s[k] == z.nconds) && (ok ==> r.Before(s, rests, k + 1))
    {
      var x;
      ok, x := r.ReadNext(s, rests, k);
      ok := ok && x == z.nconds;
    }

    // yy_rule_trail_len is the last array: as many entries are read as the scanner has rules.
    method Conditions(r: Reader, ghost s: seq<int>, ghost rests: seq<Word>, ghost c: nat) returns (ok: bool)
      modifies r, `condNormal, `condBol, `ruleTrail
      ensures old(r.Before(s, rests, c)) ==>
                (ok <==> c + z.nconds + z.nconds + z.nrules <= |s|) && (ok ==> ConditionsFilled(s, c))
    {
      var xs;
      ok, xs := r.ReadInts(z.nconds, s, rests, c);
      if !ok { return; }
      condNormal := xs;
      ok, xs := r.ReadInts(z.nconds, s, rests, c + z.nconds);
      if !ok { return; }
      condBol := xs;
      ok, xs := r.ReadInts(z.nrules, s, rests, c + z.nconds + z.nconds);
      if ok { ruleTrail := xs; }
    }

    // What the arrays hold, as parts of the file's integers.
    predicate TransFilled(s: seq<int>)
      reads this
    {
      && TransSize(z) <= |s|
      && if z.compressed then
           var p := z.nstates + z.nstates;
           && base == s[..z.nstates] && def == s[z.nstates..p]
           && nxt == s[p..p + z.pool] && chk == s[p + z.pool..p + z.pool + z.pool]
         else nxt == s[..z.nstates * z.nclasses]
    }

    predicate SlotsFilled(s: seq<int>, t: nat)
      reads this
    {
      t + z.nstates + z.nstates <= |s| && acceptNormal == s[t..t + z.nstates]
        && acceptEol == s[t + z.nstates..t + z.nstates + z.nstates]
    }

    predicate ConditionsFilled(s: seq<int>, c: nat)
      reads this
    {
      var b, e := c + z.nconds, c + z.nconds + z.nconds;
      e + z.nrules <= |s| && condNormal == s[c..b] && condBol == s[b..e] && ruleTrail == s[e..e + z.nrules]
    }

    /** Every array holds its part of the file, in the order in which the loader counts. */
    predicate Filled(f: File)
      reads this
    {
      var s := Stream(f);
      && ec == f.ec && (z.compressed ==> meta == f.meta)
      && TransFilled(s) && SlotsFilled(s, TransSize(z)) && ConditionsFilled(s, CountAt(z) + 1)
    }

    method Arrays(r: Reader, pool: int, ghost s: seq<int>, ghost rests: seq<Word>) returns (ok: bool)
      modifies r, `base, `def, `nxt, `chk, `acceptNormal, `acceptEol, `condNormal, `condBol, `ruleTrail
      ensures old(r.Before(s, rests, 0)) ==>
                && (ok <==> (z.compressed ==> pool == z.pool) && FitsStream(z, s))
                && (ok ==> TransFilled(s) && SlotsFilled(s, TransSize(z)) && ConditionsFilled(s, CountAt(z) + 1))
    {
      ok := Transitions(r, pool, s, rests);
      if !ok { return; }
      ok := Slots(r, s, rests, TransSize(z));
      if !ok { return; }
      ok := Tail(r, s, rests);
    }

    method Tail(r: Reader, ghost s: seq<int>, ghost rests: seq<Word>) returns (ok: bool)
      modifies r, `condNormal, `condBol, `ruleTrail
      ensures old(r.Before(s, rests, CountAt(z))) ==>
              (ok <==> FitsStream(z, s)) && (ok ==> ConditionsFilled(s, CountAt(z) + 1))
    {
      ok := Count(r, s, rests, CountAt(z));
      if !ok { return; }
      ok := Conditions(r, s, rests, CountAt(z) + 1);
    }

    method Load(r: Reader, ghost f: File, ghost ps: seq<Word>, ghost rests: seq<Word>) returns (ok: bool)
      requires PreambleNumbers(f, ps) && DimensionNumbers(f, ps) && ClassPieces(f, ps)
               && (Readable(f) ==> Cuts(rests, Stream(f)))
      requires rests != []
      modifies r, this
      ensures Readable(f) && old(At(r, ps, 0, rests[0])) ==> (ok <==> Takes(z, f)) && (ok ==> Filled(f))
      ensures Readable(f) && old(At(r, ps, 0, rests[0])) && !(f.nclasses == z.nclasses && f.nstates == z.nstates) ==>
              !ok && unchanged(this)
      ensures |old(r.Rest())| < 4 || FromBe32(old(r.Rest())[..4]) != MAGIC ==> !ok && unchanged(this)
    {
      var pool;
      ok, pool := ReadHeader(r, f, ps, rests[0]);
      if !ok { return; }
      ok := Classes(r, f, ps, rests[0]);
      if !ok { return; }
      ok := Arrays(r, pool, Stream(f), rests);
    }

    /** yytables_fload: a readable file of either layout is accepted iff the loader takes it, and then every array holds
        its part of the file; a wrong magic number or shape changes no array. */
    method Fload(data: Word, ghost f: File) returns (ok: bool)
      modifies this
      ensures data == Image(f) && Readable(f) ==> (ok <==> Takes(z, f)) && (ok ==> Filled(f))
      ensures data == Image(f) && Readable(f) && !(f.nclasses == z.nclasses && f.nstates == z.nstates) ==>
              !ok && unchanged(this)
      ensures |data| < 4 || FromBe32(data[..4]) != MAGIC ==> !ok && unchanged(this)
    {
      var r := new Reader(data);
      ghost var ps := HeaderStands(f);
      ghost var rests: seq<Word> := [[]];
      if Readable(f) {
        StreamInt32(f);
        rests := Cut(Stream(f));
      }
      assert ps[0..] == ps && r.Rest() == data;
      PreambleReads(f, ps);
      DimensionsRead(f, ps);
      ok := Load(r, f, ps, rests);
    }
  }

  // ---------- which files are taken -----------------------------------------

  lemma Middle(x: seq<int>, y: seq<int>, z: seq<int>)
    ensures (x + y + z)[|x|..|x| + |y|] == y && |x + y + z| == |x| + |y| + |z|
  {
  }

  lemma Regroup(x: seq<int>, y: seq<int>, z: seq<int>, w: seq<int>)
    ensures x + y + z + w == x + y + (z + w)
  {
  }

  // The part y of a concatenation, wherever the rest of it is cut.
  lemma PartOf(s: seq<int>, x: seq<int>, y: seq<int>, z: seq<int>)
    requires s == x + y + z
    ensures |x| + |y| <= |s| && s[|x|..|x| + |y|] == y
  {
    Middle(x, y, z);
  }

  // A file in the loader's own layout and shape: its parts are where the loader looks for them.
  lemma TransPart(z: Sizes, f: File)
    requires Sized(f) && f.compressed == z.compressed && SameShape(z, f)
    ensures var t, s := f.base + f.def + f.nxt + f.chk, Stream(f); |t| == TransSize(z) <= |s| && s[..|t|] == t
  {
    var t := f.base + f.def + f.nxt + f.chk;
    var rest := f.acceptNormal + f.acceptEol + [|f.condNormal|] + f.condNormal + f.condBol + f.ruleTrail;
    assert Stream(f) == t + rest;
  }

  lemma SlotParts(f: File)
    ensures var t, s := |f.base + f.def + f.nxt + f.chk|, Stream(f);
            var a, b := t + |f.acceptNormal|, t + |f.acceptNormal| + |f.acceptEol|;
            b < |s| && s[t..a] == f.acceptNormal && s[a..b] == f.acceptEol && s[b] == |f.condNormal|
  {
    var t, a, e, n := f.base + f.def + f.nxt + f.chk, f.acceptNormal, f.acceptEol, [|f.condNormal|];
    var tail := f.condNormal + f.condBol + f.ruleTrail;
    RegroupTail(t + a + e + n, f.condNormal, f.condBol, f.ruleTrail);
    FiveParts(t, a, e, n, tail);
  }

  lemma RegroupTail(x: seq<int>, y: seq<int>, z: seq<int>, w: seq<int>)
    ensures x + y + z + w == x + (y + z + w)
  {
  }

  lemma RegroupFive(t: seq<int>, a: seq<int>, e: seq<int>, n: seq<int>, tail: seq<int>)
    ensures t + a + e + n + tail == t + a + (e + n + tail) == (t + a) + e + (n + tail)
  {
  }

  // Where the second, third and fourth of five parts are.
  lemma FiveParts(t: seq<int>, a: seq<int>, e: seq<int>, n: seq<int>, tail: seq<int>)
    requires |n| == 1
    ensures var s, i, j := t + a + e + n + tail, |t| + |a|, |t| + |a| + |e|;
            j < |s| && s[|t|..i] == a && s[i..j] == e && s[j] == n[0]
  {
    RegroupFive(t, a, e, n, tail);
    PartOf(t + a + e + n + tail, t, a, e + n + tail);
    PartOf(t + a + e + n + tail, t + a, e, n + tail);
  }

  lemma ConditionParts(f: File)
    ensures var s := Stream(f);
            var c := |f.base + f.def + f.nxt + f.chk| + |f.acceptNormal| + |f.acceptEol| + 1;
            var b, e := c + |f.condNormal|, c + |f.condNormal| + |f.condBol|;
            |s| == e + |f.ruleTrail| && s[c..b] == f.condNormal && s[b..e] == f.condBol && s[e..] == f.ruleTrail
  {
    var s := Stream(f);
    var head := f.base + f.def + f.nxt + f.chk + f.acceptNormal + f.acceptEol + [|f.condNormal|];
    Regroup(head, f.condNormal, f.condBol, f.ruleTrail);
    PartOf(s, head, f.condNormal, f.condBol + f.ruleTrail);
    PartOf(s, head + f.condNormal, f.condBol, f.ruleTrail);
    assert s[|head + f.condNormal + f.condBol|..] == f.ruleTrail;
  }

  /** A file in the loader's own layout is taken iff the dimensions and the number of conditions are equal and it has
      enough rules. */
  lemma TakesOwnLayout(z: Sizes, f: File)
    requires Sized(f) && f.compressed == z.compressed
    ensures Takes(z, f) <==> SameShape(z, f) && |f.condNormal| == z.nconds && |f.ruleTrail| >= z.nrules
  {
    if SameShape(z, f) {
      TransPart(z, f);
      SlotParts(f);
      ConditionParts(f);
    }
  }

  /** A scanner with packed tables takes no dense file. */
  lemma PackedTakesNoDense(z: Sizes, f: File)
    requires Sized(f) && z.compressed && z.pool > 0 && !f.compressed
    ensures !Takes(z, f)
  {
  }

  /** A scanner with dense tables takes a packed file iff the dimensions are equal, the integer found where the number
      of conditions is expected happens to be that number, and integers enough follow. */
  lemma DenseTakesPacked(z: Sizes, f: File)
    requires Sized(f) && !z.compressed && f.compressed
    ensures Takes(z, f) <==> f.nclasses == z.nclasses && f.nstates == z.nstates && FitsStream(z, Stream(f))
  {
  }

  // ---------- the round trip ------------------------------------------------

  // The loader emitted with a DFA: yy_rule_trail_len always has an entry.
  function SizesOf(n: Nfa, d: Dfa, compressed: bool, comb: CompressedDfa): Sizes {
    Sizes(compressed, d.eclasses.nclasses, |d.states|, if compressed then |comb.chk| else 0, |d.condStarts|,
          if |n.ruleTrail| == 0 then 1 else |n.ruleTrail|)
  }

  /** The file of a DFA is taken by the loader emitted with it iff there is a rule: with none the loader asks for an
      entry nobody wrote. */
  lemma OwnFileTaken(n: Nfa, d: Dfa, compressed: bool, name: Word, meta: Word, comb: CompressedDfa)
    requires Writable(d) && Sized(FileOf(n, d, compressed, name, meta, comb))
    ensures Takes(SizesOf(n, d, compressed, comb), FileOf(n, d, compressed, name, meta, comb)) <==> n.ruleTrail != []
  {
    TakesOwnLayout(SizesOf(n, d, compressed, comb), FileOf(n, d, compressed, name, meta, comb));
  }

  /** There is such a scanner: one condition, no rule. */
  lemma NoRulesExample() returns (n: Nfa, d: Dfa, f: File)
    ensures Writable(d) && n.ruleTrail == [] && f == FileOf(n, d, false, [], [0], CompressedDfa([], [], [], []))
    ensures Readable(f) && !Takes(SizesOf(n, d, false, CompressedDfa([], [], [], [])), f)
  {
    var dead := DState([-1], -1, -1, [], []);
    n := Nfa([State([], -1, false), State([], -1, false)], [CondStart(0, 1)], [false], [], [], [], []);
    d := Dfa([dead, dead, dead], [DStart(1, 2)], Eclasses(seq(256, _ => 0), 1));
    f := FileOf(n, d, false, [], [0], CompressedDfa([], [], [], []));
    assert Has(d.eclasses.ec, 0) by { assert d.eclasses.ec[0] == 0; }
    FlatLength(Rows(d), 1);
    assert AllInt32(f.nxt) by {
      forall i | 0 <= i < |f.nxt| ensures f.nxt[i] == -1 { FlatAt(Rows(d), 1, i, 0); }
    }
    OwnFileTaken(n, d, false, [], [0], CompressedDfa([], [], [], []));
  }

  // The scanner of the rules a and a?, in one condition: its NFA, its DFA with the bytes but a in class 0, and the
  // packed form of the DFA. States 1 and 2 are the two starts, which go to 3 on a.
  function SmallNfa(): Nfa {
    Nfa([State([Eps(2), Eps(6)], -1, false), State([Eps(2), Eps(6)], -1, false),
         State([Edge(3, {97})], -1, false), State([], 0, false),
         State([Edge(5, {97})], -1, false), State([Eps(7)], -1, false),
         State([Eps(4), Eps(7)], -1, false), State([], 1, false)],
        [CondStart(0, 1)], [false], [false, false], [false, false], [0, 0], [[], []])
  }

  function SmallDfa(): Dfa {
    Dfa([DState([-1, -1], -1, -1, [], []), DState([-1, 3], 1, -1, [1], []),
         DState([-1, 3], 1, -1, [1], []), DState([-1, -1], 0, -1, [0, 1], [])],
        [DStart(1, 2)], Eclasses(seq(256, i => if i == 97 then 1 else 0), 2))
  }

  function SmallComb(): CompressedDfa {
    CompressedDfa([0, 0, 1, 0], [0, 0, 0, 0], [0, 3, 3], [-1, 1, 2])
  }

  lemma SmallWritable()
    ensures Writable(SmallDfa()) && Rectangular(Rows(SmallDfa()), 2) && Lossless(Rows(SmallDfa()), 2, SmallComb())
  {
    var d, rows := SmallDfa(), Rows(SmallDfa());
    assert d.eclasses.ec[0] == 0 && d.eclasses.ec[97] == 1;
    assert Has(d.eclasses.ec, 0) && Has(d.eclasses.ec, 1);
    forall s: nat, c: nat | s < 4 && c < 2 ensures Answers(rows, SmallComb(), s, c) {
      assert rows[s] == d.states[s].next;
    }
  }

  const SMALL: seq<int> :=
    [0, 0, 1, 0, 0, 0, 0, 0, 0, 3, 3, -1, 1, 2, -1, 1, 1, 0, -1, -1, -1, -1, 1, 1, 2, 0, 0]

  lemma SmallSlots()
    ensures NormalSlots(SmallDfa()) == [-1, 1, 1, 0] && EolSlots(SmallDfa()) == [-1, -1, -1, -1]
    ensures Normals(SmallDfa()) == [1] && Bols(SmallDfa()) == [2]
  {
  }

  // The file of its packed tables.
  ghost predicate IsSmall(f: File) {
    && f.compressed && f.name == [] && f.nclasses == 2 && f.nstates == 4 && f.pool == 3 && |f.ec| == 256
      && f.meta == [0, 1]
    && f.base == [0, 0, 1, 0] && f.def == [0, 0, 0, 0] && f.nxt == [0, 3, 3] && f.chk == [-1, 1, 2]
    && f.acceptNormal == [-1, 1, 1, 0] && f.acceptEol == [-1, -1, -1, -1]
    && f.condNormal == [1] && f.condBol == [2] && f.ruleTrail == [0, 0]
  }

  lemma SmallFile(f: File)
    requires |SmallDfa().eclasses.ec| == 256 && forall i :: 0 <= i < 256 ==> SmallDfa().eclasses.ec[i] < 256
    requires f == FileOf(SmallNfa(), SmallDfa(), true, [], [0, 1], SmallComb())
    ensures IsSmall(f)
  {
    SmallSlots();
  }

  lemma SmallReadable(f: File)
    requires IsSmall(f)
    ensures Readable(f)
  {
  }

  lemma SmallStream(f: File)
    requires IsSmall(f)
    ensures Stream(f) == SMALL
  {
    assert f.base + f.def + f.nxt + f.chk == [0, 0, 1, 0, 0, 0, 0, 0, 0, 3, 3, -1, 1, 2];
    assert f.acceptNormal + f.acceptEol == [-1, 1, 1, 0, -1, -1, -1, -1];
  }

  lemma SmallTaken(z: Sizes, f: File)
    requires IsSmall(f) && z == Sizes(false, 2, 4, 0, 1, 2)
    ensures Takes(z, f) && TransSize(z) <= |Stream(f)| && Stream(f)[1 * 2 + 1] == 0
  {
    SmallStream(f);
  }

  lemma SmallSizes()
    ensures SizesOf(SmallNfa(), SmallDfa(), false, SmallComb()) == Sizes(false, 2, 4, 0, 1, 2)
  {
  }

  /** There is such a scanner, of two rules: compiled with dense tables it takes the file written for its packed ones.
      Of the four rows it then has, that of the first start no longer goes to state 3 on a. */
  lemma WrongLayoutTaken() returns (z: Sizes, f: File)
    ensures Writable(SmallDfa()) && Rectangular(Rows(SmallDfa()), 2) && Lossless(Rows(SmallDfa()), 2, SmallComb())
    ensures f == FileOf(SmallNfa(), SmallDfa(), true, [], [0, 1], SmallComb()) && Readable(f)
    ensures z == SizesOf(SmallNfa(), SmallDfa(), false, SmallComb()) && Takes(z, f)
    ensures TransSize(z) <= |Stream(f)| && Stream(f)[1 * 2 + 1] == 0 && SmallDfa().states[1].next[1] == 3
  {
    SmallWritable();
    SmallSizes();
    f := FileOf(SmallNfa(), SmallDfa(), true, [], [0, 1], SmallComb());
    z := Sizes(false, 2, 4, 0, 1, 2);
    SmallFile(f);
    SmallReadable(f);
    SmallTaken(z, f);
  }

  // The scanner's tables after a successful load: the arrays in the file are overwritten, the others stay as compiled
  // in.
  ghost predicate Overwritten(t: Tables, l: Loader, t': Tables)
    reads l
  {
    && t'.ec == l.ec && t'.acceptNormal == l.acceptNormal && t'.acceptEol == l.acceptEol
    && t'.condNormal == l.condNormal && t'.condBol == l.condBol
    && |t'.ruleTrail| == |t.ruleTrail| && l.ruleTrail <= t'.ruleTrail
    && t'.acceptLists == t.acceptLists && t'.boundaryLists == t.boundaryLists && t'.ruleEol == t.ruleEol
    && match t'.trans
       case Combed(c) => l.z.compressed && c.base == l.base && c.def == l.def && c.nxt == l.nxt && c.chk == l.chk
       case Dense(rows) =>
         && !l.z.compressed && |rows| == l.z.nstates && |l.nxt| == l.z.nstates * l.z.nclasses
         && forall s :: 0 <= s < |rows| ==> RowIs(rows[s], l.nxt, s, l.z.nclasses)
  }

  lemma Overwrite(t: Tables, l: Loader) returns (t': Tables)
    requires if l.z.compressed then forall i :: 0 <= i < |l.base| ==> l.base[i] >= 0
             else |l.nxt| == l.z.nstates * l.z.nclasses
    requires |l.ruleTrail| <= |t.ruleTrail|
    ensures Overwritten(t, l, t')
  {
    var trans;
    if l.z.compressed {
      var offsets := l.base;
      var base: seq<nat> := seq(|offsets|, i requires 0 <= i < |offsets| && offsets[i] >= 0 => offsets[i] as nat);
      assert base == offsets;
      trans := Combed(CompressedDfa(base, l.def, l.nxt, l.chk));
    } else {
      var rows := RowsOf(l.nxt, l.z.nstates, l.z.nclasses);
      trans := Dense(rows);
    }
    t' := t.(ec := l.ec, trans := trans, acceptNormal := l.acceptNormal, acceptEol := l.acceptEol,
             condNormal := l.condNormal, condBol := l.condBol, ruleTrail := l.ruleTrail + t.ruleTrail[|l.ruleTrail|..]);
  }

  // Row s of a flat array of width m.
  ghost predicate RowIs(row: seq<int>, flat: seq<int>, s: nat, m: nat) {
    |row| == m && forall c :: 0 <= c < m ==> 0 <= s * m + c < |flat| && row[c] == flat[s * m + c]
  }

  lemma Distribute(a: nat, b: nat, m: nat)
    ensures (a + b) * m == a * m + b * m && b * m >= 0
  {
  }

  lemma RowInside(s: nat, n: nat, m: nat)
    requires s < n
    ensures s * m + m <= n * m && (s + 1) * m == s * m + m
  {
    Distribute(s, 1, m);
    Distribute(s + 1, n - s - 1, m);
  }

  lemma RowsOf(flat: seq<int>, n: nat, m: nat) returns (rows: seq<seq<int>>)
    requires |flat| == n * m
    ensures |rows| == n && forall s :: 0 <= s < n ==> RowIs(rows[s], flat, s, m)
  {
    rows := [];
    var o := 0;
    while |rows| < n
      invariant |rows| <= n && o == |rows| * m
      invariant forall s :: 0 <= s < |rows| ==> RowIs(rows[s], flat, s, m)
    {
      RowInside(|rows|, n, m);
      SliceIsRow(flat, |rows|, o, m);
      rows := rows + [flat[o..o + m]];
      o := o + m;
    }
  }

  lemma SliceIsRow(flat: seq<int>, s: nat, o: nat, m: nat)
    requires o == s * m && o + m <= |flat|
    ensures RowIs(flat[o..o + m], flat, s, m)
  {
  }

  // A loader whose arrays are those of d.
  ghost predicate Restored(l: Loader, n: Nfa, d: Dfa, comb: CompressedDfa)
    requires Writable(d)
    reads l
  {
    && l.z.nstates == |d.states| && l.z.nclasses == d.eclasses.nclasses && l.ec == ClassMap(d.eclasses)
    && l.acceptNormal == NormalSlots(d) && l.acceptEol == EolSlots(d)
    && l.condNormal == Normals(d) && l.condBol == Bols(d) && l.ruleTrail == n.ruleTrail
    && if l.z.compressed then l.base == comb.base && l.def == comb.def && l.nxt == comb.nxt && l.chk == comb.chk
      else l.nxt == Flat(Rows(d))
  }

  lemma FourParts(b: seq<int>, d: seq<int>, n: seq<int>, c: seq<int>)
    ensures var t, i, j, k := b + d + n + c, |b|, |b| + |d|, |b| + |d| + |n|;
            t[..i] == b && t[i..j] == d && t[j..k] == n && t[k..] == c && |t| == k + |c|
  {
  }

  lemma SubSlice(s: seq<int>, t: seq<int>, i: nat, j: nat)
    requires |t| <= |s| && s[..|t|] == t && i <= j <= |t|
    ensures s[i..j] == t[i..j]
  {
    assert s[..|t|][i..j] == s[i..j];
  }

  lemma TransRestored(l: Loader, f: File)
    requires Sized(f) && f.compressed == l.z.compressed && SameShape(l.z, f) && l.TransFilled(Stream(f))
    ensures l.nxt == f.nxt && (l.z.compressed ==> l.base == f.base && l.def == f.def && l.chk == f.chk)
  {
    var t, s := f.base + f.def + f.nxt + f.chk, Stream(f);
    TransPart(l.z, f);
    FourParts(f.base, f.def, f.nxt, f.chk);
    if l.z.compressed {
      var p := l.z.nstates + l.z.nstates;
      SubSlice(s, t, 0, l.z.nstates);
      SubSlice(s, t, l.z.nstates, p);
      SubSlice(s, t, p, p + l.z.pool);
      SubSlice(s, t, p + l.z.pool, |t|);
    } else {
      assert t == f.nxt;
    }
  }

  lemma SlotsRestored(l: Loader, f: File, t: nat)
    requires Sized(f) && f.nstates == l.z.nstates && t == |f.base + f.def + f.nxt + f.chk|
             && l.SlotsFilled(Stream(f), t)
    ensures l.acceptNormal == f.acceptNormal && l.acceptEol == f.acceptEol
  {
    SlotParts(f);
  }

  lemma ConditionsRestored(l: Loader, f: File, c: nat)
    requires Sized(f) && |f.condNormal| == l.z.nconds && l.z.nrules <= |f.ruleTrail|
    requires c == |f.base + f.def + f.nxt + f.chk| + |f.acceptNormal| + |f.acceptEol| + 1
             && l.ConditionsFilled(Stream(f), c)
    ensures l.condNormal == f.condNormal && l.condBol == f.condBol && l.ruleTrail == f.ruleTrail[..l.z.nrules]
  {
    ConditionParts(f);
    var s, e := Stream(f), c + l.z.nconds + l.z.nconds;
    assert s[e..e + l.z.nrules] == s[e..][..l.z.nrules];
  }

  /** A taken file of the loader's own layout fills every array with the file's. */
  lemma FilledOwnLayout(l: Loader, f: File)
    requires Sized(f) && f.compressed == l.z.compressed && Takes(l.z, f) && l.Filled(f)
    ensures l.nxt == f.nxt && (l.z.compressed ==>
            l.meta == f.meta && l.base == f.base && l.def == f.def && l.chk == f.chk)
    ensures l.ec == f.ec && l.acceptNormal == f.acceptNormal && l.acceptEol == f.acceptEol
    ensures l.condNormal == f.condNormal && l.condBol == f.condBol && l.z.nrules <= |f.ruleTrail|
            && l.ruleTrail == f.ruleTrail[..l.z.nrules]
  {
    TakesOwnLayout(l.z, f);
    TransPart(l.z, f);
    TransRestored(l, f);
    SlotsRestored(l, f, TransSize(l.z));
    ConditionsRestored(l, f, CountAt(l.z) + 1);
  }

  /** Loading its own file gives a scanner back every array it was emitted with. */
  lemma FilledIsRestored(l: Loader, n: Nfa, d: Dfa, name: Word, meta: Word, comb: CompressedDfa)
    requires Writable(d) && l.z == SizesOf(n, d, l.z.compressed, comb) && n.ruleTrail != []
    requires var f := FileOf(n, d, l.z.compressed, name, meta, comb); Sized(f) && l.Filled(f)
    ensures Restored(l, n, d, comb)
  {
    var f := FileOf(n, d, l.z.compressed, name, meta, comb);
    OwnFileTaken(n, d, l.z.compressed, name, meta, comb);
    FilledOwnLayout(l, f);
    assert f.ruleTrail[..|f.ruleTrail|] == f.ruleTrail;
  }

  lemma RestoredShape(l: Loader, n: Nfa, d: Dfa, comb: CompressedDfa)
    requires Writable(d) && Restored(l, n, d, comb)
    ensures if l.z.compressed then forall i :: 0 <= i < |l.base| ==> l.base[i] >= 0
            else |l.nxt| == l.z.nstates * l.z.nclasses
  {
    FlatLength(Rows(d), d.eclasses.nclasses);
  }

  // ---------- the tables still implement the rules --------------------------

  lemma RowsMatch(rows: seq<seq<int>>, d: Dfa)
    requires Writable(d) && |rows| == |d.states| && forall s :: 0 <= s < |rows| ==>
             RowIs(rows[s], Flat(Rows(d)), s, d.eclasses.nclasses)
    ensures forall s :: 0 <= s < |rows| ==> rows[s] == d.states[s].next
  {
    forall s | 0 <= s < |rows| ensures rows[s] == d.states[s].next {
      assert RowIs(rows[s], Flat(Rows(d)), s, d.eclasses.nclasses);
      forall c | 0 <= c < d.eclasses.nclasses ensures rows[s][c] == d.states[s].next[c] {
        FlatAt(Rows(d), d.eclasses.nclasses, s, c);
      }
    }
  }

  /** After loading its own file the scanner's tables hold what the DFA holds, as they did when it was emitted. */
  lemma LoadedTables(t: Tables, l: Loader, t': Tables, n: Nfa, d: Dfa, comb: CompressedDfa)
    requires Writable(d) && Emittable(n, d) && TablesFor(t, n, d) && Restored(l, n, d, comb) && Overwritten(t, l, t')
    requires l.z.compressed ==>
             Rectangular(Rows(d), d.eclasses.nclasses) && Lossless(Rows(d), d.eclasses.nclasses, comb)
    ensures TablesFor(t', n, d)
  {
    match t'.trans {
      case Dense(rows) => RowsMatch(rows, d);
      case Combed(c) => assert c == comb;
    }
    TransitionsAgree(t', n, d);
  }
}
