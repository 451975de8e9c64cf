// Big-endian 32-bit integers in a byte string, as src/tables.cpp writes them
// and the emitted loader (the end of emit_c in src/codegen.cpp) reads them.

module TableBytes {
  import opened Bytes

  const TWO_31: int := 0x8000_0000
  const TWO_32: int := 0x1_0000_0000

  // ---------- big-endian 32-bit integers -----------------------------------

  predicate IsInt32(v: int) {
    -TWO_31 <= v < TWO_31
  }

  // static_cast<uint32_t>, and the loader's cast back to int.
  function Unsigned(v: int): int {
    v % TWO_32
  }

  function Signed(u: int): int {
    if u >= TWO_31 then u - TWO_32 else u
  }

  /** put_u32, and put_i32 through the cast. */
  function Be32(v: int): (bytes: Word)
    ensures |bytes| == 4
  {
    var u := Unsigned(v);
    [u / 0x100_0000 % 0x100, u / 0x1_0000 % 0x100, u / 0x100 % 0x100, u % 0x100]
  }

  /** yy_read_be32. */
  function FromBe32(b: Word): int
    requires |b| == 4
  {
    Signed((b[0] as int) * 0x100_0000 + (b[1] as int) * 0x1_0000 + (b[2] as int) * 0x100 + (b[3] as int))
  }

  lemma Be32RoundTrip(v: int)
    requires IsInt32(v)
    ensures FromBe32(Be32(v)) == v
  {
    var u := Unsigned(v);
    var a, b, c := u / 0x100_0000, u / 0x1_0000, u / 0x100;
    assert 0 <= u < TWO_32 && 0 <= a < 0x100;
    assert u == c * 0x100 + u % 0x100 && c == b * 0x100 + c % 0x100 && b == a * 0x100 + b % 0x100;
  }

  /** The most significant byte comes first, and negative numbers are in two's complement. */
  lemma BigEndian(v: int, k: nat)
    requires IsInt32(v) && k < 4
    ensures var u := if v < 0 then v + 0x1_0000_0000 else v;
            Be32(v)[k] == (if k == 0 then u / 0x100_0000 else if k == 1 then u / 0x1_0000
                           else if k == 2 then u / 0x100 else u) % 0x100
  {
  }

  lemma SmallNumber(v: byte)
    ensures Be32(v) == [0, 0, 0, v]
  {
  }

  function Ints(vs: seq<int>): (bytes: Word)
    ensures |bytes| == 4 * |vs|
  {
    if vs == [] then [] else Be32(vs[0]) + Ints(vs[1..])
  }

  lemma {:induction false} IntsAppend(vs: seq<int>, ws: seq<int>)
    ensures Ints(vs + ws) == Ints(vs) + Ints(ws)
  {
    if vs == [] {
      assert vs + ws == ws;
    } else {
      assert (vs + ws)[1..] == vs[1..] + ws;
      IntsAppend(vs[1..], ws);
    }
  }

  predicate AllInt32(vs: seq<int>) {
    forall i :: 0 <= i < |vs| ==> IsInt32(vs[i])
  }

  lemma TakeNext(vs: seq<int>, i: nat)
    requires i < |vs|
    ensures vs[..i + 1] == vs[..i] + [vs[i]]
  {
  }

  method PutInts(out: Word, vs: seq<int>) returns (out': Word)
    ensures out' == out + Ints(vs)
  {
    out' := out;
    var i := 0;
    while i < |vs|
      invariant i <= |vs| && out' == out + Ints(vs[..i])
    {
      TakeNext(vs, i);
      IntsAppend(vs[..i], [vs[i]]);
      out' := out' + Be32(vs[i]);
      i := i + 1;
    }
    assert vs[..i] == vs;
  }

  // ---------- reading -------------------------------------------------------

  // a starts with the four bytes of v, and b follows.
  ghost predicate NumberThen(a: Word, v: int, b: Word) {
    |a| >= 4 && FromBe32(a[..4]) == v && a[4..] == b
  }

  // What is left to read before each integer of vs, and after the last.
  ghost predicate Cuts(rests: seq<Word>, vs: seq<int>) {
    && |rests| == |vs| + 1 && rests[|vs|] == []
    && forall i :: 0 <= i < |vs| ==> NumberThen(rests[i], vs[i], rests[i + 1])
  }

  lemma {:induction false} CutsLength(rests: seq<Word>, vs: seq<int>, i: nat)
    requires Cuts(rests, vs) && i <= |vs|
    ensures |rests[i]| == 4 * (|vs| - i)
    decreases |vs| - i
  {
    if i < |vs| {
      CutsLength(rests, vs, i + 1);
      assert NumberThen(rests[i], vs[i], rests[i + 1]);
    }
  }

  lemma NumberFirst(v: int, more: Word)
    requires IsInt32(v)
    ensures NumberThen(Be32(v) + more, v, more)
  {
    Be32RoundTrip(v);
    assert (Be32(v) + more)[..4] == Be32(v);
  }

  lemma CutsCons(rests: seq<Word>, vs: seq<int>, first: Word)
    requires vs != [] && Cuts(rests, vs[1..]) && NumberThen(first, vs[0], rests[0])
    ensures Cuts([first] + rests, vs)
  {
    var all := [first] + rests;
    forall i | 0 <= i < |vs| ensures NumberThen(all[i], vs[i], all[i + 1]) {
      if i > 0 { assert NumberThen(rests[i - 1], vs[1..][i - 1], rests[i]); }
    }
  }

  lemma {:induction false} Cut(vs: seq<int>) returns (rests: seq<Word>)
    requires AllInt32(vs)
    ensures Cuts(rests, vs) && rests[0] == Ints(vs)
  {
    if vs == [] {
      rests := [[]];
    } else {
      var later := Cut(vs[1..]);
      NumberFirst(vs[0], later[0]);
      CutsCons(later, vs, Ints(vs));
      rests := [Ints(vs)] + later;
    }
  }

  // A file opened for reading; the position may be seeked past the end.
  class Reader {
    const data: Word
    var pos: nat

    constructor (data: Word)
      ensures this.data == data && pos == 0
    {
      this.data, pos := data, 0;
    }

    function Rest(): Word
      reads this
    {
      if pos <= |data| then data[pos..] else []
    }

    // fread of n bytes.
    method Read(n: nat) returns (ok: bool, bytes: Word)
      modifies this
      ensures ok <==> |old(Rest())| >= n
      ensures ok ==> |bytes| == n && bytes == old(Rest())[..n] && Rest() == old(Rest())[n..]
    {
      if pos + n > |data| {
        if n == 0 { return true, []; }
        pos := if pos <= |data| then |data| else pos;
        return false, [];
      }
      bytes := data[pos..pos + n];
      pos := pos + n;
      ok := true;
    }

    // fseek.
    method Seek(n: int) returns (ok: bool)
      modifies this
      ensures 0 <= n <= |old(Rest())| && old(Rest()) != [] ==> ok && Rest() == old(Rest())[n..]
    {
      if pos + n < 0 { return false; }
      pos := pos + n;
      ok := true;
    }

    // yy_read_be32.
    method ReadBe32() returns (ok: bool, r: int)
      modifies this
      ensures ok <==> |old(Rest())| >= 4
      ensures ok ==> Rest() == old(Rest())[4..] && r == FromBe32(old(Rest())[..4])
    {
      var bytes;
      r := 0;
      ok, bytes := Read(4);
      if ok { r := FromBe32(bytes); }
    }

    // Before integer i of vs.
    ghost predicate Before(vs: seq<int>, rests: seq<Word>, i: nat)
      reads this
    {
      Cuts(rests, vs) && i <= |vs| && Rest() == rests[i]
    }

    // The next integer of an array.
    method ReadNext(ghost vs: seq<int>, ghost rests: seq<Word>, ghost i: nat) returns (ok: bool, x: int)
      modifies this
      ensures old(Before(vs, rests, i)) ==> (ok <==> i < |vs|) && (ok ==> x == vs[i] && Before(vs, rests, i + 1))
    {
      if Before(vs, rests, i) {
        CutsLength(rests, vs, i);
        assert i < |vs| ==> NumberThen(rests[i], vs[i], rests[i + 1]);
      }
      ok, x := ReadBe32();
    }

    /** yy_read_int_array: fails iff the integers run out, and reads back what was written. */
    method ReadInts(n: nat, ghost vs: seq<int>, ghost rests: seq<Word>, ghost i: nat) returns (ok: bool, r: seq<int>)
      modifies this
      ensures old(Before(vs, rests, i)) ==>
              (ok <==> i + n <= |vs|) && (ok ==> r == vs[i..i + n] && Before(vs, rests, i + n))
    {
      r := [];
      ghost var good := Before(vs, rests, i);
      while |r| < n
        invariant |r| <= n
        invariant good ==> Before(vs, rests, i + |r|) && r == vs[i..i + |r|]
      {
        var x;
        ok, x := ReadNext(vs, rests, i + |r|);
        if !ok { return; }
        r := r + [x];
      }
      ok := true;
    }
  }
}
