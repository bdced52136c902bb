/** Reading fixed-width fields, slices and NUL-terminated strings out of a file image. */
module FileImage {
  import opened Wrappers
  import opened Bytes

  // A recovered function, as the symbol writers take it.
  datatype FuncSym = FuncSym(name: seq<byte>, address: u64)

  // The n-byte little-endian field at `off`.
  function Le(buf: seq<byte>, off: nat, n: nat): nat
    requires off + n <= |buf|
  {
    FromLe(buf[off..off + n])
  }

  // `size` bytes at `off`, if the file holds them.
  function Chunk(file: seq<byte>, off: nat, size: nat): (c: Option<seq<byte>>)
    ensures c.Some? ==> |c.value| == size
  {
    if off + size <= |file| then Some(file[off..off + size]) else None
  }

  // A string table reference: the bytes up to the NUL, None if the table holds no NUL from there on.
  function StringAt(table: seq<byte>, off: nat): Option<seq<byte>> {
    if off >= |table| then None
    else
      var s := UpToNul(table[off..]);
      if off + |s| == |table| then None else Some(s)
  }

  lemma SliceOfSuffix(x: seq<byte>, base: nat, off: nat, n: nat)
    requires base + off + n <= |x|
    ensures x[base + off..base + off + n] == x[base..][off..off + n]
  {
  }

  lemma MiddleChunk(pre: seq<byte>, mid: seq<byte>, post: seq<byte>, off: nat, n: nat)
    requires off + n <= |mid|
    ensures Chunk(pre + mid + post, |pre| + off, n) == Some(mid[off..off + n])
  {
    var x := pre + mid + post;
    assert x[|pre|..] == mid + post;
    SliceOfSuffix(x, |pre|, off, n);
    assert (mid + post)[off..off + n] == mid[off..off + n];
  }

  lemma {:induction false} UpToNulAppend(s: seq<byte>, t: seq<byte>)
    ensures |UpToNul(s)| < |s| ==> UpToNul(s + t) == UpToNul(s)
    ensures |UpToNul(s)| == |s| ==> UpToNul(s + t) == s + UpToNul(t)
  {
    if s == [] {
      assert s + t == t;
    } else if s[0] != 0 {
      assert (s + t)[1..] == s[1..] + t;
      UpToNulAppend(s[1..], t);
      assert UpToNul(s + t) == [s[0]] + UpToNul(s[1..] + t);
    }
  }

  // A reference that resolved keeps resolving to the same string when bytes are appended; one that ran
  // off the end of the table does not.
  lemma StringAtAppend(table: seq<byte>, more: seq<byte>, off: nat)
    ensures StringAt(table, off).Some? ==> StringAt(table + more, off) == StringAt(table, off)
    ensures StringAt(table, off).None? && StringAt(table + more, off).Some? ==>
        StringAt(table + more, off) != StringAt(table, off)
  {
    if off < |table| {
      assert (table + more)[off..] == table[off..] + more;
      UpToNulAppend(table[off..], more);
    }
  }

  lemma StringHere(pre: seq<byte>, s: seq<byte>, post: seq<byte>)
    requires 0 !in s
    ensures StringAt(pre + s + [0] + post, |pre|) == Some(s)
  {
    var table := pre + s + [0] + post;
    assert table[|pre|..] == s + ([0] + post);
    NoNul(s);
    UpToNulAppend(s, [0] + post);
    assert UpToNul([0] + post) == [];
    assert s + [] == s;
  }

  lemma {:induction false} NoNul(s: seq<byte>)
    requires 0 !in s
    ensures UpToNul(s) == s
  {
    if s != [] {
      NoNul(s[1..]);
    }
  }

  lemma FieldInside(h: seq<byte>, v: nat, n: nat, off: nat)
    requires off + n <= |h| && h[off..off + n] == ToLe(v, n) && v < Pow256(n)
    ensures Le(h, off, n) == v
  {
    LeRoundTrip(v, n);
    ModUnique(v, Pow256(n), 0, v);
  }
}
