/** The loaded binary: sections, address translation, and pcHeader discovery. */
module GoBin {
  import opened Wrappers
  import opened Bytes
  import opened Bits

  datatype SectionKind = Text | PclntabData | ReadOnlyData | Data | NoPtrData | Bss | Other

  datatype Section = Section(name: string, kind: SectionKind, fileOffset: u64, fileSize: u64, addr: u64, vmsize: u64) {
    predicate ContainsAddr(a: u64) {
      addr <= a < SatAdd64(addr, Max(vmsize, fileSize))
    }

    function FileOffsetOf(a: u64): Option<u64> {
      if !ContainsAddr(a) then None
      else if a - addr >= fileSize then None
      else Some(SatAdd64(fileOffset, a - addr))
    }
  }

  datatype GoBinary = GoBinary(
    bytes: seq<byte>, littleEndian: bool, ptrSize: nat, sections: seq<Section>,
    pclntabOffset: nat, pclntabSize: nat, pclntabAddr: u64, textAddr: u64)

  function SectionForAddr(sections: seq<Section>, a: u64): (r: Option<Section>)
    ensures r.Some? ==> r.value in sections && r.value.ContainsAddr(a)
    ensures r.None? ==> forall s :: s in sections ==> !s.ContainsAddr(a)
  {
    if sections == [] then None
    else if sections[0].ContainsAddr(a) then Some(sections[0])
    else SectionForAddr(sections[1..], a)
  }

  // `len` bytes at a runtime address; None where they are not all backed by one section's file bytes.
  function ReadAtAddr(bin: GoBinary, a: u64, len: nat): (r: Option<seq<byte>>)
    ensures r.Some? ==> |r.value| == len
  {
    var s :- SectionForAddr(bin.sections, a);
    var start :- s.FileOffsetOf(a);
    var end := start + len;
    if end >= U64 || end > SatAdd64(s.fileOffset, s.fileSize) || end > |bin.bytes| then None
    else Some(bin.bytes[start..end])
  }

  // ----- header discovery -----

  const MAGIC_1_20: u32 := 0xfffffff1
  const MAGIC_1_16: u32 := 0xfffffffa
  const MAGIC_1_2: u32 := 0xfffffffb

  const MAGIC_HEAD: seq<byte> := [0xff, 0xff, 0xff]

  // A magic is three 0xff bytes and one distinguishing byte, at the end the byte order says.
  function MagicBytes(low: byte, le: bool): (m: seq<byte>)
    ensures |m| == 4
  {
    if le then [low] + MAGIC_HEAD else MAGIC_HEAD + [low]
  }

  function Candidates(le: bool): (c: seq<seq<byte>>)
    ensures |c| == 3 && forall k :: 0 <= k < 3 ==> |c[k]| == 4
  {
    [MagicBytes(0xf1, le), MagicBytes(0xf0, le), MagicBytes(0xfa, le)]
  }

  // Where the needle first occurs.
  function FindSubslice(haystack: seq<byte>, needle: seq<byte>): (r: Option<nat>)
    ensures r.Some? ==> MatchesAt(haystack, r.value, needle)
    ensures r.Some? ==> forall o: nat :: o < r.value ==> !MatchesAt(haystack, o, needle)
    ensures r.None? ==> forall o: nat :: !MatchesAt(haystack, o, needle)
  {
    FindFrom(haystack, needle, 0)
  }

  function FindFrom(haystack: seq<byte>, needle: seq<byte>, from: nat): (r: Option<nat>)
    ensures r.Some? ==> from <= r.value && MatchesAt(haystack, r.value, needle)
    ensures r.Some? ==> forall o: nat :: from <= o < r.value ==> !MatchesAt(haystack, o, needle)
    ensures r.None? ==> forall o: nat :: from <= o ==> !MatchesAt(haystack, o, needle)
    decreases |haystack| - from
  {
    if from + |needle| > |haystack| then None
    else if MatchesAt(haystack, from, needle) then Some(from)
    else if from == |haystack| then None
    else FindFrom(haystack, needle, from + 1)
  }

  // Joins the bytes of a word one by one, from the low end or from the high end as the byte order says.
  method ReadUintAt(bytes: seq<byte>, off: nat, ptrSize: nat, le: bool) returns (r: Option<u64>)
    requires ptrSize <= 8
    ensures r == WordAt(bytes, off, ptrSize, le)
  {
    if off + ptrSize > |bytes| {
      return None;
    }
    var slice := bytes[off..off + ptrSize];
    var v := JoinBytes(slice, le);
    FitsWord(slice, le);
    return Some(v);
  }

  method JoinBytes(slice: seq<byte>, le: bool) returns (v: nat)
    ensures v == FromWord(slice, le)
  {
    hide Or, Pow2, FromLe, FromBe;
    EmptyWord();
    assert slice[..0] == [];
    v := 0;
    var i := 0;
    if le {
      while i < |slice|
        invariant 0 <= i <= |slice| && v == FromLe(slice[..i])
      {
        var b := slice[i];
        LeStep(slice, i);
        v := Or(v, b * Pow2(8 * i));
        i := i + 1;
      }
    } else {
      while i < |slice|
        invariant 0 <= i <= |slice| && v == FromBe(slice[..i])
      {
        var b := slice[i];
        BeStep(slice, i);
        v := Or(v * 0x100, b);
        i := i + 1;
      }
    }
    assert slice[..i] == slice;
  }

  lemma EmptyWord()
    ensures FromLe([]) == FromBe([]) == 0
  {
  }

  lemma BeStep(s: seq<byte>, i: nat)
    requires i < |s|
    ensures FromBe(s[..i + 1]) == Or(FromBe(s[..i]) * 0x100, s[i])
  {
    hide Or;
    assert s[..i + 1][..i] == s[..i];
    ShiftIn(FromBe(s[..i]), s[i]);
  }

  lemma LeStep(s: seq<byte>, i: nat)
    requires i < |s|
    ensures FromLe(s[..i + 1]) == Or(FromLe(s[..i]), s[i] * Pow2(8 * i))
  {
    hide Or;
    assert s[..i + 1] == s[..i] + [s[i]];
    LeAppend(s[..i], s[i]);
    LeBound(s[..i]);
    PowersAgree(i);
    OrDisjoint(FromLe(s[..i]), s[i], 8 * i);
  }

  lemma {:induction false} PowersAgree(n: nat)
    ensures Pow256(n) == Pow2(8 * n)
  {
    if n > 0 {
      PowersAgree(n - 1);
      Pow2Add(8, 8 * (n - 1));
      assert Pow2(8) == 0x100;
    }
  }

  lemma FitsWord(s: seq<byte>, le: bool)
    requires |s| <= 8
    ensures FromWord(s, le) < U64
  {
    WordBound(s, le);
    Pow256Monotone(|s|, 8);
    Pow256Values();
  }

  lemma {:induction false} Pow256Monotone(a: nat, b: nat)
    requires a <= b
    ensures Pow256(a) <= Pow256(b)
    decreases b
  {
    if a < b {
      Pow256Monotone(a, b - 1);
    }
  }

  lemma ShiftIn(v: nat, b: byte)
    ensures Or(v * 0x100, b) == v * 0x100 + b
  {
    hide Or;
    assert Pow2(8) == 0x100;
    OrDisjoint(b, v, 8);
    OrSymmetric(b, v * 0x100);
  }

  lemma {:induction false} LeAppend(s: seq<byte>, b: byte)
    ensures FromLe(s + [b]) == FromLe(s) + b * Pow256(|s|)
  {
    if s == [] {
      assert s + [b] == [b];
    } else {
      assert (s + [b])[1..] == s[1..] + [b];
      LeAppend(s[1..], b);
      var p := Pow256(|s| - 1);
      assert 256 * (b * p) == b * (256 * p);
    }
  }

  // The five table offsets of a header starting at `off`, whose first is `first` pointers in.
  datatype Tables = Tables(funcname: nat, cu: nat, filetab: nat, pctab: nat, functab: nat) {
    predicate Climb() { funcname < cu < filetab < pctab < functab }
  }

  function TablesAt(bytes: seq<byte>, off: nat, ps: nat, first: nat, le: bool): Option<Tables> {
    var a :- WordAt(bytes, off + 8 + first * ps, ps, le);
    var b :- WordAt(bytes, off + 8 + (first + 1) * ps, ps, le);
    var c :- WordAt(bytes, off + 8 + (first + 2) * ps, ps, le);
    var d :- WordAt(bytes, off + 8 + (first + 3) * ps, ps, le);
    var e :- WordAt(bytes, off + 8 + (first + 4) * ps, ps, le);
    Some(Tables(a, b, c, d, e))
  }

  predicate ShapeAt(bytes: seq<byte>, off: nat) {
    && off + 8 <= |bytes|
    && bytes[off + 4] == 0 && bytes[off + 5] == 0
    && bytes[off + 6] in {1, 2, 4}
    && bytes[off + 7] in {4, 8}
  }

  // The bytes from `off` to the end of the file, if they look like a pcHeader.
  function PcheaderAt(bytes: seq<byte>, off: nat, sections: seq<Section>, le: bool): Option<nat> {
    if !ShapeAt(bytes, off) then None
    else
      var ps := bytes[off + 7] as int;
      if WordAt(bytes, off, 4, le) == Some(MAGIC_1_16) then
        if off + 8 + 7 * ps > |bytes| then None
        else
          var t :- TablesAt(bytes, off, ps, 2, le);
          if !t.Climb() || t.functab >= |bytes| - off then None else Some(|bytes| - off)
      else if off + 8 + 8 * ps > |bytes| then None
      else
        var textStart :- WordAt(bytes, off + 8 + 2 * ps, ps, le);
        var t :- TablesAt(bytes, off, ps, 3, le);
        if !t.Climb() || t.functab >= |bytes| - off || !TextOk(textStart, sections) then None
        else Some(|bytes| - off)
  }

  predicate TextOk(textStart: nat, sections: seq<Section>) {
    textStart == 0 || (textStart < U64 && exists t :: t in sections && t.kind == Text && t.ContainsAddr(textStart))
  }

  // An accepted header: one of the three magics, and the whole shape.
  predicate Accepted(bytes: seq<byte>, off: nat, sections: seq<Section>, le: bool) {
    exists k :: 0 <= k < 3 && HeaderWith(bytes, off, Candidates(le)[k], sections, le)
  }

  predicate HeaderWith(bytes: seq<byte>, off: nat, magic: seq<byte>, sections: seq<Section>, le: bool) {
    MatchesAt(bytes, off, magic) && PcheaderAt(bytes, off, sections, le).Some?
  }

  datatype Error = NoPclntab

  // The leftmost accepted header; none only if there is none.
  method ScanForMagic(bytes: seq<byte>, sections: seq<Section>, le: bool) returns (r: Result<(nat, nat), Error>)
    ensures r.Ok? ==>
      && Accepted(bytes, r.value.0, sections, le)
      && r.value.1 == |bytes| - r.value.0
      && forall o: nat :: o < r.value.0 ==> !Accepted(bytes, o, sections, le)
    ensures r.Err? ==> forall o: nat :: !Accepted(bytes, o, sections, le)
  {
    hide PcheaderAt, MatchesAt, Candidates;
    var candidates := Candidates(le);
    var best: Option<nat> := None;
    var c := 0;
    while c < |candidates|
      invariant 0 <= c <= 3
      invariant best.Some? ==> best.value < |bytes| && Accepted(bytes, best.value, sections, le)
      invariant forall k, o: nat :: 0 <= k < c && (best.Some? ==> o < best.value) ==>
        !HeaderWith(bytes, o, candidates[k], sections, le)
    {
      var found := ScanForOne(bytes, candidates[c], sections, le);
      if found.Some? {
        best := Some(if best.Some? && best.value < found.value then best.value else found.value);
      }
      c := c + 1;
    }
    if best.Some? {
      return Ok((best.value, |bytes| - best.value));
    }
    return Err(NoPclntab);
  }

  // The inner loop: the leftmost header carrying one magic, stepping over each rejected match whole.
  method ScanForOne(bytes: seq<byte>, magic: seq<byte>, sections: seq<Section>, le: bool) returns (found: Option<nat>)
    requires magic in Candidates(le)
    ensures found.Some? ==> found.value < |bytes| && HeaderWith(bytes, found.value, magic, sections, le)
    ensures forall o: nat :: (found.Some? ==> o < found.value) ==> !HeaderWith(bytes, o, magic, sections, le)
  {
    hide PcheaderAt, MatchesAt, FindSubslice;
    var searchFrom := 0;
    while true
      invariant 0 <= searchFrom <= |bytes|
      invariant forall o: nat :: o < searchFrom ==> !HeaderWith(bytes, o, magic, sections, le)
      decreases |bytes| - searchFrom
    {
      var hit := FindSubslice(bytes[searchFrom..], magic);
      NoneSkipped(bytes, searchFrom, magic, hit, le);
      if hit.None? {
        return None;
      }
      var offset := searchFrom + hit.value;
      if offset + 8 > |bytes| {
        NoRoom(bytes, offset, sections, le);
        return None;
      }
      if PcheaderAt(bytes, offset, sections, le).Some? {
        return Some(offset);
      }
      searchFrom := offset + 4;
    }
  }

  lemma NoRoom(bytes: seq<byte>, offset: nat, sections: seq<Section>, le: bool)
    requires offset + 8 > |bytes|
    ensures forall o: nat :: offset <= o ==> PcheaderAt(bytes, o, sections, le) == None
  {
  }

  // Two occurrences of one magic never overlap, so stepping over a whole match loses nothing.
  lemma NoOverlap(bytes: seq<byte>, low: byte, le: bool, a: nat, d: nat)
    requires low != 0xff && 1 <= d <= 3
    requires MatchesAt(bytes, a, MagicBytes(low, le))
    ensures !MatchesAt(bytes, a + d, MagicBytes(low, le))
  {
    var m := MagicBytes(low, le);
    assert forall k :: 0 <= k < 4 ==> bytes[a + k] == bytes[a..a + 4][k] == m[k];
    if a + d + 4 <= |bytes| {
      var w := bytes[a + d..a + d + 4];
      if le {
        assert w[0] == bytes[a + d] == 0xff && m[0] == low;
      } else {
        assert w[3 - d] == bytes[a + 3] == low && m[3 - d] == 0xff;
      }
    }
  }

  lemma NoneSkipped(bytes: seq<byte>, from: nat, magic: seq<byte>, hit: Option<nat>, le: bool)
    requires from <= |bytes| && magic in Candidates(le)
    requires hit == FindSubslice(bytes[from..], magic)
    ensures hit.Some? ==> MatchesAt(bytes, from + hit.value, magic)
    ensures forall o: nat :: from <= o && (hit.Some? ==> o < from + hit.value) ==> !MatchesAt(bytes, o, magic)
    ensures hit.Some? ==> forall o: nat :: from + hit.value < o < from + hit.value + 4 ==> !MatchesAt(bytes, o, magic)
  {
    forall o: nat | from <= o ensures MatchesAt(bytes, o, magic) <==> MatchesAt(bytes[from..], o - from, magic) {
      if o + 4 <= |bytes| {
        assert bytes[from..][o - from..o - from + 4] == bytes[o..o + 4];
      }
    }
    if hit.Some? {
      forall o: nat | from + hit.value < o < from + hit.value + 4 ensures !MatchesAt(bytes, o, magic) {
        var low: byte :| low != 0xff && magic == MagicBytes(low, le);
        NoOverlap(bytes, low, le, from + hit.value, o - (from + hit.value));
      }
    }
  }
}
