/** The headers of a PE file as the linker writes them (Microsoft PE/COFF Specification rev 8, sections 3.3, 3.4 and 4):
    what the writer reads from them, stated in terms of what was written. */
module PeHeaders {
  import opened Wrappers
  import opened Bytes
  import opened Bits
  import opened FileImage
  import opened WordList
  import opened PeRewrite

  type u16 = x: int | 0 <= x < 0x1_0000

  datatype FileHeader = FileHeader(
    machine: u16, sections: u16, stamp: u32, symbolsAt: u32, symbols: u32, optionalSize: u16, flags: u16)

  // The optional header up to its image base: of a 64-bit image, or of a 32-bit one.
  datatype OptionalHeader = Wide(fields: seq<byte>, imageBase: u64) | Narrow(fields: seq<byte>, imageBase: u64)

  datatype SectionHeader = SectionHeader(
    name: seq<byte>, size: u32, addr: u32, rawSize: u32, rawAt: u32, relocsAt: u32, linesAt: u32, relocs: u16,
    lines: u16, flags: u32)

  datatype Headers = Headers(at: u32, file: FileHeader, optional: OptionalHeader, sections: seq<SectionHeader>)

  function EncodeFile(f: FileHeader): (s: seq<byte>)
    ensures |s| == 20
  {
    ToLe(f.machine, 2) + ToLe(f.sections, 2) + ToLe(f.stamp, 4) + ToLe(f.symbolsAt, 4) + ToLe(f.symbols, 4)
    + ToLe(f.optionalSize, 2) + ToLe(f.flags, 2)
  }

  predicate ValidOptional(o: OptionalHeader) {
    if o.Wide? then |o.fields| == 22 else |o.fields| == 26 && o.imageBase < 0x1_0000_0000
  }

  function EncodeOptional(o: OptionalHeader): (s: seq<byte>)
    requires ValidOptional(o)
    ensures |s| == 32
  {
    match o
    case Wide(fields, base) => ToLe(0x20b, 2) + fields + ToLe(base, 8)
    case Narrow(fields, base) => ToLe(0x10b, 2) + fields + ToLe(base, 4)
  }

  function EncodeSection(h: SectionHeader): (s: seq<byte>)
    requires |h.name| == 8
    ensures |s| == 40
  {
    h.name + ToLe(h.size, 4) + ToLe(h.addr, 4) + ToLe(h.rawSize, 4) + ToLe(h.rawAt, 4) + ToLe(h.relocsAt, 4)
    + ToLe(h.linesAt, 4) + ToLe(h.relocs, 2) + ToLe(h.lines, 2) + ToLe(h.flags, 4)
  }

  function SectionsAt(h: Headers): nat { h.at + 24 + h.file.optionalSize }

  // The pointer at 60, the signature, the two headers behind it, and the section headers behind the optional one.
  ghost predicate HeadersHeld(bytes: seq<byte>, h: Headers) {
    && MatchesAt(bytes, 60, ToLe(h.at, 4))
    && MatchesAt(bytes, h.at, [0x50, 0x45, 0, 0])
    && MatchesAt(bytes, h.at + 4, EncodeFile(h.file))
    && ValidOptional(h.optional) && MatchesAt(bytes, h.at + 24, EncodeOptional(h.optional))
    && |h.sections| == h.file.sections && SectionsAt(h) + 40 * |h.sections| <= |bytes|
    && forall i :: 0 <= i < |h.sections| ==>
         |h.sections[i].name| == 8 && MatchesAt(bytes, SectionsAt(h) + 40 * i, EncodeSection(h.sections[i]))
  }

  // What the writer is to know of them.
  function InfoOf(h: Headers): PeInfo { PeInfo(h.at + 4, h.optional.imageBase, SectionsAt(h), |h.sections|) }

  // A field of a piece that lies in the file, at its distance from the piece's start.
  lemma FieldHeld(bytes: seq<byte>, at: nat, piece: seq<byte>, off: nat, v: nat, n: nat)
    requires MatchesAt(bytes, at, piece) && off + n <= |piece| && piece[off..off + n] == ToLe(v, n) && v < Pow256(n)
    ensures Le(bytes, at + off, n) == v
  {
    hide FromLe, ToLe, Pow256;
    assert bytes == bytes[..at] + piece + bytes[at + |piece|..];
    MiddleChunk(bytes[..at], piece, bytes[at + |piece|..], off, n);
    LeRoundTrip(v, n);
    ModUnique(v, Pow256(n), 0, v);
  }

  lemma FileFields(bytes: seq<byte>, at: nat, f: FileHeader)
    requires MatchesAt(bytes, at, EncodeFile(f))
    ensures Le(bytes, at + 2, 2) == f.sections && Le(bytes, at + 16, 2) == f.optionalSize
  {
    hide FromLe, ToLe, Pow256, Le, MatchesAt;
    Pow256Values();
    var s := EncodeFile(f);
    assert s[2..4] == ToLe(f.sections, 2) && s[16..18] == ToLe(f.optionalSize, 2);
    FieldHeld(bytes, at, s, 2, f.sections, 2);
    FieldHeld(bytes, at, s, 16, f.optionalSize, 2);
  }

  lemma OptionalFields(bytes: seq<byte>, at: nat, o: OptionalHeader)
    requires ValidOptional(o) && MatchesAt(bytes, at, EncodeOptional(o))
    ensures Le(bytes, at, 2) == if o.Wide? then 0x20b else 0x10b
    ensures if o.Wide? then Le(bytes, at + 24, 8) == o.imageBase else Le(bytes, at + 28, 4) == o.imageBase
  {
    hide FromLe, ToLe, Pow256, Le, MatchesAt;
    Pow256Values();
    var s := EncodeOptional(o);
    if o.Wide? {
      assert s[0..2] == ToLe(0x20b, 2) && s[24..32] == ToLe(o.imageBase, 8);
      FieldHeld(bytes, at, s, 0, 0x20b, 2);
      FieldHeld(bytes, at, s, 24, o.imageBase, 8);
    } else {
      assert s[0..2] == ToLe(0x10b, 2) && s[28..32] == ToLe(o.imageBase, 4);
      FieldHeld(bytes, at, s, 0, 0x10b, 2);
      FieldHeld(bytes, at, s, 28, o.imageBase, 4);
    }
  }

  // The headers are read as what they say.
  lemma HeadersRead(bytes: seq<byte>, h: Headers)
    requires HeadersHeld(bytes, h)
    ensures ReadPe(bytes, true) == Ok(InfoOf(h))
  {
    hide FromLe, ToLe, Pow256, EncodeFile, EncodeOptional, EncodeSection;
    Pow256Values();
    FieldHeld(bytes, 60, ToLe(h.at, 4), 0, h.at, 4);
    FileFields(bytes, h.at + 4, h.file);
    OptionalFields(bytes, h.at + 24, h.optional);
  }

  // The bytes of a field, written again.
  lemma FieldBack(bytes: seq<byte>, at: nat, n: nat)
    requires at + n <= |bytes|
    ensures ToLe(Le(bytes, at, n), n) == bytes[at..at + n] && Le(bytes, at, n) < Pow256(n)
  {
    hide ToLe, FromLe, Pow256;
    LeBack(bytes[at..at + n]);
    LeBound(bytes[at..at + n]);
  }

  lemma FileHeaderAt(bytes: seq<byte>, at: nat) returns (f: FileHeader)
    requires at + 20 <= |bytes|
    ensures MatchesAt(bytes, at, EncodeFile(f))
    ensures f.sections == Le(bytes, at + 2, 2) && f.optionalSize == Le(bytes, at + 16, 2)
  {
    hide ToLe, FromLe, Pow256, Le;
    Pow256Values();
    FieldBack(bytes, at, 2);
    FieldBack(bytes, at + 2, 2);
    FieldBack(bytes, at + 4, 4);
    FieldBack(bytes, at + 8, 4);
    FieldBack(bytes, at + 12, 4);
    FieldBack(bytes, at + 16, 2);
    FieldBack(bytes, at + 18, 2);
    f := FileHeader(Le(bytes, at, 2), Le(bytes, at + 2, 2), Le(bytes, at + 4, 4), Le(bytes, at + 8, 4),
                    Le(bytes, at + 12, 4), Le(bytes, at + 16, 2), Le(bytes, at + 18, 2));
    var b := bytes[at..at + 20];
    assert b == bytes[at..at + 2] + bytes[at + 2..at + 4] + bytes[at + 4..at + 8] + bytes[at + 8..at + 12]
      + bytes[at + 12..at + 16] + bytes[at + 16..at + 18] + bytes[at + 18..at + 20];
  }

  lemma SectionHeaderAt(bytes: seq<byte>, at: nat) returns (h: SectionHeader)
    requires at + 40 <= |bytes|
    ensures |h.name| == 8 && MatchesAt(bytes, at, EncodeSection(h))
  {
    hide ToLe, FromLe, Pow256, Le;
    Pow256Values();
    FieldBack(bytes, at + 8, 4);
    FieldBack(bytes, at + 12, 4);
    FieldBack(bytes, at + 16, 4);
    FieldBack(bytes, at + 20, 4);
    FieldBack(bytes, at + 24, 4);
    FieldBack(bytes, at + 28, 4);
    FieldBack(bytes, at + 32, 2);
    FieldBack(bytes, at + 34, 2);
    FieldBack(bytes, at + 36, 4);
    h := SectionHeader(bytes[at..at + 8], Le(bytes, at + 8, 4), Le(bytes, at + 12, 4), Le(bytes, at + 16, 4),
                       Le(bytes, at + 20, 4), Le(bytes, at + 24, 4), Le(bytes, at + 28, 4), Le(bytes, at + 32, 2),
                       Le(bytes, at + 34, 2), Le(bytes, at + 36, 4));
    var low := bytes[at..at + 8] + bytes[at + 8..at + 12] + bytes[at + 12..at + 16] + bytes[at + 16..at + 20];
    assert low == bytes[at..at + 20];
    var high := low + bytes[at + 20..at + 24] + bytes[at + 24..at + 28] + bytes[at + 28..at + 32];
    assert high == bytes[at..at + 32];
    assert bytes[at..at + 40] == high + bytes[at + 32..at + 34] + bytes[at + 34..at + 36] + bytes[at + 36..at + 40];
  }

  lemma {:induction false} SectionsFrom(bytes: seq<byte>, at: nat, n: nat) returns (ss: seq<SectionHeader>)
    requires at + 40 * n <= |bytes|
    ensures |ss| == n
    ensures forall i :: 0 <= i < n ==> |ss[i].name| == 8 && MatchesAt(bytes, at + 40 * i, EncodeSection(ss[i]))
  {
    hide EncodeSection, MatchesAt;
    if n == 0 {
      ss := [];
    } else {
      var init := SectionsFrom(bytes, at, n - 1);
      var last := SectionHeaderAt(bytes, at + 40 * (n - 1));
      ss := init + [last];
    }
  }

  lemma OptionalAt(bytes: seq<byte>, at: nat) returns (o: OptionalHeader)
    requires at + 32 <= |bytes| && Le(bytes, at, 2) in {0x20b, 0x10b}
    ensures ValidOptional(o) && MatchesAt(bytes, at, EncodeOptional(o))
    ensures o.imageBase == if Le(bytes, at, 2) == 0x20b then Le(bytes, at + 24, 8) else Le(bytes, at + 28, 4)
  {
    hide ToLe, FromLe, Pow256, Le;
    Pow256Values();
    FieldBack(bytes, at, 2);
    if Le(bytes, at, 2) == 0x20b {
      FieldBack(bytes, at + 24, 8);
      o := Wide(bytes[at + 2..at + 24], Le(bytes, at + 24, 8));
      assert bytes[at..at + 32] == bytes[at..at + 2] + bytes[at + 2..at + 24] + bytes[at + 24..at + 32];
    } else {
      FieldBack(bytes, at + 28, 4);
      o := Narrow(bytes[at + 2..at + 28], Le(bytes, at + 28, 4));
      assert bytes[at..at + 32] == bytes[at..at + 2] + bytes[at + 2..at + 28] + bytes[at + 28..at + 32];
    }
  }

  // Conversely, whatever is read as a PE file has such headers.
  lemma ReadHasHeaders(bytes: seq<byte>, info: PeInfo) returns (h: Headers)
    requires ReadPe(bytes, true) == Ok(info)
    ensures HeadersHeld(bytes, h) && info == InfoOf(h)
  {
    hide ToLe, FromLe, Pow256, EncodeFile, EncodeOptional, EncodeSection, Le;
    Pow256Values();
    FieldBack(bytes, 60, 4);
    var at: u32 := Le(bytes, 60, 4);
    var file := FileHeaderAt(bytes, at + 4);
    var optional := OptionalAt(bytes, at + 24);
    var sections := SectionsFrom(bytes, at + 24 + file.optionalSize, file.sections);
    h := Headers(at, file, optional, sections);
  }

  lemma AcceptedExactly(bytes: seq<byte>, info: PeInfo)
    ensures ReadPe(bytes, true) == Ok(info) <==> exists h :: HeadersHeld(bytes, h) && info == InfoOf(h)
  {
    hide ReadPe, HeadersHeld;
    if ReadPe(bytes, true) == Ok(info) {
      var h := ReadHasHeaders(bytes, info);
    }
    forall h | HeadersHeld(bytes, h) ensures ReadPe(bytes, true) == Ok(InfoOf(h)) {
      HeadersRead(bytes, h);
    }
  }

  // A section is taken for code exactly when its header has IMAGE_SCN_MEM_EXECUTE.
  predicate IsCode(h: SectionHeader) { h.flags / 0x2000_0000 % 2 == 1 }

  lemma FlagRead(bytes: seq<byte>, h: Headers, i: nat)
    requires HeadersHeld(bytes, h) && i < |h.sections|
    ensures Executes(bytes, InfoOf(h), i) <==> IsCode(h.sections[i])
  {
    hide FromLe, ToLe, Pow256, EncodeFile, EncodeOptional, And, MatchesAt, Le;
    Pow256Values();
    var s := EncodeSection(h.sections[i]);
    assert s[36..40] == ToLe(h.sections[i].flags, 4);
    FieldHeld(bytes, SectionsAt(h) + 40 * i, s, 36, h.sections[i].flags, 4);
    AndBit(h.sections[i].flags, 29);
    Pow2Is();
  }

  lemma Pow2Is()
    ensures Pow2(29) == 0x2000_0000
  {
    assert Pow2(7) == 0x80 && Pow2(8) == 0x100;
    Pow2Add(7, 7);
    Pow2Add(7, 8);
    Pow2Add(14, 15);
  }

  // t is the one-based number of the first section of code, 1 when there is none.
  predicate FirstCode(ss: seq<SectionHeader>, t: nat) {
    if exists j :: 0 <= j < |ss| && IsCode(ss[j])
    then 1 <= t <= |ss| && IsCode(ss[t - 1]) && forall j :: 0 <= j < t - 1 ==> !IsCode(ss[j])
    else t == 1
  }

  lemma FirstCodeFound(bytes: seq<byte>, h: Headers)
    requires HeadersHeld(bytes, h) && SectionsAt(h) + 40 * |h.sections| <= |bytes| && |h.sections| < U16
    ensures FirstCode(h.sections, TextSection(bytes, InfoOf(h), 0))
  {
    hide HeadersHeld, Executes, TextSection, IsCode;
    TextSectionBound(bytes, InfoOf(h), 0);
    forall i: nat | i < |h.sections| ensures Executes(bytes, InfoOf(h), i) <==> IsCode(h.sections[i]) {
      FlagRead(bytes, h, i);
    }
  }

  // From the headers to the records: every function's record names the first section of code, and gives the address
  // exactly when that lies within 4 GiB above the image base the headers state.
  lemma RecordsRoundTrip(bytes: seq<byte>, h: Headers, fs: seq<FuncSym>, k: nat)
    requires HeadersHeld(bytes, h) && k < |fs|
    requires PeFits(bytes, InfoOf(h), fs) && |bytes| >= 64 && PointerKept(bytes, InfoOf(h), fs)
    ensures ReadPe(bytes, true) == Ok(InfoOf(h))
    ensures var sym := CoffSymbol(PeOutput(bytes, InfoOf(h), fs), k);
      && sym.Some? && FirstCode(h.sections, sym.value.section)
      && (sym.value.name == Some(fs[k].name) <==> fs[k].name != [] && 0 !in fs[k].name)
      && (h.optional.imageBase + sym.value.value == fs[k].address
          <==> h.optional.imageBase <= fs[k].address < h.optional.imageBase + 0x1_0000_0000)
  {
    hide HeadersHeld, ReadPe, PeOutput, PeFits, PointerKept, TextSection, CoffSymbol, FirstCode;
    HeadersRead(bytes, h);
    CoffRoundTrip(bytes, InfoOf(h), fs, k);
    FirstCodeFound(bytes, h);
  }
}
