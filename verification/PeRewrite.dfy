/** Embedding recovered symbols in a PE file: the writer, a reader of the COFF symbol and string tables
    (Microsoft PE/COFF Specification rev 8, sections 5.4.1 and 5.6), and the round trip. */
module PeRewrite {
  import opened Wrappers
  import opened Bytes
  import opened Bits
  import opened FileImage

  datatype PeError =
    | NotLittleEndian | NoDosHeader | HeaderOverruns | NoSignature | OptHeaderTruncated | UnknownOptMagic
    | SectionsOverrun

  const LFANEW: nat := 0x3c
  const RECORD: nat := 18
  const MEM_EXECUTE := 0x2000_0000
  const TYPE_FUNCTION := 0x20
  const CLASS_EXTERNAL := 2

  datatype PeInfo = PeInfo(coff: nat, imageBase: nat, sectionTable: nat, sections: nat)

  function ReadPe(bytes: seq<byte>, littleEndian: bool): (r: Result<PeInfo, PeError>)
    ensures r.Ok? ==>
      && |bytes| >= LFANEW + 4 && r.value.coff == Le(bytes, LFANEW, 4) + 4 && r.value.coff + 20 <= |bytes|
      && r.value.sectionTable + r.value.sections * 40 <= |bytes| && r.value.sections < U16
  {
    if !littleEndian then Err(NotLittleEndian)
    else if |bytes| < LFANEW + 4 then Err(NoDosHeader)
    else
      var lfanew := Le(bytes, LFANEW, 4);
      if lfanew + 4 + 20 > |bytes| then Err(HeaderOverruns)
      else if bytes[lfanew..lfanew + 4] != [0x50, 0x45, 0, 0] then Err(NoSignature)
      else
        var coff := lfanew + 4;
        var opt := coff + 20;
        if opt + 2 > |bytes| then Err(OptHeaderTruncated)
        else
          var magic := Le(bytes, opt, 2);
          if magic != 0x20b && magic != 0x10b then Err(UnknownOptMagic)
          else if opt + 32 > |bytes| then Err(OptHeaderTruncated)
          else
            var base := if magic == 0x20b then Le(bytes, opt + 24, 8) else Le(bytes, opt + 28, 4);
            var table := opt + Le(bytes, coff + 16, 2);
            var n := Le(bytes, coff + 2, 2);
            LeBound(bytes[coff + 2..coff + 4]);
            Pow256Values();
            if table + n * 40 > |bytes| then Err(SectionsOverrun) else Ok(PeInfo(coff, base, table, n))
  }

  predicate Executes(bytes: seq<byte>, info: PeInfo, i: nat)
    requires info.sectionTable + info.sections * 40 <= |bytes| && i < info.sections
  {
    And(Le(bytes, info.sectionTable + i * 40 + 36, 4), MEM_EXECUTE) != 0
  }

  // One-based number of the first executable section from i on; 1 if there is none.
  function TextSection(bytes: seq<byte>, info: PeInfo, i: nat): nat
    requires info.sectionTable + info.sections * 40 <= |bytes| && i <= info.sections
    decreases info.sections - i
  {
    if i == info.sections then 1 else if Executes(bytes, info, i) then i + 1 else TextSection(bytes, info, i + 1)
  }

  function LongName(f: FuncSym): seq<byte> { if |f.name| <= 8 then [] else f.name + [0] }

  // The names too long for a record, each NUL-terminated.
  function Strings(fs: seq<FuncSym>): seq<byte> {
    if fs == [] then [] else Strings(fs[..|fs| - 1]) + LongName(fs[|fs| - 1])
  }

  function NameField(name: seq<byte>, off: nat): (s: seq<byte>)
    ensures |s| == 8
  {
    if |name| <= 8 then name + Zeros(8 - |name|) else ToLe(0, 4) + ToLe(off, 4)
  }

  function Rva(address: u64, base: nat): nat { SatSub(address, base) % U32 }

  function Record(f: FuncSym, off: nat, base: nat, text: nat): (s: seq<byte>)
    ensures |s| == RECORD
  {
    NameField(f.name, off) + ToLe(Rva(f.address, base), 4) + ToLe(text, 2) + ToLe(TYPE_FUNCTION, 2)
    + [CLASS_EXTERNAL, 0]
  }

  function Symbols(fs: seq<FuncSym>, base: nat, text: nat): (s: seq<byte>)
    ensures |s| == RECORD * |fs|
  {
    if fs == [] then []
    else
      var init, last := fs[..|fs| - 1], fs[|fs| - 1];
      Symbols(init, base, text) + Record(last, 4 + |Strings(init)|, base, text)
  }

  function Pad4(buf: seq<byte>): (r: seq<byte>)
    ensures |r| % 4 == 0 && |buf| <= |r| < |buf| + 4 && r[..|buf|] == buf
  {
    buf + Zeros((4 - |buf| % 4) % 4)
  }

  function PeBody(bytes: seq<byte>, info: PeInfo, fs: seq<FuncSym>): seq<byte>
    requires info.sectionTable + info.sections * 40 <= |bytes|
  {
    Pad4(bytes) + Symbols(fs, info.imageBase, TextSection(bytes, info, 0)) + (ToLe(4 + |Strings(fs)|, 4) + Strings(fs))
  }

  function PeOutput(bytes: seq<byte>, info: PeInfo, fs: seq<FuncSym>): (out: seq<byte>)
    requires info.sectionTable + info.sections * 40 <= |bytes| && info.coff + 20 <= |bytes|
    ensures |out| == |PeBody(bytes, info, fs)|
  {
    Splice(Splice(PeBody(bytes, info, fs), info.coff + 8, ToLe(|Pad4(bytes)|, 4)), info.coff + 12, ToLe(|fs|, 4))
  }

  method WriteSymbolsAsPe(bytes: seq<byte>, littleEndian: bool, functions: seq<FuncSym>)
    returns (r: Result<seq<byte>, PeError>)
    ensures match ReadPe(bytes, littleEndian)
      case Err(e) => r == Err(e)
      case Ok(info) => r == Ok(PeOutput(bytes, info, functions))
  {
    hide ReadPe, Symbols, Strings, ToLe, TextSection, Zeros;
    var read := ReadPe(bytes, littleEndian);
    if read.Err? {
      return Err(read.error);
    }
    var info := read.value;
    var text := FindTextSection(bytes, info);
    var symbols, strtab := BuildCoff(functions, info.imageBase, text);
    var size := |strtab|;
    strtab := Splice(strtab, 0, ToLe(size, 4));
    assert strtab == ToLe(4 + |Strings(functions)|, 4) + Strings(functions);
    var out := AlignTo4(bytes);
    var symtabOffset := |out|;
    out := out + symbols;
    out := out + strtab;
    assert out == PeBody(bytes, info, functions);
    out := Splice(out, info.coff + 8, ToLe(symtabOffset, 4));
    out := Splice(out, info.coff + 12, ToLe(|functions|, 4));
    return Ok(out);
  }

  method AlignTo4(buf: seq<byte>) returns (out: seq<byte>)
    ensures out == Pad4(buf)
  {
    hide Zeros;
    out := buf;
    var k := 0;
    ZeroZeros();
    while |out| % 4 != 0
      invariant out == buf + Zeros(k) && k <= (4 - |buf| % 4) % 4
      decreases 4 - k
    {
      ZerosStep(k);
      out := out + [0];
      k := k + 1;
    }
  }

  method FindTextSection(bytes: seq<byte>, info: PeInfo) returns (index: nat)
    requires info.sectionTable + info.sections * 40 <= |bytes|
    ensures index == TextSection(bytes, info, 0)
  {
    hide Executes;
    for i := 0 to info.sections
      invariant TextSection(bytes, info, 0) == TextSection(bytes, info, i)
    {
      if Executes(bytes, info, i) {
        return i + 1;
      }
    }
    return 1;
  }

  // One record per function, filled in place; long names go to the string table, whose size field is
  // still zero.
  method BuildCoff(functions: seq<FuncSym>, base: nat, text: nat) returns (symbols: seq<byte>, strtab: seq<byte>)
    ensures symbols == Symbols(functions, base, text) && strtab == Zeros(4) + Strings(functions)
  {
    hide Record, ToLe, Zeros, Strings;
    StringsStep([]);
    symbols, strtab := [], Zeros(4);
    for k := 0 to |functions|
      invariant symbols == Symbols(functions[..k], base, text)
      invariant strtab == Zeros(4) + Strings(functions[..k])
    {
      var f := functions[k];
      assert functions[..k + 1][..k] == functions[..k];
      StringsStep(functions[..k + 1]);
      var rec := FillRecord(f, |strtab|, base, text);
      if |f.name| > 8 {
        strtab := strtab + f.name;
        strtab := strtab + [0];
      }
      symbols := symbols + rec;
    }
    assert functions[..|functions|] == functions;
  }

  lemma StringsStep(fs: seq<FuncSym>)
    ensures fs == [] ==> Strings(fs) == []
    ensures fs != [] ==> Strings(fs) == Strings(fs[..|fs| - 1]) + LongName(fs[|fs| - 1])
  {
  }

  method FillRecord(f: FuncSym, off: nat, base: nat, text: nat) returns (rec: seq<byte>)
    ensures rec == Record(f, off, base, text)
  {
    hide ToLe, Rva;
    rec := Zeros(RECORD);
    if |f.name| <= 8 {
      rec := Splice(rec, 0, f.name);
    } else {
      rec := Splice(rec, 0, ToLe(0, 4));
      rec := Splice(rec, 4, ToLe(off, 4));
    }
    assert rec == NameField(f.name, off) + Zeros(10);
    rec := Splice(rec, 8, ToLe(Rva(f.address, base), 4));
    rec := Splice(rec, 12, ToLe(text, 2));
    rec := Splice(rec, 14, ToLe(TYPE_FUNCTION, 2));
    rec := rec[16 := CLASS_EXTERNAL];
    rec := rec[17 := 0];
    assert rec == Record(f, off, base, text);
  }

  // ----- the reader -----

  datatype CoffSym = CoffSym(name: Option<seq<byte>>, value: nat, section: nat, typ: nat, storageClass: byte, aux: byte)

  // Offset of the COFF file header, after the signature.
  function CoffHeader(file: seq<byte>): nat
    requires |file| >= 60 + 4
  {
    Le(file, 60, 4) + 4
  }

  function SymbolTable(file: seq<byte>): Option<(nat, nat)> {
    if |file| < 60 + 4 || CoffHeader(file) + 20 > |file| then None
    else Some((Le(file, CoffHeader(file) + 8, 4), Le(file, CoffHeader(file) + 12, 4)))
  }

  // The string table sits behind the last record; its first four bytes are its size, themselves included.
  function StringTable(file: seq<byte>): Option<seq<byte>> {
    var (at, n) :- SymbolTable(file);
    var head :- Chunk(file, at + 18 * n, 4);
    var size := FromLe(head);
    if size < 4 then None else Chunk(file, at + 18 * n, size)
  }

  // A name field: four zero bytes mean an offset into the string table, past its size field.
  function CoffName(field: seq<byte>, strings: seq<byte>): Option<seq<byte>>
    requires |field| == 8
  {
    if field[0] == 0 && field[1] == 0 && field[2] == 0 && field[3] == 0 then
      var off := Le(field, 4, 4);
      if off < 4 then None else StringAt(strings, off)
    else Some(UpToNul(field))
  }

  function CoffSymbol(file: seq<byte>, k: nat): Option<CoffSym> {
    var (at, n) :- SymbolTable(file);
    var strings :- StringTable(file);
    if k >= n then None
    else
      var rec :- Chunk(file, at + 18 * k, 18);
      Some(CoffSym(CoffName(rec[0..8], strings), Le(rec, 8, 4), Le(rec, 12, 2), Le(rec, 14, 2), rec[16], rec[17]))
  }

  // ----- the round trip -----

  // What is written over COFF header bytes 8..16.
  function Patch(bytes: seq<byte>, fs: seq<FuncSym>): (s: seq<byte>)
    ensures |s| == 8
  {
    ToLe(|Pad4(bytes)|, 4) + ToLe(|fs|, 4)
  }

  // Every byte of the pointer to the header that the patch covers already has the value written there.
  predicate PointerKept(bytes: seq<byte>, info: PeInfo, fs: seq<FuncSym>)
    requires |bytes| >= LFANEW + 4
  {
    forall i :: LFANEW <= i < LFANEW + 4 && info.coff + 8 <= i < info.coff + 16 ==>
      bytes[i] == Patch(bytes, fs)[i - (info.coff + 8)]
  }

  predicate PeFits(bytes: seq<byte>, info: PeInfo, fs: seq<FuncSym>)
    requires info.sectionTable + info.sections * 40 <= |bytes|
  {
    |PeBody(bytes, info, fs)| < U32
  }

  lemma OnlyTwoFieldsChange(bytes: seq<byte>, info: PeInfo, fs: seq<FuncSym>)
    requires ReadPe(bytes, true) == Ok(info)
    ensures |PeOutput(bytes, info, fs)| >= |bytes|
    ensures forall i :: 0 <= i < |bytes| && !(info.coff + 8 <= i < info.coff + 16) ==>
        PeOutput(bytes, info, fs)[i] == bytes[i]
  {
    hide ReadPe, Symbols, Strings, ToLe, TextSection, Zeros;
    assert PeBody(bytes, info, fs)[..|bytes|] == bytes;
  }

  lemma PatchInPlace(bytes: seq<byte>, info: PeInfo, fs: seq<FuncSym>)
    requires ReadPe(bytes, true) == Ok(info)
    ensures PeOutput(bytes, info, fs)[info.coff + 8..info.coff + 16] == Patch(bytes, fs)
  {
    hide ReadPe, PeBody, ToLe, Pad4;
    OnlyTwoFieldsChange(bytes, info, fs);
    var out := PeOutput(bytes, info, fs);
    var first := Splice(PeBody(bytes, info, fs), info.coff + 8, ToLe(|Pad4(bytes)|, 4));
    assert out[info.coff + 8..info.coff + 12] == first[info.coff + 8..info.coff + 12];
    assert out[info.coff + 8..info.coff + 16]
        == out[info.coff + 8..info.coff + 12] + out[info.coff + 12..info.coff + 16];
  }

  // The reader finds the header where it was exactly when the patch keeps the pointer to it: always when
  // the two do not overlap, and otherwise only when the bytes written happen to be the pointer's.
  lemma HeaderFound(bytes: seq<byte>, info: PeInfo, fs: seq<FuncSym>)
    requires ReadPe(bytes, true) == Ok(info)
    ensures |PeOutput(bytes, info, fs)| >= LFANEW + 4
    ensures CoffHeader(PeOutput(bytes, info, fs)) == info.coff <==> PointerKept(bytes, info, fs)
  {
    hide ReadPe, PeBody, ToLe, Pad4, FromLe, Patch, PeOutput;
    var out, at := PeOutput(bytes, info, fs), info.coff + 8;
    OnlyTwoFieldsChange(bytes, info, fs);
    PatchInPlace(bytes, info, fs);
    forall i | LFANEW <= i < LFANEW + 4
      ensures out[i] == if at <= i < at + 8 then Patch(bytes, fs)[i - at] else bytes[i]
    {
      assert at <= i < at + 8 ==> out[i] == out[at..at + 8][i - at];
    }
    var now, was := out[LFANEW..LFANEW + 4], bytes[LFANEW..LFANEW + 4];
    assert forall i :: LFANEW <= i < LFANEW + 4 ==> now[i - LFANEW] == out[i] && was[i - LFANEW] == bytes[i];
    assert now == was <==> PointerKept(bytes, info, fs) by {
      if now == was {
        assert forall i :: LFANEW <= i < LFANEW + 4 ==> out[i] == bytes[i];
      }
    }
    if Le(out, LFANEW, 4) == Le(bytes, LFANEW, 4) {
      LeInjective(now, was);
    }
  }

  lemma {:induction false} LeInjective(a: seq<byte>, b: seq<byte>)
    requires |a| == |b| && FromLe(a) == FromLe(b)
    ensures a == b
  {
    if a != [] {
      assert a[0] == FromLe(a) % 256 && b[0] == FromLe(b) % 256;
      LeInjective(a[1..], b[1..]);
      assert a == [a[0]] + a[1..] && b == [b[0]] + b[1..];
    }
  }

  // Fields apart from the pointer keep it.
  lemma ClearIsKept(bytes: seq<byte>, info: PeInfo, fs: seq<FuncSym>)
    requires |bytes| >= LFANEW + 4
    requires info.coff + 16 <= LFANEW || LFANEW + 4 <= info.coff + 8
    ensures PointerKept(bytes, info, fs)
  {
  }

  lemma TableLocated(bytes: seq<byte>, info: PeInfo, fs: seq<FuncSym>)
    requires ReadPe(bytes, true) == Ok(info) && PeFits(bytes, info, fs) && PointerKept(bytes, info, fs)
    ensures SymbolTable(PeOutput(bytes, info, fs)) == Some((|Pad4(bytes)|, |fs|))
    ensures |Pad4(bytes)| % 4 == 0
  {
    hide ReadPe, Symbols, Strings, ToLe, TextSection, Zeros, Pad4, FromLe, Pow256, PeBody, PointerKept, PeOutput;
    var out := PeOutput(bytes, info, fs);
    OnlyTwoFieldsChange(bytes, info, fs);
    HeaderFound(bytes, info, fs);
    PatchInPlace(bytes, info, fs);
    BodySize(bytes, info, fs);
    Pow256Values();
    var patch := out[info.coff + 8..info.coff + 16];
    assert out[info.coff + 8..info.coff + 12] == patch[0..4] == ToLe(|Pad4(bytes)|, 4);
    assert out[info.coff + 12..info.coff + 16] == patch[4..8] == ToLe(|fs|, 4);
    FieldInside(out, |Pad4(bytes)|, 4, info.coff + 8);
    FieldInside(out, |fs|, 4, info.coff + 12);
  }

  lemma BodySize(bytes: seq<byte>, info: PeInfo, fs: seq<FuncSym>)
    requires info.sectionTable + info.sections * 40 <= |bytes|
    ensures |PeBody(bytes, info, fs)| == |Pad4(bytes)| + RECORD * |fs| + 4 + |Strings(fs)|
  {
    hide Pad4, Strings, ToLe, TextSection;
  }

  // Behind the original bytes nothing is patched.
  lemma PeTail(bytes: seq<byte>, info: PeInfo, fs: seq<FuncSym>, off: nat, n: nat)
    requires info.sectionTable + info.sections * 40 <= |bytes| && info.coff + 20 <= |bytes| && off >= |bytes|
    ensures Chunk(PeOutput(bytes, info, fs), off, n) == Chunk(PeBody(bytes, info, fs), off, n)
  {
    hide PeBody, ToLe;
    var out, body := PeOutput(bytes, info, fs), PeBody(bytes, info, fs);
    if off + n <= |body| {
      assert out[off..off + n] == body[off..off + n];
    }
  }

  // The string table is found whole: its size field is exact.
  lemma StringsLocated(bytes: seq<byte>, info: PeInfo, fs: seq<FuncSym>)
    requires ReadPe(bytes, true) == Ok(info) && PeFits(bytes, info, fs) && PointerKept(bytes, info, fs)
    ensures StringTable(PeOutput(bytes, info, fs)) == Some(ToLe(4 + |Strings(fs)|, 4) + Strings(fs))
    ensures |Pad4(bytes)| + RECORD * |fs| + 4 + |Strings(fs)| == |PeOutput(bytes, info, fs)|
  {
    hide ReadPe, Strings, ToLe, TextSection, Zeros, Pad4, FromLe, Pow256, PeOutput, Symbols, SymbolTable,
      PointerKept;
    TableLocated(bytes, info, fs);
    BodySize(bytes, info, fs);
    var size := 4 + |Strings(fs)|;
    var table := ToLe(size, 4) + Strings(fs);
    var pre := Pad4(bytes) + Symbols(fs, info.imageBase, TextSection(bytes, info, 0));
    assert PeBody(bytes, info, fs) == pre + table + [];
    MiddleChunk(pre, table, [], 0, 4);
    MiddleChunk(pre, table, [], 0, size);
    assert table[0..4] == ToLe(size, 4) && table[0..size] == table;
    PeTail(bytes, info, fs, |pre|, 4);
    PeTail(bytes, info, fs, |pre|, size);
    Pow256Values();
    LeRoundTrip(size, 4);
    ModUnique(size, Pow256(4), 0, size);
  }

  lemma {:induction false} RecordAt(fs: seq<FuncSym>, base: nat, text: nat, k: nat)
    requires k < |fs|
    ensures Chunk(Symbols(fs, base, text), RECORD * k, RECORD)
        == Some(Record(fs[k], 4 + |Strings(fs[..k])|, base, text))
  {
    hide Record, Strings;
    var n := |fs| - 1;
    var init := fs[..n];
    assert fs[..k] == init[..k];
    var done := Symbols(init, base, text);
    var last := Record(fs[n], 4 + |Strings(init)|, base, text);
    assert Symbols(fs, base, text) == done + last + [];
    if k == n {
      assert init[..k] == init;
      MiddleChunk(done, last, [], 0, RECORD);
      assert last[0..RECORD] == last;
    } else {
      RecordAt(init, base, text, k);
      MiddleChunk([], done, last, RECORD * k, RECORD);
      assert [] + done + last == done + last + [];
    }
  }

  lemma {:induction false} LongNameAt(fs: seq<FuncSym>, k: nat)
    requires k < |fs| && |fs[k].name| > 8 && 0 !in fs[k].name
    ensures StringAt(Strings(fs), |Strings(fs[..k])|) == Some(fs[k].name)
  {
    var n := |fs| - 1;
    var init, last := fs[..n], fs[n];
    assert fs[..k] == init[..k];
    if k == n {
      assert init[..k] == init;
      StringHere(Strings(init), last.name, []);
      assert Strings(init) + last.name + [0] + [] == Strings(fs);
    } else {
      LongNameAt(init, k);
      StringAtAppend(Strings(init), LongName(last), |Strings(fs[..k])|);
    }
  }

  // A name field reads back as the name exactly when the name is neither empty nor has a NUL in it.
  lemma NameFieldRoundTrip(name: seq<byte>, off: nat, strings: seq<byte>)
    requires 4 <= off < U32
    requires |name| > 8 && 0 !in name ==> StringAt(strings, off) == Some(name)
    ensures CoffName(NameField(name, off), strings) == Some(name) <==> name != [] && 0 !in name
  {
    hide ToLe, Zeros;
    if 0 in name {
      assert CoffName(NameField(name, off), strings).Some? ==> 0 !in CoffName(NameField(name, off), strings).value;
    } else {
      NulFreeField(name, off, strings);
    }
  }

  lemma NulFreeField(name: seq<byte>, off: nat, strings: seq<byte>)
    requires 0 !in name && 4 <= off < U32
    requires |name| > 8 ==> StringAt(strings, off) == Some(name)
    ensures CoffName(NameField(name, off), strings) == Some(name) <==> name != []
  {
    var field := NameField(name, off);
    if |name| > 8 {
      hide ToLe, FromLe, Pow256;
      ZeroWord();
      Pow256Values();
      assert field[0..4] == ToLe(0, 4) && field[4..8] == ToLe(off, 4);
      assert field[0] == field[0..4][0] && field[1] == field[0..4][1];
      assert field[2] == field[0..4][2] && field[3] == field[0..4][3];
      FieldInside(field, off, 4, 4);
    } else if name == [] {
      hide UpToNul, StringAt;
      assert field[4..8] == Zeros(4);
      ZeroWord();
      assert Le(field, 4, 4) == 0;
    } else {
      assert field[0] == name[0] != 0;
      NoNul(name);
      UpToNulAppend(name, Zeros(8 - |name|));
      assert UpToNul(Zeros(8 - |name|)) == [];
    }
  }

  lemma ZeroWord()
    ensures ToLe(0, 4) == [0, 0, 0, 0] == Zeros(4) && FromLe([0, 0, 0, 0]) == 0
  {
    assert ToLe(0, 1) == [0] && ToLe(0, 2) == [0, 0] && ToLe(0, 3) == [0, 0, 0];
    assert FromLe([0]) == 0 && [0, 0][1..] == [0] && [0, 0, 0][1..] == [0, 0] && [0, 0, 0, 0][1..] == [0, 0, 0];
  }

  // Record k is function k: its RVA, section, type and class; its name exactly when it is a nonempty
  // string; and its address exactly when that lies within 4 GiB above the image base.
  lemma CoffRoundTrip(bytes: seq<byte>, info: PeInfo, fs: seq<FuncSym>, k: nat)
    requires ReadPe(bytes, true) == Ok(info) && PeFits(bytes, info, fs) && PointerKept(bytes, info, fs)
    requires k < |fs|
    ensures var sym := CoffSymbol(PeOutput(bytes, info, fs), k);
      && sym.Some?
      && (sym.value.name == Some(fs[k].name) <==> fs[k].name != [] && 0 !in fs[k].name)
      && (info.imageBase + sym.value.value == fs[k].address
          <==> info.imageBase <= fs[k].address < info.imageBase + U32)
      && sym.value.section == TextSection(bytes, info, 0)
      && sym.value.typ == 0x20 && sym.value.storageClass == 2 && sym.value.aux == 0
  {
    hide ReadPe, Symbols, Strings, ToLe, TextSection, Zeros, Pad4, FromLe, Pow256, PeOutput, PeBody, NameField,
      CoffName, StringAt, PointerKept;
    var text := TextSection(bytes, info, 0);
    var off := 4 + |Strings(fs[..k])|;
    var strings := ToLe(4 + |Strings(fs)|, 4) + Strings(fs);
    TableLocated(bytes, info, fs);
    StringsLocated(bytes, info, fs);
    RecordPlaced(bytes, info, fs, k);
    BodySize(bytes, info, fs);
    StringsGrow(fs, k);
    TextSectionBound(bytes, info, 0);
    RecordFields(fs[k], off, info.imageBase, text);
    if |fs[k].name| > 8 && 0 !in fs[k].name {
      LongNameAt(fs, k);
      BehindSize(ToLe(4 + |Strings(fs)|, 4), Strings(fs), |Strings(fs[..k])|);
    }
    NameFieldRoundTrip(fs[k].name, off, strings);
  }

  lemma BehindSize(head: seq<byte>, strings: seq<byte>, off: nat)
    ensures StringAt(head + strings, |head| + off) == StringAt(strings, off)
  {
    if off < |strings| {
      assert (head + strings)[|head| + off..] == strings[off..];
    }
  }

  lemma RecordPlaced(bytes: seq<byte>, info: PeInfo, fs: seq<FuncSym>, k: nat)
    requires info.sectionTable + info.sections * 40 <= |bytes| && info.coff + 20 <= |bytes| && k < |fs|
    ensures Chunk(PeOutput(bytes, info, fs), |Pad4(bytes)| + RECORD * k, RECORD)
         == Some(Record(fs[k], 4 + |Strings(fs[..k])|, info.imageBase, TextSection(bytes, info, 0)))
  {
    hide Strings, ToLe, TextSection, Zeros, Pad4, Record, PeOutput, Symbols;
    var text := TextSection(bytes, info, 0);
    var symbols := Symbols(fs, info.imageBase, text);
    RecordAt(fs, info.imageBase, text, k);
    MiddleChunk(Pad4(bytes), symbols, ToLe(4 + |Strings(fs)|, 4) + Strings(fs), RECORD * k, RECORD);
    PeTail(bytes, info, fs, |Pad4(bytes)| + RECORD * k, RECORD);
  }

  lemma RecordFields(f: FuncSym, off: nat, base: nat, text: nat)
    requires text < U16
    ensures var r := Record(f, off, base, text);
      && r[0..8] == NameField(f.name, off) && Le(r, 8, 4) == Rva(f.address, base) && Le(r, 12, 2) == text
      && Le(r, 14, 2) == TYPE_FUNCTION && r[16] == CLASS_EXTERNAL && r[17] == 0
  {
    hide ToLe, FromLe, Pow256, NameField, Rva, Le;
    var r := Record(f, off, base, text);
    Pow256Values();
    RvaBound(f.address, base);
    FieldInside(r, Rva(f.address, base), 4, 8);
    FieldInside(r, text, 2, 12);
    FieldInside(r, TYPE_FUNCTION, 2, 14);
  }

  lemma RvaBound(address: u64, base: nat)
    ensures Rva(address, base) < U32
    ensures base + Rva(address, base) == address <==> base <= address < base + U32
  {
  }

  lemma {:induction false} StringsGrow(fs: seq<FuncSym>, k: nat)
    requires k <= |fs|
    ensures |Strings(fs[..k])| <= |Strings(fs)|
  {
    if k < |fs| {
      assert fs[..|fs| - 1][..k] == fs[..k];
      StringsGrow(fs[..|fs| - 1], k);
    } else {
      assert fs[..k] == fs;
    }
  }

  // The section number the symbols carry: the first executable section's, or 1 when there is none.
  lemma {:induction false} TextSectionBound(bytes: seq<byte>, info: PeInfo, i: nat)
    requires info.sectionTable + info.sections * 40 <= |bytes| && i <= info.sections < U16
    ensures var t := TextSection(bytes, info, i);
      && t < U16
      && if exists j :: i <= j < info.sections && Executes(bytes, info, j)
         then (i < t <= info.sections && Executes(bytes, info, t - 1)
           && forall j :: i <= j < t - 1 ==> !Executes(bytes, info, j))
         else t == 1
    decreases info.sections - i
  {
    hide Executes;
    if i < info.sections && !Executes(bytes, info, i) {
      TextSectionBound(bytes, info, i + 1);
    }
  }

  // With the pointer at 48 the symbol table pointer is written over it, so the header is lost for every
  // list of functions.
  lemma PointerOverwritten(bytes: seq<byte>, info: PeInfo, fs: seq<FuncSym>)
    requires ReadPe(bytes, true) == Ok(info) && PeFits(bytes, info, fs) && Le(bytes, LFANEW, 4) == 48
    ensures !PointerKept(bytes, info, fs)
    ensures |PeOutput(bytes, info, fs)| >= LFANEW + 4
    ensures CoffHeader(PeOutput(bytes, info, fs)) == |Pad4(bytes)| + 4 != info.coff
  {
    hide ReadPe, Symbols, Strings, ToLe, TextSection, Zeros, Pad4, FromLe, Pow256, PeBody, PeOutput, PointerKept;
    var out := PeOutput(bytes, info, fs);
    BodySize(bytes, info, fs);
    Pow256Values();
    HeaderFound(bytes, info, fs);
    PatchInPlace(bytes, info, fs);
    assert out[LFANEW..LFANEW + 4] == out[info.coff + 8..info.coff + 16][0..4];
    FieldInside(out, |Pad4(bytes)|, 4, LFANEW);
  }

  // With the pointer at 44 the symbol count is written over it, which is harmless for 44 functions and for
  // no other number.
  lemma CountIsPointer(bytes: seq<byte>, info: PeInfo, fs: seq<FuncSym>)
    requires ReadPe(bytes, true) == Ok(info) && PeFits(bytes, info, fs) && Le(bytes, LFANEW, 4) == 44
    ensures PointerKept(bytes, info, fs) <==> |fs| == 44
  {
    hide ReadPe, Symbols, Strings, ToLe, TextSection, Zeros, Pad4, FromLe, Pow256, PeBody, PeOutput, PointerKept;
    var out := PeOutput(bytes, info, fs);
    BodySize(bytes, info, fs);
    Pow256Values();
    HeaderFound(bytes, info, fs);
    PatchInPlace(bytes, info, fs);
    assert out[LFANEW..LFANEW + 4] == out[info.coff + 8..info.coff + 16][4..8];
    FieldInside(out, |fs|, 4, LFANEW);
  }

  // The hypotheses above can be met, with one function: a file of headers only, without sections.
  lemma SmallestPe() returns (bytes: seq<byte>, info: PeInfo, fs: seq<FuncSym>)
    ensures |fs| == 1 && ReadPe(bytes, true) == Ok(info) && PeFits(bytes, info, fs) && PointerKept(bytes, info, fs)
  {
    hide ToLe, FromLe, Pow256, PeFits, PointerKept, ReadPe;
    var coff := Zeros(2) + ToLe(0, 2) + Zeros(12) + ToLe(0, 2) + Zeros(2);
    bytes := Zeros(60) + ToLe(64, 4) + [0x50, 0x45, 0, 0] + coff + ToLe(0x20b, 2) + Zeros(22) + ToLe(0, 8);
    info := PeInfo(68, 0, 88, 0);
    fs := [FuncSym([0x66], 0x1000)];
    Pow256Values();
    assert bytes[60..64] == ToLe(64, 4);
    assert bytes[64..68] == [0x50, 0x45, 0, 0];
    assert bytes[88..90] == ToLe(0x20b, 2);
    assert bytes[112..120] == ToLe(0, 8);
    assert bytes[84..86] == ToLe(0, 2);
    assert bytes[70..72] == ToLe(0, 2);
    LeRoundTrip(64, 4);
    LeRoundTrip(0x20b, 2);
    LeRoundTrip(0, 8);
    LeRoundTrip(0, 2);
    HeadersOnly(bytes, 64);
    SmallBody(bytes, info, fs[0]);
    ClearIsKept(bytes, info, fs);
  }

  // So can those of the failing case: the header of this file is lost with one function added.
  lemma OverlappingPe() returns (bytes: seq<byte>, info: PeInfo, fs: seq<FuncSym>)
    ensures |fs| == 1 && ReadPe(bytes, true) == Ok(info) && PeFits(bytes, info, fs) && !PointerKept(bytes, info, fs)
  {
    hide ToLe, FromLe, Pow256, PeFits, PointerKept, ReadPe;
    var coff := Zeros(2) + ToLe(0, 2) + Zeros(4) + ToLe(48, 4) + Zeros(4) + ToLe(0, 2) + Zeros(2);
    bytes := Zeros(48) + [0x50, 0x45, 0, 0] + coff + ToLe(0x20b, 2) + Zeros(22) + ToLe(0, 8);
    info := PeInfo(52, 0, 72, 0);
    fs := [FuncSym([0x66], 0x1000)];
    Pow256Values();
    assert bytes[60..64] == ToLe(48, 4);
    assert bytes[48..52] == [0x50, 0x45, 0, 0];
    assert bytes[72..74] == ToLe(0x20b, 2);
    assert bytes[96..104] == ToLe(0, 8);
    assert bytes[68..70] == ToLe(0, 2);
    assert bytes[54..56] == ToLe(0, 2);
    LeRoundTrip(48, 4);
    LeRoundTrip(0x20b, 2);
    LeRoundTrip(0, 8);
    LeRoundTrip(0, 2);
    HeadersOnly(bytes, 48);
    SmallBody(bytes, info, fs[0]);
    PointerOverwritten(bytes, info, fs);
  }

  lemma HeadersOnly(bytes: seq<byte>, at: nat)
    requires |bytes| == at + 56 >= LFANEW + 4 && Le(bytes, LFANEW, 4) == at
    requires bytes[at..at + 4] == [0x50, 0x45, 0, 0]
    requires Le(bytes, at + 24, 2) == 0x20b && Le(bytes, at + 48, 8) == 0
    requires Le(bytes, at + 20, 2) == 0 && Le(bytes, at + 6, 2) == 0
    ensures ReadPe(bytes, true) == Ok(PeInfo(at + 4, 0, at + 24, 0))
  {
    hide FromLe;
  }

  lemma SmallBody(bytes: seq<byte>, info: PeInfo, f: FuncSym)
    requires |bytes| <= 120 && info.sections == 0 && info.sectionTable <= |bytes| && |f.name| <= 8
    ensures PeFits(bytes, info, [f])
  {
    hide TextSection;
    assert [f][..0] == [];
    BodySize(bytes, info, [f]);
  }
}
