/** Embedding recovered symbols in an ELF64 file: the writer, composing its output buffer by buffer and
    patching it in place. */
module ElfRewrite {
  import opened Wrappers
  import opened Bytes
  import opened Bits
  import opened FileImage

  datatype Error =
    | BigEndian | TooSmall | BadMagic | NotElf64 | NotLsb | BadEntSize | TableOverruns | BadShstrndx | ShstrtabOverruns

  const SHDR_SIZE: nat := 64
  const SYM_SIZE: nat := 24
  const SHT_SYMTAB := 2
  const SHT_STRTAB := 3
  const SYM_INFO_GLOBAL_FUNC := 0x12

  // ----- the writer -----

  // What the writer reads from the original: its section headers and its section name table.
  datatype Original = Original(shdrs: seq<byte>, shnum: nat, shstrtab: seq<byte>)

  function ReadOriginal(bytes: seq<byte>, littleEndian: bool): (r: Result<Original, Error>)
    ensures r.Ok? ==> |bytes| >= 64 && |r.value.shdrs| == SHDR_SIZE * r.value.shnum
  {
    if !littleEndian then Err(BigEndian)
    else if |bytes| < 64 then Err(TooSmall)
    else if bytes[0..4] != [0x7f, 0x45, 0x4c, 0x46] then Err(BadMagic)
    else if bytes[4] != 2 then Err(NotElf64)
    else if bytes[5] != 1 then Err(NotLsb)
    else if Le(bytes, 58, 2) != SHDR_SIZE then Err(BadEntSize)
    else
      var shoff, shnum, ndx := Le(bytes, 40, 8), Le(bytes, 60, 2), Le(bytes, 62, 2);
      if shoff + shnum * SHDR_SIZE > |bytes| then Err(TableOverruns)
      else if ndx >= shnum then Err(BadShstrndx)
      else
        var shdrs := bytes[shoff..shoff + shnum * SHDR_SIZE];
        var off, size := Le(shdrs, ndx * SHDR_SIZE + 24, 8), Le(shdrs, ndx * SHDR_SIZE + 32, 8);
        if off + size > |bytes| then Err(ShstrtabOverruns)
        else Ok(Original(shdrs, shnum, bytes[off..off + size]))
  }

  const NAME_SYMTAB: seq<byte> := [0x2e, 0x73, 0x79, 0x6d, 0x74, 0x61, 0x62]
  const NAME_STRTAB: seq<byte> := [0x2e, 0x73, 0x74, 0x72, 0x74, 0x61, 0x62]
  const NAME_SHSTRTAB: seq<byte> := [0x2e, 0x73, 0x68, 0x73, 0x74, 0x72, 0x74, 0x61, 0x62]

  // The original names, verbatim, then the three new ones.
  function Shstrtab(o: Original): seq<byte> {
    o.shstrtab + (NAME_SYMTAB + [0]) + (NAME_STRTAB + [0]) + (NAME_SHSTRTAB + [0])
  }

  // A NUL, then every name NUL-terminated.
  function Strtab(fs: seq<FuncSym>): seq<byte> {
    if fs == [] then [0] else Strtab(fs[..|fs| - 1]) + fs[|fs| - 1].name + [0]
  }

  function SymEntry(nameOff: nat, shndx: nat, address: u64): (e: seq<byte>)
    ensures |e| == SYM_SIZE
  {
    ToLe(nameOff, 4) + [SYM_INFO_GLOBAL_FUNC, 0] + ToLe(shndx, 2) + ToLe(address, 8) + ToLe(0, 8)
  }

  // The null symbol, then one entry per function; the first `patched` name section `text`, the rest 1.
  function Symtab(fs: seq<FuncSym>, text: nat, patched: nat): (s: seq<byte>)
    ensures |s| == SYM_SIZE * (|fs| + 1)
  {
    if fs == [] then Zeros(SYM_SIZE)
    else
      var init, last := fs[..|fs| - 1], fs[|fs| - 1];
      Symtab(init, text, patched) + SymEntry(|Strtab(init)|, if |fs| - 1 < patched then text else 1, last.address)
  }

  function Pad8(buf: seq<byte>): (r: seq<byte>)
    ensures |r| % 8 == 0 && |buf| <= |r| < |buf| + 8 && r[..|buf|] == buf
  {
    buf + Zeros((8 - |buf| % 8) % 8)
  }

  predicate Executable(o: Original, i: nat)
    requires |o.shdrs| == SHDR_SIZE * o.shnum && i < o.shnum
  {
    And(Le(o.shdrs, i * SHDR_SIZE + 8, 8), 4) != 0
  }

  // The first executable section from i on; 1 if there is none.
  function TextIndex(o: Original, i: nat): nat
    requires |o.shdrs| == SHDR_SIZE * o.shnum && i <= o.shnum
    decreases o.shnum - i
  {
    if i == o.shnum then 1 else if Executable(o, i) then i else TextIndex(o, i + 1)
  }

  function MakeShdr(name: nat, typ: nat, flags: nat, addr: nat, offset: nat, size: nat,
                    link: nat, info: nat, align: nat, entsize: nat): (h: seq<byte>)
    ensures |h| == SHDR_SIZE
  {
    ToLe(name, 4) + ToLe(typ, 4) + ToLe(flags, 8) + ToLe(addr, 8) + ToLe(offset, 8) + ToLe(size, 8)
    + ToLe(link, 4) + ToLe(info, 4) + ToLe(align, 8) + ToLe(entsize, 8)
  }

  // The parts of the output, in file order.
  datatype Parts = Parts(padded: seq<byte>, symtab: seq<byte>, strtab: seq<byte>, shstrtab: seq<byte>, shdrs: seq<byte>,
                         shnum: nat, namesAt: nat) {
    function SymtabOff(): nat { |padded| }

    function StrtabOff(): nat { |padded| + |symtab| }

    function ShstrtabOff(): nat { StrtabOff() + |strtab| }

    function Body(): seq<byte> { padded + symtab + strtab + shstrtab }

    function Shoff(): nat { |Pad8(Body())| }

    function NewShdrs(): (s: seq<byte>)
      ensures |s| == 3 * SHDR_SIZE
    {
      MakeShdr(namesAt, SHT_SYMTAB, 0, 0, SymtabOff(), |symtab|, (shnum + 1) % U16, 1, 8, SYM_SIZE)
      + MakeShdr(namesAt + 8, SHT_STRTAB, 0, 0, StrtabOff(), |strtab|, 0, 0, 1, 0)
      + MakeShdr(namesAt + 16, SHT_STRTAB, 0, 0, ShstrtabOff(), |shstrtab|, 0, 0, 1, 0)
    }

    function Unpatched(): seq<byte> { Pad8(Body()) + shdrs + NewShdrs() }
  }

  function PartsFor(bytes: seq<byte>, o: Original, fs: seq<FuncSym>): Parts
    requires |o.shdrs| == SHDR_SIZE * o.shnum
  {
    Parts(Pad8(bytes), Symtab(fs, TextIndex(o, 0), |fs|), Strtab(fs), Shstrtab(o), o.shdrs, o.shnum, |o.shstrtab|)
  }

  function PatchHeader(out: seq<byte>, shoff: nat, shnum: nat, shstrndx: nat): (r: seq<byte>)
    requires |out| >= 64
    ensures |r| == |out|
  {
    Splice(Splice(Splice(out, 40, ToLe(shoff, 8)), 60, ToLe(shnum, 2)), 62, ToLe(shstrndx, 2))
  }

  function Output(bytes: seq<byte>, o: Original, fs: seq<FuncSym>): seq<byte>
    requires |o.shdrs| == SHDR_SIZE * o.shnum && |bytes| >= 64
  {
    var p := PartsFor(bytes, o, fs);
    PatchHeader(p.Unpatched(), p.Shoff(), (o.shnum + 3) % U16, (o.shnum + 2) % U16)
  }

  // Composes the output in the program's order: tables, alignment, header re-emission, the section
  // index of every symbol patched afterwards, then the file header.
  method WriteSymbolsAsElf(bytes: seq<byte>, littleEndian: bool, functions: seq<FuncSym>)
    returns (r: Result<seq<byte>, Error>)
    ensures match ReadOriginal(bytes, littleEndian)
      case Err(e) => r == Err(e)
      case Ok(o) => r == Ok(Output(bytes, o, functions))
  {
    hide ReadOriginal, Zeros, SymEntry, MakeShdr, ToLe, TextIndex, Symtab, Strtab, Splice;
    var original := ReadOriginal(bytes, littleEndian);
    if original.Err? {
      return Err(original.error);
    }
    var o := original.value;
    var shstrtab := o.shstrtab;
    var symtabName := |shstrtab|;
    shstrtab := shstrtab + (NAME_SYMTAB + [0]);
    var strtabName := |shstrtab|;
    shstrtab := shstrtab + (NAME_STRTAB + [0]);
    var shstrtabName := |shstrtab|;
    shstrtab := shstrtab + (NAME_SHSTRTAB + [0]);

    var strtab, symtab := BuildTables(functions, TextIndex(o, 0));
    var out := AlignTo8(bytes);
    var symtabOff := |out|;
    out := out + symtab;
    var strtabOff := |out|;
    out := out + strtab;
    var shstrtabOff := |out|;
    out := out + shstrtab;
    out := AlignTo8(out);
    var newShoff := |out|;
    out := out + o.shdrs;

    var textShndx := FirstExecutable(o);
    out := PatchInPlace(out, symtabOff, textShndx, functions, Pad8(bytes), strtab, shstrtab, o.shdrs);
    out := out + MakeShdr(symtabName, SHT_SYMTAB, 0, 0, symtabOff, |symtab|, (o.shnum + 1) % U16, 1, 8, SYM_SIZE);
    out := out + MakeShdr(strtabName, SHT_STRTAB, 0, 0, strtabOff, |strtab|, 0, 0, 1, 0);
    out := out + MakeShdr(shstrtabName, SHT_STRTAB, 0, 0, shstrtabOff, |shstrtab|, 0, 0, 1, 0);
    ghost var p := PartsFor(bytes, o, functions);
    assert out == p.Unpatched() && newShoff == p.Shoff();
    out := Splice(out, 40, ToLe(newShoff, 8));
    out := Splice(out, 60, ToLe((o.shnum + 3) % U16, 2));
    out := Splice(out, 62, ToLe((o.shnum + 2) % U16, 2));
    return Ok(out);
  }

  // Patching the symbols where they lie leaves everything around them as it was.
  method PatchInPlace(buf: seq<byte>, symtabOff: nat, text: nat, functions: seq<FuncSym>,
                      ghost pre: seq<byte>, ghost strtab: seq<byte>, ghost shstrtab: seq<byte>, ghost shdrs: seq<byte>)
    returns (out: seq<byte>)
    requires |pre| == symtabOff && buf == Pad8(pre + Symtab(functions, text, 0) + strtab + shstrtab) + shdrs
    ensures out == Pad8(pre + Symtab(functions, text, |functions|) + strtab + shstrtab) + shdrs
  {
    hide Symtab, Pad8, Zeros;
    ghost var unpatched, patched := Symtab(functions, text, 0), Symtab(functions, text, |functions|);
    ghost var post := AfterSymtab(pre, unpatched, strtab + shstrtab, shdrs);
    Regroup(pre, unpatched, strtab, shstrtab, shdrs);
    Regroup(pre, patched, strtab, shstrtab, shdrs);
    assert AfterSymtab(pre, patched, strtab + shstrtab, shdrs) == post;
    out := PatchSymbols(buf, symtabOff, text, functions, pre, post);
  }

  // Everything after the symbol table, once aligned and followed by the section headers.
  ghost function AfterSymtab(pre: seq<byte>, symtab: seq<byte>, tail: seq<byte>, shdrs: seq<byte>): seq<byte> {
    tail + Zeros((8 - |pre + symtab + tail| % 8) % 8) + shdrs
  }

  lemma Regroup(pre: seq<byte>, symtab: seq<byte>, strtab: seq<byte>, shstrtab: seq<byte>, shdrs: seq<byte>)
    ensures Pad8(pre + symtab + strtab + shstrtab) + shdrs
         == pre + symtab + AfterSymtab(pre, symtab, strtab + shstrtab, shdrs)
  {
    assert pre + symtab + strtab + shstrtab == pre + symtab + (strtab + shstrtab);
  }

  method AlignTo8(buf: seq<byte>) returns (out: seq<byte>)
    ensures out == Pad8(buf)
  {
    hide Zeros;
    out := buf;
    var k := 0;
    ZeroZeros();
    while |out| % 8 != 0
      invariant out == buf + Zeros(k) && k <= (8 - |buf| % 8) % 8
      decreases 8 - k
    {
      PadStep(|buf|, k);
      ZerosStep(k);
      out := out + [0];
      k := k + 1;
    }
    PadEnd(|buf|, k);
  }

  lemma PadStep(n: nat, k: nat)
    requires k <= (8 - n % 8) % 8 && (n + k) % 8 != 0
    ensures k + 1 <= (8 - n % 8) % 8 < 8
  {
  }

  lemma PadEnd(n: nat, k: nat)
    requires k <= (8 - n % 8) % 8 && (n + k) % 8 == 0
    ensures k == (8 - n % 8) % 8
  {
  }

  method FirstExecutable(o: Original) returns (index: nat)
    requires |o.shdrs| == SHDR_SIZE * o.shnum
    ensures index == TextIndex(o, 0)
  {
    hide Le, And;
    for i := 0 to o.shnum
      invariant TextIndex(o, 0) == TextIndex(o, i)
    {
      if Executable(o, i) {
        return i;
      }
    }
    return 1;
  }

  // The string table and the symbol table, the latter still naming section 1 everywhere.
  method BuildTables(functions: seq<FuncSym>, ghost text: nat) returns (strtab: seq<byte>, symtab: seq<byte>)
    ensures strtab == Strtab(functions) && symtab == Symtab(functions, text, 0)
  {
    hide SymEntry;
    strtab := [0];
    var offsets: seq<nat> := [];
    for k := 0 to |functions|
      invariant strtab == Strtab(functions[..k]) && |offsets| == k
      invariant forall j :: 0 <= j < k ==> offsets[j] == |Strtab(functions[..j])|
    {
      assert functions[..k + 1][..k] == functions[..k];
      offsets := offsets + [|strtab|];
      strtab := strtab + functions[k].name;
      strtab := strtab + [0];
    }
    symtab := Zeros(SYM_SIZE);
    for k := 0 to |functions|
      invariant symtab == Symtab(functions[..k], text, 0)
    {
      assert functions[..k + 1][..k] == functions[..k];
      symtab := symtab + SymEntry(offsets[k], 1, functions[k].address);
    }
    assert functions[..|functions|] == functions;
  }

  method PatchSymbols(buf: seq<byte>, symtabOff: nat, text: nat, functions: seq<FuncSym>, ghost pre: seq<byte>,
      ghost post: seq<byte>)
    returns (out: seq<byte>)
    requires |pre| == symtabOff && buf == pre + Symtab(functions, text, 0) + post
    ensures out == pre + Symtab(functions, text, |functions|) + post
  {
    hide Symtab, ToLe, Splice;
    out := buf;
    for k := 1 to |functions| + 1
      invariant out == pre + Symtab(functions, text, k - 1) + post
    {
      var symStart := symtabOff + k * SYM_SIZE;
      PatchOne(functions, text, k - 1);
      SpliceInside(pre, Symtab(functions, text, k - 1), post, k * SYM_SIZE + 6, ToLe(text, 2));
      out := Splice(out, symStart + 6, ToLe(text, 2));
    }
  }

  lemma SpliceInside(pre: seq<byte>, mid: seq<byte>, post: seq<byte>, at: nat, data: seq<byte>)
    requires at + |data| <= |mid|
    ensures Splice(pre + mid + post, |pre| + at, data) == pre + Splice(mid, at, data) + post
  {
  }

  // Patching one entry's section index is the step from k to k+1 patched entries.
  lemma {:induction false} PatchOne(fs: seq<FuncSym>, text: nat, k: nat)
    requires k < |fs|
    ensures Splice(Symtab(fs, text, k), (k + 1) * SYM_SIZE + 6, ToLe(text, 2)) == Symtab(fs, text, k + 1)
  {
    hide SymEntry, Splice, Strtab, ToLe, Zeros;
    var n := |fs| - 1;
    var init, last := fs[..n], fs[n];
    var done := Symtab(init, text, k);
    if k == n {
      NoneLeft(init, text, k);
      SpliceInside(done, SymEntry(|Strtab(init)|, 1, last.address), [], 6, ToLe(text, 2));
      PatchEntry(|Strtab(init)|, text, last.address);
      assert done + SymEntry(|Strtab(init)|, 1, last.address) + [] == Symtab(fs, text, k);
    } else {
      PatchOne(init, text, k);
      var e := SymEntry(|Strtab(init)|, 1, last.address);
      SpliceInside([], done, e, (k + 1) * SYM_SIZE + 6, ToLe(text, 2));
      assert [] + done + e == Symtab(fs, text, k);
    }
  }

  lemma PatchEntry(nameOff: nat, text: nat, address: u64)
    ensures Splice(SymEntry(nameOff, 1, address), 6, ToLe(text, 2)) == SymEntry(nameOff, text, address)
  {
    hide ToLe;
  }

  lemma {:induction false} NoneLeft(fs: seq<FuncSym>, text: nat, k: nat)
    requires k >= |fs|
    ensures Symtab(fs, text, k) == Symtab(fs, text, k + 1)
  {
    if fs != [] {
      NoneLeft(fs[..|fs| - 1], text, k);
    }
  }
}
