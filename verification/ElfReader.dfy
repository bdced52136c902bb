/** A reader of ELF64 little-endian section, string and symbol tables as the System V ABI (chapter 4,
    "ELF Header", "Section Header", "String Table", "Symbol Table") lays them out, and what it finds in
    the rewriter's output. */
module ElfReader {
  import opened Wrappers
  import opened Bytes
  import opened Bits
  import opened FileImage
  import opened ElfRewrite

  datatype Shdr = Shdr(
    name: nat, typ: nat, flags: nat, addr: nat, offset: nat, size: nat, link: nat, info: nat, align: nat, entsize: nat)

  datatype Sym = Sym(name: nat, info: nat, other: nat, shndx: nat, value: nat, size: nat)

  function DecodeShdr(h: seq<byte>): Shdr
    requires |h| == SHDR_SIZE
  {
    Shdr(Le(h, 0, 4), Le(h, 4, 4), Le(h, 8, 8), Le(h, 16, 8), Le(h, 24, 8), Le(h, 32, 8),
         Le(h, 40, 4), Le(h, 44, 4), Le(h, 48, 8), Le(h, 56, 8))
  }

  function DecodeSym(e: seq<byte>): Sym
    requires |e| == SYM_SIZE
  {
    Sym(Le(e, 0, 4), e[4], e[5], Le(e, 6, 2), Le(e, 8, 8), Le(e, 16, 8))
  }

  function SectionCount(file: seq<byte>): nat
    requires |file| >= 64
  {
    Le(file, 60, 2)
  }

  // The raw bytes of section header i.
  function RawShdr(file: seq<byte>, i: nat): (h: Option<seq<byte>>)
    ensures h.Some? ==> |h.value| == SHDR_SIZE && |file| >= 64
  {
    if |file| < 64 || i >= SectionCount(file) then None
    else Chunk(file, Le(file, 40, 8) + i * SHDR_SIZE, SHDR_SIZE)
  }

  function Section(file: seq<byte>, i: nat): (h: Option<Shdr>)
    ensures h.Some? ==> |file| >= 64
  {
    var h :- RawShdr(file, i);
    Some(DecodeShdr(h))
  }

  function Contents(file: seq<byte>, i: nat): Option<seq<byte>> {
    var h :- Section(file, i);
    Chunk(file, h.offset, h.size)
  }

  function SectionName(file: seq<byte>, i: nat): Option<seq<byte>> {
    var h :- Section(file, i);
    var names :- Contents(file, Le(file, 62, 2));
    StringAt(names, h.name)
  }

  // Symbol k of symbol table section i.
  function Symbol(file: seq<byte>, i: nat, k: nat): Option<Sym> {
    var table :- Contents(file, i);
    var e :- Chunk(table, k * SYM_SIZE, SYM_SIZE);
    Some(DecodeSym(e))
  }

  // ... and its name, through the table's sh_link.
  function SymbolName(file: seq<byte>, i: nat, k: nat): Option<seq<byte>> {
    var h :- Section(file, i);
    var sym :- Symbol(file, i, k);
    var strings :- Contents(file, h.link);
    StringAt(strings, sym.name)
  }

  // ----- string tables -----

  lemma {:induction false} StrtabName(fs: seq<FuncSym>, k: nat)
    requires k < |fs| && 0 !in fs[k].name
    ensures StringAt(Strtab(fs), |Strtab(fs[..k])|) == Some(fs[k].name)
  {
    var n := |fs| - 1;
    var init, last := fs[..n], fs[n];
    assert fs[..k] == init[..k];
    if k == n {
      assert init[..k] == init;
      StringHere(Strtab(init), last.name, []);
      assert Strtab(init) + last.name + [0] + [] == Strtab(fs);
    } else {
      StrtabName(init, k);
      StringAtAppend(Strtab(init), last.name + [0], |Strtab(fs[..k])|);
      assert Strtab(init) + (last.name + [0]) == Strtab(fs);
    }
  }

  // ----- fixed-size records -----

  lemma ShdrRoundTrip(name: nat, typ: nat, flags: nat, addr: nat, offset: nat, size: nat,
                      link: nat, info: nat, align: nat, entsize: nat)
    requires name < U32 && typ < U32 && link < U32 && info < U32
    requires flags < U64 && addr < U64 && offset < U64 && size < U64 && align < U64 && entsize < U64
    ensures DecodeShdr(MakeShdr(name, typ, flags, addr, offset, size, link, info, align, entsize))
         == Shdr(name, typ, flags, addr, offset, size, link, info, align, entsize)
  {
    hide ToLe, FromLe, Le, Pow256;
    var h := MakeShdr(name, typ, flags, addr, offset, size, link, info, align, entsize);
    Pow256Values();
    var low := ToLe(name, 4) + ToLe(typ, 4) + ToLe(flags, 8) + ToLe(addr, 8) + ToLe(offset, 8) + ToLe(size, 8);
    var high := ToLe(link, 4) + ToLe(info, 4) + ToLe(align, 8) + ToLe(entsize, 8);
    assert h == low + high && h[..40] == low && h[40..] == high;
    FieldInside(h, name, 4, 0);
    FieldInside(h, typ, 4, 4);
    FieldInside(h, flags, 8, 8);
    FieldInside(h, addr, 8, 16);
    FieldInside(h, offset, 8, 24);
    FieldInside(h, size, 8, 32);
    HighField(h, link, 4, 0);
    HighField(h, info, 4, 4);
    HighField(h, align, 8, 8);
    HighField(h, entsize, 8, 16);
  }

  lemma HighField(h: seq<byte>, v: nat, n: nat, off: nat)
    requires |h| == SHDR_SIZE && off + n <= 24 && h[40..][off..off + n] == ToLe(v, n) && v < Pow256(n)
    ensures Le(h, 40 + off, n) == v
  {
    hide ToLe, Le, Pow256;
    SliceOfSuffix(h, 40, off, n);
    FieldInside(h, v, n, 40 + off);
  }

  lemma SymRoundTrip(nameOff: nat, shndx: nat, address: u64)
    requires nameOff < U32 && shndx < U16
    ensures DecodeSym(SymEntry(nameOff, shndx, address)) == Sym(nameOff, SYM_INFO_GLOBAL_FUNC, 0, shndx, address, 0)
  {
    hide ToLe, FromLe, Le, Pow256;
    var e := SymEntry(nameOff, shndx, address);
    Pow256Values();
    FieldInside(e, nameOff, 4, 0);
    FieldInside(e, shndx, 2, 6);
    FieldInside(e, address, 8, 8);
    FieldInside(e, 0, 8, 16);
  }

  lemma {:induction false} SymtabEntry(fs: seq<FuncSym>, text: nat, k: nat)
    requires k < |fs|
    ensures Chunk(Symtab(fs, text, |fs|), (k + 1) * SYM_SIZE, SYM_SIZE)
         == Some(SymEntry(|Strtab(fs[..k])|, text, fs[k].address))
  {
    SymtabEntryAt(fs, text, |fs|, k);
  }

  lemma {:induction false} SymtabEntryAt(fs: seq<FuncSym>, text: nat, patched: nat, k: nat)
    requires k < |fs| <= patched
    ensures Chunk(Symtab(fs, text, patched), (k + 1) * SYM_SIZE, SYM_SIZE)
         == Some(SymEntry(|Strtab(fs[..k])|, text, fs[k].address))
  {
    hide SymEntry, Strtab;
    var n := |fs| - 1;
    var init := fs[..n];
    assert fs[..k] == init[..k];
    var done := Symtab(init, text, patched);
    var last := SymEntry(|Strtab(init)|, text, fs[n].address);
    assert Symtab(fs, text, patched) == done + last + [];
    if k == n {
      assert init[..k] == init;
      MiddleChunk(done, last, [], 0, SYM_SIZE);
      assert last[0..SYM_SIZE] == last;
    } else {
      SymtabEntryAt(init, text, patched, k);
      MiddleChunk([], done, last, (k + 1) * SYM_SIZE, SYM_SIZE);
      assert [] + done + last == done + last + [];
    }
  }

  // ----- the output -----

  // Everything fits its field: the output offsets 64 bits, the string tables 32, and the section count its
  // 16 bits without touching the indices the ABI reserves from 0xff00 up.
  predicate Fits(bytes: seq<byte>, o: Original, fs: seq<FuncSym>)
    requires |bytes| >= 64 && |o.shdrs| == SHDR_SIZE * o.shnum
  {
    && |Output(bytes, o, fs)| < U64
    && o.shnum + 3 < 0xff00
    && |Strtab(fs)| < U32
    && |Shstrtab(o)| < U32
  }

  lemma PatchedTail(out: seq<byte>, shoff: nat, shnum: nat, shstrndx: nat)
    requires |out| >= 64
    ensures var r := PatchHeader(out, shoff, shnum, shstrndx);
      && (forall i :: 0 <= i < |out| && !(40 <= i < 48) && !(60 <= i < 64) ==> r[i] == out[i])
      && r[40..48] == ToLe(shoff, 8) && r[60..62] == ToLe(shnum, 2) && r[62..64] == ToLe(shstrndx, 2)
      && r[64..] == out[64..]
  {
    hide ToLe;
    var a := Splice(out, 40, ToLe(shoff, 8));
    var b := Splice(a, 60, ToLe(shnum, 2));
    var r := Splice(b, 62, ToLe(shstrndx, 2));
    assert r[40..48] == b[40..48] == a[40..48];
    assert r[60..62] == b[60..62];
  }

  // The count is stored whole exactly when it fits its field.
  lemma CountStored(bytes: seq<byte>, o: Original, fs: seq<FuncSym>)
    requires |bytes| >= 64 && |o.shdrs| == SHDR_SIZE * o.shnum
    ensures |Output(bytes, o, fs)| >= 64
    ensures SectionCount(Output(bytes, o, fs)) == o.shnum + 3 <==> o.shnum + 3 < U16
  {
    hide Symtab, Strtab, Shstrtab, MakeShdr, TextIndex, PatchHeader, Zeros, ToLe, FromLe, Pow256;
    var p := PartsFor(bytes, o, fs);
    PatchedTail(p.Unpatched(), p.Shoff(), (o.shnum + 3) % U16, (o.shnum + 2) % U16);
    Pow256Values();
    FieldInside(Output(bytes, o, fs), (o.shnum + 3) % U16, 2, 60);
  }

  // The original bytes are all there, but for the two header ranges.
  lemma OriginalBytesKept(bytes: seq<byte>, o: Original, fs: seq<FuncSym>)
    requires |bytes| >= 64 && |o.shdrs| == SHDR_SIZE * o.shnum
    ensures |Output(bytes, o, fs)| >= |bytes|
    ensures forall i :: 0 <= i < |bytes| && !(40 <= i < 48) && !(60 <= i < 64) ==> Output(bytes, o, fs)[i] == bytes[i]
  {
    hide Symtab, Strtab, Shstrtab, MakeShdr, TextIndex, PatchHeader, Zeros;
    var p := PartsFor(bytes, o, fs);
    PatchedTail(p.Unpatched(), p.Shoff(), (o.shnum + 3) % U16, (o.shnum + 2) % U16);
    assert p.Unpatched()[..|bytes|] == bytes;
  }

  lemma ChunksBehind(x: seq<byte>, y: seq<byte>)
    requires |x| == |y| >= 64 && x[64..] == y[64..]
    ensures forall a: nat, n: nat :: 64 <= a ==> Chunk(x, a, n) == Chunk(y, a, n)
  {
    forall a: nat, n: nat | 64 <= a ensures Chunk(x, a, n) == Chunk(y, a, n) {
      if a + n <= |x| {
        SliceOfSuffix(x, 64, a - 64, n);
        SliceOfSuffix(y, 64, a - 64, n);
      }
    }
  }

  // What the reader sees of the output's header and of everything behind it.
  lemma OutputShape(bytes: seq<byte>, o: Original, fs: seq<FuncSym>)
    requires |bytes| >= 64 && |o.shdrs| == SHDR_SIZE * o.shnum && Fits(bytes, o, fs)
    ensures var p, out := PartsFor(bytes, o, fs), Output(bytes, o, fs);
      && Le(out, 40, 8) == p.Shoff() && SectionCount(out) == o.shnum + 3 && Le(out, 62, 2) == o.shnum + 2
      && |out| == |p.Unpatched()| >= 64 && |p.padded| >= 64 && p.Shoff() >= 64
      && (forall a: nat, n: nat :: 64 <= a ==> Chunk(out, a, n) == Chunk(p.Unpatched(), a, n))
  {
    hide Symtab, Strtab, Shstrtab, MakeShdr, TextIndex, PatchHeader, Le, ToLe, Pow256;
    var p, out := PartsFor(bytes, o, fs), Output(bytes, o, fs);
    PatchedTail(p.Unpatched(), p.Shoff(), o.shnum + 3, o.shnum + 2);
    Pow256Values();
    FieldInside(out, p.Shoff(), 8, 40);
    FieldInside(out, o.shnum + 3, 2, 60);
    FieldInside(out, o.shnum + 2, 2, 62);
    ChunksBehind(out, p.Unpatched());
  }

  // The three appended tables, where the new headers say they are.
  lemma TablesInPlace(bytes: seq<byte>, o: Original, fs: seq<FuncSym>)
    requires |bytes| >= 64 && |o.shdrs| == SHDR_SIZE * o.shnum && Fits(bytes, o, fs)
    ensures var p, out := PartsFor(bytes, o, fs), Output(bytes, o, fs);
      && Chunk(out, p.SymtabOff(), |p.symtab|) == Some(p.symtab)
      && Chunk(out, p.StrtabOff(), |p.strtab|) == Some(p.strtab)
      && Chunk(out, p.ShstrtabOff(), |p.shstrtab|) == Some(p.shstrtab)
  {
    OutputShape(bytes, o, fs);
    PartsInPlace(PartsFor(bytes, o, fs));
  }

  lemma PartsInPlace(p: Parts)
    ensures var u := p.Unpatched();
      && Chunk(u, p.SymtabOff(), |p.symtab|) == Some(p.symtab)
      && Chunk(u, p.StrtabOff(), |p.strtab|) == Some(p.strtab)
      && Chunk(u, p.ShstrtabOff(), |p.shstrtab|) == Some(p.shstrtab)
  {
    hide Parts.NewShdrs, Zeros;
    var u := p.Unpatched();
    assert u[..|p.Body()|] == p.Body();
    var a, b, c := p.SymtabOff(), p.StrtabOff(), p.ShstrtabOff();
    assert u[a..a + |p.symtab|] == p.Body()[a..a + |p.symtab|] == p.symtab;
    assert u[b..b + |p.strtab|] == p.Body()[b..b + |p.strtab|] == p.strtab;
    assert u[c..c + |p.shstrtab|] == p.Body()[c..c + |p.shstrtab|] == p.shstrtab;
  }

  lemma HeadersInPlace(p: Parts, i: nat)
    requires |p.shdrs| == SHDR_SIZE * p.shnum && i < p.shnum + 3
    ensures Chunk(p.Unpatched(), p.Shoff() + i * SHDR_SIZE, SHDR_SIZE)
         == if i < p.shnum then Chunk(p.shdrs, i * SHDR_SIZE, SHDR_SIZE)
            else Chunk(p.NewShdrs(), (i - p.shnum) * SHDR_SIZE, SHDR_SIZE)
  {
    hide Parts.NewShdrs, Pad8, Parts.Body;
    var pre := Pad8(p.Body());
    if i < p.shnum {
      MiddleChunk(pre, p.shdrs, p.NewShdrs(), i * SHDR_SIZE, SHDR_SIZE);
    } else {
      MiddleChunk(pre + p.shdrs, p.NewShdrs(), [], (i - p.shnum) * SHDR_SIZE, SHDR_SIZE);
      assert pre + p.shdrs + p.NewShdrs() + [] == p.Unpatched();
    }
  }

  // Every original section header is re-emitted verbatim; three more follow.
  lemma HeadersKept(bytes: seq<byte>, o: Original, fs: seq<FuncSym>, i: nat)
    requires ReadOriginal(bytes, true) == Ok(o) && Fits(bytes, o, fs) && i < o.shnum + 3
    ensures SectionCount(bytes) == o.shnum && SectionCount(Output(bytes, o, fs)) == o.shnum + 3
    ensures i < o.shnum ==> RawShdr(bytes, i).Some? && RawShdr(Output(bytes, o, fs), i) == RawShdr(bytes, i)
    ensures i >= o.shnum ==>
      RawShdr(Output(bytes, o, fs), i) == Chunk(PartsFor(bytes, o, fs).NewShdrs(), (i - o.shnum) * SHDR_SIZE, SHDR_SIZE)
  {
    hide Le, Parts.NewShdrs, Parts.Unpatched, Pad8, Parts.Body, Output, Chunk, Parts.Shoff;
    OutputShape(bytes, o, fs);
    HeadersInPlace(PartsFor(bytes, o, fs), i);
    OriginalHeaders(bytes, o, i);
  }

  lemma OriginalHeaders(bytes: seq<byte>, o: Original, i: nat)
    requires ReadOriginal(bytes, true) == Ok(o)
    ensures SectionCount(bytes) == o.shnum
    ensures i < o.shnum ==> RawShdr(bytes, i) == Chunk(o.shdrs, i * SHDR_SIZE, SHDR_SIZE) && RawShdr(bytes, i).Some?
  {
    hide Le;
    if i < o.shnum {
      var shoff := Le(bytes, 40, 8);
      assert bytes == bytes[..shoff] + o.shdrs + bytes[shoff + |o.shdrs|..];
      MiddleChunk(bytes[..shoff], o.shdrs, bytes[shoff + |o.shdrs|..], i * SHDR_SIZE, SHDR_SIZE);
    }
  }

  // The section the original calls its name table, as the reader sees it.
  lemma OriginalNames(bytes: seq<byte>, o: Original)
    requires ReadOriginal(bytes, true) == Ok(o)
    ensures Contents(bytes, Le(bytes, 62, 2)) == Some(o.shstrtab)
  {
    hide FromLe;
    var ndx := Le(bytes, 62, 2);
    OriginalHeaders(bytes, o, ndx);
    var h := o.shdrs[ndx * SHDR_SIZE..ndx * SHDR_SIZE + SHDR_SIZE];
    LeWithin(o.shdrs, ndx * SHDR_SIZE, 24, 8);
    LeWithin(o.shdrs, ndx * SHDR_SIZE, 32, 8);
  }

  lemma LeWithin(buf: seq<byte>, base: nat, off: nat, n: nat)
    requires base + SHDR_SIZE <= |buf| && off + n <= SHDR_SIZE
    ensures Le(buf[base..base + SHDR_SIZE], off, n) == Le(buf, base + off, n)
  {
    var h := buf[base..base + SHDR_SIZE];
    assert buf == buf[..base] + h + buf[base + SHDR_SIZE..];
    MiddleChunk(buf[..base], h, buf[base + SHDR_SIZE..], off, n);
  }

  // The writer takes exactly the little-endian ELF64 files whose section headers and name table can be read.
  lemma AcceptedExactly(bytes: seq<byte>)
    ensures ReadOriginal(bytes, true).Ok? <==>
      && |bytes| >= 64 && bytes[0..6] == [0x7f, 0x45, 0x4c, 0x46, 2, 1] && Le(bytes, 58, 2) == 64
      && SectionCount(bytes) > 0 && RawShdr(bytes, SectionCount(bytes) - 1).Some?
      && Contents(bytes, Le(bytes, 62, 2)).Some?
  {
    hide Le, Contents;
    if |bytes| >= 64 {
      assert bytes[0..6] == bytes[0..4] + [bytes[4], bytes[5]];
      if Le(bytes, 40, 8) + SectionCount(bytes) * 64 <= |bytes| && Le(bytes, 62, 2) < SectionCount(bytes) {
        NamesRead(bytes);
      } else {
        NoNames(bytes);
      }
    }
  }

  lemma NoNames(bytes: seq<byte>)
    requires |bytes| >= 64
    requires Le(bytes, 62, 2) >= SectionCount(bytes) || Le(bytes, 40, 8) + SectionCount(bytes) * 64 > |bytes|
    ensures Contents(bytes, Le(bytes, 62, 2)).None? || SectionCount(bytes) == 0
         || RawShdr(bytes, SectionCount(bytes) - 1).None?
  {
    hide Le;
  }

  // The name table as the writer slices it.
  lemma NamesRead(bytes: seq<byte>)
    requires |bytes| >= 64
    requires Le(bytes, 40, 8) + SectionCount(bytes) * 64 <= |bytes| && Le(bytes, 62, 2) < SectionCount(bytes)
    ensures var shoff, n, ndx := Le(bytes, 40, 8), SectionCount(bytes), Le(bytes, 62, 2);
      var shdrs := bytes[shoff..shoff + n * 64];
      Contents(bytes, ndx) == Chunk(bytes, Le(shdrs, ndx * 64 + 24, 8), Le(shdrs, ndx * 64 + 32, 8))
  {
    hide FromLe;
    var shoff, n, ndx := Le(bytes, 40, 8), SectionCount(bytes), Le(bytes, 62, 2);
    var shdrs := bytes[shoff..shoff + n * 64];
    assert bytes == bytes[..shoff] + shdrs + bytes[shoff + |shdrs|..];
    MiddleChunk(bytes[..shoff], shdrs, bytes[shoff + |shdrs|..], ndx * 64, 64);
    LeWithin(shdrs, ndx * 64, 24, 8);
    LeWithin(shdrs, ndx * 64, 32, 8);
  }

  // The three new sections decode to what the writer meant.
  lemma NewSections(bytes: seq<byte>, o: Original, fs: seq<FuncSym>)
    requires ReadOriginal(bytes, true) == Ok(o) && Fits(bytes, o, fs)
    ensures var p, out := PartsFor(bytes, o, fs), Output(bytes, o, fs);
      && Section(out, o.shnum) == Some(Shdr(p.namesAt, 2, 0, 0, p.SymtabOff(), |p.symtab|, o.shnum + 1, 1, 8, 24))
      && Section(out, o.shnum + 1) == Some(Shdr(p.namesAt + 8, 3, 0, 0, p.StrtabOff(), |p.strtab|, 0, 0, 1, 0))
      && Section(out, o.shnum + 2) == Some(Shdr(p.namesAt + 16, 3, 0, 0, p.ShstrtabOff(), |p.shstrtab|, 0, 0, 1, 0))
  {
    hide ReadOriginal, RawShdr, DecodeShdr, MakeShdr, Symtab, Strtab, TextIndex, Zeros, Output;
    var p := PartsFor(bytes, o, fs);
    HeadersKept(bytes, o, fs, o.shnum);
    HeadersKept(bytes, o, fs, o.shnum + 1);
    HeadersKept(bytes, o, fs, o.shnum + 2);
    OutputShape(bytes, o, fs);
    NewShdrChunks(p);
    ShdrRoundTrip(p.namesAt, SHT_SYMTAB, 0, 0, p.SymtabOff(), |p.symtab|, o.shnum + 1, 1, 8, SYM_SIZE);
    ShdrRoundTrip(p.namesAt + 8, SHT_STRTAB, 0, 0, p.StrtabOff(), |p.strtab|, 0, 0, 1, 0);
    ShdrRoundTrip(p.namesAt + 16, SHT_STRTAB, 0, 0, p.ShstrtabOff(), |p.shstrtab|, 0, 0, 1, 0);
  }

  lemma NewShdrChunks(p: Parts)
    requires p.shnum + 1 < U16
    ensures Chunk(p.NewShdrs(), 0, SHDR_SIZE)
         == Some(MakeShdr(p.namesAt, SHT_SYMTAB, 0, 0, p.SymtabOff(), |p.symtab|, p.shnum + 1, 1, 8, SYM_SIZE))
    ensures Chunk(p.NewShdrs(), SHDR_SIZE, SHDR_SIZE)
         == Some(MakeShdr(p.namesAt + 8, SHT_STRTAB, 0, 0, p.StrtabOff(), |p.strtab|, 0, 0, 1, 0))
    ensures Chunk(p.NewShdrs(), 2 * SHDR_SIZE, SHDR_SIZE)
         == Some(MakeShdr(p.namesAt + 16, SHT_STRTAB, 0, 0, p.ShstrtabOff(), |p.shstrtab|, 0, 0, 1, 0))
  {
    hide MakeShdr;
    var a := MakeShdr(p.namesAt, SHT_SYMTAB, 0, 0, p.SymtabOff(), |p.symtab|, p.shnum + 1, 1, 8, SYM_SIZE);
    var b := MakeShdr(p.namesAt + 8, SHT_STRTAB, 0, 0, p.StrtabOff(), |p.strtab|, 0, 0, 1, 0);
    var c := MakeShdr(p.namesAt + 16, SHT_STRTAB, 0, 0, p.ShstrtabOff(), |p.shstrtab|, 0, 0, 1, 0);
    ThreeChunks(a, b, c);
    assert p.NewShdrs() == a + b + c;
  }

  lemma ThreeChunks(a: seq<byte>, b: seq<byte>, c: seq<byte>)
    requires |a| == |b| == |c| == SHDR_SIZE
    ensures Chunk(a + b + c, 0, SHDR_SIZE) == Some(a)
    ensures Chunk(a + b + c, SHDR_SIZE, SHDR_SIZE) == Some(b)
    ensures Chunk(a + b + c, 2 * SHDR_SIZE, SHDR_SIZE) == Some(c)
  {
    MiddleChunk([], a, b + c, 0, SHDR_SIZE);
    assert [] + a + (b + c) == a + b + c && a[0..SHDR_SIZE] == a;
    MiddleChunk(a, b, c, 0, SHDR_SIZE);
    MiddleChunk(a + b, c, [], 0, SHDR_SIZE);
    assert a + b + c + [] == a + b + c;
    assert b[0..SHDR_SIZE] == b && c[0..SHDR_SIZE] == c;
  }

  // ----- the round trip -----

  lemma SectionKept(bytes: seq<byte>, o: Original, fs: seq<FuncSym>, i: nat)
    requires ReadOriginal(bytes, true) == Ok(o) && Fits(bytes, o, fs) && i < o.shnum
    ensures Section(bytes, i).Some? && Section(Output(bytes, o, fs), i) == Section(bytes, i)
  {
    hide ReadOriginal, RawShdr, DecodeShdr, Output, Fits;
    HeadersKept(bytes, o, fs, i);
  }

  // The output's name table is the original one, extended.
  lemma NameTable(bytes: seq<byte>, o: Original, fs: seq<FuncSym>)
    requires ReadOriginal(bytes, true) == Ok(o) && Fits(bytes, o, fs)
    ensures |Output(bytes, o, fs)| >= 64
    ensures Contents(Output(bytes, o, fs), Le(Output(bytes, o, fs), 62, 2)) == Some(Shstrtab(o))
  {
    hide ReadOriginal, Section, Symtab, Strtab, Shstrtab, TextIndex, Output, Chunk;
    NewSections(bytes, o, fs);
    TablesInPlace(bytes, o, fs);
    OutputShape(bytes, o, fs);
  }

  // An original section keeps its name exactly when the original table ended it with a NUL (or its
  // reference lies beyond both tables); a name running off the original table picks up bytes that
  // were not there.
  lemma SectionNamesKept(bytes: seq<byte>, o: Original, fs: seq<FuncSym>, i: nat)
    requires ReadOriginal(bytes, true) == Ok(o) && Fits(bytes, o, fs) && i < o.shnum
    ensures Section(bytes, i).Some?
    ensures SectionName(bytes, i).Some? ==> SectionName(Output(bytes, o, fs), i) == SectionName(bytes, i)
    ensures SectionName(Output(bytes, o, fs), i) == SectionName(bytes, i)
        <==> SectionName(bytes, i).Some? || Section(bytes, i).value.name >= |Shstrtab(o)|
  {
    hide ReadOriginal, Section, Contents, StringAt, Output, Fits;
    SectionKept(bytes, o, fs, i);
    OriginalNames(bytes, o);
    NameTable(bytes, o, fs);
    var name := Section(bytes, i).value.name;
    var more := (NAME_SYMTAB + [0]) + (NAME_STRTAB + [0]) + (NAME_SHSTRTAB + [0]);
    assert Shstrtab(o) == o.shstrtab + more;
    StringAtAppend(o.shstrtab, more, name);
    EndsInNul(Shstrtab(o), name);
  }

  // A table whose last byte is NUL resolves every reference into it.
  lemma EndsInNul(table: seq<byte>, off: nat)
    requires table != [] && table[|table| - 1] == 0
    ensures StringAt(table, off).Some? <==> off < |table|
  {
    if off < |table| {
      var t := table[off..];
      assert t[|t| - 1] == 0;
      assert UpToNul(t) != t;
    }
  }

  // The characters of an ASCII name.
  predicate Spells(name: Option<seq<byte>>, text: string) {
    name.Some? && |name.value| == |text| && forall i :: 0 <= i < |text| ==> name.value[i] == text[i] as int
  }

  // The new sections carry their conventional names.
  lemma NewSectionNames(bytes: seq<byte>, o: Original, fs: seq<FuncSym>)
    requires ReadOriginal(bytes, true) == Ok(o) && Fits(bytes, o, fs)
    ensures Spells(SectionName(Output(bytes, o, fs), o.shnum), ".symtab")
    ensures Spells(SectionName(Output(bytes, o, fs), o.shnum + 1), ".strtab")
    ensures Spells(SectionName(Output(bytes, o, fs), o.shnum + 2), ".shstrtab")
  {
    hide ReadOriginal, Section, Contents, StringAt, Symtab, Strtab, Shstrtab, TextIndex, Output, Chunk;
    NewSections(bytes, o, fs);
    NameTable(bytes, o, fs);
    NewNames(o);
  }

  lemma NewNames(o: Original)
    ensures StringAt(Shstrtab(o), |o.shstrtab|) == Some(NAME_SYMTAB)
    ensures StringAt(Shstrtab(o), |o.shstrtab| + 8) == Some(NAME_STRTAB)
    ensures StringAt(Shstrtab(o), |o.shstrtab| + 16) == Some(NAME_SHSTRTAB)
  {
    hide StringAt;
    var a, b, c := NAME_SYMTAB + [0], NAME_STRTAB + [0], NAME_SHSTRTAB + [0];
    StringHere(o.shstrtab, NAME_SYMTAB, b + c);
    assert o.shstrtab + NAME_SYMTAB + [0] + (b + c) == Shstrtab(o);
    StringHere(o.shstrtab + a, NAME_STRTAB, c);
    assert o.shstrtab + a + NAME_STRTAB + [0] + c == Shstrtab(o);
    StringHere(o.shstrtab + a + b, NAME_SHSTRTAB, []);
    assert o.shstrtab + a + b + NAME_SHSTRTAB + [0] + [] == Shstrtab(o);
  }

  // Section i of the file holds instructions, by its SHF_EXECINSTR flag.
  predicate HoldsCode(file: seq<byte>, i: nat) { Section(file, i).Some? && Section(file, i).value.flags / 4 % 2 == 1 }

  // t is the first of the file's first n sections to hold instructions, 1 when none does.
  predicate FirstCode(file: seq<byte>, n: nat, t: nat) {
    if exists j :: 0 <= j < n && HoldsCode(file, j)
    then t < n && HoldsCode(file, t) && forall j :: 0 <= j < t ==> !HoldsCode(file, j)
    else t == 1
  }

  // The symbol table: entry k+1 is function k, under its own name and address, a global function in the
  // first of the original's sections that holds instructions; there are no others but the null entry 0. The
  // name reads back exactly when it has no NUL in it.
  lemma SymbolsRoundTrip(bytes: seq<byte>, o: Original, fs: seq<FuncSym>, k: nat)
    requires ReadOriginal(bytes, true) == Ok(o) && Fits(bytes, o, fs) && k < |fs|
    ensures var out := Output(bytes, o, fs);
      && Section(out, o.shnum).Some? && Section(out, o.shnum).value.size == (|fs| + 1) * 24
      && (var s := Symbol(out, o.shnum, k + 1);
          && s.Some? && FirstCode(out, o.shnum, s.value.shndx)
          && s.value == Sym(|Strtab(fs[..k])|, 0x12, 0, s.value.shndx, fs[k].address, 0))
      && (SymbolName(out, o.shnum, k + 1) == Some(fs[k].name) <==> 0 !in fs[k].name)
  {
    hide ReadOriginal, RawShdr, DecodeShdr, DecodeSym, StringAt, Symtab, Strtab, SymEntry, TextIndex, Zeros, Output,
        Chunk, FirstCode;
    NewSections(bytes, o, fs);
    TablesInPlace(bytes, o, fs);
    SymtabEntry(fs, TextIndex(o, 0), k);
    StrtabGrows(fs, k);
    TextIndexFirst(bytes, o, fs);
    TextIndexFits(o, 0);
    SymRoundTrip(|Strtab(fs[..k])|, TextIndex(o, 0), fs[k].address);
    if 0 !in fs[k].name {
      StrtabName(fs, k);
    } else {
      NamesHaveNoNul(Strtab(fs), |Strtab(fs[..k])|);
    }
  }

  lemma NamesHaveNoNul(table: seq<byte>, off: nat)
    ensures StringAt(table, off).Some? ==> 0 !in StringAt(table, off).value
  {
  }

  lemma {:induction false} StrtabGrows(fs: seq<FuncSym>, k: nat)
    requires k <= |fs|
    ensures |Strtab(fs[..k])| <= |Strtab(fs)|
  {
    if k < |fs| {
      assert fs[..|fs| - 1][..k] == fs[..k];
      StrtabGrows(fs[..|fs| - 1], k);
    } else {
      assert fs[..k] == fs;
    }
  }

  // The flag the writer tests is the one the reader decodes.
  lemma FlagRead(o: Original, i: nat)
    requires |o.shdrs| == 64 * o.shnum && i < o.shnum
    ensures Executable(o, i) <==> DecodeShdr(o.shdrs[i * 64..i * 64 + 64]).flags / 4 % 2 == 1
  {
    hide FromLe, And, Le;
    LeWithin(o.shdrs, i * 64, 8, 8);
    AndBit(Le(o.shdrs, i * 64 + 8, 8), 2);
    assert Pow2(2) == 4;
  }

  lemma {:induction false} TextIndexFits(o: Original, i: nat)
    requires |o.shdrs| == SHDR_SIZE * o.shnum && i <= o.shnum
    ensures TextIndex(o, i) < Max(o.shnum, 2)
    decreases o.shnum - i
  {
    hide Executable;
    if i < o.shnum && !Executable(o, i) {
      TextIndexFits(o, i + 1);
    }
  }

  lemma {:induction false} TextIndexIs(o: Original, i: nat)
    requires |o.shdrs| == SHDR_SIZE * o.shnum && i <= o.shnum
    ensures var t := TextIndex(o, i);
      if exists j :: i <= j < o.shnum && Executable(o, j)
      then i <= t < o.shnum && Executable(o, t) && forall j :: i <= j < t ==> !Executable(o, j)
      else t == 1
    decreases o.shnum - i
  {
    hide Executable;
    if i < o.shnum && !Executable(o, i) {
      TextIndexIs(o, i + 1);
    }
  }

  // The index the symbols name, among the output's sections: the first that holds instructions, or 1.
  lemma TextIndexFirst(bytes: seq<byte>, o: Original, fs: seq<FuncSym>)
    requires ReadOriginal(bytes, true) == Ok(o) && Fits(bytes, o, fs)
    ensures FirstCode(Output(bytes, o, fs), o.shnum, TextIndex(o, 0))
  {
    hide ReadOriginal, RawShdr, DecodeShdr, Output, Fits, Executable;
    var out := Output(bytes, o, fs);
    forall j: nat | j < o.shnum ensures Executable(o, j) <==> HoldsCode(out, j) {
      HeadersKept(bytes, o, fs, j);
      OriginalHeaders(bytes, o, j);
      FlagRead(o, j);
    }
    TextIndexIs(o, 0);
    if exists j: nat :: j < o.shnum && HoldsCode(out, j) {
      var j: nat :| j < o.shnum && HoldsCode(out, j);
      assert Executable(o, j);
    }
  }

  // ----- the output is an input again -----

  lemma HeaderStays(bytes: seq<byte>, o: Original, fs: seq<FuncSym>)
    requires |bytes| >= 64 && |o.shdrs| == SHDR_SIZE * o.shnum
    ensures var out := Output(bytes, o, fs);
      |out| >= 64 && out[0..6] == bytes[0..6] && Le(out, 58, 2) == Le(bytes, 58, 2)
  {
    hide Output, FromLe;
    OriginalBytesKept(bytes, o, fs);
    assert Output(bytes, o, fs)[58..60] == bytes[58..60];
  }

  lemma AllHeaders(bytes: seq<byte>, o: Original, fs: seq<FuncSym>)
    requires |bytes| >= 64 && |o.shdrs| == SHDR_SIZE * o.shnum && Fits(bytes, o, fs)
    ensures var p, out := PartsFor(bytes, o, fs), Output(bytes, o, fs);
      Chunk(out, p.Shoff(), (o.shnum + 3) * SHDR_SIZE) == Some(o.shdrs + p.NewShdrs())
  {
    hide Parts.NewShdrs, Output, Symtab, Strtab, Shstrtab, TextIndex, Zeros, Pad8, Parts.Body, Le;
    OutputShape(bytes, o, fs);
    var p := PartsFor(bytes, o, fs);
    var pre := Pad8(p.Body());
    MiddleChunk(pre, p.shdrs + p.NewShdrs(), [], 0, (o.shnum + 3) * SHDR_SIZE);
    assert pre + (p.shdrs + p.NewShdrs()) + [] == p.Unpatched();
    assert (p.shdrs + p.NewShdrs())[0..(o.shnum + 3) * SHDR_SIZE] == p.shdrs + p.NewShdrs();
  }

  lemma NameTableHeader(bytes: seq<byte>, o: Original, fs: seq<FuncSym>)
    requires ReadOriginal(bytes, true) == Ok(o) && Fits(bytes, o, fs)
    ensures var p := PartsFor(bytes, o, fs);
      var all, at := o.shdrs + p.NewShdrs(), (o.shnum + 2) * SHDR_SIZE;
      Le(all, at + 24, 8) == p.ShstrtabOff() && Le(all, at + 32, 8) == |p.shstrtab|
  {
    hide ReadOriginal, RawShdr, PartsFor, Output, Fits, FromLe, Parts.NewShdrs, Parts.ShstrtabOff;
    var p := PartsFor(bytes, o, fs);
    NewSections(bytes, o, fs);
    HeadersKept(bytes, o, fs, o.shnum + 2);
    var all, at := o.shdrs + p.NewShdrs(), (o.shnum + 2) * SHDR_SIZE;
    assert all[at..at + SHDR_SIZE] == p.NewShdrs()[2 * SHDR_SIZE..3 * SHDR_SIZE];
    LeWithin(all, at, 24, 8);
    LeWithin(all, at, 32, 8);
  }

  // Enough to be read as an original with these headers and names.
  lemma ReadsAs(out: seq<byte>, shoff: nat, r: Original, off: nat)
    requires |out| >= 64 && out[0..6] == [0x7f, 0x45, 0x4c, 0x46, 2, 1] && Le(out, 58, 2) == SHDR_SIZE
    requires Le(out, 40, 8) == shoff && Le(out, 60, 2) == r.shnum > 0 && Le(out, 62, 2) == r.shnum - 1
    requires Chunk(out, shoff, r.shnum * SHDR_SIZE) == Some(r.shdrs)
    requires Le(r.shdrs, (r.shnum - 1) * SHDR_SIZE + 24, 8) == off
    requires Le(r.shdrs, (r.shnum - 1) * SHDR_SIZE + 32, 8) == |r.shstrtab|
    requires Chunk(out, off, |r.shstrtab|) == Some(r.shstrtab)
    ensures ReadOriginal(out, true) == Ok(r)
  {
    hide FromLe;
    assert out[0..4] == out[0..6][0..4] == [0x7f, 0x45, 0x4c, 0x46];
    assert out[4] == out[0..6][4] && out[5] == out[0..6][5];
  }

  lemma GoodStart(bytes: seq<byte>, o: Original)
    requires ReadOriginal(bytes, true) == Ok(o)
    ensures bytes[0..6] == [0x7f, 0x45, 0x4c, 0x46, 2, 1] && Le(bytes, 58, 2) == SHDR_SIZE
  {
    hide FromLe;
    assert bytes[0..6] == bytes[0..4] + [bytes[4], bytes[5]];
  }

  // What the writer makes of its own output: the enlarged header table and name table, no error.
  lemma RewriteAgain(bytes: seq<byte>, o: Original, fs: seq<FuncSym>)
    requires ReadOriginal(bytes, true) == Ok(o) && Fits(bytes, o, fs)
    ensures ReadOriginal(Output(bytes, o, fs), true)
         == Ok(Original(o.shdrs + PartsFor(bytes, o, fs).NewShdrs(), o.shnum + 3, Shstrtab(o)))
  {
    hide ReadOriginal, Output, Shstrtab, Parts.NewShdrs, Parts.Unpatched, Parts.ShstrtabOff, Parts.Shoff, Symtab,
        Strtab, Le, Chunk;
    var out, p := Output(bytes, o, fs), PartsFor(bytes, o, fs);
    GoodStart(bytes, o);
    HeaderStays(bytes, o, fs);
    OutputShape(bytes, o, fs);
    AllHeaders(bytes, o, fs);
    NameTableHeader(bytes, o, fs);
    TablesInPlace(bytes, o, fs);
    ReadsAs(out, p.Shoff(), Original(o.shdrs + p.NewShdrs(), o.shnum + 3, Shstrtab(o)), p.ShstrtabOff());
  }

  // The hypotheses above can be met, with one function: a file of one section, its own name table.
  lemma SmallestElf() returns (bytes: seq<byte>, o: Original, fs: seq<FuncSym>)
    ensures |fs| == 1 && ReadOriginal(bytes, true) == Ok(o) && Fits(bytes, o, fs)
  {
    hide MakeShdr, ToLe, Pow256, DecodeShdr, ReadOriginal, Fits;
    var ident: seq<byte> := [0x7f, 0x45, 0x4c, 0x46, 2, 1];
    var shdr := MakeShdr(0, SHT_STRTAB, 0, 0, 64, 64, 0, 0, 1, 0);
    var head := ident + Zeros(34) + ToLe(64, 8) + Zeros(10) + ToLe(64, 2) + ToLe(1, 2) + ToLe(0, 2);
    bytes := head + shdr;
    o := Original(shdr, 1, shdr);
    fs := [FuncSym([0x66], 0x1000)];
    Pow256Values();
    assert bytes[0..6] == ident;
    assert bytes[40..48] == ToLe(64, 8) && bytes[58..60] == ToLe(64, 2);
    assert bytes[60..62] == ToLe(1, 2) && bytes[62..64] == ToLe(0, 2);
    LeRoundTrip(64, 8);
    LeRoundTrip(64, 2);
    LeRoundTrip(1, 2);
    LeRoundTrip(0, 2);
    ShdrRoundTrip(0, SHT_STRTAB, 0, 0, 64, 64, 0, 0, 1, 0);
    NamesOf(shdr);
    assert bytes[64..128] == shdr;
    ReadsAs(bytes, 64, o, 64);
    SmallFits(bytes, o, fs[0]);
  }

  lemma NamesOf(h: seq<byte>)
    requires |h| == SHDR_SIZE
    ensures Le(h, 24, 8) == DecodeShdr(h).offset && Le(h, 32, 8) == DecodeShdr(h).size
  {
  }

  lemma SmallFits(bytes: seq<byte>, o: Original, f: FuncSym)
    requires |bytes| == 128 && o.shnum == 1 && |o.shdrs| == 64 && |o.shstrtab| == 64 && |f.name| == 1
    ensures Fits(bytes, o, [f])
  {
    hide MakeShdr, PatchHeader, TextIndex;
    assert |Shstrtab(o)| == 64 + 8 + 8 + 10;
    assert [f][..0] == [] && |Strtab([])| == 1;
    assert |Strtab([f])| == 3;
  }
}
