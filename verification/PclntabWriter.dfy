/** A pclntab as the linker writes it: header, function table, `_func` records, names and pc-value streams, each at
    its place. What the reader makes of it is stated here in terms of what was written. */
module PclntabWriter {
  import opened Wrappers
  import opened Bytes
  import opened FileImage
  import opened WordList
  import opened GoBin
  import opened Pclntab
  import opened PcValue

  // ----- the header -----

  datatype Header = Header(
    magic: u32, quantum: byte, ptrSize: byte, nfunc: nat, nfiles: nat, textStart: nat, tables: Tables)

  // Go 1.16 and 1.17 have no text start.
  predicate Old(h: Header) { h.magic == 0xffff_fffa }

  function HeaderWords(h: Header): (ws: seq<nat>)
    ensures |ws| == if Old(h) then 7 else 8
  {
    [h.nfunc, h.nfiles] + (if Old(h) then [] else [h.textStart])
    + [h.tables.funcname, h.tables.cu, h.tables.filetab, h.tables.pctab, h.tables.functab]
  }

  function HeaderFront(h: Header, le: bool): (s: seq<byte>)
    ensures |s| == 8
  {
    ToWord(h.magic, 4, le) + [0, 0, h.quantum, h.ptrSize]
  }

  function EncodeHeader(h: Header, le: bool): seq<byte> {
    HeaderFront(h, le) + EncodeWords(HeaderWords(h), h.ptrSize, le)
  }

  predicate ValidHeader(h: Header) {
    && h.quantum in {1, 2, 4} && h.ptrSize in {4, 8}
    && FitWords(HeaderWords(h), h.ptrSize) && (Old(h) ==> h.textStart == 0)
  }

  // A valid header lies at `off`, word for word.
  predicate HeaderHeld(bytes: seq<byte>, off: nat, h: Header, le: bool) {
    ValidHeader(h) && MatchesAt(bytes, off, EncodeHeader(h, le))
  }

  lemma FrontHeld(bytes: seq<byte>, off: nat, h: Header, le: bool)
    ensures MatchesAt(bytes, off, HeaderFront(h, le)) <==>
      (off + 8 <= |bytes| && WordAt(bytes, off, 4, le) == Some(h.magic)
        && bytes[off + 4] == 0 && bytes[off + 5] == 0 && bytes[off + 6] == h.quantum && bytes[off + 7] == h.ptrSize)
  {
    hide WordAt, ToWord, Pow256;
    var shape := [0, 0, h.quantum, h.ptrSize];
    HeldPair(bytes, off, ToWord(h.magic, 4, le), shape);
    Pow256Values();
    HeldWord(bytes, off, h.magic, 4, le);
    if off + 8 <= |bytes| {
      assert bytes[off + 4..off + 8] == [bytes[off + 4], bytes[off + 5], bytes[off + 6], bytes[off + 7]];
    }
  }

  // What the words of a header read as, at literal places.
  lemma HeaderFields(bytes: seq<byte>, off: nat, h: Header, le: bool)
    requires HeaderHeld(bytes, off, h, le)
    ensures ShapeAt(bytes, off) && bytes[off + 6] == h.quantum && bytes[off + 7] == h.ptrSize
    ensures WordAt(bytes, off, 4, le) == Some(h.magic)
    ensures WordAt(bytes, off + 8, h.ptrSize, le) == Some(h.nfunc)
    ensures off + 8 + (if Old(h) then 7 else 8) * h.ptrSize <= |bytes|
    ensures !Old(h) ==> WordAt(bytes, off + 8 + 2 * h.ptrSize, h.ptrSize, le) == Some(h.textStart)
    ensures TablesAt(bytes, off, h.ptrSize, if Old(h) then 2 else 3, le) == Some(h.tables)
  {
    hide WordAt, MatchesAt, EncodeWords, HeaderFront, FitWords;
    var ws, ps := HeaderWords(h), h.ptrSize as nat;
    HeldPair(bytes, off, HeaderFront(h, le), EncodeWords(ws, ps, le));
    FrontHeld(bytes, off, h, le);
    HeldInside(bytes, off + 8, EncodeWords(ws, ps, le));
    WordsInOrder(bytes, off + 8, ps, le, h);
  }

  lemma HeldInside(bytes: seq<byte>, off: nat, piece: seq<byte>)
    requires MatchesAt(bytes, off, piece)
    ensures off + |piece| <= |bytes|
  {
  }

  lemma WordsInOrder(bytes: seq<byte>, at: nat, ps: nat, le: bool, h: Header)
    requires FitWords(HeaderWords(h), ps) && MatchesAt(bytes, at, EncodeWords(HeaderWords(h), ps, le))
    ensures WordAt(bytes, at, ps, le) == Some(h.nfunc)
    ensures WordAt(bytes, at + ps, ps, le) == Some(h.nfiles)
    ensures !Old(h) ==> WordAt(bytes, at + 2 * ps, ps, le) == Some(h.textStart)
    ensures var first := if Old(h) then 2 else 3;
      && WordAt(bytes, at + first * ps, ps, le) == Some(h.tables.funcname)
      && WordAt(bytes, at + (first + 1) * ps, ps, le) == Some(h.tables.cu)
      && WordAt(bytes, at + (first + 2) * ps, ps, le) == Some(h.tables.filetab)
      && WordAt(bytes, at + (first + 3) * ps, ps, le) == Some(h.tables.pctab)
      && WordAt(bytes, at + (first + 4) * ps, ps, le) == Some(h.tables.functab)
  {
    hide WordAt, MatchesAt, EncodeWords, FitWords;
    var ws := HeaderWords(h);
    HeldWords(bytes, at, ws, ps, le, 0);
    HeldWords(bytes, at, ws, ps, le, 1);
    HeldWords(bytes, at, ws, ps, le, 2);
    HeldWords(bytes, at, ws, ps, le, 3);
    HeldWords(bytes, at, ws, ps, le, 4);
    HeldWords(bytes, at, ws, ps, le, 5);
    HeldWords(bytes, at, ws, ps, le, 6);
    if !Old(h) {
      HeldWords(bytes, at, ws, ps, le, 7);
    }
  }

  // The table a header describes; a text start of zero stands for that of the text section.
  function TableOf(data: seq<byte>, h: Header, le: bool, textAddr: u64): Table {
    Table(data, le, h.magic, if Old(h) then Pre118 else Modern, h.quantum, h.ptrSize, h.nfunc,
          if !Old(h) && h.textStart == 0 then textAddr else h.textStart, h.tables, None)
  }

  predicate TablesInside(t: Tables, size: nat) {
    t.funcname < size && t.cu < size && t.filetab < size && t.pctab < size && t.functab < size
  }

  // A header of any magic but the oldest parses exactly when its tables start inside, as what it describes.
  lemma HeaderRoundTrip(data: seq<byte>, h: Header, le: bool, textAddr: u64)
    requires HeaderHeld(data, 0, h, le)
    ensures Parse(data, le, textAddr) ==
      if h.magic == 0xffff_fffb then Err(UnsupportedVersion)
      else if TablesInside(h.tables, |data|) then Ok(TableOf(data, h, le, textAddr))
      else Err(OffsetPastEnd)
  {
    hide WordAt, TablesAt, MatchesAt, EncodeHeader;
    HeaderFields(data, 0, h, le);
  }

  // A header that passes the scan: one of three magics, offsets in order and inside, a text start in the text.
  ghost predicate Genuine(bytes: seq<byte>, off: nat, h: Header, sections: seq<Section>, le: bool) {
    && HeaderHeld(bytes, off, h, le)
    && h.magic in {0xffff_fff1, 0xffff_fff0, 0xffff_fffa}
    && h.tables.funcname < h.tables.cu < h.tables.filetab < h.tables.pctab < h.tables.functab < |bytes| - off
    && (h.textStart != 0 ==>
          exists t :: t in sections && t.kind == Text && t.addr <= h.textStart && h.textStart < U64
                   && t.ContainsAddr(h.textStart))
  }

  lemma GenuineAccepted(bytes: seq<byte>, off: nat, h: Header, sections: seq<Section>, le: bool)
    requires Genuine(bytes, off, h, sections, le)
    ensures Accepted(bytes, off, sections, le)
  {
    hide WordAt, TablesAt, MatchesAt, EncodeHeader, Candidates, ValidHeader;
    HeaderFields(bytes, off, h, le);
    MagicsRead(bytes, off, le);
    assert PcheaderAt(bytes, off, sections, le).Some?;
    var k := if h.magic == 0xffff_fff1 then 0 else if h.magic == 0xffff_fff0 then 1 else 2;
    assert HeaderWith(bytes, off, Candidates(le)[k], sections, le);
  }

  // The three byte strings searched for are the three magics in the binary's byte order.
  lemma MagicsRead(bytes: seq<byte>, off: nat, le: bool)
    ensures MatchesAt(bytes, off, Candidates(le)[0]) <==> WordAt(bytes, off, 4, le) == Some(0xffff_fff1)
    ensures MatchesAt(bytes, off, Candidates(le)[1]) <==> WordAt(bytes, off, 4, le) == Some(0xffff_fff0)
    ensures MatchesAt(bytes, off, Candidates(le)[2]) <==> WordAt(bytes, off, 4, le) == Some(0xffff_fffa)
  {
    hide WordAt, MatchesAt, Pow256;
    Pow256Values();
    MagicIs(0xf1, le);
    MagicIs(0xf0, le);
    MagicIs(0xfa, le);
    HeldWord(bytes, off, 0xffff_fff1, 4, le);
    HeldWord(bytes, off, 0xffff_fff0, 4, le);
    HeldWord(bytes, off, 0xffff_fffa, 4, le);
  }

  lemma MagicIs(low: byte, le: bool)
    ensures MagicBytes(low, le) == ToWord(0xffff_ff00 + low, 4, le)
  {
    var v := 0xffff_ff00 + low;
    assert v % 256 == low && v / 256 == 0xff_ffff;
    assert ToLe(0xff_ffff, 3) == MAGIC_HEAD && ToBe(0xff_ffff, 3) == MAGIC_HEAD;
  }

  // The scan accepts exactly the genuine headers.
  lemma AcceptedExactly(bytes: seq<byte>, off: nat, sections: seq<Section>, le: bool)
    ensures Accepted(bytes, off, sections, le) <==> exists h :: Genuine(bytes, off, h, sections, le)
  {
    hide Accepted, Genuine;
    if Accepted(bytes, off, sections, le) {
      var h := AcceptedGenuine(bytes, off, sections, le);
    }
    forall h | Genuine(bytes, off, h, sections, le) ensures Accepted(bytes, off, sections, le) {
      GenuineAccepted(bytes, off, h, sections, le);
    }
  }

  lemma AcceptedGenuine(bytes: seq<byte>, off: nat, sections: seq<Section>, le: bool) returns (h: Header)
    requires Accepted(bytes, off, sections, le)
    ensures Genuine(bytes, off, h, sections, le)
  {
    hide WordAt, MatchesAt, EncodeHeader, Candidates, ValidHeader;
    MagicsRead(bytes, off, le);
    var k :| 0 <= k < 3 && HeaderWith(bytes, off, Candidates(le)[k], sections, le);
    h := ReadHeader(bytes, off, sections, le);
  }

  // The words the scan looked at, put together.
  lemma ReadHeader(bytes: seq<byte>, off: nat, sections: seq<Section>, le: bool) returns (h: Header)
    requires PcheaderAt(bytes, off, sections, le).Some?
    ensures HeaderHeld(bytes, off, h, le) && WordAt(bytes, off, 4, le) == Some(h.magic)
    ensures h.tables.funcname < h.tables.cu < h.tables.filetab < h.tables.pctab < h.tables.functab < |bytes| - off
    ensures h.textStart != 0 ==> TextOk(h.textStart, sections)
  {
    hide TextOk, WordAt, Pow256, MatchesAt, EncodeWords, HeaderFront, FitWords, PcheaderAt;
    ScanSaw(bytes, off, sections, le);
    var ps, at := bytes[off + 7] as nat, off + 8;
    WordAtBound(bytes, off, 4, le);
    Pow256Values();
    var magic: u32 := WordAt(bytes, off, 4, le).value;
    var early := magic == 0xffff_fffa;
    var n := if early then 7 else 8;
    var ws := ReadWords(bytes, at, ps, le, n);
    h := Header(magic, bytes[off + 6], bytes[off + 7], ws[0], ws[1], if early then 0 else ws[2],
                Tables(ws[n - 5], ws[n - 4], ws[n - 3], ws[n - 2], ws[n - 1]));
    assert HeaderWords(h) == ws;
    FrontHeld(bytes, off, h, le);
    WordsHeld(bytes, at, ws, ps, le);
    HeldPair(bytes, off, HeaderFront(h, le), EncodeWords(ws, ps, le));
    HeaderFields(bytes, off, h, le);
  }

  // What an accepted header looks like to the scan.
  lemma ScanSaw(bytes: seq<byte>, off: nat, sections: seq<Section>, le: bool)
    requires PcheaderAt(bytes, off, sections, le).Some?
    ensures ShapeAt(bytes, off) && WordAt(bytes, off, 4, le).Some?
    ensures var ps, early := bytes[off + 7] as nat, WordAt(bytes, off, 4, le) == Some(0xffff_fffa);
      && off + 8 + (if early then 7 else 8) * ps <= |bytes|
      && (var t := TablesAt(bytes, off, ps, if early then 2 else 3, le);
          t.Some? && t.value.Climb() && t.value.functab < |bytes| - off)
      && (!early ==>
            var w := WordAt(bytes, off + 8 + 2 * ps, ps, le);
            w.Some? && TextOk(w.value, sections))
  {
    hide TextOk, FromWord, TablesAt;
  }

  lemma {:induction false} ReadWords(bytes: seq<byte>, at: nat, ps: nat, le: bool, n: nat) returns (ws: seq<nat>)
    requires at + n * ps <= |bytes|
    ensures |ws| == n && FitWords(ws, ps)
    ensures forall k: nat :: k < n ==> WordAt(bytes, at + k * ps, ps, le) == Some(ws[k])
  {
    hide FromWord, Pow256;
    if n == 0 {
      ws := [];
    } else {
      assert n * ps == (n - 1) * ps + ps;
      var init := ReadWords(bytes, at, ps, le, n - 1);
      WordAtBound(bytes, at + (n - 1) * ps, ps, le);
      ws := init + [WordAt(bytes, at + (n - 1) * ps, ps, le).value];
    }
  }

  // ----- functions -----

  // A function as the linker describes it: the fields of its record, and what they refer to.
  datatype FuncDesc = FuncDesc(
    entry: nat, funcOff: nat, nameOff: u32, args: u32, deferReturn: u32, pcsp: u32, pcfile: u32, pcln: u32,
    npcdata: u32, cuOffset: u32, name: seq<byte>, files: seq<State>, lines: seq<State>, file: Option<seq<byte>>)

  // The width of a pc in the table: 32 bits from the text start since 1.18, a pointer before.
  function Width(p: Table): nat { if p.layout.Modern? then 4 else p.ptrSize }

  function StoredPc(p: Table, pc: nat): int { if p.layout.Modern? then pc - p.textStart else pc }

  predicate PcFits(p: Table, pc: nat) { 0 <= StoredPc(p, pc) < Pow256(Width(p)) && pc < U64 }

  function PcBytes(p: Table, pc: nat): seq<byte>
    requires PcFits(p, pc)
  {
    ToWord(StoredPc(p, pc), Width(p), p.le)
  }

  function EncodeEntry(p: Table, f: FuncDesc): seq<byte>
    requires PcFits(p, f.entry)
  {
    PcBytes(p, f.entry) + ToWord(f.funcOff, Width(p), p.le)
  }

  function FuncWords(f: FuncDesc): (ws: seq<nat>)
    ensures |ws| == 8
  {
    [f.nameOff, f.args, f.deferReturn, f.pcsp, f.pcfile, f.pcln, f.npcdata, f.cuOffset]
  }

  // The `_func` record: the function's own pc, then eight 32-bit words.
  function EncodeFunc(p: Table, f: FuncDesc): seq<byte>
    requires PcFits(p, f.entry)
  {
    PcBytes(p, f.entry) + EncodeWords(FuncWords(f), 4, p.le)
  }

  // A run list lies in the pc-value table.
  predicate StreamHeld(p: Table, off: nat, runs: seq<State>) {
    runs != [] && Climbing(runs, 0) && MatchesAt(p.data, p.tables.pctab + off, EncodeRuns(runs, -1, 0) + [0])
  }

  // A NUL-terminated string.
  predicate StringHeld(buf: seq<byte>, off: nat, s: seq<byte>) { 0 !in s && MatchesAt(buf, off, s + [0]) }

  // File number `idx` of a compilation unit is `file`: the unit's word for it is where that name lies, or all
  // ones; a negative number is no file.
  ghost predicate FileHeld(p: Table, cuOffset: nat, idx: i64, file: Option<seq<byte>>) {
    if idx < 0 then file.None? && |p.data| < U64
    else
      var at := p.tables.cu + 4 * (cuOffset + idx);
      match file
      case None => MatchesAt(p.data, at, [0xff, 0xff, 0xff, 0xff])
      case Some(s) => exists raw: u32 :: raw != 0xffff_ffff && MatchesAt(p.data, at, ToWord(raw, 4, p.le))
                                      && StringHeld(p.data, p.tables.filetab + raw, s)
  }

  // Everything about a function lies where its fields say.
  ghost predicate FuncHeld(p: Table, f: FuncDesc) {
    && PcFits(p, f.entry) && f.funcOff < Pow256(Width(p)) && p.tables.functab + f.funcOff < U64
    && MatchesAt(p.data, p.tables.functab + f.funcOff, EncodeFunc(p, f))
    && StringHeld(p.data, p.tables.funcname + f.nameOff, f.name)
    && StreamHeld(p, f.pcfile, f.files) && StreamHeld(p, f.pcln, f.lines)
    && FileHeld(p, f.cuOffset, f.files[0].value, f.file)
  }

  function EntryPlace(p: Table, k: nat): nat { p.tables.functab + k * (2 * Width(p)) }

  ghost predicate EntryHeld(p: Table, k: nat, f: FuncDesc) {
    FuncHeld(p, f) && MatchesAt(p.data, EntryPlace(p, k), EncodeEntry(p, f))
  }

  // The function table: the entries in address order, then the end of the text.
  ghost predicate FunctabHeld(p: Table, fs: seq<FuncDesc>, end: nat) {
    && |fs| == p.nfunc && p.ptrSize in {4, 8} && |p.data| < U64
    && (forall k :: 0 <= k < |fs| ==> EntryHeld(p, k, fs[k]) && fs[k].entry <= end)
    && (forall i, j :: 0 <= i < j < |fs| ==> fs[i].entry <= fs[j].entry)
    && PcFits(p, end) && MatchesAt(p.data, EntryPlace(p, |fs|), PcBytes(p, end))
  }

  // Where function k ends.
  function EndOf(fs: seq<FuncDesc>, end: nat, k: nat): nat
    requires k < |fs|
  {
    if k + 1 < |fs| then fs[k + 1].entry else end
  }

  // What the walk of the table is to list for function k.
  function Listed(fs: seq<FuncDesc>, end: nat, k: nat): FuncEntry
    requires k < |fs| && fs[k].entry <= EndOf(fs, end, k)
  {
    FuncEntry(fs[k].entry, fs[k].name, fs[k].funcOff, EndOf(fs, end, k) - fs[k].entry)
  }

  // What a reader is to make of a function: its name, and the file and line of the first run of each stream,
  // if neither starts with the value a stream starts from.
  function Described(f: FuncDesc): Function
    requires f.files != [] && f.lines != []
  {
    var line := f.lines[0].value;
    if f.files[0].value == -1 || line == -1 then Function(f.entry, f.name, None, None)
    else Function(f.entry, f.name, f.file, if line > 0 then Some(line % 0x1_0000_0000) else None)
  }

  lemma PcReads(p: Table, off: nat, pc: nat)
    requires PcFits(p, pc) && MatchesAt(p.data, off, PcBytes(p, pc))
    ensures WordAt(p.data, off, Width(p), p.le) == Some(StoredPc(p, pc))
  {
    hide WordAt, MatchesAt, ToWord, Pow256;
    HeldWord(p.data, off, StoredPc(p, pc), Width(p), p.le);
  }

  lemma EntryReads(p: Table, fs: seq<FuncDesc>, end: nat, k: nat)
    requires FunctabHeld(p, fs, end) && k < |fs|
    ensures FunctabAddr(p, k) == Some(fs[k].entry)
    ensures FunctabEntry(p, k) == Some((fs[k].entry, p.tables.functab + fs[k].funcOff))
  {
    hide WordAt, MatchesAt, ToWord, Pow256, FuncHeld;
    var f, off := fs[k], EntryPlace(p, k);
    assert EntryHeld(p, k, f);
    FuncFits(p, f);
    HeldInside(p.data, off, EncodeEntry(p, f));
    HeldPair(p.data, off, PcBytes(p, f.entry), ToWord(f.funcOff, Width(p), p.le));
    PcReads(p, off, f.entry);
    HeldWord(p.data, off + Width(p), f.funcOff, Width(p), p.le);
  }

  lemma FuncFits(p: Table, f: FuncDesc)
    requires FuncHeld(p, f)
    ensures PcFits(p, f.entry) && f.funcOff < Pow256(Width(p)) && p.tables.functab + f.funcOff < U64
  {
  }

  lemma SentinelReads(p: Table, fs: seq<FuncDesc>, end: nat)
    requires FunctabHeld(p, fs, end)
    ensures FunctabAddr(p, |fs|) == Some(end)
  {
    hide WordAt, MatchesAt, ToWord, Pow256, FuncHeld;
    var off := EntryPlace(p, |fs|);
    HeldInside(p.data, off, PcBytes(p, end));
    PcReads(p, off, end);
  }

  // The fields of a record, at literal distances from the end of its leading pc.
  lemma FieldsRead(p: Table, at: nat, f: FuncDesc)
    requires PcFits(p, f.entry) && MatchesAt(p.data, at, EncodeFunc(p, f))
    ensures WordAt(p.data, at + Width(p), 4, p.le) == Some(f.nameOff)
    ensures WordAt(p.data, at + Width(p) + 16, 4, p.le) == Some(f.pcfile)
    ensures WordAt(p.data, at + Width(p) + 20, 4, p.le) == Some(f.pcln)
    ensures WordAt(p.data, at + Width(p) + 24, 4, p.le) == Some(f.npcdata)
    ensures WordAt(p.data, at + Width(p) + 28, 4, p.le) == Some(f.cuOffset)
  {
    hide WordAt, MatchesAt, EncodeWords, ToWord, Pow256, PcBytes;
    Pow256Values();
    var from, ws := at + Width(p), FuncWords(f);
    PcLength(p, f.entry);
    HeldPair(p.data, at, PcBytes(p, f.entry), EncodeWords(ws, 4, p.le));
    HeldWords(p.data, from, ws, 4, p.le, 0);
    HeldWords(p.data, from, ws, 4, p.le, 4);
    HeldWords(p.data, from, ws, 4, p.le, 5);
    HeldWords(p.data, from, ws, 4, p.le, 6);
    HeldWords(p.data, from, ws, 4, p.le, 7);
  }

  lemma PcLength(p: Table, pc: nat)
    requires PcFits(p, pc)
    ensures |PcBytes(p, pc)| == Width(p)
  {
  }

  lemma StringReads(buf: seq<byte>, off: nat, s: seq<byte>)
    requires StringHeld(buf, off, s)
    ensures ReadCstring(buf, off) == Some(s)
  {
    var rest := buf[off + |s| + 1..];
    assert buf[off..] == buf[off..off + |s| + 1] + rest;
    assert s + [0] + rest == s + ([0] + rest);
    NoNul(s);
    UpToNulAppend(s, [0] + rest);
    assert UpToNul([0] + rest) == [] && s + [] == s;
  }

  // A run list that lies in the pc-value table is followed by the rest of it.
  lemma StreamSplit(p: Table, off: nat, runs: seq<State>) returns (prefix: seq<byte>, suffix: seq<byte>)
    requires StreamHeld(p, off, runs)
    ensures |prefix| == off && Pctab(p) == prefix + EncodeRuns(runs, -1, 0) + [0] + suffix
  {
    hide EncodeRuns, Climbing;
    var stream := EncodeRuns(runs, -1, 0) + [0];
    var table := p.data[p.tables.pctab..];
    assert table[off..off + |stream|] == p.data[p.tables.pctab + off..p.tables.pctab + off + |stream|];
    prefix, suffix := table[..off], table[off + |stream|..];
    assert table == prefix + stream + suffix;
  }

  lemma FirstReads(p: Table, off: nat, runs: seq<State>)
    requires StreamHeld(p, off, runs)
    ensures runs != [] && FirstPcvalue(Pctab(p), off) == if runs[0].value == -1 then None else Some(runs[0].value)
  {
    hide FirstPcvalue, EncodeRuns, MatchesAt, Stream;
    var prefix, suffix := StreamSplit(p, off, runs);
    StreamRoundTrip(prefix, runs, suffix);
    FirstAgrees(Pctab(p), off);
  }

  lemma FileReads(p: Table, cuOffset: nat, idx: i64, file: Option<seq<byte>>)
    requires FileHeld(p, cuOffset, idx, file)
    ensures ResolveFile(p, cuOffset, Wrap64(idx)) == file
  {
    hide WordAt, MatchesAt, ToWord, ReadCstring, StringHeld, Pow256;
    Pow256Values();
    if idx >= 0 {
      var at := p.tables.cu + 4 * (cuOffset + idx);
      match file
      case None =>
        assert ToWord(0xffff_ffff, 4, p.le) == [0xff, 0xff, 0xff, 0xff] by {
          AllOnes(p.le);
        }
        HeldInside(p.data, at, ToWord(0xffff_ffff, 4, p.le));
        HeldWord(p.data, at, 0xffff_ffff, 4, p.le);
      case Some(s) =>
        var raw: u32 :| raw != 0xffff_ffff && MatchesAt(p.data, at, ToWord(raw, 4, p.le))
                     && StringHeld(p.data, p.tables.filetab + raw, s);
        HeldInside(p.data, at, ToWord(raw, 4, p.le));
        HeldWord(p.data, at, raw, 4, p.le);
        StringReads(p.data, p.tables.filetab + raw, s);
    }
  }

  lemma AllOnes(le: bool)
    ensures ToWord(0xffff_ffff, 4, le) == [0xff, 0xff, 0xff, 0xff]
  {
    assert ToLe(0xff_ffff, 3) == [0xff, 0xff, 0xff] && ToBe(0xff_ffff, 3) == [0xff, 0xff, 0xff];
  }

  // Function k of the table is read as described, in both walks.
  lemma FunctionReads(p: Table, fs: seq<FuncDesc>, end: nat, k: nat)
    requires FunctabHeld(p, fs, end) && k < |fs|
    ensures fs[k].files != [] && fs[k].lines != [] && FunctionAt(p, k) == Some(Described(fs[k]))
    ensures fs[k].entry <= EndOf(fs, end, k) && RecordOf(p, k) == Some(Listed(fs, end, k))
  {
    hide WordAt, MatchesAt, EncodeFunc, FirstPcvalue, ReadCstring, ResolveFile, FunctabAddr, FunctabEntry, StreamHeld,
      StringHeld, FileHeld, Pow256;
    var f := fs[k];
    assert EntryHeld(p, k, f);
    EntryReads(p, fs, end, k);
    if k + 1 < |fs| {
      EntryReads(p, fs, end, k + 1);
    } else {
      SentinelReads(p, fs, end);
    }
    FieldsRead(p, p.tables.functab + f.funcOff, f);
    StringReads(p.data, p.tables.funcname + f.nameOff, f.name);
    FirstReads(p, f.pcfile, f.files);
    FirstReads(p, f.pcln, f.lines);
    FileReads(p, f.cuOffset, f.files[0].value, f.file);
  }

  // The table is readable and in address order.
  lemma TableReads(p: Table, fs: seq<FuncDesc>, end: nat)
    requires FunctabHeld(p, fs, end)
    ensures Readable(p) && Sorted(p)
  {
    hide FunctabAddr, FuncHeld, FunctabEntry;
    SentinelReads(p, fs, end);
    forall k | 0 <= k < |fs| ensures FunctabAddr(p, k) == Some(fs[k].entry) {
      EntryReads(p, fs, end, k);
    }
  }

  // Every pc of a function is answered with that function, any other pc with none.
  lemma LookupRoundTrip(p: Table, fs: seq<FuncDesc>, end: nat, pc: u64)
    requires FunctabHeld(p, fs, end)
    ensures forall k: nat :: k < |fs| && fs[k].entry <= pc < EndOf(fs, end, k) ==>
      fs[k].files != [] && fs[k].lines != [] && FunctionFor(p, pc) == Some(Described(fs[k]))
    ensures fs == [] || pc < fs[0].entry || end <= pc ==> FunctionFor(p, pc) == None
  {
    hide FunctionAt, RecordOf, FunctabAddr, FunctabHeld, Found, Described, Spans, Readable, Sorted, EndOf;
    TableReads(p, fs, end);
    forall k: nat | k < |fs| && fs[k].entry <= pc < EndOf(fs, end, k)
      ensures fs[k].files != [] && fs[k].lines != [] && FunctionFor(p, pc) == Some(Described(fs[k]))
    {
      SpanIs(p, fs, end, k, pc);
      FoundExactly(p, pc, k);
      FunctionReads(p, fs, end, k);
    }
    if (fs == [] || pc < fs[0].entry || end <= pc) && Found(p, pc).Some? {
      FoundExactly(p, pc, Found(p, pc).value);
      NoSpan(p, fs, end, Found(p, pc).value, pc);
    }
  }

  // The walk of the whole table lists every function, in order, with its size.
  lemma ListRoundTrip(p: Table, fs: seq<FuncDesc>, end: nat)
    requires FunctabHeld(p, fs, end)
    ensures |Records(p, p.nfunc)| == |fs|
    ensures forall k :: 0 <= k < |fs| ==>
      fs[k].entry <= EndOf(fs, end, k) && Records(p, p.nfunc)[k] == Listed(fs, end, k)
  {
    hide RecordOf, FunctabHeld, Described, EndOf, Listed, FunctionAt, Records;
    CountIs(p, fs, end);
    forall k | 0 <= k < |fs| ensures fs[k].entry <= EndOf(fs, end, k) && RecordOf(p, k) == Some(Listed(fs, end, k)) {
      FunctionReads(p, fs, end, k);
    }
    RecordsAre(p, p.nfunc);
  }

  lemma CountIs(p: Table, fs: seq<FuncDesc>, end: nat)
    requires FunctabHeld(p, fs, end)
    ensures |fs| == p.nfunc
  {
  }

  lemma SpanIs(p: Table, fs: seq<FuncDesc>, end: nat, k: nat, pc: u64)
    requires FunctabHeld(p, fs, end) && k < |fs|
    ensures Spans(p, k, pc) <==> fs[k].entry <= pc < EndOf(fs, end, k)
  {
    hide FunctabAddr, FunctabEntry, FuncHeld;
    EntryReads(p, fs, end, k);
    if k + 1 < |fs| {
      EntryReads(p, fs, end, k + 1);
    } else {
      SentinelReads(p, fs, end);
    }
  }

  lemma NoSpan(p: Table, fs: seq<FuncDesc>, end: nat, k: nat, pc: u64)
    requires FunctabHeld(p, fs, end) && Spans(p, k, pc)
    ensures k < |fs| && fs[0].entry <= pc < end
  {
    hide FunctabAddr, FunctabEntry, FuncHeld;
    SpanIs(p, fs, end, k, pc);
  }

  // From the bytes to the answer: header and tables give back the function that was written.
  lemma PclntabRoundTrip(
    data: seq<byte>, h: Header, le: bool, textAddr: u64, fs: seq<FuncDesc>, end: nat, k: nat, pc: u64)
    requires HeaderHeld(data, 0, h, le) && h.magic != 0xffff_fffb && TablesInside(h.tables, |data|)
    requires FunctabHeld(TableOf(data, h, le, textAddr), fs, end)
    requires k < |fs| && fs[k].entry <= pc < EndOf(fs, end, k)
    ensures fs[k].files != [] && fs[k].lines != []
    ensures var p := Parse(data, le, textAddr);
      p.Ok? && FunctionFor(p.value, pc) == Some(Described(fs[k]))
  {
    hide Parse, FunctabHeld, HeaderHeld, Described, FunctionFor;
    HeaderRoundTrip(data, h, le, textAddr);
    LookupRoundTrip(TableOf(data, h, le, textAddr), fs, end, pc);
  }
}
