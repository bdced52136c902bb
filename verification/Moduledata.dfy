/** runtime.moduledata in its four layouts: the cursor reader, the plausibility checks, the search
    through a section, and a writer to read back. */
module Moduledata {
  import opened Wrappers
  import opened Bytes
  import opened GoBin
  import opened AddressMap
  import opened WordList

  datatype Layout = Pre118 | V118 | V120 | V126

  datatype SliceHeader = SliceHeader(data: nat, len: nat, cap: nat)

  // The pcHeader pointer and the six slices into the pclntab.
  datatype Head = Head(pcHeader: nat, funcnametab: SliceHeader, cutab: SliceHeader, filetab: SliceHeader,
                       pctab: SliceHeader, pclntable: SliceHeader, ftab: SliceHeader)

  // Code and data bounds.
  datatype Segments = Segments(
    findfunctab: nat, minpc: nat, maxpc: nat,
    text: nat, etext: nat, noptrdata: nat, enoptrdata: nat, data: nat, edata: nat,
    bss: nat, ebss: nat, noptrbss: nat, enoptrbss: nat)

  // The part that drifts between releases.
  datatype Tail = Tail(
    covctrs: nat, ecovctrs: nat, end: nat, gcdata: nat, gcbss: nat, types: nat, etypes: nat,
    rodata: nat, gofunc: nat, textsectmap: SliceHeader, typelinks: SliceHeader, itablinks: SliceHeader)

  datatype ModuleData = ModuleData(head: Head, seg: Segments, tail: Tail)

  datatype Located = Located(fileOffset: nat, addr: nat, md: ModuleData)

  datatype Error =
    | ShortRead | WrongPcHeader | SliceOutside | FtabOutside | FtabTooLong | BadTypes | BadText | BadPcRange
    | RegionTooLarge | GofuncUnmapped | TypelinksOverrun | ItablinksOverrun

  function HasCoverage(l: Layout): bool { l.V120? || l.V126? }

  function HasRodata(l: Layout): bool { !l.Pre118? }

  // ----- the cursor -----

  // A record image: the words from `off` on, `ps` bytes each.
  datatype Image = Image(bytes: seq<byte>, off: nat, ps: nat, le: bool) {
    function Word(k: nat): nat {
      match WordAt(bytes, off + k * ps, ps, le) case Some(w) => w case None => 0
    }

    function Slice(k: nat): SliceHeader { SliceHeader(Word(k), Word(k + 1), Word(k + 2)) }

    // The file holds at least n words.
    predicate Holds(n: nat) { off + n * ps <= |bytes| }
  }

  class Reader {
    const bytes: seq<byte>
    var pos: nat
    const ps: nat
    const le: bool
    ghost const start: nat
    ghost var count: nat

    ghost function View(): Image { Image(bytes, start, ps, le) }

    ghost predicate Valid()
      reads this
    {
      pos == start + count * ps
    }

    constructor (bytes: seq<byte>, pos: nat, ps: nat, le: bool)
      ensures Valid() && View() == Image(bytes, pos, ps, le) && count == 0
    {
      this.bytes, this.pos, this.ps, this.le := bytes, pos, ps, le;
      this.start, this.count := pos, 0;
    }

    // The word under the cursor, which moves past it; the cursor stays where the file ends.
    method Uptr() returns (r: Result<nat, Error>)
      requires Valid()
      modifies this`pos, this`count
      ensures Valid()
      ensures r.Ok? <==> View().Holds(old(count) + 1)
      ensures r.Ok? ==> r.value == View().Word(old(count)) && count == old(count) + 1
      ensures r.Err? ==> count == old(count)
    {
      assert (count + 1) * ps == count * ps + ps;
      var w := WordAt(bytes, pos, ps, le);
      if w.None? {
        return Err(ShortRead);
      }
      pos := pos + ps;
      count := count + 1;
      return Ok(w.value);
    }

    method Slice() returns (r: Result<SliceHeader, Error>)
      requires Valid()
      modifies this`pos, this`count
      ensures Valid()
      ensures r.Ok? <==> View().Holds(old(count) + 3)
      ensures r.Ok? ==> r.value == View().Slice(old(count)) && count == old(count) + 3
    {
      hide Image.Word;
      HoldsLess(View(), count + 3);
      var data :- Uptr();
      var len :- Uptr();
      var cap :- Uptr();
      return Ok(SliceHeader(data, len, cap));
    }
  }

  // An image holding m words holds fewer.
  lemma HoldsLess(v: Image, m: nat)
    ensures forall n: nat :: n <= m && v.Holds(m) ==> v.Holds(n)
  {
    forall n: nat | n <= m && v.Holds(m) ensures v.Holds(n) {
      assert m * v.ps == n * v.ps + (m - n) * v.ps;
    }
  }

  // ----- what a layout holds, word by word -----

  function Words(md: ModuleData, l: Layout, epclntab: nat): (ws: seq<nat>)
    ensures |ws| == WordCount(l)
  {
    HeadWords(md.head) + SegmentWords(md.seg) + TailWords(md.tail, l, epclntab)
  }

  function SliceWords(h: SliceHeader): seq<nat> { [h.data, h.len, h.cap] }

  function HeadWords(h: Head): (ws: seq<nat>)
    ensures |ws| == 19
  {
    [h.pcHeader] + SliceWords(h.funcnametab) + SliceWords(h.cutab) + SliceWords(h.filetab)
    + SliceWords(h.pctab) + SliceWords(h.pclntable) + SliceWords(h.ftab)
  }

  function SegmentWords(g: Segments): (ws: seq<nat>)
    ensures |ws| == 13
  {
    [g.findfunctab, g.minpc, g.maxpc, g.text, g.etext, g.noptrdata, g.enoptrdata, g.data, g.edata,
     g.bss, g.ebss, g.noptrbss, g.enoptrbss]
  }

  function TailWords(t: Tail, l: Layout, epclntab: nat): (ws: seq<nat>)
    ensures |ws| == WordCount(l) - 32
  {
    (if HasCoverage(l) then [t.covctrs, t.ecovctrs] else [])
    + [t.end, t.gcdata, t.gcbss, t.types, t.etypes]
    + (if HasRodata(l) then [t.rodata, t.gofunc] else [])
    + (if l.V126? then [epclntab] else [])
    + SliceWords(t.textsectmap) + SliceWords(t.typelinks) + SliceWords(t.itablinks)
  }

  // The fields a layout lacks read as zero.
  function Restrict(md: ModuleData, l: Layout): ModuleData {
    var t := if HasCoverage(l) then md.tail else md.tail.(covctrs := 0, ecovctrs := 0);
    md.(tail := if HasRodata(l) then t else t.(rodata := 0, gofunc := 0))
  }

  // ----- parsing -----

  predicate InsidePclntab(bin: GoBinary, h: SliceHeader) {
    var hi := SatAdd64(bin.pclntabAddr, bin.pclntabSize);
    && bin.pclntabAddr <= h.data < hi && h.len <= bin.pclntabSize
    && SatAdd64(h.data, h.len) <= hi && h.len == h.cap
  }

  function SatMul64(a: nat, b: nat): nat { if a * b < U64 then a * b else U64 - 1 }

  predicate FtabFits(bin: GoBinary, h: SliceHeader) {
    var hi := SatAdd64(bin.pclntabAddr, bin.pclntabSize);
    && bin.pclntabAddr <= h.data < hi
    && SatAdd64(h.data, SatMul64(SatAdd64(h.len, 1), 8)) <= hi
    && h.len <= 5_000_000
  }

  predicate SliceFits(bin: GoBinary, h: SliceHeader, elem: nat) {
    h.len == 0 ||
    (h.data < U64 &&
      match SectionForAddr(bin.sections, h.data)
      case None => false
      case Some(s) => SatAdd64(h.data, SatMul64(h.len, elem)) <= SatAdd64(s.addr, Max(s.vmsize, s.fileSize)))
  }

  const MAX_REGION_BYTES := 1024 * 1024 * 1024

  predicate HeadPlausible(bin: GoBinary, h: Head) {
    && h.pcHeader == bin.pclntabAddr
    && InsidePclntab(bin, h.funcnametab) && InsidePclntab(bin, h.cutab) && InsidePclntab(bin, h.filetab)
    && InsidePclntab(bin, h.pctab) && InsidePclntab(bin, h.pclntable)
    && FtabFits(bin, h.ftab)
  }

  predicate Mapped(bin: GoBinary, a: nat) { a < U64 && SectionForAddr(bin.sections, a).Some? }

  predicate TailPlausible(bin: GoBinary, g: Segments, t: Tail, ps: nat) {
    && 0 < t.types <= t.etypes && t.etypes - t.types <= MAX_REGION_BYTES
    && 0 < g.text <= g.etext && g.etext - g.text <= MAX_REGION_BYTES
    && g.minpc <= g.maxpc
    && (t.gofunc == 0 || Mapped(bin, t.gofunc))
    && SliceFits(bin, t.typelinks, 4)
    && SliceFits(bin, t.itablinks, ps)
  }

  predicate Plausible(bin: GoBinary, md: ModuleData, ps: nat) {
    HeadPlausible(bin, md.head) && TailPlausible(bin, md.seg, md.tail, ps)
  }

  // How many words of a layout come before the section map.
  function TailStart(l: Layout): nat {
    37 + (if HasCoverage(l) then 2 else 0) + (if HasRodata(l) then 2 else 0) + (if l.V126? then 1 else 0)
  }

  function WordCount(l: Layout): nat { TailStart(l) + 9 }

  // The record at `off`, if the file is long enough to hold it.
  function RecordAt(bin: GoBinary, off: nat, ps: nat, l: Layout): Option<ModuleData> {
    var v := Image(bin.bytes, off, ps, bin.littleEndian);
    if v.Holds(WordCount(l)) then Some(Record(v, l)) else None
  }

  function Record(v: Image, l: Layout): ModuleData { ModuleData(HeadOf(v), SegmentsOf(v), TailOf(v, l)) }

  function HeadOf(v: Image): Head {
    Head(v.Word(0), v.Slice(1), v.Slice(4), v.Slice(7), v.Slice(10), v.Slice(13), v.Slice(16))
  }

  function SegmentsOf(v: Image): Segments {
    Segments(v.Word(19), v.Word(20), v.Word(21), v.Word(22), v.Word(23), v.Word(24), v.Word(25), v.Word(26), v.Word(27),
             v.Word(28), v.Word(29), v.Word(30), v.Word(31))
  }

  function TailOf(v: Image, l: Layout): Tail {
    var cov, ro := HasCoverage(l), HasRodata(l);
    var c := if cov then 34 else 32;
    var t := TailStart(l);
    Tail(if cov then v.Word(32) else 0, if cov then v.Word(33) else 0,
         v.Word(c), v.Word(c + 1), v.Word(c + 2), v.Word(c + 3), v.Word(c + 4),
         if ro then v.Word(c + 5) else 0, if ro then v.Word(c + 6) else 0,
         v.Slice(t), v.Slice(t + 3), v.Slice(t + 6))
  }

  // The runtime address of a file offset; 0 outside every section.
  function AddrOfOffset(sections: seq<Section>, off: nat): nat {
    if sections == [] then 0
    else if sections[0].fileOffset <= off < sections[0].fileOffset + sections[0].fileSize
    then sections[0].addr + (off - sections[0].fileOffset)
    else AddrOfOffset(sections[1..], off)
  }

  // Succeeds exactly on a complete, plausible record, and returns it.
  method TryParse(bin: GoBinary, off: nat, ps: nat, l: Layout) returns (r: Result<Located, Error>)
    requires ps in {4, 8}
    ensures var rec := RecordAt(bin, off, ps, l);
      if rec.Some? && Plausible(bin, rec.value, ps)
      then r == Ok(Located(off, AddrOfOffset(bin.sections, off), rec.value)) else r.Err?
  {
    hide HeadPlausible, TailPlausible, AddrOfOffset, Image.Holds, HeadOf, SegmentsOf, TailOf;
    ghost var v := Image(bin.bytes, off, ps, bin.littleEndian);
    HoldsLess(v, WordCount(l));
    var rd := new Reader(bin.bytes, off, ps, bin.littleEndian);
    var head :- ReadHead(rd);
    var bad := CheckHead(bin, head);
    if bad.Some? {
      return Err(bad.value);
    }
    var seg :- ReadSegments(rd);
    var tail :- ReadTail(rd, l);
    bad := CheckTail(bin, seg, tail, ps);
    if bad.Some? {
      return Err(bad.value);
    }
    return Ok(Located(off, AddrOfOffset(bin.sections, off), ModuleData(head, seg, tail)));
  }

  method ReadHead(rd: Reader) returns (r: Result<Head, Error>)
    requires rd.Valid() && rd.count == 0
    modifies rd
    ensures rd.Valid() && (r.Ok? <==> rd.View().Holds(19))
    ensures r.Ok? ==> r.value == HeadOf(rd.View()) && rd.count == 19
  {
    hide Image.Word, Image.Holds, Reader.Valid, Reader.View;
    HoldsLess(rd.View(), 19);
    var pcHeader :- rd.Uptr();
    var funcnametab :- rd.Slice();
    var cutab :- rd.Slice();
    var filetab :- rd.Slice();
    var pctab :- rd.Slice();
    var pclntable :- rd.Slice();
    var ftab :- rd.Slice();
    return Ok(Head(pcHeader, funcnametab, cutab, filetab, pctab, pclntable, ftab));
  }

  // Code bounds, then data bounds.
  method ReadSegments(rd: Reader) returns (r: Result<Segments, Error>)
    requires rd.Valid() && rd.count == 19
    modifies rd
    ensures rd.Valid() && (r.Ok? <==> rd.View().Holds(32))
    ensures r.Ok? ==> r.value == SegmentsOf(rd.View()) && rd.count == 32
  {
    hide Image.Word, Image.Holds, Reader.Valid, Reader.View;
    HoldsLess(rd.View(), 32);
    var findfunctab :- rd.Uptr();
    var pcRange :- ReadPair(rd);
    var textRange :- ReadPair(rd);
    var noptrdataRange :- ReadPair(rd);
    var dataRange :- ReadPair(rd);
    var bssRange :- ReadPair(rd);
    var noptrbssRange :- ReadPair(rd);
    return Ok(Segments(findfunctab, pcRange.0, pcRange.1, textRange.0, textRange.1,
      noptrdataRange.0, noptrdataRange.1, dataRange.0, dataRange.1, bssRange.0, bssRange.1,
      noptrbssRange.0, noptrbssRange.1));
  }

  // The two ends of a range.
  method ReadPair(rd: Reader) returns (r: Result<(nat, nat), Error>)
    requires rd.Valid()
    modifies rd
    ensures rd.Valid()
    ensures r.Ok? <==> rd.View().Holds(old(rd.count) + 2)
    ensures r.Ok? ==>
      r.value == (rd.View().Word(old(rd.count)), rd.View().Word(old(rd.count) + 1)) && rd.count == old(rd.count) + 2
  {
    hide Image.Word, Image.Holds, Reader.Valid, Reader.View;
    HoldsLess(rd.View(), rd.count + 2);
    var lo :- rd.Uptr();
    var hi :- rd.Uptr();
    return Ok((lo, hi));
  }

  method ReadTail(rd: Reader, l: Layout) returns (r: Result<Tail, Error>)
    requires rd.Valid() && rd.count == 32
    modifies rd
    ensures rd.Valid() && (r.Ok? <==> rd.View().Holds(WordCount(l)))
    ensures r.Ok? ==> r.value == TailOf(rd.View(), l)
  {
    hide Image.Word, Image.Holds, Reader.Valid, Reader.View;
    HoldsLess(rd.View(), WordCount(l));
    var t :- ReadDrifting(rd, l);
    var textsectmap :- rd.Slice();
    var typelinks :- rd.Slice();
    var itablinks :- rd.Slice();
    return Ok(t.(textsectmap := textsectmap, typelinks := typelinks, itablinks := itablinks));
  }

  // The words whose presence depends on the release; the slices behind them are still empty.
  method ReadDrifting(rd: Reader, l: Layout) returns (r: Result<Tail, Error>)
    requires rd.Valid() && rd.count == 32
    modifies rd
    ensures rd.Valid() && (r.Ok? <==> rd.View().Holds(TailStart(l)))
    ensures r.Ok? ==> rd.count == TailStart(l)
    ensures r.Ok? ==>
      var none := SliceHeader(0, 0, 0);
      r.value == TailOf(rd.View(), l).(textsectmap := none, typelinks := none, itablinks := none)
  {
    hide Image.Word, Image.Holds, Image.Slice, Reader.Valid, Reader.View;
    HoldsLess(rd.View(), TailStart(l));
    var covctrs, ecovctrs := 0, 0;
    if HasCoverage(l) {
      var pair :- ReadPair(rd);
      covctrs, ecovctrs := pair.0, pair.1;
    }
    var end :- rd.Uptr();
    var gc :- ReadPair(rd);
    var types :- ReadPair(rd);
    var rodata, gofunc := 0, 0;
    if HasRodata(l) {
      var pair :- ReadPair(rd);
      rodata, gofunc := pair.0, pair.1;
    }
    if l.V126? {
      var epclntab :- rd.Uptr();
    }
    var none := SliceHeader(0, 0, 0);
    return Ok(Tail(covctrs, ecovctrs, end, gc.0, gc.1, types.0, types.1, rodata, gofunc, none, none, none));
  }

  method CheckHead(bin: GoBinary, h: Head) returns (e: Option<Error>)
    ensures e.None? <==> HeadPlausible(bin, h)
  {
    hide InsidePclntab, FtabFits;
    if h.pcHeader != bin.pclntabAddr {
      return Some(WrongPcHeader);
    }
    if !InsidePclntab(bin, h.funcnametab) || !InsidePclntab(bin, h.cutab) || !InsidePclntab(bin, h.filetab)
      || !InsidePclntab(bin, h.pctab) || !InsidePclntab(bin, h.pclntable) {
      return Some(SliceOutside);
    }
    if !FtabFits(bin, h.ftab) {
      return Some(FtabOutside);
    }
    return None;
  }

  // The checks on a decoded record, in order; the first that fails.
  method CheckTail(bin: GoBinary, g: Segments, t: Tail, ps: nat) returns (e: Option<Error>)
    ensures e.None? <==> TailPlausible(bin, g, t, ps)
  {
    hide SliceFits, Mapped;
    if t.types == 0 || t.etypes < t.types {
      return Some(BadTypes);
    }
    if g.text == 0 || g.etext < g.text {
      return Some(BadText);
    }
    if g.minpc > g.maxpc {
      return Some(BadPcRange);
    }
    if t.etypes - t.types > MAX_REGION_BYTES || g.etext - g.text > MAX_REGION_BYTES {
      return Some(RegionTooLarge);
    }
    if t.gofunc != 0 && !Mapped(bin, t.gofunc) {
      return Some(GofuncUnmapped);
    }
    if !SliceFits(bin, t.typelinks, 4) {
      return Some(TypelinksOverrun);
    }
    if !SliceFits(bin, t.itablinks, ps) {
      return Some(ItablinksOverrun);
    }
    return None;
  }

  // ----- round trip -----

  // The words of an image whose bytes encode `ws`.
  lemma ImageWords(v: Image, ws: seq<nat>)
    requires v.ps > 0 && FitWords(ws, v.ps) && MatchesAt(v.bytes, v.off, EncodeWords(ws, v.ps, v.le))
    ensures v.Holds(|ws|) && forall k: nat :: k < |ws| ==> v.Word(k) == ws[k]
  {
    hide Image.Word;
    forall k: nat | k < |ws| ensures v.Word(k) == ws[k] {
      ImageWord(v, ws, k);
    }
  }

  lemma ImageWord(v: Image, ws: seq<nat>, k: nat)
    requires k < |ws| && FitWords(ws, v.ps) && MatchesAt(v.bytes, v.off, EncodeWords(ws, v.ps, v.le))
    ensures v.Word(k) == ws[k]
  {
    hide WordAt, EncodeWords, FitWords;
    HeldWords(v.bytes, v.off, ws, v.ps, v.le, k);
  }

  // Reading a layout's own words gives the fields back, zeros where the layout has none.
  lemma WordsDetermineRecord(v: Image, md: ModuleData, l: Layout, epclntab: nat)
    requires forall k: nat :: k < WordCount(l) ==> v.Word(k) == Words(md, l, epclntab)[k]
    ensures Record(v, l) == Restrict(md, l)
  {
    hide Image.Word;
    var ws := Words(md, l, epclntab);
    HeadBack(v, md.head);
    SegmentsBack(v, md.seg);
    TailBack(v, md.tail, l, epclntab);
  }

  lemma HeadBack(v: Image, h: Head)
    requires forall k: nat :: k < 19 ==> v.Word(k) == HeadWords(h)[k]
    ensures HeadOf(v) == h
  {
    hide Image.Word;
  }

  lemma SegmentsBack(v: Image, g: Segments)
    requires forall k: nat :: 19 <= k < 32 ==> v.Word(k) == SegmentWords(g)[k - 19]
    ensures SegmentsOf(v) == g
  {
    hide Image.Word;
  }

  lemma TailBack(v: Image, t: Tail, l: Layout, epclntab: nat)
    requires forall k: nat :: 32 <= k < WordCount(l) ==> v.Word(k) == TailWords(t, l, epclntab)[k - 32]
    ensures var a := if HasCoverage(l) then t else t.(covctrs := 0, ecovctrs := 0);
      TailOf(v, l) == if HasRodata(l) then a else a.(rodata := 0, gofunc := 0)
  {
    hide Image.Word;
  }

  // Round trip, every layout, pointer width and byte order: a record written in a layout's own field
  // order is what a parse of that layout reads, so (TryParse) it is accepted exactly when plausible.
  lemma LayoutRoundTrip(bin: GoBinary, off: nat, ps: nat, l: Layout, md: ModuleData, epclntab: nat)
    requires ps in {4, 8} && FitWords(Words(md, l, epclntab), ps)
    requires MatchesAt(bin.bytes, off, EncodeWords(Words(md, l, epclntab), ps, bin.littleEndian))
    ensures RecordAt(bin, off, ps, l) == Some(Restrict(md, l))
  {
    hide Image.Word, Image.Holds, Record, Words;
    var v := Image(bin.bytes, off, ps, bin.littleEndian);
    ImageWords(v, Words(md, l, epclntab));
    WordsDetermineRecord(v, md, l, epclntab);
  }

  // Where each layout has the words the recovery needs most: the types region, gofunc, typelinks and itablinks.
  lemma LayoutPlaces(md: ModuleData, epclntab: nat)
    ensures var t, w := md.tail, Words(md, Pre118, epclntab);
      |w| == 46 && w[35] == t.types && w[36] == t.etypes && w[40] == t.typelinks.data && w[43] == t.itablinks.data
    ensures var t, w := md.tail, Words(md, V118, epclntab);
      && |w| == 48 && w[35] == t.types && w[36] == t.etypes && w[38] == t.gofunc
      && w[42] == t.typelinks.data && w[45] == t.itablinks.data
    ensures var t, w := md.tail, Words(md, V120, epclntab);
      && |w| == 50 && w[37] == t.types && w[38] == t.etypes && w[40] == t.gofunc
      && w[44] == t.typelinks.data && w[47] == t.itablinks.data
    ensures var t, w := md.tail, Words(md, V126, epclntab);
      && |w| == 51 && w[37] == t.types && w[38] == t.etypes && w[40] == t.gofunc && w[41] == epclntab
      && w[45] == t.typelinks.data && w[48] == t.itablinks.data
  {
  }

  // A 1.26 record tried as 1.20 first: everything up to the drift is right, and what passes for
  // typelinks and itablinks is one pointer early, each reading an address as its length.
  lemma NewerReadAsOlder(bin: GoBinary, off: nat, ps: nat, md: ModuleData, epclntab: nat)
    requires ps in {4, 8} && FitWords(Words(md, V126, epclntab), ps)
    requires MatchesAt(bin.bytes, off, EncodeWords(Words(md, V126, epclntab), ps, bin.littleEndian))
    ensures RecordAt(bin, off, ps, V120) == Some(md.(tail := md.tail.(
      textsectmap := SliceHeader(epclntab, md.tail.textsectmap.data, md.tail.textsectmap.len),
      typelinks := SliceHeader(md.tail.textsectmap.cap, md.tail.typelinks.data, md.tail.typelinks.len),
      itablinks := SliceHeader(md.tail.typelinks.cap, md.tail.itablinks.data, md.tail.itablinks.len))))
  {
    hide Image.Word, Image.Holds;
    var v := Image(bin.bytes, off, ps, bin.littleEndian);
    ImageWords(v, Words(md, V126, epclntab));
    HoldsLess(v, WordCount(V126));
    HeadBack(v, md.head);
    SegmentsBack(v, md.seg);
    TailShifted(v, md.tail, epclntab);
    hide HeadOf, SegmentsOf, TailOf;
  }

  lemma TailShifted(v: Image, t: Tail, epclntab: nat)
    requires forall k: nat :: 32 <= k < WordCount(V126) ==> v.Word(k) == TailWords(t, V126, epclntab)[k - 32]
    ensures TailOf(v, V120) == t.(
      textsectmap := SliceHeader(epclntab, t.textsectmap.data, t.textsectmap.len),
      typelinks := SliceHeader(t.textsectmap.cap, t.typelinks.data, t.typelinks.len),
      itablinks := SliceHeader(t.typelinks.cap, t.itablinks.data, t.itablinks.len))
  {
    hide Image.Word;
  }

  // So a real 1.26 record falls through to its own layout unless a section happens to be mapped at the
  // address its section map's capacity spells.
  lemma OlderLayoutRejects(bin: GoBinary, off: nat, ps: nat, md: ModuleData, epclntab: nat)
    requires ps in {4, 8} && FitWords(Words(md, V126, epclntab), ps)
    requires MatchesAt(bin.bytes, off, EncodeWords(Words(md, V126, epclntab), ps, bin.littleEndian))
    requires Plausible(bin, md, ps)
    ensures Plausible(bin, RecordAt(bin, off, ps, V120).value, ps)
      <==> (SliceFits(bin, SliceHeader(md.tail.textsectmap.cap, md.tail.typelinks.data, md.tail.typelinks.len), 4)
        && SliceFits(bin, SliceHeader(md.tail.typelinks.cap, md.tail.itablinks.data, md.tail.itablinks.len), ps))
    ensures md.tail.typelinks.data != 0 && !Mapped(bin, md.tail.textsectmap.cap) ==>
      !Plausible(bin, RecordAt(bin, off, ps, V120).value, ps)
  {
    hide Words, FitWords;
    NewerReadAsOlder(bin, off, ps, md, epclntab);
    hide RecordAt, HeadPlausible;
  }

  // ----- what a plausible record is, where nothing reaches the end of the address space -----

  predicate BelowTop(bin: GoBinary) {
    && bin.pclntabAddr + bin.pclntabSize < U64 - 1
    && forall s :: s in bin.sections ==> s.addr + Max(s.vmsize, s.fileSize) < U64 - 1
  }

  // `len` bytes at `data`, starting inside [lo, hi) and not ending behind it.
  predicate Lies(data: nat, len: nat, lo: nat, hi: nat) { lo <= data < hi && data + len <= hi }

  function EndAddr(s: Section): nat { s.addr + Max(s.vmsize, s.fileSize) }

  predicate AddrInside(s: Section, a: nat) { s.addr <= a < EndAddr(s) }

  // The first section that has the slice's address has all of it; an empty slice may be anywhere.
  ghost predicate SliceMapped(bin: GoBinary, h: SliceHeader, elem: nat) {
    h.len == 0 || exists i :: 0 <= i < |bin.sections| && AddrInside(bin.sections[i], h.data)
                           && h.data + h.len * elem <= EndAddr(bin.sections[i])
                           && forall j :: 0 <= j < i ==> !AddrInside(bin.sections[j], h.data)
  }

  // The header pointer is the pclntab's, the six tables lie in it, the regions are ordered and below a gigabyte, gofunc
  // is zero or mapped, and typelinks and itablinks lie in a section.
  ghost predicate Sensible(bin: GoBinary, md: ModuleData, ps: nat) {
    var h, g, t, lo, hi := md.head, md.seg, md.tail, bin.pclntabAddr, bin.pclntabAddr + bin.pclntabSize;
    && h.pcHeader == lo
    && (forall x :: x in [h.funcnametab, h.cutab, h.filetab, h.pctab, h.pclntable] ==>
          Lies(x.data, x.len, lo, hi) && x.len == x.cap)
    && Lies(h.ftab.data, 8 * (h.ftab.len + 1), lo, hi) && h.ftab.len <= 5_000_000
    && 0 < t.types <= t.etypes <= t.types + 0x4000_0000
    && 0 < g.text <= g.etext <= g.text + 0x4000_0000
    && g.minpc <= g.maxpc
    && (t.gofunc == 0 || exists s :: s in bin.sections && AddrInside(s, t.gofunc))
    && SliceMapped(bin, t.typelinks, 4) && SliceMapped(bin, t.itablinks, ps)
  }

  lemma PlausibleExactly(bin: GoBinary, md: ModuleData, ps: nat)
    requires BelowTop(bin) && ps in {4, 8}
    ensures Plausible(bin, md, ps) <==> Sensible(bin, md, ps)
  {
    hide InsidePclntab, FtabFits, SliceFits, SliceMapped, Lies, Mapped, BelowTop;
    var h := md.head;
    InsideExactly(bin, h.funcnametab);
    InsideExactly(bin, h.cutab);
    InsideExactly(bin, h.filetab);
    InsideExactly(bin, h.pctab);
    InsideExactly(bin, h.pclntable);
    FtabExactly(bin, h.ftab);
    SliceExactly(bin, md.tail.typelinks, 4);
    SliceExactly(bin, md.tail.itablinks, ps);
    MappedExactly(bin, md.tail.gofunc);
  }

  lemma InsideExactly(bin: GoBinary, h: SliceHeader)
    requires BelowTop(bin)
    ensures InsidePclntab(bin, h) <==>
      Lies(h.data, h.len, bin.pclntabAddr, bin.pclntabAddr + bin.pclntabSize) && h.len == h.cap
  {
  }

  lemma FtabExactly(bin: GoBinary, h: SliceHeader)
    requires BelowTop(bin)
    ensures FtabFits(bin, h) <==>
      Lies(h.data, 8 * (h.len + 1), bin.pclntabAddr, bin.pclntabAddr + bin.pclntabSize) && h.len <= 5_000_000
  {
  }

  lemma {:induction false} FirstSection(sections: seq<Section>, a: u64) returns (i: nat)
    requires SectionForAddr(sections, a).Some?
    requires forall s :: s in sections ==> s.addr + Max(s.vmsize, s.fileSize) < U64 - 1
    ensures i < |sections| && sections[i] == SectionForAddr(sections, a).value && AddrInside(sections[i], a)
    ensures forall j :: 0 <= j < i ==> !AddrInside(sections[j], a)
  {
    if sections[0].ContainsAddr(a) {
      i := 0;
    } else {
      i := FirstSection(sections[1..], a);
      i := i + 1;
    }
  }

  lemma MappedExactly(bin: GoBinary, a: nat)
    requires BelowTop(bin)
    ensures Mapped(bin, a) <==> exists s :: s in bin.sections && AddrInside(s, a)
  {
    hide SectionForAddr;
  }

  lemma SliceExactly(bin: GoBinary, h: SliceHeader, elem: nat)
    requires BelowTop(bin) && elem in {4, 8}
    ensures SliceFits(bin, h, elem) <==> SliceMapped(bin, h, elem)
  {
    hide SectionForAddr, AddrInside;
    MappedExactly(bin, h.data);
    if Mapped(bin, h.data) {
      var i := FirstSection(bin.sections, h.data);
      forall k | 0 <= k < |bin.sections| && AddrInside(bin.sections[k], h.data)
        && (forall j :: 0 <= j < k ==> !AddrInside(bin.sections[j], h.data))
        ensures k == i
      {
        assert k <= i && i <= k;
      }
      SumFits(h, elem, bin.sections[i]);
    } else {
      forall k | 0 <= k < |bin.sections| ensures !AddrInside(bin.sections[k], h.data) {
        assert bin.sections[k] in bin.sections;
      }
    }
  }

  lemma SumFits(h: SliceHeader, elem: nat, s: Section)
    requires elem in {4, 8} && s.addr + Max(s.vmsize, s.fileSize) < U64 - 1
    ensures SatAdd64(h.data, SatMul64(h.len, elem)) <= SatAdd64(s.addr, Max(s.vmsize, s.fileSize))
       <==> h.data + h.len * elem <= s.addr + Max(s.vmsize, s.fileSize)
  {
  }

  // The two translations of a file offset agree, an offset outside every section being address zero here.
  lemma {:induction false} AddrsAgree(sections: seq<Section>, off: nat)
    requires forall s :: s in sections ==> s.fileOffset + s.fileSize < U64 && s.addr + s.fileSize < U64
    ensures AddrOfOffset(sections, off) == match AddrForOffset(sections, off) case Some(a) => a case None => 0
  {
    if sections != [] {
      AddrsAgree(sections[1..], off);
    }
  }

  // There are such records: this one is found plausible in a binary of one section.
  lemma PlausibleRecord() returns (bin: GoBinary, md: ModuleData)
    ensures BelowTop(bin) && Plausible(bin, md, 8) && md.tail.typelinks.len > 0 && md.tail.itablinks.len > 0
  {
    var data := Section("", Data, 0, 0x1_0000, 0x40_0000, 0x1_0000);
    bin := GoBinary([], true, 8, [data], 0, 0x1000, 0x40_1000, 0x40_0000);
    var a := SliceHeader(0x40_1060, 0x10, 0x10);
    md := ModuleData(
      Head(0x40_1000, a, a, a, a, a, SliceHeader(0x40_1100, 7, 7)),
      Segments(0, 0x40_0000, 0x40_0800, 0x40_0000, 0x40_0800, 0, 0, 0, 0, 0, 0, 0, 0),
      Tail(0, 0, 0, 0, 0, 0x40_2000, 0x40_3000, 0x40_2000, 0x40_3000, a, SliceHeader(0x40_4000, 5, 5),
           SliceHeader(0x40_5000, 3, 3)));
  }

  // ----- finding the record -----

  predicate Candidate(bin: GoBinary, off: nat, ps: nat, l: Layout) {
    RecordAt(bin, off, ps, l).Some? && Plausible(bin, RecordAt(bin, off, ps, l).value, ps)
  }

  predicate Aligned(pos: nat, ps: nat) { if ps == 4 then pos % 4 == 0 else pos % 8 == 0 }

  // Whether the search looks at q before pos.
  predicate TriedBefore(q: nat, pos: nat, ps: nat) {
    if Aligned(pos, ps) then Aligned(q, ps) && q < pos else Aligned(q, ps) || q < pos
  }

  // No occurrence of the target is a candidate.
  ghost predicate Fruitless(bin: GoBinary, start: nat, buf: seq<byte>, target: seq<byte>, ps: nat, l: Layout) {
    forall pos: nat :: MatchesAt(buf, pos, target) ==> !Candidate(bin, start + pos, ps, l)
  }

  ghost predicate FruitlessAligned(bin: GoBinary, start: nat, buf: seq<byte>, target: seq<byte>, ps: nat, l: Layout) {
    forall pos: nat :: Aligned(pos, ps) && MatchesAt(buf, pos, target) ==> !Candidate(bin, start + pos, ps, l)
  }

  // No occurrence tried before `pos` is one.
  ghost predicate FirstTried(
    bin: GoBinary, start: nat, buf: seq<byte>, target: seq<byte>, ps: nat, l: Layout, pos: nat)
  {
    forall q: nat :: MatchesAt(buf, q, target) && TriedBefore(q, pos, ps) ==> !Candidate(bin, start + q, ps, l)
  }

  // The pointer-aligned candidates of a section are tried first, then all the others, front to back.
  method ScanSection(bin: GoBinary, section: Section, target: seq<byte>, ps: nat, l: Layout)
    returns (r: Option<Located>)
    requires ps in {4, 8} && target != []
    ensures var end := section.fileOffset + section.fileSize;
      if end > |bin.bytes| || end >= U64 then r == None
      else
        var buf := bin.bytes[section.fileOffset..end];
        && (r.None? <==> Fruitless(bin, section.fileOffset, buf, target, ps, l))
        && (r.Some? ==>
             var pos := r.value.fileOffset - section.fileOffset;
             && pos >= 0 && MatchesAt(buf, pos, target) && Candidate(bin, section.fileOffset + pos, ps, l)
             && r.value.md == RecordAt(bin, section.fileOffset + pos, ps, l).value
             && FirstTried(bin, section.fileOffset, buf, target, ps, l, pos))
  {
    hide RecordAt, Plausible, Candidate, Aligned, MatchesAt, FirstTried, FruitlessAligned, Fruitless;
    var start := section.fileOffset;
    var end := start + section.fileSize;
    if end > |bin.bytes| || end >= U64 {
      return None;
    }
    var buf := bin.bytes[start..end];
    r := ScanAligned(bin, start, buf, target, ps, l);
    if r.None? {
      r := ScanEveryByte(bin, start, buf, target, ps, l);
    }
    if r.Some? {
      NotFruitless(bin, start, buf, target, ps, l, r.value.fileOffset - start);
    }
  }

  lemma NotFruitless(bin: GoBinary, start: nat, buf: seq<byte>, target: seq<byte>, ps: nat, l: Layout, pos: nat)
    requires MatchesAt(buf, pos, target) && Candidate(bin, start + pos, ps, l)
    ensures !Fruitless(bin, start, buf, target, ps, l)
  {
    hide MatchesAt, Candidate;
  }

  // The second pass, over the positions the first one left out.
  method ScanEveryByte(bin: GoBinary, start: nat, buf: seq<byte>, target: seq<byte>, ps: nat, l: Layout)
    returns (r: Option<Located>)
    requires ps in {4, 8} && target != []
    requires FruitlessAligned(bin, start, buf, target, ps, l)
    ensures r.None? ==> Fruitless(bin, start, buf, target, ps, l)
    ensures r.Some? ==>
      var pos := r.value.fileOffset - start;
      && pos >= 0 && !Aligned(pos, ps) && MatchesAt(buf, pos, target) && Candidate(bin, start + pos, ps, l)
      && r.value.md == RecordAt(bin, start + pos, ps, l).value
      && FirstTried(bin, start, buf, target, ps, l, pos)
  {
    hide RecordAt, Plausible, Aligned, AddrOfOffset;
    var pos: nat := 0;
    while pos + |target| <= |buf|
      invariant forall q: nat :: q < pos && MatchesAt(buf, q, target) ==> !Candidate(bin, start + q, ps, l)
    {
      if buf[pos..pos + |target|] == target && !Aligned(pos, ps) {
        var md := TryParse(bin, start + pos, ps, l);
        if md.Ok? {
          return Some(md.value);
        }
      }
      pos := pos + 1;
    }
    return None;
  }

  method ScanAligned(bin: GoBinary, start: nat, buf: seq<byte>, target: seq<byte>, ps: nat, l: Layout)
    returns (r: Option<Located>)
    requires ps in {4, 8} && target != []
    ensures r.None? ==> FruitlessAligned(bin, start, buf, target, ps, l)
    ensures r.Some? ==>
      var pos := r.value.fileOffset - start;
      && pos >= 0 && Aligned(pos, ps) && MatchesAt(buf, pos, target) && Candidate(bin, start + pos, ps, l)
      && r.value.md == RecordAt(bin, start + pos, ps, l).value
      && FirstTried(bin, start, buf, target, ps, l, pos)
  {
    hide RecordAt, Plausible;
    NextMultiple(0, ps);
    hide Aligned;
    var pos: nat := 0;
    while pos + |target| <= |buf|
      invariant Aligned(pos, ps)
      invariant forall q: nat :: q < pos && Aligned(q, ps) && MatchesAt(buf, q, target) ==>
          !Candidate(bin, start + q, ps, l)
    {
      if buf[pos..pos + |target|] == target {
        var md := TryParse(bin, start + pos, ps, l);
        if md.Ok? {
          return Some(md.value);
        }
      }
      NextMultiple(pos, ps);
      pos := pos + ps;
    }
    return None;
  }

  lemma NextMultiple(pos: nat, ps: nat)
    requires ps in {4, 8}
    ensures Aligned(0, ps)
    ensures Aligned(pos, ps) ==> Aligned(pos + ps, ps) && forall q: nat :: pos < q < pos + ps ==> !Aligned(q, ps)
  {
  }
}
