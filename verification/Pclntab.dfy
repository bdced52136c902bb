/** The pclntab: header, function table, and lookups by program counter. */
module Pclntab {
  import opened Wrappers
  import opened Bytes
  import opened GoBin
  import opened PcValue

  datatype Layout = Pre118 | Modern

  datatype Error =
    | Truncated
    | UnsupportedVersion
    | BadPad
    | BadQuantum
    | BadPtrSize
    | ShortRead
    | OffsetPastEnd
    | FunctabTooLong

  datatype Table = Table(
    data: seq<byte>, le: bool, magic: nat, layout: Layout, quantum: byte, ptrSize: nat,
    nfunc: nat, textStart: nat, tables: Tables, gofunc: Option<u64>)

  datatype Function = Function(address: nat, name: seq<byte>, file: Option<seq<byte>>, startLine: Option<nat>)

  datatype FuncEntry = FuncEntry(address: nat, name: seq<byte>, funcOff: nat, size: nat)

  function OrErr<T>(o: Option<T>, e: Error): Result<T, Error> {
    if o.Some? then Ok(o.value) else Err(e)
  }

  function Parse(data: seq<byte>, le: bool, textAddr: u64): Result<Table, Error> {
    if |data| < 8 then Err(Truncated)
    else
      var magic :- OrErr(WordAt(data, 0, 4, le), ShortRead);
      if magic == MAGIC_1_2 then Err(UnsupportedVersion)
      else
        var layout := if magic == MAGIC_1_16 then Pre118 else Modern;
        if data[4] != 0 || data[5] != 0 then Err(BadPad)
        else if data[6] !in {1, 2, 4} then Err(BadQuantum)
        else if data[7] !in {4, 8} then Err(BadPtrSize)
        else
          var ps := data[7] as nat;
          var nfunc :- OrErr(WordAt(data, 8, ps, le), ShortRead);
          var textStart :- OrErr(if layout.Modern? then WordAt(data, 8 + 2 * ps, ps, le) else Some(0), ShortRead);
          var t :- OrErr(TablesAt(data, 0, ps, if layout.Modern? then 3 else 2, le), ShortRead);
          if t.funcname >= |data| || t.cu >= |data| || t.filetab >= |data| || t.pctab >= |data| || t.functab >= |data|
          then Err(OffsetPastEnd)
          else
            var text := if layout.Modern? && textStart == 0 then textAddr else textStart;
            Ok(Table(data, le, magic, layout, data[6], ps, nfunc, text, t, None))
  }

  // Every header the scan accepts parses, with the tables the scan saw, unless it carries the one
  // magic the reader refuses; that one is always refused.
  lemma HeaderParses(bytes: seq<byte>, off: nat, sections: seq<Section>, le: bool, textAddr: u64)
    requires PcheaderAt(bytes, off, sections, le).Some?
    ensures off < |bytes| && PcheaderAt(bytes, off, sections, le).value == |bytes| - off
    ensures var p := Parse(bytes[off..], le, textAddr);
      if WordAt(bytes, off, 4, le) == Some(MAGIC_1_2) then p == Err(UnsupportedVersion)
      else
        && p.Ok?
        && p.value.tables.Climb()
        && (p.value.layout.Pre118? <==> WordAt(bytes, off, 4, le) == Some(MAGIC_1_16))
        && TablesAt(bytes, off, p.value.ptrSize, if p.value.layout.Modern? then 3 else 2, le) == Some(p.value.tables)
  {
    hide FromWord, Tables.Climb, TextOk;
    var ps := bytes[off + 7] as nat;
    var data := bytes[off..];
    WordAtShift(bytes, off, 0, 4, le);
    WordAtShift(bytes, off, 8, ps, le);
    WordAtShift(bytes, off, 8 + 2 * ps, ps, le);
    TablesShift(bytes, off, ps, 2, le);
    TablesShift(bytes, off, ps, 3, le);
    assert data[4] == bytes[off + 4] && data[5] == bytes[off + 5] && data[6] == bytes[off + 6] && data[7] == ps;
    ClimbBounds(bytes, off, sections, le);
  }

  lemma ClimbBounds(bytes: seq<byte>, off: nat, sections: seq<Section>, le: bool)
    requires PcheaderAt(bytes, off, sections, le).Some?
    ensures off + 8 <= |bytes|
    ensures var ps := bytes[off + 7] as nat;
      var first := if WordAt(bytes, off, 4, le) == Some(MAGIC_1_16) then 2 else 3;
      var t := TablesAt(bytes, off, ps, first, le);
      && t.Some? && t.value.Climb()
      && t.value.funcname < |bytes| - off && t.value.cu < |bytes| - off && t.value.filetab < |bytes| - off
      && t.value.pctab < |bytes| - off && t.value.functab < |bytes| - off
      && off + 8 + 7 * ps <= |bytes|
      && (first == 3 ==> WordAt(bytes, off + 8 + 2 * ps, ps, le).Some?)
  {
    hide FromWord, TextOk;
  }

  lemma TablesShift(bytes: seq<byte>, off: nat, ps: nat, first: nat, le: bool)
    requires off <= |bytes|
    ensures TablesAt(bytes[off..], 0, ps, first, le) == TablesAt(bytes, off, ps, first, le)
  {
    hide WordAt;
    WordAtShift(bytes, off, 8 + first * ps, ps, le);
    WordAtShift(bytes, off, 8 + (first + 1) * ps, ps, le);
    WordAtShift(bytes, off, 8 + (first + 2) * ps, ps, le);
    WordAtShift(bytes, off, 8 + (first + 3) * ps, ps, le);
    WordAtShift(bytes, off, 8 + (first + 4) * ps, ps, le);
  }

  // From the file to the parsed table: what the scan finds is leftmost, parses, and climbs.
  lemma ScannedHeaderParses(bytes: seq<byte>, off: nat, sections: seq<Section>, le: bool, textAddr: u64)
    requires Accepted(bytes, off, sections, le)
    ensures off < |bytes| && Parse(bytes[off..], le, textAddr).Ok?
    ensures Parse(bytes[off..], le, textAddr).value.tables.Climb()
  {
    var k :| 0 <= k < 3 && HeaderWith(bytes, off, Candidates(le)[k], sections, le);
    HeaderParses(bytes, off, sections, le, textAddr);
    MagicValue(Candidates(le)[k], le);
  }

  lemma MagicValue(m: seq<byte>, le: bool)
    requires m in Candidates(le)
    ensures FromWord(m, le) != MAGIC_1_2
  {
    if le {
      assert m[0] != 0xfb;
      assert FromLe(m) % 256 == m[0];
    } else {
      assert m[3] != 0xfb;
      assert FromBe(m) % 256 == m[3];
    }
  }

  // ----- the function table -----

  function Stride(p: Table): nat { if p.layout.Modern? then 8 else 2 * p.ptrSize }

  function EntryOffset(p: Table, i: nat): Option<nat> {
    var off := p.tables.functab + i * Stride(p);
    if off < U64 then Some(off) else None
  }

  // Entry pc of functab index i.
  function FunctabAddr(p: Table, i: nat): Option<nat> {
    var off :- EntryOffset(p, i);
    if p.layout.Modern? then
      var rel :- WordAt(p.data, off, 4, p.le);
      if p.textStart + rel < U64 then Some(p.textStart + rel) else None
    else WordAt(p.data, off, p.ptrSize, p.le)
  }

  function FunctabEntry(p: Table, i: nat): Option<(nat, nat)> {
    var off :- EntryOffset(p, i);
    var funcOff :- if p.layout.Modern? then WordAt(p.data, off + 4, 4, p.le)
                   else WordAt(p.data, off + p.ptrSize, p.ptrSize, p.le);
    var addr :- FunctabAddr(p, i);
    if p.tables.functab + funcOff < U64 then Some((addr, p.tables.functab + funcOff)) else None
  }

  function FieldsBase(p: Table): nat { if p.layout.Modern? then 4 else p.ptrSize }

  function ReadCstring(buf: seq<byte>, off: nat): Option<seq<byte>> {
    if off >= |buf| then None else Some(UpToNul(buf[off..]))
  }

  function ReadName(p: Table, off: nat): Option<seq<byte>> { ReadCstring(p.data, p.tables.funcname + off) }

  function Pctab(p: Table): seq<byte> { if p.tables.pctab <= |p.data| then p.data[p.tables.pctab..] else [] }

  function ResolveFile(p: Table, cuOffset: nat, fileIdx: nat): Option<seq<byte>> {
    var entry := (cuOffset + fileIdx) * 4 + p.tables.cu;
    if entry + 4 > |p.data| then None
    else
      var raw :- WordAt(p.data, entry, 4, p.le);
      if raw == U32 - 1 then None else ReadCstring(p.data, p.tables.filetab + raw)
  }

  function LineOf(v: i64): Option<nat> { if v > 0 then Some(Wrap32(v)) else None }

  function ReadFileAndLine(p: Table, funcStart: nat): Option<(Option<seq<byte>>, Option<nat>)> {
    var fb := FieldsBase(p);
    var pcfile :- WordAt(p.data, funcStart + fb + 16, 4, p.le);
    var pcln :- WordAt(p.data, funcStart + fb + 20, 4, p.le);
    var cu :- WordAt(p.data, funcStart + fb + 28, 4, p.le);
    var fileIdx :- FirstPcvalue(Pctab(p), pcfile);
    var line :- FirstPcvalue(Pctab(p), pcln);
    Some((ResolveFile(p, cu, Wrap64(fileIdx)), LineOf(line)))
  }

  function ReadFunction(p: Table, address: nat, funcStart: nat): Option<Function> {
    var nameOff :- WordAt(p.data, funcStart + FieldsBase(p), 4, p.le);
    var name :- ReadName(p, nameOff);
    var (file, line) := match ReadFileAndLine(p, funcStart) case Some(x) => x case None => (None, None);
    Some(Function(address, name, file, line))
  }

  // ----- lookup by pc -----

  // Functab index i spans pc; past a readable table the last function has no upper end.
  predicate Spans(p: Table, i: nat, pc: u64) {
    && i < p.nfunc
    && FunctabAddr(p, i).Some? && FunctabAddr(p, i).value <= pc
    && pc < (match FunctabAddr(p, i + 1) case Some(a) => a case None => U64 - 1)
  }

  predicate Readable(p: Table) { forall i :: 0 <= i <= p.nfunc ==> FunctabAddr(p, i).Some? }

  predicate Sorted(p: Table)
    requires Readable(p)
  {
    forall i, j :: 0 <= i < j <= p.nfunc ==> FunctabAddr(p, i).value <= FunctabAddr(p, j).value
  }

  // The search itself, as a function of the interval; None when an entry cannot be read.
  function Bisect(p: Table, pc: u64, lo: nat, hi: nat): (r: Option<nat>)
    requires lo <= hi
    ensures r.Some? ==> lo <= r.value <= hi
    decreases hi - lo
  {
    if lo == hi then Some(lo)
    else
      var mid := (lo + hi) / 2;
      var a :- FunctabAddr(p, mid);
      if a <= pc then Bisect(p, pc, mid + 1, hi) else Bisect(p, pc, lo, mid)
  }

  // The function the search settles on: the last entry at or below pc, if pc is below the next.
  function Found(p: Table, pc: u64): Option<nat> {
    var lo :- Bisect(p, pc, 0, p.nfunc);
    if lo == 0 then None
    else
      var next := match FunctabAddr(p, lo) case Some(a) => a case None => U64 - 1;
      if pc >= next then None else Some(lo - 1)
  }

  // On a readable sorted table the search settles between the last entry at or below pc and the first above it.
  lemma {:induction false} BisectSettles(p: Table, pc: u64, lo: nat, hi: nat)
    requires Readable(p) && lo <= hi <= p.nfunc
    requires lo > 0 ==> FunctabAddr(p, lo - 1).Some? && FunctabAddr(p, lo - 1).value <= pc
    requires hi < p.nfunc ==> FunctabAddr(p, hi).Some? && pc < FunctabAddr(p, hi).value
    ensures Bisect(p, pc, lo, hi).Some?
    ensures var k := Bisect(p, pc, lo, hi).value;
      && (k > 0 ==> FunctabAddr(p, k - 1).Some? && FunctabAddr(p, k - 1).value <= pc)
      && (k < p.nfunc ==> FunctabAddr(p, k).Some? && pc < FunctabAddr(p, k).value)
    decreases hi - lo
  {
    hide FunctabAddr, Readable;
    if lo < hi {
      var mid := (lo + hi) / 2;
      EntryThere(p, mid);
      if FunctabAddr(p, mid).value <= pc {
        BisectSettles(p, pc, mid + 1, hi);
      } else {
        BisectSettles(p, pc, lo, mid);
      }
    }
  }

  lemma EntryThere(p: Table, i: nat)
    requires Readable(p) && i <= p.nfunc
    ensures FunctabAddr(p, i).Some?
  {
    hide FunctabAddr;
  }

  // There the search finds exactly the index that spans pc.
  lemma FoundExactly(p: Table, pc: u64, i: nat)
    requires Readable(p) && Sorted(p)
    ensures Found(p, pc) == Some(i) <==> Spans(p, i, pc)
  {
    hide FunctabAddr, Bisect;
    BisectSettles(p, pc, 0, p.nfunc);
  }

  lemma FoundInside(p: Table, pc: u64)
    requires Readable(p) && Sorted(p)
    ensures Found(p, pc).Some? <==> FunctabAddr(p, 0).value <= pc < FunctabAddr(p, p.nfunc).value
  {
    hide FunctabAddr, Bisect;
    BisectSettles(p, pc, 0, p.nfunc);
    var k := Bisect(p, pc, 0, p.nfunc).value;
    assert FunctabAddr(p, 0).value <= FunctabAddr(p, k).value <= FunctabAddr(p, p.nfunc).value by {
      Ordered(p, 0, k);
      Ordered(p, k, p.nfunc);
    }
    if k > 0 {
      Ordered(p, 0, k - 1);
    }
  }

  lemma Ordered(p: Table, i: nat, j: nat)
    requires Readable(p) && Sorted(p) && i <= j <= p.nfunc
    ensures FunctabAddr(p, i).value <= FunctabAddr(p, j).value
  {
    hide FunctabAddr;
  }

  // Binary search over the entry pcs. Sound on every table, sorted or not; complete on a sorted one.
  method SearchFunctab(p: Table, pc: u64) returns (r: Option<nat>)
    ensures r == Found(p, pc)
    ensures r.Some? ==> Spans(p, r.value, pc) && Bisect(p, pc, 0, p.nfunc) == Some(r.value + 1)
    ensures Readable(p) && Sorted(p) ==>
      (r.Some? <==> FunctabAddr(p, 0).value <= pc < FunctabAddr(p, p.nfunc).value)
  {
    hide FunctabAddr, Found, Readable, Sorted;
    if Readable(p) && Sorted(p) {
      FoundInside(p, pc);
    }
    var lo := 0;
    var hi := p.nfunc;
    while lo < hi
      invariant 0 <= lo <= hi <= p.nfunc
      invariant Bisect(p, pc, 0, p.nfunc) == Bisect(p, pc, lo, hi)
      invariant lo > 0 ==> FunctabAddr(p, lo - 1).Some? && FunctabAddr(p, lo - 1).value <= pc
    {
      var mid := (lo + hi) / 2;
      var midAddr := FunctabAddr(p, mid);
      if midAddr.None? {
        NotFound(p, pc);
        return None;
      }
      if midAddr.value <= pc {
        lo := mid + 1;
      } else {
        hi := mid;
      }
    }
    FoundAt(p, pc, lo);
    if lo == 0 {
      return None;
    }
    var idx := lo - 1;
    var next := FunctabAddr(p, idx + 1);
    var nextAddr := if next.Some? then next.value else U64 - 1;
    if pc >= nextAddr {
      return None;
    }
    return Some(idx);
  }

  lemma NotFound(p: Table, pc: u64)
    requires Bisect(p, pc, 0, p.nfunc) == None
    ensures Found(p, pc) == None
  {
  }

  lemma FoundAt(p: Table, pc: u64, lo: nat)
    requires Bisect(p, pc, 0, p.nfunc) == Some(lo)
    ensures lo == 0 ==> Found(p, pc) == None
    ensures lo > 0 ==>
      var next := match FunctabAddr(p, lo) case Some(a) => a case None => U64 - 1;
      Found(p, pc) == if pc >= next then None else Some(lo - 1)
  {
  }

  lemma SpansOrdered(p: Table, pc: u64, i: nat, j: nat)
    requires Readable(p) && Sorted(p) && Spans(p, i, pc) && i < j <= p.nfunc
    ensures !Spans(p, j, pc)
  {
    hide FunctabAddr;
    assert FunctabAddr(p, i + 1).value <= FunctabAddr(p, j).value;
  }

  // On a sorted table there is one answer.
  lemma SpanUnique(p: Table, pc: u64, i: nat, j: nat)
    requires Readable(p) && Sorted(p) && Spans(p, i, pc) && Spans(p, j, pc)
    ensures i == j
  {
    if i < j {
      SpansOrdered(p, pc, i, j);
    } else if j < i {
      SpansOrdered(p, pc, j, i);
    }
  }

  // The function functab index i describes, if all of it can be read.
  function FunctionAt(p: Table, i: nat): Option<Function> {
    var (address, funcStart) :- FunctabEntry(p, i);
    ReadFunction(p, address, funcStart)
  }

  function FunctionFor(p: Table, pc: u64): Option<Function> {
    var i :- Found(p, pc);
    FunctionAt(p, i)
  }

  method Lookup(p: Table, pc: u64) returns (r: Option<Function>)
    ensures r == FunctionFor(p, pc)
    ensures r.Some? ==>
      exists i: nat :: Spans(p, i, pc) && Bisect(p, pc, 0, p.nfunc) == Some(i + 1) && r == FunctionAt(p, i)
    ensures Readable(p) && Sorted(p) ==>
      && (forall i: nat :: Spans(p, i, pc) ==> r == FunctionAt(p, i))
      && (!(FunctabAddr(p, 0).value <= pc < FunctabAddr(p, p.nfunc).value) ==> r == None)
  {
    hide ReadFunction, FunctabAddr, FunctabEntry, Bisect, Found;
    var idx := SearchFunctab(p, pc);
    if Readable(p) && Sorted(p) {
      forall i: nat | Spans(p, i, pc) ensures idx == Some(i) {
        SpanInside(p, i, pc);
        SpanUnique(p, pc, i, idx.value);
      }
    }
    if idx.None? {
      return None;
    }
    var entry := FunctabEntry(p, idx.value);
    if entry.None? {
      return None;
    }
    var (address, funcStart) := entry.value;
    return ReadFunction(p, address, funcStart);
  }

  lemma SpanInside(p: Table, i: nat, pc: u64)
    requires Readable(p) && Sorted(p) && Spans(p, i, pc)
    ensures FunctabAddr(p, 0).value <= pc < FunctabAddr(p, p.nfunc).value
  {
    hide FunctabAddr;
    assert FunctabAddr(p, 0).value <= FunctabAddr(p, i).value;
    assert FunctabAddr(p, i + 1).value <= FunctabAddr(p, p.nfunc).value;
  }

  // ----- whole-table walk -----

  const MAX_FUNCS: nat := 5_000_000

  // The record of functab index i, if its `_func` struct is readable.
  function RecordOf(p: Table, i: nat): Option<FuncEntry> {
    var (address, funcStart) :- FunctabEntry(p, i);
    var next := match FunctabAddr(p, i + 1) case Some(a) => a case None => U64 - 1;
    var nameOff :- WordAt(p.data, funcStart + FieldsBase(p), 4, p.le);
    var name := match ReadName(p, nameOff) case Some(s) => s case None => [];
    Some(FuncEntry(address, name, funcStart - p.tables.functab, SatSub(next, address)))
  }

  function Records(p: Table, n: nat): seq<FuncEntry> {
    if n == 0 then []
    else Records(p, n - 1) + (match RecordOf(p, n - 1) case Some(e) => [e] case None => [])
  }

  // The entries the bytes leave room for, less the sentinel. The stride is 8 or 16.
  function Capacity(p: Table): nat
    requires p.ptrSize in {4, 8}
  {
    var available := SatSub(|p.data|, p.tables.functab);
    SatSub(if Stride(p) == 8 then available / 8 else available / 16, 1)
  }

  // Succeeds exactly when the claimed entries and the sentinel fit, and then returns every readable
  // record in order.
  method FunctionsWithOffsets(p: Table) returns (r: Result<seq<FuncEntry>, Error>)
    requires p.ptrSize in {4, 8}
    ensures r.Ok? <==> p.nfunc <= 5_000_000 && p.tables.functab + (p.nfunc + 1) * Stride(p) <= |p.data|
    ensures r.Ok? ==> r.value == Records(p, p.nfunc)
  {
    hide RecordOf;
    var stride := Stride(p);
    var maxPossible := Capacity(p);
    var n := Min(Min(p.nfunc, MAX_FUNCS), maxPossible);
    CapacityFits(p);
    if (p.nfunc > MAX_FUNCS || p.nfunc > maxPossible) && p.nfunc != 0 {
      return Err(FunctabTooLong);
    }
    var tableBytes := (n + 1) * stride;
    if p.tables.functab + tableBytes > |p.data| {
      return Err(FunctabTooLong);
    }
    var out := [];
    for i := 0 to n
      invariant out == Records(p, i)
    {
      var rec := RecordOf(p, i);
      if rec.Some? {
        out := out + [rec.value];
      }
    }
    return Ok(out);
  }

  lemma CapacityFits(p: Table)
    requires p.ptrSize in {4, 8}
    ensures p.nfunc > 0 ==> (p.nfunc <= Capacity(p) <==> p.tables.functab + (p.nfunc + 1) * Stride(p) <= |p.data|)
  {
  }

  predicate AllRecords(p: Table) { forall i :: 0 <= i < p.nfunc ==> RecordOf(p, i).Some? }

  function TotalSize(es: seq<FuncEntry>): nat {
    if es == [] then 0 else TotalSize(es[..|es| - 1]) + es[|es| - 1].size
  }

  lemma {:induction false} RecordsAre(p: Table, n: nat)
    requires AllRecords(p) && n <= p.nfunc
    ensures |Records(p, n)| == n
    ensures forall i :: 0 <= i < n ==> Records(p, n)[i] == RecordOf(p, i).value
  {
    hide RecordOf;
    if n > 0 {
      RecordsAre(p, n - 1);
    }
  }

  // On a sorted, fully readable table the records tile the text: each starts where the previous one
  // ends, and together they measure exactly the distance from the first entry to the sentinel.
  lemma {:induction false} RecordsTile(p: Table, n: nat)
    requires Readable(p) && Sorted(p) && AllRecords(p) && n <= p.nfunc
    ensures |Records(p, n)| == n
    ensures forall i :: 0 <= i < n ==>
      && Records(p, n)[i].address == FunctabAddr(p, i).value
      && Records(p, n)[i].address + Records(p, n)[i].size == FunctabAddr(p, i + 1).value
    ensures TotalSize(Records(p, n)) == FunctabAddr(p, n).value - FunctabAddr(p, 0).value
  {
    hide FunctabAddr, RecordOf;
    RecordsAre(p, n);
    forall i | 0 <= i < n
      ensures Records(p, n)[i].address == FunctabAddr(p, i).value
      ensures Records(p, n)[i].address + Records(p, n)[i].size == FunctabAddr(p, i + 1).value
    {
      RecordSpan(p, i);
    }
    if n > 0 {
      RecordsTile(p, n - 1);
      assert Records(p, n)[..n - 1] == Records(p, n - 1);
    }
  }

  lemma RecordSpan(p: Table, i: nat)
    requires Readable(p) && Sorted(p) && i < p.nfunc && RecordOf(p, i).Some?
    ensures RecordOf(p, i).value.address == FunctabAddr(p, i).value
    ensures RecordOf(p, i).value.address + RecordOf(p, i).value.size == FunctabAddr(p, i + 1).value
  {
    hide FunctabAddr, ReadName, WordAt;
    EntryAddress(p, i);
    assert FunctabAddr(p, i).value <= FunctabAddr(p, i + 1).value;
  }

  lemma EntryAddress(p: Table, i: nat)
    ensures FunctabEntry(p, i).Some? ==> FunctabAddr(p, i) == Some(FunctabEntry(p, i).value.0)
  {
  }

  // The two agree: lookup finds index i exactly for the pcs inside record i.
  lemma LookupMatchesRecord(p: Table, i: nat, pc: u64)
    requires Readable(p) && Sorted(p) && AllRecords(p) && i < p.nfunc
    ensures i < |Records(p, p.nfunc)|
    ensures var e := Records(p, p.nfunc)[i];
      (Spans(p, i, pc) <==> e.address <= pc < e.address + e.size)
  {
    hide FunctabAddr, RecordOf;
    RecordsTile(p, p.nfunc);
  }
}
