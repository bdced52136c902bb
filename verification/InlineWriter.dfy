/** Inline trees as the linker writes them: the part of a `_func` record behind its fixed words, and the records of
    the tree. What the decoder and the walk make of them is stated in terms of what was written. */
module InlineWriter {
  import opened Wrappers
  import opened Bytes
  import opened WordList
  import opened GoBin
  import opened Pclntab
  import opened PclntabWriter
  import opened PcValue
  import opened InlineTree

  // ----- the records -----

  function CallWords(c: InlinedCall): (ws: seq<nat>)
    ensures |ws| == 3
  {
    [Wrap32(c.nameOff), Wrap32(c.parentPc), Wrap32(c.startLine)]
  }

  // One record: the function id, three bytes of padding, then name offset, parent pc and start line.
  function EncodeCall(c: InlinedCall, pad: seq<byte>): (s: seq<byte>)
    requires |pad| == 3
    ensures |s| == 16
  {
    [c.funcId] + pad + EncodeWords(CallWords(c), 4, true)
  }

  lemma CallRoundTrip(c: InlinedCall, pad: seq<byte>)
    requires |pad| == 3
    ensures ParseCall(EncodeCall(c, pad)) == c
  {
    hide FromLe, EncodeWords, WordAt;
    var b, ws := EncodeCall(c, pad), EncodeWords(CallWords(c), 4, true);
    assert b == ([c.funcId] + pad) + ws && b[4..16] == ws;
    Pow256Values();
    HeldWords(b, 4, CallWords(c), 4, true, 0);
    HeldWords(b, 4, CallWords(c), 4, true, 1);
    HeldWords(b, 4, CallWords(c), 4, true, 2);
    LeFields(b);
  }

  lemma LeFields(b: seq<byte>)
    requires |b| == 16
    ensures WordAt(b, 4, 4, true) == Some(FromLe(b[4..8]))
    ensures WordAt(b, 8, 4, true) == Some(FromLe(b[8..12]))
    ensures WordAt(b, 12, 4, true) == Some(FromLe(b[12..16]))
  {
  }

  // The image holds these records one behind the other from `base` on.
  ghost predicate CallsHeld(bin: GoBinary, base: u64, cs: seq<InlinedCall>) {
    forall k :: 0 <= k < |cs| ==> CallHeld(bin, (base + 16 * k) % 0x1_0000_0000_0000_0000, cs[k])
  }

  ghost predicate CallHeld(bin: GoBinary, a: u64, c: InlinedCall) {
    exists pad :: |pad| == 3 && ReadAtAddr(bin, a, 16) == Some(EncodeCall(c, pad))
  }

  lemma CallReads(bin: GoBinary, base: u64, cs: seq<InlinedCall>, k: nat)
    requires CallsHeld(bin, base, cs) && k < |cs|
    ensures CallAt(bin, base, k) == Some(cs[k])
  {
    hide ReadAtAddr, ParseCall, EncodeCall;
    var a: u64 := (base + 16 * k) % 0x1_0000_0000_0000_0000;
    assert CallHeld(bin, a, cs[k]);
    var pad: seq<byte> :| |pad| == 3 && ReadAtAddr(bin, a, 16) == Some(EncodeCall(cs[k], pad));
    CallRoundTrip(cs[k], pad);
  }

  // ----- the function's arrays -----

  // What follows the fixed words of a record since Go 1.20.
  datatype Tail = Tail(startLine: u32, funcId: byte, flag: byte, pad: byte, pcdata: seq<u32>, funcdata: seq<u32>)

  function EncodeTail(t: Tail, le: bool): seq<byte>
    requires |t.funcdata| < 256
  {
    ToWord(t.startLine, 4, le) + ([t.funcId, t.flag, t.pad, |t.funcdata|]
      + (EncodeWords(t.pcdata, 4, le) + EncodeWords(t.funcdata, 4, le)))
  }

  predicate RecordHeld(p: Table, at: nat, f: FuncDesc, t: Tail) {
    && p.layout.Modern? && PcFits(p, f.entry) && |t.funcdata| < 256 && f.npcdata == |t.pcdata|
    && MatchesAt(p.data, at, EncodeFunc(p, f) + EncodeTail(t, p.le))
  }

  // The pieces of the record, each at its literal place.
  lemma RecordPieces(p: Table, at: nat, f: FuncDesc, t: Tail)
    requires RecordHeld(p, at, f, t)
    ensures MatchesAt(p.data, at, EncodeFunc(p, f))
    ensures at + 44 + 4 * |t.pcdata| + 4 * |t.funcdata| <= |p.data| && p.data[at + 43] == |t.funcdata|
    ensures MatchesAt(p.data, at + 44, EncodeWords(t.pcdata, 4, p.le))
    ensures MatchesAt(p.data, at + 44 + 4 * |t.pcdata|, EncodeWords(t.funcdata, 4, p.le))
  {
    hide MatchesAt, EncodeWords, ToWord, EncodeFunc;
    FuncLength(p, f);
    var line, ids := ToWord(t.startLine, 4, p.le), [t.funcId, t.flag, t.pad, |t.funcdata| as byte];
    var pcdata, funcdata := EncodeWords(t.pcdata, 4, p.le), EncodeWords(t.funcdata, 4, p.le);
    HeldPair(p.data, at, EncodeFunc(p, f), EncodeTail(t, p.le));
    HeldPair(p.data, at + 36, line, ids + (pcdata + funcdata));
    HeldPair(p.data, at + 40, ids, pcdata + funcdata);
    HeldPair(p.data, at + 44, pcdata, funcdata);
    HeldInside(p.data, at + 44 + |pcdata|, funcdata);
    HeldByte(p.data, at + 40, ids, 3);
  }

  lemma FuncLength(p: Table, f: FuncDesc)
    requires p.layout.Modern? && PcFits(p, f.entry)
    ensures |EncodeFunc(p, f)| == 36
  {
  }

  lemma HeldByte(buf: seq<byte>, off: nat, piece: seq<byte>, i: nat)
    requires MatchesAt(buf, off, piece) && i < |piece|
    ensures off + i < |buf| && buf[off + i] == piece[i]
  {
    assert buf[off..off + |piece|][i] == piece[i];
  }

  lemma Fits32(ws: seq<u32>)
    ensures FitWords(ws, 4)
  {
    Pow256Values();
  }

  // Slot k of an array of 32-bit words.
  lemma SlotReads(p: Table, off: nat, ws: seq<u32>, k: nat)
    requires MatchesAt(p.data, off, EncodeWords(ws, 4, p.le)) && k < |ws|
    ensures WordAt(p.data, off + 4 * k, 4, p.le) == Some(ws[k])
  {
    hide WordAt, MatchesAt, EncodeWords, FitWords;
    Fits32(ws);
    HeldWords(p.data, off, ws, 4, p.le, k);
  }

  // A function has a tree when it has four funcdata slots, the fourth not all ones, and three pcdata slots: at the
  // fourth slot's distance from gofunc, indexed by the third pcdata stream.
  lemma TreeReads(p: Table, at: nat, f: FuncDesc, t: Tail)
    requires RecordHeld(p, at, f, t)
    ensures HasArrays(p, at) == if |t.pcdata| >= 3 && |t.funcdata| >= 4 then Some(|t.pcdata|) else None
    ensures TreeOf(p, at) ==
      if p.gofunc.Some? && |t.pcdata| >= 3 && |t.funcdata| >= 4 && t.funcdata[3] != 0xffff_ffff
      then Some(Tree((p.gofunc.value + t.funcdata[3]) % 0x1_0000_0000_0000_0000, t.pcdata[2])) else None
  {
    hide WordAt, MatchesAt, EncodeWords, EncodeFunc, EncodeTail, RecordHeld, PcFits;
    RecordIs(p, at, f, t);
    RecordPieces(p, at, f, t);
    FieldsRead(p, at, f);
    if |t.pcdata| >= 3 && |t.funcdata| >= 4 {
      SlotReads(p, at + 44, t.pcdata, 2);
      SlotReads(p, at + 44 + 4 * |t.pcdata|, t.funcdata, 3);
    }
  }

  lemma RecordIs(p: Table, at: nat, f: FuncDesc, t: Tail)
    requires RecordHeld(p, at, f, t)
    ensures p.layout.Modern? && PcFits(p, f.entry) && f.npcdata == |t.pcdata|
  {
  }

  // ----- how many records -----

  // No offset of the function has an index of n or more, and some has index n - 1.
  ghost predicate Indexes(p: Table, stream: nat, size: nat, n: nat) {
    && (forall off: u32 :: off < size ==> ValueAt(Pctab(p), stream, off) < n)
    && (n > 0 ==> exists off: u32 :: off < size && ValueAt(Pctab(p), stream, off) == n - 1)
  }

  // The decoder reads as many records as the function's offsets index, at most 65,536.
  lemma LengthIs(p: Table, tree: Tree, size: nat, n: nat)
    requires Climbing(Stream(Pctab(p), tree.stream), 0) && 0 < size < U32
    requires Indexes(p, tree.stream, size, n)
    ensures TreeLength(p, tree, size) == Min(n, 65_536)
  {
    hide ValueAt, MaxValue, Stream, Climbing, Pctab;
    var table, limit := Pctab(p), PcLimit(size);
    var t := MaxValueAttained(table, tree.stream, limit);
    if n > 0 {
      var off: u32 :| off < size && ValueAt(table, tree.stream, off) == n - 1;
      ValueAtMostMax(table, tree.stream, off, limit);
    }
    AtLeastMinusOne(table, tree.stream, limit);
  }

  lemma AtLeastMinusOne(table: seq<byte>, start: nat, limit: u32)
    ensures MaxValue(table, start, limit) >= -1
  {
    MaxGrows(Stream(table, start), limit, -1);
  }

  lemma {:induction false} MaxGrows(s: seq<State>, limit: u32, best: i64)
    ensures best <= MaxUntil(s, limit, best)
  {
    if s != [] {
      MaxGrows(s[1..], limit, Max(best, s[0].value));
    }
  }

  // ----- the decoded tree -----

  // Where the image holds the records, they are what is decoded; a parent pc outside the function is an error.
  lemma TreeRoundTrip(
    bin: GoBinary, p: Table, func: FuncEntry, f: FuncDesc, t: Tail, cs: seq<InlinedCall>, v: seq<InlinedCall>)
    requires RecordHeld(p, p.tables.functab + func.funcOff, f, t)
    requires p.gofunc.Some? && |t.pcdata| >= 3 && |t.funcdata| >= 4 && t.funcdata[3] != 0xffff_ffff
    requires Climbing(Stream(Pctab(p), t.pcdata[2]), 0) && 0 < func.size < U32
    requires |cs| <= 65_536 && Indexes(p, t.pcdata[2], func.size, |cs|)
    requires CallsHeld(bin, (p.gofunc.value + t.funcdata[3]) % 0x1_0000_0000_0000_0000, cs)
    ensures Decoded(bin, p, func, v) <==> v == cs && !Corrupt(bin, p, func)
    ensures Corrupt(bin, p, func) <==>
      exists k :: 0 <= k < |cs| && cs[k].parentPc != -1 && !(0 <= cs[k].parentPc < func.size)
  {
    hide RecordHeld, TreeOf, TreeLength, Indexes, Climbing, Stream, CallsHeld, CallAt, HasArrays;
    TreeReads(p, p.tables.functab + func.funcOff, f, t);
    var base: u64 := (p.gofunc.value + t.funcdata[3]) % 0x1_0000_0000_0000_0000;
    var tree := Tree(base, t.pcdata[2]);
    LengthIs(p, tree, func.size, |cs|);
    forall k: nat | k < |cs| ensures CallAt(bin, base, k) == Some(cs[k]) {
      CallReads(bin, base, cs, k);
    }
    BadIsOutside(bin, base, cs, func.size);
  }

  lemma BadIsOutside(bin: GoBinary, base: u64, cs: seq<InlinedCall>, size: nat)
    requires forall k: nat :: k < |cs| ==> CallAt(bin, base, k) == Some(cs[k])
    ensures (exists k: nat :: FirstBad(bin, base, |cs|, size, k))
      <==> exists k :: 0 <= k < |cs| && cs[k].parentPc != -1 && !(0 <= cs[k].parentPc < size)
  {
    hide CallAt;
    if exists k :: 0 <= k < |cs| && cs[k].parentPc != -1 && !(0 <= cs[k].parentPc < size) {
      var k := FirstOutside(cs, size);
      assert FirstBad(bin, base, |cs|, size, k);
    }
  }

  lemma {:induction false} FirstOutside(cs: seq<InlinedCall>, size: nat) returns (k: nat)
    requires exists k :: 0 <= k < |cs| && cs[k].parentPc != -1 && !(0 <= cs[k].parentPc < size)
    ensures k < |cs| && !ParentInside(cs[k], size) && forall j :: 0 <= j < k ==> ParentInside(cs[j], size)
  {
    var init := cs[..|cs| - 1];
    if exists j :: 0 <= j < |init| && init[j].parentPc != -1 && !(0 <= init[j].parentPc < size) {
      k := FirstOutside(init, size);
    } else {
      k := |cs| - 1;
      assert forall j :: 0 <= j < k ==> init[j] == cs[j];
    }
  }

  // ----- the walk -----

  // The index stream's value at an offset names a record the walk can follow.
  predicate Follows(bin: GoBinary, p: Table, tree: Tree, off: u32) {
    var idx := ValueAt(Pctab(p), tree.stream, off);
    0 <= idx <= 65_536 && CallAt(bin, tree.base, idx).Some?
  }

  // The walk starts at the pc's offset, goes on from each record's parent pc, and stops only where no record
  // follows or after 32 of them.
  lemma {:induction false} WalkExact(bin: GoBinary, p: Table, tree: Tree, off: u32, depth: nat)
    ensures var s := WalkSteps(bin, Pctab(p), tree, off, depth);
      && (forall k :: 0 <= k < |s| ==>
            && s[k].pcOff == (if k == 0 then off else Wrap32(s[k - 1].call.parentPc))
            && Follows(bin, p, tree, s[k].pcOff)
            && s[k].index == ValueAt(Pctab(p), tree.stream, s[k].pcOff)
            && CallAt(bin, tree.base, s[k].index) == Some(s[k].call))
      && (|s| < depth ==> !Follows(bin, p, tree, if s == [] then off else Wrap32(s[|s| - 1].call.parentPc)))
    decreases depth
  {
    hide CallAt, ValueAt, Pctab;
    if depth > 0 && Follows(bin, p, tree, off) {
      var idx := ValueAt(Pctab(p), tree.stream, off);
      var c := CallAt(bin, tree.base, idx).value;
      var next := Wrap32(c.parentPc);
      WalkExact(bin, p, tree, next, depth - 1);
      var rest := WalkSteps(bin, Pctab(p), tree, next, depth - 1);
      var s := WalkSteps(bin, Pctab(p), tree, off, depth);
      assert s == [Step(idx, c, off)] + rest;
      assert rest != [] ==> s[|s| - 1] == rest[|rest| - 1];
    }
  }

  // ----- the frames -----

  // Run k of the list covers the offset, and the walk of the list reaches it.
  predicate RunReached(runs: seq<State>, k: nat, off: u32) {
    |runs| <= 1_000_000 && NoRepeat(runs) && Covers(runs, k, off)
  }

  lemma RunReads(p: Table, stream: nat, runs: seq<State>, k: nat, off: u32)
    requires StreamHeld(p, stream, runs) && RunReached(runs, k, off)
    ensures ValueAt(Pctab(p), stream, off) == runs[k].value
  {
    hide EncodeRuns, Climbing, ValueAt, MatchesAt, NoRepeat, Covers;
    var prefix, suffix := StreamSplit(p, stream, runs);
    ValueRoundTrip(prefix, runs, suffix, off);
  }

  // An inlined frame has the name its record points to and the position the runs covering its offset give; the
  // record's start line stands in for a line that is not positive.
  lemma FrameRoundTrip(
    p: Table, at: nat, f: FuncDesc, s: Step, name: seq<byte>, i: nat, j: nat, file: Option<seq<byte>>)
    requires p.layout.Modern? && PcFits(p, f.entry) && MatchesAt(p.data, at, EncodeFunc(p, f))
    requires s.call.nameOff >= 0 && p.tables.funcname + s.call.nameOff < U64
    requires StringHeld(p.data, p.tables.funcname + s.call.nameOff, name)
    requires StreamHeld(p, f.pcfile, f.files) && RunReached(f.files, i, s.pcOff)
    requires StreamHeld(p, f.pcln, f.lines) && RunReached(f.lines, j, s.pcOff)
    requires FileHeld(p, f.cuOffset, f.files[i].value, file)
    ensures var line, start := f.lines[j].value, s.call.startLine;
      FrameOf(p, at, s) == InlineFrame(Named(name), file,
        if line > 0 then Some(line % 0x1_0000_0000) else if start > 0 then Some(start) else None, true)
  {
    hide WordAt, MatchesAt, EncodeFunc, ReadCstring, ResolveFile, StreamHeld, StringHeld, FileHeld, PcFits, RunReached,
      ValueAt;
    RunIsThere(f.files, i, s.pcOff);
    RunIsThere(f.lines, j, s.pcOff);
    FieldsRead(p, at, f);
    StringReads(p.data, p.tables.funcname + s.call.nameOff, name);
    RunReads(p, f.pcfile, f.files, i, s.pcOff);
    RunReads(p, f.pcln, f.lines, j, s.pcOff);
    if f.files[i].value >= 0 {
      FileReads(p, f.cuOffset, f.files[i].value, file);
    } else {
      NoFile(p, f.cuOffset, f.files[i].value, file);
    }
  }

  lemma RunIsThere(runs: seq<State>, k: nat, off: u32)
    requires RunReached(runs, k, off)
    ensures k < |runs|
  {
  }

  lemma NoFile(p: Table, cuOffset: nat, idx: i64, file: Option<seq<byte>>)
    requires FileHeld(p, cuOffset, idx, file) && idx < 0
    ensures file == None
  {
  }

  // For a pc of function k the records read start at the pc's distance from the function's entry, in the function's own
  // tree.
  lemma StepsRoundTrip(bin: GoBinary, p: Table, fs: seq<FuncDesc>, end: nat, k: nat, t: Tail, pc: u64)
    requires FunctabHeld(p, fs, end) && k < |fs| && fs[k].entry <= pc < EndOf(fs, end, k)
    requires RecordHeld(p, p.tables.functab + fs[k].funcOff, fs[k], t)
    requires p.gofunc.Some? && |t.pcdata| >= 3 && |t.funcdata| >= 4 && t.funcdata[3] != 0xffff_ffff
    ensures pc - fs[k].entry < U32
    ensures StepsFor(bin, p, k, pc) == WalkSteps(bin, Pctab(p),
        Tree((p.gofunc.value + t.funcdata[3]) % 0x1_0000_0000_0000_0000, t.pcdata[2]), pc - fs[k].entry, 32)
  {
    hide FunctabHeld, FuncHeld, RecordHeld, TreeOf, FunctabEntry, FunctabAddr, WalkSteps, Pctab;
    RecordIs(p, p.tables.functab + fs[k].funcOff, fs[k], t);
    EntryReads(p, fs, end, k);
    TreeReads(p, p.tables.functab + fs[k].funcOff, fs[k], t);
    DistanceFits(p, fs, end, k, pc);
  }

  lemma DistanceFits(p: Table, fs: seq<FuncDesc>, end: nat, k: nat, pc: u64)
    requires FunctabHeld(p, fs, end) && p.layout.Modern? && k < |fs| && fs[k].entry <= pc < EndOf(fs, end, k)
    ensures pc - fs[k].entry < U32
  {
    hide MatchesAt, EncodeEntry, EncodeFunc, StringHeld, StreamHeld, FileHeld, PcBytes;
    Pow256Values();
    assert EntryHeld(p, k, fs[k]);
    if k + 1 < |fs| {
      assert EntryHeld(p, k + 1, fs[k + 1]);
    }
  }
}
