/** Inlined calls: decoding a function's FUNCDATA_InlTree, and the per-pc walk through it. */
module InlineTree {
  import opened Wrappers
  import opened Bytes
  import opened GoBin
  import opened Pclntab
  import opened PcValue

  datatype InlinedCall = InlinedCall(funcId: byte, nameOff: i32, parentPc: i32, startLine: i32)

  const FUNCDATA_INLTREE := 3
  const PCDATA_INLTREE_INDEX := 2
  const MAX_INLINE_ENTRIES: nat := 65_536
  const MAX_INLTREE_INDEX: nat := 65_536
  const MAX_INLINE_DEPTH: nat := 32
  const NO_TREE: nat := 0xffff_ffff

  datatype TreeError = TreeTruncated | NoGofunc | NegativeParent | ParentOutside

  function ParseCall(b: seq<byte>): InlinedCall
    requires |b| == 16
  {
    InlinedCall(b[0], AsI32(FromLe(b[4..8])), AsI32(FromLe(b[8..12])), AsI32(FromLe(b[12..16])))
  }

  // Record k of the tree at `base`.
  function CallAt(bin: GoBinary, base: u64, k: nat): Option<InlinedCall> {
    var b :- ReadAtAddr(bin, Wrap64(base + k * 16), 16);
    Some(ParseCall(b))
  }

  // Where a function's tree lives: the base address and the offset of its index stream in pctab.
  datatype Tree = Tree(base: u64, stream: nat)

  function HasArrays(p: Table, funcStart: nat): Option<nat> {
    if funcStart + 44 > |p.data| then None
    else
      var npcdata :- WordAt(p.data, funcStart + 28, 4, p.le);
      if p.data[funcStart + 43] <= FUNCDATA_INLTREE || npcdata <= PCDATA_INLTREE_INDEX then None else Some(npcdata)
  }

  function TreeOf(p: Table, funcStart: nat): Option<Tree> {
    var gofunc :- p.gofunc;
    var npcdata :- HasArrays(p, funcStart);
    var slot :- WordAt(p.data, funcStart + 44 + npcdata * 4 + FUNCDATA_INLTREE * 4, 4, p.le);
    var stream :- WordAt(p.data, funcStart + 44 + PCDATA_INLTREE_INDEX * 4, 4, p.le);
    if slot == NO_TREE then None else Some(Tree(Wrap64(gofunc + slot), stream))
  }

  // The function's size as the stream walker's limit; a size beyond 32 bits is no limit.
  function PcLimit(size: nat): u32 { Min(size, U32 - 1) }

  // How many records the index stream says the tree has, capped.
  function TreeLength(p: Table, tree: Tree, size: nat): nat {
    var m := MaxValue(Pctab(p), tree.stream, PcLimit(size));
    if m < 0 then 0 else Min(m + 1, MAX_INLINE_ENTRIES)
  }

  predicate ParentInside(c: InlinedCall, size: nat) { c.parentPc == -1 || 0 <= c.parentPc < size }

  // v is a decoded tree: the records at its address, in order, none pointing outside the function,
  // stopping early only at unmapped memory.
  predicate Decoded(bin: GoBinary, p: Table, func: FuncEntry, v: seq<InlinedCall>) {
    match TreeOf(p, p.tables.functab + func.funcOff)
    case None => v == []
    case Some(tree) =>
      && |v| <= TreeLength(p, tree, func.size)
      && (forall k :: 0 <= k < |v| ==> CallAt(bin, tree.base, k) == Some(v[k]) && ParentInside(v[k], func.size))
      && (|v| < TreeLength(p, tree, func.size) ==> CallAt(bin, tree.base, |v|) == None)
  }

  // Record k is the first to point outside the function, every earlier one being readable and inside.
  predicate FirstBad(bin: GoBinary, base: u64, n: nat, size: nat, k: nat) {
    && k < n
    && (forall j :: 0 <= j < k ==> CallAt(bin, base, j).Some? && ParentInside(CallAt(bin, base, j).value, size))
    && CallAt(bin, base, k).Some? && !ParentInside(CallAt(bin, base, k).value, size)
  }

  // A decoding error: the function claims a tree whose index stream cannot be located, or with records to
  // read but no base to read them from, or a record points outside the function.
  ghost predicate Corrupt(bin: GoBinary, p: Table, func: FuncEntry) {
    var funcStart := p.tables.functab + func.funcOff;
    match TreeOf(p, funcStart)
    case None =>
      && HasArrays(p, funcStart).Some?
      && (match WordAt(p.data, funcStart + 44 + PCDATA_INLTREE_INDEX * 4, 4, p.le)
          case None => true
          case Some(stream) =>
            && MaxValue(Pctab(p), stream, PcLimit(func.size)) >= 0
            && p.gofunc.None?
            && var at := funcStart + 44 + HasArrays(p, funcStart).value * 4 + FUNCDATA_INLTREE * 4;
            var slot := WordAt(p.data, at, 4, p.le);
            slot.Some? && slot.value != NO_TREE)
    case Some(tree) => exists k: nat :: FirstBad(bin, tree.base, TreeLength(p, tree, func.size), func.size, k)
  }

  lemma BadIsCorrupt(bin: GoBinary, p: Table, func: FuncEntry, tree: Tree, k: nat)
    requires TreeOf(p, p.tables.functab + func.funcOff) == Some(tree)
    requires FirstBad(bin, tree.base, TreeLength(p, tree, func.size), func.size, k)
    ensures Corrupt(bin, p, func)
  {
  }

  lemma HeaderReadable(p: Table, funcStart: nat)
    requires funcStart + 44 <= |p.data|
    ensures WordAt(p.data, funcStart + 28, 4, p.le).Some?
  {
  }

  method DecodeInlineTree(bin: GoBinary, p: Table, func: FuncEntry) returns (r: Result<seq<InlinedCall>, TreeError>)
    ensures r.Ok? ==> Decoded(bin, p, func, r.value)
    ensures r.Err? <==> Corrupt(bin, p, func)
  {
    hide WordAt, ReadAtAddr, ParseCall, MaxValue, Stream;
    var funcStart := p.tables.functab + func.funcOff;
    if funcStart + 44 > |p.data| {
      return Ok([]);
    }
    HeaderReadable(p, funcStart);
    var npcdata := WordAt(p.data, funcStart + 28, 4, p.le);
    var nfuncdata := p.data[funcStart + 43];
    if nfuncdata <= FUNCDATA_INLTREE || npcdata.value <= PCDATA_INLTREE_INDEX {
      return Ok([]);
    }
    var stream := WordAt(p.data, funcStart + 44 + PCDATA_INLTREE_INDEX * 4, 4, p.le);
    if stream.None? {
      return Err(TreeTruncated);
    }
    var maxIdx := MaxPcvalue(Pctab(p), stream.value, PcLimit(func.size));
    if maxIdx < 0 {
      return Ok([]);
    }
    var top: nat := maxIdx;
    var nEntries := Min(top + 1, MAX_INLINE_ENTRIES);
    var slot := WordAt(p.data, funcStart + 44 + npcdata.value * 4 + FUNCDATA_INLTREE * 4, 4, p.le);
    if slot.None? || slot.value == NO_TREE {
      return Ok([]);
    }
    if p.gofunc.None? {
      return Err(NoGofunc);
    }
    var base := Wrap64(p.gofunc.value + slot.value);
    assert TreeOf(p, funcStart) == Some(Tree(base, stream.value));
    var out := [];
    var i := 0;
    while i < nEntries
      invariant 0 <= i <= nEntries && |out| == i
      invariant forall k :: 0 <= k < i ==> CallAt(bin, base, k) == Some(out[k]) && ParentInside(out[k], func.size)
    {
      var entry := CallAt(bin, base, i);
      if entry.None? {
        break;
      }
      if entry.value.parentPc != -1 {
        if !ParentInside(entry.value, func.size) {
          BadIsCorrupt(bin, p, func, Tree(base, stream.value), i);
        }
        if entry.value.parentPc < 0 {
          return Err(NegativeParent);
        }
        if entry.value.parentPc >= func.size {
          return Err(ParentOutside);
        }
      }
      out := out + [entry.value];
      i := i + 1;
    }
    DecodedNotBad(bin, p, func, Tree(base, stream.value), out);
    return Ok(out);
  }

  lemma DecodedNotBad(bin: GoBinary, p: Table, func: FuncEntry, tree: Tree, v: seq<InlinedCall>)
    requires TreeOf(p, p.tables.functab + func.funcOff) == Some(tree) && Decoded(bin, p, func, v)
    ensures !Corrupt(bin, p, func)
  {
    hide CallAt, MaxValue, TreeOf;
  }

  // ----- the walk from one pc -----

  datatype FrameName = Named(bytes: seq<byte>) | Placeholder(index: nat)

  datatype InlineFrame = InlineFrame(name: FrameName, file: Option<seq<byte>>, line: Option<nat>, inlined: bool)

  datatype Step = Step(index: nat, call: InlinedCall, pcOff: u32)

  // The records the walk reads, innermost first.
  function WalkSteps(bin: GoBinary, table: seq<byte>, tree: Tree, pcOff: u32, depth: nat): (s: seq<Step>)
    ensures |s| <= depth
    ensures forall k :: 0 <= k < |s| ==> s[k].index <= MAX_INLTREE_INDEX
    decreases depth
  {
    var idx := ValueAt(table, tree.stream, pcOff);
    if idx < 0 || depth == 0 || idx > MAX_INLTREE_INDEX then []
    else
      match CallAt(bin, tree.base, idx)
      case None => []
      case Some(c) => [Step(idx, c, pcOff)] + WalkSteps(bin, table, tree, Wrap32(c.parentPc), depth - 1)
  }

  function FileAndLineForPc(p: Table, funcStart: nat, pcOff: u32): (Option<seq<byte>>, Option<nat>) {
    match WordAt(p.data, funcStart + 20, 4, p.le)
    case None => (None, None)
    case Some(pcfile) =>
      match WordAt(p.data, funcStart + 24, 4, p.le)
      case None => (None, None)
      case Some(pcln) =>
        match WordAt(p.data, funcStart + 32, 4, p.le)
        case None => (None, None)
        case Some(cu) =>
          var fileIdx := ValueAt(Pctab(p), pcfile, pcOff);
          (if fileIdx >= 0 then ResolveFile(p, cu, fileIdx) else None, LineOf(ValueAt(Pctab(p), pcln, pcOff)))
  }

  function FrameOf(p: Table, funcStart: nat, s: Step): (f: InlineFrame)
    ensures f.inlined
  {
    var name := match ReadCstring(p.data, Wrap64(p.tables.funcname + s.call.nameOff))
      case Some(n) => Named(n) case None => Placeholder(s.index);
    var (file, line) := FileAndLineForPc(p, funcStart, s.pcOff);
    InlineFrame(name, file, if line.Some? then line else LineOf(s.call.startLine), true)
  }

  function FramesOf(p: Table, funcStart: nat, steps: seq<Step>): (fs: seq<InlineFrame>)
    ensures |fs| == |steps|
    ensures forall k :: 0 <= k < |fs| ==> fs[k] == FrameOf(p, funcStart, steps[k])
  {
    seq(|steps|, k requires 0 <= k < |steps| => FrameOf(p, funcStart, steps[k]))
  }

  function PhysicalFrame(f: Function): InlineFrame { InlineFrame(Named(f.name), f.file, f.startLine, false) }

  // The records read for a pc inside functab index i.
  function StepsFor(bin: GoBinary, p: Table, i: nat, pc: u64): seq<Step> {
    match FunctabEntry(p, i)
    case None => []
    case Some((addr, funcStart)) =>
      if p.layout != Modern || pc < addr then []
      else
        match TreeOf(p, funcStart)
        case None => []
        case Some(tree) => WalkSteps(bin, Pctab(p), tree, Wrap32(pc - addr), 32)
  }

  // The second search of the source, on raw text offsets.
  function BisectOffsets(p: Table, pcOff: u32, lo: nat, hi: nat): (r: nat)
    requires lo <= hi
    ensures lo <= r <= hi
    decreases hi - lo
  {
    if lo == hi then lo
    else
      var mid := (lo + hi) / 2;
      match WordAt(p.data, p.tables.functab + mid * 8, 4, p.le)
      case Some(o) => if o <= pcOff then BisectOffsets(p, pcOff, mid + 1, hi) else BisectOffsets(p, pcOff, lo, mid)
      case None => BisectOffsets(p, pcOff, lo, mid)
  }

  lemma ModernEntry(p: Table, i: nat)
    requires p.layout.Modern? && FunctabAddr(p, i).Some?
    ensures WordAt(p.data, p.tables.functab + i * 8, 4, p.le).Some?
    ensures FunctabAddr(p, i).value == p.textStart + WordAt(p.data, p.tables.functab + i * 8, 4, p.le).value
  {
  }

  // It retraces the first search whenever that succeeded and the pc offset fits 32 bits.
  lemma {:induction false} SearchesAgree(p: Table, pc: u64, lo: nat, hi: nat)
    requires p.layout.Modern? && lo <= hi && Bisect(p, pc, lo, hi).Some?
    requires p.textStart <= pc < p.textStart + U32
    ensures BisectOffsets(p, pc - p.textStart, lo, hi) == Bisect(p, pc, lo, hi).value
    decreases hi - lo
  {
    hide WordAt, FunctabAddr;
    if lo < hi {
      var mid := (lo + hi) / 2;
      ModernEntry(p, mid);
      if FunctabAddr(p, mid).value <= pc {
        SearchesAgree(p, pc, mid + 1, hi);
      } else {
        SearchesAgree(p, pc, lo, mid);
      }
    }
  }

  // Below a readable next entry the offset always fits.
  lemma OffsetFits(p: Table, i: nat, pc: u64)
    requires p.layout.Modern? && Spans(p, i, pc) && FunctabAddr(p, i + 1).Some?
    ensures p.textStart <= pc < p.textStart + U32
  {
    WordAtBound(p.data, p.tables.functab + (i + 1) * 8, 4, p.le);
    Pow256Values();
    hide WordAt, Pow256;
  }

  lemma FoundSpans(p: Table, pc: u64)
    requires Found(p, pc).Some?
    ensures Spans(p, Found(p, pc).value, pc) && Bisect(p, pc, 0, p.nfunc) == Some(Found(p, pc).value + 1)
  {
    hide FunctabAddr;
    BisectBounds(p, pc, 0, p.nfunc);
  }

  // The entry before the settled index is at or below pc.
  lemma {:induction false} BisectBounds(p: Table, pc: u64, lo: nat, hi: nat)
    requires lo <= hi && Bisect(p, pc, lo, hi).Some?
    ensures var k := Bisect(p, pc, lo, hi).value;
      k > lo ==> FunctabAddr(p, k - 1).Some? && FunctabAddr(p, k - 1).value <= pc
    decreases hi - lo
  {
    hide FunctabAddr;
    if lo < hi {
      var mid := (lo + hi) / 2;
      if FunctabAddr(p, mid).value <= pc {
        BisectBounds(p, pc, mid + 1, hi);
      } else {
        BisectBounds(p, pc, lo, mid);
      }
    }
  }

  lemma FunctionFound(p: Table, pc: u64)
    ensures FunctionFor(p, pc).Some? ==> Found(p, pc).Some?
  {
  }

  // Frames come innermost first: inlined ones, then exactly one physical frame; the inlined ones are
  // those of the records StepsFor reads, for the very function the pc search picks, up to 4 GiB into the text.
  method LookupInline(bin: GoBinary, p: Table, pc: u64) returns (frames: seq<InlineFrame>)
    requires p.ptrSize in {4, 8}
    ensures frames == [] <==> FunctionFor(p, pc) == None
    ensures frames != [] ==>
      && Found(p, pc).Some?
      && var i := Found(p, pc).value;
      && Spans(p, i, pc)
      && frames[|frames| - 1] == PhysicalFrame(FunctionFor(p, pc).value)
      && |frames| <= 33
      && (forall k :: 0 <= k < |frames| - 1 ==> frames[k].inlined)
      && (pc < p.textStart + U32 && FunctabEntry(p, i).Some? ==>
           frames[..|frames| - 1] == FramesOf(p, FunctabEntry(p, i).value.1, StepsFor(bin, p, i, pc)))
  {
    hide WordAt, ReadFunction, FrameOf, ReadAtAddr, ParseCall, Bisect, BisectOffsets, FunctabAddr, FunctabEntry,
      WalkSteps, TreeOf, FunctionAt, StepsFor, Found, FunctionFor, Spans, Sorted, Readable;
    frames := [];
    var leaf := Lookup(p, pc);
    if leaf.None? {
      return;
    }
    FunctionFound(p, pc);
    ghost var i := Found(p, pc).value;
    FoundSpans(p, pc);
    var physical := PhysicalFrame(leaf.value);
    var steps, funcStart := SecondWalk(bin, p, pc, i);
    frames := FramesOf(p, funcStart, steps) + [physical];
    assert frames[..|frames| - 1] == FramesOf(p, funcStart, steps);
  }

  // The part after `lookup`: re-locate the function, find its tree, follow parent pcs.
  method SecondWalk(bin: GoBinary, p: Table, pc: u64, ghost i: nat) returns (steps: seq<Step>, funcStart: nat)
    requires Spans(p, i, pc) && Bisect(p, pc, 0, p.nfunc) == Some(i + 1)
    ensures |steps| <= MAX_INLINE_DEPTH
    ensures pc < p.textStart + U32 && FunctabEntry(p, i).Some? ==>
      steps == StepsFor(bin, p, i, pc) && (steps == [] || funcStart == FunctabEntry(p, i).value.1)
  {
    hide WordAt, ReadAtAddr, ParseCall, Bisect, BisectOffsets, WalkSteps;
    steps, funcStart := [], 0;
    if p.layout != Modern || p.gofunc.None? || pc < p.textStart {
      return;
    }
    var pcOff := Wrap32(pc - p.textStart);
    if pc < p.textStart + U32 {
      SearchesAgree(p, pc, 0, p.nfunc);
    }
    var lo := SearchOffsets(p, pcOff);
    if lo == 0 {
      return;
    }
    var idx := lo - 1;
    var funcOff := WordAt(p.data, p.tables.functab + idx * 8 + 4, 4, p.le);
    if funcOff.None? {
      return;
    }
    funcStart := p.tables.functab + funcOff.value;
    var tree := TreeOf(p, funcStart);
    if tree.None? {
      return;
    }
    var entryOff := WordAt(p.data, p.tables.functab + idx * 8, 4, p.le);
    var entryPc := p.textStart + (if entryOff.Some? then entryOff.value else 0);
    steps := FollowParents(bin, Pctab(p), tree.value, Wrap32(pc - entryPc));
  }

  method SearchOffsets(p: Table, pcOff: u32) returns (lo: nat)
    ensures lo == BisectOffsets(p, pcOff, 0, p.nfunc)
  {
    hide WordAt;
    lo := 0;
    var hi := p.nfunc;
    while lo < hi
      invariant lo <= hi <= p.nfunc
      invariant BisectOffsets(p, pcOff, 0, p.nfunc) == BisectOffsets(p, pcOff, lo, hi)
    {
      var mid := (lo + hi) / 2;
      var o := WordAt(p.data, p.tables.functab + mid * 8, 4, p.le);
      if o.Some? && o.value <= pcOff {
        lo := mid + 1;
      } else {
        hi := mid;
      }
    }
  }

  method FollowParents(bin: GoBinary, table: seq<byte>, tree: Tree, targetOff: u32) returns (steps: seq<Step>)
    ensures steps == WalkSteps(bin, table, tree, targetOff, MAX_INLINE_DEPTH)
  {
    hide ReadAtAddr, ParseCall, ValueAt;
    steps := [];
    var pcOff := targetOff;
    var idx := PcvalueAt(table, tree.stream, pcOff);
    var iterGuard: nat := 0;
    while idx >= 0 && iterGuard < MAX_INLINE_DEPTH
      invariant iterGuard <= MAX_INLINE_DEPTH && idx == ValueAt(table, tree.stream, pcOff)
      invariant WalkSteps(bin, table, tree, targetOff, MAX_INLINE_DEPTH)
             == steps + WalkSteps(bin, table, tree, pcOff, MAX_INLINE_DEPTH - iterGuard)
      decreases MAX_INLINE_DEPTH - iterGuard
    {
      if idx > MAX_INLTREE_INDEX {
        break;
      }
      iterGuard := iterGuard + 1;
      var entry := CallAt(bin, tree.base, idx);
      if entry.None? {
        break;
      }
      steps := steps + [Step(idx, entry.value, pcOff)];
      pcOff := Wrap32(entry.value.parentPc);
      idx := PcvalueAt(table, tree.stream, pcOff);
    }
  }

  // ----- the walk stays inside the decoded tree -----

  // No run covers the largest offset, so a parent pc of -1 always ends the walk.
  lemma {:induction false} TopOffsetUncovered(s: seq<State>)
    ensures FirstCovering(s, U32 - 1) == -1
  {
    if s != [] {
      TopOffsetUncovered(s[1..]);
    }
  }

  lemma NoValueAtTop(table: seq<byte>, start: nat)
    ensures ValueAt(table, start, U32 - 1) == -1
  {
    TopOffsetUncovered(Stream(table, start));
  }

  // A step's record is the decoded one at its index, or the one index the decoder's cap leaves out.
  predicate InTree(v: seq<InlinedCall>, s: Step) {
    (s.index < |v| && v[s.index] == s.call) || (s.index == MAX_INLTREE_INDEX && |v| == MAX_INLINE_ENTRIES)
  }

  lemma {:induction false} WalkInTree(
    bin: GoBinary, table: seq<byte>, tree: Tree, size: nat, v: seq<InlinedCall>, pcOff: u32, depth: nat)
    requires var m := MaxValue(table, tree.stream, PcLimit(size));
      |v| == (if m < 0 then 0 else Min(m + 1, MAX_INLINE_ENTRIES))
    requires forall k :: 0 <= k < |v| ==> CallAt(bin, tree.base, k) == Some(v[k]) && ParentInside(v[k], size)
    requires size < U32
    requires pcOff < size || pcOff == U32 - 1 || |v| == MAX_INLINE_ENTRIES
    ensures forall s :: s in WalkSteps(bin, table, tree, pcOff, depth) ==> InTree(v, s)
    decreases depth
  {
    hide MaxValue, CallAt, ValueAt;
    var idx := ValueAt(table, tree.stream, pcOff);
    if idx >= 0 && depth > 0 && idx <= MAX_INLTREE_INDEX && CallAt(bin, tree.base, idx).Some? {
      NoValueAtTop(table, tree.stream);
      if pcOff < size {
        ValueAtMostMax(table, tree.stream, pcOff, PcLimit(size));
      }
      var c := CallAt(bin, tree.base, idx).value;
      assert InTree(v, Step(idx, c, pcOff));
      var next := Wrap32(c.parentPc);
      assert |v| != MAX_INLINE_ENTRIES ==> ParentInside(c, size);
      WalkInTree(bin, table, tree, size, v, next, depth - 1);
      var rest := WalkSteps(bin, table, tree, next, depth - 1);
      assert WalkSteps(bin, table, tree, pcOff, depth) == [Step(idx, c, pcOff)] + rest;
    }
  }

  // The decoded record at the step's index.
  predicate FromTree(v: seq<InlinedCall>, s: Step) { s.index < |v| && v[s.index] == s.call }

  // Some offset of the function is indexed 65,536, the one index beyond the decoder's cap that the walk
  // follows, and that record is mapped.
  ghost predicate IndexedPastCap(bin: GoBinary, p: Table, func: FuncEntry) {
    match TreeOf(p, p.tables.functab + func.funcOff)
    case None => false
    case Some(tree) =>
      && CallAt(bin, tree.base, 65_536).Some?
      && exists off: u32 :: off < func.size && ValueAt(Pctab(p), tree.stream, off) == 65_536
  }

  // Without such an offset the walk from any offset of the function stays in the tree.
  lemma {:induction false} WalkFromTree(
    bin: GoBinary, table: seq<byte>, tree: Tree, size: nat, v: seq<InlinedCall>, pcOff: u32, depth: nat)
    requires var m := MaxValue(table, tree.stream, PcLimit(size));
      |v| == (if m < 0 then 0 else Min(m + 1, MAX_INLINE_ENTRIES))
    requires forall k :: 0 <= k < |v| ==> CallAt(bin, tree.base, k) == Some(v[k]) && ParentInside(v[k], size)
    requires size < U32 && (pcOff < size || pcOff == U32 - 1)
    requires CallAt(bin, tree.base, 65_536).Some? ==> forall off: u32 :: off < size ==>
        ValueAt(table, tree.stream, off) != 65_536
    ensures forall s :: s in WalkSteps(bin, table, tree, pcOff, depth) ==> FromTree(v, s)
    decreases depth
  {
    hide MaxValue, CallAt, ValueAt;
    var idx := ValueAt(table, tree.stream, pcOff);
    if idx >= 0 && depth > 0 && idx <= MAX_INLTREE_INDEX && CallAt(bin, tree.base, idx).Some? {
      NoValueAtTop(table, tree.stream);
      ValueAtMostMax(table, tree.stream, pcOff, PcLimit(size));
      var c := CallAt(bin, tree.base, idx).value;
      assert FromTree(v, Step(idx, c, pcOff)) && ParentInside(c, size);
      var next := Wrap32(c.parentPc);
      WalkFromTree(bin, table, tree, size, v, next, depth - 1);
      var rest := WalkSteps(bin, table, tree, next, depth - 1);
      assert WalkSteps(bin, table, tree, pcOff, depth) == [Step(idx, c, pcOff)] + rest;
    }
  }

  // The function's record and its tree, decoded in full.
  ghost predicate FullyDecoded(bin: GoBinary, p: Table, i: nat, v: seq<InlinedCall>) {
    && p.layout.Modern? && i < p.nfunc && FunctabAddr(p, i).Some? && FunctabAddr(p, i + 1).Some? && RecordOf(p, i).Some?
    && var func := RecordOf(p, i).value;
    && Decoded(bin, p, func, v)
    && match TreeOf(p, p.tables.functab + func.funcOff)
       case None => true
       case Some(tree) => |v| == TreeLength(p, tree, func.size)
  }

  // Every record the walk reads for a pc of the function is the decoded one at its index or the one beyond
  // the cap; for all pcs together it is always the decoded one exactly when no offset is indexed past the cap.
  lemma LookupStaysInTree(bin: GoBinary, p: Table, i: nat, v: seq<InlinedCall>)
    requires FullyDecoded(bin, p, i, v)
    ensures forall pc: u64, s :: Spans(p, i, pc) && s in StepsFor(bin, p, i, pc) ==> InTree(v, s)
    ensures (forall pc: u64, s :: Spans(p, i, pc) && s in StepsFor(bin, p, i, pc) ==> FromTree(v, s))
        <==> !IndexedPastCap(bin, p, RecordOf(p, i).value)
  {
    hide FullyDecoded, Spans, StepsFor, InTree, FromTree, IndexedPastCap;
    forall pc: u64 | Spans(p, i, pc) ensures forall s :: s in StepsFor(bin, p, i, pc) ==> InTree(v, s) {
      StepsInTree(bin, p, i, pc, v);
    }
    RecordThere(bin, p, i, v);
    if IndexedPastCap(bin, p, RecordOf(p, i).value) {
      var pc, s := StepPastCap(bin, p, i, v);
    } else {
      forall pc: u64 | Spans(p, i, pc) ensures forall s :: s in StepsFor(bin, p, i, pc) ==> FromTree(v, s) {
        StepsFromTree(bin, p, i, pc, v);
      }
    }
  }

  lemma RecordThere(bin: GoBinary, p: Table, i: nat, v: seq<InlinedCall>)
    requires FullyDecoded(bin, p, i, v)
    ensures RecordOf(p, i).Some?
  {
  }

  lemma StepsInTree(bin: GoBinary, p: Table, i: nat, pc: u64, v: seq<InlinedCall>)
    requires FullyDecoded(bin, p, i, v) && Spans(p, i, pc)
    ensures forall s :: s in StepsFor(bin, p, i, pc) ==> InTree(v, s)
  {
    hide WordAt, WalkSteps, CallAt, ReadName, TreeOf, MaxValue, FunctabAddr, FunctabEntry, RecordOf, Pctab, InTree;
    var func := RecordOf(p, i).value;
    SizeFits(p, i);
    var t := TreeOf(p, FunctabEntry(p, i).value.1);
    if t.Some? {
      WalkInTree(bin, Pctab(p), t.value, func.size, v, Wrap32(pc - FunctabAddr(p, i).value), MAX_INLINE_DEPTH);
    }
  }

  lemma StepsFromTree(bin: GoBinary, p: Table, i: nat, pc: u64, v: seq<InlinedCall>)
    requires FullyDecoded(bin, p, i, v) && Spans(p, i, pc) && !IndexedPastCap(bin, p, RecordOf(p, i).value)
    ensures forall s :: s in StepsFor(bin, p, i, pc) ==> FromTree(v, s)
  {
    hide WordAt, WalkSteps, CallAt, ReadName, TreeOf, MaxValue, FunctabAddr, FunctabEntry, RecordOf, Pctab, FromTree,
        ValueAt;
    var func := RecordOf(p, i).value;
    SizeFits(p, i);
    var t := TreeOf(p, FunctabEntry(p, i).value.1);
    if t.Some? {
      WalkFromTree(bin, Pctab(p), t.value, func.size, v, Wrap32(pc - FunctabAddr(p, i).value), MAX_INLINE_DEPTH);
    }
  }

  // Conversely, at such an offset the very first record read is beyond the decoded tree.
  lemma StepPastCap(bin: GoBinary, p: Table, i: nat, v: seq<InlinedCall>) returns (pc: u64, s: Step)
    requires FullyDecoded(bin, p, i, v) && IndexedPastCap(bin, p, RecordOf(p, i).value)
    ensures Spans(p, i, pc) && s in StepsFor(bin, p, i, pc) && s.index == MAX_INLTREE_INDEX >= |v| && !FromTree(v, s)
  {
    hide WordAt, CallAt, ReadName, TreeOf, MaxValue, FunctabAddr, FunctabEntry, RecordOf, Pctab, ValueAt;
    var func := RecordOf(p, i).value;
    SizeFits(p, i);
    var addr := FunctabAddr(p, i).value;
    var tree := TreeOf(p, p.tables.functab + func.funcOff).value;
    var off: u32 :| off < func.size && ValueAt(Pctab(p), tree.stream, off) == 65_536;
    NextBelowTop(p, i + 1);
    pc := addr + off;
    s := Step(MAX_INLTREE_INDEX, CallAt(bin, tree.base, 65_536).value, off);
    assert WalkSteps(bin, Pctab(p), tree, off, MAX_INLINE_DEPTH)[0] == s;
  }

  lemma NextBelowTop(p: Table, i: nat)
    requires p.layout.Modern?
    ensures FunctabAddr(p, i).Some? ==> FunctabAddr(p, i).value < U64
  {
    hide WordAt;
  }

  lemma SizeFits(p: Table, i: nat)
    requires p.layout.Modern? && FunctabAddr(p, i).Some? && FunctabAddr(p, i + 1).Some? && RecordOf(p, i).Some?
    ensures RecordOf(p, i).value.size < U32
    ensures RecordOf(p, i).value.size == SatSub(FunctabAddr(p, i + 1).value, FunctabAddr(p, i).value)
    ensures FunctabEntry(p, i).Some? && FunctabEntry(p, i).value.0 == FunctabAddr(p, i).value
    ensures FunctabEntry(p, i).value.1 == p.tables.functab + RecordOf(p, i).value.funcOff
  {
    WordAtBound(p.data, p.tables.functab + (i + 1) * 8, 4, p.le);
    Pow256Values();
    hide WordAt, Pow256, ReadName;
  }
}
