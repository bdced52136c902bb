/** Finding calls by sweeping the text: the scanner that builds the call graph, the scanner that answers
    for one target, and the scanner for calls through an itab slot. */
module CallScan {
  import opened Wrappers
  import opened Bytes
  import opened Bits
  import opened WordList
  import opened Pclntab
  import opened Xrefs

  datatype CallSite = CallSite(site: u64, caller: Option<Function>)

  // ----- call instructions -----

  datatype Arch = Amd64 | Arm64 {
    function Width(): nat { if Amd64? then 5 else 4 }
    function Stride(): nat { if Amd64? then 1 else 4 }
  }

  // CALL rel32 at i.
  function RelTarget(text: seq<byte>, start: u64, i: nat): Option<u64>
    requires i + 5 <= |text|
  {
    if text[i] == 0xE8 then Some(Wrap64(start + i + 5 + I32At(text, i + 1))) else None
  }

  // The branch distance in instructions: the low 26 bits as a signed number.
  function Signed26(v: nat): int {
    var w := v % 0x400_0000;
    if w < 0x200_0000 then w else w - 0x400_0000
  }

  // BL at i: the top six bits are 100101.
  function BranchTarget(text: seq<byte>, start: u64, i: nat): Option<u64>
    requires i + 4 <= |text|
  {
    var insn := FromLe(text[i..i + 4]);
    if insn / 0x400_0000 == 0x25 then Some(Wrap64(start + i + 4 * Signed26(insn))) else None
  }

  function TargetAt(arch: Arch, text: seq<byte>, start: u64, i: nat): Option<u64>
    requires i + arch.Width() <= |text|
  {
    if arch.Amd64? then RelTarget(text, start, i) else BranchTarget(text, start, i)
  }

  // The sign extension to 64 bits: every bit above the 26 is set when the top one of them is.
  function ExtendWide(imm26: nat): i64 {
    if And(imm26, 0x0200_0000) != 0 then AsI64(Or(imm26, 0xffff_ffff_fc00_0000)) else AsI64(imm26)
  }

  // The same to 32 bits.
  function ExtendNarrow(imm26: nat): i32 {
    if And(imm26, 0x0200_0000) != 0 then AsI32(Or(imm26, 0xfc00_0000)) else AsI32(imm26)
  }

  lemma Powers()
    ensures Pow2(25) == 0x200_0000 && Pow2(26) == 0x400_0000
  {
    Pow2Values();
    Pow2Add(7, 7);
    Pow2Add(14, 7);
    assert Pow2(22) == 2 * Pow2(21);
    assert Pow2(23) == 2 * Pow2(22);
    assert Pow2(24) == 2 * Pow2(23);
    assert Pow2(25) == 2 * Pow2(24);
    assert Pow2(26) == 2 * Pow2(25);
  }

  lemma SignBit(insn: u32)
    ensures var imm26 := And(insn, 0x03ff_ffff);
      imm26 == insn % 0x400_0000 && (And(imm26, 0x0200_0000) != 0 <==> imm26 >= 0x200_0000)
  {
    hide And, Pow2;
    Powers();
    AndLowMask(insn, 26);
    AndBit(insn % 0x400_0000, 25);
  }

  lemma FillOnes(imm26: nat)
    requires imm26 < 0x400_0000
    ensures Or(imm26, 0xffff_ffff_fc00_0000) == imm26 + 0xffff_ffff_fc00_0000
    ensures Or(imm26, 0xfc00_0000) == imm26 + 0xfc00_0000
  {
    hide Or, Pow2;
    Powers();
    OrDisjoint(imm26, 0x3f, 26);
    OrDisjoint(imm26, 0x3f_ffff_ffff, 26);
  }

  // Both forms of sign extension give the same signed number.
  lemma ExtensionsAgree(insn: u32)
    ensures var imm26 := And(insn, 0x03ff_ffff);
      ExtendWide(imm26) == ExtendNarrow(imm26) == Signed26(insn)
  {
    hide And, Or;
    SignBit(insn);
    FillOnes(And(insn, 0x03ff_ffff));
  }

  // ----- what a sweep sees -----

  datatype Call = Call(site: u64, target: u64)

  // The calls at the first k positions.
  function Calls(arch: Arch, text: seq<byte>, start: u64, k: nat): seq<Call>
    requires k > 0 ==> (k - 1) * arch.Stride() + arch.Width() <= |text|
  {
    if k == 0 then []
    else
      var i := (k - 1) * arch.Stride();
      var before := Calls(arch, text, start, k - 1);
      match TargetAt(arch, text, start, i)
      case Some(t) => before + [Call(Wrap64(start + i), t)]
      case None => before
  }

  function Positions(arch: Arch, text: seq<byte>): nat {
    if |text| < arch.Width() then 0 else (|text| - arch.Width()) / arch.Stride() + 1
  }

  function AllCalls(arch: Arch, text: seq<byte>, start: u64): seq<Call> {
    Calls(arch, text, start, Positions(arch, text))
  }

  // The name of the function entered at an address; of several, the last.
  function NameAt(funcs: seq<Function>, a: u64): Option<seq<byte>> {
    if funcs == [] then None
    else if funcs[|funcs| - 1].address == a then Some(funcs[|funcs| - 1].name)
    else NameAt(funcs[..|funcs| - 1], a)
  }

  function EdgeOf(p: Table, funcs: seq<Function>, c: Call): Option<CallEdge> {
    var callee :- NameAt(funcs, c.target);
    var caller :- FunctionFor(p, c.site);
    Some(CallEdge(c.site, caller.address, caller.name, c.target, callee))
  }

  function EdgesOf(p: Table, funcs: seq<Function>, calls: seq<Call>): seq<CallEdge> {
    if calls == [] then []
    else
      var before := EdgesOf(p, funcs, calls[..|calls| - 1]);
      match EdgeOf(p, funcs, calls[|calls| - 1])
      case Some(e) => before + [e]
      case None => before
  }

  function SitesOf(p: Table, target: u64, calls: seq<Call>): seq<CallSite> {
    if calls == [] then []
    else
      var c := calls[|calls| - 1];
      var before := SitesOf(p, target, calls[..|calls| - 1]);
      if c.target == target then before + [CallSite(c.site, FunctionFor(p, c.site))] else before
  }

  // ----- the scanners -----

  lemma SweepStep(arch: Arch, text: seq<byte>, start: u64, k: nat)
    requires k * arch.Stride() + arch.Width() <= |text|
    ensures var before, i := Calls(arch, text, start, k), k * arch.Stride();
      Calls(arch, text, start, k + 1)
        == match TargetAt(arch, text, start, i)
           case Some(t) => before + [Call(Wrap64(start + i), t)]
           case None => before
  {
    hide TargetAt;
  }

  lemma EdgesSnoc(p: Table, funcs: seq<Function>, calls: seq<Call>, c: Call)
    ensures EdgesOf(p, funcs, calls + [c])
         == match EdgeOf(p, funcs, c)
            case Some(e) => EdgesOf(p, funcs, calls) + [e]
            case None => EdgesOf(p, funcs, calls)
  {
    hide EdgeOf;
    assert (calls + [c])[..|calls|] == calls;
  }

  lemma SitesSnoc(p: Table, target: u64, calls: seq<Call>, c: Call)
    ensures SitesOf(p, target, calls + [c])
         == if c.target == target then SitesOf(p, target, calls) + [CallSite(c.site, FunctionFor(p, c.site))]
            else SitesOf(p, target, calls)
  {
    hide FunctionFor;
    assert (calls + [c])[..|calls|] == calls;
  }

  method IndexFunctions(funcs: seq<Function>) returns (byAddr: map<nat, seq<byte>>)
    ensures forall a: u64 :: NameAt(funcs, a) == if a in byAddr then Some(byAddr[a]) else None
  {
    byAddr := map[];
    for i := 0 to |funcs|
      invariant forall a: u64 :: NameAt(funcs[..i], a) == if a in byAddr then Some(byAddr[a]) else None
    {
      assert funcs[..i + 1][..i] == funcs[..i];
      byAddr := byAddr[funcs[i].address := funcs[i].name];
    }
    assert funcs[..|funcs|] == funcs;
  }

  // Resolving one call: the callee by address, the caller by the function the site is in.
  method ResolveEdge(p: Table, ghost funcs: seq<Function>, byAddr: map<nat, seq<byte>>, site: u64, target: u64)
    returns (e: Option<CallEdge>)
    requires forall a: u64 :: NameAt(funcs, a) == if a in byAddr then Some(byAddr[a]) else None
    ensures e == EdgeOf(p, funcs, Call(site, target))
  {
    hide FunctionFor, NameAt;
    if target !in byAddr {
      return None;
    }
    var caller := Lookup(p, site);
    if caller.None? {
      return None;
    }
    return Some(CallEdge(site, caller.value.address, caller.value.name, target, byAddr[target]));
  }

  // Wrapping at every addition is wrapping once at the end.
  lemma WrapAdd(a: int, b: int)
    ensures Wrap64(Wrap64(a) + b) == Wrap64(a + b) == Wrap64(b + Wrap64(a))
  {
  }

  lemma NextTarget(text: seq<byte>, start: u64, i: nat)
    requires i + 5 <= |text|
    ensures var next: int := Wrap64(start + i);
      RelTarget(text, start, i)
        == if text[i] == 0xE8 then Some(Wrap64(Wrap64(next + 5) + I32At(text, i + 1))) else None
  {
    hide I32At, Wrap64;
    WrapAdd(start + i, 5);
    WrapAdd(start + i + 5, I32At(text, i + 1));
  }

  lemma WideTarget(text: seq<byte>, start: u64, i: nat)
    requires i + 4 <= |text|
    ensures var insn := FromLe(text[i..i + 4]);
      && insn < U32
      && (var imm26 := And(insn, 0x03ff_ffff);
         BranchTarget(text, start, i)
           == if insn / 0x400_0000 == 0x25
              then Some(Wrap64(Wrap64(start + i) + AsI64(ExtendWide(imm26) * 4)))
              else None)
  {
    hide And, ExtendWide, ExtendNarrow, FromLe, Wrap64, Pow256;
    LeBound(text[i..i + 4]);
    Pow256Values();
    ExtensionsAgree(FromLe(text[i..i + 4]));
    WrapAdd(start + i, 4 * Signed26(FromLe(text[i..i + 4])));
  }

  lemma NarrowTarget(text: seq<byte>, start: u64, i: nat)
    requires i + 4 <= |text|
    ensures var insn := FromLe(text[i..i + 4]);
      && insn < U32
      && (var imm26 := And(insn, 0x03ff_ffff);
         BranchTarget(text, start, i)
           == if insn / 0x400_0000 == 0x25
              then Some(Wrap64(Wrap64(start + i) + AsI64(ExtendNarrow(imm26) * 4)))
              else None)
  {
    hide And, ExtendWide, ExtendNarrow;
    WideTarget(text, start, i);
    LeBound(text[i..i + 4]);
    Pow256Values();
    ExtensionsAgree(FromLe(text[i..i + 4]));
  }

  method ScanAmd64(text: seq<byte>, start: u64, p: Table, funcs: seq<Function>) returns (edges: seq<CallEdge>)
    ensures edges == EdgesOf(p, funcs, AllCalls(Amd64, text, start))
  {
    hide EdgeOf, EdgesOf, Calls, NameAt, I32At, RelTarget, Wrap64;
    var byAddr := IndexFunctions(funcs);
    edges := [];
    NoCalls(Amd64, text, start, p, funcs, 0);
    var i := 0;
    while i + 5 <= |text|
      invariant i <= Positions(Amd64, text)
      invariant edges == EdgesOf(p, funcs, Calls(Amd64, text, start, i))
    {
      SweepStep(Amd64, text, start, i);
      NextTarget(text, start, i);
      if text[i] == 0xE8 {
        var rel := I32At(text, i + 1);
        var site := Wrap64(start + i);
        var target := Wrap64(Wrap64(site as int + 5) + rel);
        EdgesSnoc(p, funcs, Calls(Amd64, text, start, i), Call(site, target));
        var e := ResolveEdge(p, funcs, byAddr, site, target);
        if e.Some? {
          edges := edges + [e.value];
        }
      }
      i := i + 1;
    }
  }

  lemma NoCalls(arch: Arch, text: seq<byte>, start: u64, p: Table, funcs: seq<Function>, target: u64)
    ensures Calls(arch, text, start, 0) == [] && EdgesOf(p, funcs, []) == [] && SitesOf(p, target, []) == []
  {
  }

  lemma SweepEnds(text: seq<byte>, k: nat)
    requires 4 * k <= |text| < 4 * k + 4
    ensures Positions(Arm64, text) == k
  {
  }

  method ScanArm64(text: seq<byte>, start: u64, p: Table, funcs: seq<Function>) returns (edges: seq<CallEdge>)
    ensures edges == EdgesOf(p, funcs, AllCalls(Arm64, text, start))
  {
    hide EdgeOf, EdgesOf, Calls, NameAt, BranchTarget, And, ExtendWide, FromLe, Wrap64, Positions;
    var byAddr := IndexFunctions(funcs);
    edges := [];
    NoCalls(Arm64, text, start, p, funcs, 0);
    var i := 0;
    ghost var k := 0;
    while i + 4 <= |text|
      invariant i == 4 * k && i <= |text|
      invariant edges == EdgesOf(p, funcs, Calls(Arm64, text, start, k))
    {
      SweepStep(Arm64, text, start, k);
      WideTarget(text, start, i);
      var insn := FromLe(text[i..i + 4]);
      if insn / 0x400_0000 == 0x25 {
        var imm26 := And(insn, 0x03ff_ffff);
        var site := Wrap64(start + i);
        var target := Wrap64(site + AsI64(ExtendWide(imm26) * 4));
        EdgesSnoc(p, funcs, Calls(Arm64, text, start, k), Call(site, target));
        var e := ResolveEdge(p, funcs, byAddr, site, target);
        if e.Some? {
          edges := edges + [e.value];
        }
      }
      i := i + 4;
      k := k + 1;
    }
    SweepEnds(text, k);
  }

  method ScanDirectAmd64(text: seq<byte>, start: u64, target: u64, p: Table) returns (out: seq<CallSite>)
    ensures out == SitesOf(p, target, AllCalls(Amd64, text, start))
  {
    hide SitesOf, Calls, FunctionFor, I32At, RelTarget, Wrap64;
    out := [];
    NoCalls(Amd64, text, start, p, [], target);
    var i := 0;
    while i + 5 <= |text|
      invariant i <= Positions(Amd64, text)
      invariant out == SitesOf(p, target, Calls(Amd64, text, start, i))
    {
      SweepStep(Amd64, text, start, i);
      NextTarget(text, start, i);
      if text[i] == 0xE8 {
        var rel := I32At(text, i + 1);
        var site := Wrap64(start + i);
        var resolved := Wrap64(Wrap64(site as int + 5) + rel);
        SitesSnoc(p, target, Calls(Amd64, text, start, i), Call(site, resolved));
        if resolved == target {
          var caller := Lookup(p, site);
          out := out + [CallSite(site, caller)];
        }
      }
      i := i + 1;
    }
  }

  method ScanDirectArm64(text: seq<byte>, start: u64, target: u64, p: Table) returns (out: seq<CallSite>)
    ensures out == SitesOf(p, target, AllCalls(Arm64, text, start))
  {
    hide SitesOf, Calls, FunctionFor, BranchTarget, And, ExtendNarrow, FromLe, Wrap64, Positions;
    out := [];
    NoCalls(Arm64, text, start, p, [], target);
    var i := 0;
    ghost var k := 0;
    while i + 4 <= |text|
      invariant i == 4 * k && i <= |text|
      invariant out == SitesOf(p, target, Calls(Arm64, text, start, k))
    {
      SweepStep(Arm64, text, start, k);
      NarrowTarget(text, start, i);
      var insn := FromLe(text[i..i + 4]);
      if insn / 0x400_0000 == 0x25 {
        var imm26 := And(insn, 0x03ff_ffff);
        var site := Wrap64(start + i);
        var resolved := Wrap64(site + AsI64(ExtendNarrow(imm26) * 4));
        SitesSnoc(p, target, Calls(Arm64, text, start, k), Call(site, resolved));
        if resolved == target {
          var caller := Lookup(p, site);
          out := out + [CallSite(site, caller)];
        }
      }
      i := i + 4;
      k := k + 1;
    }
    SweepEnds(text, k);
  }

  // ----- the two agree -----

  // (site, caller) of the edges into a function, and of the sites that have a caller.
  function Into(edges: seq<CallEdge>, target: u64): seq<(u64, nat)> {
    if edges == [] then []
    else
      var e := edges[|edges| - 1];
      var before := Into(edges[..|edges| - 1], target);
      if e.calleeAddr == target then before + [(e.callSite, e.callerAddr)] else before
  }

  function Called(sites: seq<CallSite>): seq<(u64, nat)> {
    if sites == [] then []
    else
      var s := sites[|sites| - 1];
      var before := Called(sites[..|sites| - 1]);
      match s.caller case Some(f) => before + [(s.site, f.address)] case None => before
  }

  lemma IntoSnoc(edges: seq<CallEdge>, e: CallEdge, target: u64)
    ensures Into(edges + [e], target)
         == if e.calleeAddr == target then Into(edges, target) + [(e.callSite, e.callerAddr)] else Into(edges, target)
  {
    assert (edges + [e])[..|edges|] == edges;
  }

  lemma CalledSnoc(sites: seq<CallSite>, s: CallSite)
    ensures Called(sites + [s])
         == match s.caller case Some(f) => Called(sites) + [(s.site, f.address)] case None => Called(sites)
  {
    assert (sites + [s])[..|sites|] == sites;
  }

  // For every recovered function the call graph's edges into it are exactly the per-target scan's sites
  // that lie in a function: same sites, same callers, same order.
  lemma {:induction false} ScannersAgree(p: Table, funcs: seq<Function>, calls: seq<Call>, target: u64)
    requires NameAt(funcs, target).Some?
    ensures Into(EdgesOf(p, funcs, calls), target) == Called(SitesOf(p, target, calls))
    decreases |calls|
  {
    hide FunctionFor, NameAt, Into, Called;
    if calls == [] {
      NoneCalled(target);
    } else {
      var init, c := calls[..|calls| - 1], calls[|calls| - 1];
      ScannersAgree(p, funcs, init, target);
      if EdgeOf(p, funcs, c).Some? {
        IntoSnoc(EdgesOf(p, funcs, init), EdgeOf(p, funcs, c).value, target);
      }
      CalledSnoc(SitesOf(p, target, init), CallSite(c.site, FunctionFor(p, c.site)));
    }
  }

  lemma NoneCalled(target: u64)
    ensures Into([], target) == [] && Called([]) == []
  {
  }

  // For an address that is no recovered entry the graph has no edges at all.
  lemma {:induction false} NoEdgesElsewhere(p: Table, funcs: seq<Function>, calls: seq<Call>, target: u64)
    requires NameAt(funcs, target).None?
    ensures Into(EdgesOf(p, funcs, calls), target) == []
    decreases |calls|
  {
    hide FunctionFor, NameAt, Into;
    if calls == [] {
      NoneCalled(target);
    } else {
      var init, c := calls[..|calls| - 1], calls[|calls| - 1];
      NoEdgesElsewhere(p, funcs, init, target);
      if EdgeOf(p, funcs, c).Some? {
        IntoSnoc(EdgesOf(p, funcs, init), EdgeOf(p, funcs, c).value, target);
      }
    }
  }

  // ----- every call in reach is seen -----

  // The calls listed are exactly those some position decodes to.
  lemma {:induction false} CallsExact(arch: Arch, text: seq<byte>, start: u64, k: nat, c: Call)
    requires k > 0 ==> (k - 1) * arch.Stride() + arch.Width() <= |text|
    ensures c in Calls(arch, text, start, k) <==>
      exists j: nat :: j < k && DecodesTo(arch, text, start, j, c)
  {
    hide TargetAt;
    if k > 0 {
      CallsExact(arch, text, start, k - 1, c);
      assert DecodesTo(arch, text, start, k - 1, c) || c in Calls(arch, text, start, k - 1)
          <==> c in Calls(arch, text, start, k);
    }
  }

  // Position j of the sweep holds a call instruction, and c is what it does.
  predicate DecodesTo(arch: Arch, text: seq<byte>, start: u64, j: nat, c: Call) {
    var i := j * arch.Stride();
    && i + arch.Width() <= |text|
    && TargetAt(arch, text, start, i).Some?
    && c == Call(Wrap64(start + i), TargetAt(arch, text, start, i).value)
  }

  // A sweep of the whole text leaves no position out.
  lemma AllCallsExact(arch: Arch, text: seq<byte>, start: u64, c: Call)
    ensures c in AllCalls(arch, text, start) <==> exists j: nat :: DecodesTo(arch, text, start, j, c)
  {
    hide DecodesTo, Calls;
    CallsExact(arch, text, start, Positions(arch, text), c);
    forall j: nat | DecodesTo(arch, text, start, j, c) ensures j < Positions(arch, text) {
      InSweep(arch, text, start, j, c);
    }
  }

  lemma InSweep(arch: Arch, text: seq<byte>, start: u64, j: nat, c: Call)
    requires DecodesTo(arch, text, start, j, c)
    ensures j < Positions(arch, text)
  {
    hide TargetAt;
  }

  function EncodeCall(rel: i32): (s: seq<byte>)
    ensures |s| == 5
  {
    [0xE8] + ToLe(Wrap32(rel), 4)
  }

  lemma I32RoundTrip(v: i32)
    ensures AsI32(FromLe(ToLe(Wrap32(v), 4))) == v
  {
    hide FromLe, ToLe, Pow256;
    LeRoundTrip(Wrap32(v), 4);
    Pow256Values();
  }

  // A CALL rel32 at i reaches the address it was assembled for.
  lemma EncodedCallSeen(text: seq<byte>, start: u64, i: nat, rel: i32)
    requires i + 5 <= |text| && text[i..i + 5] == EncodeCall(rel)
    ensures RelTarget(text, start, i) == Some(Wrap64(start + i + 5 + rel))
  {
    hide ToLe, FromLe;
    assert text[i] == text[i..i + 5][0];
    assert text[i + 1..i + 5] == text[i..i + 5][1..] == ToLe(Wrap32(rel), 4);
    I32RoundTrip(rel);
  }

  // A BL by d instructions, as its word.
  function EncodeBranch(d: int): u32
    requires -0x200_0000 <= d < 0x200_0000
  {
    0x9400_0000 + d % 0x400_0000
  }

  lemma EncodedBranchSeen(text: seq<byte>, start: u64, i: nat, d: int)
    requires -0x200_0000 <= d < 0x200_0000
    requires i + 4 <= |text| && text[i..i + 4] == ToLe(EncodeBranch(d), 4)
    ensures BranchTarget(text, start, i) == Some(Wrap64(start + i + 4 * d))
  {
    hide ToLe, FromLe;
    LeRoundTrip(EncodeBranch(d), 4);
    Pow256Values();
  }

  // Nothing else is taken for a call: what is decoded was assembled so.
  lemma CallWasEncoded(text: seq<byte>, start: u64, i: nat) returns (rel: i32)
    requires i + 5 <= |text| && RelTarget(text, start, i).Some?
    ensures text[i..i + 5] == EncodeCall(rel)
  {
    hide ToLe, FromLe, Pow256;
    var b := text[i + 1..i + 5];
    LeBack(b);
    LeBound(b);
    Pow256Values();
    rel := AsI32(FromLe(b));
    assert text[i..i + 5] == [text[i]] + b;
  }

  lemma BranchWasEncoded(text: seq<byte>, start: u64, i: nat) returns (d: int)
    requires i + 4 <= |text| && BranchTarget(text, start, i).Some?
    ensures -0x200_0000 <= d < 0x200_0000 && text[i..i + 4] == ToLe(EncodeBranch(d), 4)
  {
    hide ToLe, FromLe, Pow256;
    var b := text[i..i + 4];
    LeBack(b);
    LeBound(b);
    Pow256Values();
    d := Signed26(FromLe(b));
  }

  // ----- what an edge says -----

  // The callee is the last function entered at the address reached, the caller the function the site lies in.
  ghost predicate Resolves(p: Table, funcs: seq<Function>, e: CallEdge) {
    && (exists i :: 0 <= i < |funcs| && funcs[i].address == e.calleeAddr && funcs[i].name == e.calleeName
                 && forall j :: i < j < |funcs| ==> funcs[j].address != e.calleeAddr)
    && (var f := FunctionFor(p, e.callSite);
        f.Some? && f.value.address == e.callerAddr && f.value.name == e.callerName)
  }

  // The edges are exactly the calls of the text that resolve, under the names and addresses they resolve to.
  lemma EdgesExact(arch: Arch, text: seq<byte>, start: u64, p: Table, funcs: seq<Function>, e: CallEdge)
    requires e.calleeAddr < U64
    ensures e in EdgesOf(p, funcs, AllCalls(arch, text, start)) <==>
      Resolves(p, funcs, e) && exists j: nat :: DecodesTo(arch, text, start, j, Call(e.callSite, e.calleeAddr))
  {
    hide EdgesOf, AllCalls, Resolves, DecodesTo;
    ResolvedExactly(p, funcs, AllCalls(arch, text, start), e);
    AllCallsExact(arch, text, start, Call(e.callSite, e.calleeAddr));
  }

  lemma {:induction false} ResolvedExactly(p: Table, funcs: seq<Function>, calls: seq<Call>, e: CallEdge)
    requires e.calleeAddr < U64
    ensures e in EdgesOf(p, funcs, calls) <==> Call(e.callSite, e.calleeAddr) in calls && Resolves(p, funcs, e)
    decreases |calls|
  {
    hide EdgeOf, Resolves;
    if calls != [] {
      var init, c := calls[..|calls| - 1], calls[|calls| - 1];
      assert calls == init + [c];
      ResolvedExactly(p, funcs, init, e);
      OneResolved(p, funcs, c, e);
    }
  }

  lemma OneResolved(p: Table, funcs: seq<Function>, c: Call, e: CallEdge)
    requires e.calleeAddr < U64
    ensures EdgeOf(p, funcs, c) == Some(e) <==> c == Call(e.callSite, e.calleeAddr) && Resolves(p, funcs, e)
  {
    hide FunctionFor, NameAt;
    NameIsLast(funcs, c.target, e.calleeName);
  }

  lemma NameIsLast(funcs: seq<Function>, a: u64, name: seq<byte>)
    ensures NameAt(funcs, a) == Some(name) <==>
      exists i :: 0 <= i < |funcs| && funcs[i].address == a && funcs[i].name == name
               && forall j :: i < j < |funcs| ==> funcs[j].address != a
  {
    hide NameAt;
    if exists i :: 0 <= i < |funcs| && funcs[i].address == a {
      var i := LastAt(funcs, a);
      forall k | 0 <= k < |funcs| && funcs[k].address == a && (forall j :: k < j < |funcs| ==> funcs[j].address != a)
        ensures k == i
      {
      }
    } else {
      NoneAt(funcs, a);
    }
  }

  lemma {:induction false} LastAt(funcs: seq<Function>, a: u64) returns (i: nat)
    requires exists i :: 0 <= i < |funcs| && funcs[i].address == a
    ensures i < |funcs| && funcs[i].address == a && NameAt(funcs, a) == Some(funcs[i].name)
    ensures forall j :: i < j < |funcs| ==> funcs[j].address != a
  {
    var n := |funcs| - 1;
    if funcs[n].address == a {
      i := n;
    } else {
      var init := funcs[..n];
      var k :| 0 <= k < |funcs| && funcs[k].address == a;
      assert init[k].address == a;
      i := LastAt(init, a);
      forall j | i < j < |funcs| ensures funcs[j].address != a {
        assert j < n ==> init[j] == funcs[j];
      }
    }
  }

  lemma {:induction false} NoneAt(funcs: seq<Function>, a: u64)
    requires forall i :: 0 <= i < |funcs| ==> funcs[i].address != a
    ensures NameAt(funcs, a) == None
  {
    if funcs != [] {
      NoneAt(funcs[..|funcs| - 1], a);
    }
  }

  // The sites for one target are exactly the calls of it, each with the function it lies in, if any.
  lemma {:induction false} SitesExact(p: Table, target: u64, calls: seq<Call>, s: CallSite)
    ensures s in SitesOf(p, target, calls) <==> Call(s.site, target) in calls && s.caller == FunctionFor(p, s.site)
    decreases |calls|
  {
    hide FunctionFor;
    if calls != [] {
      var init, c := calls[..|calls| - 1], calls[|calls| - 1];
      assert calls == init + [c];
      SitesExact(p, target, init, s);
    }
  }

  // ----- calls through an itab slot -----

  datatype Itab = Itab(addr: u64, methods: seq<seq<byte>>)

  datatype SlotCall = SlotCall(
    site: u64, caller: Option<Function>, itabAddr: u64, methodIndex: nat, name: Option<seq<byte>>)

  const ITAB_HEADER_BYTES := 40
  const ITAB_SLOT_BYTES := 8

  function SlotVa(itab: Itab, k: nat): u64 { Wrap64(itab.addr + ITAB_HEADER_BYTES + k * ITAB_SLOT_BYTES) }

  // CALL [rip+disp32] at i: the address of the pointer it goes through.
  function SlotTarget(text: seq<byte>, start: u64, i: nat): Option<u64>
    requires i + 6 <= |text|
  {
    if text[i] == 0xff && text[i + 1] == 0x15 then Some(Wrap64(start + i + 6 + I32At(text, i + 2))) else None
  }

  function SlotCallAt(p: Table, itab: Itab, k: nat, site: u64): SlotCall {
    SlotCall(site, FunctionFor(p, site), itab.addr, k, if k < |itab.methods| then Some(itab.methods[k]) else None)
  }

  // The calls through the slot at the first n positions.
  function SlotCalls(p: Table, text: seq<byte>, start: u64, itab: Itab, k: nat, n: nat): seq<SlotCall>
    requires n > 0 ==> n + 5 <= |text|
  {
    if n == 0 then []
    else
      var before := SlotCalls(p, text, start, itab, k, n - 1);
      if SlotTarget(text, start, n - 1) == Some(SlotVa(itab, k))
      then before + [SlotCallAt(p, itab, k, Wrap64(start + n - 1))] else before
  }

  lemma SlotChain(text: seq<byte>, start: u64, i: nat)
    requires i + 6 <= |text|
    ensures var site: int := Wrap64(start + i);
      SlotTarget(text, start, i)
        == if text[i] == 0xff && text[i + 1] == 0x15 then Some(Wrap64(Wrap64(site + 6) + I32At(text, i + 2))) else None
  {
    hide I32At, Wrap64;
    WrapAdd(start + i, 6);
    WrapAdd(start + i + 6, I32At(text, i + 2));
  }

  lemma SlotVaChain(itab: Itab, k: nat)
    ensures SlotVa(itab, k) == Wrap64(Wrap64(itab.addr as int + 40) + Wrap64(k * 8))
  {
    hide Wrap64;
    WrapAdd(itab.addr + 40, Wrap64(k * 8));
    WrapAdd(k * 8, itab.addr + 40);
  }

  method ScanIndirectItabForSlotAmd64(text: seq<byte>, start: u64, itab: Itab, k: nat, p: Table)
    returns (out: seq<SlotCall>)
    ensures out == SlotCalls(p, text, start, itab, k, SatSub(|text|, 5))
  {
    hide I32At, Wrap64, FunctionFor, SlotTarget, SlotVa;
    SlotVaChain(itab, k);
    var slotVa := Wrap64(Wrap64(itab.addr as int + ITAB_HEADER_BYTES) + Wrap64(k * ITAB_SLOT_BYTES));
    var name := if k < |itab.methods| then Some(itab.methods[k]) else None;
    out := [];
    var i := 0;
    while i + 6 <= |text|
      invariant i <= SatSub(|text|, 5)
      invariant out == SlotCalls(p, text, start, itab, k, i)
    {
      SlotChain(text, start, i);
      if text[i] == 0xff && text[i + 1] == 0x15 {
        var disp := I32At(text, i + 2);
        var site := Wrap64(start + i);
        var resolved := Wrap64(Wrap64(site as int + 6) + disp);
        if resolved == slotVa {
          var caller := Lookup(p, site);
          out := out + [SlotCall(site, caller, itab.addr, k, name)];
        }
      }
      i := i + 1;
    }
  }

  // Every call through the slot is reported, and nothing else.
  lemma {:induction false} SlotCallsExact(p: Table, text: seq<byte>, start: u64, itab: Itab, k: nat, n: nat,
      c: SlotCall)
    requires n > 0 ==> n + 5 <= |text|
    ensures c in SlotCalls(p, text, start, itab, k, n) <==>
      exists i: nat ::
        && i < n && SlotTarget(text, start, i) == Some(SlotVa(itab, k)) && c.site == Wrap64(start + i)
        && c.caller == FunctionFor(p, c.site) && c.itabAddr == itab.addr && c.methodIndex == k
        && c.name == if k < |itab.methods| then Some(itab.methods[k]) else None
  {
    hide SlotTarget, SlotVa, FunctionFor, Wrap64;
    if n > 0 {
      SlotCallsExact(p, text, start, itab, k, n - 1, c);
    }
  }

  // The test encoder: the displacement is truncated to 32 bits.
  function EncodeCallRipRel(at: u64, target: u64): (s: seq<byte>)
    ensures |s| == 6
  {
    var next := Wrap64(at as int + 6);
    [0xff, 0x15] + ToLe(Wrap32(AsI32(AsI64(AsI64(target) - AsI64(next)))), 4)
  }

  // An encoded call is seen to go through its target exactly when the displacement fits 32 bits.
  lemma EncodedSlotCallSeen(text: seq<byte>, start: u64, i: nat, target: u64)
    requires i + 6 <= |text| && text[i..i + 6] == EncodeCallRipRel(Wrap64(start + i), target)
    ensures SlotTarget(text, start, i) == Some(target)
       <==> -0x8000_0000 <= AsI64(target - (start + i + 6)) < 0x8000_0000
  {
    hide ToLe, FromLe;
    var disp := AsI64(target - (start + i + 6));
    DisplacementIs(Wrap64(start + i), start + i, target);
    assert text[i] == text[i..i + 6][0] && text[i + 1] == text[i..i + 6][1];
    assert text[i + 2..i + 6] == text[i..i + 6][2..] == ToLe(Wrap32(AsI32(disp)), 4);
    I32RoundTrip(AsI32(disp));
    Truncated(start + i + 6, target, disp);
  }

  lemma SlotCallWasEncoded(text: seq<byte>, start: u64, i: nat) returns (disp: i32)
    requires i + 6 <= |text| && SlotTarget(text, start, i).Some?
    ensures text[i..i + 6] == [0xff, 0x15] + ToLe(Wrap32(disp), 4)
  {
    hide ToLe, FromLe, Pow256;
    var b := text[i + 2..i + 6];
    LeBack(b);
    LeBound(b);
    Pow256Values();
    disp := AsI32(FromLe(b));
    assert text[i..i + 6] == [text[i], text[i + 1]] + b;
  }

  lemma DisplacementIs(at: u64, a: int, target: u64)
    requires at == Wrap64(a)
    ensures AsI64(AsI64(target) - AsI64(Wrap64(at as int + 6))) == AsI64(target - (a + 6))
  {
    hide AsI64, Wrap64;
    var next := Wrap64(at as int + 6);
    WrapAdd(a, 6);
    var t, n := (target - AsI64(target)) / U64, (next - AsI64(next)) / U64;
    SignedIs(target);
    SignedIs(next);
    var q := (a + 6 - next) / U64;
    WrapIs(a + 6);
    SignedShift(target - (a + 6), n + q - t);
  }

  lemma SignedIs(x: int)
    ensures x == AsI64(x) + 0x1_0000_0000_0000_0000 * ((x - AsI64(x)) / 0x1_0000_0000_0000_0000)
  {
  }

  lemma WrapIs(x: int)
    ensures x == Wrap64(x) + 0x1_0000_0000_0000_0000 * ((x - Wrap64(x)) / 0x1_0000_0000_0000_0000)
  {
  }

  lemma SignedShift(x: int, k: int)
    ensures AsI64(x + 0x1_0000_0000_0000_0000 * k) == AsI64(x)
  {
  }

  lemma Truncated(next: int, target: u64, disp: i64)
    requires disp == AsI64(target - next)
    ensures Wrap64(next + AsI32(disp)) == target <==> -0x8000_0000 <= disp < 0x8000_0000
  {
    hide Wrap64, AsI64, AsI32;
    NarrowKeeps(disp);
    OneDistance(next, target, AsI32(disp));
  }

  lemma NarrowKeeps(disp: i64)
    ensures AsI32(disp) == disp <==> -0x8000_0000 <= disp < 0x8000_0000
  {
  }

  // One signed 64-bit distance leads from an address to another.
  lemma OneDistance(next: int, target: u64, d: i64)
    ensures Wrap64(next + d) == target <==> d == AsI64(target - next)
  {
    var w := (target - next) % 0x1_0000_0000_0000_0000;
    WrapIs(target - next);
    WrapIs(next + d);
  }

  // Where the itab reader finds method k's pointer: after a header of two pointers and eight bytes.
  function ReaderSlot(itab: Itab, k: nat): u64 { Wrap64(itab.addr + (2 * 8 + 8) + k * 8) }

  // The scanner's header is sixteen bytes longer, so the slot it calls k is the reader's k + 2.
  lemma SlotsDisagree(itab: Itab, k: nat)
    ensures SlotVa(itab, k) == ReaderSlot(itab, k + 2) && SlotVa(itab, k) != ReaderSlot(itab, k)
  {
  }
}
