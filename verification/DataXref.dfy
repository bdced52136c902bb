/** Static references from the text to data: the scan for one target, and the sweep collecting all targets. */
module DataXref {
  import opened Wrappers
  import opened Bytes
  import opened Bits
  import opened WordList
  import opened Pclntab

  datatype Kind = Lea | MovLoad | MovStore | Cmp | CallIndirect

  datatype Direction = Readers | Writers | Both

  datatype Hit = Hit(pc: u64, caller: Option<Function>, target: u64, kind: Kind)

  predicate Wants(d: Direction, k: Kind) {
    match d
    case Readers => !k.MovStore?
    case Writers => k.MovStore?
    case Both => true
  }

  // ----- instructions -----

  // The ModR/M byte selects [rip+disp32].
  predicate RipRelative(modrm: byte) { And(modrm, 0xC7) == 0x05 }

  function RegField(modrm: byte): nat { And(modrm / 8, 0x7) }

  function KindOfOpcode(op: byte): Option<Kind> {
    if op == 0x8D then Some(Lea)
    else if op == 0x8B then Some(MovLoad)
    else if op == 0x89 then Some(MovStore)
    else if op == 0x39 || op == 0x3B then Some(Cmp)
    else None
  }

  // What the sweep recognises at one position: how far to advance and the reference, if any.
  datatype Insn = Insn(size: nat, kind: Option<Kind>)

  function InsnAt(text: seq<byte>, i: nat): (r: Insn)
    requires i + 7 <= |text|
    ensures r.size in {1, 6, 7} && (r.size == 1 ==> r.kind.None?)
  {
    if text[i] == 0xff && RipRelative(text[i + 1]) then
      Insn(6, if RegField(text[i + 1]) in {2, 4} then Some(CallIndirect) else None)
    else if text[i] == 0x48 && RipRelative(text[i + 2]) && KindOfOpcode(text[i + 1]).Some? then
      Insn(7, KindOfOpcode(text[i + 1]))
    else Insn(1, None)
  }

  lemma EvenMask(x: nat, m: nat)
    ensures And(x, 2 * m) == 2 * And(x / 2, m)
  {
    assert 2 * m / 2 == m && 2 * m % 2 == 0;
    if x == 0 {
      assert And(x / 2, m) == 0;
    }
  }

  // Mask 0xC7 is the three low bits and the two top ones.
  lemma MaskC7(x: nat)
    requires x < 256
    ensures And(x, 0xC7) == x % 8 + 64 * (x / 64)
  {
    hide And;
    AndOdd(x, 0x63);
    AndOdd(x / 2, 0x31);
    AndOdd(x / 2 / 2, 0x18);
    Halvings(x);
    Mask18(x / 8);
  }

  lemma Mask18(y: nat)
    ensures And(y, 0x18) == 8 * (y / 2 / 2 / 2 % 4)
  {
    hide And;
    EvenMask(y, 0xC);
    EvenMask(y / 2, 0x6);
    EvenMask(y / 2 / 2, 0x3);
    LowBits(y / 2 / 2 / 2);
  }

  lemma Halvings(x: nat)
    ensures x / 2 / 2 / 2 == x / 8 && x / 8 / 2 / 2 / 2 == x / 64
    ensures x % 2 + 2 * (x / 2 % 2) + 4 * (x / 2 / 2 % 2) == x % 8
  {
  }

  lemma LowBits(x: nat)
    ensures And(x, 3) == x % 4 && And(x, 7) == x % 8
  {
    assert Pow2(2) == 4 && Pow2(3) == 8;
    AndLowMask(x, 2);
    AndLowMask(x, 3);
  }

  // Mod must be 00 and r/m 101.
  lemma RipRelativeIs(modrm: byte)
    ensures RipRelative(modrm) <==> modrm / 64 == 0 && modrm % 8 == 5
    ensures RegField(modrm) == modrm / 8 % 8
  {
    hide And;
    MaskC7(modrm);
    LowBits(modrm / 8);
  }

  // The only two bytes after FF that make an indirect CALL or JMP through memory.
  lemma IndirectForms(modrm: byte)
    ensures RipRelative(modrm) && RegField(modrm) in {2, 4} <==> modrm in {0x15, 0x25}
  {
    hide RipRelative, RegField;
    RipRelativeIs(modrm);
  }

  // ----- the references of a text -----

  datatype Ref = Ref(pc: u64, target: u64, kind: Kind)

  function RefAt(text: seq<byte>, start: u64, i: nat): Option<Ref>
    requires i + 7 <= |text|
  {
    var insn := InsnAt(text, i);
    match insn.kind
    case None => None
    case Some(kind) =>
      Some(Ref(Wrap64(start + i), Wrap64(start + i + insn.size + I32At(text, i + insn.size - 4)), kind))
  }

  // The instructions with a reference, on a register and a displacement from the next instruction.
  datatype Asm =
    | LoadAddress(reg: nat, disp: i32) | Load(reg: nat, disp: i32) | Store(reg: nat, disp: i32)
    | CompareMemory(reg: nat, disp: i32) | CompareRegister(reg: nat, disp: i32)
    | CallThrough(disp: i32) | JumpThrough(disp: i32)

  // Their bytes: REX.W, opcode and ModR/M, or FF and ModR/M, then the displacement.
  function Assemble(a: Asm): seq<byte>
    requires !a.CallThrough? && !a.JumpThrough? ==> a.reg < 8
  {
    (match a
     case LoadAddress(reg, _) => [0x48, 0x8D, 8 * reg + 5]
     case Load(reg, _) => [0x48, 0x8B, 8 * reg + 5]
     case Store(reg, _) => [0x48, 0x89, 8 * reg + 5]
     case CompareMemory(reg, _) => [0x48, 0x39, 8 * reg + 5]
     case CompareRegister(reg, _) => [0x48, 0x3B, 8 * reg + 5]
     case CallThrough(_) => [0xff, 0x15]
     case JumpThrough(_) => [0xff, 0x25]) + ToLe(Wrap32(a.disp), 4)
  }

  function KindFor(a: Asm): Kind {
    match a
    case LoadAddress(_, _) => Lea
    case Load(_, _) => MovLoad
    case Store(_, _) => MovStore
    case CompareMemory(_, _) => Cmp
    case CompareRegister(_, _) => Cmp
    case _ => CallIndirect
  }

  // The instruction lies at i, and r is its reference.
  ghost predicate Stands(text: seq<byte>, start: u64, i: nat, a: Asm, r: Ref) {
    && (!a.CallThrough? && !a.JumpThrough? ==> a.reg < 8)
    && MatchesAt(text, i, Assemble(a))
    && r == Ref((start + i) % 0x1_0000_0000_0000_0000,
                (start + i + |Assemble(a)| + a.disp) % 0x1_0000_0000_0000_0000, KindFor(a))
  }

  lemma DisplacementRead(text: seq<byte>, at: nat, disp: i32)
    requires at + 4 <= |text|
    ensures I32At(text, at) == disp <==> text[at..at + 4] == ToLe(Wrap32(disp), 4)
  {
    hide ToLe, FromLe, Pow256;
    var b := text[at..at + 4];
    LeBack(b);
    LeBound(b);
    LeRoundTrip(Wrap32(disp), 4);
    Pow256Values();
  }

  lemma HeadAndDisplacement(text: seq<byte>, i: nat, head: seq<byte>, disp: i32)
    requires |head| <= 3 && i + 7 <= |text|
    ensures MatchesAt(text, i, head + ToLe(Wrap32(disp), 4))
       <==> text[i..i + |head|] == head && I32At(text, i + |head|) == disp
  {
    hide ToLe, I32At;
    DisplacementRead(text, i + |head|, disp);
    HeldPair(text, i, head, ToLe(Wrap32(disp), 4));
  }

  // What is assembled at i is what is found there ...
  lemma AssembledSeen(text: seq<byte>, start: u64, i: nat, a: Asm, r: Ref)
    requires i + 7 <= |text| && Stands(text, start, i, a, r)
    ensures RefAt(text, start, i) == Some(r)
  {
    hide ToLe, I32At, RipRelative, RegField, MatchesAt;
    var head := Assemble(a)[..|Assemble(a)| - 4];
    HeadAndDisplacement(text, i, head, a.disp);
    assert Assemble(a) == head + ToLe(Wrap32(a.disp), 4);
    assert text[i] == text[i..i + |head|][0] && text[i + 1] == text[i..i + |head|][1];
    RipRelativeIs(text[i + 1]);
    if |head| == 3 {
      assert text[i + 2] == text[i..i + |head|][2];
      RipRelativeIs(text[i + 2]);
    }
  }

  // ... and whatever is found at i was assembled so.
  lemma SeenAssembled(text: seq<byte>, start: u64, i: nat) returns (a: Asm)
    requires i + 7 <= |text| && RefAt(text, start, i).Some?
    ensures Stands(text, start, i, a, RefAt(text, start, i).value)
  {
    hide ToLe, I32At, RipRelative, RegField, MatchesAt;
    if text[i] == 0xff && RipRelative(text[i + 1]) {
      var disp := I32At(text, i + 2);
      IndirectForms(text[i + 1]);
      a := if text[i + 1] == 0x15 then CallThrough(disp) else JumpThrough(disp);
      assert text[i..i + 2] == [text[i], text[i + 1]];
      HeadAndDisplacement(text, i, [text[i], text[i + 1]], disp);
    } else {
      var disp, modrm := I32At(text, i + 3), text[i + 2];
      RipRelativeIs(modrm);
      var reg: nat := modrm / 8;
      assert modrm == 8 * reg + 5;
      a := match text[i + 1]
        case 0x8D => LoadAddress(reg, disp)
        case 0x8B => Load(reg, disp)
        case 0x89 => Store(reg, disp)
        case 0x39 => CompareMemory(reg, disp)
        case _ => CompareRegister(reg, disp);
      assert text[i..i + 3] == [text[i], text[i + 1], modrm];
      HeadAndDisplacement(text, i, [text[i], text[i + 1], modrm], disp);
    }
  }

  // Everything else advances the sweep by one byte, but FF with a memory operand relative to the next
  // instruction by six.
  lemma SizeExactly(text: seq<byte>, start: u64, i: nat)
    requires i + 7 <= |text|
    ensures InsnAt(text, i).size ==
      if text[i] == 0xff && text[i + 1] / 64 == 0 && text[i + 1] % 8 == 5 then 6
      else if RefAt(text, start, i).Some? then 7
      else 1
  {
    hide I32At, RipRelative, RegField;
    RipRelativeIs(text[i + 1]);
  }

  // The references found sweeping from i on, each instruction recognised being skipped whole.
  function Refs(text: seq<byte>, start: u64, i: nat): seq<Ref>
    decreases |text| - i
  {
    if i + 7 > |text| then []
    else
      var rest := Refs(text, start, i + InsnAt(text, i).size);
      match RefAt(text, start, i) case Some(r) => [r] + rest case None => rest
  }

  function HitOf(p: Table, r: Ref): Hit { Hit(r.pc, FunctionFor(p, r.pc), r.target, r.kind) }

  // The hits among the references.
  function Hits(p: Table, refs: seq<Ref>, target: u64, d: Direction): seq<Hit> {
    if refs == [] then []
    else
      var rest := Hits(p, refs[1..], target, d);
      if refs[0].target == target && Wants(d, refs[0].kind) then [HitOf(p, refs[0])] + rest else rest
  }

  lemma RefsStep(p: Table, text: seq<byte>, start: u64, i: nat, target: u64, d: Direction)
    requires i + 7 <= |text|
    ensures var rest := Hits(p, Refs(text, start, i + InsnAt(text, i).size), target, d);
      Hits(p, Refs(text, start, i), target, d) == (match RefAt(text, start, i)
        case Some(r) => if r.target == target && Wants(d, r.kind) then [HitOf(p, r)] + rest else rest
        case None => rest)
  {
    hide RefAt, InsnAt, HitOf;
    var rest := Refs(text, start, i + InsnAt(text, i).size);
    if RefAt(text, start, i).Some? {
      assert ([RefAt(text, start, i).value] + rest)[1..] == rest;
    }
  }

  lemma TargetChain(text: seq<byte>, start: u64, i: nat)
    requires i + 7 <= |text|
    ensures var insn := InsnAt(text, i);
      insn.kind.Some? ==> RefAt(text, start, i) == Some(Ref(
        Wrap64(start + i), Wrap64(Wrap64(start + i + insn.size) + I32At(text, i + insn.size - 4)), insn.kind.value))
    ensures InsnAt(text, i).kind.None? ==> RefAt(text, start, i) == None
  {
    hide I32At, InsnAt, Wrap64;
    var size := InsnAt(text, i).size;
    if size > 1 {
      WrapOnce(start + i + size, I32At(text, i + size - 4));
    }
  }

  lemma WrapOnce(a: int, b: int)
    ensures Wrap64(Wrap64(a) + b) == Wrap64(a + b)
  {
  }

  method ScanAmd64(text: seq<byte>, start: u64, target: u64, d: Direction, p: Table) returns (out: seq<Hit>)
    ensures out == Hits(p, Refs(text, start, 0), target, d)
  {
    hide Hits, RefAt, I32At, RipRelative, RegField, Wrap64, FunctionFor;
    out := [];
    var i := 0;
    while i + 7 <= |text|
      invariant out + Hits(p, Refs(text, start, i), target, d) == Hits(p, Refs(text, start, 0), target, d)
      decreases |text| - i
    {
      RefsStep(p, text, start, i, target, d);
      TargetChain(text, start, i);
      ghost var was, at := out, i;
      var b := text[i];
      if b == 0xff && RipRelative(text[i + 1]) {
        var reg := RegField(text[i + 1]);
        if reg == 2 || reg == 4 {
          var disp := I32At(text, i + 2);
          var next := Wrap64(start + i + 6);
          if Wrap64(next + disp) == target && Wants(d, CallIndirect) {
            var hit := MakeHit(Wrap64(start + i), target, CallIndirect, p);
            out := out + [hit];
          }
        }
        i := i + 6;
      } else if b == 0x48 && RipRelative(text[i + 2]) && KindOfOpcode(text[i + 1]).Some? {
        var kind := KindOfOpcode(text[i + 1]).value;
        var disp := I32At(text, i + 3);
        var next := Wrap64(start + i + 7);
        if Wrap64(next + disp) == target && Wants(d, kind) {
          var hit := MakeHit(Wrap64(start + i), target, kind, p);
          out := out + [hit];
        }
        i := i + 7;
      } else {
        i := i + 1;
      }
      HitTaken(was, out, Hits(p, Refs(text, start, at), target, d), Hits(p, Refs(text, start, i), target, d));
    }
    NoMoreHits(p, text, start, i, target, d);
  }

  lemma HitTaken(was: seq<Hit>, out: seq<Hit>, before: seq<Hit>, after: seq<Hit>)
    requires (out == was && before == after) || exists h :: out == was + [h] && before == [h] + after
    ensures out + after == was + before
  {
    if h :| out == was + [h] && before == [h] + after {
      assert was + [h] + after == was + ([h] + after);
    }
  }

  lemma NoMoreHits(p: Table, text: seq<byte>, start: u64, i: nat, target: u64, d: Direction)
    requires i + 7 > |text|
    ensures Hits(p, Refs(text, start, i), target, d) == []
  {
  }

  method MakeHit(pc: u64, target: u64, kind: Kind, p: Table) returns (h: Hit)
    ensures h == HitOf(p, Ref(pc, target, kind))
  {
    hide FunctionFor;
    var containing := Lookup(p, pc);
    h := Hit(pc, containing, target, kind);
  }

  // The addresses referenced.
  ghost function Targets(refs: seq<Ref>): set<u64> { set r | r in refs :: r.target }

  method ScanTextAmd64(text: seq<byte>, start: u64) returns (out: set<u64>)
    ensures out == Targets(Refs(text, start, 0))
  {
    hide RefAt, I32At, RipRelative, RegField, Wrap64;
    out := {};
    var i := 0;
    while i + 7 <= |text|
      invariant out + Targets(Refs(text, start, i)) == Targets(Refs(text, start, 0))
      decreases |text| - i
    {
      TargetChain(text, start, i);
      TargetsStep(text, start, i);
      var b := text[i];
      if b == 0xff && RipRelative(text[i + 1]) {
        var reg := RegField(text[i + 1]);
        if reg == 2 || reg == 4 {
          var disp := I32At(text, i + 2);
          var next := Wrap64(start + i + 6);
          out := out + {Wrap64(next + disp)};
        }
        i := i + 6;
      } else if b == 0x48 && RipRelative(text[i + 2]) && text[i + 1] in {0x8D, 0x8B, 0x89, 0x39, 0x3B} {
        var disp := I32At(text, i + 3);
        var next := Wrap64(start + i + 7);
        out := out + {Wrap64(next + disp)};
        i := i + 7;
      } else {
        i := i + 1;
      }
    }
  }

  lemma TargetsStep(text: seq<byte>, start: u64, i: nat)
    requires i + 7 <= |text|
    ensures var rest := Targets(Refs(text, start, i + InsnAt(text, i).size));
      Targets(Refs(text, start, i))
        == match RefAt(text, start, i) case Some(r) => {r.target} + rest case None => rest
  {
    hide RefAt, InsnAt;
  }

  // ----- the two agree -----

  // An address is in the set exactly when the scan for it, in both directions, finds something.
  lemma {:induction false} SetAgreesWithScan(p: Table, refs: seq<Ref>, target: u64)
    ensures target in Targets(refs) <==> Hits(p, refs, target, Both) != []
    decreases |refs|
  {
    hide HitOf;
    if refs != [] {
      assert refs == [refs[0]] + refs[1..];
      SetAgreesWithScan(p, refs[1..], target);
      assert Targets(refs) == {refs[0].target} + Targets(refs[1..]);
    }
  }

  // A hit is a reference to the target in a direction asked for, with the function its instruction is in.
  lemma {:induction false} HitsExact(p: Table, refs: seq<Ref>, target: u64, d: Direction, h: Hit)
    ensures h in Hits(p, refs, target, d) <==>
      && Ref(h.pc, target, h.kind) in refs && h.target == target && h.caller == FunctionFor(p, h.pc)
      && (d == Readers ==> h.kind != MovStore) && (d == Writers ==> h.kind == MovStore)
    decreases |refs|
  {
    hide FunctionFor;
    if refs != [] {
      HitsExact(p, refs[1..], target, d, h);
      assert refs == [refs[0]] + refs[1..];
    }
  }

  // The hits that write, or that do not, in order.
  function Only(hits: seq<Hit>, writes: bool): seq<Hit> {
    if hits == [] then []
    else
      var rest := Only(hits[1..], writes);
      if hits[0].kind.MovStore? == writes then [hits[0]] + rest else rest
  }

  // Readers and writers are an order-preserving partition of all hits.
  lemma DirectionsPartition(p: Table, refs: seq<Ref>, target: u64)
    ensures var both := Hits(p, refs, target, Both);
      && Hits(p, refs, target, Readers) == Only(both, false)
      && Hits(p, refs, target, Writers) == Only(both, true)
      && |Hits(p, refs, target, Readers)| + |Hits(p, refs, target, Writers)| == |both|
      && multiset(Hits(p, refs, target, Readers)) + multiset(Hits(p, refs, target, Writers)) == multiset(both)
  {
    DirectionsFilter(p, refs, target);
    OnlyPartition(Hits(p, refs, target, Both));
  }

  lemma {:induction false} DirectionsFilter(p: Table, refs: seq<Ref>, target: u64)
    ensures var both := Hits(p, refs, target, Both);
      && Hits(p, refs, target, Readers) == Only(both, false)
      && Hits(p, refs, target, Writers) == Only(both, true)
    decreases |refs|
  {
    hide FunctionFor;
    if refs != [] {
      DirectionsFilter(p, refs[1..], target);
      var h, rest := HitOf(p, refs[0]), Hits(p, refs[1..], target, Both);
      assert ([h] + rest)[1..] == rest;
    }
  }

  lemma {:induction false} OnlyPartition(hits: seq<Hit>)
    ensures |Only(hits, false)| + |Only(hits, true)| == |hits|
    ensures multiset(Only(hits, false)) + multiset(Only(hits, true)) == multiset(hits)
  {
    if hits != [] {
      OnlyPartition(hits[1..]);
      assert hits == [hits[0]] + hits[1..];
    }
  }

  // In text order, in instructions that do not overlap, all of them inside the text from i on.
  ghost predicate Ascending(refs: seq<Ref>, lo: int, hi: int) {
    && (forall k :: 0 <= k < |refs| ==> lo <= refs[k].pc <= hi - 7)
    && (forall j, k :: 0 <= j < k < |refs| ==> refs[j].pc as int + 6 <= refs[k].pc)
  }

  lemma AscendingCons(r: Ref, rest: seq<Ref>, lo: int, hi: int)
    requires Ascending(rest, r.pc as int + 6, hi) && lo <= r.pc <= hi - 7
    ensures Ascending([r] + rest, lo, hi)
  {
    var refs := [r] + rest;
    forall k | 0 < k < |refs| ensures r.pc as int + 6 <= refs[k].pc <= hi - 7 {
      assert refs[k] == rest[k - 1];
    }
    forall j, k | 0 < j < k < |refs| ensures refs[j].pc as int + 6 <= refs[k].pc {
      assert refs[j] == rest[j - 1] && refs[k] == rest[k - 1];
    }
  }

  lemma {:induction false} RefsAscend(text: seq<byte>, start: u64, i: nat)
    requires start + |text| <= U64
    ensures Ascending(Refs(text, start, i), start + i, start + |text|)
    decreases |text| - i
  {
    hide InsnAt, RefAt, Ascending;
    if i + 7 > |text| {
      NoneAscend(start + i, start + |text|);
    } else {
      var size := InsnAt(text, i).size;
      RefsAscend(text, start, i + size);
      RefPlace(text, start, i);
      var rest := Refs(text, start, i + size);
      if RefAt(text, start, i).Some? {
        AscendingWeaken(rest, start + i + size, start + i + 6, start + |text|);
        AscendingCons(RefAt(text, start, i).value, rest, start + i, start + |text|);
      } else {
        AscendingWeaken(rest, start + i + size, start + i, start + |text|);
      }
    }
  }

  lemma NoneAscend(lo: int, hi: int)
    ensures Ascending([], lo, hi)
  {
  }

  lemma AscendingWeaken(refs: seq<Ref>, from: int, lo: int, hi: int)
    requires Ascending(refs, from, hi) && lo <= from
    ensures Ascending(refs, lo, hi)
  {
  }

  lemma RefPlace(text: seq<byte>, start: u64, i: nat)
    requires i + 7 <= |text| && start + |text| <= U64
    ensures RefAt(text, start, i).Some? ==> RefAt(text, start, i).value.pc == start + i && InsnAt(text, i).size >= 6
  {
    hide InsnAt, I32At;
  }

  // The sweep from `from` stops at i: it is where an instruction it recognises, or a skipped byte, ends.
  predicate Swept(text: seq<byte>, from: nat, i: nat)
    decreases |text| - from
  {
    i == from || (from + 7 <= |text| && Swept(text, from + InsnAt(text, from).size, i))
  }

  // The references found are exactly those decoded where the sweep stops with seven bytes left.
  lemma {:induction false} RefsExact(text: seq<byte>, start: u64, from: nat, r: Ref)
    ensures r in Refs(text, start, from) <==>
      exists i: nat :: Swept(text, from, i) && i + 7 <= |text| && RefAt(text, start, i) == Some(r)
    decreases |text| - from
  {
    hide InsnAt, RefAt;
    if from + 7 <= |text| {
      var next := from + InsnAt(text, from).size;
      RefsExact(text, start, next, r);
      if i: nat :| Swept(text, from, i) && i + 7 <= |text| && RefAt(text, start, i) == Some(r) {
        assert i == from || Swept(text, next, i);
      }
      if i: nat :| Swept(text, next, i) && i + 7 <= |text| && RefAt(text, start, i) == Some(r) {
        assert Swept(text, from, i);
      }
      assert Swept(text, from, from);
    } else {
      forall i: nat | Swept(text, from, i) ensures i == from {
      }
    }
  }

  // An indirect CALL or JMP at i, in any text, is reported exactly when the sweep stops there and seven
  // bytes are left: never when it starts in the last six.
  lemma CallReported(text: seq<byte>, start: u64, from: nat, i: nat)
    requires start + |text| <= U64 && i + 6 <= |text|
    requires text[i] == 0xff && text[i + 1] in {0x15, 0x25}
    ensures (exists r :: r in Refs(text, start, from) && r.pc == start + i) <==> Swept(text, from, i) && i + 7 <= |text|
  {
    hide InsnAt, RefAt, Swept, Refs, I32At;
    if Swept(text, from, i) && i + 7 <= |text| {
      CallDecodes(text, start, i);
      RefsExact(text, start, from, RefAt(text, start, i).value);
    }
    forall r | r in Refs(text, start, from) && r.pc == start + i ensures Swept(text, from, i) && i + 7 <= |text| {
      RefsExact(text, start, from, r);
      var j: nat :| Swept(text, from, j) && j + 7 <= |text| && RefAt(text, start, j) == Some(r);
      RefPlace(text, start, j);
    }
  }

  lemma CallDecodes(text: seq<byte>, start: u64, i: nat)
    requires start + |text| <= U64 && i + 7 <= |text| && text[i] == 0xff && text[i + 1] in {0x15, 0x25}
    ensures RefAt(text, start, i).Some? && RefAt(text, start, i).value.pc == start + i
  {
    hide RipRelative, RegField, I32At;
    IndirectForms(text[i + 1]);
    RefPlace(text, start, i);
  }

  // For example, alone in six bytes it is not seen, and with one byte more behind it it is.
  lemma LastCallMissed(disp: seq<byte>, start: u64)
    requires |disp| == 4
    ensures Refs([0xff, 0x15] + disp, start, 0) == []
    ensures Refs([0xff, 0x15] + disp + [0x90], start, 0) != []
  {
    var text: seq<byte> := [0xff, 0x15] + disp + [0x90];
    assert text[0] == 0xff && text[1] == 0x15;
    IndirectForms(0x15);
    assert RefAt(text, start, 0).Some?;
  }
}
