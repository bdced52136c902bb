/** Type recovery: the worklist closure over child references, and the linear scan of the full mode.
    Decoding one type header is a parameter, a function of the address. */
module TypeGraph {
  import opened Wrappers
  import opened Bytes
  import opened GoBin

  datatype KindData =
    | NoData
    | Pointer(elem: u64)
    | Slice(elem: u64)
    | Array(elem: u64, len: u64)
    | Chan(elem: u64, dir: u64)
    | Map(key: u64, elem: u64, bucket: Option<u64>)
    | Struct(fields: seq<StructField>)
    | Interface(methods: seq<InterfaceMethod>)
    | Func(inTypes: seq<u64>, outTypes: seq<u64>, variadic: bool)

  datatype StructField = StructField(name: string, typ: u64, offset: u64)

  datatype InterfaceMethod = InterfaceMethod(name: string, typ: u64)

  datatype Type = Type(addr: u64, name: string, size: u64, kind: nat, kindData: KindData)

  // What the linear scan accepts: sized, of a known kind, with a resolved name.
  predicate Plausible(t: Type) {
    t.size > 0 && 1 <= t.kind <= 26 && t.name != "" && !("type@0x" <= t.name)
  }

  type Parser = u64 -> Option<Type>

  const HEADER_SIZE: nat := 48
  const MAX_TYPELINKS := 5_000_000

  function ChildAddrs(kd: KindData): seq<u64> {
    match kd
    case Pointer(elem) => [elem]
    case Slice(elem) => [elem]
    case Array(elem, _) => [elem]
    case Chan(elem, _) => [elem]
    case Map(key, elem, bucket) => [key, elem] + (if bucket.Some? then [bucket.value] else [])
    case Struct(fields) => seq(|fields|, i requires 0 <= i < |fields| => fields[i].typ)
    case Interface(methods) => seq(|methods|, i requires 0 <= i < |methods| => methods[i].typ)
    case Func(inTypes, outTypes, _) => inTypes + outTypes
    case NoData => []
  }

  // What a type of each kind refers to.
  ghost predicate Mentions(kd: KindData, a: u64) {
    match kd
    case Pointer(elem) => a == elem
    case Slice(elem) => a == elem
    case Array(elem, _) => a == elem
    case Chan(elem, _) => a == elem
    case Map(key, elem, bucket) => a == key || a == elem || bucket == Some(a)
    case Struct(fields) => exists f :: f in fields && f.typ == a
    case Interface(methods) => exists m :: m in methods && m.typ == a
    case Func(inTypes, outTypes, _) => a in inTypes || a in outTypes
    case NoData => false
  }

  // How many references a type of each kind holds.
  ghost function Degree(kd: KindData): nat {
    match kd
    case NoData => 0
    case Map(_, _, bucket) => if bucket.Some? then 3 else 2
    case Struct(fields) => |fields|
    case Interface(methods) => |methods|
    case Func(inTypes, outTypes, _) => |inTypes| + |outTypes|
    case _ => 1
  }

  // The children queued for a type are what it refers to, once for each reference.
  lemma ChildAddrsExact(kd: KindData, a: u64)
    ensures a in ChildAddrs(kd) <==> Mentions(kd, a)
    ensures |ChildAddrs(kd)| == Degree(kd)
  {
    match kd
    case Struct(fields) =>
      assert forall i :: 0 <= i < |fields| ==> ChildAddrs(kd)[i] == fields[i].typ;
      assert forall f :: f in fields ==> exists i :: 0 <= i < |fields| && fields[i] == f;
    case Interface(methods) =>
      assert forall i :: 0 <= i < |methods| ==> ChildAddrs(kd)[i] == methods[i].typ;
      assert forall m :: m in methods ==> exists i :: 0 <= i < |methods| && methods[i] == m;
    case _ =>
  }

  // The types region [lo, hi).
  datatype Region = Region(lo: u64, hi: u64) {
    predicate Has(a: u64) { lo <= a < hi }

    // As many 48-byte headers as the region has room for.
    function MaxTypes(): (n: nat)
      ensures if lo <= hi then n * 48 <= hi - lo < (n + 1) * 48 else n == 0
    {
      SatSub(hi, lo) / HEADER_SIZE
    }
  }

  // An address the walk can turn into a type.
  ghost predicate Good(r: Region, parse: Parser, a: u64) { r.Has(a) && parse(a).Some? }

  ghost function Children(parse: Parser, a: u64): seq<u64> {
    if parse(a).Some? then ChildAddrs(parse(a).value.kindData) else []
  }

  // The type at `a` refers to `c`.
  ghost predicate RefersTo(parse: Parser, a: u64, c: u64) {
    parse(a).Some? && Mentions(parse(a).value.kindData, c)
  }

  ghost function OutDegree(parse: Parser, a: u64): nat {
    if parse(a).Some? then Degree(parse(a).value.kindData) else 0
  }

  lemma ChildrenAre(parse: Parser, a: u64)
    ensures forall c: u64 :: c in Children(parse, a) <==> RefersTo(parse, a, c)
    ensures |Children(parse, a)| == OutDegree(parse, a)
  {
    hide ChildAddrs, Mentions, Degree;
    if parse(a).Some? {
      ChildAddrsExact(parse(a).value.kindData, 0);
      forall c: u64 {
        ChildAddrsExact(parse(a).value.kindData, c);
      }
    }
  }

  // A chain of references from a typelink root, all through decodable types of the region.
  ghost predicate Chain(r: Region, parse: Parser, roots: seq<u64>, p: seq<u64>) {
    && p != [] && p[0] in roots
    && (forall i :: 0 <= i < |p| ==> Good(r, parse, p[i]))
    && (forall i :: 0 < i < |p| ==> RefersTo(parse, p[i - 1], p[i]))
  }

  ghost predicate Reachable(r: Region, parse: Parser, roots: seq<u64>, a: u64) {
    exists p :: Chain(r, parse, roots, p) && p[|p| - 1] == a
  }

  // Headers that decode lie inside the region and do not overlap.
  ghost predicate Disjoint(r: Region, parse: Parser) {
    && (forall a: u64 :: Good(r, parse, a) ==> a + 48 <= r.hi)
    && (forall a: u64, b: u64 :: Good(r, parse, a) && Good(r, parse, b) && a < b ==> a + 48 <= b)
  }

  // Worklist invariants: `seen` holds reachable types only; everything queued is reachable if good.
  ghost predicate Sound(r: Region, parse: Parser, roots: seq<u64>, queue: seq<u64>, seen: map<u64, Type>) {
    && (forall a :: a in seen ==> parse(a) == Some(seen[a]) && Reachable(r, parse, roots, a))
    && (forall a :: a in queue && Good(r, parse, a) ==> Reachable(r, parse, roots, a))
  }

  // ... and nothing good has been dropped on the way.
  ghost predicate Covering(r: Region, parse: Parser, roots: seq<u64>, queue: seq<u64>, seen: map<u64, Type>) {
    && (forall a :: a in roots && Good(r, parse, a) ==> a in seen || a in queue)
    && (forall a, c :: a in seen && c in Children(parse, a) && Good(r, parse, c) ==> c in seen || c in queue)
  }

  // The walk terminates on every input. Its result is always within the reachable set and the
  // structural ceiling; it is the whole reachable set when neither bound bit, and under disjoint headers
  // the ceiling never costs anything. The queue cap cannot fire while the roots and all child references
  // of the result number at most four times the ceiling.
  method CloseOverChildren(r: Region, parse: Parser, roots: seq<u64>) returns (seen: map<u64, Type>, ghost capped: bool)
    ensures |seen| <= r.MaxTypes()
    ensures forall a :: a in seen ==> parse(a) == Some(seen[a]) && Reachable(r, parse, roots, a)
    ensures !capped && (|seen| < r.MaxTypes() || Disjoint(r, parse)) ==>
      forall a :: Reachable(r, parse, roots, a) ==> a in seen
    ensures |roots| + References(parse, seen.Keys) <= 4 * r.MaxTypes() ==> !capped
  {
    hide Reachable, Disjoint, References, Sound, Covering, ChildAddrs, RefersTo, OutDegree;
    seen, capped := map[], false;
    var queue := roots;
    Start(r, parse, roots);
    assert seen.Keys == {};
    while queue != []
      invariant |seen| <= r.MaxTypes()
      invariant Sound(r, parse, roots, queue, seen)
      invariant !capped ==> Covering(r, parse, roots, queue, seen)
      invariant |queue| <= |roots| + References(parse, seen.Keys)
      invariant capped ==> |roots| + References(parse, seen.Keys) > 4 * r.MaxTypes()
      decreases r.MaxTypes() - |seen|, |queue|
    {
      ghost var before := queue;
      var addr := queue[|queue| - 1];
      queue := queue[..|queue| - 1];
      assert before == queue + [addr];
      if |seen| >= r.MaxTypes() {
        Ceiling(r, parse, roots, before, seen);
        return;
      }
      Skip(r, parse, roots, queue, addr, seen);
      if addr in seen {
        continue;
      }
      if !r.Has(addr) {
        continue;
      }
      var parsed := parse(addr);
      if parsed.None? {
        continue;
      }
      var children := ChildAddrs(parsed.value.kindData);
      ghost var hit;
      ghost var rest := queue;
      queue, hit := PushChildren(r, queue, children, seen);
      ChildrenAre(parse, addr);
      Expand(r, parse, roots, rest, addr, seen, queue, hit);
      ReferencesInsert(parse, seen.Keys, addr);
      assert seen[addr := parsed.value].Keys == seen.Keys + {addr};
      seen := seen[addr := parsed.value];
      capped := capped || hit;
    }
    if !capped {
      ClosedIsAll(r, parse, roots, seen);
    }
    SoundResult(r, parse, roots, queue, seen);
  }

  lemma Start(r: Region, parse: Parser, roots: seq<u64>)
    ensures Sound(r, parse, roots, roots, map[]) && Covering(r, parse, roots, roots, map[])
    ensures References(parse, {}) == 0
  {
    RootsReachable(r, parse, roots);
  }

  lemma SoundResult(r: Region, parse: Parser, roots: seq<u64>, queue: seq<u64>, seen: map<u64, Type>)
    requires Sound(r, parse, roots, queue, seen)
    ensures forall a :: a in seen ==> parse(a) == Some(seen[a]) && Reachable(r, parse, roots, a)
  {
  }

  lemma Ceiling(r: Region, parse: Parser, roots: seq<u64>, queue: seq<u64>, seen: map<u64, Type>)
    requires Sound(r, parse, roots, queue, seen) && |seen| >= r.MaxTypes()
    ensures forall a :: a in seen ==> parse(a) == Some(seen[a]) && Reachable(r, parse, roots, a)
    ensures Disjoint(r, parse) ==> forall a :: Reachable(r, parse, roots, a) ==> a in seen
  {
    hide Reachable, Disjoint;
    if Disjoint(r, parse) {
      CeilingLosesNothing(r, parse, roots, seen);
    }
  }

  // Dropping a popped address that is already seen or cannot become a type loses nothing.
  lemma Skip(r: Region, parse: Parser, roots: seq<u64>, rest: seq<u64>, addr: u64, seen: map<u64, Type>)
    requires Sound(r, parse, roots, rest + [addr], seen)
    ensures Sound(r, parse, roots, rest, seen)
    ensures Good(r, parse, addr) ==> Reachable(r, parse, roots, addr)
    ensures Covering(r, parse, roots, rest + [addr], seen) && (addr in seen || !Good(r, parse, addr)) ==>
      Covering(r, parse, roots, rest, seen)
  {
    hide Reachable, Children;
    assert addr in rest + [addr];
  }

  // Recording a type and queueing its children keeps both invariants, unless the queue cap dropped some.
  lemma Expand(r: Region, parse: Parser, roots: seq<u64>, rest: seq<u64>, addr: u64, seen: map<u64, Type>,
               queue: seq<u64>, hit: bool)
    requires Sound(r, parse, roots, rest + [addr], seen) && Good(r, parse, addr)
    requires rest <= queue && forall c :: c in queue[|rest|..] ==> c in Children(parse, addr)
    requires !hit ==> forall c :: c in Children(parse, addr) && r.Has(c) ==> c in seen || c in queue
    ensures Sound(r, parse, roots, queue, seen[addr := parse(addr).value])
    ensures !hit && Covering(r, parse, roots, rest + [addr], seen) ==>
        Covering(r, parse, roots, queue, seen[addr := parse(addr).value])
  {
    hide Reachable, Children;
    assert addr in rest + [addr];
    ChildrenReachable(r, parse, roots, addr);
    assert queue == rest + queue[|rest|..];
    forall a | a in rest + [addr] ensures a == addr || a in queue {
    }
  }

  // Queue the children inside the region that are not seen yet, until the queue cap stops it.
  method PushChildren(r: Region, queue: seq<u64>, children: seq<u64>, seen: map<u64, Type>)
    returns (out: seq<u64>, ghost hit: bool)
    ensures queue <= out && |out| <= |queue| + |children|
    ensures forall c :: c in out[|queue|..] ==> c in children
    ensures !hit ==> forall c :: c in children && r.Has(c) ==> c in seen || c in out
    ensures hit ==> |queue| + |children| > 4 * r.MaxTypes()
  {
    out, hit := queue, false;
    var i := 0;
    while i < |children|
      invariant 0 <= i <= |children|
      invariant queue <= out && |out| <= |queue| + i
      invariant forall c :: c in out[|queue|..] ==> c in children
      invariant forall c :: c in children[..i] && r.Has(c) ==> c in seen || c in out
    {
      if |out| >= 4 * r.MaxTypes() {
        hit := true;
        return;
      }
      var child := children[i];
      if r.Has(child) && child !in seen {
        out := out + [child];
      }
      i := i + 1;
    }
  }

  // ----- reachability -----

  lemma RootsReachable(r: Region, parse: Parser, roots: seq<u64>)
    ensures forall a :: a in roots && Good(r, parse, a) ==> Reachable(r, parse, roots, a)
  {
    forall a | a in roots && Good(r, parse, a) ensures Reachable(r, parse, roots, a) {
      assert Chain(r, parse, roots, [a]);
    }
  }

  lemma ChildrenReachable(r: Region, parse: Parser, roots: seq<u64>, a: u64)
    requires Reachable(r, parse, roots, a)
    ensures forall c :: c in Children(parse, a) && Good(r, parse, c) ==> Reachable(r, parse, roots, c)
  {
    hide Children, RefersTo;
    var p :| Chain(r, parse, roots, p) && p[|p| - 1] == a;
    ChildrenAre(parse, a);
    forall c | c in Children(parse, a) && Good(r, parse, c) ensures Reachable(r, parse, roots, c) {
      assert Chain(r, parse, roots, p + [c]);
    }
  }

  lemma {:induction false} ChainInside(r: Region, parse: Parser, roots: seq<u64>, seen: map<u64, Type>, p: seq<u64>)
    requires Covering(r, parse, roots, [], seen) && Chain(r, parse, roots, p)
    ensures p[|p| - 1] in seen
  {
    if |p| > 1 {
      var q := p[..|p| - 1];
      assert Chain(r, parse, roots, q);
      ChainInside(r, parse, roots, seen, q);
      ChildrenAre(parse, q[|q| - 1]);
    }
  }

  lemma ClosedIsAll(r: Region, parse: Parser, roots: seq<u64>, seen: map<u64, Type>)
    requires Covering(r, parse, roots, [], seen)
    ensures forall a :: Reachable(r, parse, roots, a) ==> a in seen
  {
    forall a | Reachable(r, parse, roots, a) ensures a in seen {
      var p :| Chain(r, parse, roots, p) && p[|p| - 1] == a;
      ChainInside(r, parse, roots, seen, p);
    }
  }

  // ----- the ceiling -----

  // Addresses a header apart inside [lo, hi): the region bounds their number.
  lemma {:induction false} Packing(s: set<u64>, lo: nat, hi: nat)
    requires forall a :: a in s ==> lo <= a && a + HEADER_SIZE <= hi
    requires forall a, b :: a in s && b in s && a < b ==> a + HEADER_SIZE <= b
    requires lo <= hi
    ensures |s| * HEADER_SIZE <= hi - lo
    decreases |s|
  {
    if s != {} {
      var m := Largest(s);
      Packing(s - {m}, lo, m);
      assert s == (s - {m}) + {m};
    }
  }

  lemma {:induction false} Largest(s: set<u64>) returns (m: u64)
    requires s != {}
    ensures m in s && forall a :: a in s ==> a <= m
    decreases |s|
  {
    m :| m in s;
    var rest := s - {m};
    if rest != {} {
      var m' := Largest(rest);
      forall a | a in s ensures a <= Max(m, m') {
        assert a == m || a in rest;
      }
      if m < m' {
        m := m';
      }
    }
  }

  lemma GoodFits(r: Region, parse: Parser, s: set<u64>)
    requires Disjoint(r, parse) && forall a :: a in s ==> Good(r, parse, a)
    ensures |s| <= r.MaxTypes()
  {
    if s != {} {
      var a :| a in s;
      assert r.lo < r.hi;
      Packing(s, r.lo, r.hi);
    }
  }

  // Pigeonhole: once the ceiling is reached every reachable type is already there.
  lemma CeilingLosesNothing(r: Region, parse: Parser, roots: seq<u64>, seen: map<u64, Type>)
    requires Disjoint(r, parse) && |seen| >= r.MaxTypes()
    requires forall a :: a in seen ==> Reachable(r, parse, roots, a)
    ensures forall a :: Reachable(r, parse, roots, a) ==> a in seen
  {
    hide Reachable, Disjoint, Good;
    forall a | Reachable(r, parse, roots, a) ensures a in seen {
      ReachableGood(r, parse, roots, a);
      forall b | b in seen ensures Good(r, parse, b) {
        ReachableGood(r, parse, roots, b);
      }
      GoodFits(r, parse, seen.Keys + {a});
      assert a !in seen ==> |seen.Keys + {a}| == |seen| + 1;
    }
  }

  lemma ReachableGood(r: Region, parse: Parser, roots: seq<u64>, a: u64)
    requires Reachable(r, parse, roots, a)
    ensures Good(r, parse, a)
  {
    var p :| Chain(r, parse, roots, p) && p[|p| - 1] == a;
    assert Good(r, parse, p[|p| - 1]);
  }

  // ----- counting references -----

  ghost function References(parse: Parser, s: set<u64>): nat {
    if s == {} then 0
    else
      var a :| a in s;
      OutDegree(parse, a) + References(parse, s - {a})
  }

  lemma {:induction false} ReferencesRemove(parse: Parser, s: set<u64>, x: u64)
    requires x in s
    ensures References(parse, s) == OutDegree(parse, x) + References(parse, s - {x})
    decreases |s|
  {
    hide OutDegree;
    var a :| a in s && References(parse, s) == OutDegree(parse, a) + References(parse, s - {a});
    if a != x {
      ReferencesRemove(parse, s - {a}, x);
      ReferencesRemove(parse, s - {x}, a);
      assert s - {a} - {x} == s - {x} - {a};
    }
  }

  lemma ReferencesInsert(parse: Parser, s: set<u64>, x: u64)
    requires x !in s
    ensures References(parse, s + {x}) == OutDegree(parse, x) + References(parse, s)
  {
    ReferencesRemove(parse, s + {x}, x);
    assert s + {x} - {x} == s;
  }

  // ----- the two recovery modes -----

  datatype TypeError = UnsupportedTarget | TooManyTypelinks | TypelinksUnmapped

  // Each typelink is a signed 32-bit offset from the region's start.
  function TypelinkRoots(r: Region, links: seq<byte>): seq<u64> {
    if |links| < 4 then []
    else [Wrap64(r.lo + AsI32(FromLe(links[..4])))] + TypelinkRoots(r, links[4..])
  }

  function EncodeLinks(offsets: seq<i32>): seq<byte> {
    if offsets == [] then [] else ToLe(Wrap32(offsets[0]), 4) + EncodeLinks(offsets[1..])
  }

  // A table of signed offsets gives one root for each, at that distance from the region's start; an
  // incomplete word behind them is ignored.
  lemma {:induction false} RootsOfLinks(r: Region, offsets: seq<i32>, tail: seq<byte>)
    requires |tail| < 4
    ensures var roots := TypelinkRoots(r, EncodeLinks(offsets) + tail);
      && |roots| == |offsets|
      && forall k :: 0 <= k < |roots| ==> roots[k] == (r.lo + offsets[k]) % 0x1_0000_0000_0000_0000
    decreases |offsets|
  {
    hide ToLe, FromLe, AsI32, TypelinkRoots;
    if offsets == [] {
      assert EncodeLinks(offsets) + tail == tail;
      NoRoots(r, tail);
    } else {
      RootsOfLinks(r, offsets[1..], tail);
      FirstRoot(r, offsets[0], EncodeLinks(offsets[1..]) + tail);
      assert EncodeLinks(offsets) + tail == ToLe(Wrap32(offsets[0]), 4) + (EncodeLinks(offsets[1..]) + tail);
    }
  }

  lemma NoRoots(r: Region, tail: seq<byte>)
    requires |tail| < 4
    ensures TypelinkRoots(r, tail) == []
  {
  }

  lemma FirstRoot(r: Region, off: i32, rest: seq<byte>)
    ensures TypelinkRoots(r, ToLe(Wrap32(off), 4) + rest)
         == [(r.lo + off) % 0x1_0000_0000_0000_0000] + TypelinkRoots(r, rest)
  {
    hide ToLe, FromLe, AsI32;
    var links := ToLe(Wrap32(off), 4) + rest;
    assert links[..4] == ToLe(Wrap32(off), 4) && links[4..] == rest;
    LinkRoundTrip(off);
  }

  lemma LinkRoundTrip(off: i32)
    ensures AsI32(FromLe(ToLe(Wrap32(off), 4))) == off
  {
    hide ToLe, FromLe;
    Pow256Values();
    WordRoundTrip(Wrap32(off), 4, true);
  }

  predicate Ascending(ts: seq<Type>) { forall i, j :: 0 <= i < j < |ts| ==> ts[i].addr < ts[j].addr }

  ghost predicate HeadersKnowTheirAddress(parse: Parser) { forall a :: parse(a).Some? ==> parse(a).value.addr == a }

  // The values of an ordered map, in key order.
  method InKeyOrder(m: map<u64, Type>) returns (ts: seq<Type>)
    requires forall a :: a in m ==> m[a].addr == a
    ensures Ascending(ts) && |ts| == |m|
    ensures forall t :: t in ts ==> t.addr in m && m[t.addr] == t
    ensures forall a :: a in m ==> m[a] in ts
  {
    hide Ascending;
    ts := [];
    var rest := m.Keys;
    NoneAscending();
    while rest != {}
      invariant rest <= m.Keys && Ascending(ts) && |ts| + |rest| == |m|
      invariant forall t :: t in ts ==> t.addr in m && m[t.addr] == t
      invariant forall t, a :: t in ts && a in rest ==> t.addr < a
      invariant forall a :: a in m ==> a in rest || m[a] in ts
      decreases |rest|
    {
      var a := Smallest(rest);
      OneAscending(ts, m[a]);
      ts := ts + [m[a]];
      rest := rest - {a};
    }
  }

  lemma NoneAscending()
    ensures Ascending([])
  {
  }

  lemma OneAscending(ts: seq<Type>, t: Type)
    requires Ascending(ts) && forall u :: u in ts ==> u.addr < t.addr
    ensures Ascending(ts + [t])
  {
    forall i | 0 <= i < |ts| ensures ts[i].addr < t.addr {
      assert ts[i] in ts;
    }
  }

  method Smallest(s: set<u64>) returns (m: u64)
    requires s != {}
    ensures m in s && forall a :: a in s ==> m <= a
  {
    m :| m in s;
    var rest := s - {m};
    while rest != {}
      invariant m in s && rest <= s
      invariant forall a :: a in s ==> a in rest || m <= a
      decreases |rest|
    {
      var a :| a in rest;
      rest := rest - {a};
      if a < m {
        m := a;
      }
    }
  }

  // The focused mode: typelink roots closed over child references, in address order.
  method RecoverFocused(bin: GoBinary, r: Region, linksData: u64, linksLen: u64, parse: Parser)
    returns (res: Result<seq<Type>, TypeError>, ghost capped: bool)
    requires HeadersKnowTheirAddress(parse)
    ensures res.Ok? <==>
      (bin.ptrSize == 8 && bin.littleEndian && linksLen <= 5_000_000
          && ReadAtAddr(bin, linksData, linksLen * 4).Some?)
    ensures res.Ok? ==>
      var ts, roots := res.value, TypelinkRoots(r, ReadAtAddr(bin, linksData, linksLen * 4).value);
      && Ascending(ts) && |ts| <= r.MaxTypes()
      && (forall t :: t in ts ==> parse(t.addr) == Some(t) && Reachable(r, parse, roots, t.addr))
      && (!capped && (|ts| < r.MaxTypes() || Disjoint(r, parse)) ==>
           forall a :: Reachable(r, parse, roots, a) ==> parse(a).Some? && parse(a).value in ts)
  {
    hide Reachable, Disjoint, ReadAtAddr, Ascending, TypelinkRoots;
    capped := false;
    if bin.ptrSize != 8 || !bin.littleEndian {
      return Err(UnsupportedTarget), false;
    }
    if linksLen > MAX_TYPELINKS {
      return Err(TooManyTypelinks), false;
    }
    var links := ReadAtAddr(bin, linksData, linksLen * 4);
    if links.None? {
      return Err(TypelinksUnmapped), false;
    }
    var roots := TypelinkRoots(r, links.value);
    var seen;
    seen, capped := CloseOverChildren(r, parse, roots);
    var ts := InKeyOrder(seen);
    forall a | Reachable(r, parse, roots, a) ensures parse(a).Some? {
      ReachableGood(r, parse, roots, a);
    }
    res := Ok(ts);
  }

  // An aligned slot of the region holding a type the walk missed.
  predicate Missed(r: Region, parse: Parser, seen: set<u64>, a: u64) {
    && r.lo <= a && (a - r.lo) % 8 == 0 && a + HEADER_SIZE <= r.hi
    && a !in seen && parse(a).Some? && Plausible(parse(a).value)
  }

  // Up to `offset` the scan has found exactly the missed types.
  ghost predicate Scanned(r: Region, parse: Parser, seen: set<u64>, out: seq<Type>, offset: nat) {
    && Ascending(out)
    && (forall t :: t in out ==> Missed(r, parse, seen, t.addr) && t.addr < r.lo + offset && parse(t.addr) == Some(t))
    && (forall a: u64 :: Missed(r, parse, seen, a) && a < r.lo + offset ==> parse(a).value in out)
  }

  lemma ScannedNone(r: Region, parse: Parser, seen: set<u64>)
    ensures Scanned(r, parse, seen, [], 0)
  {
  }

  lemma ScannedStep(r: Region, parse: Parser, seen: set<u64>, out: seq<Type>, offset: nat, next: seq<Type>)
    requires Scanned(r, parse, seen, out, offset) && offset % 8 == 0 && r.lo + offset + HEADER_SIZE <= r.hi
    requires HeadersKnowTheirAddress(parse)
    requires next == if Missed(r, parse, seen, r.lo + offset) then out + [parse(r.lo + offset).value] else out
    ensures Scanned(r, parse, seen, next, offset + 8)
  {
    hide Plausible, Ascending;
    if Missed(r, parse, seen, r.lo + offset) {
      OneAscending(out, parse(r.lo + offset).value);
    }
    forall a: u64 | Missed(r, parse, seen, a) && a < r.lo + offset + 8 ensures parse(a).value in next {
      assert a < r.lo + offset || a == r.lo + offset;
    }
  }

  // The scan finds exactly the missed types, each once, in order.
  method LinearScan(bin: GoBinary, r: Region, parse: Parser, alreadySeen: set<u64>) returns (out: seq<Type>)
    requires HeadersKnowTheirAddress(parse)
    ensures Ascending(out)
    ensures if r.hi <= r.lo || ReadAtAddr(bin, r.lo, r.hi - r.lo).None? then out == []
      else
        && (forall t :: t in out ==> Missed(r, parse, alreadySeen, t.addr) && parse(t.addr) == Some(t))
        && (forall a: u64 :: Missed(r, parse, alreadySeen, a) ==> parse(a).value in out)
  {
    hide ReadAtAddr, Plausible, Scanned;
    out := [];
    ScannedNone(r, parse, alreadySeen);
    if r.hi <= r.lo {
      return;
    }
    var bytes := ReadAtAddr(bin, r.lo, r.hi - r.lo);
    if bytes.None? {
      return;
    }
    var offset: nat := 0;
    while offset + HEADER_SIZE <= |bytes.value|
      invariant offset % 8 == 0 && Scanned(r, parse, alreadySeen, out, offset)
      decreases |bytes.value| - offset
    {
      var addr: u64 := r.lo + offset;
      ghost var before := out;
      if addr !in alreadySeen {
        var t := parse(addr);
        if t.Some? && Plausible(t.value) {
          out := out + [t.value];
        }
      }
      ScannedStep(r, parse, alreadySeen, before, offset, out);
      offset := offset + 8;
    }
    ScannedAll(r, parse, alreadySeen, out, offset);
  }

  lemma ScannedAll(r: Region, parse: Parser, seen: set<u64>, out: seq<Type>, offset: nat)
    requires Scanned(r, parse, seen, out, offset) && r.lo + offset + HEADER_SIZE > r.hi
    ensures Ascending(out)
    ensures forall t :: t in out ==> Missed(r, parse, seen, t.addr) && parse(t.addr) == Some(t)
    ensures forall a: u64 :: Missed(r, parse, seen, a) ==> parse(a).value in out
  {
    hide Plausible;
  }

  // The full mode never lists an address twice.
  method RecoverFull(bin: GoBinary, r: Region, parse: Parser, types: seq<Type>) returns (all: seq<Type>)
    requires HeadersKnowTheirAddress(parse) && Ascending(types)
    ensures types <= all
    ensures forall i, j :: 0 <= i < j < |all| ==> all[i].addr != all[j].addr
    ensures r.lo < r.hi && ReadAtAddr(bin, r.lo, r.hi - r.lo).Some? ==>
      forall a: u64 :: Missed(r, parse, {}, a) ==> exists t :: t in all && t.addr == a
  {
    hide ReadAtAddr, Plausible;
    var seen := set t | t in types :: t.addr;
    var extras := LinearScan(bin, r, parse, seen);
    all := types + extras;
    forall i, j | 0 <= i < j < |all| ensures all[i].addr != all[j].addr {
      if i < |types| <= j {
        assert all[i] in types && all[j] in extras;
      }
    }
    if r.lo < r.hi && ReadAtAddr(bin, r.lo, r.hi - r.lo).Some? {
      forall a: u64 | Missed(r, parse, {}, a) ensures exists t :: t in all && t.addr == a {
        if a !in seen {
          assert parse(a).value in extras;
        }
      }
    }
  }
}
