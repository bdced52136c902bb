/** The inlined call graph: physical functions, synthetic nodes for callees without a body, and one edge
    per distinct inlined call. */
module InlineGraph {
  import opened Wrappers
  import opened Bytes
  import opened Bits
  import opened GoBin
  import opened Pclntab
  import opened PclntabWriter
  import opened InlineTree

  datatype NodeKind = Physical | AnonymousInline(parent: nat, startLine: i32)

  datatype Node = Node(addr: nat, name: seq<byte>, kind: NodeKind)

  datatype Edge = Edge(caller: nat, callee: nat, site: u64)

  datatype CallGraph = CallGraph(nodes: seq<Node>, edges: seq<Edge>)

  // Synthetic addresses have the top bit set.
  const TOP_BIT: nat := 0x8000_0000_0000_0000

  function Tag(n: nat): nat { Or(n, 0x8000_0000_0000_0000) }

  lemma TagValue(n: nat)
    requires n < TOP_BIT
    ensures Tag(n) == TOP_BIT + n
  {
    Pow2Add(63, 1);
    Pow2Values();
    assert Pow2(1) == 2 * Pow2(0);
    OrDisjoint(n, 1, 63);
  }

  // A record of a function's tree together with the name it resolves to.
  datatype Call = Call(func: FuncEntry, rec: InlinedCall, name: Option<seq<byte>>)

  function ResolveLeafName(p: Table, rec: InlinedCall): (r: Option<seq<byte>>)
    ensures r.Some? ==> r.value != [] && 0 !in r.value
  {
    if rec.nameOff <= 0 then None
    else
      var name :- ReadName(p, rec.nameOff);
      if name == [] then None else Some(name)
  }

  // The name is the string the record's offset leads to in the name table; offsets of zero and below, offsets past
  // the table and the empty string are no name.
  lemma LeafNames(p: Table, rec: InlinedCall, s: seq<byte>)
    ensures rec.nameOff <= 0 || p.tables.funcname + rec.nameOff >= |p.data| ==> ResolveLeafName(p, rec) == None
    ensures rec.nameOff > 0 && StringHeld(p.data, p.tables.funcname + rec.nameOff, s) ==>
      ResolveLeafName(p, rec) == if s == [] then None else Some(s)
  {
    hide UpToNul, StringHeld;
    if rec.nameOff > 0 && StringHeld(p.data, p.tables.funcname + rec.nameOff, s) {
      StringReads(p.data, p.tables.funcname + rec.nameOff, s);
    }
  }

  // What a callee is identified by: its name across the program, or its place in the caller.
  datatype Identity = Known(name: seq<byte>) | Unnamed(parent: nat, parentPc: i32, startLine: i32)

  function IdentityOf(c: Call): Identity {
    match c.name
    case Some(n) => Known(n)
    case None => Unnamed(c.func.address, c.rec.parentPc, c.rec.startLine)
  }

  // ----- the graph a list of calls stands for -----

  // The entry of the last function of that name.
  function PhysicalAddr(funcs: seq<FuncEntry>, name: seq<byte>): Option<nat> {
    if funcs == [] then None
    else if funcs[|funcs| - 1].name == name then Some(funcs[|funcs| - 1].address)
    else PhysicalAddr(funcs[..|funcs| - 1], name)
  }

  function IndexOf(made: seq<Call>, id: Identity): (r: Option<nat>)
    ensures r.Some? ==> r.value < |made| && IdentityOf(made[r.value]) == id
    ensures r.None? ==> forall k :: 0 <= k < |made| ==> IdentityOf(made[k]) != id
  {
    if made == [] then None
    else if IdentityOf(made[|made| - 1]) == id then Some(|made| - 1)
    else IndexOf(made[..|made| - 1], id)
  }

  function Bodied(funcs: seq<FuncEntry>, id: Identity): Option<nat> {
    if id.Known? then PhysicalAddr(funcs, id.name) else None
  }

  // The node standing for an identity, given the calls that have a synthetic node so far.
  function Lookup(funcs: seq<FuncEntry>, made: seq<Call>, id: Identity): Option<nat> {
    if Bodied(funcs, id).Some? then Bodied(funcs, id)
    else match IndexOf(made, id) case Some(k) => Some(Tag(k + 1)) case None => None
  }

  // The calls that give rise to a synthetic node, in order.
  function Fresh(funcs: seq<FuncEntry>, calls: seq<Call>): seq<Call> {
    if calls == [] then []
    else
      var init, last := calls[..|calls| - 1], calls[|calls| - 1];
      var made := Fresh(funcs, init);
      if Lookup(funcs, made, IdentityOf(last)).Some? then made else made + [last]
  }

  function EdgeOf(funcs: seq<FuncEntry>, made: seq<Call>, c: Call): Edge
    requires Lookup(funcs, made, IdentityOf(c)).Some?
  {
    Edge(c.func.address, Lookup(funcs, made, IdentityOf(c)).value, Wrap64(c.func.address + c.rec.parentPc))
  }

  lemma LastIsKnown(funcs: seq<FuncEntry>, calls: seq<Call>)
    requires calls != []
    ensures Lookup(funcs, Fresh(funcs, calls), IdentityOf(calls[|calls| - 1])).Some?
  {
  }

  function Edges(funcs: seq<FuncEntry>, calls: seq<Call>): seq<Edge> {
    if calls == [] then []
    else
      LastIsKnown(funcs, calls);
      var edges := Edges(funcs, calls[..|calls| - 1]);
      var e := EdgeOf(funcs, Fresh(funcs, calls), calls[|calls| - 1]);
      if e in edges then edges else edges + [e]
  }

  function PhysicalNodes(funcs: seq<FuncEntry>): (ns: seq<Node>)
    ensures |ns| == |funcs|
  {
    seq(|funcs|, i requires 0 <= i < |funcs| => Node(funcs[i].address, funcs[i].name, Physical))
  }

  function SyntheticNode(c: Call, n: nat): Node {
    Node(Tag(n), match c.name case Some(s) => s case None => [], AnonymousInline(c.func.address, c.rec.startLine))
  }

  function SyntheticNodes(made: seq<Call>): (ns: seq<Node>)
    ensures |ns| == |made|
  {
    seq(|made|, k requires 0 <= k < |made| => SyntheticNode(made[k], k + 1))
  }

  function Graph(funcs: seq<FuncEntry>, calls: seq<Call>): CallGraph {
    CallGraph(PhysicalNodes(funcs) + SyntheticNodes(Fresh(funcs, calls)), Edges(funcs, calls))
  }

  lemma SyntheticNodesGrow(made: seq<Call>, c: Call)
    ensures SyntheticNodes(made + [c]) == SyntheticNodes(made) + [SyntheticNode(c, |made| + 1)]
  {
    hide SyntheticNode;
  }

  lemma FreshStep(funcs: seq<FuncEntry>, calls: seq<Call>, c: Call)
    ensures Fresh(funcs, calls + [c]) == (
      var made := Fresh(funcs, calls);
      if Lookup(funcs, made, IdentityOf(c)).Some? then made else made + [c])
    ensures Lookup(funcs, Fresh(funcs, calls + [c]), IdentityOf(c)).Some?
    ensures Edges(funcs, calls + [c]) == (
      var edges := Edges(funcs, calls);
      var e := EdgeOf(funcs, Fresh(funcs, calls + [c]), c);
      if e in edges then edges else edges + [e])
  {
    hide Lookup, EdgeOf;
    assert (calls + [c])[..|calls|] == calls;
    LastIsKnown(funcs, calls + [c]);
  }

  lemma LookupGrows(funcs: seq<FuncEntry>, made: seq<Call>, c: Call, id: Identity)
    requires Lookup(funcs, made, IdentityOf(c)).None?
    ensures Lookup(funcs, made + [c], id)
         == if id == IdentityOf(c) then Some(Tag(|made| + 1)) else Lookup(funcs, made, id)
  {
    hide Tag, PhysicalAddr;
    assert (made + [c])[..|made|] == made;
  }

  // ----- what holds after every call -----

  // Functions have distinct entries below the synthetic addresses.
  ghost predicate WellPlaced(funcs: seq<FuncEntry>) {
    && (forall i, j :: 0 <= i < j < |funcs| ==> funcs[i].address != funcs[j].address)
    && (forall i :: 0 <= i < |funcs| ==> funcs[i].address < TOP_BIT)
  }

  ghost function Identities(calls: seq<Call>): set<Identity> { set c | c in calls :: IdentityOf(c) }

  // The identities no function answers to.
  ghost function Bodiless(funcs: seq<FuncEntry>, calls: seq<Call>): set<Identity> {
    set c | c in calls && Bodied(funcs, IdentityOf(c)).None? :: IdentityOf(c)
  }

  ghost predicate OncePerIdentity(made: seq<Call>) {
    forall i, j :: 0 <= i < j < |made| ==> IdentityOf(made[i]) != IdentityOf(made[j])
  }

  // The synthetic nodes are one per identity without a body: none twice, none missing.
  lemma {:induction false} FreshOnce(funcs: seq<FuncEntry>, calls: seq<Call>)
    ensures var made := Fresh(funcs, calls);
      && OncePerIdentity(made)
      && Identities(made) == Bodiless(funcs, calls)
      && (forall c :: c in made ==> c in calls && Bodied(funcs, IdentityOf(c)).None?)
      && |made| <= |calls|
    decreases |calls|
  {
    hide Tag, Bodied, IdentityOf;
    if calls != [] {
      var init, last := calls[..|calls| - 1], calls[|calls| - 1];
      assert calls == init + [last];
      FreshOnce(funcs, init);
      var made := Fresh(funcs, init);
      var id := IdentityOf(last);
      if Bodied(funcs, id).None? {
        assert Bodiless(funcs, calls) == Bodiless(funcs, init) + {id};
        if IndexOf(made, id).Some? {
          assert id in Identities(made);
        } else {
          assert Identities(made + [last]) == Identities(made) + {id};
        }
      } else {
        assert Bodiless(funcs, calls) == Bodiless(funcs, init);
      }
    }
  }

  lemma {:induction false} OnceCount(made: seq<Call>)
    requires OncePerIdentity(made)
    ensures |Identities(made)| == |made|
    decreases |made|
  {
    hide IdentityOf;
    if made != [] {
      var init, last := made[..|made| - 1], made[|made| - 1];
      assert made == init + [last];
      OnceCount(init);
      assert Identities(made) == Identities(init) + {IdentityOf(last)};
    }
  }

  // Synthetic nodes: as many as there are callees without a body, tagged, with pairwise distinct
  // addresses that no function's entry below the tag bit can collide with.
  lemma SyntheticAddresses(funcs: seq<FuncEntry>, calls: seq<Call>)
    requires |calls| < TOP_BIT - 1
    ensures var g := Graph(funcs, calls);
      && |g.nodes| == |funcs| + |Bodiless(funcs, calls)|
      && (forall i :: 0 <= i < |funcs| ==> g.nodes[i] == Node(funcs[i].address, funcs[i].name, Physical))
      && (forall i :: |funcs| <= i < |g.nodes| ==> g.nodes[i].kind.AnonymousInline? && g.nodes[i].addr >= TOP_BIT)
      && (forall i, j :: |funcs| <= i < j < |g.nodes| ==> g.nodes[i].addr != g.nodes[j].addr)
      && (WellPlaced(funcs) ==> forall i, j :: 0 <= i < j < |g.nodes| ==> g.nodes[i].addr != g.nodes[j].addr)
  {
    hide Tag, Fresh, Bodiless, Edges, Or;
    FreshOnce(funcs, calls);
    OnceCount(Fresh(funcs, calls));
    var g := Graph(funcs, calls);
    forall i | |funcs| <= i < |g.nodes|
      ensures g.nodes[i].addr == TOP_BIT + (i - |funcs| + 1) && g.nodes[i].kind.AnonymousInline?
    {
      TagValue(i - |funcs| + 1);
    }
  }

  // Once a callee has its node it keeps it.
  lemma LookupStable(funcs: seq<FuncEntry>, calls: seq<Call>, c: Call, id: Identity)
    requires Lookup(funcs, Fresh(funcs, calls), id).Some?
    ensures Lookup(funcs, Fresh(funcs, calls + [c]), id) == Lookup(funcs, Fresh(funcs, calls), id)
  {
    hide Lookup, Tag, IndexOf;
    FreshStep(funcs, calls, c);
    if Lookup(funcs, Fresh(funcs, calls), IdentityOf(c)).None? {
      LookupGrows(funcs, Fresh(funcs, calls), c, id);
    }
  }

  lemma {:induction false} AllKnown(funcs: seq<FuncEntry>, calls: seq<Call>)
    ensures forall c :: c in calls ==> Lookup(funcs, Fresh(funcs, calls), IdentityOf(c)).Some?
    decreases |calls|
  {
    hide Lookup, Tag, IndexOf;
    if calls != [] {
      var init, last := calls[..|calls| - 1], calls[|calls| - 1];
      assert calls == init + [last];
      AllKnown(funcs, init);
      forall c | c in init ensures Lookup(funcs, Fresh(funcs, calls), IdentityOf(c)).Some? {
        LookupStable(funcs, init, last, IdentityOf(c));
      }
      LastIsKnown(funcs, calls);
    }
  }

  // The edges of the calls, as a set.
  ghost function EdgesOf(funcs: seq<FuncEntry>, calls: seq<Call>): set<Edge> {
    AllKnown(funcs, calls);
    set c | c in calls :: EdgeOf(funcs, Fresh(funcs, calls), c)
  }

  // No edge twice, every call has its edge, and every edge comes from a call.
  lemma {:induction false} EdgesExact(funcs: seq<FuncEntry>, calls: seq<Call>)
    ensures var es := Edges(funcs, calls);
      && (forall i, j :: 0 <= i < j < |es| ==> es[i] != es[j])
      && (set e | e in es) == EdgesOf(funcs, calls)
    decreases |calls|
  {
    hide Lookup, Tag, IndexOf, Fresh;
    if calls != [] {
      var init, last := calls[..|calls| - 1], calls[|calls| - 1];
      assert calls == init + [last];
      EdgesExact(funcs, init);
      FreshStep(funcs, init, last);
      AllKnown(funcs, init);
      AllKnown(funcs, calls);
      forall c | c in init ensures EdgeOf(funcs, Fresh(funcs, calls), c) == EdgeOf(funcs, Fresh(funcs, init), c) {
        LookupStable(funcs, init, last, IdentityOf(c));
      }
      EdgesOfStep(funcs, init, last);
    }
  }

  lemma EdgesOfStep(funcs: seq<FuncEntry>, init: seq<Call>, last: Call)
    requires Lookup(funcs, Fresh(funcs, init + [last]), IdentityOf(last)).Some?
    requires forall c :: c in init ==>
      && Lookup(funcs, Fresh(funcs, init), IdentityOf(c)).Some?
      && Lookup(funcs, Fresh(funcs, init + [last]), IdentityOf(c)).Some?
      && EdgeOf(funcs, Fresh(funcs, init + [last]), c) == EdgeOf(funcs, Fresh(funcs, init), c)
    ensures EdgesOf(funcs, init + [last]) == EdgesOf(funcs, init) + {EdgeOf(funcs, Fresh(funcs, init + [last]), last)}
  {
    hide Lookup, Fresh, EdgeOf;
    var calls := init + [last];
    AllKnown(funcs, calls);
    AllKnown(funcs, init);
    forall e | e in EdgesOf(funcs, calls)
      ensures e in EdgesOf(funcs, init) + {EdgeOf(funcs, Fresh(funcs, calls), last)}
    {
      var c :| c in calls && e == EdgeOf(funcs, Fresh(funcs, calls), c);
    }
    forall e | e in EdgesOf(funcs, init) ensures e in EdgesOf(funcs, calls) {
      var c :| c in init && e == EdgeOf(funcs, Fresh(funcs, init), c);
      assert c in calls;
    }
    assert last in calls;
  }

  // A call of a listed function at an offset inside it.
  ghost predicate Placed(funcs: seq<FuncEntry>, c: Call) {
    c.func in funcs && 0 <= c.rec.parentPc < c.func.size && c.func.address + c.func.size < U64
  }

  // Both ends of every edge are nodes of the graph, and its call site lies in the caller's range.
  lemma EdgesWithin(funcs: seq<FuncEntry>, calls: seq<Call>, e: Edge)
    requires forall c :: c in calls ==> Placed(funcs, c)
    requires e in Edges(funcs, calls)
    ensures var ns := Graph(funcs, calls).nodes;
      && (exists i :: 0 <= i < |funcs| && ns[i].addr == e.caller && e.caller <= e.site < e.caller + funcs[i].size)
      && (exists i :: 0 <= i < |ns| && ns[i].addr == e.callee)
  {
    hide Fresh, Edges, NodeFor, SyntheticNodes;
    var c := CallOf(funcs, calls, e);
    assert Placed(funcs, c);
    var i :| 0 <= i < |funcs| && funcs[i] == c.func;
    var ns := Graph(funcs, calls).nodes;
    assert ns[i].addr == e.caller;
    var n :| n in ns && n.addr == e.callee;
  }

  // The node of a call: with a name, the last function of that name if there is one and else a node made for
  // some call of that name; without, an unnamed node made for the caller at the record's start line.
  ghost predicate NodeFor(funcs: seq<FuncEntry>, calls: seq<Call>, n: Node, c: Call) {
    match c.name
    case None => n.name == [] && n.kind == AnonymousInline(c.func.address, c.rec.startLine)
    case Some(name) =>
      && n.name == name
      && (n.kind.Physical? <==> exists f :: f in funcs && f.name == name)
      && (match n.kind
          case Physical => exists i :: 0 <= i < |funcs| && funcs[i].name == name && funcs[i].address == n.addr
                                    && forall j :: i < j < |funcs| ==> funcs[j].name != name
          case AnonymousInline(parent, startLine) =>
            exists d :: d in calls && d.name == c.name && d.func.address == parent && d.rec.startLine == startLine)
  }

  // The edge of a call: from its function to its node, at the address its parent pc gives.
  ghost predicate StandsFor(funcs: seq<FuncEntry>, calls: seq<Call>, e: Edge, c: Call) {
    && e.caller == c.func.address
    && e.site == (c.func.address + c.rec.parentPc) % 0x1_0000_0000_0000_0000
    && exists n :: n in Graph(funcs, calls).nodes && n.addr == e.callee && NodeFor(funcs, calls, n, c)
  }

  // Every call has an edge that stands for it, and every edge stands for a call.
  lemma EdgesMean(funcs: seq<FuncEntry>, calls: seq<Call>)
    ensures forall c :: c in calls ==> exists e :: e in Edges(funcs, calls) && StandsFor(funcs, calls, e, c)
    ensures forall e :: e in Edges(funcs, calls) ==> exists c :: c in calls && StandsFor(funcs, calls, e, c)
  {
    hide Fresh, Edges, Lookup, StandsFor;
    EdgesExact(funcs, calls);
    AllKnown(funcs, calls);
    forall c | c in calls
      ensures StandsFor(funcs, calls, EdgeOf(funcs, Fresh(funcs, calls), c), c)
    {
      EdgeMeans(funcs, calls, c);
    }
    forall c | c in calls ensures exists e :: e in Edges(funcs, calls) && StandsFor(funcs, calls, e, c) {
      assert EdgeOf(funcs, Fresh(funcs, calls), c) in EdgesOf(funcs, calls);
    }
    forall e | e in Edges(funcs, calls) ensures exists c :: c in calls && StandsFor(funcs, calls, e, c) {
      var c := CallOf(funcs, calls, e);
    }
  }

  lemma CallOf(funcs: seq<FuncEntry>, calls: seq<Call>, e: Edge) returns (c: Call)
    requires e in Edges(funcs, calls)
    ensures c in calls && StandsFor(funcs, calls, e, c)
  {
    hide Fresh, Edges, Lookup, StandsFor, EdgeOf;
    EdgesExact(funcs, calls);
    AllKnown(funcs, calls);
    assert e in EdgesOf(funcs, calls);
    c :| c in calls && e == EdgeOf(funcs, Fresh(funcs, calls), c);
    EdgeMeans(funcs, calls, c);
  }

  lemma EdgeMeans(funcs: seq<FuncEntry>, calls: seq<Call>, c: Call)
    requires c in calls
    ensures Lookup(funcs, Fresh(funcs, calls), IdentityOf(c)).Some?
    ensures StandsFor(funcs, calls, EdgeOf(funcs, Fresh(funcs, calls), c), c)
  {
    hide Tag, Fresh, Edges, IndexOf, PhysicalAddr, NodeFor;
    AllKnown(funcs, calls);
    FreshOnce(funcs, calls);
    var made, id, ns := Fresh(funcs, calls), IdentityOf(c), Graph(funcs, calls).nodes;
    if Bodied(funcs, id).Some? {
      var i := PhysicalIsLast(funcs, id.name);
      var n := ns[i];
      assert n in ns && NodeFor(funcs, calls, n, c) by {
        PhysicalNodeFor(funcs, calls, i, n, c);
      }
    } else {
      var k := IndexOf(made, id).value;
      var n := ns[|funcs| + k];
      assert n in ns && n == SyntheticNode(made[k], k + 1);
      assert made[k] in made;
      SyntheticNodeFor(funcs, calls, made[k], k + 1, c);
    }
  }

  lemma PhysicalNodeFor(funcs: seq<FuncEntry>, calls: seq<Call>, i: nat, n: Node, c: Call)
    requires i < |funcs| && n == Node(funcs[i].address, funcs[i].name, Physical) && c.name == Some(funcs[i].name)
    requires forall j :: i < j < |funcs| ==> funcs[j].name != funcs[i].name
    ensures NodeFor(funcs, calls, n, c)
  {
    assert funcs[i] in funcs;
  }

  lemma SyntheticNodeFor(funcs: seq<FuncEntry>, calls: seq<Call>, d: Call, number: nat, c: Call)
    requires d in calls && IdentityOf(d) == IdentityOf(c) && Bodied(funcs, IdentityOf(c)).None?
    ensures NodeFor(funcs, calls, SyntheticNode(d, number), c)
  {
    hide Tag;
    if c.name.Some? {
      NoSuchFunction(funcs, c.name.value);
    }
  }

  lemma {:induction false} NoSuchFunction(funcs: seq<FuncEntry>, name: seq<byte>)
    requires PhysicalAddr(funcs, name).None?
    ensures forall f :: f in funcs ==> f.name != name
  {
    if funcs != [] {
      var init := funcs[..|funcs| - 1];
      NoSuchFunction(init, name);
      assert funcs == init + [funcs[|funcs| - 1]];
    }
  }

  lemma {:induction false} PhysicalIsLast(funcs: seq<FuncEntry>, name: seq<byte>) returns (i: nat)
    requires PhysicalAddr(funcs, name).Some?
    ensures i < |funcs| && funcs[i].name == name && PhysicalAddr(funcs, name) == Some(funcs[i].address)
    ensures forall j :: i < j < |funcs| ==> funcs[j].name != name
  {
    if funcs[|funcs| - 1].name == name {
      i := |funcs| - 1;
    } else {
      var init := funcs[..|funcs| - 1];
      i := PhysicalIsLast(init, name);
      assert forall j :: i < j < |init| ==> funcs[j] == init[j];
    }
  }

  // The same name, or none and the same place: caller, parent pc and start line.
  predicate SameCallee(c: Call, d: Call) {
    if c.name.Some? then c.name == d.name
    else
      && d.name.None? && c.func.address == d.func.address
      && c.rec.parentPc == d.rec.parentPc && c.rec.startLine == d.rec.startLine
  }

  // Two calls lead to the same node exactly when they name the same function or, unnamed, sit at the
  // same place: no two callees are merged and none is split.
  lemma SameNodeIffSameCallee(funcs: seq<FuncEntry>, calls: seq<Call>, c: Call, d: Call)
    requires WellPlaced(funcs) && |calls| < TOP_BIT - 1 && c in calls && d in calls
    ensures var made := Fresh(funcs, calls);
      && Lookup(funcs, made, IdentityOf(c)).Some? && Lookup(funcs, made, IdentityOf(d)).Some?
      && (Lookup(funcs, made, IdentityOf(c)) == Lookup(funcs, made, IdentityOf(d)) <==> SameCallee(c, d))
  {
    hide Tag, Fresh, IndexOf, PhysicalAddr;
    AllKnown(funcs, calls);
    FreshOnce(funcs, calls);
    NodeOf(funcs, Fresh(funcs, calls), IdentityOf(c));
    NodeOf(funcs, Fresh(funcs, calls), IdentityOf(d));
    var x, y := IdentityOf(c), IdentityOf(d);
    if Bodied(funcs, x).Some? && Bodied(funcs, y).Some? {
      var i := PhysicalIsLast(funcs, x.name);
      var j := PhysicalIsLast(funcs, y.name);
    }
  }

  // Functions answer below the tag bit, synthetic nodes above it, in order.
  lemma NodeOf(funcs: seq<FuncEntry>, made: seq<Call>, id: Identity)
    requires WellPlaced(funcs) && |made| < TOP_BIT - 1 && Lookup(funcs, made, id).Some?
    ensures Bodied(funcs, id).Some? ==>
      Lookup(funcs, made, id) == Bodied(funcs, id) && Bodied(funcs, id).value < TOP_BIT
    ensures Bodied(funcs, id).None? ==>
      IndexOf(made, id).Some? && Lookup(funcs, made, id) == Some(TOP_BIT + 1 + IndexOf(made, id).value)
  {
    hide Tag, IndexOf, PhysicalAddr;
    if Bodied(funcs, id).Some? {
      var j := PhysicalIsLast(funcs, id.name);
    } else {
      TagValue(IndexOf(made, id).value + 1);
    }
  }

  // Nothing is taken back: the graph of the first k calls is a prefix of the whole one.
  lemma {:induction false} GraphGrows(funcs: seq<FuncEntry>, calls: seq<Call>, k: nat)
    requires k <= |calls|
    ensures Graph(funcs, calls[..k]).nodes <= Graph(funcs, calls).nodes
    ensures Graph(funcs, calls[..k]).edges <= Graph(funcs, calls).edges
    decreases |calls|
  {
    hide Lookup, SyntheticNode;
    if k < |calls| {
      var init, last := calls[..|calls| - 1], calls[|calls| - 1];
      assert init[..k] == calls[..k] && calls == init + [last];
      GraphGrows(funcs, init, k);
      FreshStep(funcs, init, last);
      SyntheticNodesGrow(Fresh(funcs, init), last);
    } else {
      assert calls[..k] == calls;
    }
  }

  // ----- the builder -----

  // The inlined calls among a tree's records: the root marker is not one.
  function CallsFrom(p: Table, f: FuncEntry, tree: seq<InlinedCall>): seq<Call> {
    if tree == [] then []
    else
      var rec := tree[|tree| - 1];
      CallsFrom(p, f, tree[..|tree| - 1])
      + (if rec.parentPc == -1 then [] else [Call(f, rec, ResolveLeafName(p, rec))])
  }

  function CallsOf(p: Table, funcs: seq<FuncEntry>, trees: seq<seq<InlinedCall>>): seq<Call>
    requires |funcs| == |trees|
  {
    if funcs == [] then []
    else
      var n := |funcs| - 1;
      CallsOf(p, funcs[..n], trees[..n]) + CallsFrom(p, funcs[n], trees[n])
  }

  // The calls are those of the trees' records that are no root marker, each with its function and its name.
  lemma {:induction false} CallsExact(p: Table, funcs: seq<FuncEntry>, trees: seq<seq<InlinedCall>>, c: Call)
    requires |funcs| == |trees|
    ensures c in CallsOf(p, funcs, trees) <==>
      exists i :: 0 <= i < |funcs| && c.func == funcs[i] && c.rec in trees[i] && c.rec.parentPc != -1
               && c.name == ResolveLeafName(p, c.rec)
  {
    hide CallsFrom, ResolveLeafName;
    if funcs != [] {
      var n := |funcs| - 1;
      CallsExact(p, funcs[..n], trees[..n], c);
      CallsFromExact(p, funcs[n], trees[n], c);
      assert forall i :: 0 <= i < n ==> funcs[..n][i] == funcs[i] && trees[..n][i] == trees[i];
    }
  }

  lemma {:induction false} CallsFromExact(p: Table, f: FuncEntry, tree: seq<InlinedCall>, c: Call)
    ensures c in CallsFrom(p, f, tree) <==>
      c.func == f && c.rec in tree && c.rec.parentPc != -1 && c.name == ResolveLeafName(p, c.rec)
  {
    hide ResolveLeafName;
    if tree != [] {
      var init, rec := tree[..|tree| - 1], tree[|tree| - 1];
      CallsFromExact(p, f, init, c);
      assert tree == init + [rec];
    }
  }

  // Each function's decoded tree, or nothing where its tree is corrupt.
  ghost predicate TreesOf(bin: GoBinary, p: Table, funcs: seq<FuncEntry>, trees: seq<seq<InlinedCall>>) {
    && |funcs| == |trees|
    && forall i :: 0 <= i < |funcs| ==>
         Decoded(bin, p, funcs[i], trees[i]) || (trees[i] == [] && Corrupt(bin, p, funcs[i]))
  }

  lemma {:induction false} CallsFromInside(p: Table, f: FuncEntry, tree: seq<InlinedCall>)
    requires forall rec :: rec in tree ==> ParentInside(rec, f.size)
    ensures forall c :: c in CallsFrom(p, f, tree) ==> c.func == f && 0 <= c.rec.parentPc < f.size
  {
    hide ResolveLeafName;
    if tree != [] {
      var init, rec := tree[..|tree| - 1], tree[|tree| - 1];
      assert tree == init + [rec] && ParentInside(rec, f.size);
      CallsFromInside(p, f, init);
      assert CallsFrom(p, f, tree)
          == CallsFrom(p, f, init) + (if rec.parentPc == -1 then [] else [Call(f, rec, ResolveLeafName(p, rec))]);
    }
  }

  // Every record's span ends inside the address space.
  lemma {:induction false} RecordsFit(p: Table, n: nat)
    requires p.ptrSize in {4, 8}
    ensures forall f :: f in Records(p, n) && f.size > 0 ==> f.address + f.size < U64
  {
    hide RecordOf;
    if n > 0 {
      RecordsFit(p, n - 1);
      if RecordOf(p, n - 1).Some? {
        RecordFits(p, n - 1);
      }
    }
  }

  lemma RecordFits(p: Table, i: nat)
    requires p.ptrSize in {4, 8} && RecordOf(p, i).Some?
    ensures RecordOf(p, i).value.size > 0 ==> RecordOf(p, i).value.address + RecordOf(p, i).value.size < U64
  {
    hide ReadName, FunctabEntry, FunctabAddr;
    AddrFits(p, i + 1);
  }

  lemma AddrFits(p: Table, i: nat)
    requires p.ptrSize in {4, 8}
    ensures FunctabAddr(p, i).Some? ==> FunctabAddr(p, i).value < U64
  {
    hide WordAt, Pow256;
    if p.layout.Pre118? && EntryOffset(p, i).Some? {
      WordAtBound(p.data, EntryOffset(p, i).value, p.ptrSize, p.le);
      Pow256Values();
    }
  }

  // The calls found in decoded trees are all placed in their function.
  lemma {:induction false} DecodedCallsPlaced(bin: GoBinary, p: Table, funcs: seq<FuncEntry>,
      trees: seq<seq<InlinedCall>>)
    requires TreesOf(bin, p, funcs, trees)
    requires forall f :: f in funcs && f.size > 0 ==> f.address + f.size < U64
    ensures forall c :: c in CallsOf(p, funcs, trees) ==> Placed(funcs, c)
  {
    hide Decoded, CallsFrom, Corrupt;
    if funcs != [] {
      var n := |funcs| - 1;
      assert funcs == funcs[..n] + [funcs[n]];
      forall i | 0 <= i < n
        ensures Decoded(bin, p, funcs[..n][i], trees[..n][i]) || (trees[..n][i] == [] && Corrupt(bin, p, funcs[..n][i]))
      {
        assert funcs[..n][i] == funcs[i];
      }
      DecodedCallsPlaced(bin, p, funcs[..n], trees[..n]);
      assert Decoded(bin, p, funcs[n], trees[n]) || trees[n] == [];
      DecodedInside(bin, p, funcs[n], trees[n]);
      CallsFromInside(p, funcs[n], trees[n]);
    }
  }

  lemma DecodedInside(bin: GoBinary, p: Table, f: FuncEntry, tree: seq<InlinedCall>)
    requires Decoded(bin, p, f, tree) || tree == []
    ensures forall rec :: rec in tree ==> ParentInside(rec, f.size)
  {
    hide TreeOf, TreeLength, CallAt;
  }

  lemma NoTrees(bin: GoBinary, p: Table)
    ensures TreesOf(bin, p, [], []) && CallsOf(p, [], []) == []
  {
  }

  lemma OneTreeMore(bin: GoBinary, p: Table, funcs: seq<FuncEntry>, trees: seq<seq<InlinedCall>>,
      tree: seq<InlinedCall>)
    requires |trees| < |funcs| && TreesOf(bin, p, funcs[..|trees|], trees)
    requires Decoded(bin, p, funcs[|trees|], tree) || (tree == [] && Corrupt(bin, p, funcs[|trees|]))
    ensures TreesOf(bin, p, funcs[..|trees| + 1], trees + [tree])
    ensures CallsOf(p, funcs[..|trees| + 1], trees + [tree])
         == CallsOf(p, funcs[..|trees|], trees) + CallsFrom(p, funcs[|trees|], tree)
  {
    hide Decoded, Corrupt, CallsFrom;
    var i := |trees|;
    assert funcs[..i + 1][..i] == funcs[..i] && (trees + [tree])[..i] == trees;
  }

  ghost predicate MapsHold(funcs: seq<FuncEntry>, made: seq<Call>, named: map<seq<byte>, nat>,
      anon: map<(nat, i32, i32), nat>) {
    && (forall n :: Lookup(funcs, made, Known(n)) == if n in named then Some(named[n]) else None)
    && (forall k: (nat, i32, i32) ::
          Lookup(funcs, made, Unnamed(k.0, k.1, k.2)) == if k in anon then Some(anon[k]) else None)
  }

  lemma MapsGrow(funcs: seq<FuncEntry>, made: seq<Call>, named: map<seq<byte>, nat>, anon: map<(nat, i32, i32), nat>,
      c: Call)
    requires MapsHold(funcs, made, named, anon) && Lookup(funcs, made, IdentityOf(c)).None?
    ensures c.name.Some? ==> MapsHold(funcs, made + [c], named[c.name.value := Tag(|made| + 1)], anon)
    ensures c.name.None? ==>
      MapsHold(funcs, made + [c], named, anon[(c.func.address, c.rec.parentPc, c.rec.startLine) := Tag(|made| + 1)])
  {
    hide Lookup, Tag;
    forall id: Identity
      ensures Lookup(funcs, made + [c], id)
           == if id == IdentityOf(c) then Some(Tag(|made| + 1)) else Lookup(funcs, made, id)
    {
      LookupGrows(funcs, made, c, id);
    }
  }

  // The builder's state: the graph so far, the handles given out, the edge keys and the next synthetic id.
  datatype Build = Build(
    nodes: seq<Node>, edges: seq<Edge>, named: map<seq<byte>, nat>, anon: map<(nat, i32, i32), nat>, keys: set<Edge>,
    nextAnon: nat)

  ghost predicate Builds(b: Build, funcs: seq<FuncEntry>, calls: seq<Call>) {
    var made := Fresh(funcs, calls);
    && CallGraph(b.nodes, b.edges) == Graph(funcs, calls)
    && MapsHold(funcs, made, b.named, b.anon)
    && b.keys == (set e | e in b.edges)
    && b.nextAnon == |made| + 1
  }

  // A node for every function; of several with one name, the last answers for the name.
  method NodesOfFunctions(funcs: seq<FuncEntry>) returns (b: Build)
    ensures Builds(b, funcs, [])
  {
    b := Build([], [], map[], map[], {}, 1);
    for i := 0 to |funcs|
      invariant b.edges == [] && b.anon == map[] && b.keys == {} && b.nextAnon == 1
      invariant b.nodes == PhysicalNodes(funcs[..i])
      invariant forall n :: PhysicalAddr(funcs[..i], n) == if n in b.named then Some(b.named[n]) else None
    {
      var f := funcs[i];
      assert funcs[..i + 1][..i] == funcs[..i];
      assert PhysicalNodes(funcs[..i + 1]) == PhysicalNodes(funcs[..i]) + [Node(f.address, f.name, Physical)];
      b := b.(nodes := b.nodes + [Node(f.address, f.name, Physical)], named := b.named[f.name := f.address]);
    }
    assert funcs[..|funcs|] == funcs;
    assert SyntheticNodes([]) == [];
  }

  // The handle of a callee, given out on first sight.
  method Intern(b: Build, c: Call, ghost funcs: seq<FuncEntry>, ghost calls: seq<Call>)
    returns (next: Build, callee: nat)
    requires Builds(b, funcs, calls)
    ensures Lookup(funcs, Fresh(funcs, calls + [c]), IdentityOf(c)) == Some(callee)
    ensures MapsHold(funcs, Fresh(funcs, calls + [c]), next.named, next.anon)
    ensures next.nodes == Graph(funcs, calls + [c]).nodes && next.nextAnon == |Fresh(funcs, calls + [c])| + 1
    ensures next.edges == b.edges && next.keys == b.keys
  {
    hide Lookup, Edges, Tag, Fresh;
    FreshStep(funcs, calls, c);
    ghost var made := Fresh(funcs, calls);
    var key := (c.func.address, c.rec.parentPc, c.rec.startLine);
    if c.name.Some? && c.name.value in b.named {
      return b, b.named[c.name.value];
    }
    if c.name.None? && key in b.anon {
      return b, b.anon[key];
    }
    MapsGrow(funcs, made, b.named, b.anon, c);
    SyntheticNodesGrow(made, c);
    callee := Tag(b.nextAnon);
    LookupGrows(funcs, made, c, IdentityOf(c));
    next := b.(nodes := b.nodes + [SyntheticNode(c, b.nextAnon)], nextAnon := b.nextAnon + 1);
    next := if c.name.Some? then next.(named := b.named[c.name.value := callee])
        else next.(anon := b.anon[key := callee]);
  }

  // One inlined call: intern the callee, then add its edge unless it is there already.
  method AddCall(b: Build, c: Call, ghost funcs: seq<FuncEntry>, ghost calls: seq<Call>) returns (next: Build)
    requires Builds(b, funcs, calls)
    ensures Builds(next, funcs, calls + [c])
  {
    hide Lookup, Edges, Tag, Fresh, MapsHold;
    FreshStep(funcs, calls, c);
    var callee;
    next, callee := Intern(b, c, funcs, calls);
    var e := Edge(c.func.address, callee, Wrap64(c.func.address + c.rec.parentPc));
    if e !in next.keys {
      next := next.(edges := next.edges + [e], keys := next.keys + {e});
    }
  }

  method InlineCallgraph(bin: GoBinary, p: Table)
    returns (r: Result<CallGraph, Pclntab.Error>, ghost trees: seq<seq<InlinedCall>>)
    requires p.ptrSize in {4, 8}
    ensures r.Ok? <==> p.nfunc <= 5_000_000 && p.tables.functab + (p.nfunc + 1) * Stride(p) <= |p.data|
    ensures r.Ok? ==>
      var funcs := Records(p, p.nfunc);
      TreesOf(bin, p, funcs, trees) && r.value == Graph(funcs, CallsOf(p, funcs, trees))
  {
    hide Decoded, Corrupt, Stride, Records, Builds, ResolveLeafName, TreesOf, CallsOf, Graph;
    trees := [];
    var listed := FunctionsWithOffsets(p);
    if listed.Err? {
      return Err(listed.error), trees;
    }
    var funcs := listed.value;
    var b := NodesOfFunctions(funcs);
    ghost var calls: seq<Call> := [];
    NoTrees(bin, p);
    assert funcs[..0] == [];
    for i := 0 to |funcs|
      invariant |trees| == i && TreesOf(bin, p, funcs[..i], trees) && calls == CallsOf(p, funcs[..i], trees)
      invariant Builds(b, funcs, calls)
    {
      var f := funcs[i];
      var decoded := DecodeInlineTree(bin, p, f);
      var entries := if decoded.Ok? then decoded.value else [];
      ghost var earlier := calls;
      OneTreeMore(bin, p, funcs, trees, entries);
      trees := trees + [entries];
      for k := 0 to |entries|
        invariant Builds(b, funcs, calls) && calls == earlier + CallsFrom(p, f, entries[..k])
      {
        var entry := entries[k];
        assert entries[..k + 1][..k] == entries[..k];
        if entry.parentPc != -1 {
          var c := Call(f, entry, ResolveLeafName(p, entry));
          b := AddCall(b, c, funcs, calls);
          calls := calls + [c];
        }
      }
      assert entries[..|entries|] == entries;
    }
    assert funcs[..|funcs|] == funcs;
    r := Ok(CallGraph(b.nodes, b.edges));
    BuildsGraph(b, funcs, calls);
  }

  lemma BuildsGraph(b: Build, funcs: seq<FuncEntry>, calls: seq<Call>)
    requires Builds(b, funcs, calls)
    ensures CallGraph(b.nodes, b.edges) == Graph(funcs, calls)
  {
  }
}
