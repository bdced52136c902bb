/** Transitive call-graph queries: a breadth-first search bounded in depth and in node count. */
module Xrefs {
  import opened Wrappers
  import opened Bytes

  type Name = seq<byte>

  // One call: the site, the function it is in, and the function it reaches.
  datatype CallEdge = CallEdge(callSite: u64, callerAddr: nat, callerName: Name, calleeAddr: nat, calleeName: Name)

  // One traversable step: from `tail` to `head`.
  datatype Arc = Arc(tail: Name, head: Name, headAddr: nat)

  function CalleeArcs(edges: seq<CallEdge>): (arcs: seq<Arc>)
    ensures |arcs| == |edges|
  {
    if edges == [] then []
    else
      var e := edges[|edges| - 1];
      CalleeArcs(edges[..|edges| - 1]) + [Arc(e.callerName, e.calleeName, e.calleeAddr)]
  }

  function CallerArcs(edges: seq<CallEdge>): (arcs: seq<Arc>)
    ensures |arcs| == |edges|
  {
    if edges == [] then []
    else
      var e := edges[|edges| - 1];
      CallerArcs(edges[..|edges| - 1]) + [Arc(e.calleeName, e.callerName, e.callerAddr)]
  }

  // The heads of the arcs leaving `n`, in order.
  function Heads(arcs: seq<Arc>, n: Name): seq<Name> {
    if arcs == [] then []
    else
      var a := arcs[|arcs| - 1];
      Heads(arcs[..|arcs| - 1], n) + (if a.tail == n then [a.head] else [])
  }

  // The address on the first arc into `n`.
  function FirstAddr(arcs: seq<Arc>, n: Name): Option<nat> {
    if arcs == [] then None
    else
      var a := arcs[|arcs| - 1];
      var earlier := FirstAddr(arcs[..|arcs| - 1], n);
      if earlier.Some? then earlier else if a.head == n then Some(a.headAddr) else None
  }

  // ----- the search -----

  datatype State = State(depthOf: map<Name, nat>, next: seq<Name>, truncated: bool)

  // Record each new name at depth d until the node bound is reached.
  function Visit(names: seq<Name>, st: State, d: nat, maxNodes: nat): State {
    if names == [] || st.truncated then st
    else if names[0] in st.depthOf then Visit(names[1..], st, d, maxNodes)
    else Visit(names[1..], Record(st, names[0], d, maxNodes), d, maxNodes)
  }

  function Record(st: State, n: Name, d: nat, maxNodes: nat): State {
    var depthOf := st.depthOf[n := d];
    State(depthOf, st.next + [n], |depthOf| >= maxNodes)
  }

  function AllHeads(arcs: seq<Arc>, frontier: seq<Name>): seq<Name> {
    if frontier == [] then [] else Heads(arcs, frontier[0]) + AllHeads(arcs, frontier[1..])
  }

  function Rounds(arcs: seq<Arc>, frontier: seq<Name>, depthOf: map<Name, nat>, d: nat, depth: nat, maxNodes: nat):
    (map<Name, nat>, bool)
    decreases depth + 1 - d
  {
    if d > depth then (depthOf, false)
    else
      var st := Visit(AllHeads(arcs, frontier), State(depthOf, [], false), d, maxNodes);
      if st.truncated then (st.depthOf, true)
      else if st.next == [] then (st.depthOf, false)
      else Rounds(arcs, st.next, st.depthOf, d + 1, depth, maxNodes)
  }

  function Bfs(arcs: seq<Arc>, root: Name, depth: nat, maxNodes: nat): (map<Name, nat>, bool) {
    Rounds(arcs, [root], map[], 1, depth, maxNodes)
  }

  datatype XrefNode = XrefNode(addr: Option<nat>, depth: nat)

  datatype XrefResult = XrefResult(
    root: Name, direction: string, depth: nat, nodes: map<Name, XrefNode>, truncated: bool, maxNodes: nat)

  function ResultOf(arcs: seq<Arc>, root: Name, direction: string, depth: nat, maxNodes: nat): XrefResult {
    var (depthOf, truncated) := Bfs(arcs, root, depth, maxNodes);
    XrefResult(root, direction, depth, map n | n in depthOf :: XrefNode(FirstAddr(arcs, n), depthOf[n]), truncated,
        maxNodes)
  }

  // ----- what is promised, in terms of the calls themselves -----

  // A chain of calls: each is made by the function the one before it reached.
  ghost predicate Chain(edges: seq<CallEdge>, p: seq<CallEdge>) {
    && (forall i :: 0 <= i < |p| ==> p[i] in edges)
    && (forall i :: 0 < i < |p| ==> p[i].callerName == p[i - 1].calleeName)
  }

  // A chain of k calls leads from a to b.
  ghost predicate Calls(edges: seq<CallEdge>, a: Name, b: Name, k: nat) {
    exists p: seq<CallEdge> :: |p| == k >= 1 && Chain(edges, p) && p[0].callerName == a && p[k - 1].calleeName == b
  }

  // The fewest calls that lead from a to b are d.
  ghost predicate FewestCalls(edges: seq<CallEdge>, a: Name, b: Name, d: nat) {
    Calls(edges, a, b, d) && forall k: nat :: k < d ==> !Calls(edges, a, b, k)
  }

  ghost predicate CallsWithin(edges: seq<CallEdge>, a: Name, b: Name, depth: nat) {
    exists k: nat :: k <= depth && Calls(edges, a, b, k)
  }

  ghost function CalleesWithin(edges: seq<CallEdge>, from: Name, depth: nat): set<Name> {
    set e | e in edges && CallsWithin(edges, from, e.calleeName, depth) :: e.calleeName
  }

  ghost function CallersWithin(edges: seq<CallEdge>, target: Name, depth: nat): set<Name> {
    set e | e in edges && CallsWithin(edges, e.callerName, target, depth) :: e.callerName
  }

  // The first call that reaches n gives this address for it.
  ghost predicate FirstReachedAt(edges: seq<CallEdge>, n: Name, addr: nat) {
    exists i :: 0 <= i < |edges| && edges[i].calleeName == n && edges[i].calleeAddr == addr
             && forall j :: 0 <= j < i ==> edges[j].calleeName != n
  }

  // The first call made by n gives this address for it.
  ghost predicate FirstCallingAt(edges: seq<CallEdge>, n: Name, addr: nat) {
    exists i :: 0 <= i < |edges| && edges[i].callerName == n && edges[i].callerAddr == addr
             && forall j :: 0 <= j < i ==> edges[j].callerName != n
  }

  // Names some chain from `from` within the depth leads to, each with the length of the shortest one and
  // its address; as many as there are up to the bound, nearest first; truncated when the bound is met.
  ghost predicate CalleesReported(edges: seq<CallEdge>, from: Name, depth: nat, maxNodes: nat, r: XrefResult) {
    var reach := CalleesWithin(edges, from, depth);
    && r.root == from && r.direction == "callees" && r.depth == depth && r.maxNodes == maxNodes
    && (forall n :: n in r.nodes ==> r.nodes[n].depth <= depth && FewestCalls(edges, from, n, r.nodes[n].depth))
    && (forall n :: n in r.nodes ==> r.nodes[n].addr.Some? && FirstReachedAt(edges, n, r.nodes[n].addr.value))
    && (forall n, m, k: nat :: n in r.nodes && k < r.nodes[n].depth && Calls(edges, from, m, k) ==> m in r.nodes)
    && r.nodes.Keys <= reach && |r.nodes| == Min(Max(maxNodes, 1), |reach|)
    && (r.truncated <==> |reach| >= Max(maxNodes, 1))
    && (!r.truncated ==> r.nodes.Keys == reach)
  }

  // Likewise for the names from which some chain leads to `target`.
  ghost predicate CallersReported(edges: seq<CallEdge>, target: Name, depth: nat, maxNodes: nat, r: XrefResult) {
    var reach := CallersWithin(edges, target, depth);
    && r.root == target && r.direction == "callers" && r.depth == depth && r.maxNodes == maxNodes
    && (forall n :: n in r.nodes ==> r.nodes[n].depth <= depth && FewestCalls(edges, n, target, r.nodes[n].depth))
    && (forall n :: n in r.nodes ==> r.nodes[n].addr.Some? && FirstCallingAt(edges, n, r.nodes[n].addr.value))
    && (forall n, m, k: nat :: n in r.nodes && k < r.nodes[n].depth && Calls(edges, m, target, k) ==> m in r.nodes)
    && r.nodes.Keys <= reach && |r.nodes| == Min(Max(maxNodes, 1), |reach|)
    && (r.truncated <==> |reach| >= Max(maxNodes, 1))
    && (!r.truncated ==> r.nodes.Keys == reach)
  }

  method CalleesFrom(edges: seq<CallEdge>, from: Name, depth: nat, maxNodes: nat) returns (r: XrefResult)
    ensures r == ResultOf(CalleeArcs(edges), from, "callees", depth, maxNodes)
    ensures CalleesReported(edges, from, depth, maxNodes, r)
  {
    hide Bfs, CalleesReported;
    var byCaller: map<Name, seq<Name>> := map[];
    var addrOf: map<Name, nat> := map[];
    ghost var arcs: seq<Arc> := [];
    for k := 0 to |edges|
      invariant arcs == CalleeArcs(edges[..k]) && Indexed(arcs, byCaller, addrOf)
    {
      var e := edges[k];
      assert edges[..k + 1][..k] == edges[..k];
      AddArc(arcs, byCaller, addrOf, Arc(e.callerName, e.calleeName, e.calleeAddr));
      var callees := if e.callerName in byCaller then byCaller[e.callerName] else [];
      byCaller := byCaller[e.callerName := callees + [e.calleeName]];
      addrOf := if e.calleeName in addrOf then addrOf else addrOf[e.calleeName := e.calleeAddr];
      arcs := arcs + [Arc(e.callerName, e.calleeName, e.calleeAddr)];
    }
    assert edges[..|edges|] == edges;
    var depthOf, truncated := Search(arcs, byCaller, addrOf, from, depth, maxNodes);
    r := XrefResult(from, "callees", depth,
      map n | n in depthOf :: XrefNode(if n in addrOf then Some(addrOf[n]) else None, depthOf[n]), truncated, maxNodes);
    CalleesExact(edges, from, depth, maxNodes);
  }

  method CallersOf(edges: seq<CallEdge>, target: Name, depth: nat, maxNodes: nat) returns (r: XrefResult)
    ensures r == ResultOf(CallerArcs(edges), target, "callers", depth, maxNodes)
    ensures CallersReported(edges, target, depth, maxNodes, r)
  {
    hide Bfs, CallersReported;
    var byCallee: map<Name, seq<Name>> := map[];
    var addrOf: map<Name, nat> := map[];
    ghost var arcs: seq<Arc> := [];
    for k := 0 to |edges|
      invariant arcs == CallerArcs(edges[..k]) && Indexed(arcs, byCallee, addrOf)
    {
      var e := edges[k];
      assert edges[..k + 1][..k] == edges[..k];
      AddArc(arcs, byCallee, addrOf, Arc(e.calleeName, e.callerName, e.callerAddr));
      var callers := if e.calleeName in byCallee then byCallee[e.calleeName] else [];
      byCallee := byCallee[e.calleeName := callers + [e.callerName]];
      addrOf := if e.callerName in addrOf then addrOf else addrOf[e.callerName := e.callerAddr];
      arcs := arcs + [Arc(e.calleeName, e.callerName, e.callerAddr)];
    }
    assert edges[..|edges|] == edges;
    var depthOf, truncated := Search(arcs, byCallee, addrOf, target, depth, maxNodes);
    r := XrefResult(target, "callers", depth,
      map n | n in depthOf :: XrefNode(if n in addrOf then Some(addrOf[n]) else None, depthOf[n]), truncated, maxNodes);
    CallersExact(edges, target, depth, maxNodes);
  }

  // The two hash maps hold what the arcs say.
  ghost predicate Indexed(arcs: seq<Arc>, byTail: map<Name, seq<Name>>, addrOf: map<Name, nat>) {
    && (forall n :: Heads(arcs, n) == if n in byTail then byTail[n] else [])
    && (forall n :: FirstAddr(arcs, n) == if n in addrOf then Some(addrOf[n]) else None)
  }

  lemma AddArc(arcs: seq<Arc>, byTail: map<Name, seq<Name>>, addrOf: map<Name, nat>, a: Arc)
    requires Indexed(arcs, byTail, addrOf)
    ensures Indexed(arcs + [a], byTail[a.tail := (if a.tail in byTail then byTail[a.tail] else []) + [a.head]],
                    if a.head in addrOf then addrOf else addrOf[a.head := a.headAddr])
  {
    hide Heads, FirstAddr;
    forall n: Name
      ensures Heads(arcs + [a], n) == (if a.tail == n then Heads(arcs, n) + [a.head] else Heads(arcs, n))
      ensures FirstAddr(arcs + [a], n)
           == if FirstAddr(arcs, n).None? && a.head == n then Some(a.headAddr) else FirstAddr(arcs, n)
    {
      ArcSnoc(arcs, a, n);
    }
  }

  lemma ArcSnoc(arcs: seq<Arc>, a: Arc, n: Name)
    ensures Heads(arcs + [a], n) == (if a.tail == n then Heads(arcs, n) + [a.head] else Heads(arcs, n))
    ensures FirstAddr(arcs + [a], n)
         == if FirstAddr(arcs, n).None? && a.head == n then Some(a.headAddr) else FirstAddr(arcs, n)
  {
    assert (arcs + [a])[..|arcs|] == arcs;
  }

  // The triple loop shared by both directions.
  method Search(ghost arcs: seq<Arc>, byTail: map<Name, seq<Name>>, ghost addrOf: map<Name, nat>, root: Name,
      depth: nat, maxNodes: nat)
    returns (depthOf: map<Name, nat>, truncated: bool)
    requires Indexed(arcs, byTail, addrOf)
    ensures (depthOf, truncated) == Bfs(arcs, root, depth, maxNodes)
  {
    hide Heads, FirstAddr, Visit;
    depthOf, truncated := map[], false;
    var frontier := [root];
    var d := 1;
    while d <= depth
      invariant 1 <= d <= depth + 1
      invariant Bfs(arcs, root, depth, maxNodes) == Rounds(arcs, frontier, depthOf, d, depth, maxNodes)
    {
      ghost var all := Visit(AllHeads(arcs, frontier), State(depthOf, [], false), d, maxNodes);
      var next: seq<Name> := [];
      var i := 0;
      while i < |frontier|
        invariant 0 <= i <= |frontier|
        invariant all == Visit(AllHeads(arcs, frontier[i..]), State(depthOf, next, false), d, maxNodes)
      {
        var names := if frontier[i] in byTail then byTail[frontier[i]] else [];
        assert frontier[i..][1..] == frontier[i + 1..];
        VisitAppend(names, AllHeads(arcs, frontier[i + 1..]), State(depthOf, next, false), d, maxNodes);
        depthOf, next, truncated := VisitNames(names, depthOf, next, d, maxNodes);
        VisitStops(AllHeads(arcs, frontier[i + 1..]), State(depthOf, next, truncated), d, maxNodes);
        if truncated {
          return;
        }
        i := i + 1;
      }
      assert frontier[i..] == [];
      VisitStops([], State(depthOf, next, false), d, maxNodes);
      if next == [] {
        return;
      }
      frontier := next;
      d := d + 1;
    }
  }

  // The innermost loop: the frontier node's callees (or callers).
  method VisitNames(names: seq<Name>, seen: map<Name, nat>, found: seq<Name>, d: nat, maxNodes: nat)
    returns (depthOf: map<Name, nat>, next: seq<Name>, truncated: bool)
    ensures State(depthOf, next, truncated) == Visit(names, State(seen, found, false), d, maxNodes)
  {
    depthOf, next := seen, found;
    for j := 0 to |names|
      invariant Visit(names, State(seen, found, false), d, maxNodes)
          == Visit(names[j..], State(depthOf, next, false), d, maxNodes)
    {
      var c := names[j];
      assert names[j..][1..] == names[j + 1..];
      if c !in depthOf {
        depthOf := depthOf[c := d];
        next := next + [c];
        if |depthOf| >= maxNodes {
          return depthOf, next, true;
        }
      }
    }
    truncated := false;
  }

  lemma VisitStops(names: seq<Name>, st: State, d: nat, maxNodes: nat)
    ensures names == [] || st.truncated ==> Visit(names, st, d, maxNodes) == st
  {
  }

  lemma {:induction false} VisitAppend(a: seq<Name>, b: seq<Name>, st: State, d: nat, maxNodes: nat)
    ensures Visit(a + b, st, d, maxNodes) == Visit(b, Visit(a, st, d, maxNodes), d, maxNodes)
    decreases |a|
  {
    hide Record;
    if a == [] {
      assert a + b == b;
    } else if !st.truncated {
      assert (a + b)[1..] == a[1..] + b;
      if a[0] in st.depthOf {
        VisitAppend(a[1..], b, st, d, maxNodes);
      } else {
        VisitAppend(a[1..], b, Record(st, a[0], d, maxNodes), d, maxNodes);
      }
    }
  }

  // Looking for callers is looking for callees in the reversed graph: names, depths, addresses and
  // truncation agree.
  function Reverse(edges: seq<CallEdge>): (r: seq<CallEdge>)
    ensures |r| == |edges|
  {
    if edges == [] then []
    else
      var e := edges[|edges| - 1];
      Reverse(edges[..|edges| - 1]) + [CallEdge(e.callSite, e.calleeAddr, e.calleeName, e.callerAddr, e.callerName)]
  }

  lemma {:induction false} ReverseArcs(edges: seq<CallEdge>)
    ensures CallerArcs(edges) == CalleeArcs(Reverse(edges))
    ensures CalleeArcs(edges) == CallerArcs(Reverse(edges))
  {
    if edges != [] {
      var init := edges[..|edges| - 1];
      ReverseArcs(init);
      assert Reverse(edges)[..|edges| - 1] == Reverse(init);
    }
  }

  lemma CallersAreReversedCallees(edges: seq<CallEdge>, n: Name, depth: nat, maxNodes: nat)
    ensures ResultOf(CallerArcs(edges), n, "callers", depth, maxNodes)
         == ResultOf(CalleeArcs(Reverse(edges)), n, "callees", depth, maxNodes).(direction := "callers")
  {
    ReverseArcs(edges);
  }

  // ----- distance -----

  // A call path: consecutive names joined by arcs.
  ghost predicate CallPath(arcs: seq<Arc>, p: seq<Name>) {
    p != [] && forall i :: 0 < i < |p| ==> Joined(arcs, p[i - 1], p[i])
  }

  ghost predicate Joined(arcs: seq<Arc>, a: Name, b: Name) {
    exists arc :: arc in arcs && arc.tail == a && arc.head == b
  }

  // x is k calls away along some path.
  ghost predicate PathOf(arcs: seq<Arc>, root: Name, x: Name, k: nat) {
    exists p :: |p| == k + 1 && CallPath(arcs, p) && p[0] == root && p[k] == x
  }

  // d is the length of a shortest nonempty call path from root to x.
  ghost predicate Distance(arcs: seq<Arc>, root: Name, x: Name, d: nat) {
    d >= 1 && PathOf(arcs, root, x, d) && forall k: nat :: 1 <= k < d ==> !PathOf(arcs, root, x, k)
  }

  ghost function Layer(arcs: seq<Arc>, root: Name, k: nat): set<Name>
    decreases k
  {
    if k == 0 then {root} else set a | a in arcs && a.tail in Layer(arcs, root, k - 1) :: a.head
  }

  // Everything between one and d calls away.
  ghost function Within(arcs: seq<Arc>, root: Name, d: nat): set<Name>
    decreases d
  {
    if d == 0 then {} else Within(arcs, root, d - 1) + Layer(arcs, root, d)
  }

  lemma {:induction false} LayerToPath(arcs: seq<Arc>, root: Name, x: Name, k: nat) returns (p: seq<Name>)
    requires x in Layer(arcs, root, k)
    ensures |p| == k + 1 && CallPath(arcs, p) && p[0] == root && p[k] == x
    decreases k
  {
    if k == 0 {
      p := [root];
    } else {
      var n := Predecessor(arcs, root, k, x);
      var q := LayerToPath(arcs, root, n, k - 1);
      p := q + [x];
    }
  }

  lemma {:induction false} PathToLayer(arcs: seq<Arc>, root: Name, p: seq<Name>)
    requires CallPath(arcs, p) && p[0] == root
    ensures p[|p| - 1] in Layer(arcs, root, |p| - 1)
    decreases |p|
  {
    if |p| > 1 {
      var q := p[..|p| - 1];
      PathToLayer(arcs, root, q);
      assert Joined(arcs, p[|p| - 2], p[|p| - 1]);
      LayerStep(arcs, root, |p| - 1, p[|p| - 2], p[|p| - 1]);
    }
  }

  lemma LayerIsPaths(arcs: seq<Arc>, root: Name, x: Name, k: nat)
    ensures x in Layer(arcs, root, k) <==> PathOf(arcs, root, x, k)
  {
    hide Layer, CallPath;
    if x in Layer(arcs, root, k) {
      var p := LayerToPath(arcs, root, x, k);
    }
    if PathOf(arcs, root, x, k) {
      var p :| |p| == k + 1 && CallPath(arcs, p) && p[0] == root && p[k] == x;
      PathToLayer(arcs, root, p);
    }
  }

  lemma {:induction false} WithinToLayer(arcs: seq<Arc>, root: Name, x: Name, d: nat) returns (k: nat)
    requires x in Within(arcs, root, d)
    ensures 1 <= k <= d && x in Layer(arcs, root, k)
    decreases d
  {
    hide Layer;
    if x in Layer(arcs, root, d) {
      k := d;
    } else {
      k := WithinToLayer(arcs, root, x, d - 1);
    }
  }

  lemma LayerToWithin(arcs: seq<Arc>, root: Name, x: Name, k: nat, d: nat)
    requires 1 <= k <= d && x in Layer(arcs, root, k)
    ensures x in Within(arcs, root, d)
  {
    hide Layer;
    WithinGrows(arcs, root, k, d - k);
  }

  // First reached in layer d, not before: that is being at distance d.
  lemma NewIsDistance(arcs: seq<Arc>, root: Name, x: Name, d: nat)
    requires d >= 1 && x in Layer(arcs, root, d) && x !in Within(arcs, root, d - 1)
    ensures Distance(arcs, root, x, d)
  {
    hide Layer, Within, PathOf;
    LayerIsPaths(arcs, root, x, d);
    forall k: nat | 1 <= k < d ensures !PathOf(arcs, root, x, k) {
      LayerIsPaths(arcs, root, x, k);
      if x in Layer(arcs, root, k) {
        LayerToWithin(arcs, root, x, k, d - 1);
      }
    }
  }

  // ----- what the search visits -----

  ghost function ToSet(s: seq<Name>): set<Name> { set x | x in s }

  lemma {:induction false} HeadsAre(arcs: seq<Arc>, n: Name, x: Name)
    ensures x in Heads(arcs, n) <==> Joined(arcs, n, x)
  {
    if arcs != [] {
      var init, a := arcs[..|arcs| - 1], arcs[|arcs| - 1];
      assert arcs == init + [a];
      HeadsAre(init, n, x);
      if Joined(arcs, n, x) {
        var w :| w in arcs && w.tail == n && w.head == x;
        assert w in init || w == a;
      }
    }
  }

  lemma {:induction false} AllHeadsAre(arcs: seq<Arc>, frontier: seq<Name>, x: Name)
    ensures x in AllHeads(arcs, frontier) <==> exists n :: n in frontier && Joined(arcs, n, x)
  {
    hide Joined, Heads;
    if frontier != [] {
      AllHeadsAre(arcs, frontier[1..], x);
      HeadsAre(arcs, frontier[0], x);
      assert frontier == [frontier[0]] + frontier[1..];
    }
  }

  // The bound the source tests: it stops at max_nodes, but only after inserting a node.
  function Bound(maxNodes: nat): nat { if maxNodes == 0 then 1 else maxNodes }

  // From st, offering `names` at depth d led to r: exactly the unseen names were recorded, until the
  // node bound was reached.
  ghost predicate Offered(st: State, names: seq<Name>, d: nat, maxNodes: nat, r: State) {
    && st.depthOf.Keys <= r.depthOf.Keys <= st.depthOf.Keys + ToSet(names)
    && (forall n :: n in r.depthOf ==> r.depthOf[n] == if n in st.depthOf then st.depthOf[n] else d)
    && ToSet(r.next) == ToSet(st.next) + (r.depthOf.Keys - st.depthOf.Keys)
    && (if r.truncated then |r.depthOf| == Bound(maxNodes)
        else |r.depthOf| < Bound(maxNodes) && r.depthOf.Keys == st.depthOf.Keys + ToSet(names))
  }

  lemma {:induction false} VisitEffect(names: seq<Name>, st: State, d: nat, maxNodes: nat)
    requires !st.truncated && |st.depthOf| < Bound(maxNodes)
    ensures Offered(st, names, d, maxNodes, Visit(names, st, d, maxNodes))
    decreases |names|
  {
    hide Record, Offered;
    if names == [] {
      OfferedNone(st, d, maxNodes);
    } else if names[0] in st.depthOf {
      VisitEffect(names[1..], st, d, maxNodes);
      OfferedSeen(st, names, d, maxNodes, Visit(names[1..], st, d, maxNodes));
    } else {
      var st' := Record(st, names[0], d, maxNodes);
      RecordEffect(st, names[0], d, maxNodes);
      if st'.truncated {
        OfferedFull(st, names, d, maxNodes);
      } else {
        VisitEffect(names[1..], st', d, maxNodes);
        OfferedNew(st, names, d, maxNodes, Visit(names[1..], st', d, maxNodes));
      }
    }
  }

  lemma OfferedNone(st: State, d: nat, maxNodes: nat)
    requires !st.truncated && |st.depthOf| < Bound(maxNodes)
    ensures Offered(st, [], d, maxNodes, st)
  {
    hide ToSet;
    EmptySet();
  }

  lemma OfferedSeen(st: State, names: seq<Name>, d: nat, maxNodes: nat, r: State)
    requires names != [] && names[0] in st.depthOf && Offered(st, names[1..], d, maxNodes, r)
    ensures Offered(st, names, d, maxNodes, r)
  {
    hide ToSet;
    Cons(names);
  }

  lemma OfferedFull(st: State, names: seq<Name>, d: nat, maxNodes: nat)
    requires names != [] && names[0] !in st.depthOf && |st.depthOf| < Bound(maxNodes)
    requires Record(st, names[0], d, maxNodes).truncated
    ensures Offered(st, names, d, maxNodes, Record(st, names[0], d, maxNodes))
  {
    hide ToSet, Record;
    Cons(names);
    RecordEffect(st, names[0], d, maxNodes);
  }

  lemma OfferedNew(st: State, names: seq<Name>, d: nat, maxNodes: nat, r: State)
    requires names != [] && names[0] !in st.depthOf && |st.depthOf| < Bound(maxNodes)
    requires Offered(Record(st, names[0], d, maxNodes), names[1..], d, maxNodes, r)
    ensures Offered(st, names, d, maxNodes, r)
  {
    hide ToSet, Record;
    Cons(names);
    RecordEffect(st, names[0], d, maxNodes);
    SetStep(ToSet(st.next), names[0], st.depthOf.Keys, r.depthOf.Keys, ToSet(names[1..]));
  }

  lemma SetStep(next: set<Name>, n: Name, before: set<Name>, after: set<Name>, rest: set<Name>)
    requires n !in before && n in after
    ensures next + {n} + (after - (before + {n})) == next + (after - before)
    ensures before + {n} + rest == before + ({n} + rest)
  {
  }

  lemma EmptySet()
    ensures ToSet([]) == {}
  {
  }

  lemma Cons(s: seq<Name>)
    requires s != []
    ensures ToSet(s) == {s[0]} + ToSet(s[1..])
  {
  }

  lemma RecordEffect(st: State, n: Name, d: nat, maxNodes: nat)
    requires n !in st.depthOf && |st.depthOf| < Bound(maxNodes)
    ensures var r := Record(st, n, d, maxNodes);
      && r.depthOf.Keys == st.depthOf.Keys + {n} && |r.depthOf| == |st.depthOf| + 1
      && (forall m :: m in r.depthOf ==> r.depthOf[m] == if m in st.depthOf then st.depthOf[m] else d)
      && ToSet(r.next) == ToSet(st.next) + {n}
      && (if r.truncated then |r.depthOf| == Bound(maxNodes) else |r.depthOf| < Bound(maxNodes))
  {
    var r := Record(st, n, d, maxNodes);
    assert r.depthOf.Keys == st.depthOf.Keys + {n};
  }

  // One breadth-first layer: from a frontier that leads on to everything new at distance d, the names
  // recorded are exactly those.
  lemma FrontierStep(arcs: seq<Arc>, root: Name, frontier: seq<Name>, d: nat)
    requires d >= 1
    requires ToSet(frontier) == Layer(arcs, root, d - 1) - (if d >= 2 then Within(arcs, root, d - 2) else {})
    ensures Within(arcs, root, d - 1) + ToSet(AllHeads(arcs, frontier)) == Within(arcs, root, d)
  {
    hide Joined, Heads;
    forall x | x in ToSet(AllHeads(arcs, frontier)) ensures x in Layer(arcs, root, d) {
      AllHeadsAre(arcs, frontier, x);
      var n :| n in frontier && Joined(arcs, n, x);
      assert n in ToSet(frontier);
      LayerStep(arcs, root, d, n, x);
    }
    forall x | x in Layer(arcs, root, d)
      ensures x in Within(arcs, root, d - 1) || x in ToSet(AllHeads(arcs, frontier))
    {
      var n := Predecessor(arcs, root, d, x);
      if n in ToSet(frontier) {
        AllHeadsAre(arcs, frontier, x);
      } else {
        WithinStep(arcs, root, d - 2, n, x);
      }
    }
  }

  lemma LayerStep(arcs: seq<Arc>, root: Name, d: nat, n: Name, x: Name)
    requires d >= 1 && n in Layer(arcs, root, d - 1) && Joined(arcs, n, x)
    ensures x in Layer(arcs, root, d)
  {
  }

  lemma Predecessor(arcs: seq<Arc>, root: Name, d: nat, x: Name) returns (n: Name)
    requires d >= 1 && x in Layer(arcs, root, d)
    ensures n in Layer(arcs, root, d - 1) && Joined(arcs, n, x)
  {
    var a :| a in arcs && a.tail in Layer(arcs, root, d - 1) && a.head == x;
    n := a.tail;
  }

  lemma {:induction false} WithinStep(arcs: seq<Arc>, root: Name, d: nat, n: Name, x: Name)
    requires n in Within(arcs, root, d) && Joined(arcs, n, x)
    ensures x in Within(arcs, root, d + 1)
    decreases d
  {
    hide Joined;
    if n in Layer(arcs, root, d) {
      LayerStep(arcs, root, d + 1, n, x);
    } else {
      WithinStep(arcs, root, d - 1, n, x);
    }
  }

  // Once a layer adds nothing, no later one does.
  lemma {:induction false} Saturated(arcs: seq<Arc>, root: Name, d: nat, more: nat)
    requires d >= 1 && Within(arcs, root, d) == Within(arcs, root, d - 1)
    ensures Within(arcs, root, d + more) == Within(arcs, root, d)
    decreases more
  {
    hide Layer, Joined;
    if more > 0 {
      Saturated(arcs, root, d, more - 1);
      forall x | x in Layer(arcs, root, d + more) ensures x in Within(arcs, root, d) {
        var n := Predecessor(arcs, root, d + more, x);
        assert n in Within(arcs, root, d + more - 1);
        WithinStep(arcs, root, d - 1, n, x);
      }
    }
  }

  ghost predicate Exact(arcs: seq<Arc>, root: Name, depthOf: map<Name, nat>, d: nat) {
    forall n :: n in depthOf ==> 1 <= depthOf[n] <= d && Distance(arcs, root, n, depthOf[n])
  }

  // Nothing nearer than a recorded name is missing.
  ghost predicate Layered(arcs: seq<Arc>, root: Name, depthOf: map<Name, nat>) {
    forall n, k: nat :: n in depthOf && k < depthOf[n] ==> Within(arcs, root, k) <= depthOf.Keys
  }

  lemma LayeredIfFull(arcs: seq<Arc>, root: Name, depthOf: map<Name, nat>, d: nat)
    requires Exact(arcs, root, depthOf, d) && (d >= 1 ==> Within(arcs, root, d - 1) <= depthOf.Keys)
    ensures Layered(arcs, root, depthOf)
  {
    hide Layer, Distance, Within;
    forall n, k: nat | n in depthOf && k < depthOf[n] ensures Within(arcs, root, k) <= depthOf.Keys {
      WithinGrows(arcs, root, k, d - 1 - k);
    }
  }

  lemma {:induction false} WithinGrows(arcs: seq<Arc>, root: Name, d: nat, more: nat)
    ensures Within(arcs, root, d) <= Within(arcs, root, d + more)
    decreases more
  {
    hide Layer;
    if more > 0 {
      WithinGrows(arcs, root, d, more - 1);
    }
  }

  lemma RoundEffect(arcs: seq<Arc>, root: Name, frontier: seq<Name>, depthOf: map<Name, nat>, d: nat, maxNodes: nat)
    requires d >= 1 && |depthOf| < Bound(maxNodes) && Exact(arcs, root, depthOf, d - 1)
    requires depthOf.Keys == Within(arcs, root, d - 1)
    requires ToSet(frontier) == Layer(arcs, root, d - 1) - (if d >= 2 then Within(arcs, root, d - 2) else {})
    ensures var st := Visit(AllHeads(arcs, frontier), State(depthOf, [], false), d, maxNodes);
      && Exact(arcs, root, st.depthOf, d) && depthOf.Keys <= st.depthOf.Keys <= Within(arcs, root, d)
      && (if st.truncated then |st.depthOf| == Bound(maxNodes)
          else (|st.depthOf| < Bound(maxNodes) && st.depthOf.Keys == Within(arcs, root, d)
            && ToSet(st.next) == Layer(arcs, root, d) - Within(arcs, root, d - 1)))
  {
    hide Layer, Visit, AllHeads, ToSet, Exact, Within;
    var names := AllHeads(arcs, frontier);
    var st := Visit(names, State(depthOf, [], false), d, maxNodes);
    VisitEffect(names, State(depthOf, [], false), d, maxNodes);
    FrontierStep(arcs, root, frontier, d);
    EmptySet();
    WithinSplit(arcs, root, d);
    ExactExtends(arcs, root, depthOf, st.depthOf, d);
  }

  lemma WithinSplit(arcs: seq<Arc>, root: Name, d: nat)
    requires d >= 1
    ensures Within(arcs, root, d) == Within(arcs, root, d - 1) + Layer(arcs, root, d)
    ensures Within(arcs, root, d) - Within(arcs, root, d - 1) == Layer(arcs, root, d) - Within(arcs, root, d - 1)
  {
    hide Layer;
  }

  lemma ExactExtends(arcs: seq<Arc>, root: Name, before: map<Name, nat>, after: map<Name, nat>, d: nat)
    requires d >= 1 && Exact(arcs, root, before, d - 1) && before.Keys == Within(arcs, root, d - 1)
    requires after.Keys <= Within(arcs, root, d)
    requires forall n :: n in after ==> after[n] == if n in before then before[n] else d
    ensures Exact(arcs, root, after, d)
  {
    hide Layer, Distance;
    forall n | n in after ensures 1 <= after[n] <= d && Distance(arcs, root, n, after[n]) {
      if n !in before {
        NewIsDistance(arcs, root, n, d);
      }
    }
  }

  lemma {:induction false} RoundsExact(
    arcs: seq<Arc>, root: Name, frontier: seq<Name>, depthOf: map<Name, nat>, d: nat, depth: nat, maxNodes: nat)
    requires 1 <= d <= depth + 1 && |depthOf| < Bound(maxNodes) && Exact(arcs, root, depthOf, d - 1)
    requires depthOf.Keys == Within(arcs, root, d - 1)
    requires ToSet(frontier) == Layer(arcs, root, d - 1) - (if d >= 2 then Within(arcs, root, d - 2) else {})
    ensures var (m, truncated) := Rounds(arcs, frontier, depthOf, d, depth, maxNodes);
      && Exact(arcs, root, m, depth) && m.Keys <= Within(arcs, root, depth) && Layered(arcs, root, m)
      && (if truncated then |m| == Bound(maxNodes) else |m| < Bound(maxNodes) && m.Keys == Within(arcs, root, depth))
    decreases depth + 1 - d
  {
    hide Layer, Visit, AllHeads, ToSet, Within, Exact, Layered;
    if d > depth {
      if depth >= 1 {
        WithinGrows(arcs, root, depth - 1, 1);
      }
      LayeredIfFull(arcs, root, depthOf, depth);
    } else {
      RoundEffect(arcs, root, frontier, depthOf, d, maxNodes);
      var st := Visit(AllHeads(arcs, frontier), State(depthOf, [], false), d, maxNodes);
      LayeredIfFull(arcs, root, st.depthOf, d);
      ExactWeaken(arcs, root, st.depthOf, d, depth);
      WithinGrows(arcs, root, d, depth - d);
      if st.truncated {
        assert Rounds(arcs, frontier, depthOf, d, depth, maxNodes) == (st.depthOf, true);
      } else if st.next == [] {
        EmptySet();
        NothingNew(arcs, root, d);
        Saturated(arcs, root, d, depth - d);
        assert Rounds(arcs, frontier, depthOf, d, depth, maxNodes) == (st.depthOf, false);
      } else {
        RoundsExact(arcs, root, st.next, st.depthOf, d + 1, depth, maxNodes);
      }
    }
  }

  lemma ExactWeaken(arcs: seq<Arc>, root: Name, m: map<Name, nat>, d: nat, depth: nat)
    requires d <= depth && Exact(arcs, root, m, d)
    ensures Exact(arcs, root, m, depth)
  {
    hide Distance;
  }

  lemma NothingNew(arcs: seq<Arc>, root: Name, d: nat)
    requires d >= 1 && Layer(arcs, root, d) - Within(arcs, root, d - 1) == {}
    ensures Within(arcs, root, d) == Within(arcs, root, d - 1)
  {
    hide Layer;
    assert forall x :: x in Layer(arcs, root, d) ==>
        x in Layer(arcs, root, d) - Within(arcs, root, d - 1) || x in Within(arcs, root, d - 1);
  }

  // The search is exact. Every reported depth is a shortest distance, truncated or not; the names are
  // as many as lie within the depth bound, up to the node bound; truncation is reported exactly when
  // that many exist, and otherwise nothing is missing; it is reported with nothing missing exactly when the
  // names within depth just fill the bound.
  lemma BfsExact(arcs: seq<Arc>, root: Name, depth: nat, maxNodes: nat)
    ensures var (m, truncated) := Bfs(arcs, root, depth, maxNodes);
      && (forall n :: n in m ==> 1 <= m[n] <= depth && Distance(arcs, root, n, m[n]))
      && (!truncated ==> forall n :: (exists k: nat :: 1 <= k <= depth && PathOf(arcs, root, n, k)) ==> n in m)
      && m.Keys <= Within(arcs, root, depth) && Layered(arcs, root, m)
      && |m| == Min(Bound(maxNodes), |Within(arcs, root, depth)|)
      && (truncated <==> |Within(arcs, root, depth)| >= Bound(maxNodes))
      && (truncated && m.Keys == Within(arcs, root, depth) <==> |Within(arcs, root, depth)| == Bound(maxNodes))
  {
    hide Layer, Rounds, Distance, PathOf, Layered;
    var (m, truncated) := Bfs(arcs, root, depth, maxNodes);
    assert ToSet([root]) == Layer(arcs, root, 0) by {
      RootLayer(arcs, root);
    }
    var none: map<Name, nat> := map[];
    assert Within(arcs, root, 0) == {} == none.Keys;
    RoundsExact(arcs, root, [root], none, 1, depth, maxNodes);
    SubsetSize(m.Keys, Within(arcs, root, depth));
    if |Within(arcs, root, depth)| == Bound(maxNodes) {
      FullSubset(m.Keys, Within(arcs, root, depth));
    }
    forall n | exists k: nat :: 1 <= k <= depth && PathOf(arcs, root, n, k) ensures n in Within(arcs, root, depth) {
      var k: nat :| 1 <= k <= depth && PathOf(arcs, root, n, k);
      LayerIsPaths(arcs, root, n, k);
      LayerToWithin(arcs, root, n, k, depth);
    }
  }

  lemma RootLayer(arcs: seq<Arc>, root: Name)
    ensures ToSet([root]) == Layer(arcs, root, 0)
  {
  }

  lemma SubsetSize(a: set<Name>, b: set<Name>)
    requires a <= b
    ensures |a| <= |b|
  {
    assert b == a + (b - a);
  }

  lemma FullSubset(a: set<Name>, b: set<Name>)
    requires a <= b && |a| == |b|
    ensures a == b
  {
    assert b == a + (b - a);
    assert |b| == |a| + |b - a|;
  }

  // For example, one call and a bound of one: truncation is reported though the only callee is listed.
  lemma TruncatedWithNothingMissing()
    ensures var arcs, root, callee: Name := [Arc([1], [2], 0)], [1], [2];
      Bfs(arcs, root, 1, 1) == (map[callee := 1], true) && Within(arcs, root, 1) == {callee}
  {
    hide Bfs, Within;
    OneCall();
    OneWithin();
  }

  lemma OneWithin()
    ensures Within([Arc([1], [2], 0)], [1], 1) == {[2]}
  {
    var arcs, root, callee: Name := [Arc([1], [2], 0)], [1], [2];
    assert Joined(arcs, root, callee);
    RootLayer(arcs, root);
    assert Layer(arcs, root, 0) == {root};
    assert Layer(arcs, root, 1) == {callee};
    assert Within(arcs, root, 1) == Within(arcs, root, 0) + Layer(arcs, root, 1);
  }

  lemma OneCall()
    ensures Bfs([Arc([1], [2], 0)], [1], 1, 1) == (map[[2] := 1], true)
  {
    var arcs, root, callee: Name := [Arc([1], [2], 0)], [1], [2];
    assert arcs[..0] == [] && Heads(arcs, root) == [callee];
    assert AllHeads(arcs, [root]) == [callee];
    assert Visit([callee], State(map[], [], false), 1, 1) == State(map[callee := 1], [callee], true);
  }

  // ----- from arcs back to the calls -----

  lemma {:induction false} CalleeArcAt(edges: seq<CallEdge>, i: nat)
    requires i < |edges|
    ensures CalleeArcs(edges)[i] == Arc(edges[i].callerName, edges[i].calleeName, edges[i].calleeAddr)
  {
    var init := edges[..|edges| - 1];
    if i < |init| {
      CalleeArcAt(init, i);
    }
  }

  lemma {:induction false} CallerArcAt(edges: seq<CallEdge>, i: nat)
    requires i < |edges|
    ensures CallerArcs(edges)[i] == Arc(edges[i].calleeName, edges[i].callerName, edges[i].callerAddr)
  {
    var init := edges[..|edges| - 1];
    if i < |init| {
      CallerArcAt(init, i);
    }
  }

  lemma CallOfCalleeArc(edges: seq<CallEdge>, a: Name, b: Name) returns (e: CallEdge)
    requires Joined(CalleeArcs(edges), a, b)
    ensures e in edges && e.callerName == a && e.calleeName == b
  {
    hide CalleeArcs;
    var arcs := CalleeArcs(edges);
    var i :| 0 <= i < |arcs| && arcs[i].tail == a && arcs[i].head == b;
    CalleeArcAt(edges, i);
    e := edges[i];
  }

  lemma CallOfCallerArc(edges: seq<CallEdge>, b: Name, a: Name) returns (e: CallEdge)
    requires Joined(CallerArcs(edges), b, a)
    ensures e in edges && e.callerName == a && e.calleeName == b
  {
    hide CallerArcs;
    var arcs := CallerArcs(edges);
    var i :| 0 <= i < |arcs| && arcs[i].tail == b && arcs[i].head == a;
    CallerArcAt(edges, i);
    e := edges[i];
  }

  lemma ArcsOfCall(edges: seq<CallEdge>, e: CallEdge)
    requires e in edges
    ensures Joined(CalleeArcs(edges), e.callerName, e.calleeName)
    ensures Joined(CallerArcs(edges), e.calleeName, e.callerName)
  {
    hide CalleeArcs, CallerArcs;
    var i :| 0 <= i < |edges| && edges[i] == e;
    CalleeArcAt(edges, i);
    CallerArcAt(edges, i);
    assert CalleeArcs(edges)[i] in CalleeArcs(edges);
    assert CallerArcs(edges)[i] in CallerArcs(edges);
  }

  // Along the callees a chain grows at its end, along the callers at its front.
  lemma {:induction false} CalleeChain(edges: seq<CallEdge>, from: Name, x: Name, k: nat) returns (p: seq<CallEdge>)
    requires k >= 1 && x in Layer(CalleeArcs(edges), from, k)
    ensures |p| == k && Chain(edges, p) && p[0].callerName == from && p[k - 1].calleeName == x
    decreases k
  {
    hide Joined, CalleeArcs;
    var n := Predecessor(CalleeArcs(edges), from, k, x);
    var e := CallOfCalleeArc(edges, n, x);
    if k == 1 {
      p := [e];
    } else {
      var q := CalleeChain(edges, from, n, k - 1);
      p := q + [e];
    }
  }

  lemma {:induction false} CallerChain(edges: seq<CallEdge>, target: Name, x: Name, k: nat) returns (p: seq<CallEdge>)
    requires k >= 1 && x in Layer(CallerArcs(edges), target, k)
    ensures |p| == k && Chain(edges, p) && p[0].callerName == x && p[k - 1].calleeName == target
    decreases k
  {
    hide Joined, CallerArcs;
    var n := Predecessor(CallerArcs(edges), target, k, x);
    var e := CallOfCallerArc(edges, n, x);
    if k == 1 {
      p := [e];
    } else {
      var q := CallerChain(edges, target, n, k - 1);
      p := [e] + q;
    }
  }

  lemma {:induction false} ChainToCallee(edges: seq<CallEdge>, p: seq<CallEdge>)
    requires p != [] && Chain(edges, p)
    ensures p[|p| - 1].calleeName in Layer(CalleeArcs(edges), p[0].callerName, |p|)
    decreases |p|
  {
    hide Joined, CalleeArcs;
    var last := p[|p| - 1];
    ArcsOfCall(edges, last);
    if |p| > 1 {
      ChainToCallee(edges, p[..|p| - 1]);
    }
    LayerStep(CalleeArcs(edges), p[0].callerName, |p|, last.callerName, last.calleeName);
  }

  lemma {:induction false} ChainToCaller(edges: seq<CallEdge>, p: seq<CallEdge>)
    requires p != [] && Chain(edges, p)
    ensures p[0].callerName in Layer(CallerArcs(edges), p[|p| - 1].calleeName, |p|)
    decreases |p|
  {
    hide Joined, CallerArcs;
    ArcsOfCall(edges, p[0]);
    if |p| > 1 {
      assert p[1].callerName == p[0].calleeName;
      ChainToCaller(edges, p[1..]);
    }
    LayerStep(CallerArcs(edges), p[|p| - 1].calleeName, |p|, p[0].calleeName, p[0].callerName);
  }

  // The k-th layer is what k calls lead to, and what k calls lead from.
  lemma LayerIsCallees(edges: seq<CallEdge>, from: Name, x: Name, k: nat)
    requires k >= 1
    ensures x in Layer(CalleeArcs(edges), from, k) <==> Calls(edges, from, x, k)
  {
    hide Layer, CalleeArcs, Chain;
    if x in Layer(CalleeArcs(edges), from, k) {
      var p := CalleeChain(edges, from, x, k);
    }
    if Calls(edges, from, x, k) {
      var p: seq<CallEdge> :| |p| == k && Chain(edges, p) && p[0].callerName == from && p[k - 1].calleeName == x;
      ChainToCallee(edges, p);
    }
  }

  lemma LayerIsCallers(edges: seq<CallEdge>, target: Name, x: Name, k: nat)
    requires k >= 1
    ensures x in Layer(CallerArcs(edges), target, k) <==> Calls(edges, x, target, k)
  {
    hide Layer, CallerArcs, Chain;
    if x in Layer(CallerArcs(edges), target, k) {
      var p := CallerChain(edges, target, x, k);
    }
    if Calls(edges, x, target, k) {
      var p: seq<CallEdge> :| |p| == k && Chain(edges, p) && p[0].callerName == x && p[k - 1].calleeName == target;
      ChainToCaller(edges, p);
    }
  }

  lemma WithinIsCallees(edges: seq<CallEdge>, from: Name, depth: nat)
    ensures Within(CalleeArcs(edges), from, depth) == CalleesWithin(edges, from, depth)
  {
    hide Layer, CalleeArcs, Calls, Within;
    var arcs := CalleeArcs(edges);
    forall x | x in Within(arcs, from, depth) ensures x in CalleesWithin(edges, from, depth) {
      var k := WithinToLayer(arcs, from, x, depth);
      LayerIsCallees(edges, from, x, k);
      var n := Predecessor(arcs, from, k, x);
      var e := CallOfCalleeArc(edges, n, x);
      assert CallsWithin(edges, from, e.calleeName, depth);
    }
    forall x | x in CalleesWithin(edges, from, depth) ensures x in Within(arcs, from, depth) {
      var k: nat :| k <= depth && Calls(edges, from, x, k);
      CallsAreSome(edges, from, x, k);
      LayerIsCallees(edges, from, x, k);
      LayerToWithin(arcs, from, x, k, depth);
    }
  }

  lemma WithinIsCallers(edges: seq<CallEdge>, target: Name, depth: nat)
    ensures Within(CallerArcs(edges), target, depth) == CallersWithin(edges, target, depth)
  {
    hide Layer, CallerArcs, Calls, Within;
    var arcs := CallerArcs(edges);
    forall x | x in Within(arcs, target, depth) ensures x in CallersWithin(edges, target, depth) {
      var k := WithinToLayer(arcs, target, x, depth);
      LayerIsCallers(edges, target, x, k);
      var n := Predecessor(arcs, target, k, x);
      var e := CallOfCallerArc(edges, n, x);
      assert CallsWithin(edges, e.callerName, target, depth);
    }
    forall x | x in CallersWithin(edges, target, depth) ensures x in Within(arcs, target, depth) {
      var k: nat :| k <= depth && Calls(edges, x, target, k);
      CallsAreSome(edges, x, target, k);
      LayerIsCallers(edges, target, x, k);
      LayerToWithin(arcs, target, x, k, depth);
    }
  }

  lemma CallsAreSome(edges: seq<CallEdge>, a: Name, b: Name, k: nat)
    requires Calls(edges, a, b, k)
    ensures k >= 1
  {
  }

  lemma DistanceIsCallees(edges: seq<CallEdge>, from: Name, x: Name, d: nat)
    requires Distance(CalleeArcs(edges), from, x, d)
    ensures FewestCalls(edges, from, x, d)
  {
    hide CalleeArcs, PathOf, Calls, Layer;
    LayerIsPaths(CalleeArcs(edges), from, x, d);
    LayerIsCallees(edges, from, x, d);
    forall k: nat | k < d ensures !Calls(edges, from, x, k) {
      if Calls(edges, from, x, k) {
        CallsAreSome(edges, from, x, k);
        LayerIsPaths(CalleeArcs(edges), from, x, k);
        LayerIsCallees(edges, from, x, k);
      }
    }
  }

  lemma DistanceIsCallers(edges: seq<CallEdge>, target: Name, x: Name, d: nat)
    requires Distance(CallerArcs(edges), target, x, d)
    ensures FewestCalls(edges, x, target, d)
  {
    hide CallerArcs, PathOf, Calls, Layer;
    LayerIsPaths(CallerArcs(edges), target, x, d);
    LayerIsCallers(edges, target, x, d);
    forall k: nat | k < d ensures !Calls(edges, x, target, k) {
      if Calls(edges, x, target, k) {
        CallsAreSome(edges, x, target, k);
        LayerIsPaths(CallerArcs(edges), target, x, k);
        LayerIsCallers(edges, target, x, k);
      }
    }
  }

  // The address kept for a name is that of the first arc into it.
  lemma {:induction false} FirstAddrIs(arcs: seq<Arc>, n: Name) returns (i: nat)
    requires exists a :: a in arcs && a.head == n
    ensures i < |arcs| && arcs[i].head == n && FirstAddr(arcs, n) == Some(arcs[i].headAddr)
    ensures forall j :: 0 <= j < i ==> arcs[j].head != n
  {
    var init := arcs[..|arcs| - 1];
    assert arcs == init + [arcs[|arcs| - 1]];
    if exists a :: a in init && a.head == n {
      i := FirstAddrIs(init, n);
    } else {
      NoAddr(init, n);
      i := |arcs| - 1;
      assert forall j :: 0 <= j < i ==> init[j] in init;
    }
  }

  lemma {:induction false} NoAddr(arcs: seq<Arc>, n: Name)
    requires forall a :: a in arcs ==> a.head != n
    ensures FirstAddr(arcs, n) == None
  {
    if arcs != [] {
      NoAddr(arcs[..|arcs| - 1], n);
    }
  }

  lemma CalleeAddress(edges: seq<CallEdge>, from: Name, n: Name, d: nat)
    requires FewestCalls(edges, from, n, d)
    ensures FirstAddr(CalleeArcs(edges), n).Some?
    ensures FirstReachedAt(edges, n, FirstAddr(CalleeArcs(edges), n).value)
  {
    hide CalleeArcs, FirstAddr;
    var arcs := CalleeArcs(edges);
    var p: seq<CallEdge> :| |p| == d >= 1 && Chain(edges, p) && p[0].callerName == from && p[d - 1].calleeName == n;
    ArcsOfCall(edges, p[d - 1]);
    var i := FirstAddrIs(arcs, n);
    CalleeArcAt(edges, i);
    forall j | 0 <= j < i ensures edges[j].calleeName != n {
      CalleeArcAt(edges, j);
    }
  }

  lemma CallerAddress(edges: seq<CallEdge>, target: Name, n: Name, d: nat)
    requires FewestCalls(edges, n, target, d)
    ensures FirstAddr(CallerArcs(edges), n).Some?
    ensures FirstCallingAt(edges, n, FirstAddr(CallerArcs(edges), n).value)
  {
    hide CallerArcs, FirstAddr;
    var arcs := CallerArcs(edges);
    var p: seq<CallEdge> :| |p| == d >= 1 && Chain(edges, p) && p[0].callerName == n && p[d - 1].calleeName == target;
    ArcsOfCall(edges, p[0]);
    var i := FirstAddrIs(arcs, n);
    CallerArcAt(edges, i);
    forall j | 0 <= j < i ensures edges[j].callerName != n {
      CallerArcAt(edges, j);
    }
  }

  lemma CalleesExact(edges: seq<CallEdge>, from: Name, depth: nat, maxNodes: nat)
    ensures CalleesReported(edges, from, depth, maxNodes, ResultOf(CalleeArcs(edges), from, "callees", depth, maxNodes))
  {
    hide Bfs, Distance, PathOf, Within, CalleesWithin, CalleeArcs, FewestCalls, FirstAddr, FirstReachedAt, Calls;
    var arcs := CalleeArcs(edges);
    var r := ResultOf(arcs, from, "callees", depth, maxNodes);
    var (depthOf, truncated) := Bfs(arcs, from, depth, maxNodes);
    assert r.nodes.Keys == depthOf.Keys;
    BfsExact(arcs, from, depth, maxNodes);
    WithinIsCallees(edges, from, depth);
    if !truncated {
      FullSubset(depthOf.Keys, Within(arcs, from, depth));
    }
    forall n | n in depthOf
      ensures FewestCalls(edges, from, n, depthOf[n])
      ensures FirstAddr(arcs, n).Some? && FirstReachedAt(edges, n, FirstAddr(arcs, n).value)
    {
      DistanceIsCallees(edges, from, n, depthOf[n]);
      CalleeAddress(edges, from, n, depthOf[n]);
    }
    forall n, m, k: nat | n in depthOf && k < depthOf[n] && Calls(edges, from, m, k) ensures m in depthOf {
      CallsAreSome(edges, from, m, k);
      LayerIsCallees(edges, from, m, k);
      LayerToWithin(arcs, from, m, k, k);
    }
  }

  lemma CallersExact(edges: seq<CallEdge>, target: Name, depth: nat, maxNodes: nat)
    ensures CallersReported(edges, target, depth, maxNodes,
                            ResultOf(CallerArcs(edges), target, "callers", depth, maxNodes))
  {
    hide Bfs, Distance, PathOf, Within, CallersWithin, CallerArcs, FewestCalls, FirstAddr, FirstCallingAt, Calls;
    var arcs := CallerArcs(edges);
    var r := ResultOf(arcs, target, "callers", depth, maxNodes);
    var (depthOf, truncated) := Bfs(arcs, target, depth, maxNodes);
    assert r.nodes.Keys == depthOf.Keys;
    BfsExact(arcs, target, depth, maxNodes);
    WithinIsCallers(edges, target, depth);
    if !truncated {
      FullSubset(depthOf.Keys, Within(arcs, target, depth));
    }
    forall n | n in depthOf
      ensures FewestCalls(edges, n, target, depthOf[n])
      ensures FirstAddr(arcs, n).Some? && FirstCallingAt(edges, n, FirstAddr(arcs, n).value)
    {
      DistanceIsCallers(edges, target, n, depthOf[n]);
      CallerAddress(edges, target, n, depthOf[n]);
    }
    forall n, m, k: nat | n in depthOf && k < depthOf[n] && Calls(edges, m, target, k) ensures m in depthOf {
      CallsAreSome(edges, m, target, k);
      LayerIsCallers(edges, target, m, k);
      LayerToWithin(arcs, target, m, k, k);
    }
  }
}
