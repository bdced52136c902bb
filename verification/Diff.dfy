/** Comparing two builds by their function sets: the four passes, and what they compute as sets. */
module Diff {
  import opened Wrappers
  import opened Bytes

  datatype Func = Func(addr: u64, name: string)

  datatype MatchKind = Identical | Moved | Renamed | Added | Removed

  datatype Pairing = Pairing(kind: MatchKind, before: Option<Func>, after: Option<Func>)

  datatype DiffReport = DiffReport(
    oldTotal: nat, newTotal: nat, identical: nat, moved: nat, renamed: nat, added: nat, removed: nat,
    pairings: seq<Pairing>)

  type Key<!K> = Func -> Option<K>

  predicate UniqueAddrs(fs: seq<Func>) { forall i, j :: 0 <= i < j < |fs| ==> fs[i].addr != fs[j].addr }

  ghost function Elems<T>(s: seq<T>): set<T> { set x | x in s }

  // ----- what the passes compute, as sets -----

  // f is the only member of s with its key.
  ghost predicate Single<K>(s: set<Func>, key: Key<K>, f: Func) {
    f in s && key(f).Some? && forall g :: g in s && key(g) == key(f) ==> g == f
  }

  // Functions paired because their common key is unambiguous on both sides.
  ghost function Pairs<K>(a: set<Func>, b: set<Func>, ka: Key<K>, kb: Key<K>): set<(Func, Func)> {
    set f, g | f in a && g in b && Single(a, ka, f) && Single(b, kb, g) && ka(f) == kb(g) :: (f, g)
  }

  ghost function Firsts(ps: set<(Func, Func)>): set<Func> { set p | p in ps :: p.0 }

  ghost function Seconds(ps: set<(Func, Func)>): set<Func> { set p | p in ps :: p.1 }

  function ByName(): Key<string> { (f: Func) => Some(f.name) }

  // No signatures at all when either side's are missing.
  function BySig(sigs: Option<map<u64, u64>>, other: Option<map<u64, u64>>): Key<u64> {
    (f: Func) => if sigs.Some? && other.Some? && f.addr in sigs.value then Some(sigs.value[f.addr]) else None
  }

  datatype Matching = Matching(
    same: set<Func>, moved: set<(Func, Func)>, renamed: set<(Func, Func)>, removed: set<Func>, added: set<Func>)

  ghost function Match(o: set<Func>, n: set<Func>, ko: Key<u64>, kn: Key<u64>): Matching {
    var same := o * n;
    var moved := Pairs(o - same, n - same, ByName(), ByName());
    var o2, n2 := o - same - Firsts(moved), n - same - Seconds(moved);
    var renamed := Pairs(o2, n2, ko, kn);
    Matching(same, moved, renamed, o2 - Firsts(renamed), n2 - Seconds(renamed))
  }

  ghost function Swap(ps: set<(Func, Func)>): set<(Func, Func)> { set p | p in ps :: (p.1, p.0) }

  // Comparing the other way round exchanges added and removed, and turns every pair around.
  lemma MatchSymmetric(o: set<Func>, n: set<Func>, ko: Key<u64>, kn: Key<u64>)
    ensures var m := Match(o, n, ko, kn);
      Match(n, o, kn, ko) == Matching(m.same, Swap(m.moved), Swap(m.renamed), m.added, m.removed)
  {
    hide Pairs;
    assert o * n == n * o;
    var same := o * n;
    PairsSwap(o - same, n - same, ByName(), ByName());
    var moved := Pairs(o - same, n - same, ByName(), ByName());
    SwapSides(moved);
    var o2, n2 := o - same - Firsts(moved), n - same - Seconds(moved);
    PairsSwap(o2, n2, ko, kn);
    SwapSides(Pairs(o2, n2, ko, kn));
  }

  lemma PairsSwap<K>(a: set<Func>, b: set<Func>, ka: Key<K>, kb: Key<K>)
    ensures Pairs(b, a, kb, ka) == Swap(Pairs(a, b, ka, kb))
  {
    hide Single;
    forall p | p in Pairs(b, a, kb, ka) ensures p in Swap(Pairs(a, b, ka, kb)) {
      assert (p.1, p.0) in Pairs(a, b, ka, kb);
    }
  }

  lemma SwapSides(ps: set<(Func, Func)>)
    ensures Firsts(Swap(ps)) == Seconds(ps) && Seconds(Swap(ps)) == Firsts(ps)
  {
    forall f | f in Seconds(ps) ensures f in Firsts(Swap(ps)) {
      var p :| p in ps && p.1 == f;
      assert (p.1, p.0) in Swap(ps);
    }
    forall f | f in Firsts(ps) ensures f in Seconds(Swap(ps)) {
      var p :| p in ps && p.0 == f;
      assert (p.1, p.0) in Swap(ps);
    }
  }

  // A build compared with itself is all identical.
  lemma SelfDiff(o: set<Func>, ko: Key<u64>)
    ensures Match(o, o, ko, ko) == Matching(o, {}, {}, {}, {})
  {
    assert o * o == o && o - o == {};
    assert Pairs({}, {}, ByName(), ByName()) == {};
    assert Pairs({}, {}, ko, ko) == {};
  }

  // Pairing is one to one, within the sides.
  lemma PairsOneToOne<K>(a: set<Func>, b: set<Func>, ka: Key<K>, kb: Key<K>)
    ensures var ps := Pairs(a, b, ka, kb);
      && (forall p, q :: p in ps && q in ps && (p.0 == q.0 || p.1 == q.1) ==> p == q)
      && Firsts(ps) <= a && Seconds(ps) <= b
      && |Firsts(ps)| == |ps| == |Seconds(ps)|
  {
    var ps := Pairs(a, b, ka, kb);
    forall p, q | p in ps && q in ps && (p.0 == q.0 || p.1 == q.1) ensures p == q {
      assert Single(a, ka, p.0) && Single(b, kb, q.1);
    }
    FirstsCount(ps);
    SecondsCount(ps);
  }

  lemma {:induction false} FirstsCount(ps: set<(Func, Func)>)
    requires forall p, q :: p in ps && q in ps && p.0 == q.0 ==> p == q
    ensures |Firsts(ps)| == |ps|
    decreases |ps|
  {
    if ps != {} {
      var p :| p in ps;
      FirstsCount(ps - {p});
      assert Firsts(ps) == Firsts(ps - {p}) + {p.0};
    }
  }

  lemma {:induction false} SecondsCount(ps: set<(Func, Func)>)
    requires forall p, q :: p in ps && q in ps && p.1 == q.1 ==> p == q
    ensures |Seconds(ps)| == |ps|
    decreases |ps|
  {
    if ps != {} {
      var p :| p in ps;
      SecondsCount(ps - {p});
      assert Seconds(ps) == Seconds(ps - {p}) + {p.1};
    }
  }

  // Every old function is in exactly one of: identical, the old side of one move, the old side of one
  // rename, removed; likewise every new one; so the counts add up to the totals.
  lemma MatchPartitions(o: set<Func>, n: set<Func>, ko: Key<u64>, kn: Key<u64>)
    ensures var m := Match(o, n, ko, kn);
      && m.same + Firsts(m.moved) + Firsts(m.renamed) + m.removed == o
      && m.same + Seconds(m.moved) + Seconds(m.renamed) + m.added == n
      && m.same !! Firsts(m.moved) !! Firsts(m.renamed) !! m.removed
      && m.same !! Seconds(m.moved) !! Seconds(m.renamed) !! m.added
      && (forall p, q :: p in m.moved && q in m.moved && (p.0 == q.0 || p.1 == q.1) ==> p == q)
      && (forall p, q :: p in m.renamed && q in m.renamed && (p.0 == q.0 || p.1 == q.1) ==> p == q)
      && |m.same| + |m.moved| + |m.renamed| + |m.removed| == |o|
      && |m.same| + |m.moved| + |m.renamed| + |m.added| == |n|
  {
    hide Pairs;
    var same := o * n;
    var moved := Pairs(o - same, n - same, ByName(), ByName());
    PairsOneToOne(o - same, n - same, ByName(), ByName());
    var o2, n2 := o - same - Firsts(moved), n - same - Seconds(moved);
    var renamed := Pairs(o2, n2, ko, kn);
    PairsOneToOne(o2, n2, ko, kn);
    FourParts(o, same, Firsts(moved), Firsts(renamed), o2 - Firsts(renamed));
    FourParts(n, same, Seconds(moved), Seconds(renamed), n2 - Seconds(renamed));
  }

  lemma FourParts(s: set<Func>, a: set<Func>, b: set<Func>, c: set<Func>, d: set<Func>)
    requires a <= s && b <= s - a && c <= s - a - b && d == s - a - b - c
    ensures a + b + c + d == s && a !! b !! c !! d && |a| + |b| + |c| + |d| == |s|
  {
    assert |a + b| == |a| + |b|;
    assert |a + b + c| == |a + b| + |c|;
    assert |a + b + c + d| == |a + b + c| + |d|;
    assert a + b + c + d == s;
  }

  // The pairings a matching stands for.
  ghost function Listed(m: Matching): set<Pairing> {
    (set f | f in m.same :: Pairing(Identical, Some(f), Some(f)))
    + (set p | p in m.moved :: Pairing(Moved, Some(p.0), Some(p.1)))
    + (set p | p in m.renamed :: Pairing(Renamed, Some(p.0), Some(p.1)))
    + (set f | f in m.removed :: Pairing(Removed, Some(f), None))
    + (set f | f in m.added :: Pairing(Added, None, Some(f)))
  }

  // ----- what a pairing says -----

  // Same name, no longer at the same place, and no other such function of that name on either side.
  ghost predicate MovedPair(o: set<Func>, n: set<Func>, f: Func, g: Func) {
    && f in o && f !in n && g in n && g !in o && f.name == g.name
    && (forall h :: h in o && h !in n && h.name == f.name ==> h == f)
    && (forall h :: h in n && h !in o && h.name == g.name ==> h == g)
  }

  // Neither identical nor moved.
  ghost predicate OldLeft(o: set<Func>, n: set<Func>, f: Func) {
    f in o && f !in n && forall g :: g in n ==> !MovedPair(o, n, f, g)
  }

  ghost predicate NewLeft(o: set<Func>, n: set<Func>, g: Func) {
    g in n && g !in o && forall f :: f in o ==> !MovedPair(o, n, f, g)
  }

  // The same signature, which no other function left on either side has.
  ghost predicate RenamedPair(o: set<Func>, n: set<Func>, os: Option<map<u64, u64>>, ns: Option<map<u64, u64>>, f: Func,
      g: Func)
  {
    && os.Some? && ns.Some? && OldLeft(o, n, f) && NewLeft(o, n, g)
    && f.addr in os.value && g.addr in ns.value && os.value[f.addr] == ns.value[g.addr]
    && (forall h :: OldLeft(o, n, h) && h.addr in os.value && os.value[h.addr] == os.value[f.addr] ==> h == f)
    && (forall h :: NewLeft(o, n, h) && h.addr in ns.value && ns.value[h.addr] == ns.value[g.addr] ==> h == g)
  }

  ghost predicate Says(o: set<Func>, n: set<Func>, os: Option<map<u64, u64>>, ns: Option<map<u64, u64>>, p: Pairing) {
    match (p.kind, p.before, p.after)
    case (Identical, Some(f), Some(g)) => f == g && f in o && f in n
    case (Moved, Some(f), Some(g)) => MovedPair(o, n, f, g)
    case (Renamed, Some(f), Some(g)) => RenamedPair(o, n, os, ns, f, g)
    case (Removed, Some(f), None) => OldLeft(o, n, f) && forall g :: g in n ==> !RenamedPair(o, n, os, ns, f, g)
    case (Added, None, Some(g)) => NewLeft(o, n, g) && forall f :: f in o ==> !RenamedPair(o, n, os, ns, f, g)
    case _ => false
  }

  // The matching lists a pairing exactly when what it says is so.
  lemma ListedExactly(o: set<Func>, n: set<Func>, os: Option<map<u64, u64>>, ns: Option<map<u64, u64>>, p: Pairing)
    ensures p in Listed(Match(o, n, BySig(os, ns), BySig(ns, os))) <==> Says(o, n, os, ns, p)
  {
    hide BySig, MovedPair, OldLeft, NewLeft, RenamedPair, Match, Firsts, Seconds;
    var m := Match(o, n, BySig(os, ns), BySig(ns, os));
    forall f, g ensures (f, g) in m.moved <==> MovedPair(o, n, f, g) {
      MovedExactly(o, n, BySig(os, ns), BySig(ns, os), f, g);
    }
    forall f, g ensures (f, g) in m.renamed <==> RenamedPair(o, n, os, ns, f, g) {
      RenamedExactly(o, n, os, ns, f, g);
    }
    forall f: Func ensures f in m.same <==> f in o && f in n {
      SameIs(o, n, BySig(os, ns), BySig(ns, os));
    }
    LeftExactly(o, n, os, ns);
  }

  lemma MovedExactly(o: set<Func>, n: set<Func>, ko: Key<u64>, kn: Key<u64>, f: Func, g: Func)
    ensures (f, g) in Match(o, n, ko, kn).moved <==> MovedPair(o, n, f, g)
  {
    var a, b := o - o * n, n - o * n;
    assert Match(o, n, ko, kn).moved == Pairs(a, b, ByName(), ByName());
    assert forall h: Func :: ByName()(h) == Some(h.name);
  }

  lemma LeftAfterMoves(o: set<Func>, n: set<Func>, ko: Key<u64>, kn: Key<u64>, f: Func)
    ensures var moved := Match(o, n, ko, kn).moved;
      && (f in o - o * n - Firsts(moved) <==> OldLeft(o, n, f))
      && (f in n - o * n - Seconds(moved) <==> NewLeft(o, n, f))
  {
    hide Match, MovedPair;
    var moved := Match(o, n, ko, kn).moved;
    forall x, y ensures (x, y) in moved <==> MovedPair(o, n, x, y) {
      MovedExactly(o, n, ko, kn, x, y);
    }
    forall p | p in moved ensures p.0 in o && p.1 in n && MovedPair(o, n, p.0, p.1) {
      assert p == (p.0, p.1);
      MovedInside(o, n, p.0, p.1);
    }
    if f in o && f !in n && !OldLeft(o, n, f) {
      var g :| g in n && MovedPair(o, n, f, g);
      assert (f, g) in moved;
    }
    if f in n && f !in o && !NewLeft(o, n, f) {
      var g :| g in o && MovedPair(o, n, g, f);
      assert (g, f) in moved;
    }
  }

  lemma MovedInside(o: set<Func>, n: set<Func>, f: Func, g: Func)
    requires MovedPair(o, n, f, g)
    ensures f in o && g in n
  {
  }

  lemma RenamedExactly(o: set<Func>, n: set<Func>, os: Option<map<u64, u64>>, ns: Option<map<u64, u64>>, f: Func,
      g: Func)
    ensures (f, g) in Match(o, n, BySig(os, ns), BySig(ns, os)).renamed <==> RenamedPair(o, n, os, ns, f, g)
  {
    hide OldLeft, NewLeft, Firsts, Seconds;
    var ko, kn := BySig(os, ns), BySig(ns, os);
    var moved := Match(o, n, ko, kn).moved;
    var a, b := o - o * n - Firsts(moved), n - o * n - Seconds(moved);
    assert Match(o, n, ko, kn).renamed == Pairs(a, b, ko, kn);
    forall h: Func ensures (h in a <==> OldLeft(o, n, h)) && (h in b <==> NewLeft(o, n, h)) {
      LeftAfterMoves(o, n, ko, kn, h);
    }
    hide Match;
  }

  lemma LeftExactly(o: set<Func>, n: set<Func>, os: Option<map<u64, u64>>, ns: Option<map<u64, u64>>)
    ensures var m := Match(o, n, BySig(os, ns), BySig(ns, os));
      && (forall f :: f in m.removed <==> OldLeft(o, n, f) && forall g :: g in n ==> !RenamedPair(o, n, os, ns, f, g))
      && (forall g :: g in m.added <==> NewLeft(o, n, g) && forall f :: f in o ==> !RenamedPair(o, n, os, ns, f, g))
  {
    hide BySig, MovedPair, OldLeft, NewLeft;
    var ko, kn := BySig(os, ns), BySig(ns, os);
    var m := Match(o, n, ko, kn);
    assert m.removed == o - o * n - Firsts(m.moved) - Firsts(m.renamed);
    assert m.added == n - o * n - Seconds(m.moved) - Seconds(m.renamed);
    hide Match;
    forall x, y ensures (x, y) in m.renamed <==> RenamedPair(o, n, os, ns, x, y) {
      RenamedExactly(o, n, os, ns, x, y);
    }
    forall f: Func
      ensures f in o - o * n - Firsts(m.moved) <==> OldLeft(o, n, f)
      ensures f in n - o * n - Seconds(m.moved) <==> NewLeft(o, n, f)
    {
      LeftAfterMoves(o, n, ko, kn, f);
    }
    hide RenamedPair;
    forall f: Func ensures f in Firsts(m.renamed) <==> exists g :: (f, g) in m.renamed {
      RenamedFirst(m.renamed, f);
    }
    forall g: Func ensures g in Seconds(m.renamed) <==> exists f :: (f, g) in m.renamed {
      RenamedSecond(m.renamed, g);
    }
  }

  lemma RenamedFirst(ps: set<(Func, Func)>, f: Func)
    ensures f in Firsts(ps) <==> exists g :: (f, g) in ps
  {
    if f in Firsts(ps) {
      var p :| p in ps && p.0 == f;
      assert p == (f, p.1);
    }
  }

  lemma RenamedSecond(ps: set<(Func, Func)>, g: Func)
    ensures g in Seconds(ps) <==> exists f :: (f, g) in ps
  {
    if g in Seconds(ps) {
      var p :| p in ps && p.1 == g;
      assert p == (p.0, g);
    }
  }

  // ----- the program -----

  predicate Has<K(==)>(f: Func, matched: set<u64>, key: Key<K>, k: K) { f.addr !in matched && key(f) == Some(k) }

  function CountHits<K(==)>(fs: seq<Func>, matched: set<u64>, key: Key<K>, k: K): nat {
    if fs == [] then 0
    else CountHits(fs[..|fs| - 1], matched, key, k) + (if Has(fs[|fs| - 1], matched, key, k) then 1 else 0)
  }

  function FirstHit<K(==)>(fs: seq<Func>, matched: set<u64>, key: Key<K>, k: K): Option<Func> {
    if fs == [] then None
    else
      var earlier := FirstHit(fs[..|fs| - 1], matched, key, k);
      if earlier.Some? then earlier else if Has(fs[|fs| - 1], matched, key, k) then Some(fs[|fs| - 1]) else None
  }

  // The index of unambiguous keys: count, remember the first, keep the singles.
  method UniqueIndex<K(==, !new)>(fs: seq<Func>, matched: set<u64>, key: Key<K>) returns (index: map<K, Func>)
    ensures forall k :: k in index <==> CountHits(fs, matched, key, k) == 1
    ensures forall k :: k in index ==> Some(index[k]) == FirstHit(fs, matched, key, k)
  {
    var count: map<K, nat> := map[];
    var first: map<K, Func> := map[];
    for i := 0 to |fs|
      invariant forall k :: CountHits(fs[..i], matched, key, k) == if k in count then count[k] else 0
      invariant forall k :: FirstHit(fs[..i], matched, key, k) == if k in first then Some(first[k]) else None
      invariant count.Keys == first.Keys
    {
      assert fs[..i + 1][..i] == fs[..i];
      var f := fs[i];
      if f.addr !in matched && key(f).Some? {
        var k := key(f).value;
        count := count[k := (if k in count then count[k] else 0) + 1];
        first := if k in first then first else first[k := f];
      }
    }
    assert fs[..|fs|] == fs;
    index := map k | k in first && count[k] == 1 :: first[k];
  }

  // The still unmatched functions.
  ghost function Unmatched(fs: seq<Func>, matched: set<u64>): set<Func> { set f | f in fs && f.addr !in matched }

  lemma {:induction false} CountZero<K>(fs: seq<Func>, matched: set<u64>, key: Key<K>, k: K)
    ensures CountHits(fs, matched, key, k) == 0 <==> forall f :: f in fs ==> !Has(f, matched, key, k)
    ensures CountHits(fs, matched, key, k) == 0 <==> FirstHit(fs, matched, key, k) == None
    decreases |fs|
  {
    hide Has;
    if fs != [] {
      var init := fs[..|fs| - 1];
      assert fs == init + [fs[|fs| - 1]];
      CountZero(init, matched, key, k);
    }
  }

  lemma {:induction false} FirstHas<K>(fs: seq<Func>, matched: set<u64>, key: Key<K>, k: K)
    ensures var f := FirstHit(fs, matched, key, k);
      f.Some? ==> f.value in fs && Has(f.value, matched, key, k)
    decreases |fs|
  {
    hide Has;
    if fs != [] {
      FirstHas(fs[..|fs| - 1], matched, key, k);
    }
  }

  // f is the only function with key k that is still unmatched.
  ghost predicate Only<K>(fs: seq<Func>, matched: set<u64>, key: Key<K>, k: K, f: Func) {
    f in fs && Has(f, matched, key, k) && forall g :: g in fs && Has(g, matched, key, k) ==> g == f
  }

  lemma {:induction false} OneIsOnly<K>(fs: seq<Func>, matched: set<u64>, key: Key<K>, k: K)
    requires CountHits(fs, matched, key, k) == 1
    ensures FirstHit(fs, matched, key, k).Some? && Only(fs, matched, key, k, FirstHit(fs, matched, key, k).value)
    decreases |fs|
  {
    hide Has;
    var init, last := fs[..|fs| - 1], fs[|fs| - 1];
    assert fs == init + [last];
    CountZero(init, matched, key, k);
    if !Has(last, matched, key, k) {
      OneIsOnly(init, matched, key, k);
    }
  }

  // Where addresses are unique no function occurs twice, so being the only one is a count of one.
  lemma {:induction false} OnlyIsOne<K>(fs: seq<Func>, matched: set<u64>, key: Key<K>, k: K, f: Func)
    requires UniqueAddrs(fs) && Only(fs, matched, key, k, f)
    ensures CountHits(fs, matched, key, k) == 1
    decreases |fs|
  {
    hide Has;
    var init, last := fs[..|fs| - 1], fs[|fs| - 1];
    assert fs == init + [last];
    assert last !in init;
    CountZero(init, matched, key, k);
    if !Has(last, matched, key, k) {
      OnlyIsOne(init, matched, key, k, f);
    }
  }

  // The index holds singles among the unmatched, by key ...
  lemma IndexHoldsSingles<K(!new)>(fs: seq<Func>, matched: set<u64>, key: Key<K>, index: map<K, Func>)
    requires forall k :: k in index ==>
      CountHits(fs, matched, key, k) == 1 && Some(index[k]) == FirstHit(fs, matched, key, k)
    ensures forall k :: k in index ==> Single(Unmatched(fs, matched), key, index[k]) && key(index[k]) == Some(k)
  {
    var s := Unmatched(fs, matched);
    forall k | k in index ensures Single(s, key, index[k]) && key(index[k]) == Some(k) {
      OneIsOnly(fs, matched, key, k);
      forall g | g in s && key(g) == key(index[k]) ensures g == index[k] {
        assert Has(g, matched, key, k);
      }
    }
  }

  // ... and, where addresses are unique, all of them.
  lemma SinglesIndexed<K(!new)>(fs: seq<Func>, matched: set<u64>, key: Key<K>, index: map<K, Func>)
    requires UniqueAddrs(fs)
    requires forall k :: k in index <==> CountHits(fs, matched, key, k) == 1
    requires forall k :: k in index ==> Some(index[k]) == FirstHit(fs, matched, key, k)
    ensures forall f :: Single(Unmatched(fs, matched), key, f) ==> key(f).value in index && index[key(f).value] == f
  {
    var s := Unmatched(fs, matched);
    forall f | Single(s, key, f) ensures key(f).value in index && index[key(f).value] == f {
      var k := key(f).value;
      forall g | g in fs && Has(g, matched, key, k) ensures g == f {
        assert g in s;
      }
      assert Only(fs, matched, key, k, f);
      OnlyIsOne(fs, matched, key, k, f);
      OneIsOnly(fs, matched, key, k);
    }
  }

  // The pairs of entries under the keys two indexes share, in whatever order the keys come.
  method JoinIndexes<K(==, !new)>(olds: map<K, Func>, news: map<K, Func>, ghost ko: Key<K>)
    returns (pairs: seq<(Func, Func)>)
    requires forall k :: k in olds ==> ko(olds[k]) == Some(k)
    ensures forall k :: k in olds && k in news ==> (olds[k], news[k]) in pairs
    ensures forall p :: p in pairs ==> ko(p.0).Some? && Taken(ko(p.0).value, {}, olds, news, p)
    ensures NoDup(pairs)
  {
    pairs := [];
    var keys := olds.Keys;
    while keys != {}
      invariant keys <= olds.Keys
      invariant forall k :: k in olds && k in news && k !in keys ==> (olds[k], news[k]) in pairs
      invariant forall p :: p in pairs ==> ko(p.0).Some? && Taken(ko(p.0).value, keys, olds, news, p)
      invariant forall i, j :: 0 <= i < j < |pairs| ==> pairs[i] != pairs[j]
      decreases |keys|
    {
      var k :| k in keys;
      keys := keys - {k};
      if k in news {
        pairs := pairs + [(olds[k], news[k])];
      }
    }
  }

  // Passes 2 and 3: pair the functions whose key is unambiguous on both sides, in whatever order the
  // hash map yields them. The pairs found do not depend on that order.
  method PairUnambiguous<K(==, !new)>(before: seq<Func>, after: seq<Func>, matchedOld: set<u64>, matchedNew: set<u64>,
                                      ko: Key<K>, kn: Key<K>)
    returns (pairs: seq<(Func, Func)>)
    ensures UniqueAddrs(before) && UniqueAddrs(after) ==>
      Elems(pairs) == Pairs(Unmatched(before, matchedOld), Unmatched(after, matchedNew), ko, kn)
    ensures NoDup(pairs)
  {
    hide Single;
    var olds := UniqueIndex(before, matchedOld, ko);
    var news := UniqueIndex(after, matchedNew, kn);
    IndexHoldsSingles(before, matchedOld, ko, olds);
    IndexHoldsSingles(after, matchedNew, kn, news);
    pairs := JoinIndexes(olds, news, ko);
    if UniqueAddrs(before) && UniqueAddrs(after) {
      SinglesIndexed(before, matchedOld, ko, olds);
      SinglesIndexed(after, matchedNew, kn, news);
      AllPaired(Unmatched(before, matchedOld), Unmatched(after, matchedNew), ko, kn, olds, news, pairs);
    }
  }

  // Joining two indexes of singles on their keys gives the pairs.
  lemma AllPaired<K(!new)>(a: set<Func>, b: set<Func>, ka: Key<K>, kb: Key<K>, ia: map<K, Func>, ib: map<K, Func>,
                           pairs: seq<(Func, Func)>)
    requires forall k :: k in ia ==> Single(a, ka, ia[k]) && ka(ia[k]) == Some(k)
    requires forall k :: k in ib ==> Single(b, kb, ib[k]) && kb(ib[k]) == Some(k)
    requires forall f :: Single(a, ka, f) ==> ka(f).value in ia && ia[ka(f).value] == f
    requires forall f :: Single(b, kb, f) ==> kb(f).value in ib && ib[kb(f).value] == f
    requires forall k :: k in ia && k in ib ==> (ia[k], ib[k]) in pairs
    requires forall p :: p in pairs ==> ka(p.0).Some? && Taken(ka(p.0).value, {}, ia, ib, p)
    ensures Elems(pairs) == Pairs(a, b, ka, kb)
  {
    forall p | p in pairs ensures p in Pairs(a, b, ka, kb) {
      var k := ka(p.0).value;
      assert Single(a, ka, p.0) && Single(b, kb, p.1);
    }
    forall p | p in Pairs(a, b, ka, kb) ensures p in pairs {
      assert Single(a, ka, p.0) && Single(b, kb, p.1);
    }
  }

  ghost predicate Taken<K>(k: K, keys: set<K>, olds: map<K, Func>, news: map<K, Func>, p: (Func, Func)) {
    k !in keys && k in olds && k in news && p == (olds[k], news[k])
  }

  // ----- addresses stand for functions -----

  ghost function Addrs(s: set<Func>): set<u64> { set f | f in s :: f.addr }

  lemma UnmatchedIs(fs: seq<Func>, x: set<Func>)
    requires UniqueAddrs(fs) && x <= Elems(fs)
    ensures Unmatched(fs, Addrs(x)) == Elems(fs) - x
  {
    forall f | f in fs ensures f.addr in Addrs(x) <==> f in x {
      if f.addr in Addrs(x) {
        var g :| g in x && g.addr == f.addr;
        assert g in fs;
      }
    }
  }

  ghost predicate NoDup<T>(s: seq<T>) { forall i, j :: 0 <= i < j < |s| ==> s[i] != s[j] }

  lemma {:induction false} NoDupSize<T>(s: seq<T>)
    requires NoDup(s)
    ensures |Elems(s)| == |s|
  {
    if s != [] {
      var init, last := s[..|s| - 1], s[|s| - 1];
      NoDupSize(init);
      assert Elems(s) == Elems(init) + {last};
      assert last !in init;
    }
  }

  lemma NextIsFresh(fs: seq<Func>, k: nat, done: set<Func>)
    requires UniqueAddrs(fs) && k < |fs| && forall f :: f in done ==> f in fs[..k]
    ensures fs[k].addr !in Addrs(done)
  {
    forall f | f in done ensures f.addr != fs[k].addr {
      assert f in fs[..k];
    }
  }

  // Pass 1: the functions with the same name at the same address.
  method MatchExact(before: seq<Func>, after: seq<Func>)
    returns (same: seq<Func>, matchedOld: set<u64>, matchedNew: set<u64>)
    ensures UniqueAddrs(before) && UniqueAddrs(after) ==>
      && NoDup(same) && Elems(same) == Elems(before) * Elems(after)
      && matchedOld == matchedNew == Addrs(Elems(before) * Elems(after))
  {
    var byNameAddr := set f | f in after;
    same, matchedOld, matchedNew := [], {}, {};
    ghost var unique := UniqueAddrs(before) && UniqueAddrs(after);
    for k := 0 to |before|
      invariant forall f :: f in same ==> f in before[..k] && f in after
      invariant unique ==> forall f :: f in before[..k] && f in after ==> f in same
      invariant unique ==> NoDup(same) && matchedOld == matchedNew == Addrs(Elems(same))
    {
      var f := before[k];
      if f in byNameAddr {
        if unique {
          NextIsFresh(before, k, Elems(same));
        }
        if f.addr !in matchedNew {
          matchedNew := matchedNew + {f.addr};
          matchedOld := matchedOld + {f.addr};
          assert Elems(same + [f]) == Elems(same) + {f};
          same := same + [f];
        }
      }
    }
    assert before[..|before|] == before;
    assert unique ==> Elems(same) == Elems(before) * Elems(after);
  }

  // Pass 4, one side: what is still unmatched, in order.
  method Leftovers(fs: seq<Func>, matched: set<u64>) returns (out: seq<Func>)
    ensures Elems(out) == Unmatched(fs, matched)
    ensures UniqueAddrs(fs) ==> NoDup(out)
  {
    out := [];
    for k := 0 to |fs|
      invariant forall f :: f in out ==> f in fs[..k] && f.addr !in matched
      invariant forall f :: f in fs[..k] && f.addr !in matched ==> f in out
      invariant UniqueAddrs(fs) ==> NoDup(out)
    {
      if fs[k].addr !in matched {
        out := out + [fs[k]];
      }
    }
    assert fs[..|fs|] == fs;
  }

  function OldAddrs(ps: seq<(Func, Func)>): set<u64> { set p | p in ps :: p.0.addr }

  function NewAddrs(ps: seq<(Func, Func)>): set<u64> { set p | p in ps :: p.1.addr }

  lemma OldAddrsOfPairs(ps: seq<(Func, Func)>)
    ensures OldAddrs(ps) == Addrs(Firsts(Elems(ps)))
  {
    forall f | f in Firsts(Elems(ps)) ensures f.addr in OldAddrs(ps) {
      var p :| p in Elems(ps) && p.0 == f;
    }
    forall p | p in ps ensures p.0 in Firsts(Elems(ps)) {
      assert p in Elems(ps);
    }
  }

  lemma NewAddrsOfPairs(ps: seq<(Func, Func)>)
    ensures NewAddrs(ps) == Addrs(Seconds(Elems(ps)))
  {
    forall f | f in Seconds(Elems(ps)) ensures f.addr in NewAddrs(ps) {
      var p :| p in Elems(ps) && p.1 == f;
    }
    forall p | p in ps ensures p.1 in Seconds(Elems(ps)) {
      assert p in Elems(ps);
    }
  }

  function PairingsOf(same: seq<Func>, moved: seq<(Func, Func)>, renamed: seq<(Func, Func)>, removed: seq<Func>,
      added: seq<Func>): seq<Pairing>
  {
    seq(|same|, i requires 0 <= i < |same| => Pairing(Identical, Some(same[i]), Some(same[i])))
    + seq(|moved|, i requires 0 <= i < |moved| => Pairing(Moved, Some(moved[i].0), Some(moved[i].1)))
    + seq(|renamed|, i requires 0 <= i < |renamed| => Pairing(Renamed, Some(renamed[i].0), Some(renamed[i].1)))
    + seq(|removed|, i requires 0 <= i < |removed| => Pairing(Removed, Some(removed[i]), None))
    + seq(|added|, i requires 0 <= i < |added| => Pairing(Added, None, Some(added[i])))
  }

  lemma AddrsUnion(a: set<Func>, b: set<Func>)
    ensures Addrs(a + b) == Addrs(a) + Addrs(b)
  {
    forall x | x in Addrs(a) ensures x in Addrs(a + b) {
      var f :| f in a && f.addr == x;
      assert f in a + b;
    }
    forall x | x in Addrs(b) ensures x in Addrs(a + b) {
      var f :| f in b && f.addr == x;
      assert f in a + b;
    }
  }

  // Marking the addresses of one more group of functions takes exactly that group away.
  lemma MarkMore(fs: seq<Func>, done: set<Func>, more: set<Func>)
    requires UniqueAddrs(fs) && done <= Elems(fs) && more <= Elems(fs)
    ensures Unmatched(fs, Addrs(done) + Addrs(more)) == Elems(fs) - done - more
  {
    AddrsUnion(done, more);
    UnmatchedIs(fs, done + more);
    assert Elems(fs) - (done + more) == Elems(fs) - done - more;
  }

  // Without signatures nothing is paired by them.
  lemma NoSigsNoPairs(a: set<Func>, b: set<Func>, x: Option<map<u64, u64>>, y: Option<map<u64, u64>>)
    requires x.None? || y.None?
    ensures Pairs(a, b, BySig(x, y), BySig(y, x)) == {}
  {
    assert forall f: Func :: !Single(a, BySig(x, y), f);
  }

  lemma SizesAdd(same: seq<Func>, moved: seq<(Func, Func)>, renamed: seq<(Func, Func)>, removed: seq<Func>,
      added: seq<Func>, m: Matching)
    requires NoDup(same) && NoDup(moved) && NoDup(renamed) && NoDup(removed) && NoDup(added)
    requires m == Matching(Elems(same), Elems(moved), Elems(renamed), Elems(removed), Elems(added))
    ensures |same| == |m.same| && |moved| == |m.moved| && |renamed| == |m.renamed|
    ensures |removed| == |m.removed| && |added| == |m.added|
  {
    NoDupSize(same);
    NoDupSize(moved);
    NoDupSize(renamed);
    NoDupSize(removed);
    NoDupSize(added);
  }

  lemma PairingsOnce(same: seq<Func>, moved: seq<(Func, Func)>, renamed: seq<(Func, Func)>, removed: seq<Func>,
      added: seq<Func>)
    requires NoDup(same) && NoDup(moved) && NoDup(renamed) && NoDup(removed) && NoDup(added)
    ensures NoDup(PairingsOf(same, moved, renamed, removed, added))
  {
    var ps := PairingsOf(same, moved, renamed, removed, added);
    forall i, j | 0 <= i < j < |ps| ensures ps[i] != ps[j] {
      if ps[i].kind == ps[j].kind {
        match ps[i].kind {
          case Identical => assert same[i] != same[j];
          case Moved => assert moved[i - |same|] != moved[j - |same|];
          case Renamed =>
            var b := |same| + |moved|;
            assert renamed[i - b] != renamed[j - b];
          case Removed =>
            var b := |same| + |moved| + |renamed|;
            assert removed[i - b] != removed[j - b];
          case Added =>
            var b := |same| + |moved| + |renamed| + |removed|;
            assert added[i - b] != added[j - b];
        }
      }
    }
  }

  lemma PairingsListed(same: seq<Func>, moved: seq<(Func, Func)>, renamed: seq<(Func, Func)>, removed: seq<Func>,
      added: seq<Func>, m: Matching)
    requires m == Matching(Elems(same), Elems(moved), Elems(renamed), Elems(removed), Elems(added))
    ensures Elems(PairingsOf(same, moved, renamed, removed, added)) == Listed(m)
  {
    var ps := PairingsOf(same, moved, renamed, removed, added);
    var b2 := |same| + |moved|;
    var b3 := b2 + |renamed|;
    var b4 := b3 + |removed|;
    forall i | 0 <= i < |same| ensures ps[i] == Pairing(Identical, Some(same[i]), Some(same[i])) {}
    forall i | 0 <= i < |moved| ensures ps[|same| + i] == Pairing(Moved, Some(moved[i].0), Some(moved[i].1)) {}
    forall i | 0 <= i < |renamed| ensures ps[b2 + i] == Pairing(Renamed, Some(renamed[i].0), Some(renamed[i].1)) {}
    forall i | 0 <= i < |removed| ensures ps[b3 + i] == Pairing(Removed, Some(removed[i]), None) {}
    forall i | 0 <= i < |added| ensures ps[b4 + i] == Pairing(Added, None, Some(added[i])) {}
    forall p | p in Listed(m) ensures p in ps {
      match p.kind {
        case Identical =>
          var f :| f in same && p == Pairing(Identical, Some(f), Some(f));
        case Moved =>
          var q :| q in moved && p == Pairing(Moved, Some(q.0), Some(q.1));
        case Renamed =>
          var q :| q in renamed && p == Pairing(Renamed, Some(q.0), Some(q.1));
        case Removed =>
          var f :| f in removed && p == Pairing(Removed, Some(f), None);
        case Added =>
          var f :| f in added && p == Pairing(Added, None, Some(f));
      }
    }
    forall i | 0 <= i < |ps| ensures ps[i] in Listed(m) {
      if i < |same| {
        assert same[i] in m.same;
      } else if i < b2 {
        assert moved[i - |same|] in m.moved;
      } else if i < b3 {
        assert renamed[i - b2] in m.renamed;
      } else if i < b4 {
        assert removed[i - b3] in m.removed;
      } else {
        assert added[i - b4] in m.added;
      }
    }
  }

  // What is left of one side after passes 1, 2 and 3, when each takes away a set of its functions.
  lemma LeftAfter(fs: seq<Func>, same: set<Func>, moved: set<Func>, renamed: set<Func>)
    requires UniqueAddrs(fs)
    requires same <= Elems(fs) && moved <= Elems(fs) && renamed <= Elems(fs)
    ensures Unmatched(fs, Addrs(same)) == Elems(fs) - same
    ensures Unmatched(fs, Addrs(same) + Addrs(moved)) == Elems(fs) - same - moved
    ensures Unmatched(fs, Addrs(same) + Addrs(moved) + Addrs(renamed)) == Elems(fs) - same - moved - renamed
  {
    hide UniqueAddrs, Unmatched, Addrs;
    UnmatchedIs(fs, same);
    MarkMore(fs, same, moved);
    AddrsUnion(same, moved);
    MarkMore(fs, same + moved, renamed);
    assert Elems(fs) - (same + moved) == Elems(fs) - same - moved;
  }

  lemma PartsInside(o: set<Func>, n: set<Func>, ko: Key<u64>, kn: Key<u64>)
    ensures var m := Match(o, n, ko, kn);
      && m.same <= o && Firsts(m.moved) <= o && Firsts(m.renamed) <= o
      && m.same <= n && Seconds(m.moved) <= n && Seconds(m.renamed) <= n
  {
    hide Match, Firsts, Seconds;
    MatchPartitions(o, n, ko, kn);
  }

  lemma AfterPasses(before: seq<Func>, after: seq<Func>, ko: Key<u64>, kn: Key<u64>)
    requires UniqueAddrs(before) && UniqueAddrs(after)
    ensures var o, n := Elems(before), Elems(after);
      var m := Match(o, n, ko, kn);
      var o2, n2 := Addrs(m.same) + Addrs(Firsts(m.moved)), Addrs(m.same) + Addrs(Seconds(m.moved));
      && m.moved == Pairs(Unmatched(before, Addrs(m.same)), Unmatched(after, Addrs(m.same)), ByName(), ByName())
      && m.renamed == Pairs(Unmatched(before, o2), Unmatched(after, n2), ko, kn)
      && m.removed == Unmatched(before, o2 + Addrs(Firsts(m.renamed)))
      && m.added == Unmatched(after, n2 + Addrs(Seconds(m.renamed)))
  {
    hide Pairs, UniqueAddrs, Unmatched, Addrs, Elems, Firsts, Seconds;
    var m := Match(Elems(before), Elems(after), ko, kn);
    PartsInside(Elems(before), Elems(after), ko, kn);
    LeftAfter(before, m.same, Firsts(m.moved), Firsts(m.renamed));
    LeftAfter(after, m.same, Seconds(m.moved), Seconds(m.renamed));
  }

  // The four passes. With unique addresses on each side the report is exactly the matching, whatever
  // order the hash maps iterate in: every pairing once, and each count the size of its part.
  method Compute(before: seq<Func>, after: seq<Func>, oldSigs: Option<map<u64, u64>>, newSigs: Option<map<u64, u64>>)
    returns (r: DiffReport)
    ensures r.oldTotal == |before| && r.newTotal == |after|
    ensures |r.pairings| == r.identical + r.moved + r.renamed + r.removed + r.added
    ensures UniqueAddrs(before) && UniqueAddrs(after) ==>
      var m := Match(Elems(before), Elems(after), BySig(oldSigs, newSigs), BySig(newSigs, oldSigs));
      && NoDup(r.pairings) && Elems(r.pairings) == Listed(m)
      && r.identical == |m.same| && r.moved == |m.moved| && r.renamed == |m.renamed|
      && r.removed == |m.removed| && r.added == |m.added|
    ensures UniqueAddrs(before) && UniqueAddrs(after) ==>
      forall p :: p in r.pairings <==> Says(Elems(before), Elems(after), oldSigs, newSigs, p)
  {
    hide Says, Pairs, PairingsOf, Listed, Match, BySig, UniqueAddrs, NoDup, Unmatched, Addrs, OldAddrs, NewAddrs;
    ghost var unique := UniqueAddrs(before) && UniqueAddrs(after);
    ghost var m := Match(Elems(before), Elems(after), BySig(oldSigs, newSigs), BySig(newSigs, oldSigs));
    var same, matchedOld, matchedNew := MatchExact(before, after);
    var moved := PairUnambiguous(before, after, matchedOld, matchedNew, ByName(), ByName());
    if unique {
      AfterPasses(before, after, BySig(oldSigs, newSigs), BySig(newSigs, oldSigs));
      SameIs(Elems(before), Elems(after), BySig(oldSigs, newSigs), BySig(newSigs, oldSigs));
      assert Elems(moved) == m.moved;
      OldAddrsOfPairs(moved);
      NewAddrsOfPairs(moved);
    }
    matchedOld, matchedNew := matchedOld + OldAddrs(moved), matchedNew + NewAddrs(moved);
    var renamed: seq<(Func, Func)> := [];
    if oldSigs.Some? && newSigs.Some? {
      renamed := PairUnambiguous(before, after, matchedOld, matchedNew, BySig(oldSigs, newSigs),
          BySig(newSigs, oldSigs));
    } else {
      NoSigsNoPairs(Unmatched(before, matchedOld), Unmatched(after, matchedNew), oldSigs, newSigs);
      EmptyNoDup<(Func, Func)>();
    }
    if unique {
      assert Elems(renamed) == m.renamed;
      OldAddrsOfPairs(renamed);
      NewAddrsOfPairs(renamed);
    }
    matchedOld, matchedNew := matchedOld + OldAddrs(renamed), matchedNew + NewAddrs(renamed);
    var removed := Leftovers(before, matchedOld);
    var added := Leftovers(after, matchedNew);
    if unique {
      PairingsOnce(same, moved, renamed, removed, added);
      PairingsListed(same, moved, renamed, removed, added, m);
      SizesAdd(same, moved, renamed, removed, added, m);
      forall p ensures p in Listed(m) <==> Says(Elems(before), Elems(after), oldSigs, newSigs, p) {
        ListedExactly(Elems(before), Elems(after), oldSigs, newSigs, p);
      }
    }
    PairingsCount(same, moved, renamed, removed, added);
    r := DiffReport(|before|, |after|, |same|, |moved|, |renamed|, |added|, |removed|,
                    PairingsOf(same, moved, renamed, removed, added));
  }

  lemma SameIs(o: set<Func>, n: set<Func>, ko: Key<u64>, kn: Key<u64>)
    ensures Match(o, n, ko, kn).same == o * n
  {}

  lemma EmptyNoDup<T>()
    ensures NoDup<T>([]) && Elems<T>([]) == {}
  {}

  lemma PairingsCount(same: seq<Func>, moved: seq<(Func, Func)>, renamed: seq<(Func, Func)>, removed: seq<Func>,
      added: seq<Func>)
    ensures |PairingsOf(same, moved, renamed, removed, added)| == |same| + |moved| + |renamed| + |removed| + |added|
  {}
}
