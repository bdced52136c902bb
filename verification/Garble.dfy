/** Garble's reflected-name dictionary: finding it in a run of strings, and rewriting names with it. */
module Garble {
  import opened Wrappers

  // ASCII alphanumerics and the underscore.
  predicate IsTokenChar(c: char) { 'a' <= c <= 'z' || 'A' <= c <= 'Z' || '0' <= c <= '9' || c == '_' }

  predicate TokenShaped(s: string) { forall i :: 0 <= i < |s| ==> IsTokenChar(s[i]) }

  type Dictionary = map<string, string>

  // ----- names as tokens and separators -----

  datatype Piece = Token(text: string) | Separator(c: char) {
    function Text(): string { match this case Token(t) => t case Separator(c) => [c] }
  }

  // Tokens are nonempty and maximal, everything else is a separator.
  ghost predicate Split(ps: seq<Piece>) {
    && (forall i :: 0 <= i < |ps| ==> Proper(ps[i]))
    && forall i :: 0 < i < |ps| ==> !(ps[i - 1].Token? && ps[i].Token?)
  }

  function Render(ps: seq<Piece>): string {
    if ps == [] then [] else Render(ps[..|ps| - 1]) + ps[|ps| - 1].Text()
  }

  predicate EndsInToken(ps: seq<Piece>) { ps != [] && ps[|ps| - 1].Token? }

  function Tokenize(s: string): seq<Piece> {
    if s == [] then []
    else
      var ps, c := Tokenize(s[..|s| - 1]), s[|s| - 1];
      if !IsTokenChar(c) then ps + [Separator(c)]
      else if EndsInToken(ps) then ps[..|ps| - 1] + [Token(ps[|ps| - 1].text + [c])]
      else ps + [Token([c])]
  }

  lemma RenderSnoc(ps: seq<Piece>, p: Piece)
    ensures Render(ps + [p]) == Render(ps) + p.Text()
  {
    assert (ps + [p])[..|ps|] == ps;
  }

  ghost predicate Proper(p: Piece) {
    match p case Token(t) => t != [] && TokenShaped(t) case Separator(c) => !IsTokenChar(c)
  }

  lemma SplitSnoc(ps: seq<Piece>, p: Piece)
    ensures Split(ps + [p]) <==> Split(ps) && Proper(p) && !(EndsInToken(ps) && p.Token?)
  {
    hide TokenShaped, IsTokenChar;
    var qs := ps + [p];
    assert qs[..|ps|] == ps;
    if Split(qs) {
      forall i | 0 <= i < |ps| ensures Proper(ps[i]) && (i > 0 ==> !(ps[i - 1].Token? && ps[i].Token?)) {
        assert ps[i] == qs[i];
      }
      assert Proper(qs[|ps|]);
    }
  }

  // A name is its pieces put back together ...
  lemma {:induction false} TokenizeSplits(s: string)
    ensures Split(Tokenize(s)) && Render(Tokenize(s)) == s
    decreases |s|
  {
    hide Split, Render, IsTokenChar;
    if s == [] {
      EmptySplits();
    } else {
      var init, c := s[..|s| - 1], s[|s| - 1];
      assert s == init + [c];
      TokenizeSplits(init);
      var ps := Tokenize(init);
      if !IsTokenChar(c) {
        RenderSnoc(ps, Separator(c));
        SplitSnoc(ps, Separator(c));
      } else if EndsInToken(ps) {
        var rest, t := ps[..|ps| - 1], ps[|ps| - 1].text;
        assert ps == rest + [Token(t)];
        RenderSnoc(rest, Token(t));
        RenderSnoc(rest, Token(t + [c]));
        SplitSnoc(rest, Token(t));
        SplitSnoc(rest, Token(t + [c]));
        assert Render(rest) + (t + [c]) == (Render(rest) + t) + [c];
      } else {
        RenderSnoc(ps, Token([c]));
        SplitSnoc(ps, Token([c]));
      }
    }
  }

  lemma EmptySplits()
    ensures Split([]) && Render([]) == [] && Tokenize([]) == []
  {
  }

  // ... in the only way there is: two splits of one name are the same.
  lemma {:induction false} SplitUnique(ps: seq<Piece>)
    requires Split(ps)
    ensures Tokenize(Render(ps)) == ps
    decreases |ps|
  {
    if ps != [] {
      var init, last := ps[..|ps| - 1], ps[|ps| - 1];
      assert ps == init + [last];
      SplitUnique(init);
      match last {
        case Separator(c) =>
          assert (Render(init) + [c])[..|Render(init)|] == Render(init);
        case Token(t) =>
          assert !EndsInToken(init);
          TokenGrows(Render(init), t);
      }
    }
  }

  lemma {:induction false} TokenGrows(s: string, t: string)
    requires t != [] && TokenShaped(t) && !EndsInToken(Tokenize(s))
    ensures Tokenize(s + t) == Tokenize(s) + [Token(t)]
    decreases |t|
  {
    var init, c := t[..|t| - 1], t[|t| - 1];
    assert (s + t)[..|s + t| - 1] == s + init && t == init + [c];
    if init == [] {
      assert s + init == s;
    } else {
      TokenGrows(s, init);
    }
  }

  lemma TokenizeSnoc(s: string, c: char)
    ensures Tokenize(s + [c]) == (
      var ps := Tokenize(s);
      if !IsTokenChar(c) then ps + [Separator(c)]
      else if EndsInToken(ps) then ps[..|ps| - 1] + [Token(ps[|ps| - 1].text + [c])]
      else ps + [Token([c])])
  {
    hide IsTokenChar;
    assert (s + [c])[..|s|] == s;
  }

  // ----- relabelling -----

  function Replace(d: Dictionary, p: Piece): Piece {
    if p.Token? && p.text in d then Token(d[p.text]) else p
  }

  function ReplaceAll(d: Dictionary, ps: seq<Piece>): (rs: seq<Piece>)
    ensures |rs| == |ps|
    ensures forall i :: 0 <= i < |ps| ==> rs[i] == Replace(d, ps[i])
  {
    seq(|ps|, i requires 0 <= i < |ps| => Replace(d, ps[i]))
  }

  function Relabelled(d: Dictionary, name: string): string { Render(ReplaceAll(d, Tokenize(name))) }

  lemma ReplaceSnoc(d: Dictionary, ps: seq<Piece>, p: Piece)
    ensures Render(ReplaceAll(d, ps + [p])) == Render(ReplaceAll(d, ps)) + Replace(d, p).Text()
  {
    assert ReplaceAll(d, ps + [p]) == ReplaceAll(d, ps) + [Replace(d, p)];
    RenderSnoc(ReplaceAll(d, ps), Replace(d, p));
  }

  function Flushed(d: Dictionary, out: string, tok: string): string {
    if tok == [] then out else out + (if tok in d then d[tok] else tok)
  }

  // s is the finished pieces, already written out, and then the token being read.
  ghost predicate Reading(d: Dictionary, s: string, done: seq<Piece>, out: string, tok: string) {
    && Tokenize(s) == (if tok == [] then done else done + [Token(tok)])
    && !EndsInToken(done)
    && out == Render(ReplaceAll(d, done))
  }

  lemma ReadTokenChar(d: Dictionary, s: string, done: seq<Piece>, out: string, tok: string, c: char)
    requires Reading(d, s, done, out, tok) && IsTokenChar(c)
    ensures Reading(d, s + [c], done, out, tok + [c])
  {
    hide IsTokenChar, Render, Tokenize, ReplaceAll;
    TokenizeSnoc(s, c);
    assert (done + [Token(tok)])[..|done|] == done;
    if tok == [] {
      assert tok + [c] == [c];
    }
  }

  lemma Flush(d: Dictionary, s: string, done: seq<Piece>, out: string, tok: string)
    requires Reading(d, s, done, out, tok)
    ensures Flushed(d, out, tok) == Render(ReplaceAll(d, Tokenize(s)))
  {
    hide IsTokenChar, Render, Tokenize, ReplaceAll;
    ReplaceSnoc(d, done, Token(tok));
  }

  lemma ReadSeparator(d: Dictionary, s: string, done: seq<Piece>, out: string, tok: string, c: char)
    requires Reading(d, s, done, out, tok) && !IsTokenChar(c)
    ensures Reading(d, s + [c], Tokenize(s + [c]), Flushed(d, out, tok) + [c], [])
  {
    hide IsTokenChar, Render, Tokenize, ReplaceAll, Flushed;
    Flush(d, s, done, out, tok);
    TokenizeSnoc(s, c);
    ReplaceSnoc(d, Tokenize(s), Separator(c));
  }

  // The accumulator loop replaces exactly the maximal tokens and keeps every separator.
  method Relabel(d: Dictionary, name: string) returns (out: string)
    ensures out == Relabelled(d, name)
  {
    hide IsTokenChar, Render, Tokenize, ReplaceAll, Reading, Flushed;
    out := [];
    var tok: string := [];
    ghost var done: seq<Piece> := [];
    StartsReading(d);
    assert name[..0] == [];
    for i := 0 to |name|
      invariant Reading(d, name[..i], done, out, tok)
    {
      var ch := name[i];
      assert name[..i + 1] == name[..i] + [ch];
      if IsTokenChar(ch) {
        ReadTokenChar(d, name[..i], done, out, tok, ch);
        tok := tok + [ch];
      } else {
        ReadSeparator(d, name[..i], done, out, tok, ch);
        out := Flushed(d, out, tok) + [ch];
        done, tok := Tokenize(name[..i + 1]), [];
      }
    }
    assert name[..|name|] == name;
    Flush(d, name, done, out, tok);
    out := Flushed(d, out, tok);
  }

  lemma StartsReading(d: Dictionary)
    ensures Reading(d, [], [], [], [])
  {
    assert ReplaceAll(d, []) == [];
  }

  // ----- relabelling can be undone -----

  ghost predicate Injective(d: Dictionary) { forall a, b :: a in d && b in d && d[a] == d[b] ==> a == b }

  // Every original is a nonempty token.
  ghost predicate TokenValued(d: Dictionary) { forall a :: a in d ==> d[a] != [] && TokenShaped(d[a]) }

  ghost predicate Inverse(d: Dictionary, e: Dictionary) {
    && (forall a :: a in d ==> d[a] in e && e[d[a]] == a)
    && (forall b :: b in e ==> e[b] in d && d[e[b]] == b)
  }

  // Every injective dictionary has one.
  lemma InverseExists(d: Dictionary) returns (e: Dictionary)
    requires Injective(d)
    ensures Inverse(d, e)
  {
    e := map a | a in d :: d[a] := a;
  }

  // No token the dictionary leaves alone is itself an original.
  ghost predicate NoClash(d: Dictionary, e: Dictionary, ps: seq<Piece>) {
    forall i :: 0 <= i < |ps| ==> ps[i].Token? && ps[i].text !in d ==> ps[i].text !in e
  }

  lemma ReplacementSplits(d: Dictionary, ps: seq<Piece>)
    requires TokenValued(d) && Split(ps)
    ensures Split(ReplaceAll(d, ps))
  {
    hide TokenShaped, IsTokenChar;
    var rs := ReplaceAll(d, ps);
    forall i | 0 < i < |rs| ensures !(rs[i - 1].Token? && rs[i].Token?) {
      assert ps[i - 1].Token? <==> rs[i - 1].Token?;
    }
  }

  // Relabelling with the inverse dictionary restores the name exactly when no unmapped token of the name
  // is an original.
  lemma RelabelInverts(d: Dictionary, e: Dictionary, name: string)
    requires Inverse(d, e) && TokenValued(d)
    ensures Relabelled(e, Relabelled(d, name)) == name <==> NoClash(d, e, Tokenize(name))
  {
    hide Render, Tokenize, Split, TokenValued;
    var ps := Tokenize(name);
    TokenizeSplits(name);
    ReplacementSplits(d, ps);
    var rs := ReplaceAll(d, ps);
    SplitUnique(rs);
    var qs := ReplaceAll(e, rs);
    if NoClash(d, e, ps) {
      forall i | 0 <= i < |ps| ensures qs[i] == ps[i] {
        assert rs[i] == Replace(d, ps[i]);
      }
      assert qs == ps;
    } else {
      var i :| 0 <= i < |ps| && ps[i].Token? && ps[i].text !in d && ps[i].text in e;
      assert rs[i] == ps[i];
      assert qs[i] != ps[i];
      if Render(qs) == Render(ps) {
        AlignedUnique(ps, qs);
        assert false;
      }
    }
  }

  // The same separators, with any text between them.
  ghost predicate Aligned(ps: seq<Piece>, qs: seq<Piece>) {
    && |ps| == |qs|
    && forall i :: 0 <= i < |ps| ==> if ps[i].Token? then qs[i].Token? else qs[i] == ps[i]
  }

  function Separators(s: string): nat {
    if s == [] then 0 else Separators(s[..|s| - 1]) + (if IsTokenChar(s[|s| - 1]) then 0 else 1)
  }

  lemma {:induction false} SeparatorsAdd(a: string, b: string)
    ensures Separators(a + b) == Separators(a) + Separators(b)
    decreases |b|
  {
    if b == [] {
      assert a + b == a;
    } else {
      assert (a + b)[..|a + b| - 1] == a + b[..|b| - 1];
      SeparatorsAdd(a, b[..|b| - 1]);
    }
  }

  lemma {:induction false} NoSeparators(s: string)
    ensures Separators(s) == 0 <==> TokenShaped(s)
    decreases |s|
  {
    if s != [] {
      var init, c := s[..|s| - 1], s[|s| - 1];
      assert s == init + [c];
      NoSeparators(init);
      if TokenShaped(s) {
        assert IsTokenChar(s[|s| - 1]) && forall i :: 0 <= i < |init| ==> s[i] == init[i];
      }
    }
  }

  // Text with separators in it shows: only token-shaped text keeps their number.
  lemma {:induction false} AlignedSeparators(ps: seq<Piece>, qs: seq<Piece>)
    requires Split(ps) && Aligned(ps, qs)
    ensures Separators(Render(ps)) <= Separators(Render(qs))
    ensures Separators(Render(ps)) == Separators(Render(qs)) ==>
      forall i :: 0 <= i < |qs| && qs[i].Token? ==> TokenShaped(qs[i].text)
    decreases |ps|
  {
    hide TokenShaped, IsTokenChar, Separators;
    if ps != [] {
      var p, q := ps[|ps| - 1], qs[|qs| - 1];
      assert ps == ps[..|ps| - 1] + [p];
      SplitSnoc(ps[..|ps| - 1], p);
      AlignedSeparators(ps[..|ps| - 1], qs[..|qs| - 1]);
      SeparatorsAdd(Render(ps[..|ps| - 1]), p.Text());
      SeparatorsAdd(Render(qs[..|qs| - 1]), q.Text());
      if p.Token? {
        NoSeparators(p.text);
        NoSeparators(q.text);
      }
    }
  }

  lemma AlignedUnique(ps: seq<Piece>, qs: seq<Piece>)
    requires Split(ps) && Aligned(ps, qs) && Render(ps) == Render(qs)
    ensures ps == qs
  {
    AlignedSeparators(ps, qs);
    TokensUnique(ps, qs);
  }

  lemma {:induction false} TokensUnique(ps: seq<Piece>, qs: seq<Piece>)
    requires Split(ps) && Aligned(ps, qs) && Render(ps) == Render(qs)
    requires forall i :: 0 <= i < |qs| && qs[i].Token? ==> TokenShaped(qs[i].text)
    ensures ps == qs
    decreases |ps|
  {
    hide TokenShaped, IsTokenChar;
    if ps != [] {
      var pi, qi, p, q := ps[..|ps| - 1], qs[..|qs| - 1], ps[|ps| - 1], qs[|qs| - 1];
      assert ps == pi + [p] && qs == qi + [q];
      SplitSnoc(pi, p);
      if p.Separator? {
        assert Render(pi) == Render(ps)[..|Render(ps)| - 1] == Render(qs)[..|Render(qs)| - 1] == Render(qi);
      } else {
        SameTail(pi, qi, p.text, q.text);
      }
      TokensUnique(pi, qi);
    }
  }

  lemma LongerEndsInToken(a: string, t: string, b: string, u: string)
    requires |a| > |b| && a + t == b + u && TokenShaped(u)
    ensures IsTokenChar(a[|a| - 1])
  {
    assert (a + t)[|a| - 1] == u[|a| - 1 - |b|];
  }

  // After a separator, or at the start, the token is what follows the last separator.
  lemma SameTail(pi: seq<Piece>, qi: seq<Piece>, t: string, u: string)
    requires Split(pi) && !EndsInToken(pi) && Aligned(pi, qi)
    requires TokenShaped(t) && TokenShaped(u) && Render(pi) + t == Render(qi) + u
    ensures t == u && Render(pi) == Render(qi)
  {
    if pi != [] {
      var c := pi[|pi| - 1];
      assert Proper(c) && qi[|qi| - 1] == c;
      var m, n := |Render(pi)|, |Render(qi)|;
      var whole := Render(pi) + t;
      assert whole[m - 1] == c.c && whole[n - 1] == c.c;
      if m > n {
        LongerEndsInToken(Render(pi), t, Render(qi), u);
        assert false;
      } else if n > m {
        LongerEndsInToken(Render(qi), u, Render(pi), t);
        assert false;
      }
    }
    assert t == (Render(pi) + t)[|Render(pi)|..];
    assert u == (Render(qi) + u)[|Render(qi)|..];
    assert Render(pi) == (Render(pi) + t)[..|Render(pi)|];
    assert Render(qi) == (Render(qi) + u)[..|Render(qi)|];
  }

  // ----- finding the dictionary -----

  const MIN_NAME_PAIRS := 8

  predicate IsIdentifierToken(s: string) { 1 <= |s| <= 32 && TokenShaped(s) }

  // Lexicographic order.
  predicate Less(a: string, b: string) {
    if b == [] then false
    else if a == [] then true
    else a[0] < b[0] || (a[0] == b[0] && Less(a[1..], b[1..]))
  }

  // a sorts before b exactly when it is a proper prefix, or smaller where they first differ.
  lemma {:induction false} LessExactly(a: string, b: string)
    ensures Less(a, b) <==>
      exists k: nat :: k <= |a| && k < |b| && a[..k] == b[..k] && (k == |a| || a[k] < b[k])
    decreases |a|
  {
    if a != [] && b != [] && a[0] == b[0] {
      LessExactly(a[1..], b[1..]);
      var s, t := a[1..], b[1..];
      if k: nat :| k <= |s| && k < |t| && s[..k] == t[..k] && (k == |s| || s[k] < t[k]) {
        assert a[..k + 1] == [a[0]] + a[1..][..k] && b[..k + 1] == [b[0]] + b[1..][..k];
      }
      if k: nat :| k <= |a| && k < |b| && a[..k] == b[..k] && (k == |a| || a[k] < b[k]) {
        assert k > 0 && a[1..][..k - 1] == a[..k][1..] && b[1..][..k - 1] == b[..k][1..];
      }
    } else if a == [] && b != [] {
      var k: nat := 0;
      assert a[..k] == b[..k];
    } else if b != [] && a[0] < b[0] {
      var k: nat := 0;
      assert a[..k] == b[..k];
    } else if b != [] {
      forall k: nat | 0 < k <= |a| && k < |b| ensures a[..k] != b[..k] {
        assert a[..k][0] == a[0] && b[..k][0] == b[0];
      }
    }
  }

  lemma {:induction false} LessTransitive(a: string, b: string, c: string)
    requires Less(a, b) && Less(b, c)
    ensures Less(a, c)
    decreases |a|
  {
    if a != [] && a[0] == b[0] && b[0] == c[0] {
      LessTransitive(a[1..], b[1..], c[1..]);
    }
  }

  lemma {:induction false} LessIrreflexive(a: string)
    ensures !Less(a, a)
    decreases |a|
  {
    if a != [] {
      LessIrreflexive(a[1..]);
    }
  }

  // The strings two by two, from an alignment on.
  function PairUp(run: seq<string>, align: nat): (ps: seq<(string, string)>)
    ensures |ps| == if align + 1 < |run| then (|run| - align) / 2 else 0
    ensures forall j :: 0 <= j < |ps| ==> ps[j] == (run[align + 2 * j], run[align + 2 * j + 1])
  {
    seq(if align + 1 < |run| then (|run| - align) / 2 else 0,
        j requires 0 <= j && align + 2 * j + 1 < |run| => (run[align + 2 * j], run[align + 2 * j + 1]))
  }

  // The keys of pairs[j..k] are identifiers in strictly ascending order.
  ghost predicate Ascending(pairs: seq<(string, string)>, j: nat, k: nat) {
    && j <= k <= |pairs|
    && (forall i :: j <= i < k ==> IsIdentifierToken(pairs[i].0))
    && forall i :: j < i < k ==> Less(pairs[i - 1].0, pairs[i].0)
  }

  // The pairs as a dictionary, later ones overriding.
  function Collect(pairs: seq<(string, string)>): Dictionary {
    if pairs == [] then map[]
    else Collect(pairs[..|pairs| - 1])[pairs[|pairs| - 1].0 := pairs[|pairs| - 1].1]
  }

  lemma {:induction false} AscendingLess(pairs: seq<(string, string)>, j: nat, k: nat, x: nat, y: nat)
    requires Ascending(pairs, j, k) && j <= x < y < k
    ensures Less(pairs[x].0, pairs[y].0)
    decreases y - x
  {
    hide Less, IsIdentifierToken;
    if x + 1 < y {
      AscendingLess(pairs, j, k, x, y - 1);
      LessTransitive(pairs[x].0, pairs[y - 1].0, pairs[y].0);
    }
  }

  lemma KeysDiffer(pairs: seq<(string, string)>, j: nat, k: nat)
    requires Ascending(pairs, j, k)
    ensures forall x, y :: j <= x < y < k ==> pairs[x].0 != pairs[y].0
  {
    hide Less, IsIdentifierToken;
    forall x, y | j <= x < y < k ensures pairs[x].0 != pairs[y].0 {
      AscendingLess(pairs, j, k, x, y);
      LessIrreflexive(pairs[x].0);
    }
  }

  lemma {:induction false} CollectDistinct(pairs: seq<(string, string)>)
    requires forall x, y :: 0 <= x < y < |pairs| ==> pairs[x].0 != pairs[y].0
    ensures var d := Collect(pairs);
      && |d| == |pairs|
      && (forall i :: 0 <= i < |pairs| ==> pairs[i].0 in d && d[pairs[i].0] == pairs[i].1)
      && (forall key :: key in d ==> exists i :: 0 <= i < |pairs| && pairs[i].0 == key)
    decreases |pairs|
  {
    if pairs != [] {
      var init, last := pairs[..|pairs| - 1], pairs[|pairs| - 1];
      assert pairs == init + [last];
      CollectDistinct(init);
      var d := Collect(init);
      assert last.0 !in d;
      assert d[last.0 := last.1].Keys == d.Keys + {last.0};
    }
  }

  // No two keys of a segment collide: the dictionary holds every pair of it and nothing else.
  lemma CollectExact(pairs: seq<(string, string)>, j: nat, k: nat)
    requires j <= k <= |pairs| && Ascending(pairs, j, k)
    ensures var d := Collect(pairs[j..k]);
      && |d| == k - j
      && (forall i :: j <= i < k ==> pairs[i].0 in d && d[pairs[i].0] == pairs[i].1)
      && (forall key :: key in d ==> exists i :: j <= i < k && pairs[i].0 == key)
  {
    hide Ascending, Collect;
    KeysDiffer(pairs, j, k);
    var seg := pairs[j..k];
    CollectDistinct(seg);
    forall i | j <= i < k ensures pairs[i] == seg[i - j] {}
    forall key | key in Collect(seg) ensures exists i :: j <= i < k && pairs[i].0 == key {
      var i :| 0 <= i < |seg| && seg[i].0 == key;
      assert pairs[j + i].0 == key;
    }
  }

  // Some dictionary of at least n entries was found.
  predicate AtLeast(best: Option<Dictionary>, n: nat) { best.Some? && |best.value| >= n }

  // Every long enough ascending segment inside pairs[..limit] is no longer than the best.
  ghost predicate Covered(best: Option<Dictionary>, pairs: seq<(string, string)>, limit: nat) {
    forall x: nat, y: nat :: y <= limit && x + 8 <= y && Ascending(pairs, x, y) ==> AtLeast(best, y - x)
  }

  // A long enough ascending segment under one of the two alignments.
  ghost predicate Segment(run: seq<string>, align: nat, j: nat, k: nat) {
    align < 2 && j + 8 <= k && Ascending(PairUp(run, align), j, k)
  }

  // The best is one of the segments.
  ghost predicate FromSegment(best: Option<Dictionary>, run: seq<string>) {
    best.Some? ==> exists align: nat, j: nat, k: nat ::
      Segment(run, align, j, k) && best.value == Collect(PairUp(run, align)[j..k]) && |best.value| == k - j
  }

  lemma AllCovered(best: Option<Dictionary>, run: seq<string>)
    requires forall align: nat :: align < 2 ==> Covered(best, PairUp(run, align), |PairUp(run, align)|)
    ensures forall align: nat, j: nat, k: nat :: Segment(run, align, j, k) ==> AtLeast(best, k - j)
  {
    hide Less, IsIdentifierToken, AtLeast;
    forall align: nat, j: nat, k: nat | Segment(run, align, j, k) ensures AtLeast(best, k - j) {
      assert Covered(best, PairUp(run, align), |PairUp(run, align)|);
    }
  }

  // A dictionary is found exactly when some alignment has an ascending segment of at least eight pairs;
  // it is such a segment, and no segment under either alignment is longer.
  method PairsFromRun(run: seq<string>) returns (best: Option<Dictionary>)
    ensures best.Some? <==> exists align: nat, j: nat, k: nat :: Segment(run, align, j, k)
    ensures FromSegment(best, run)
    ensures forall align: nat, j: nat, k: nat :: Segment(run, align, j, k) ==> AtLeast(best, k - j)
  {
    hide Less, IsIdentifierToken, Ascending, PairUp, Segment;
    best := None;
    for align := 0 to 2
      invariant FromSegment(best, run)
      invariant forall a: nat :: a < align ==> Covered(best, PairUp(run, a), |PairUp(run, a)|)
    {
      best := LongestSegment(run, align, best);
    }
    AllCovered(best, run);
  }

  method LongestSegment(run: seq<string>, align: nat, sofar: Option<Dictionary>) returns (best: Option<Dictionary>)
    requires align < 2 && FromSegment(sofar, run)
    ensures FromSegment(best, run)
    ensures Covered(best, PairUp(run, align), |PairUp(run, align)|)
    ensures sofar.Some? ==> AtLeast(best, |sofar.value|)
  {
    hide Less, IsIdentifierToken, Ascending, PairUp, Collect;
    best := sofar;
    var pairs := PairUp(run, align);
    var j := 0;
    while j < |pairs|
      invariant 0 <= j <= |pairs|
      invariant forall x: nat, y: nat :: x < j < y ==> !Ascending(pairs, x, y)
      invariant Covered(best, pairs, j) && FromSegment(best, run)
      invariant sofar.Some? ==> AtLeast(best, |sofar.value|)
    {
      var k := SegmentEnd(pairs, j);
      ghost var before := best;
      if k - j >= MIN_NAME_PAIRS {
        CollectExact(pairs, j, k);
        var found := Collect(pairs[j..k]);
        if best.None? || |found| > |best.value| {
          best := Some(found);
        }
      }
      CoverMore(before, best, pairs, j, k);
      j := if k > j + 1 then k else j + 1;
    }
  }

  // The end of the ascending segment from j: none that starts at or before it crosses it.
  method SegmentEnd(pairs: seq<(string, string)>, j: nat) returns (k: nat)
    requires j < |pairs| && forall x: nat, y: nat :: x < j < y ==> !Ascending(pairs, x, y)
    ensures j <= k <= |pairs| && Ascending(pairs, j, k)
    ensures forall x: nat, y: nat :: x < (if k > j + 1 then k else j + 1) < y ==> !Ascending(pairs, x, y)
    ensures k == j ==> forall y: nat :: j < y ==> !Ascending(pairs, j, y)
  {
    hide Less, IsIdentifierToken;
    k := j;
    while k < |pairs| && IsIdentifierToken(pairs[k].0) && (k == j || Less(pairs[k - 1].0, pairs[k].0))
      invariant Ascending(pairs, j, k)
    {
      k := k + 1;
    }
  }

  lemma CoverMore(before: Option<Dictionary>, best: Option<Dictionary>, pairs: seq<(string, string)>, j: nat, k: nat)
    requires j <= k <= |pairs| && Covered(before, pairs, j)
    requires before.Some? ==> AtLeast(best, |before.value|)
    requires k - j >= MIN_NAME_PAIRS ==> AtLeast(best, k - j)
    requires forall x: nat, y: nat :: x < j < y ==> !Ascending(pairs, x, y)
    requires k == j ==> forall y: nat :: j < y ==> !Ascending(pairs, j, y)
    ensures Covered(best, pairs, if k > j + 1 then k else j + 1)
  {
    hide Ascending;
  }
}
