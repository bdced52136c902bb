/** Records made of words of one width: writing a list of them, and finding it again in a longer buffer. */
module WordList {
  import opened Wrappers
  import opened Bytes

  function EncodeWords(ws: seq<nat>, n: nat, le: bool): (s: seq<byte>)
    ensures |s| == |ws| * n
  {
    if ws == [] then [] else ToWord(ws[0], n, le) + EncodeWords(ws[1..], n, le)
  }

  predicate FitWords(ws: seq<nat>, n: nat) { forall k :: 0 <= k < |ws| ==> ws[k] < Pow256(n) }

  // Two pieces lie one behind the other exactly when their concatenation lies there.
  lemma HeldPair(buf: seq<byte>, off: nat, a: seq<byte>, b: seq<byte>)
    ensures MatchesAt(buf, off, a + b) <==> MatchesAt(buf, off, a) && MatchesAt(buf, off + |a|, b)
  {
    if off + |a| + |b| <= |buf| {
      var x := buf[off..off + |a| + |b|];
      assert x[..|a|] == buf[off..off + |a|] && x[|a|..] == buf[off + |a|..off + |a| + |b|];
      assert (a + b)[..|a|] == a && (a + b)[|a|..] == b;
      assert x == x[..|a|] + x[|a|..];
    }
  }

  // A word is read exactly when its bytes lie there.
  lemma HeldWord(buf: seq<byte>, off: nat, v: nat, n: nat, le: bool)
    requires v < Pow256(n)
    ensures MatchesAt(buf, off, ToWord(v, n, le)) <==> WordAt(buf, off, n, le) == Some(v)
  {
    hide ToWord, FromWord, Pow256;
    WordRoundTrip(v, n, le);
    if off + n <= |buf| {
      WordBack(buf[off..off + n], le);
    }
  }

  lemma WordBack(s: seq<byte>, le: bool)
    ensures ToWord(FromWord(s, le), |s|, le) == s
  {
    LeBack(s);
    BeBack(s);
  }

  lemma {:induction false} LeBack(s: seq<byte>)
    ensures ToLe(FromLe(s), |s|) == s
  {
    if s != [] {
      LeBack(s[1..]);
      assert FromLe(s) % 256 == s[0] && FromLe(s) / 256 == FromLe(s[1..]);
    }
  }

  lemma {:induction false} BeBack(s: seq<byte>)
    ensures ToBe(FromBe(s), |s|) == s
  {
    if s != [] {
      var init, last := s[..|s| - 1], s[|s| - 1];
      BeBack(init);
      assert FromBe(s) % 256 == last && FromBe(s) / 256 == FromBe(init);
      assert s == init + [last];
    }
  }

  // Word k of a list that lies at `off`.
  lemma {:induction false} HeldWords(buf: seq<byte>, off: nat, ws: seq<nat>, n: nat, le: bool, k: nat)
    requires k < |ws| && FitWords(ws, n) && MatchesAt(buf, off, EncodeWords(ws, n, le))
    ensures WordAt(buf, off + k * n, n, le) == Some(ws[k])
    decreases k
  {
    hide WordAt, ToWord, MatchesAt, Pow256;
    HeldPair(buf, off, ToWord(ws[0], n, le), EncodeWords(ws[1..], n, le));
    if k == 0 {
      HeldWord(buf, off, ws[0], n, le);
    } else {
      HeldWords(buf, off + n, ws[1..], n, le, k - 1);
      assert k * n == n + (k - 1) * n;
    }
  }

  // A list of words that are all read lies there.
  lemma {:induction false} WordsHeld(buf: seq<byte>, off: nat, ws: seq<nat>, n: nat, le: bool)
    requires off <= |buf| && FitWords(ws, n)
    requires forall k: nat :: k < |ws| ==> WordAt(buf, off + k * n, n, le) == Some(ws[k])
    ensures MatchesAt(buf, off, EncodeWords(ws, n, le))
    decreases |ws|
  {
    hide ToWord, FromWord, Pow256;
    if ws != [] {
      assert WordAt(buf, off + 0 * n, n, le) == Some(ws[0]);
      forall k: nat | k < |ws| - 1 ensures WordAt(buf, off + n + k * n, n, le) == Some(ws[1..][k]) {
        assert off + (k + 1) * n == off + n + k * n;
      }
      WordsHeld(buf, off + n, ws[1..], n, le);
      HeldWord(buf, off, ws[0], n, le);
      HeldPair(buf, off, ToWord(ws[0], n, le), EncodeWords(ws[1..], n, le));
    }
  }
}
