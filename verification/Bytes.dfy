/** Bytes, machine integers and fixed-width words. Arithmetic is on unbounded integers; every place
    where the program wraps or truncates goes through `Wrap64`, `AsI64`, `AsI32` or `ToLe`/`ToBe`. */
module Bytes {
  import opened Wrappers

  type byte = b: int | 0 <= b < 256

  const U16 := 0x1_0000
  const U32 := 0x1_0000_0000
  const U64 := 0x1_0000_0000_0000_0000

  type u32 = x: int | 0 <= x < 0x1_0000_0000
  type u64 = x: int | 0 <= x < 0x1_0000_0000_0000_0000
  type i32 = x: int | -0x8000_0000 <= x < 0x8000_0000
  type i64 = x: int | -0x8000_0000_0000_0000 <= x < 0x8000_0000_0000_0000

  function Wrap32(x: int): u32 { x % 0x1_0000_0000 }

  function Wrap64(x: int): u64 { x % 0x1_0000_0000_0000_0000 }

  // Reinterpretation of the low 32 (64) bits as a two's-complement number.
  function AsI32(x: int): i32 {
    var w := x % 0x1_0000_0000;
    if w < 0x8000_0000 then w else w - 0x1_0000_0000
  }

  function AsI64(x: int): i64 {
    var w := x % 0x1_0000_0000_0000_0000;
    if w < 0x8000_0000_0000_0000 then w else w - 0x1_0000_0000_0000_0000
  }

  // A wrapped difference added back with wrap-around restores the target.
  lemma WrappedDelta(a: i64, b: i64)
    ensures AsI64(a + AsI64(b - a)) == b
    ensures AsI64(b - a) == 0 <==> a == b
  {
  }

  function SatSub(a: nat, b: nat): nat { if a < b then 0 else a - b }

  function SatAdd64(a: nat, b: nat): nat { if a + b < U64 then a + b else U64 - 1 }

  function Min(a: int, b: int): int { if a < b then a else b }

  function Max(a: int, b: int): int { if a < b then b else a }

  function Pow256(n: nat): (p: nat)
    ensures p > 0
  {
    if n == 0 then 1 else 256 * Pow256(n - 1)
  }

  function FromLe(s: seq<byte>): nat {
    if s == [] then 0 else s[0] + 256 * FromLe(s[1..])
  }

  function FromBe(s: seq<byte>): nat {
    if s == [] then 0 else 256 * FromBe(s[..|s| - 1]) + s[|s| - 1]
  }

  // The low n bytes of v, least significant first.
  function ToLe(v: nat, n: nat): (s: seq<byte>)
    ensures |s| == n
  {
    if n == 0 then [] else [v % 256] + ToLe(v / 256, n - 1)
  }

  // The low n bytes of v, most significant first.
  function ToBe(v: nat, n: nat): (s: seq<byte>)
    ensures |s| == n
  {
    if n == 0 then [] else ToBe(v / 256, n - 1) + [v % 256]
  }

  function FromWord(s: seq<byte>, le: bool): nat { if le then FromLe(s) else FromBe(s) }

  function ToWord(v: nat, n: nat, le: bool): (s: seq<byte>)
    ensures |s| == n
  {
    if le then ToLe(v, n) else ToBe(v, n)
  }

  lemma ModSplit(v: nat, p: nat)
    requires p > 0
    ensures v % (256 * p) == v % 256 + 256 * (v / 256 % p)
  {
    var q, r := v / 256 / p, v / 256 % p;
    assert v == 256 * (q * p + r) + v % 256;
    assert v == (256 * p) * q + (256 * r + v % 256);
    assert 256 * r + v % 256 < 256 * p;
    ModUnique(v, 256 * p, q, 256 * r + v % 256);
  }

  lemma MulAtLeast(m: int, d: int)
    requires m > 0 && d >= 1
    ensures m * d >= m
  {
  }

  // Division with remainder is unique.
  lemma ModUnique(v: int, m: int, q: int, r: int)
    requires 0 <= r < m && v == m * q + r
    ensures v % m == r && v / m == q
  {
    var d := v / m - q;
    assert m * d == r - v % m;
    if d >= 1 {
      MulAtLeast(m, d);
    } else if d <= -1 {
      MulAtLeast(m, -d);
    }
  }

  // Reading back the low n bytes of v gives v modulo 256^n, in either byte order.
  lemma {:induction false} LeRoundTrip(v: nat, n: nat)
    ensures FromLe(ToLe(v, n)) == v % Pow256(n)
  {
    if n > 0 {
      LeRoundTrip(v / 256, n - 1);
      ModSplit(v, Pow256(n - 1));
    }
  }

  lemma {:induction false} BeRoundTrip(v: nat, n: nat)
    ensures FromBe(ToBe(v, n)) == v % Pow256(n)
  {
    if n > 0 {
      BeRoundTrip(v / 256, n - 1);
      ModSplit(v, Pow256(n - 1));
    }
  }

  lemma WordRoundTrip(v: nat, n: nat, le: bool)
    requires v < Pow256(n)
    ensures FromWord(ToWord(v, n, le), le) == v
  {
    ModUnique(v, Pow256(n), 0, v);
    if le {
      LeRoundTrip(v, n);
    } else {
      BeRoundTrip(v, n);
    }
  }

  lemma {:induction false} LeBound(s: seq<byte>)
    ensures FromLe(s) < Pow256(|s|)
  {
    if s != [] {
      LeBound(s[1..]);
    }
  }

  lemma {:induction false} BeBound(s: seq<byte>)
    ensures FromBe(s) < Pow256(|s|)
  {
    if s != [] {
      BeBound(s[..|s| - 1]);
    }
  }

  lemma WordBound(s: seq<byte>, le: bool)
    ensures FromWord(s, le) < Pow256(|s|)
  {
    LeBound(s);
    BeBound(s);
  }

  lemma Pow256Values()
    ensures Pow256(1) == 256 && Pow256(2) == U16 && Pow256(4) == U32 && Pow256(8) == U64
  {
    assert Pow256(2) == 256 * Pow256(1);
    assert Pow256(3) == 256 * Pow256(2);
    assert Pow256(4) == 256 * Pow256(3);
    assert Pow256(5) == 256 * Pow256(4);
    assert Pow256(6) == 256 * Pow256(5);
    assert Pow256(7) == 256 * Pow256(6);
    assert Pow256(8) == 256 * Pow256(7);
  }

  // `n` zero bytes.
  function Zeros(n: nat): (s: seq<byte>)
    ensures |s| == n && forall i :: 0 <= i < n ==> s[i] == 0
  {
    seq(n, _ => 0)
  }

  lemma ZeroZeros()
    ensures Zeros(0) == []
  {
  }

  lemma ZerosStep(k: nat)
    ensures Zeros(k + 1) == Zeros(k) + [0]
  {
  }

  // The buffer with `data` copied over it at `at`.
  function Splice(buf: seq<byte>, at: nat, data: seq<byte>): (r: seq<byte>)
    requires at + |data| <= |buf|
    ensures |r| == |buf|
    ensures r[at..at + |data|] == data
    ensures forall i :: 0 <= i < |buf| && !(at <= i < at + |data|) ==> r[i] == buf[i]
  {
    buf[..at] + data + buf[at + |data|..]
  }

  // The n-byte word at `off`; None where the buffer is too short.
  function WordAt(buf: seq<byte>, off: nat, n: nat, le: bool): Option<nat> {
    if off + n > |buf| then None else Some(FromWord(buf[off..off + n], le))
  }

  lemma WordAtBound(buf: seq<byte>, off: nat, n: nat, le: bool)
    ensures WordAt(buf, off, n, le).Some? ==> WordAt(buf, off, n, le).value < Pow256(n)
  {
    if off + n <= |buf| {
      WordBound(buf[off..off + n], le);
    }
  }

  // Reading from a suffix is reading further on.
  lemma WordAtShift(buf: seq<byte>, base: nat, off: nat, n: nat, le: bool)
    requires base <= |buf|
    ensures WordAt(buf[base..], off, n, le) == WordAt(buf, base + off, n, le)
  {
    if base + off + n <= |buf| {
      assert buf[base..][off..off + n] == buf[base + off..base + off + n];
    }
  }

  // The little-endian signed 32-bit number at `off`.
  function I32At(buf: seq<byte>, off: nat): i32
    requires off + 4 <= |buf|
  {
    AsI32(FromLe(buf[off..off + 4]))
  }

  // The piece lies whole at `off`.
  predicate MatchesAt(bytes: seq<byte>, off: nat, needle: seq<byte>) {
    off + |needle| <= |bytes| && bytes[off..off + |needle|] == needle
  }

  // The bytes before the first NUL.
  function UpToNul(s: seq<byte>): (r: seq<byte>)
    ensures |r| <= |s| && 0 !in r
    ensures r == s[..|r|]
    ensures |r| < |s| ==> s[|r|] == 0
  {
    if s == [] || s[0] == 0 then [] else [s[0]] + UpToNul(s[1..])
  }
}
