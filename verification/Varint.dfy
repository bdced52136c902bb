/** Unsigned LEB128 (section 7.6 of DWARF version 5) capped at ten bytes, and zig-zag. */
module Varint {
  import opened Wrappers
  import opened Bytes
  import opened Bits

  const MAX_BYTES := 10

  // The number a LEB128 prefix of `buf` denotes, unbounded, and how many bytes it takes;
  // None if no byte among the first `cap` ends it.
  function Leb128(buf: seq<byte>, cap: nat): (r: Option<(nat, nat)>)
    ensures r.Some? ==> 1 <= r.value.1 <= cap && r.value.1 <= |buf|
  {
    if cap == 0 || buf == [] then None
    else if buf[0] < 0x80 then Some((buf[0], 1))
    else
      var (v, n) :- Leb128(buf[1..], cap - 1);
      Some((buf[0] - 0x80 + 0x80 * v, n + 1))
  }

  // What the reader returns: at most ten bytes, the value truncated to 64 bits.
  function Decode(buf: seq<byte>): (r: Option<(u64, nat)>)
    ensures r.Some? ==> 1 <= r.value.1 <= |buf|
  {
    var (v, n) :- Leb128(buf, MAX_BYTES);
    Some((Wrap64(v), n))
  }

  // Joins the seven low bits of each byte, least significant first, up to a byte without the continuation bit.
  method ReadVarint(buf: seq<byte>) returns (r: Option<(u64, nat)>)
    ensures r == Decode(buf)
  {
    var result: nat := 0;
    var shift: nat := 0;
    var i := 0;
    ReadingStart(buf);
    while i < |buf| && i < MAX_BYTES
      invariant shift == 7 * i
      invariant Reading(buf, i, result)
    {
      var b := buf[i];
      ReadingStep(buf, i, result);
      result := Or(result, Wrap64(And(b, 0x7f) * Pow2(shift)));
      if And(b, 0x80) == 0 {
        return Some((result, i + 1));
      }
      shift := shift + 7;
      if shift >= 64 {
        return None;
      }
      i := i + 1;
    }
    ReadingEnd(buf, i, result);
    return None;
  }

  // `acc` holds the groups of the first i bytes, all of which carry a continuation bit.
  ghost predicate Reading(buf: seq<byte>, i: nat, acc: nat) {
    && i <= |buf| && i < MAX_BYTES
    && acc < Pow2(7 * i)
    && Leb128(buf, MAX_BYTES) == Continued(acc, i, Leb128(buf[i..], MAX_BYTES - i))
  }

  lemma ReadingStart(buf: seq<byte>)
    ensures Reading(buf, 0, 0)
  {
    assert buf[0..] == buf;
    assert Pow2(7 * 0) == 1;
  }

  lemma ReadingEnd(buf: seq<byte>, i: nat, acc: nat)
    requires Reading(buf, i, acc) && i == |buf|
    ensures Decode(buf) == None
  {
  }

  lemma ReadingStep(buf: seq<byte>, i: nat, acc: nat)
    requires Reading(buf, i, acc) && i < |buf|
    ensures And(buf[i], 0x80) == 0 <==> buf[i] < 0x80
    ensures var next := Or(acc, Wrap64(And(buf[i], 0x7f) * Pow2(7 * i)));
      if buf[i] < 0x80 then Decode(buf) == Some((next, i + 1))
      else if i == 9 then Decode(buf) == None
      else Reading(buf, i + 1, next)
  {
    var next := NextAcc(acc, buf[i], i);
    ReaderStep(buf, i, acc);
    SpecStep(buf, i, acc);
    if i < 9 {
      ModUnique(next, U64, 0, next);
    }
  }

  // One turn of the loop, on the unbounded value.
  lemma ReaderStep(buf: seq<byte>, i: nat, acc: nat)
    requires i < |buf| && i < MAX_BYTES && acc < Pow2(7 * i)
    ensures And(buf[i], 0x80) == 0 <==> buf[i] < 0x80
    ensures Or(acc, Wrap64(And(buf[i], 0x7f) * Pow2(7 * i))) == NextAcc(acc, buf[i], i) % U64
    ensures i < 9 ==> NextAcc(acc, buf[i], i) < Pow2(7 * (i + 1)) <= U64
  {
    hide And, Or, Pow2, Wrap64;
    BitTests(buf[i]);
    assert And(buf[i], 0x7f) == buf[i] % 0x80;
    TruncatedJoin(acc, buf[i] % 0x80, 7 * i);
    if i < 9 {
      JoinBound(acc, buf[i] % 0x80, 7 * i);
    }
  }

  ghost function NextAcc(acc: nat, b: byte, i: nat): nat { acc + (b % 0x80) * Pow2(7 * i) }

  lemma SpecStep(buf: seq<byte>, i: nat, acc: nat)
    requires i < |buf| && i < MAX_BYTES
    ensures Continued(acc, i, Leb128(buf[i..], MAX_BYTES - i))
         == if buf[i] < 0x80 then Some((NextAcc(acc, buf[i], i), i + 1))
            else Continued(NextAcc(acc, buf[i], i), i + 1, Leb128(buf[i + 1..], MAX_BYTES - i - 1))
  {
    var b := buf[i];
    var tail := Leb128(buf[i + 1..], MAX_BYTES - i - 1);
    assert buf[i..][0] == b && buf[i..][1..] == buf[i + 1..];
    if b < 0x80 {
      assert b % 0x80 == b;
      assert Leb128(buf[i..], MAX_BYTES - i) == Some((b, 1));
    } else {
      assert b % 0x80 == b - 0x80;
      ContinuedStep(acc, i, b, tail);
      assert Leb128(buf[i..], MAX_BYTES - i)
          == if tail.None? then None else Some((b - 0x80 + 0x80 * tail.value.0, tail.value.1 + 1));
    }
  }

  // The outcome of the whole buffer once `acc` holds the first i groups.
  ghost function Continued(acc: nat, i: nat, rest: Option<(nat, nat)>): Option<(nat, nat)> {
    if rest.None? then None else Some((acc + Pow2(7 * i) * rest.value.0, i + rest.value.1))
  }

  lemma ContinuedStep(acc: nat, i: nat, b: byte, rest: Option<(nat, nat)>)
    requires b >= 0x80
    ensures Continued(acc + (b - 0x80) * Pow2(7 * i), i + 1, rest)
         == Continued(acc, i, if rest.None? then None else Some((b - 0x80 + 0x80 * rest.value.0, rest.value.1 + 1)))
  {
    Pow2Add(7 * i, 7);
    Pow2Values();
    if rest.Some? {
      var p, v := Pow2(7 * i), rest.value.0;
      assert p * (b - 0x80 + 0x80 * v) == (b - 0x80) * p + (p * 0x80) * v;
    }
  }

  lemma BitTests(b: byte)
    ensures And(b, 0x7f) == b % 0x80
    ensures And(b, 0x80) == if b >= 0x80 then 0x80 else 0
  {
    hide And;
    Pow2Values();
    AndLowMask(b, 7);
    AndBit(b, 7);
  }

  // Below the tenth byte the accumulated groups fit 64 bits.
  lemma JoinBound(acc: nat, c: nat, shift: nat)
    requires shift <= 56 && acc < Pow2(shift) && c < 0x80
    ensures acc + c * Pow2(shift) < Pow2(shift + 7) <= U64
  {
    var p := Pow2(shift);
    assert Pow2(shift + 7) == p * 0x80 by {
      Pow2Values();
      Pow2Add(shift, 7);
    }
    MulMonotone(c, 0x7f, p);
    Pow2Within(shift + 7);
  }

  lemma Pow2Within(n: nat)
    requires n <= 64
    ensures Pow2(n) <= U64
  {
    Pow2Values();
    Pow2Add(n, 64 - n);
    MulMonotone(1, Pow2(64 - n), Pow2(n));
  }

  lemma TruncatedJoin(acc: nat, c: nat, shift: nat)
    requires shift <= 63 && acc < Pow2(shift)
    ensures Or(acc, Wrap64(c * Pow2(shift))) == (acc + c * Pow2(shift)) % U64
  {
    hide Or, Pow2;
    Pow2Values();
    Pow2Add(shift, 64 - shift);
    var p, q := Pow2(shift), Pow2(64 - shift);
    ScaledMod(acc, c, p, q);
    OrDisjoint(acc, c % q, shift);
  }

  lemma MulMonotone(a: nat, b: nat, p: nat)
    requires a <= b
    ensures a * p <= b * p
  {
  }

  lemma ScaledMod(acc: nat, c: nat, p: nat, q: nat)
    requires acc < p && q > 0
    ensures (acc + c * p) % (p * q) == acc + (c % q) * p
    ensures (c * p) % (p * q) == (c % q) * p
  {
    var k, d := c / q, c % q;
    assert c * p == (p * q) * k + d * p by {
      assert c == q * k + d;
      assert (q * k) * p == (p * q) * k;
    }
    MulMonotone(d, q - 1, p);
    assert (q - 1) * p == p * q - p;
    ModUnique(acc + c * p, p * q, k, acc + d * p);
    ModUnique(c * p, p * q, k, d * p);
  }

  // The shortest LEB128 form.
  function Encode(v: nat): (s: seq<byte>)
    ensures |s| >= 1
    ensures v == 0 <==> s == [0]
  {
    if v < 0x80 then [v] else [0x80 + v % 0x80] + Encode(v / 0x80)
  }

  lemma {:induction false} Leb128Encode(v: nat, rest: seq<byte>, cap: nat)
    requires cap >= 1 && v < Pow2(7 * cap)
    ensures Leb128(Encode(v) + rest, cap) == Some((v, |Encode(v)|))
  {
    if v >= 0x80 {
      assert cap > 1 && v / 0x80 < Pow2(7 * (cap - 1)) by {
        Pow2Values();
        Pow2Add(7, 7 * (cap - 1));
      }
      hide Pow2;
      assert Encode(v)[1..] == Encode(v / 0x80);
      assert (Encode(v) + rest)[1..] == Encode(v / 0x80) + rest;
      Leb128Encode(v / 0x80, rest, cap - 1);
    }
  }

  // Every 64-bit value survives encoding, whatever bytes follow.
  lemma DecodeEncode(v: u64, rest: seq<byte>)
    ensures Decode(Encode(v) + rest) == Some((v, |Encode(v)|))
  {
    hide Encode, Leb128, Pow2;
    Pow2Values();
    Pow2Add(64, 6);
    Leb128Encode(v, rest, MAX_BYTES);
  }

  // Half of u, complemented when u is odd.
  function ZigZag(u: u64): i64 {
    AsI64(Xor(u / 2, Wrap64(0 - And(u, 1))))
  }

  function UnZigZag(v: i64): u64 {
    if v >= 0 then 2 * v else -2 * v - 1
  }

  lemma ZigZagValue(u: u64)
    ensures ZigZag(u) == if u % 2 == 0 then u / 2 else -(u / 2) - 1
  {
    hide And, Xor, Pow2;
    LowBit(u);
    if u % 2 == 0 {
      XorZero(u / 2);
    } else {
      Pow2Values();
      XorOnes(u / 2, 64);
    }
  }

  lemma LowBit(u: nat)
    ensures And(u, 1) == u % 2
  {
    AndOdd(u, 0);
    AndZero(u / 2);
  }

  // Zig-zag is a bijection between all 64-bit words and all 64-bit signed numbers.
  lemma ZigZagInverse(u: u64, v: i64)
    ensures ZigZag(UnZigZag(v)) == v
    ensures UnZigZag(ZigZag(u)) == u
    ensures ZigZag(u) == 0 <==> u == 0
  {
    ZigZagValue(UnZigZag(v));
    ZigZagValue(u);
  }
}
