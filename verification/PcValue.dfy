/** pc-value tables: a stream of (zig-zag value delta, pc delta) varint pairs, ended by a zero value
    delta. Three walkers read it; all are stated against one list, the states the stream runs through. */
module PcValue {
  import opened Wrappers
  import opened Bytes
  import opened Varint

  // `value` covers every offset from the previous state's pc up to (not including) `pc`.
  datatype State = State(value: i64, pc: u32)

  const MAX_RECORDS := 1_000_000
  const QUANTUM: nat := 1

  // The state after the record at the front of `buf`, and the bytes after it; None at the end of the
  // buffer, at a terminator or at a broken varint.
  function NextRecord(buf: seq<byte>, value: i64, pc: u32): (r: Option<(State, seq<byte>)>)
    ensures r.Some? ==> |r.value.1| < |buf|
  {
    var (uval, n) :- Decode(buf);
    if uval == 0 && pc != 0 then None
    else
      var (pcDelta, n2) :- Decode(buf[n..]);
      Some((Advance(value, pc, uval, pcDelta), buf[n..][n2..]))
  }

  function Advance(value: i64, pc: u32, uval: u64, pcDelta: u64): State {
    State(AsI64(value + ZigZag(uval)), Wrap32(pc + Wrap32(pcDelta) * QUANTUM))
  }

  // The states the stream runs through.
  function States(buf: seq<byte>, value: i64, pc: u32): seq<State>
    decreases |buf|
  {
    match NextRecord(buf, value, pc)
    case None => []
    case Some((st, rest)) => [st] + States(rest, st.value, st.pc)
  }

  function Take(s: seq<State>, n: nat): seq<State> { s[..Min(n, |s|)] }

  // Every walker gives up after MAX_RECORDS records.
  function Stream(table: seq<byte>, start: nat): seq<State> {
    if start >= |table| then [] else Take(States(table[start..], -1, 0), MAX_RECORDS)
  }

  // One turn of a walker: either the list is exhausted or its head is the next record's state.
  lemma Unfold(buf: seq<byte>, value: i64, pc: u32, n: nat)
    requires n > 0
    ensures var s := Take(States(buf, value, pc), n);
      match NextRecord(buf, value, pc)
      case None => s == []
      case Some((st, rest)) => s != [] && s[0] == st && s[1..] == Take(States(rest, st.value, st.pc), n - 1)
  {
    hide NextRecord;
  }

  lemma NothingLeft(value: i64, pc: u32)
    ensures States([], value, pc) == []
  {
  }

  function FirstCovering(s: seq<State>, target: u32): i64 {
    if s == [] then -1
    else if target < s[0].pc then s[0].value
    else FirstCovering(s[1..], target)
  }

  function MaxUntil(s: seq<State>, limit: u32, best: i64): i64 {
    if s == [] then best
    else if s[0].pc >= limit then Max(best, s[0].value)
    else MaxUntil(s[1..], limit, Max(best, s[0].value))
  }

  // The value covering an offset, -1 if none does.
  function ValueAt(table: seq<byte>, start: nat, target: u32): i64 {
    FirstCovering(Stream(table, start), target)
  }

  // The largest value before `limit`, at least -1.
  function MaxValue(table: seq<byte>, start: nat, limit: u32): i64 {
    MaxUntil(Stream(table, start), limit, -1)
  }

  method PcvalueAt(table: seq<byte>, start: nat, targetOff: u32) returns (r: i64)
    ensures r == ValueAt(table, start, targetOff)
  {
    hide ZigZag, Decode, States;
    if start >= |table| {
      return -1;
    }
    var value: i64 := -1;
    var pc: u32 := 0;
    var pos := start;
    var iterGuard := 0;
    while pos < |table| && iterGuard < MAX_RECORDS
      invariant start <= pos <= |table| && 0 <= iterGuard <= MAX_RECORDS
      invariant ValueAt(table, start, targetOff)
             == FirstCovering(Take(States(table[pos..], value, pc), MAX_RECORDS - iterGuard), targetOff)
      decreases MAX_RECORDS - iterGuard
    {
      Unfold(table[pos..], value, pc, MAX_RECORDS - iterGuard);
      iterGuard := iterGuard + 1;
      var v := ReadVarint(table[pos..]);
      if v.None? {
        return -1;
      }
      var (uval, n) := v.value;
      if uval == 0 && pc != 0 {
        return -1;
      }
      assert table[pos..][n..] == table[pos + n..];
      pos := pos + n;
      value := AsI64(value + ZigZag(uval));
      var d := ReadVarint(table[pos..]);
      if d.None? {
        return -1;
      }
      var (pcDelta, n2) := d.value;
      assert table[pos..][n2..] == table[pos + n2..];
      pos := pos + n2;
      pc := Wrap32(pc + Wrap32(pcDelta) * QUANTUM);
      if targetOff < pc {
        return value;
      }
    }
    assert pos == |table| ==> table[pos..] == [];
    NothingLeft(value, pc);
    return -1;
  }

  method MaxPcvalue(table: seq<byte>, start: nat, pcLimit: u32) returns (r: i64)
    ensures r == MaxValue(table, start, pcLimit)
  {
    hide ZigZag, Decode, States;
    if start >= |table| {
      return -1;
    }
    var value: i64 := -1;
    var pc: u32 := 0;
    var pos := start;
    var maxSeen: i64 := -1;
    var iterGuard := 0;
    while pos < |table| && iterGuard < MAX_RECORDS
      invariant start <= pos <= |table| && 0 <= iterGuard <= MAX_RECORDS
      invariant MaxValue(table, start, pcLimit)
             == MaxUntil(Take(States(table[pos..], value, pc), MAX_RECORDS - iterGuard), pcLimit, maxSeen)
      decreases MAX_RECORDS - iterGuard
    {
      Unfold(table[pos..], value, pc, MAX_RECORDS - iterGuard);
      iterGuard := iterGuard + 1;
      var v := ReadVarint(table[pos..]);
      if v.None? {
        return maxSeen;
      }
      var (uval, n) := v.value;
      if uval == 0 && pc != 0 {
        return maxSeen;
      }
      assert table[pos..][n..] == table[pos + n..];
      pos := pos + n;
      value := AsI64(value + ZigZag(uval));
      var d := ReadVarint(table[pos..]);
      if d.None? {
        return maxSeen;
      }
      var (pcDelta, n2) := d.value;
      assert table[pos..][n2..] == table[pos + n2..];
      pos := pos + n2;
      pc := Wrap32(pc + Wrap32(pcDelta) * QUANTUM);
      if value > maxSeen {
        maxSeen := value;
      }
      if pc >= pcLimit {
        return maxSeen;
      }
    }
    assert pos == |table| ==> table[pos..] == [];
    NothingLeft(value, pc);
    return maxSeen;
  }

  function FirstPcvalue(table: seq<byte>, start: nat): Option<i64> {
    if start >= |table| then None
    else
      var (uval, _) :- Decode(table[start..]);
      if uval == 0 then None else Some(AsI64(-1 + ZigZag(uval)))
  }

  // ----- encoding -----

  function EncodeRuns(runs: seq<State>, value: i64, pc: u32): seq<byte>
    requires Climbing(runs, pc)
  {
    if runs == [] then []
    else
      EncodeRecord(runs[0], value, pc) + EncodeRuns(runs[1..], runs[0].value, runs[0].pc)
  }

  function EncodeRecord(st: State, value: i64, pc: u32): seq<byte>
    requires pc < st.pc
  {
    Encode(UnZigZag(AsI64(st.value - value))) + Encode(st.pc - pc)
  }

  // The pcs strictly increase, starting above `pc`.
  predicate Climbing(runs: seq<State>, pc: u32) {
    runs != [] ==> pc < runs[0].pc && Climbing(runs[1..], runs[0].pc)
  }

  // How many runs a decoder can see: a repeated value encodes as the terminator.
  function Visible(runs: seq<State>, value: i64, pc: u32): (n: nat)
    ensures n <= |runs|
  {
    if runs == [] || (pc != 0 && runs[0].value == value) then 0
    else 1 + Visible(runs[1..], runs[0].value, runs[0].pc)
  }

  // One encoded record in front of anything decodes to its state.
  lemma RecordRoundTrip(st: State, value: i64, pc: u32, rest: seq<byte>)
    requires pc < st.pc
    ensures NextRecord(EncodeRecord(st, value, pc) + rest, value, pc)
         == if pc != 0 && st.value == value then None else Some((st, rest))
  {
    hide Advance, Decode, AsI64;
    var delta := AsI64(st.value - value);
    var u := UnZigZag(delta);
    var d := st.pc - pc;
    var buf := Encode(u) + Encode(d) + rest;
    assert buf == Encode(u) + (Encode(d) + rest);
    DecodeEncode(u, Encode(d) + rest);
    DecodeEncode(d, rest);
    ZigZagInverse(u, delta);
    assert buf[|Encode(u)|..] == Encode(d) + rest;
    assert (Encode(d) + rest)[|Encode(d)|..] == rest;
    AdvanceInverse(st, value, pc, u);
  }

  lemma AdvanceInverse(st: State, value: i64, pc: u32, u: u64)
    requires pc < st.pc && ZigZag(u) == AsI64(st.value - value)
    ensures Advance(value, pc, u, st.pc - pc) == st
    ensures AsI64(st.value - value) == 0 <==> st.value == value
  {
    WrappedDelta(value, st.value);
  }

  lemma {:induction false} StatesEncoded(runs: seq<State>, value: i64, pc: u32, suffix: seq<byte>)
    requires Climbing(runs, pc) && (runs != [] || pc != 0)
    ensures States(EncodeRuns(runs, value, pc) + [0] + suffix, value, pc) == runs[..Visible(runs, value, pc)]
  {
    hide NextRecord, EncodeRecord;
    var buf := EncodeRuns(runs, value, pc) + [0] + suffix;
    if runs == [] {
      assert buf == [0] + suffix;
      Terminator(value, pc, suffix);
    } else {
      var st := runs[0];
      var rest := EncodeRuns(runs[1..], st.value, st.pc) + [0] + suffix;
      assert buf == EncodeRecord(st, value, pc) + rest;
      RecordRoundTrip(st, value, pc, rest);
      if !(pc != 0 && st.value == value) {
        StatesEncoded(runs[1..], st.value, st.pc, suffix);
        assert runs[..Visible(runs, value, pc)] == [st] + runs[1..][..Visible(runs[1..], st.value, st.pc)];
      }
    }
  }

  lemma Terminator(value: i64, pc: u32, suffix: seq<byte>)
    requires pc != 0
    ensures NextRecord([0] + suffix, value, pc) == None
  {
    assert Encode(0) == [0];
    DecodeEncode(0, suffix);
  }

  // Round trip: the states of an encoded run list are the visible runs.
  lemma StreamRoundTrip(prefix: seq<byte>, runs: seq<State>, suffix: seq<byte>)
    requires runs != [] && Climbing(runs, 0)
    ensures Stream(prefix + EncodeRuns(runs, -1, 0) + [0] + suffix, |prefix|)
         == Take(runs, Min(Visible(runs, -1, 0), 1_000_000))
  {
    var table := prefix + EncodeRuns(runs, -1, 0) + [0] + suffix;
    assert table[|prefix|..] == EncodeRuns(runs, -1, 0) + [0] + suffix;
    StatesEncoded(runs, -1, 0, suffix);
  }

  predicate NoRepeat(runs: seq<State>) {
    forall k :: 0 < k < |runs| ==> runs[k].value != runs[k - 1].value
  }

  // Nothing is lost exactly when neighbouring values differ.
  lemma {:induction false} AllVisible(runs: seq<State>, value: i64, pc: u32)
    requires Climbing(runs, pc)
    ensures Visible(runs, value, pc) == |runs|
        <==> NoRepeat(runs) && (runs != [] && pc != 0 ==> runs[0].value != value)
  {
    if runs != [] {
      AllVisible(runs[1..], runs[0].value, runs[0].pc);
      NoRepeatTail(runs);
    }
  }

  lemma NoRepeatTail(runs: seq<State>)
    requires runs != []
    ensures NoRepeat(runs) <==> NoRepeat(runs[1..]) && (|runs| > 1 ==> runs[1].value != runs[0].value)
  {
    var tail := runs[1..];
    if NoRepeat(tail) && (tail != [] ==> tail[0].value != runs[0].value) {
      forall k | 0 < k < |runs| ensures runs[k].value != runs[k - 1].value {
        assert runs[k] == tail[k - 1];
        assert k > 1 ==> runs[k - 1] == tail[k - 2];
      }
    }
    if NoRepeat(runs) {
      forall k | 0 < k < |tail| ensures tail[k].value != tail[k - 1].value {
        assert tail[k] == runs[k + 1] && tail[k - 1] == runs[k];
      }
    }
  }

  predicate Covers(runs: seq<State>, k: nat, target: u32) {
    k < |runs| && target < runs[k].pc && (k > 0 ==> runs[k - 1].pc <= target)
  }

  lemma {:induction false} CoveringRun(runs: seq<State>, pc: u32, n: nat, target: u32, k: nat)
    requires Climbing(runs, pc) && n <= |runs| && Covers(runs, k, target)
    ensures FirstCovering(runs[..n], target) == if k < n then runs[k].value else -1
    decreases runs
  {
    if n > 0 {
      assert runs[..n][1..] == runs[1..][..n - 1];
      if k > 0 {
        if k > 1 {
          ClimbingOrder(runs, pc, 0, k - 1);
        }
        CoveringRun(runs[1..], runs[0].pc, n - 1, target, k - 1);
      }
    }
  }

  lemma {:induction false} ClimbingOrder(runs: seq<State>, pc: u32, i: nat, j: nat)
    requires Climbing(runs, pc) && i < j < |runs|
    ensures pc < runs[i].pc < runs[j].pc
    decreases runs
  {
    if i > 0 {
      ClimbingOrder(runs[1..], runs[0].pc, i - 1, j - 1);
    } else if j > 1 {
      ClimbingOrder(runs[1..], runs[0].pc, 0, j - 1);
    }
  }

  lemma {:induction false} PastTheEnd(runs: seq<State>, pc: u32, n: nat, target: u32)
    requires Climbing(runs, pc) && n <= |runs|
    requires runs != [] ==> runs[|runs| - 1].pc <= target
    ensures FirstCovering(runs[..n], target) == -1
    decreases runs
  {
    if n > 0 {
      assert runs[..n][1..] == runs[1..][..n - 1];
      if |runs| > 1 {
        ClimbingOrder(runs, pc, 0, |runs| - 1);
      }
      PastTheEnd(runs[1..], runs[0].pc, n - 1, target);
    }
  }

  // A lookup in an encoded run list returns the value of the covering run, -1 past the end.
  lemma ValueRoundTrip(prefix: seq<byte>, runs: seq<State>, suffix: seq<byte>, target: u32)
    requires runs != [] && Climbing(runs, 0)
    requires |runs| <= 1_000_000 && NoRepeat(runs)
    ensures var table := prefix + EncodeRuns(runs, -1, 0) + [0] + suffix;
      && (forall k: nat :: Covers(runs, k, target) ==> ValueAt(table, |prefix|, target) == runs[k].value)
      && (runs[|runs| - 1].pc <= target ==> ValueAt(table, |prefix|, target) == -1)
  {
    var table := prefix + EncodeRuns(runs, -1, 0) + [0] + suffix;
    StreamRoundTrip(prefix, runs, suffix);
    AllVisible(runs, -1, 0);
    forall k: nat | Covers(runs, k, target) ensures ValueAt(table, |prefix|, target) == runs[k].value {
      CoveringRun(runs, 0, |runs|, target, k);
    }
    if runs[|runs| - 1].pc <= target {
      PastTheEnd(runs, 0, |runs|, target);
    }
  }

  // Without those conditions: a covering run the walk cannot reach reads as -1, every other as itself.
  lemma ValueLost(prefix: seq<byte>, runs: seq<State>, suffix: seq<byte>, target: u32, k: nat)
    requires Climbing(runs, 0) && Covers(runs, k, target)
    ensures ValueAt(prefix + EncodeRuns(runs, -1, 0) + [0] + suffix, |prefix|, target)
         == if k < Visible(runs, -1, 0) && k < 1_000_000 then runs[k].value else -1
  {
    StreamRoundTrip(prefix, runs, suffix);
    CoveringRun(runs, 0, Min(Visible(runs, -1, 0), MAX_RECORDS), target, k);
  }

  // ----- the empty list -----

  // What the walk takes for the first pc and the rest of the stream behind an empty list's zero.
  function BehindZero(suffix: seq<byte>): Option<(u32, seq<byte>)> {
    var (d, n) :- Decode(suffix);
    Some((Wrap32(d), suffix[n..]))
  }

  // An empty run list is not self-terminating: its zero is read as the value delta of a first record, and
  // whatever varint follows as that record's pc delta.
  lemma EmptyListStates(suffix: seq<byte>)
    ensures BehindZero(suffix).None? ==> States([0] + suffix, -1, 0) == []
    ensures BehindZero(suffix).Some? ==>
      var pc, rest := BehindZero(suffix).value.0, BehindZero(suffix).value.1;
      States([0] + suffix, -1, 0) == [State(-1, pc)] + States(rest, -1, pc)
  {
    hide Decode, Advance;
    var buf := [0] + suffix;
    assert Encode(0) == [0];
    DecodeEncode(0, suffix);
    assert buf[1..] == suffix;
    if Decode(suffix).Some? {
      ValueStays(Decode(suffix).value.0);
    }
  }

  lemma ValueStays(d: u64)
    ensures Advance(-1, 0, 0, d) == State(-1, Wrap32(d))
  {
    ZigZagInverse(0, 0);
  }

  // Every state that reaches beyond `reach` and all earlier states has the value -1.
  predicate Silent(s: seq<State>, reach: u32) {
    s != [] ==> (s[0].pc > reach ==> s[0].value == -1) && Silent(s[1..], Max(reach, s[0].pc))
  }

  lemma {:induction false} SilentReads(s: seq<State>, reach: u32, t: u32)
    requires Silent(s, reach) && reach <= t
    ensures FirstCovering(s, t) == -1
    decreases s
  {
    if s != [] && s[0].pc <= t {
      SilentReads(s[1..], Max(reach, s[0].pc), t);
    }
  }

  // A list that is not silent has an offset to show it.
  lemma {:induction false} Heard(s: seq<State>, reach: u32) returns (t: u32)
    requires !Silent(s, reach)
    ensures reach <= t && FirstCovering(s, t) != -1
    decreases s
  {
    if s[0].pc > reach && s[0].value != -1 {
      t := reach;
    } else {
      t := Heard(s[1..], Max(reach, s[0].pc));
    }
  }

  // What an empty list reads as, whatever follows it: -1 at every offset exactly when the bytes behind its
  // zero hold no pc delta, or are silent beyond it.
  lemma EmptyListReads(prefix: seq<byte>, suffix: seq<byte>)
    ensures var table := prefix + EncodeRuns([], -1, 0) + [0] + suffix;
      (forall t: u32 :: ValueAt(table, |prefix|, t) == -1) <==> SilentBehind(suffix)
  {
    hide BehindZero, States, Silent, FirstCovering;
    var table := prefix + EncodeRuns([], -1, 0) + [0] + suffix;
    EmptyListStream(prefix, suffix);
    var s := Stream(table, |prefix|);
    SilentHead(s);
    if BehindZero(suffix).Some? {
      var pc, rest := BehindZero(suffix).value.0, BehindZero(suffix).value.1;
      assert s[0] == State(-1, pc) && s[1..] == Take(States(rest, -1, pc), MAX_RECORDS - 1);
    }
    if SilentBehind(suffix) {
      forall t: u32 ensures ValueAt(table, |prefix|, t) == -1 {
        SilentReads(s, 0, t);
      }
    } else {
      var t := Heard(s, 0);
      assert ValueAt(table, |prefix|, t) != -1;
    }
  }

  predicate SilentBehind(suffix: seq<byte>) {
    BehindZero(suffix).Some? ==>
      var pc, rest := BehindZero(suffix).value.0, BehindZero(suffix).value.1;
      Silent(Take(States(rest, -1, pc), MAX_RECORDS - 1), pc)
  }

  lemma EmptyListStream(prefix: seq<byte>, suffix: seq<byte>)
    ensures var s := Stream(prefix + EncodeRuns([], -1, 0) + [0] + suffix, |prefix|);
      if BehindZero(suffix).None? then s == []
      else
        var pc, rest := BehindZero(suffix).value.0, BehindZero(suffix).value.1;
        s == [State(-1, pc)] + Take(States(rest, -1, pc), MAX_RECORDS - 1)
  {
    hide BehindZero, States;
    var table := prefix + EncodeRuns([], -1, 0) + [0] + suffix;
    assert table[|prefix|..] == [0] + suffix;
    EmptyListStates(suffix);
  }

  lemma SilentHead(s: seq<State>)
    ensures s == [] ==> Silent(s, 0)
    ensures s != [] && s[0].value == -1 ==> (Silent(s, 0) <==> Silent(s[1..], s[0].pc))
  {
  }

  // A pc delta and a whole second record follow.
  predicate RunsOn(suffix: seq<byte>) {
    && BehindZero(suffix).Some?
    && BehindZero(suffix).value.0 != 0
    && NextRecord(BehindZero(suffix).value.1, -1, BehindZero(suffix).value.0).Some?
  }

  // Where the pcs climb, as an encoder writes them: an empty list reads as -1 everywhere exactly when no
  // whole record follows.
  lemma EmptyListExact(prefix: seq<byte>, suffix: seq<byte>)
    requires Climbing(Stream(prefix + EncodeRuns([], -1, 0) + [0] + suffix, |prefix|), 0)
    ensures var table := prefix + EncodeRuns([], -1, 0) + [0] + suffix;
      (forall t: u32 :: ValueAt(table, |prefix|, t) == -1) <==> !RunsOn(suffix)
  {
    hide BehindZero, States, Silent, ValueAt, NextRecord, Stream;
    EmptyListReads(prefix, suffix);
    EmptyListStream(prefix, suffix);
    if BehindZero(suffix).Some? {
      var pc, rest := BehindZero(suffix).value.0, BehindZero(suffix).value.1;
      var s := Take(States(rest, -1, pc), MAX_RECORDS - 1);
      assert ([State(-1, pc)] + s)[1..] == s;
      Unfold(rest, -1, pc, MAX_RECORDS - 1);
      SilentWhere(s, pc);
      ValueMoves(rest, pc);
    }
  }

  // Above the start, and not -1: one such state is heard.
  lemma SilentWhere(s: seq<State>, reach: u32)
    ensures s == [] ==> Silent(s, reach)
    ensures s != [] && s[0].pc > reach && s[0].value != -1 ==> !Silent(s, reach)
  {
  }

  // A record after the first changes the value.
  lemma ValueMoves(buf: seq<byte>, pc: u32)
    requires pc != 0
    ensures NextRecord(buf, -1, pc).Some? ==> NextRecord(buf, -1, pc).value.0.value != -1
  {
    hide Decode, ZigZag;
    if NextRecord(buf, -1, pc).Some? {
      ZigZagInverse(Decode(buf).value.0, 0);
    }
  }

  // For example: a one-byte pc delta and one encoded run behind the zero are read as records.
  lemma EmptyListRunsOn(st: State, suffix: seq<byte>)
    requires st.pc > 1 && st.value != -1
    ensures var table := EncodeRuns([], -1, 0) + [0] + (Encode(1) + EncodeRuns([st], -1, 1) + suffix);
      ValueAt(table, 0, 1) == st.value
  {
    hide NextRecord, EncodeRecord, States;
    var rest := EncodeRecord(st, -1, 1) + suffix;
    assert EncodeRuns([st][1..], st.value, st.pc) == [];
    assert EncodeRuns([st], -1, 1) == EncodeRecord(st, -1, 1);
    var table := EncodeRuns([], -1, 0) + [0] + (Encode(1) + EncodeRuns([st], -1, 1) + suffix);
    assert table[0..] == EncodeRecord(State(-1, 1), -1, 0) + rest by {
      ZeroRecord();
    }
    RecordRoundTrip(State(-1, 1), -1, 0, rest);
    RecordRoundTrip(st, -1, 1, suffix);
    Unfold(table[0..], -1, 0, MAX_RECORDS);
    Unfold(rest, -1, 1, MAX_RECORDS - 1);
    var s := Stream(table, 0);
    assert FirstCovering(s, 1) == FirstCovering(s[1..], 1);
  }

  lemma ZeroRecord()
    ensures EncodeRecord(State(-1, 1), -1, 0) == [0] + Encode(1)
  {
    WrappedDelta(-1, -1);
    assert AsI64(-1 - -1) == 0 && UnZigZag(0) == 0;
  }

  // ----- the three walkers agree -----

  // On every byte stream: a value found below the limit never exceeds the maximum up to the limit.
  lemma {:induction false} CoveringAtMostMax(s: seq<State>, target: u32, limit: u32, best: i64)
    requires target < limit
    ensures best <= MaxUntil(s, limit, best)
    ensures FirstCovering(s, target) <= MaxUntil(s, limit, best) || FirstCovering(s, target) == -1
  {
    if s != [] {
      CoveringAtMostMax(s[1..], target, limit, Max(best, s[0].value));
    }
  }

  lemma ValueAtMostMax(table: seq<byte>, start: nat, target: u32, limit: u32)
    requires target < limit
    ensures ValueAt(table, start, target) <= MaxValue(table, start, limit)
  {
    CoveringAtMostMax(Stream(table, start), target, limit, -1);
  }

  // ... and where the pcs climb the maximum is attained, so no smaller bound would do.
  lemma {:induction false} MaxAttained(s: seq<State>, pc: u32, limit: u32, best: i64) returns (t: u32)
    requires Climbing(s, pc) && pc < limit
    ensures MaxUntil(s, limit, best) == best
         || (pc <= t < limit && FirstCovering(s, t) == MaxUntil(s, limit, best))
    decreases s
  {
    t := pc;
    if s != [] && s[0].pc < limit {
      var b := Max(best, s[0].value);
      var t' := MaxAttained(s[1..], s[0].pc, limit, b);
      if MaxUntil(s[1..], limit, b) != b {
        t := t';
      }
    }
  }

  lemma MaxValueAttained(table: seq<byte>, start: nat, limit: u32) returns (t: u32)
    requires Climbing(Stream(table, start), 0) && limit > 0
    ensures MaxValue(table, start, limit) == -1
         || (t < limit && ValueAt(table, start, t) == MaxValue(table, start, limit))
  {
    t := MaxAttained(Stream(table, start), 0, limit, -1);
  }

  // A first value other than zero whose pc delta cannot be read.
  predicate PcMissing(table: seq<byte>, start: nat) {
    && start < |table|
    && Decode(table[start..]).Some?
    && var (uval, n) := Decode(table[start..]).value;
    && uval != 0
    && Decode(table[start..][n..]).None?
  }

  // The entry value against the walk from offset 0, on every table: the same when it reports one and the
  // first record is whole and advances the pc. It reports none for a first value of -1. On a table without a
  // first record it reports one exactly when only the pc delta is missing, and there the walk gives -1.
  lemma FirstAgrees(table: seq<byte>, start: nat)
    ensures var first, stream := FirstPcvalue(table, start), Stream(table, start);
      if stream == [] then
        && (first.Some? <==> PcMissing(table, start))
        && ValueAt(table, start, 0) == -1 && first != Some(-1)
      else
        && (first.None? <==> stream[0].value == -1)
        && (first.Some? && stream[0].pc != 0 ==> first.value == ValueAt(table, start, 0))
  {
    hide Decode, ZigZag;
    if start < |table| && Decode(table[start..]).Some? {
      var (uval, n) := Decode(table[start..]).value;
      ZigZagInverse(uval, 0);
    }
  }
}
