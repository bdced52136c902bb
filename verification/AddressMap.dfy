/** File offsets and runtime addresses: clamping the declared ranges to the file, and translating both ways. */
module AddressMap {
  import opened Wrappers
  import opened Bytes
  import opened GoBin

  // The file bytes a section header declares.
  predicate OnDisk(s: Section, off: nat) { s.fileOffset <= off < SatAdd64(s.fileOffset, s.fileSize) }

  predicate WithinFile(s: Section, len: nat) { s.fileOffset + s.fileSize <= len }

  // After loading, a section declares exactly those of its bytes the file has; nothing else changes.
  method ClampSections(sections: seq<Section>, len: u64) returns (out: seq<Section>)
    ensures |out| == |sections|
    ensures forall i :: 0 <= i < |out| ==>
      && WithinFile(out[i], len)
      && out[i] == sections[i].(fileOffset := out[i].fileOffset, fileSize := out[i].fileSize)
      && forall off: nat :: OnDisk(out[i], off) <==> OnDisk(sections[i], off) && off < len
  {
    out := [];
    for i := 0 to |sections|
      invariant |out| == i
      invariant forall k :: 0 <= k < i ==>
        && WithinFile(out[k], len)
        && out[k] == sections[k].(fileOffset := out[k].fileOffset, fileSize := out[k].fileSize)
        && forall off: nat :: OnDisk(out[k], off) <==> OnDisk(sections[k], off) && off < len
    {
      var s := sections[i];
      var start: u64 := Min(s.fileOffset, len);
      var size: u64 := Min(s.fileSize, len - start);
      out := out + [s.(fileOffset := start, fileSize := size)];
    }
  }

  // The runtime address of a file offset: the first section that has it on disk.
  function AddrForOffset(sections: seq<Section>, off: nat): (r: Option<u64>)
    ensures r.None? <==> forall s :: s in sections ==> !OnDisk(s, off)
  {
    if sections == [] then None
    else if OnDisk(sections[0], off) then Some(SatAdd64(sections[0].addr, off - sections[0].fileOffset))
    else AddrForOffset(sections[1..], off)
  }

  function FileOffsetForAddr(sections: seq<Section>, a: u64): Option<u64> {
    var s :- SectionForAddr(sections, a);
    s.FileOffsetOf(a)
  }

  lemma {:induction false} AddrIsIn(sections: seq<Section>, off: nat) returns (s: Section)
    requires AddrForOffset(sections, off).Some?
    ensures s in sections && OnDisk(s, off)
    ensures AddrForOffset(sections, off) == Some(SatAdd64(s.addr, off - s.fileOffset))
    decreases |sections|
  {
    if OnDisk(sections[0], off) {
      s := sections[0];
    } else {
      s := AddrIsIn(sections[1..], off);
    }
  }

  // No address belongs to two sections, and none of them runs up to the end of the address space.
  ghost predicate Apart(sections: seq<Section>) {
    && (forall s, t, a: u64 :: s in sections && t in sections && s.ContainsAddr(a) && t.ContainsAddr(a) ==> s == t)
    && (forall s :: s in sections ==> s.addr + Max(s.vmsize, s.fileSize) < U64 - 1)
  }

  lemma ReadOne(bin: GoBinary, s: Section, a: u64, off: u64)
    requires SectionForAddr(bin.sections, a) == Some(s) && s.FileOffsetOf(a) == Some(off)
    requires WithinFile(s, |bin.bytes|) && |bin.bytes| < U64 && OnDisk(s, off)
    ensures off < |bin.bytes| && ReadAtAddr(bin, a, 1) == Some([bin.bytes[off]])
  {
    hide SectionForAddr;
    assert off + 1 <= |bin.bytes| && bin.bytes[off..off + 1] == [bin.bytes[off]];
  }

  // Offset to address and back: on sections that do not overlap in memory the same byte is read.
  lemma OffsetRoundTrip(bin: GoBinary, off: u64)
    requires Apart(bin.sections) && AddrForOffset(bin.sections, off).Some?
    requires forall s :: s in bin.sections ==> WithinFile(s, |bin.bytes|)
    requires |bin.bytes| < U64
    ensures var a := AddrForOffset(bin.sections, off).value;
      && FileOffsetForAddr(bin.sections, a) == Some(off)
      && off < |bin.bytes|
      && ReadAtAddr(bin, a, 1) == Some([bin.bytes[off]])
  {
    hide AddrForOffset, SectionForAddr, ReadAtAddr;
    var s := AddrIsIn(bin.sections, off);
    var a := AddrForOffset(bin.sections, off).value;
    assert a == s.addr + (off - s.fileOffset) && s.ContainsAddr(a);
    assert SectionForAddr(bin.sections, a) == Some(s);
    ReadOne(bin, s, a, off);
  }

  // Address to offset and back, when moreover no file byte belongs to two sections.
  lemma AddressRoundTrip(bin: GoBinary, a: u64)
    requires FileOffsetForAddr(bin.sections, a).Some?
    requires forall s :: s in bin.sections ==> s.fileOffset + s.fileSize < U64 && s.addr + s.fileSize < U64
    requires forall s, t, off: nat :: s in bin.sections && t in bin.sections && OnDisk(s, off) && OnDisk(t, off) ==>
        s == t
    ensures AddrForOffset(bin.sections, FileOffsetForAddr(bin.sections, a).value) == Some(a)
  {
    var s := SectionForAddr(bin.sections, a).value;
    var off := FileOffsetForAddr(bin.sections, a).value;
    assert OnDisk(s, off);
    var t := AddrIsIn(bin.sections, off);
    assert t == s;
  }

  // Once clamped, a read succeeds exactly when it stays inside its section's file bytes.
  lemma ReadSucceeds(bin: GoBinary, a: u64, n: nat)
    requires |bin.bytes| < U64
    requires forall s :: s in bin.sections ==> WithinFile(s, |bin.bytes|)
    ensures ReadAtAddr(bin, a, n).Some? <==>
      var s := SectionForAddr(bin.sections, a);
      s.Some? && a - s.value.addr < s.value.fileSize && a - s.value.addr + n <= s.value.fileSize
  {
    var s := SectionForAddr(bin.sections, a);
    if s.Some? {
      assert WithinFile(s.value, |bin.bytes|);
    }
  }
}
