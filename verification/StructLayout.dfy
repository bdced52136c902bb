/** Emitting a C struct for a recovered Go struct, and where a C compiler then puts its members.
    Sizes and alignments are those of a 64-bit C implementation with 8-byte pointers and `long long`. */
module StructLayout {
  import opened Wrappers
  import opened Bytes
  import opened TypeGraph

  datatype CType = UChar | UShort | UInt | ULongLong | VoidPointer | ByteArray(n: nat) {
    function Size(): nat {
      match this
      case UChar => 1
      case UShort => 2
      case UInt => 4
      case ULongLong | VoidPointer => 8
      case ByteArray(n) => n
    }

    function Align(): (a: nat)
      ensures a in {1, 2, 4, 8}
    {
      if ByteArray? then 1 else Size()
    }
  }

  // Padding and fields carry the field's position in their name.
  datatype MemberName = Pad(field: nat) | Field(field: nat) | Tail

  datatype Member = Member(name: MemberName, ctype: CType)

  type TypeMap = map<u64, Type>

  function FieldSize(f: StructField, types: TypeMap): nat { if f.typ in types then types[f.typ].size else 8 }

  function CTypeForField(f: StructField, types: TypeMap): CType {
    if f.typ !in types then VoidPointer
    else
      var t := types[f.typ];
      if t.kind in {1, 3, 8} then UChar
      else if t.kind in {4, 9} then UShort
      else if t.kind in {5, 10, 13} then UInt
      else if t.kind in {2, 6, 7, 11, 12, 14} then ULongLong
      else if t.kind in {18, 19, 21, 22, 26} then VoidPointer
      else ByteArray(t.size)
  }

  // ----- C layout -----

  function RoundUp(x: nat, a: nat): (r: nat)
    requires a > 0
    ensures r % a == 0 && x <= r < x + a
  {
    var q := (x + a - 1) / a;
    RoundUpBounds(x, a);
    q * a
  }

  lemma RoundUpBounds(x: nat, a: nat)
    requires a > 0
    ensures var q := (x + a - 1) / a; (q * a) % a == 0 && x <= q * a < x + a
  {
    var q := (x + a - 1) / a;
    assert x + a - 1 == q * a + (x + a - 1) % a;
    ModUnique(q * a, a, q, 0);
  }

  // Members are placed in order, each at the next multiple of its alignment.
  function End(ms: seq<Member>): nat {
    if ms == [] then 0
    else
      var m := ms[|ms| - 1];
      RoundUp(End(ms[..|ms| - 1]), m.ctype.Align()) + m.ctype.Size()
  }

  function OffsetOf(ms: seq<Member>, name: MemberName): Option<nat> {
    if ms == [] then None
    else
      var init, m := ms[..|ms| - 1], ms[|ms| - 1];
      if m.name == name then Some(RoundUp(End(init), m.ctype.Align())) else OffsetOf(init, name)
  }

  function MaxAlign(ms: seq<Member>): (a: nat)
    ensures a in {1, 2, 4, 8}
  {
    if ms == [] then 1 else Max(MaxAlign(ms[..|ms| - 1]), ms[|ms| - 1].ctype.Align())
  }

  // sizeof: the end rounded up to the strictest alignment.
  function SizeOf(ms: seq<Member>): nat { RoundUp(End(ms), MaxAlign(ms)) }

  // ----- the members emitted -----

  // After the first n fields: the members, and the offset reached.
  function Emitted(fields: seq<StructField>, types: TypeMap, n: nat): (seq<Member>, nat)
    requires n <= |fields|
  {
    if n == 0 then ([], 0)
    else
      var (ms, next) := Emitted(fields, types, n - 1);
      var f, size := fields[n - 1], FieldSize(fields[n - 1], types);
      if size == 0 then (ms, next)
      else
        var pad := if f.offset > next then [Member(Pad(n - 1), ByteArray(f.offset - next))] else [];
        (ms + pad + [Member(Field(n - 1), CTypeForField(f, types))], Max(f.offset, next) + size)
  }

  function Declared(fields: seq<StructField>, types: TypeMap, size: nat): seq<Member> {
    var (ms, next) := Emitted(fields, types, |fields|);
    if next < size then ms + [Member(Tail, ByteArray(size - next))] else ms
  }

  ghost predicate AllZeroSize(fields: seq<StructField>, types: TypeMap, n: nat)
    requires n <= |fields|
  {
    forall i :: 0 <= i < n ==> FieldSize(fields[i], types) == 0
  }

  // The declaration of one struct; none for a struct with nothing in it.
  method StructCDecl(fields: seq<StructField>, size: nat, types: TypeMap) returns (decl: Option<seq<Member>>)
    ensures decl.None? <==> size == 0 && AllZeroSize(fields, types, |fields|)
    ensures decl.Some? ==> decl.value == Declared(fields, types, size)
  {
    hide FieldSize, CTypeForField;
    var ms: seq<Member> := [];
    var next := 0;
    var emitted := 0;
    for idx := 0 to |fields|
      invariant (ms, next) == Emitted(fields, types, idx)
      invariant emitted == 0 <==> AllZeroSize(fields, types, idx)
    {
      var f := fields[idx];
      var fsize := FieldSize(f, types);
      if fsize != 0 {
        if f.offset > next {
          ms := ms + [Member(Pad(idx), ByteArray(f.offset - next))];
          next := f.offset;
        } else {
          assert ms + [] == ms;
        }
        ms := ms + [Member(Field(idx), CTypeForField(f, types))];
        next := next + fsize;
        emitted := emitted + 1;
      }
    }
    if next < size {
      ms := ms + [Member(Tail, ByteArray(size - next))];
    }
    if emitted == 0 && size == 0 {
      return None;
    }
    return Some(ms);
  }

  // ----- what a C compiler makes of it -----

  // Every field's C type has the field's size: its type is recovered with the size of its kind.
  ghost predicate Sized(fields: seq<StructField>, types: TypeMap) {
    forall i :: 0 <= i < |fields| && FieldSize(fields[i], types) > 0 ==>
      CTypeForField(fields[i], types).Size() == FieldSize(fields[i], types)
  }

  // The size of a Go type of each kind on a 64-bit target; arrays and structs are of any size.
  function GoSize(kind: nat): Option<nat> {
    match kind
    case 1 => Some(1)    // bool
    case 2 => Some(8)    // int
    case 3 => Some(1)    // int8
    case 4 => Some(2)    // int16
    case 5 => Some(4)    // int32
    case 6 => Some(8)    // int64
    case 7 => Some(8)    // uint
    case 8 => Some(1)    // uint8
    case 9 => Some(2)    // uint16
    case 10 => Some(4)   // uint32
    case 11 => Some(8)   // uint64
    case 12 => Some(8)   // uintptr
    case 13 => Some(4)   // float32
    case 14 => Some(8)   // float64
    case 15 => Some(8)   // complex64
    case 16 => Some(16)  // complex128
    case 18 => Some(8)   // chan
    case 19 => Some(8)   // func
    case 20 => Some(16)  // interface
    case 21 => Some(8)   // map
    case 22 => Some(8)   // pointer
    case 23 => Some(24)  // slice
    case 24 => Some(16)  // string
    case 26 => Some(8)   // unsafe.Pointer
    case _ => None
  }

  // The linear scan takes a type of every kind Go has, and of no other.
  lemma PlausibleKinds(t: Type)
    ensures Plausible(t) <==>
      && t.size > 0 && (GoSize(t.kind).Some? || t.kind in {17, 25})
      && t.name != "" && !("type@0x" <= t.name)
  {
  }

  predicate GoSized(t: Type) { GoSize(t.kind).Some? ==> t.size == GoSize(t.kind).value }

  // Types of the sizes Go gives their kinds have C types of the same size, aligned to it for numbers and
  // pointers and to one byte for the rest.
  lemma SizedByKind(fields: seq<StructField>, types: TypeMap)
    requires forall f :: f in fields && f.typ in types ==> GoSized(types[f.typ])
    ensures Sized(fields, types)
    ensures forall f :: f in fields && f.typ in types ==>
      var kind, align := types[f.typ].kind, CTypeForField(f, types).Align();
      if 1 <= kind <= 14 || kind in {18, 19, 21, 22, 26} then Some(align) == GoSize(kind) else align == 1
  {
    forall i | 0 <= i < |fields| ensures CTypeForField(fields[i], types).Size() == FieldSize(fields[i], types) {
      assert fields[i] in fields;
    }
  }

  // The fields with a size: naturally aligned, in order, disjoint.
  ghost predicate Natural(fields: seq<StructField>, types: TypeMap, n: nat)
    requires n <= |fields|
  {
    && (forall i :: 0 <= i < n && FieldSize(fields[i], types) > 0 ==>
          fields[i].offset % CTypeForField(fields[i], types).Align() == 0)
    && (forall i, j :: 0 <= i < j < n && FieldSize(fields[i], types) > 0 && FieldSize(fields[j], types) > 0 ==>
          fields[i].offset + FieldSize(fields[i], types) <= fields[j].offset)
  }

  // The C compiler puts every field with a size where Go has it.
  ghost predicate Placed(fields: seq<StructField>, types: TypeMap, ms: seq<Member>, n: nat)
    requires n <= |fields|
  {
    forall i :: 0 <= i < n && FieldSize(fields[i], types) > 0 ==> OffsetOf(ms, Field(i)) == Some(fields[i].offset)
  }

  lemma OffsetSnoc(ms: seq<Member>, m: Member, name: MemberName)
    ensures End(ms + [m]) == RoundUp(End(ms), m.ctype.Align()) + m.ctype.Size()
    ensures OffsetOf(ms + [m], name)
         == if m.name == name then Some(RoundUp(End(ms), m.ctype.Align())) else OffsetOf(ms, name)
  {
    hide RoundUp;
    assert (ms + [m])[..|ms|] == ms;
  }

  lemma RoundUpFixed(x: nat, a: nat)
    requires a in {1, 2, 4, 8}
    ensures RoundUp(x, a) == x <==> x % a == 0
  {
    hide RoundUp;
    var r := RoundUp(x, a);
    if a == 1 {
      assert r % 1 == 0;
    } else if a == 2 {
      assert r % 2 == 0;
    } else if a == 4 {
      assert r % 4 == 0;
    } else {
      assert r % 8 == 0;
    }
  }

  // How far the emitted fields reach: no field ends later, and the last one ends there.
  lemma {:induction false} NextIsEnd(fields: seq<StructField>, types: TypeMap, n: nat)
    requires n <= |fields| && Natural(fields, types, n)
    ensures var next := Emitted(fields, types, n).1;
      && (forall i :: 0 <= i < n && FieldSize(fields[i], types) > 0 ==>
            fields[i].offset + FieldSize(fields[i], types) <= next)
      && (next != 0 ==> exists i ::
            0 <= i < n && FieldSize(fields[i], types) > 0 && fields[i].offset + FieldSize(fields[i], types) == next)
  {
    hide FieldSize, CTypeForField;
    if n > 0 {
      NextIsEnd(fields, types, n - 1);
    }
  }

  // What field idx adds after `next` bytes.
  function Added(next: nat, idx: nat, offset: nat, t: CType): seq<Member> {
    (if offset > next then [Member(Pad(idx), ByteArray(offset - next))] else []) + [Member(Field(idx), t)]
  }

  // The other fields stay where they are.
  lemma OthersKeep(ms: seq<Member>, next: nat, idx: nat, offset: nat, t: CType, i: nat)
    ensures i != idx ==> OffsetOf(ms + Added(next, idx, offset, t), Field(i)) == OffsetOf(ms, Field(i))
  {
    hide RoundUp, End, OffsetOf;
    if offset > next {
      var pad := Member(Pad(idx), ByteArray(offset - next));
      OffsetSnoc(ms, pad, Field(i));
      OffsetSnoc(ms + [pad], Member(Field(idx), t), Field(i));
      assert ms + Added(next, idx, offset, t) == ms + [pad] + [Member(Field(idx), t)];
    } else {
      OffsetSnoc(ms, Member(Field(idx), t), Field(i));
      assert ms + Added(next, idx, offset, t) == ms + [Member(Field(idx), t)];
    }
  }

  // The field lands at the next multiple of its alignment at or after both its offset and the end so far.
  lemma FieldLands(ms: seq<Member>, idx: nat, offset: nat, t: CType)
    ensures var all := ms + Added(End(ms), idx, offset, t);
      var at := RoundUp(Max(offset, End(ms)), t.Align());
      End(all) == at + t.Size() && OffsetOf(all, Field(idx)) == Some(at)
  {
    hide RoundUp, End, OffsetOf;
    var next := End(ms);
    if offset > next {
      var pad := Member(Pad(idx), ByteArray(offset - next));
      OffsetSnoc(ms, pad, Field(idx));
      RoundUpFixed(next, 1);
      OffsetSnoc(ms + [pad], Member(Field(idx), t), Field(idx));
      assert ms + Added(next, idx, offset, t) == ms + [pad] + [Member(Field(idx), t)];
    } else {
      OffsetSnoc(ms, Member(Field(idx), t), Field(idx));
      assert ms + Added(next, idx, offset, t) == ms + [Member(Field(idx), t)];
    }
  }

  lemma NaturalStep(fields: seq<StructField>, types: TypeMap, n: nat)
    requires n < |fields| && Natural(fields, types, n) && FieldSize(fields[n], types) > 0
    ensures var next := Emitted(fields, types, n).1;
      var offset, t := fields[n].offset, CTypeForField(fields[n], types);
      Natural(fields, types, n + 1) <==> next <= offset && offset % t.Align() == 0
  {
    hide FieldSize, CTypeForField, Emitted;
    NextIsEnd(fields, types, n);
  }

  lemma LandsAtOffset(offset: nat, next: nat, t: CType)
    ensures RoundUp(Max(offset, next), t.Align()) == offset <==> next <= offset && offset % t.Align() == 0
  {
    hide RoundUp;
    RoundUpFixed(offset, t.Align());
  }

  lemma EmittedStep(fields: seq<StructField>, types: TypeMap, n: nat)
    requires n < |fields|
    ensures var (ms, next) := Emitted(fields, types, n);
      var f, size := fields[n], FieldSize(fields[n], types);
      Emitted(fields, types, n + 1) == if size == 0 then (ms, next)
        else (ms + Added(next, n, f.offset, CTypeForField(f, types)), Max(f.offset, next) + size)
  {
    hide FieldSize, CTypeForField;
    var (ms, next) := Emitted(fields, types, n);
    var f := fields[n];
    var pad := if f.offset > next then [Member(Pad(n), ByteArray(f.offset - next))] else [];
    var m := Member(Field(n), CTypeForField(f, types));
    assert ms + pad + [m] == ms + (pad + [m]);
  }

  // The members of the first n fields: all placed as in Go exactly when those fields are laid out
  // naturally; then the C layout has reached the same offset.
  lemma {:induction false} PlacedIffNatural(fields: seq<StructField>, types: TypeMap, n: nat)
    requires Sized(fields, types) && n <= |fields|
    ensures var (ms, next) := Emitted(fields, types, n);
      && (Placed(fields, types, ms, n) <==> Natural(fields, types, n))
      && (Natural(fields, types, n) ==> End(ms) == next)
  {
    hide FieldSize, CTypeForField, RoundUp, Natural, Emitted, End, OffsetOf;
    if n == 0 {
      NothingEmitted(fields, types);
    } else {
      var k := n - 1;
      PlacedIffNatural(fields, types, k);
      EmittedStep(fields, types, k);
      var (ms, next) := Emitted(fields, types, k);
      if FieldSize(fields[k], types) == 0 {
        NaturalSkips(fields, types, k);
      } else {
        var offset, t := fields[k].offset, CTypeForField(fields[k], types);
        forall i: nat | i < k
          ensures OffsetOf(ms + Added(next, k, offset, t), Field(i)) == OffsetOf(ms, Field(i))
        {
          OthersKeep(ms, next, k, offset, t, i);
        }
        if Natural(fields, types, k) {
          FieldLands(ms, k, offset, t);
          LandsAtOffset(offset, next, t);
          NaturalStep(fields, types, k);
        } else {
          NaturalPrefix(fields, types, k);
        }
      }
    }
  }

  lemma NothingEmitted(fields: seq<StructField>, types: TypeMap)
    ensures Emitted(fields, types, 0) == ([], 0) && End([]) == 0 && Natural(fields, types, 0)
  {
  }

  lemma NaturalSkips(fields: seq<StructField>, types: TypeMap, k: nat)
    requires k < |fields| && FieldSize(fields[k], types) == 0
    ensures Natural(fields, types, k + 1) <==> Natural(fields, types, k)
  {
    hide FieldSize, CTypeForField;
  }

  lemma NaturalPrefix(fields: seq<StructField>, types: TypeMap, k: nat)
    requires k < |fields| && !Natural(fields, types, k)
    ensures !Natural(fields, types, k + 1)
  {
    hide FieldSize, CTypeForField;
  }

  // The declared struct keeps Go's layout: every field with a size is where Go has it exactly when the
  // fields are laid out naturally; and then the struct has Go's size exactly when the fields end within
  // it and it is a multiple of its strictest alignment.
  lemma LayoutKept(fields: seq<StructField>, types: TypeMap, size: nat)
    requires Sized(fields, types)
    ensures var ms := Declared(fields, types, size);
      && (Placed(fields, types, ms, |fields|) <==> Natural(fields, types, |fields|))
      && (Natural(fields, types, |fields|) ==>
            (SizeOf(ms) == size <==> FieldsWithin(fields, types, size) && size % MaxAlign(ms) == 0))
  {
    hide FieldSize, CTypeForField, RoundUp, Natural, Emitted, End, OffsetOf, FieldsWithin;
    var n := |fields|;
    PlacedIffNatural(fields, types, n);
    var (body, next) := Emitted(fields, types, n);
    var ms := Declared(fields, types, size);
    if next < size {
      var tail := Member(Tail, ByteArray(size - next));
      OffsetSnoc(body, tail, Tail);
      forall i: nat | i < n ensures OffsetOf(ms, Field(i)) == OffsetOf(body, Field(i)) {
        OffsetSnoc(body, tail, Field(i));
      }
    }
    if Natural(fields, types, n) {
      if next < size {
        RoundUpFixed(next, 1);
      }
      assert End(ms) == Max(next, size);
      RoundUpFixed(End(ms), MaxAlign(ms));
      WithinIsNext(fields, types, size);
    }
  }

  ghost predicate FieldsWithin(fields: seq<StructField>, types: TypeMap, size: nat) {
    forall i :: 0 <= i < |fields| && FieldSize(fields[i], types) > 0 ==>
      fields[i].offset + FieldSize(fields[i], types) <= size
  }

  lemma WithinIsNext(fields: seq<StructField>, types: TypeMap, size: nat)
    requires Natural(fields, types, |fields|)
    ensures FieldsWithin(fields, types, size) <==> Emitted(fields, types, |fields|).1 <= size
  {
    hide FieldSize, CTypeForField, Natural, Emitted;
    NextIsEnd(fields, types, |fields|);
  }

  // A struct whose size is no multiple of its strictest alignment always takes more than the Go size.
  lemma OddSizeGrows(fields: seq<StructField>, types: TypeMap, size: nat)
    requires Sized(fields, types) && Natural(fields, types, |fields|) && FieldsWithin(fields, types, size)
    ensures var ms := Declared(fields, types, size);
      size % MaxAlign(ms) != 0 ==> size < SizeOf(ms) < size + MaxAlign(ms)
  {
    hide FieldSize, CTypeForField, RoundUp, Natural, Emitted, End, OffsetOf, FieldsWithin;
    var n := |fields|;
    PlacedIffNatural(fields, types, n);
    WithinIsNext(fields, types, size);
    var (body, next) := Emitted(fields, types, n);
    var ms := Declared(fields, types, size);
    if next < size {
      OffsetSnoc(body, Member(Tail, ByteArray(size - next)), Tail);
      RoundUpFixed(next, 1);
    }
    assert End(ms) == size;
    RoundUpFixed(size, MaxAlign(ms));
  }

  // For example, one 32-bit field in a struct of six bytes takes eight.
  lemma SixBytesTakeEight()
    ensures var u32Type := Type(0x1000, "uint32", 4, 10, NoData);
      var fields, types := [StructField("f", 0x1000, 0)], map[0x1000 := u32Type];
      && Sized(fields, types) && Natural(fields, types, 1) && FieldsWithin(fields, types, 6)
      && SizeOf(Declared(fields, types, 6)) == 8
  {
    var u32Type := Type(0x1000, "uint32", 4, 10, NoData);
    var f := StructField("f", 0x1000, 0);
    var fields, types: TypeMap := [f], map[0x1000 := u32Type];
    assert CTypeForField(f, types) == UInt;
    EmittedStep(fields, types, 0);
    var ms := Declared(fields, types, 6);
    assert ms == [Member(Field(0), UInt)] + [Member(Tail, ByteArray(2))];
    OffsetSnoc([Member(Field(0), UInt)], Member(Tail, ByteArray(2)), Tail);
    OffsetSnoc([], Member(Field(0), UInt), Tail);
    assert ms[..1] == [Member(Field(0), UInt)] && ms[..1][..0] == [];
    assert MaxAlign(ms) == 4;
  }
}
