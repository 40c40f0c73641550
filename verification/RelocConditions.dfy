/** When relocation entries are right: conditions on the type alone, the inputs on which they go wrong,
    and the exact condition for flat initialisers. */
module RelocConditions {
  import opened Wrappers
  import opened Bytes
  import opened TypeLayout
  import opened ConstantData
  import opened ConstantRelocs

  /** No unpacked struct of the type lands on a misaligned offset when the type is placed at `at`. */
  predicate WellPlaced(ty: IrType, at: nat)
    decreases ty
  {
    match ty
    case Struct(fields, packed) =>
      && (packed || at % Align(ty) == 0)
      && forall i :: 0 <= i < |fields| ==> WellPlaced(fields[i], at + FieldOffset(fields, packed, i))
    case Array(elem, count) => forall i: nat :: i < count ==> WellPlaced(elem, at + SlotStart(ty, i))
    case _ => true
  }

  /** Every element given fills its slot. */
  predicate NoElision(c: Constant, ty: IrType)
    decreases c
  {
    match c
    case Fields(fields) =>
      ty.Struct? && |fields| <= |ty.fields| && forall i :: 0 <= i < |fields| ==> NoElision(fields[i], ty.fields[i])
    case Elements(elements) =>
      ty.Array? && forall i :: 0 <= i < |elements|
                    ==> FillsType(elements[i], ty.elem) && NoElision(elements[i], ty.elem)
    case _ => true
  }

  predicate NoPacked(ty: IrType) {
    match ty
    case Struct(fields, packed) => !packed && forall i :: 0 <= i < |fields| ==> NoPacked(fields[i])
    case Array(elem, _) => NoPacked(elem)
    case _ => true
  }

  lemma {:induction false} WellPlacedStruct(ty: IrType, at: nat, i: nat)
    requires ty.Struct? && WellPlaced(ty, at)
    ensures AlignedFor(Some(ty), i, at)
  {
    if !ty.packed {
      forall j | 0 <= j <= i && j < |ty.fields|
        ensures at % Align(ty.fields[j]) == 0
      {
        MaxAlignCovers(ty.fields, |ty.fields|, j);
        AlignDivides(Align(ty.fields[j]), Align(ty), at);
      }
    }
  }

  /** For a constant that fills its type without elision, a well placed type is all it takes. */
  lemma {:induction false} WellPlacedMirrors(c: Constant, ty: IrType, at: nat)
    requires FillsType(c, ty) && NoElision(c, ty) && WellPlaced(ty, at)
    ensures Mirrors(c, at, Some(ty))
    decreases c, 1
  {
    hide FillsType, NoElision, WellPlaced, AlignedFor, FullWidth, FieldStart, ElementStart, HasRef, FieldType,
      ElementType;
    match c
    case Fields(fields) =>
      forall i | 0 <= i < |fields| && HasRef(fields[i])
        ensures AlignedFor(Some(ty), i, at)
        ensures Mirrors(fields[i], at + FieldStart(fields, i, Some(ty)), FieldType(Some(ty), i))
      {
        FieldMirrors(fields, ty, at, i);
      }
    case Elements(elements) =>
      forall i | 0 <= i < |elements| && HasRef(elements[i])
        ensures FullWidth(elements, i, Some(ty))
                && Mirrors(elements[i], at + ElementStart(elements, i, Some(ty)), ElementType(Some(ty)))
      {
        ElementMirrors(elements, ty, at, i);
      }
    case _ =>
  }

  lemma {:induction false} FieldMirrors(fields: seq<Constant>, ty: IrType, at: nat, i: nat)
    requires FillsType(Fields(fields), ty) && NoElision(Fields(fields), ty) && WellPlaced(ty, at) && i < |fields|
    ensures AlignedFor(Some(ty), i, at)
    ensures Mirrors(fields[i], at + FieldStart(fields, i, Some(ty)), FieldType(Some(ty), i))
    decreases fields, 0
  {
    hide FillsType, NoElision, WellPlaced, Mirrors, AlignedFor, FieldStart, FieldOffset;
    FieldFills(fields, ty, i);
    WellPlacedStruct(ty, at, i);
    FieldWellPlaced(ty, at, i);
    WellPlacedMirrors(fields[i], ty.fields[i], at + FieldOffset(ty.fields, ty.packed, i));
    FieldStartIs(fields, i, ty);
  }

  lemma {:induction false} ElementMirrors(elements: seq<Constant>, ty: IrType, at: nat, i: nat)
    requires FillsType(Elements(elements), ty) && NoElision(Elements(elements), ty) && WellPlaced(ty, at)
    requires i < |elements|
    ensures FullWidth(elements, i, Some(ty))
    ensures Mirrors(elements[i], at + ElementStart(elements, i, Some(ty)), ElementType(Some(ty)))
    decreases elements, 0
  {
    hide FillsType, NoElision, WellPlaced, Mirrors, FullWidth, SlotStart;
    ElementsAreFull(elements, i, ty);
    ElementsAreTyped(elements, ty);
    ElementsReach(elements, i, ty, PLACEHOLDER);
    ElementWellPlaced(elements, ty, at, i);
    WellPlacedMirrors(elements[i], ty.elem, at + SlotStart(ty, i));
  }

  lemma {:induction false} ElementWellPlaced(elements: seq<Constant>, ty: IrType, at: nat, i: nat)
    requires FillsType(Elements(elements), ty) && NoElision(Elements(elements), ty) && WellPlaced(ty, at)
    requires i < |elements|
    ensures ty.Array? && WellPlaced(ty.elem, at + SlotStart(ty, i))
    ensures FillsType(elements[i], ty.elem) && NoElision(elements[i], ty.elem)
  {
    hide SlotStart;
  }

  lemma {:induction false} FieldWellPlaced(ty: IrType, at: nat, i: nat)
    requires ty.Struct? && WellPlaced(ty, at) && i < |ty.fields|
    ensures WellPlaced(ty.fields[i], at + FieldOffset(ty.fields, ty.packed, i))
  {
    hide FieldOffset, Align;
  }

  lemma {:induction false} FieldFills(fields: seq<Constant>, ty: IrType, i: nat)
    requires FillsType(Fields(fields), ty) && NoElision(Fields(fields), ty) && i < |fields|
    ensures ty.Struct? && i < |ty.fields| && FillsType(fields[i], ty.fields[i]) && NoElision(fields[i], ty.fields[i])
  {
  }

  lemma {:induction false} FieldStartIs(fields: seq<Constant>, i: nat, ty: IrType)
    requires FillsType(Fields(fields), ty) && i < |fields|
    ensures ty.Struct? && i < |ty.fields| && FieldStart(fields, i, Some(ty)) == FieldOffset(ty.fields, ty.packed, i)
  {
    FieldsReach(fields, i, ty, PLACEHOLDER);
    FieldsAreTyped(fields, ty);
    hide FillsType, EmitFields, FieldsEnd;
  }

  lemma {:induction false} ElementsAreFull(elements: seq<Constant>, n: nat, ty: IrType)
    requires NoElision(Elements(elements), ty) && n <= |elements|
    ensures FullWidth(elements, n, Some(ty))
  {
    forall j | 0 <= j < n
      ensures |ConstantBytes(elements[j], ElementType(Some(ty)))| >= SizeOf(ElementType(Some(ty)))
    {
      SizeIsTypeSize(elements[j], ty.elem, PLACEHOLDER);
    }
  }

  /** Types without packed structs are well placed wherever they are aligned. */
  lemma {:induction false} NaturallyPlaced(ty: IrType, at: nat)
    requires NoPacked(ty) && at % Align(ty) == 0
    ensures WellPlaced(ty, at)
    decreases ty, 1
  {
    hide Align, NoPacked, FieldOffset, SlotStart;
    match ty
    case Struct(fields, packed) =>
      forall i | 0 <= i < |fields|
        ensures WellPlaced(fields[i], at + FieldOffset(fields, packed, i))
      {
        FieldNaturallyPlaced(ty, at, i);
      }
    case Array(elem, count) =>
      forall i: nat | i < count
        ensures WellPlaced(elem, at + SlotStart(ty, i))
      {
        SlotNaturallyPlaced(ty, at, i);
      }
    case _ =>
  }

  lemma {:induction false} FieldNaturallyPlaced(ty: IrType, at: nat, i: nat)
    requires ty.Struct? && NoPacked(ty) && at % Align(ty) == 0 && i < |ty.fields|
    ensures WellPlaced(ty.fields[i], at + FieldOffset(ty.fields, ty.packed, i))
    decreases ty, 0
  {
    hide *;
    FieldNatural(ty, at, i);
    NaturallyPlaced(ty.fields[i], at + FieldOffset(ty.fields, ty.packed, i));
  }

  lemma {:induction false} SlotNaturallyPlaced(ty: IrType, at: nat, i: nat)
    requires ty.Array? && NoPacked(ty) && at % Align(ty) == 0
    ensures WellPlaced(ty.elem, at + SlotStart(ty, i))
    decreases ty, 0
  {
    hide *;
    SlotNatural(ty, at, i);
    NaturallyPlaced(ty.elem, at + SlotStart(ty, i));
  }

  lemma {:induction false} FieldNatural(ty: IrType, at: nat, i: nat)
    requires ty.Struct? && NoPacked(ty) && at % Align(ty) == 0 && i < |ty.fields|
    ensures NoPacked(ty.fields[i]) && (at + FieldOffset(ty.fields, ty.packed, i)) % Align(ty.fields[i]) == 0
  {
    MaxAlignCovers(ty.fields, |ty.fields|, i);
    AlignDivides(Align(ty.fields[i]), Align(ty), at);
    SumAligned(at, FieldOffset(ty.fields, ty.packed, i), Align(ty.fields[i]));
  }

  lemma {:induction false} SlotNatural(ty: IrType, at: nat, i: nat)
    requires ty.Array? && NoPacked(ty) && at % Align(ty) == 0
    ensures NoPacked(ty.elem) && (at + SlotStart(ty, i)) % Align(ty.elem) == 0
  {
    SizeIsAligned(ty.elem);
    ProductAligned(Size(ty.elem), i, Align(ty.elem));
    SumAligned(at, SlotStart(ty, i), Align(ty.elem));
  }

  /** Data of a type without packed structs, placed at its alignment and written without elision, links
      as if every reference had been known from the start. */
  lemma {:induction false} NaturalDataLinks(c: Constant, ty: IrType, pre: seq<byte>, post: seq<byte>, resolve: Resolver)
    requires FillsType(c, ty) && NoElision(c, ty) && NoPacked(ty) && |pre| % Align(ty) == 0
    ensures Linked(pre + ConstantBytes(c, Some(ty)) + post, Relocs(c, |pre|, Some(ty)), resolve)
         == pre + Emit(c, Some(ty), resolve) + post
  {
    NaturallyPlaced(ty, |pre|);
    WellPlacedMirrors(c, ty, |pre|);
    hide Linked, Relocs, Emit, Mirrors;
    LinkingResolves(c, Some(ty), pre, post, resolve);
  }

  // ---- where it goes wrong ----

  lemma {:induction false} OneElement(at: nat, ty: Option<IrType>)
    ensures Relocs(Elements([GlobalRef("g")]), at, ty) == [Reloc(at, "g", 0)]
    ensures Places(Elements([GlobalRef("g")]), at, ty) == [Reloc(at, "g", 0)]
  {
    var part := [GlobalRef("g")];
    NothingCollectedYet(part, at, ty);
    ElementStep(part, 1, at, ty);
    assert EmitElements(part, 0, ty, PLACEHOLDER) == [];
    hide ElementRelocs, ElementPlaces;
    assert ElementRelocs(part, 1, at, ty).1 == [] + [Reloc(at, "g", 0)];
    assert ElementPlaces(part, 1, at, ty) == [] + [Reloc(at, "g", 0)];
  }

  lemma {:induction false} ElidedWidth(parts: seq<Constant>)
    requires |parts| == 2 && parts[0] == Null
    ensures var ty := Some(Array(Array(Ptr, 2), 2));
      ElementStart(parts, 0, ty) == 0 && ElementStart(parts, 1, ty) == 16 && |ConstantBytes(Null, ElementType(ty))| == 8
  {
    var ty := Some(Array(Array(Ptr, 2), 2));
    assert EmitElements(parts, 0, ty, PLACEHOLDER) == [];
    assert Emit(Null, Some(Array(Ptr, 2)), PLACEHOLDER) == Zeros(8);
  }

  lemma {:induction false} ElidedFills()
    ensures FillsType(Elements([Null, Elements([GlobalRef("g")])]), Array(Array(Ptr, 2), 2))
  {
    assert FillsType(Elements([GlobalRef("g")]), Array(Ptr, 2)) && Elided(Null, Array(Ptr, 2));
  }

  lemma {:induction false} ScalarsHaveNone(c: Constant, at: nat, ty: Option<IrType>)
    requires c.Null? || c.Integer?
    ensures Relocs(c, at, ty) == [] && Places(c, at, ty) == []
  {
  }

  /** An elided element is padded in the data but not in the collector's count. */
  lemma {:induction false} ElisionMisplacesRelocs()
    ensures var ty := Array(Array(Ptr, 2), 2); var c := Elements([Null, Elements([GlobalRef("g")])]);
      FillsType(c, ty) && Places(c, 0, Some(ty)) == [Reloc(16, "g", 0)] && Relocs(c, 0, Some(ty)) == [Reloc(8, "g", 0)]
  {
    var inner, pair := Elements([GlobalRef("g")]), Array(Ptr, 2);
    var parts, ty := [Null, inner], Some(Array(pair, 2));
    ElidedFills();
    ElidedWidth(parts);
    NothingCollectedYet(parts, 0, ty);
    ElementStep(parts, 1, 0, ty);
    ElementStep(parts, 2, 0, ty);
    OneElement(8, Some(pair));
    OneElement(16, Some(pair));
    ScalarsHaveNone(Null, 0, Some(pair));
    hide FillsType, ElementStart, ConstantBytes, ElementPlaces;
    assert ElementRelocs(parts, 1, 0, ty).0 == 8;
  }

  lemma {:induction false} OneField(at: nat)
    ensures var ty := Some(Struct([Ptr], false));
      && Relocs(Fields([GlobalRef("g")]), at, ty) == [Reloc(AlignUp(at, 8), "g", 0)]
      && Places(Fields([GlobalRef("g")]), at, ty) == [Reloc(at, "g", 0)]
  {
    var part, ty := [GlobalRef("g")], Some(Struct([Ptr], false));
    NothingCollectedYet(part, at, ty);
    FieldStep(part, 1, at, ty);
    assert EmitFields(part, 0, ty, PLACEHOLDER) == [];
    assert Gap(ty, 0, at) == AlignUp(at, 8) - at && Gap(ty, 0, 0) == 0;
    hide FieldRelocs, FieldPlaces, Gap, EmitFields;
    assert FieldRelocs(part, 1, at, ty).1 == [] + [Reloc(AlignUp(at, 8), "g", 0)];
    assert FieldPlaces(part, 1, at, ty) == [] + [Reloc(at, "g", 0)];
  }

  lemma {:induction false} PackedSizes()
    ensures var inner := Struct([Ptr], false);
      Size(inner) == 8 && FieldsEnd([I8, inner], true, 1) == 1 && Size(Struct([I8, inner], true)) == 9
  {
    var inner := Struct([Ptr], false);
    assert FieldsEnd([Ptr], false, 0) == 0 && MaxAlign([Ptr], 0) == 1;
    assert FieldsEnd([Ptr], false, 1) == 8 && MaxAlign([Ptr], 1) == 8;
    assert Size(inner) == AlignUp(FieldsEnd([Ptr], false, 1), MaxAlign([Ptr], 1)) == 8;
    assert FieldsEnd([I8, inner], true, 0) == 0;
    assert FieldsEnd([I8, inner], true, 1) == 1;
    assert FieldsEnd([I8, inner], true, 2) == 1 + Size(inner);
  }

  lemma {:induction false} PackedFills(zero: Numeral)
    ensures var inner := Struct([Ptr], false); var ty := Struct([I8, inner], true);
      var c := Fields([Integer(zero), Fields([GlobalRef("g")])]); FillsType(c, ty) && NoElision(c, ty)
  {
    var inner := Struct([Ptr], false);
    assert FillsType(Fields([GlobalRef("g")]), inner) && NoElision(Fields([GlobalRef("g")]), inner);
  }

  lemma {:induction false} PackedStarts(zero: Numeral, parts: seq<Constant>)
    requires parts == [Integer(zero), Fields([GlobalRef("g")])]
    ensures var ty := Some(Struct([I8, Struct([Ptr], false)], true));
      && FieldStart(parts, 0, ty) == 0 && FieldStart(parts, 1, ty) == 1
      && |ConstantBytes(Integer(zero), FieldType(ty, 0))| == 1
      && |ConstantBytes(Fields(parts), ty)| == 9
  {
    var ty := Some(Struct([I8, Struct([Ptr], false)], true));
    PackedFills(zero);
    PackedSizes();
    SizeIsTypeSize(Fields(parts), ty.value, PLACEHOLDER);
    FieldsReach(parts, 0, ty.value, PLACEHOLDER);
    FieldsReach(parts, 1, ty.value, PLACEHOLDER);
    hide FillsType, NoElision, Size, FieldsEnd, EmitFields;
    assert IntegerBytes(zero, Some(I8)) == LittleEndian(zero.whole, 1);
  }

  /** A struct inside a packed one is laid out relative to its start, but collected as if offsets were
      absolute: here the entry even points past the data. */
  lemma {:induction false} PackingMisplacesRelocs(zero: Numeral)
    ensures var inner := Struct([Ptr], false); var ty := Struct([I8, inner], true);
      var c := Fields([Integer(zero), Fields([GlobalRef("g")])]);
      FillsType(c, ty) && NoElision(c, ty) && |ConstantBytes(c, Some(ty))| == 9
      && Places(c, 0, Some(ty)) == [Reloc(1, "g", 0)] && Relocs(c, 0, Some(ty)) == [Reloc(8, "g", 0)]
  {
    var inner := Struct([Ptr], false);
    var parts := [Integer(zero), Fields([GlobalRef("g")])];
    var ty := Some(Struct([I8, inner], true));
    PackedFills(zero);
    PackedStarts(zero, parts);
    NothingCollectedYet(parts, 0, ty);
    FieldStep(parts, 1, 0, ty);
    FieldStep(parts, 2, 0, ty);
    OneField(1);
    ScalarsHaveNone(Integer(zero), 0, Some(I8));
    hide FillsType, NoElision, FieldStart, ConstantBytes, FieldPlaces;
    assert FieldRelocs(parts, 1, 0, ty).0 == 1;
  }

  // ---- and where a wrong offset is put right again ----

  const REALIGNED := Struct([Array(I128, 0), Ptr], false)

  lemma {:induction false} RealignedSizes()
    ensures Size(REALIGNED) == 16 && Align(Array(I128, 0)) == 16 && Size(Array(I128, 0)) == 0
  {
    var fields := [Array(I128, 0), Ptr];
    assert MaxAlign(fields, 0) == 1 && MaxAlign(fields, 1) == 16 && MaxAlign(fields, 2) == 16;
    assert Size(Array(I128, 0)) == 0;
    assert FieldsEnd(fields, false, 0) == 0;
    assert FieldsEnd(fields, false, 1) == 0;
    assert FieldsEnd(fields, false, 2) == 8;
  }

  lemma {:induction false} RealignedStarts(part: seq<Constant>, at: nat)
    requires part == [Elements([]), GlobalRef("g")] && (at == 8 || at == 16)
    ensures var ty := Some(REALIGNED);
      && FieldStart(part, 0, ty) == 0 && FieldStart(part, 1, ty) == 0
      && Gap(ty, 0, at) == 16 - at && Gap(ty, 1, 16) == 0
  {
    var ty := Some(REALIGNED);
    RealignedSizes();
    EmptyElements(at);
    assert EmitFields(part, 0, ty, PLACEHOLDER) == [];
    assert Gap(ty, 0, 0) == 0 && Gap(ty, 1, 0) == 0;
    assert EmitFields(part, 1, ty, PLACEHOLDER) == [] + Zeros(0) + ConstantBytes(Elements([]), Some(Array(I128, 0)));
  }

  /** The struct's first member takes no space, but aligns the collector's offset. */
  lemma {:induction false} RealignedElement(at: nat)
    requires at == 8 || at == 16
    ensures var c, ty := Fields([Elements([]), GlobalRef("g")]), Some(REALIGNED);
      && Relocs(c, at, ty) == [Reloc(16, "g", 0)] && Places(c, at, ty) == [Reloc(at, "g", 0)]
  {
    hide *;
    var part, ty := [Elements([]), GlobalRef("g")], Some(REALIGNED);
    RealignedStarts(part, at);
    NothingCollectedYet(part, at, ty);
    EmptyElements(at);
    RealignedTypes();
    FieldStep(part, 1, at, ty);
    FieldStep(part, 2, at, ty);
    FirstOffset(part, at, ty);
    OneReference(at);
    OneReference(16);
    WholeStruct(part, at, ty);
    assert FieldRelocs(part, 1, at, ty).1 == [] && FieldPlaces(part, 1, at, ty) == [];
    assert [] + [Reloc(16, "g", 0)] == [Reloc(16, "g", 0)] && [] + [Reloc(at, "g", 0)] == [Reloc(at, "g", 0)];
  }

  lemma {:induction false} RealignedTypes()
    ensures FieldType(Some(REALIGNED), 0) == Some(Array(I128, 0)) && FieldType(Some(REALIGNED), 1) == Some(Ptr)
  {
  }

  /** The collector's offset after the first field. */
  lemma {:induction false} FirstOffset(fields: seq<Constant>, at: nat, ty: Option<IrType>)
    requires fields != []
    ensures FieldRelocs(fields, 1, at, ty).0 == at + Gap(ty, 0, at) + |ConstantBytes(fields[0], FieldType(ty, 0))|
  {
    hide Gap, ConstantBytes, FieldType, Relocs;
  }

  lemma {:induction false} OneReference(at: nat)
    ensures Relocs(GlobalRef("g"), at, Some(Ptr)) == [Reloc(at, "g", 0)] == Places(GlobalRef("g"), at, Some(Ptr))
  {
  }

  lemma {:induction false} WholeStruct(fields: seq<Constant>, at: nat, ty: Option<IrType>)
    ensures Relocs(Fields(fields), at, ty) == FieldRelocs(fields, |fields|, at, ty).1
    ensures Places(Fields(fields), at, ty) == FieldPlaces(fields, |fields|, at, ty)
  {
  }

  lemma {:induction false} EmptyElements(at: nat)
    ensures var c, ty := Elements([]), Some(Array(I128, 0));
      ConstantBytes(c, ty) == [] && Relocs(c, 16, ty) == [] && Places(c, at, ty) == []
  {
    assert Size(Array(I128, 0)) == 0;
  }

  lemma {:induction false} RealignedPart(parts: seq<Constant>)
    requires parts == [Elements([]), GlobalRef("g")]
    ensures FillsType(Fields(parts), REALIGNED) && HasRef(Fields(parts))
  {
    hide Size;
    assert FillsType(parts[0], Array(I128, 0)) && FillsType(parts[1], Ptr);
    assert HasRef(parts[1]);
  }

  lemma {:induction false} ElementsFill(elements: seq<Constant>, ty: IrType)
    requires ty.Array? && |elements| <= ty.count
    requires forall i :: 0 <= i < |elements| ==> FillsType(elements[i], ty.elem) || Elided(elements[i], ty.elem)
    ensures FillsType(Elements(elements), ty)
  {
    hide Elided;
  }

  lemma {:induction false} NullElided(ty: IrType)
    requires Size(ty) >= 8
    ensures Elided(Null, ty)
  {
    hide Size;
  }

  lemma {:induction false} RealignedFills(parts: seq<Constant>)
    requires parts == [Null, Fields([Elements([]), GlobalRef("g")])]
    ensures FillsType(Elements(parts), Array(REALIGNED, 2)) && HasRef(parts[1])
  {
    hide *;
    RealignedSizes();
    RealignedPart([Elements([]), GlobalRef("g")]);
    NullElided(REALIGNED);
    ElementsFill(parts, Array(REALIGNED, 2));
  }

  lemma {:induction false} RealignedWidths(parts: seq<Constant>)
    requires |parts| == 2 && parts[0] == Null
    ensures var ty := Some(Array(REALIGNED, 2));
      && |ConstantBytes(Null, Some(REALIGNED))| == 8 && !FullWidth(parts, 1, ty)
      && ElementStart(parts, 0, ty) == 0 && ElementStart(parts, 1, ty) == 16
  {
    var ty := Some(Array(REALIGNED, 2));
    RealignedSizes();
    hide Size;
    assert SizeOf(Some(REALIGNED)) == 16;
    assert |ConstantBytes(parts[0], ElementType(ty))| < SizeOf(ElementType(ty));
    assert EmitElements(parts, 0, ty, PLACEHOLDER) == [];
    assert EmitElements(parts, 1, ty, PLACEHOLDER) == [] + PadTo(Zeros(8), 16);
  }

  lemma {:induction false} NotMirrored(elements: seq<Constant>, i: nat, at: nat, ty: Option<IrType>)
    requires i < |elements| && HasRef(elements[i]) && !FullWidth(elements, i, ty)
    ensures !Mirrors(Elements(elements), at, ty)
  {
    hide FullWidth, HasRef;
  }

  /** A wrong offset can be put right by chance: the elided element leaves the collector eight bytes
      behind, the alignment of the next struct brings it back, and the entry is right although the
      condition of `RelocsArePlaces` fails. */
  lemma {:induction false} ChanceRealigns()
    ensures var ty := Some(Array(REALIGNED, 2)); var c := Elements([Null, Fields([Elements([]), GlobalRef("g")])]);
      FillsType(c, ty.value) && Relocs(c, 0, ty) == Places(c, 0, ty) == [Reloc(16, "g", 0)] && !Mirrors(c, 0, ty)
  {
    var parts, ty := [Null, Fields([Elements([]), GlobalRef("g")])], Some(Array(REALIGNED, 2));
    RealignedFills(parts);
    RealignedWidths(parts);
    NothingCollectedYet(parts, 0, ty);
    ElementStep(parts, 1, 0, ty);
    ElementStep(parts, 2, 0, ty);
    RealignedElement(8);
    RealignedElement(16);
    ScalarsHaveNone(Null, 0, Some(REALIGNED));
    hide FillsType, ElementStart, ConstantBytes, ElementPlaces, FullWidth, EmitElements, HasRef, Mirrors;
    NotMirrored(parts, 1, 0, ty);
    assert ElementRelocs(parts, 1, 0, ty).0 == 8;
    hide ElementRelocs;
    assert ElementRelocs(parts, 1, 0, ty).1 == [] && ElementPlaces(parts, 1, 0, ty) == [];
  }
}
