/** Serialising constant initialisers: the bytes, and the places that the linker has to fill in. */
module ConstantData {
  import opened Wrappers
  import opened Bytes
  import opened TypeLayout

  type Word4 = b: seq<byte> | |b| == 4 witness [0, 0, 0, 0]
  type Word8 = b: seq<byte> | |b| == 8 witness [0, 0, 0, 0, 0, 0, 0, 0]

  /** A number with its value truncated toward zero and its two IEEE encodings. */
  datatype Numeral = Numeral(whole: int, single: Word4, double: Word8)

  datatype Constant = Integer(v: Numeral)
                    | Float(v: Numeral)
                    | LongDouble(double: Word8)
                    | Bytestring(bytes: seq<byte>)
                    | ZeroInit
                    | Fields(fields: seq<Constant>)
                    | Elements(elements: seq<Constant>)
                    | GlobalRef(name: string)
                    | GlobalRefOffset(name: string, addend: int)
                    | Null
                    | Undefined

  /** What a reference to a symbol plus an addend puts into the data. */
  type Resolver = (string, int) -> Word8

  function IntWidth(ty: Option<IrType>): nat {
    match ty
    case Some(I1) | Some(I8) => 1
    case Some(I16) => 2
    case Some(I32) => 4
    case Some(I128) => 16
    case _ => 8
  }

  function IntegerBytes(v: Numeral, ty: Option<IrType>): seq<byte> {
    match ty
    case Some(F32) => v.single
    case Some(F64) => v.double
    case Some(F80) => PadTo(v.double, 16)
    case _ => LittleEndian(v.whole, IntWidth(ty))
  }

  /** Conversion to a signed integer of `width` bytes saturates. */
  function Saturated(x: int, width: nat): int {
    var half := Pow256(width) / 2;
    if x < -half then -half else if x > half - 1 then half - 1 else x
  }

  function FloatBytes(v: Numeral, ty: Option<IrType>): seq<byte> {
    match ty
    case Some(F32) => v.single
    case Some(F80) => PadTo(v.double, 16)
    case Some(I1) | Some(I8) | Some(I16) | Some(I32) | Some(I64) | Some(I128) =>
      LittleEndian(Saturated(v.whole, IntWidth(ty)), IntWidth(ty))
    case _ => v.double
  }

  function Fitted(bytes: seq<byte>, n: nat): seq<byte> {
    if n > 0 then PadTo(if |bytes| > n then bytes[..n] else bytes, n) else bytes
  }

  /** Struct and array types lend their parts to the parts of the constant. */
  function FieldType(ty: Option<IrType>, i: nat): Option<IrType> {
    match ty
    case Some(Struct(fields, _)) => if i < |fields| then Some(fields[i]) else None
    case _ => None
  }

  function Gap(ty: Option<IrType>, i: nat, offset: nat): nat {
    match ty
    case Some(Struct(fields, packed)) =>
      if packed || i >= |fields| then 0 else AlignUp(offset, Align(fields[i])) - offset
    case _ => 0
  }

  function ElementType(ty: Option<IrType>): Option<IrType> {
    match ty
    case Some(Array(elem, _)) => Some(elem)
    case _ => None
  }

  function SizeOf(ty: Option<IrType>): nat {
    if ty.Some? then Size(ty.value) else 0
  }

  /** The data of a constant in which references already have their final value. */
  function Emit(c: Constant, ty: Option<IrType>, resolve: Resolver): seq<byte>
    decreases c, 0
  {
    match c
    case Integer(v) => IntegerBytes(v, ty)
    case Float(v) => FloatBytes(v, ty)
    case LongDouble(double) => PadTo(double, 16)
    case Bytestring(bytes) => if ty.Some? then Fitted(bytes, SizeOf(ty)) else bytes
    case ZeroInit => Zeros(SizeOf(ty))
    case Fields(fields) => PadTo(EmitFields(fields, |fields|, ty, resolve), SizeOf(ty))
    case Elements(elements) =>
      PadTo(EmitElements(elements, |elements|, ty, resolve), if ty.Some? && ty.value.Array? then Size(ty.value) else 0)
    case GlobalRef(name) => resolve(name, 0)
    case GlobalRefOffset(name, addend) => resolve(name, addend)
    case Null => Zeros(8)
    case Undefined => Zeros(8)
  }

  function EmitFields(fields: seq<Constant>, n: nat, ty: Option<IrType>, resolve: Resolver): seq<byte>
    requires n <= |fields|
    decreases fields, n
  {
    if n == 0 then []
    else
      var front := EmitFields(fields, n - 1, ty, resolve);
      front + Zeros(Gap(ty, n - 1, |front|)) + Emit(fields[n - 1], FieldType(ty, n - 1), resolve)
  }

  function EmitElements(elements: seq<Constant>, n: nat, ty: Option<IrType>, resolve: Resolver): seq<byte>
    requires n <= |elements|
    decreases elements, n
  {
    if n == 0 then []
    else EmitElements(elements, n - 1, ty, resolve)
         + PadTo(Emit(elements[n - 1], ElementType(ty), resolve), SizeOf(ElementType(ty)))
  }

  /** What the compiler writes: zeros wherever a symbol is referred to. */
  const PLACEHOLDER: Resolver := (name: string, addend: int) => Zeros(8)

  function ConstantBytes(c: Constant, ty: Option<IrType>): seq<byte> {
    Emit(c, ty, PLACEHOLDER)
  }

  // ---- relocation entries ----

  datatype Reloc = Reloc(offset: nat, name: string, addend: int)

  /** The collector, which walks the constant with absolute offsets of its own. */
  function Relocs(c: Constant, base: nat, ty: Option<IrType>): seq<Reloc>
    decreases c, 0
  {
    match c
    case GlobalRef(name) => [Reloc(base, name, 0)]
    case GlobalRefOffset(name, addend) => [Reloc(base, name, addend)]
    case Fields(fields) => FieldRelocs(fields, |fields|, base, ty).1
    case Elements(elements) => ElementRelocs(elements, |elements|, base, ty).1
    case _ => []
  }

  /** The collector's offset after `n` fields, and what it has collected. */
  function FieldRelocs(fields: seq<Constant>, n: nat, base: nat, ty: Option<IrType>): (nat, seq<Reloc>)
    requires n <= |fields|
    decreases fields, n
  {
    if n == 0 then (base, [])
    else
      var (before, found) := FieldRelocs(fields, n - 1, base, ty);
      var at := before + Gap(ty, n - 1, before);
      var ft := FieldType(ty, n - 1);
      (at + |ConstantBytes(fields[n - 1], ft)|, found + Relocs(fields[n - 1], at, ft))
  }

  function ElementRelocs(elements: seq<Constant>, n: nat, base: nat, ty: Option<IrType>): (nat, seq<Reloc>)
    requires n <= |elements|
    decreases elements, n
  {
    if n == 0 then (base, [])
    else
      var (at, found) := ElementRelocs(elements, n - 1, base, ty);
      var et := ElementType(ty);
      (at + |ConstantBytes(elements[n - 1], et)|, found + Relocs(elements[n - 1], at, et))
  }

  // ---- serialised size is the size of the type ----

  /** The constant fills its type.  Array initialisers may be partial, and an element may be shorter
      than its slot; struct initialisers may be partial, but each field given must fill its own type. */
  predicate FillsType(c: Constant, ty: IrType)
    decreases c
  {
    match c
    case Integer(_) => !ty.Array? && !ty.Struct? && !ty.Void? && !ty.FunctionType?
    case Float(_) => !ty.Array? && !ty.Struct? && !ty.Void? && !ty.FunctionType?
    case LongDouble(_) => ty.F80?
    case Bytestring(bytes) => Size(ty) == 0 ==> bytes == []
    case ZeroInit => true
    case Fields(fields) =>
      ty.Struct? && |fields| <= |ty.fields| && forall i :: 0 <= i < |fields| ==> FillsType(fields[i], ty.fields[i])
    case Elements(elements) =>
      ty.Array? && |elements| <= ty.count
      && forall i :: 0 <= i < |elements| ==> FillsType(elements[i], ty.elem) || Elided(elements[i], ty.elem)
    case GlobalRef(_) => ty in {I64, F64, Ptr}
    case GlobalRefOffset(_, _) => ty in {I64, F64, Ptr}
    case Null => ty in {I64, F64, Ptr}
    case Undefined => ty in {I64, F64, Ptr}
  }

  /** A scalar standing for the first bytes of an aggregate. */
  predicate Elided(c: Constant, ty: IrType) {
    !c.Fields? && !c.Elements? && |ConstantBytes(c, Some(ty))| <= Size(ty)
  }

  lemma {:induction false} SizeIsTypeSize(c: Constant, ty: IrType, resolve: Resolver)
    requires FillsType(c, ty)
    ensures |Emit(c, Some(ty), resolve)| == Size(ty)
    decreases c, 0
  {
    hide *;
    match c
    case Fields(fields) =>
      FieldsReach(fields, |fields|, ty, resolve);
      FieldsSize(fields, ty, resolve);
    case Elements(elements) =>
      ElementsReach(elements, |elements|, ty, resolve);
      ElementsSize(elements, ty, resolve);
    case _ =>
      ScalarSize(c, ty, resolve);
  }

  lemma {:induction false} FieldsSize(fields: seq<Constant>, ty: IrType, resolve: Resolver)
    requires ty.Struct? && |fields| <= |ty.fields|
    requires |EmitFields(fields, |fields|, Some(ty), resolve)| == FieldsEnd(ty.fields, ty.packed, |fields|)
    ensures |Emit(Fields(fields), Some(ty), resolve)| == Size(ty)
  {
    hide EmitFields, FieldsEnd;
    EndsGrow(ty.fields, ty.packed, |fields|, |ty.fields|);
  }

  lemma {:induction false} ElementsSize(elements: seq<Constant>, ty: IrType, resolve: Resolver)
    requires ty.Array? && |elements| <= ty.count
    requires |EmitElements(elements, |elements|, Some(ty), resolve)| == SlotStart(ty, |elements|)
    ensures |Emit(Elements(elements), Some(ty), resolve)| == Size(ty)
  {
    hide EmitElements;
    ProductGrows(Size(ty.elem), |elements|, ty.count);
  }

  lemma {:induction false} ScalarSize(c: Constant, ty: IrType, resolve: Resolver)
    requires FillsType(c, ty) && !c.Fields? && !c.Elements?
    ensures |Emit(c, Some(ty), resolve)| == Size(ty)
  {
    hide EmitFields, EmitElements;
  }

  lemma {:induction false} ProductGrows(size: nat, m: nat, n: nat)
    requires m <= n
    ensures size * m <= size * n
  {
  }

  lemma {:induction false} EndsGrow(fields: seq<IrType>, packed: bool, m: nat, n: nat)
    requires m <= n <= |fields|
    ensures FieldsEnd(fields, packed, m) <= FieldsEnd(fields, packed, n)
    decreases n
  {
    if m < n {
      EndsGrow(fields, packed, m, n - 1);
    }
  }

  lemma {:induction false} FieldIsTyped(fields: seq<Constant>, ty: IrType, i: nat)
    requires FillsType(Fields(fields), ty) && i < |fields|
    ensures ty.Struct? && |fields| <= |ty.fields| && FillsType(fields[i], ty.fields[i])
  {
  }

  /** One field more, in the data and in the layout. */
  lemma {:induction false} FieldAdds(fields: seq<Constant>, n: nat, ty: IrType, resolve: Resolver)
    requires n < |fields| && ty.Struct? && |fields| <= |ty.fields|
    ensures var before, end := |EmitFields(fields, n, Some(ty), resolve)|, FieldsEnd(ty.fields, ty.packed, n);
      && |EmitFields(fields, n + 1, Some(ty), resolve)|
         == before + Gap(Some(ty), n, before) + |Emit(fields[n], Some(ty.fields[n]), resolve)|
      && FieldsEnd(ty.fields, ty.packed, n + 1) == end + Gap(Some(ty), n, end) + Size(ty.fields[n])
  {
    hide Emit, Size, Align;
  }

  lemma {:induction false} NoFields(fields: seq<Constant>, ty: IrType, resolve: Resolver)
    requires ty.Struct?
    ensures |EmitFields(fields, 0, Some(ty), resolve)| == FieldsEnd(ty.fields, ty.packed, 0)
  {
  }

  lemma {:induction false} FieldsReach(fields: seq<Constant>, n: nat, ty: IrType, resolve: Resolver)
    requires n <= |fields| && FillsType(Fields(fields), ty)
    ensures ty.Struct? && |fields| <= |ty.fields|
    ensures |EmitFields(fields, n, Some(ty), resolve)| == FieldsEnd(ty.fields, ty.packed, n)
    decreases fields, n
  {
    hide *;
    FieldsAreTyped(fields, ty);
    if n == 0 {
      NoFields(fields, ty, resolve);
    } else {
      FieldsReach(fields, n - 1, ty, resolve);
      FieldIsTyped(fields, ty, n - 1);
      SizeIsTypeSize(fields[n - 1], ty.fields[n - 1], resolve);
      FieldAdds(fields, n - 1, ty, resolve);
    }
  }

  /** Where element `i` of an array starts. */
  function SlotStart(ty: IrType, i: nat): nat
    requires ty.Array?
  {
    Size(ty.elem) * i
  }

  lemma {:induction false} SlotStep(ty: IrType, i: nat)
    requires ty.Array?
    ensures SlotStart(ty, i + 1) == SlotStart(ty, i) + Size(ty.elem) && SlotStart(ty, 0) == 0
  {
    hide Size;
  }

  lemma {:induction false} ElementIsTyped(elements: seq<Constant>, ty: IrType, i: nat)
    requires FillsType(Elements(elements), ty) && i < |elements|
    ensures ty.Array? && (FillsType(elements[i], ty.elem) || Elided(elements[i], ty.elem))
  {
  }

  /** One element more, which is as wide as its slot or padded to it. */
  lemma {:induction false} ElementAdds(elements: seq<Constant>, n: nat, ty: IrType, resolve: Resolver)
    requires n < |elements| && ty.Array? && |Emit(elements[n], Some(ty.elem), resolve)| <= Size(ty.elem)
    ensures |EmitElements(elements, n + 1, Some(ty), resolve)|
         == |EmitElements(elements, n, Some(ty), resolve)| + Size(ty.elem)
  {
    hide Emit, Size;
  }

  /** An elided element has the same width whatever references resolve to. */
  lemma {:induction false} ElidedFits(c: Constant, ty: IrType, resolve: Resolver)
    requires Elided(c, ty)
    ensures |Emit(c, Some(ty), resolve)| <= Size(ty)
  {
    hide Size, EmitFields, EmitElements;
  }

  lemma {:induction false} ElementsReach(elements: seq<Constant>, n: nat, ty: IrType, resolve: Resolver)
    requires n <= |elements| && FillsType(Elements(elements), ty)
    ensures ty.Array? && |elements| <= ty.count
    ensures |EmitElements(elements, n, Some(ty), resolve)| == SlotStart(ty, n)
    decreases elements, n
  {
    hide *;
    ElementsAreTyped(elements, ty);
    SlotStep(ty, if n > 0 then n - 1 else 0);
    if n == 0 {
      NoElements(elements, ty, resolve);
    } else {
      ElementsReach(elements, n - 1, ty, resolve);
      var e := elements[n - 1];
      ElementIsTyped(elements, ty, n - 1);
      if FillsType(e, ty.elem) {
        SizeIsTypeSize(e, ty.elem, resolve);
      } else {
        ElidedFits(e, ty.elem, resolve);
      }
      ElementAdds(elements, n - 1, ty, resolve);
    }
  }

  lemma {:induction false} NoElements(elements: seq<Constant>, ty: IrType, resolve: Resolver)
    ensures |EmitElements(elements, 0, Some(ty), resolve)| == 0
  {
  }

  // ---- every field and element is where the layout says ----

  lemma {:induction false} FieldStarts(fields: seq<Constant>, n: nat, i: nat, ty: IrType, resolve: Resolver)
    requires i < n <= |fields| && FillsType(Fields(fields), ty)
    ensures Occupies(EmitFields(fields, n, Some(ty), resolve), FieldOffset(ty.fields, ty.packed, i),
                     Emit(fields[i], Some(ty.fields[i]), resolve))
    decreases n
  {
    hide FillsType, Emit, Occupies;
    FieldsReach(fields, n - 1, ty, resolve);
    var front := EmitFields(fields, n - 1, Some(ty), resolve);
    var gap, last := Zeros(Gap(Some(ty), n - 1, |front|)), Emit(fields[n - 1], FieldType(Some(ty), n - 1), resolve);
    FieldsAreTyped(fields, ty);
    if i < n - 1 {
      FieldStarts(fields, n - 1, i, ty, resolve);
      OccupiesLonger(front, gap, FieldOffset(ty.fields, ty.packed, i), Emit(fields[i], Some(ty.fields[i]), resolve));
      OccupiesLonger(front + gap, last, FieldOffset(ty.fields, ty.packed, i),
                     Emit(fields[i], Some(ty.fields[i]), resolve));
    } else {
      OccupiesEnd(front + gap, last, []);
      assert front + gap + last + [] == front + gap + last;
    }
  }

  lemma {:induction false} FieldsAreTyped(fields: seq<Constant>, ty: IrType)
    requires FillsType(Fields(fields), ty)
    ensures ty.Struct? && |fields| <= |ty.fields|
  {
  }

  /** What an element puts into its slot. */
  function SlotBytes(e: Constant, ty: IrType, resolve: Resolver): seq<byte>
    requires ty.Array?
  {
    PadTo(Emit(e, Some(ty.elem), resolve), Size(ty.elem))
  }

  lemma {:induction false} ElementStarts(elements: seq<Constant>, n: nat, i: nat, ty: IrType, resolve: Resolver)
    requires i < n <= |elements| && FillsType(Elements(elements), ty)
    ensures ty.Array? && Occupies(EmitElements(elements, n, Some(ty), resolve), SlotStart(ty, i),
                                  SlotBytes(elements[i], ty, resolve))
    decreases n
  {
    ElementsAreTyped(elements, ty);
    OneMoreSlot(elements, n, ty, resolve);
    hide *;
    ElementsReach(elements, n - 1, ty, resolve);
    var front := EmitElements(elements, n - 1, Some(ty), resolve);
    var slot := SlotBytes(elements[n - 1], ty, resolve);
    if i < n - 1 {
      ElementStarts(elements, n - 1, i, ty, resolve);
      OccupiesLonger(front, slot, SlotStart(ty, i), SlotBytes(elements[i], ty, resolve));
    } else {
      OccupiesEnd(front, slot, []);
      assert front + slot + [] == front + slot;
    }
  }

  lemma {:induction false} OneMoreSlot(elements: seq<Constant>, n: nat, ty: IrType, resolve: Resolver)
    requires 0 < n <= |elements| && ty.Array?
    ensures EmitElements(elements, n, Some(ty), resolve)
         == EmitElements(elements, n - 1, Some(ty), resolve) + SlotBytes(elements[n - 1], ty, resolve)
  {
    hide Emit, Size, PadTo;
  }

  lemma {:induction false} ElementsAreTyped(elements: seq<Constant>, ty: IrType)
    requires FillsType(Elements(elements), ty)
    ensures ty.Array? && |elements| <= ty.count
  {
  }

  /** Each supplied field of a struct initialiser lies at the offset its type gives it. */
  lemma {:induction false} FieldAtItsOffset(fields: seq<Constant>, i: nat, ty: IrType)
    requires FillsType(Fields(fields), ty) && i < |fields|
    ensures Occupies(ConstantBytes(Fields(fields), Some(ty)), FieldOffset(ty.fields, ty.packed, i),
                     ConstantBytes(fields[i], Some(ty.fields[i])))
  {
    hide FillsType, Occupies, FieldOffset, Size, EmitFields;
    FieldsAreTyped(fields, ty);
    FieldStarts(fields, |fields|, i, ty, PLACEHOLDER);
    var b := EmitFields(fields, |fields|, Some(ty), PLACEHOLDER);
    if |b| < Size(ty) {
      OccupiesLonger(b, Zeros(Size(ty) - |b|), FieldOffset(ty.fields, ty.packed, i),
                     ConstantBytes(fields[i], Some(ty.fields[i])));
    }
  }

  /** Each supplied element of an array initialiser starts its slot, and zeros fill it up. */
  lemma {:induction false} ElementAtItsSlot(elements: seq<Constant>, i: nat, ty: IrType)
    requires FillsType(Elements(elements), ty) && i < |elements|
    ensures Occupies(ConstantBytes(Elements(elements), Some(ty)), SlotStart(ty, i),
                     ConstantBytes(elements[i], Some(ty.elem)))
    ensures Occupies(ConstantBytes(Elements(elements), Some(ty)), SlotStart(ty, i),
                     SlotBytes(elements[i], ty, PLACEHOLDER))
  {
    hide FillsType, Occupies, SlotStart, Size, EmitElements;
    ElementsAreTyped(elements, ty);
    ElementStarts(elements, |elements|, i, ty, PLACEHOLDER);
    var b, slot := EmitElements(elements, |elements|, Some(ty), PLACEHOLDER), SlotBytes(elements[i], ty, PLACEHOLDER);
    if |b| < Size(ty) {
      OccupiesLonger(b, Zeros(Size(ty) - |b|), SlotStart(ty, i), slot);
    }
    var e := ConstantBytes(elements[i], Some(ty.elem));
    assert slot == e + slot[|e|..];
    OccupiesFront(ConstantBytes(Elements(elements), Some(ty)), SlotStart(ty, i), e, slot[|e|..]);
  }

  /** Byte `x` belongs to one of the first `n` fields. */
  ghost predicate InField(ty: IrType, n: nat, x: nat)
    requires ty.Struct? && n <= |ty.fields|
  {
    exists i :: 0 <= i < n
                && FieldOffset(ty.fields, ty.packed, i) <= x < FieldOffset(ty.fields, ty.packed, i) + Size(ty.fields[i])
  }

  lemma {:induction false} BeforeLastField(ty: IrType, n: nat, x: nat)
    requires ty.Struct? && 0 < n <= |ty.fields| && !InField(ty, n, x) && x < FieldsEnd(ty.fields, ty.packed, n)
    ensures x < FieldOffset(ty.fields, ty.packed, n - 1) && !InField(ty, n - 1, x)
  {
    hide Size, Align;
  }

  lemma {:induction false} ByteInGap(front: seq<byte>, gap: nat, last: seq<byte>, x: nat)
    requires |front| <= x < |front| + gap
    ensures (front + Zeros(gap) + last)[x] == 0
  {
  }

  lemma {:induction false} GapsAreZero(fields: seq<Constant>, n: nat, ty: IrType, x: nat)
    requires FillsType(Fields(fields), ty) && n <= |fields|
    requires x < |EmitFields(fields, n, Some(ty), PLACEHOLDER)| && !InField(ty, n, x)
    ensures EmitFields(fields, n, Some(ty), PLACEHOLDER)[x] == 0
    decreases n
  {
    hide FillsType, Emit, FieldsEnd, InField, Zeros;
    FieldsAreTyped(fields, ty);
    if n > 0 {
      FieldsReach(fields, n, ty, PLACEHOLDER);
      FieldsReach(fields, n - 1, ty, PLACEHOLDER);
      BeforeLastField(ty, n, x);
      var front := EmitFields(fields, n - 1, Some(ty), PLACEHOLDER);
      if x < |front| {
        GapsAreZero(fields, n - 1, ty, x);
      } else {
        ByteInGap(front, Gap(Some(ty), n - 1, |front|), Emit(fields[n - 1], FieldType(Some(ty), n - 1), PLACEHOLDER),
                  x);
      }
    }
  }

  /** Padding, and whatever the initialiser leaves out, is zero. */
  lemma {:induction false} RestIsZero(fields: seq<Constant>, ty: IrType, x: nat)
    requires FillsType(Fields(fields), ty) && x < Size(ty) && !InField(ty, |fields|, x)
    ensures |ConstantBytes(Fields(fields), Some(ty))| == Size(ty) && ConstantBytes(Fields(fields), Some(ty))[x] == 0
  {
    SizeIsTypeSize(Fields(fields), ty, PLACEHOLDER);
    if x < |EmitFields(fields, |fields|, Some(ty), PLACEHOLDER)| {
      GapsAreZero(fields, |fields|, ty, x);
    }
  }
}
