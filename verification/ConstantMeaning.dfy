/** What serialised constants mean: reading the bytes of a variable at its type gives back the value that
    its initialiser stands for. */
module ConstantMeaning {
  import opened Wrappers
  import opened Bytes
  import opened TypeLayout
  import opened ConstantData

  /** Bits of an integer or pointer; 0 for other types. */
  function Bits(ty: IrType): nat {
    match ty
    case I1 => 1
    case I8 => 8
    case I16 => 16
    case I32 => 32
    case I64 => 64
    case I128 => 128
    case Ptr => 64
    case _ => 0
  }

  /** The two's complement number that the bytes hold. */
  function Signed(b: seq<byte>): int {
    var word := Unsigned(b);
    if 2 * word < Pow256(|b|) then word else word - Pow256(|b|)
  }

  /** `x` is `v`, or the end of the signed range of `n` bytes that is nearer to `v`. */
  predicate NearestSigned(x: int, v: int, n: nat) {
    var half := Pow256(n) / 2;
    if v < -half then x == -half else if half <= v then x == half - 1 else x == v
  }

  predicate AllZero(b: seq<byte>) {
    forall k :: 0 <= k < |b| ==> b[k] == 0
  }

  /** The bytes are `part` and then zeros. */
  predicate Begins(data: seq<byte>, part: seq<byte>) {
    part <= data && AllZero(data[|part|..])
  }

  /** A word of `n` bytes, and then zeros. */
  predicate HoldsWord(data: seq<byte>, n: nat, v: int) {
    n <= |data| && Unsigned(data[..n]) == v % Pow256(n) && AllZero(data[n..])
  }

  function Part(data: seq<byte>, at: nat, n: nat): seq<byte> {
    if at + n <= |data| then data[at..at + n] else []
  }

  /** An integer keeps its value modulo its width; a floating type gets its encoding.  A number that stands
      for the first bytes of an aggregate counts as 64 bits wide. */
  predicate HoldsInteger(data: seq<byte>, v: Numeral, ty: IrType) {
    match ty
    case F32 => Begins(data, v.single)
    case F64 | F80 => Begins(data, v.double)
    case _ => HoldsWord(data, if Bits(ty) > 0 then (Bits(ty) + 7) / 8 else 8, v.whole)
  }

  /** A float at an integer type is cut to the nearest integer toward zero that the type holds. */
  predicate HoldsFloat(data: seq<byte>, v: Numeral, ty: IrType) {
    match ty
    case F32 => Begins(data, v.single)
    case I1 | I8 | I16 | I32 | I64 | I128 =>
      |data| == (Bits(ty) + 7) / 8 && NearestSigned(Signed(data), v.whole, |data|)
    case _ => Begins(data, v.double)
  }

  /** The bytes of a variable of type `ty` hold the constant, symbols not yet filled in. */
  ghost predicate Holds(data: seq<byte>, c: Constant, ty: IrType)
    decreases c
  {
    && |data| == Size(ty)
    && match c
       case Integer(v) => HoldsInteger(data, v, ty)
       case Float(v) => HoldsFloat(data, v, ty)
       case LongDouble(double) => Begins(data, double)
       case Bytestring(bytes) => forall k :: 0 <= k < |data| ==> data[k] == if k < |bytes| then bytes[k] else 0
       case Fields(fields) =>
         && ty.Struct? && |fields| <= |ty.fields|
         && (forall i :: 0 <= i < |fields|
              ==> Holds(Part(data, FieldOffset(ty.fields, ty.packed, i), Size(ty.fields[i])), fields[i], ty.fields[i]))
         && (forall x :: 0 <= x < |data| && !InField(ty, |fields|, x) ==> data[x] == 0)
       case Elements(elements) =>
         && ty.Array? && |elements| <= ty.count
         && (forall i :: 0 <= i < |elements|
              ==> Holds(Part(data, SlotStart(ty, i), Size(ty.elem)), elements[i], ty.elem))
         && (forall x :: SlotStart(ty, |elements|) <= x < |data| ==> data[x] == 0)
       case _ => AllZero(data)
  }

  // ---- words ----

  lemma {:induction false} ReadsModulo(v: int, width: nat)
    ensures Unsigned(LittleEndian(v, width)) == v % Pow256(width)
    decreases width
  {
    if width > 0 {
      ReadsModulo(v / 256, width - 1);
      assert LittleEndian(v, width)[1..] == LittleEndian(v / 256, width - 1);
      ModuloStep(v, Pow256(width - 1));
    }
  }

  lemma {:induction false} ModuloStep(v: int, m: nat)
    requires m > 0
    ensures v % (256 * m) == v % 256 + 256 * ((v / 256) % m)
  {
    var q, d := v / 256, v % 256;
    var k, e := q / m, q % m;
    assert q == m * k + e && v == 256 * q + d;
    assert v == (256 * m) * k + (d + 256 * e) by { Reassociate(m, k, e); }
    QuotientUnique(v, 256 * m, k, d + 256 * e);
  }

  lemma {:induction false} Reassociate(m: int, k: int, e: int)
    ensures 256 * (m * k + e) == (256 * m) * k + 256 * e
  {
  }

  lemma {:induction false} QuotientUnique(v: int, n: nat, k: int, d: nat)
    requires n > 0 && v == n * k + d && d < n
    ensures v % n == d
  {
    var q, e := v / n, v % n;
    assert n * (q - k) == d - e by { Distribute(n, q, k); }
    if q - k >= 1 {
      Grows(n, q - k);
    } else if q - k <= -1 {
      Grows(n, k - q);
    }
  }

  /** A number in the signed range is read back as it is. */
  lemma {:induction false} ReadsSigned(v: int, width: nat)
    requires width > 0 && -(Pow256(width) / 2) <= v < Pow256(width) / 2
    ensures Signed(LittleEndian(v, width)) == v
  {
    var n := Pow256(width);
    assert n == 256 * Pow256(width - 1);
    ReadsModulo(v, width);
    QuotientUnique(v, n, if v >= 0 then 0 else -1, if v >= 0 then v else v + n);
    hide Pow256, LittleEndian;
    OneMoreTurn(v, n);
  }

  lemma {:induction false} OneMoreTurn(v: int, n: nat)
    ensures v == n * 0 + v && v == n * -1 + (v + n)
  {
  }

  lemma {:induction false} ReadsSaturated(v: int, width: nat)
    requires width > 0
    ensures NearestSigned(Signed(LittleEndian(Saturated(v, width), width)), v, width)
  {
    assert Pow256(width) == 256 * Pow256(width - 1);
    hide Pow256, LittleEndian, Signed;
    ReadsSigned(Saturated(v, width), width);
  }

  // ---- numbers ----

  lemma {:induction false} PaddedBegins(part: seq<byte>, n: nat)
    ensures Begins(PadTo(part, n), part)
  {
  }

  lemma {:induction false} PaddedWord(v: int, width: nat, n: nat)
    requires width <= n
    ensures HoldsWord(PadTo(LittleEndian(v, width), n), width, v)
  {
    ReadsModulo(v, width);
    var word := LittleEndian(v, width);
    assert PadTo(word, n)[..width] == word;
  }

  lemma {:induction false} IntegerHolds(v: Numeral, ty: IrType)
    requires FillsType(Integer(v), ty) || Elided(Integer(v), ty)
    ensures Holds(PadTo(ConstantBytes(Integer(v), Some(ty)), Size(ty)), Integer(v), ty)
  {
    hide Unsigned, LittleEndian;
    if ty.F32? {
      PaddedBegins(v.single, 4);
    } else if ty.F64? || ty.F80? {
      PaddedBegins(v.double, Size(ty));
    } else {
      var width := if Bits(ty) > 0 then (Bits(ty) + 7) / 8 else 8;
      assert ConstantBytes(Integer(v), Some(ty)) == LittleEndian(v.whole, width);
      PaddedWord(v.whole, width, Size(ty));
    }
  }

  lemma {:induction false} FloatHolds(v: Numeral, ty: IrType)
    requires FillsType(Float(v), ty) || Elided(Float(v), ty)
    ensures Holds(PadTo(ConstantBytes(Float(v), Some(ty)), Size(ty)), Float(v), ty)
  {
    hide Unsigned, LittleEndian, Signed, NearestSigned, Saturated;
    if ty.F32? {
      PaddedBegins(v.single, 4);
    } else if ty.F80? {
      PaddedBegins(v.double, 16);
    } else if Bits(ty) > 0 && !ty.Ptr? {
      ReadsSaturated(v.whole, Size(ty));
    } else {
      PaddedBegins(v.double, Size(ty));
    }
  }

  lemma {:induction false} ScalarHolds(c: Constant, ty: IrType)
    requires (FillsType(c, ty) || Elided(c, ty)) && !c.Fields? && !c.Elements?
    ensures Holds(PadTo(ConstantBytes(c, Some(ty)), Size(ty)), c, ty)
  {
    if c.Integer? {
      IntegerHolds(c.v, ty);
    } else if c.Float? {
      FloatHolds(c.v, ty);
    } else {
      OtherHolds(c, ty);
    }
  }

  lemma {:induction false} OtherHolds(c: Constant, ty: IrType)
    requires (FillsType(c, ty) || Elided(c, ty)) && !c.Fields? && !c.Elements? && !c.Integer? && !c.Float?
    ensures Holds(PadTo(ConstantBytes(c, Some(ty)), Size(ty)), c, ty)
  {
    hide HoldsInteger, HoldsFloat, IntegerBytes, FloatBytes, EmitFields, EmitElements;
    if c.LongDouble? {
      PaddedBegins(c.double, Size(ty));
    }
  }

  // ---- aggregates ----

  lemma {:induction false} PartOf(data: seq<byte>, at: nat, part: seq<byte>)
    requires Occupies(data, at, part)
    ensures Part(data, at, |part|) == part
  {
  }

  lemma {:induction false} FullIsPadded(c: Constant, ty: IrType)
    requires FillsType(c, ty)
    ensures |ConstantBytes(c, Some(ty))| == Size(ty)
    ensures PadTo(ConstantBytes(c, Some(ty)), Size(ty)) == ConstantBytes(c, Some(ty))
  {
    SizeIsTypeSize(c, ty, PLACEHOLDER);
  }

  lemma {:induction false} FieldHolds(fields: seq<Constant>, i: nat, ty: IrType)
    requires FillsType(Fields(fields), ty) && i < |fields|
    ensures Holds(Part(ConstantBytes(Fields(fields), Some(ty)), FieldOffset(ty.fields, ty.packed, i),
                       Size(ty.fields[i])),
                  fields[i], ty.fields[i])
    decreases fields, 0, 0
  {
    FieldIsTyped(fields, ty, i);
    hide *;
    FieldAtItsOffset(fields, i, ty);
    FullIsPadded(fields[i], ty.fields[i]);
    PartOf(ConstantBytes(Fields(fields), Some(ty)), FieldOffset(ty.fields, ty.packed, i),
           ConstantBytes(fields[i], Some(ty.fields[i])));
    ConstantHolds(fields[i], ty.fields[i]);
  }

  lemma {:induction false} SlotIsWhole(elements: seq<Constant>, i: nat, ty: IrType)
    requires FillsType(Elements(elements), ty) && i < |elements|
    ensures |SlotBytes(elements[i], ty, PLACEHOLDER)| == Size(ty.elem)
  {
    ElementIsTyped(elements, ty, i);
    if FillsType(elements[i], ty.elem) {
      FullIsPadded(elements[i], ty.elem);
    }
  }

  lemma {:induction false} ElementHolds(elements: seq<Constant>, i: nat, ty: IrType)
    requires FillsType(Elements(elements), ty) && i < |elements|
    ensures Holds(Part(ConstantBytes(Elements(elements), Some(ty)), SlotStart(ty, i), Size(ty.elem)),
                  elements[i], ty.elem)
    decreases elements, 0, 0
  {
    ElementIsTyped(elements, ty, i);
    var slot := PadTo(ConstantBytes(elements[i], Some(ty.elem)), Size(ty.elem));
    assert slot == SlotBytes(elements[i], ty, PLACEHOLDER);
    hide *;
    ElementAtItsSlot(elements, i, ty);
    SlotIsWhole(elements, i, ty);
    PartOf(ConstantBytes(Elements(elements), Some(ty)), SlotStart(ty, i), slot);
    if FillsType(elements[i], ty.elem) {
      ConstantHolds(elements[i], ty.elem);
      FullIsPadded(elements[i], ty.elem);
    } else {
      ElidedHolds(elements[i], ty.elem);
    }
  }

  lemma {:induction false} ElidedHolds(c: Constant, ty: IrType)
    requires Elided(c, ty)
    ensures Holds(PadTo(ConstantBytes(c, Some(ty)), Size(ty)), c, ty)
  {
    assert !c.Fields? && !c.Elements?;
    hide *;
    ScalarHolds(c, ty);
  }

  lemma {:induction false} TailIsZero(elements: seq<Constant>, ty: IrType, x: nat)
    requires FillsType(Elements(elements), ty) && SlotStart(ty, |elements|) <= x < Size(ty)
    ensures |ConstantBytes(Elements(elements), Some(ty))| == Size(ty)
    ensures ConstantBytes(Elements(elements), Some(ty))[x] == 0
  {
    SizeIsTypeSize(Elements(elements), ty, PLACEHOLDER);
    ElementsReach(elements, |elements|, ty, PLACEHOLDER);
    hide FillsType, EmitElements, SlotStart;
  }

  /** A constant that fills its type is what the bytes of the variable hold, parts within parts. */
  lemma {:induction false} ConstantHolds(c: Constant, ty: IrType)
    requires FillsType(c, ty)
    ensures Holds(ConstantBytes(c, Some(ty)), c, ty)
    decreases c, 1, 0
  {
    FullIsPadded(c, ty);
    match c
    case Fields(fields) =>
      FieldsAreTyped(fields, ty);
      hide FillsType, ConstantBytes, Size, InField, FieldOffset;
      forall i | 0 <= i < |fields|
        ensures Holds(Part(ConstantBytes(c, Some(ty)), FieldOffset(ty.fields, ty.packed, i), Size(ty.fields[i])),
                      fields[i], ty.fields[i])
      {
        FieldHolds(fields, i, ty);
      }
      forall x: nat | x < Size(ty) && !InField(ty, |fields|, x)
        ensures ConstantBytes(c, Some(ty))[x] == 0
      {
        RestIsZero(fields, ty, x);
      }
    case Elements(elements) =>
      ElementsAreTyped(elements, ty);
      hide FillsType, ConstantBytes, Size, SlotStart;
      forall i | 0 <= i < |elements|
        ensures Holds(Part(ConstantBytes(c, Some(ty)), SlotStart(ty, i), Size(ty.elem)), elements[i], ty.elem)
      {
        ElementHolds(elements, i, ty);
      }
      forall x: nat | SlotStart(ty, |elements|) <= x < Size(ty)
        ensures ConstantBytes(c, Some(ty))[x] == 0
      {
        TailIsZero(elements, ty, x);
      }
    case _ =>
      ScalarHolds(c, ty);
  }

  /** A signed number that fits its type comes back as it is. */
  lemma {:induction false} IntegerComesBack(v: Numeral, ty: IrType)
    requires Bits(ty) >= 8 && -(Pow256(Bits(ty) / 8) / 2) <= v.whole < Pow256(Bits(ty) / 8) / 2
    ensures Signed(ConstantBytes(Integer(v), Some(ty))) == v.whole
  {
    ReadsSigned(v.whole, Bits(ty) / 8);
  }

  // ---- scalar layout ----

  /** Scalars are as wide as their bits or encodings need, and aligned to their width. */
  lemma {:induction false} ScalarLayout(ty: IrType, v: Numeral)
    ensures Bits(ty) > 0 ==> Size(ty) == (Bits(ty) + 7) / 8 && Align(ty) == Size(ty)
    ensures ty.F32? ==> Size(ty) == |v.single| == Align(ty)
    ensures ty.F64? ==> Size(ty) == |v.double| == Align(ty)
    ensures ty.F80? ==> Size(ty) == Align(ty) == 16
    ensures ty.Void? || ty.FunctionType? ==> Size(ty) == 0 && Align(ty) == 1
  {
    match ty
    case _ =>
  }
}
