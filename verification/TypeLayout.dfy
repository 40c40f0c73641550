/** Sizes, alignments and field offsets of types. */
module TypeLayout {
  import opened Bytes

  datatype IrType = Void | I1 | I8 | I16 | I32 | I64 | I128 | F32 | F64 | F80 | Ptr | FunctionType
                  | Array(elem: IrType, count: nat)
                  | Struct(fields: seq<IrType>, packed: bool)

  function Align(t: IrType): (a: nat)
    ensures a in {1, 2, 4, 8, 16}
    decreases t, 0
  {
    match t
    case Void | I1 | I8 | FunctionType => 1
    case I16 => 2
    case I32 | F32 => 4
    case I64 | F64 | Ptr => 8
    case I128 | F80 => 16
    case Array(elem, _) => Align(elem)
    case Struct(fields, packed) => if packed then 1 else MaxAlign(fields, |fields|)
  }

  function MaxAlign(fields: seq<IrType>, n: nat): (a: nat)
    requires n <= |fields|
    ensures a in {1, 2, 4, 8, 16}
    decreases fields, n
  {
    if n == 0 then 1
    else
      var before, a := MaxAlign(fields, n - 1), Align(fields[n - 1]);
      if a > before then a else before
  }

  function Size(t: IrType): nat
    decreases t, 0
  {
    match t
    case Void | FunctionType => 0
    case I1 | I8 => 1
    case I16 => 2
    case I32 | F32 => 4
    case I64 | F64 | Ptr => 8
    case I128 | F80 => 16
    case Array(elem, count) => Size(elem) * count
    case Struct(fields, packed) =>
      if packed then FieldsEnd(fields, packed, |fields|)
      else AlignUp(FieldsEnd(fields, packed, |fields|), MaxAlign(fields, |fields|))
  }

  /** Where the first `n` fields end. */
  function FieldsEnd(fields: seq<IrType>, packed: bool, n: nat): nat
    requires n <= |fields|
    decreases fields, n
  {
    if n == 0 then 0
    else
      var before, f := FieldsEnd(fields, packed, n - 1), fields[n - 1];
      (if packed then before else AlignUp(before, Align(f))) + Size(f)
  }

  function FieldOffset(fields: seq<IrType>, packed: bool, i: nat): nat
    requires i < |fields|
  {
    var before := FieldsEnd(fields, packed, i);
    if packed then before else AlignUp(before, Align(fields[i]))
  }

  // ---- what the layout guarantees ----

  lemma {:induction false} MaxAlignCovers(fields: seq<IrType>, n: nat, i: nat)
    requires i < n <= |fields|
    ensures Align(fields[i]) <= MaxAlign(fields, n)
  {
    if i < n - 1 {
      MaxAlignCovers(fields, n - 1, i);
    }
  }

  /** Alignments are powers of two, so a smaller one divides a larger one. */
  lemma {:induction false} AlignDivides(a: nat, b: nat, x: int)
    requires a in {1, 2, 4, 8, 16} && b in {1, 2, 4, 8, 16} && a <= b && x % b == 0
    ensures x % a == 0
  {
    assert b % a == 0;
    FactorAligned(x, a, b);
  }

  /** Every size is a multiple of the alignment, so array elements stay aligned. */
  lemma {:induction false} SizeIsAligned(t: IrType)
    ensures Size(t) % Align(t) == 0
  {
    match t
    case Array(elem, count) =>
      SizeIsAligned(elem);
      ProductAligned(Size(elem), count, Align(elem));
    case _ =>
  }

  lemma {:induction false} FieldsInOrder(fields: seq<IrType>, packed: bool, i: nat, n: nat)
    requires i < n <= |fields|
    ensures FieldOffset(fields, packed, i) + Size(fields[i]) <= FieldsEnd(fields, packed, n)
    decreases n
  {
    if i < n - 1 {
      FieldsInOrder(fields, packed, i, n - 1);
    }
  }

  /** Fields are aligned, do not overlap, come in order, and lie inside the struct. */
  lemma {:induction false} FieldsFit(fields: seq<IrType>, packed: bool, i: nat, j: nat)
    requires i < j < |fields|
    ensures FieldOffset(fields, packed, i) + Size(fields[i]) <= FieldOffset(fields, packed, j)
    ensures FieldOffset(fields, packed, j) + Size(fields[j]) <= Size(Struct(fields, packed))
    ensures !packed ==> FieldOffset(fields, packed, j) % Align(fields[j]) == 0
    ensures !packed ==> Size(Struct(fields, packed)) % Align(fields[j]) == 0
  {
    FieldsInOrder(fields, packed, i, j);
    FieldsInOrder(fields, packed, j, |fields|);
    if !packed {
      SizeIsAligned(Struct(fields, packed));
      MaxAlignCovers(fields, |fields|, j);
      AlignDivides(Align(fields[j]), MaxAlign(fields, |fields|), Size(Struct(fields, packed)));
    }
  }

  /** Nor is there more room than alignment asks for: the first field starts the struct, every other one
      follows its predecessor as soon as it may, and the struct ends as soon as it may. */
  lemma {:induction false} FieldsAreTight(fields: seq<IrType>, packed: bool, i: nat)
    requires i < |fields|
    ensures var end := FieldOffset(fields, packed, i) + Size(fields[i]);
      && (i == 0 ==> FieldOffset(fields, packed, i) == 0)
      && (i + 1 < |fields| ==>
            FieldOffset(fields, packed, i + 1) - end < if packed then 1 else Align(fields[i + 1]))
      && (i + 1 == |fields| ==> Size(Struct(fields, packed)) - end < Align(Struct(fields, packed)))
  {
    assert FieldsEnd(fields, packed, i + 1) == FieldOffset(fields, packed, i) + Size(fields[i]);
    hide FieldsEnd, MaxAlign;
    assert i == 0 ==> FieldsEnd(fields, packed, 0) == 0 by { NoFieldsEnd(fields, packed); }
  }

  lemma {:induction false} NoFieldsEnd(fields: seq<IrType>, packed: bool)
    ensures FieldsEnd(fields, packed, 0) == 0
  {
  }

  /** A struct with an alignment of its own has it from one of its fields. */
  lemma {:induction false} AlignIsAttained(fields: seq<IrType>, n: nat)
    requires n <= |fields| && MaxAlign(fields, n) > 1
    ensures exists i :: 0 <= i < n && Align(fields[i]) == MaxAlign(fields, n)
  {
    if Align(fields[n - 1]) != MaxAlign(fields, n) {
      AlignIsAttained(fields, n - 1);
    }
  }

  /** An array is its elements, one after the other. */
  lemma {:induction false} ArrayIsElements(elem: IrType, n: nat)
    ensures Size(Array(elem, 0)) == 0 && Size(Array(elem, n + 1)) == Size(Array(elem, n)) + Size(elem)
    ensures Align(Array(elem, n)) == Align(elem)
  {
  }
}
