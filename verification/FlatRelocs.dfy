/** The exact condition for relocation entries of flat struct and array initialisers. */
module FlatRelocs {
  import opened Wrappers
  import opened Bytes
  import opened TypeLayout
  import opened ConstantData
  import opened ConstantRelocs

  /** No part is itself an aggregate. */
  predicate Flat(parts: seq<Constant>) {
    forall i :: 0 <= i < |parts| ==> !parts[i].Fields? && !parts[i].Elements?
  }

  /** A shift that respects every alignment that `at` respects. */
  predicate Follows(at: nat, drift: int) {
    && (at % 2 == 0 ==> drift % 2 == 0) && (at % 4 == 0 ==> drift % 4 == 0)
    && (at % 8 == 0 ==> drift % 8 == 0) && (at % 16 == 0 ==> drift % 16 == 0)
  }

  lemma {:induction false} FollowsOne(at: nat, drift: int, a: nat)
    requires Follows(at, drift) && a in {1, 2, 4, 8, 16} && at % a == 0
    ensures drift % a == 0
  {
  }

  /** Aligning at an alignment that `at` respects moves both offsets alike. */
  lemma {:induction false} AlignedAlike(at: nat, x: nat, e: nat, a: nat)
    requires a in {1, 2, 4, 8, 16} && at % a == 0 && Follows(at, x - at - e)
    ensures AlignUp(x, a) - at - AlignUp(e, a) == x - at - e
  {
    var drift := x - at - e;
    FollowsOne(at, drift, a);
    hide AlignUp, Follows;
    SumAligned(at, drift, a);
    SumAligned(at + drift, AlignUp(e, a), a);
    NearMultiples(AlignUp(x, a), at + drift + AlignUp(e, a), a);
  }

  lemma {:induction false} SmallerDivides(at: nat, multiple: int, a: nat, b: nat)
    requires a in {1, 2, 4, 8, 16} && b in {1, 2, 4, 8, 16} && at % a != 0 && at % b == 0 && multiple % a == 0
    ensures (multiple - at) % b == 0
  {
    if a <= b {
      AlignDivides(a, b, at);
    }
    AlignDivides(b, a, multiple);
    SumAligned(multiple, at, b);
  }

  /** Aligning at an alignment that `at` does not respect sets them apart. */
  lemma {:induction false} AlignedApart(at: nat, x: nat, e: nat, a: nat)
    requires a in {1, 2, 4, 8, 16} && at % a != 0
    ensures var drift := AlignUp(x, a) - at - AlignUp(e, a); drift != 0 && Follows(at, drift)
  {
    var multiple := AlignUp(x, a) - AlignUp(e, a);
    SumAligned(AlignUp(x, a), AlignUp(e, a), a);
    hide AlignUp;
    if at % 2 == 0 {
      SmallerDivides(at, multiple, a, 2);
    }
    if at % 4 == 0 {
      SmallerDivides(at, multiple, a, 4);
    }
    if at % 8 == 0 {
      SmallerDivides(at, multiple, a, 8);
    }
    if at % 16 == 0 {
      SmallerDivides(at, multiple, a, 16);
    }
  }

  /** How far the collector is off after `n` fields. */
  function FieldDrift(fields: seq<Constant>, n: nat, at: nat, ty: Option<IrType>): int
    requires n <= |fields|
  {
    FieldRelocs(fields, n, at, ty).0 - at - |EmitFields(fields, n, ty, PLACEHOLDER)|
  }

  lemma {:induction false} DriftStep(fields: seq<Constant>, n: nat, at: nat, ty: Option<IrType>)
    requires 0 < n <= |fields|
    ensures var x, e := FieldRelocs(fields, n - 1, at, ty).0, |EmitFields(fields, n - 1, ty, PLACEHOLDER)|;
      && FieldDrift(fields, n, at, ty) == x + Gap(ty, n - 1, x) - at - (e + Gap(ty, n - 1, e))
      && FieldStart(fields, n - 1, ty) == e + Gap(ty, n - 1, e)
  {
    hide Gap, Emit;
  }

  /** Once a struct has met a field for which it is not aligned, the collector never recovers. */
  lemma {:induction false} DriftStays(fields: seq<Constant>, n: nat, at: nat, ty: Option<IrType>)
    requires 0 < n <= |fields| && !AlignedFor(ty, n - 1, at)
    ensures FieldDrift(fields, n, at, ty) != 0 && Follows(at, FieldDrift(fields, n, at, ty))
    decreases n
  {
    hide FieldRelocs, EmitFields, AlignUp, Follows, Align;
    DriftStep(fields, n, at, ty);
    var x, e := FieldRelocs(fields, n - 1, at, ty).0, |EmitFields(fields, n - 1, ty, PLACEHOLDER)|;
    var i := n - 1;
    if i < |ty.value.fields| && at % Align(ty.value.fields[i]) != 0 {
      AlignedApart(at, x, e, Align(ty.value.fields[i]));
    } else {
      assert i > 0 && !AlignedFor(ty, i - 1, at);
      DriftStays(fields, i, at, ty);
      if i < |ty.value.fields| {
        AlignedAlike(at, x, e, Align(ty.value.fields[i]));
      }
    }
  }

  lemma {:induction false} ScalarPart(c: Constant, x: nat, y: nat, ty: Option<IrType>)
    requires !c.Fields? && !c.Elements?
    ensures |Relocs(c, x, ty)| == |Places(c, y, ty)|
    ensures HasRef(c) && Relocs(c, x, ty) == Places(c, y, ty) ==> x == y
  {
    if c.GlobalRef? {
      assert Relocs(c, x, ty)[0].offset == x && Places(c, y, ty)[0].offset == y;
    } else if c.GlobalRefOffset? {
      assert Relocs(c, x, ty)[0].offset == x && Places(c, y, ty)[0].offset == y;
    }
  }

  lemma {:induction false} SplitEqual(a: seq<Reloc>, b: seq<Reloc>, c: seq<Reloc>, d: seq<Reloc>)
    requires a + b == c + d && |b| == |d|
    ensures a == c && b == d
  {
    assert |a + b| == |c + d|;
    assert a == (a + b)[..|a|] && c == (c + d)[..|c|];
    assert b == (a + b)[|a|..] && d == (c + d)[|c|..];
  }

  lemma {:induction false} FlatFieldsAligned(fields: seq<Constant>, n: nat, at: nat, ty: Option<IrType>)
    requires Flat(fields) && n <= |fields| && FieldRelocs(fields, n, at, ty).1 == FieldPlaces(fields, n, at, ty)
    ensures forall i :: 0 <= i < n && HasRef(fields[i]) ==> AlignedFor(ty, i, at)
    decreases n
  {
    hide AlignedFor, HasRef, Relocs, Places, FieldRelocs, FieldPlaces, Gap, FieldStart, EmitFields;
    if n > 0 {
      FieldStep(fields, n, at, ty);
      DriftStep(fields, n, at, ty);
      var before, c, ft := FieldRelocs(fields, n - 1, at, ty), fields[n - 1], FieldType(ty, n - 1);
      var x, y := before.0 + Gap(ty, n - 1, before.0), at + FieldStart(fields, n - 1, ty);
      ScalarPart(c, x, y, ft);
      SplitEqual(before.1, Relocs(c, x, ft), FieldPlaces(fields, n - 1, at, ty), Places(c, y, ft));
      FlatFieldsAligned(fields, n - 1, at, ty);
      if HasRef(c) && !AlignedFor(ty, n - 1, at) {
        DriftStays(fields, n, at, ty);
      }
    }
  }

  lemma {:induction false} FlatMirrors(parts: seq<Constant>, at: nat, ty: Option<IrType>)
    requires Flat(parts)
    ensures Mirrors(Fields(parts), at, ty)
       <==> forall i :: 0 <= i < |parts| && HasRef(parts[i]) ==> AlignedFor(ty, i, at)
    ensures Mirrors(Elements(parts), at, ty)
       <==> forall i :: 0 <= i < |parts| && HasRef(parts[i]) ==> FullWidth(parts, i, ty)
  {
    hide AlignedFor, FullWidth, HasRef, FieldStart, ElementStart;
  }

  /** For a flat struct initialiser, of whatever type, the entries are right exactly when the struct is
      aligned for every field up to its last reference. */
  lemma {:induction false} FlatStructExact(fields: seq<Constant>, at: nat, ty: Option<IrType>)
    requires Flat(fields)
    ensures Relocs(Fields(fields), at, ty) == Places(Fields(fields), at, ty)
       <==> forall i :: 0 <= i < |fields| && HasRef(fields[i]) ==> AlignedFor(ty, i, at)
  {
    FlatMirrors(fields, at, ty);
    hide AlignedFor, HasRef, Mirrors, FieldRelocs, FieldPlaces;
    if Relocs(Fields(fields), at, ty) == Places(Fields(fields), at, ty) {
      FlatFieldsAligned(fields, |fields|, at, ty);
    }
    if Mirrors(Fields(fields), at, ty) {
      RelocsArePlaces(Fields(fields), at, ty);
    }
  }

  lemma {:induction false} CollectorLags(elements: seq<Constant>, n: nat, at: nat, ty: Option<IrType>)
    requires n <= |elements|
    ensures ElementRelocs(elements, n, at, ty).0 <= at + |EmitElements(elements, n, ty, PLACEHOLDER)|
    ensures ElementRelocs(elements, n, at, ty).0 == at + |EmitElements(elements, n, ty, PLACEHOLDER)|
         ==> FullWidth(elements, n, ty)
    decreases n
  {
    hide Emit;
    if n > 0 {
      CollectorLags(elements, n - 1, at, ty);
    }
  }

  lemma {:induction false} FlatElementsFull(elements: seq<Constant>, n: nat, at: nat, ty: Option<IrType>)
    requires Flat(elements) && n <= |elements|
    requires ElementRelocs(elements, n, at, ty).1 == ElementPlaces(elements, n, at, ty)
    ensures forall i :: 0 <= i < n && HasRef(elements[i]) ==> FullWidth(elements, i, ty)
    decreases n
  {
    hide FullWidth, HasRef, Relocs, Places, ElementRelocs, ElementPlaces, EmitElements;
    if n > 0 {
      ElementStep(elements, n, at, ty);
      var before, c, et := ElementRelocs(elements, n - 1, at, ty), elements[n - 1], ElementType(ty);
      var y := at + ElementStart(elements, n - 1, ty);
      ScalarPart(c, before.0, y, et);
      SplitEqual(before.1, Relocs(c, before.0, et), ElementPlaces(elements, n - 1, at, ty), Places(c, y, et));
      FlatElementsFull(elements, n - 1, at, ty);
      CollectorLags(elements, n - 1, at, ty);
    }
  }

  /** For a flat array initialiser they are right exactly when every element before the last reference
      has full width. */
  lemma {:induction false} FlatArrayExact(elements: seq<Constant>, at: nat, ty: Option<IrType>)
    requires Flat(elements)
    ensures Relocs(Elements(elements), at, ty) == Places(Elements(elements), at, ty)
       <==> forall i :: 0 <= i < |elements| && HasRef(elements[i]) ==> FullWidth(elements, i, ty)
  {
    FlatMirrors(elements, at, ty);
    hide FullWidth, HasRef, Mirrors, ElementRelocs, ElementPlaces;
    if Relocs(Elements(elements), at, ty) == Places(Elements(elements), at, ty) {
      FlatElementsFull(elements, |elements|, at, ty);
    }
    if Mirrors(Elements(elements), at, ty) {
      RelocsArePlaces(Elements(elements), at, ty);
    }
  }
}
