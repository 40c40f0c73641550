/** Relocation entries of constants: patching the collected places gives the data with every reference
    resolved. */
module ConstantRelocs {
  import opened Wrappers
  import opened Bytes
  import opened TypeLayout
  import opened ConstantData

  /** Store a word. */
  function Put(b: seq<byte>, at: nat, w: Word8): (r: seq<byte>)
    ensures |r| == |b|
  {
    if at + 8 <= |b| then b[..at] + w + b[at + 8..] else b
  }

  /** What the linker does with the entries of a section. */
  function Linked(section: seq<byte>, relocs: seq<Reloc>, resolve: Resolver): (r: seq<byte>)
    ensures |r| == |section|
  {
    if relocs == [] then section
    else
      var last := relocs[|relocs| - 1];
      Put(Linked(section, relocs[..|relocs| - 1], resolve), last.offset, resolve(last.name, last.addend))
  }

  // ---- where the serialiser puts its placeholders ----

  function FieldStart(fields: seq<Constant>, i: nat, ty: Option<IrType>): nat
    requires i < |fields|
  {
    var before := |EmitFields(fields, i, ty, PLACEHOLDER)|;
    before + Gap(ty, i, before)
  }

  function ElementStart(elements: seq<Constant>, i: nat, ty: Option<IrType>): nat
    requires i < |elements|
  {
    |EmitElements(elements, i, ty, PLACEHOLDER)|
  }

  /** One entry per reference, at the offset of its placeholder when the constant starts at `at`. */
  function Places(c: Constant, at: nat, ty: Option<IrType>): seq<Reloc>
    decreases c, 0
  {
    match c
    case GlobalRef(name) => [Reloc(at, name, 0)]
    case GlobalRefOffset(name, addend) => [Reloc(at, name, addend)]
    case Fields(fields) => FieldPlaces(fields, |fields|, at, ty)
    case Elements(elements) => ElementPlaces(elements, |elements|, at, ty)
    case _ => []
  }

  function FieldPlaces(fields: seq<Constant>, n: nat, at: nat, ty: Option<IrType>): seq<Reloc>
    requires n <= |fields|
    decreases fields, n
  {
    if n == 0 then []
    else FieldPlaces(fields, n - 1, at, ty)
         + Places(fields[n - 1], at + FieldStart(fields, n - 1, ty), FieldType(ty, n - 1))
  }

  function ElementPlaces(elements: seq<Constant>, n: nat, at: nat, ty: Option<IrType>): seq<Reloc>
    requires n <= |elements|
    decreases elements, n
  {
    if n == 0 then []
    else ElementPlaces(elements, n - 1, at, ty)
         + Places(elements[n - 1], at + ElementStart(elements, n - 1, ty), ElementType(ty))
  }

  // ---- resolving changes no length ----

  lemma {:induction false} SameLength(c: Constant, ty: Option<IrType>, resolve: Resolver)
    ensures |Emit(c, ty, resolve)| == |ConstantBytes(c, ty)|
    decreases c, 0
  {
    match c
    case Fields(fields) => SameFieldsLength(fields, |fields|, ty, resolve);
    case Elements(elements) => SameElementsLength(elements, |elements|, ty, resolve);
    case _ =>
  }

  lemma {:induction false} SameFieldsLength(fields: seq<Constant>, n: nat, ty: Option<IrType>, resolve: Resolver)
    requires n <= |fields|
    ensures |EmitFields(fields, n, ty, resolve)| == |EmitFields(fields, n, ty, PLACEHOLDER)|
    decreases fields, n
  {
    hide Gap, Emit;
    if n > 0 {
      SameFieldsLength(fields, n - 1, ty, resolve);
      SameLength(fields[n - 1], FieldType(ty, n - 1), resolve);
    }
  }

  lemma {:induction false} SameElementsLength(elements: seq<Constant>, n: nat, ty: Option<IrType>, resolve: Resolver)
    requires n <= |elements|
    ensures |EmitElements(elements, n, ty, resolve)| == |EmitElements(elements, n, ty, PLACEHOLDER)|
    decreases elements, n
  {
    hide Emit;
    if n > 0 {
      SameElementsLength(elements, n - 1, ty, resolve);
      SameLength(elements[n - 1], ElementType(ty), resolve);
    }
  }

  // ---- the places lie inside, in order, and hold zeros ----

  ghost predicate Inside(ps: seq<Reloc>, lo: nat, hi: nat) {
    forall k :: 0 <= k < |ps| ==> lo <= ps[k].offset && ps[k].offset + 8 <= hi
  }

  /** No two places share a byte. */
  ghost predicate InOrder(ps: seq<Reloc>) {
    forall j, k :: 0 <= j < k < |ps| ==> ps[j].offset + 8 <= ps[k].offset
  }

  lemma {:induction false} Joined(ps: seq<Reloc>, qs: seq<Reloc>, lo: nat, mid: nat, mid': nat, hi: nat)
    requires Inside(ps, lo, mid) && InOrder(ps) && Inside(qs, mid', hi) && InOrder(qs) && lo <= mid <= mid' <= hi
    ensures Inside(ps + qs, lo, hi) && InOrder(ps + qs)
  {
  }

  lemma {:induction false} InsideWider(ps: seq<Reloc>, lo: nat, hi: nat, hi': nat)
    requires Inside(ps, lo, hi) && hi <= hi'
    ensures Inside(ps, lo, hi')
  {
  }

  lemma {:induction false} FewPlaces(p: Reloc)
    ensures Inside([], 0, 0) && InOrder([]) && Inside([p], p.offset, p.offset + 8) && InOrder([p])
    ensures forall at: nat, n: nat :: Inside([], at, n)
  {
  }

  lemma {:induction false} PartsWithin(c: Constant, ty: Option<IrType>)
    ensures c.GlobalRef? || c.GlobalRefOffset? ==> |ConstantBytes(c, ty)| == 8
    ensures c.Fields? ==> |EmitFields(c.fields, |c.fields|, ty, PLACEHOLDER)| <= |ConstantBytes(c, ty)|
    ensures c.Elements? ==> |EmitElements(c.elements, |c.elements|, ty, PLACEHOLDER)| <= |ConstantBytes(c, ty)|
  {
    hide EmitFields, EmitElements, Size;
  }

  lemma {:induction false} PlacesFit(c: Constant, at: nat, ty: Option<IrType>)
    ensures Inside(Places(c, at, ty), at, at + |ConstantBytes(c, ty)|) && InOrder(Places(c, at, ty))
    decreases c, 0
  {
    hide Inside, InOrder, ConstantBytes, EmitFields, EmitElements;
    PartsWithin(c, ty);
    match c
    case Fields(fields) =>
      FieldPlacesFit(fields, |fields|, at, ty);
      InsideWider(Places(c, at, ty), at, at + |EmitFields(fields, |fields|, ty, PLACEHOLDER)|,
                  at + |ConstantBytes(c, ty)|);
    case Elements(elements) =>
      ElementPlacesFit(elements, |elements|, at, ty);
      InsideWider(Places(c, at, ty), at, at + |EmitElements(elements, |elements|, ty, PLACEHOLDER)|,
                  at + |ConstantBytes(c, ty)|);
    case GlobalRef(name) => FewPlaces(Reloc(at, name, 0));
    case GlobalRefOffset(name, addend) => FewPlaces(Reloc(at, name, addend));
    case _ => FewPlaces(Reloc(at, "", 0));
  }

  lemma {:induction false} FieldPlacesFit(fields: seq<Constant>, n: nat, at: nat, ty: Option<IrType>)
    requires n <= |fields|
    ensures var ps := FieldPlaces(fields, n, at, ty);
      Inside(ps, at, at + |EmitFields(fields, n, ty, PLACEHOLDER)|) && InOrder(ps)
    decreases fields, n
  {
    hide Gap, Emit, Places, Inside, InOrder;
    FewPlaces(Reloc(0, "", 0));
    if n > 0 {
      FieldPlacesFit(fields, n - 1, at, ty);
      var start := at + FieldStart(fields, n - 1, ty);
      PlacesFit(fields[n - 1], start, FieldType(ty, n - 1));
      Joined(FieldPlaces(fields, n - 1, at, ty), Places(fields[n - 1], start, FieldType(ty, n - 1)),
             at, at + |EmitFields(fields, n - 1, ty, PLACEHOLDER)|, start,
                 at + |EmitFields(fields, n, ty, PLACEHOLDER)|);
    }
  }

  lemma {:induction false} ElementFits(elements: seq<Constant>, n: nat, ty: Option<IrType>)
    requires 0 < n <= |elements|
    ensures ElementStart(elements, n - 1, ty) + |ConstantBytes(elements[n - 1], ElementType(ty))|
         <= |EmitElements(elements, n, ty, PLACEHOLDER)|
  {
    hide Emit;
  }

  lemma {:induction false} NoElements(elements: seq<Constant>, ty: Option<IrType>)
    ensures EmitElements(elements, 0, ty, PLACEHOLDER) == []
  {
  }

  lemma {:induction false} ElementPlacesFit(elements: seq<Constant>, n: nat, at: nat, ty: Option<IrType>)
    requires n <= |elements|
    ensures var ps := ElementPlaces(elements, n, at, ty);
      Inside(ps, at, at + |EmitElements(elements, n, ty, PLACEHOLDER)|) && InOrder(ps)
    decreases elements, n
  {
    hide EmitElements, ConstantBytes, Places, Inside, InOrder;
    FewPlaces(Reloc(0, "", 0));
    NoElements(elements, ty);
    if n > 0 {
      ElementPlacesFit(elements, n - 1, at, ty);
      var start := at + ElementStart(elements, n - 1, ty);
      PlacesFit(elements[n - 1], start, ElementType(ty));
      ElementFits(elements, n, ty);
      InsideWider(Places(elements[n - 1], start, ElementType(ty)), start,
                  start + |ConstantBytes(elements[n - 1], ElementType(ty))|,
                  at + |EmitElements(elements, n, ty, PLACEHOLDER)|);
      Joined(ElementPlaces(elements, n - 1, at, ty), Places(elements[n - 1], start, ElementType(ty)),
             at, start, start, at + |EmitElements(elements, n, ty, PLACEHOLDER)|);
    }
  }

  // ---- patching the places ----

  lemma {:induction false} LinkedSplit(section: seq<byte>, ps: seq<Reloc>, qs: seq<Reloc>, resolve: Resolver)
    ensures Linked(section, ps + qs, resolve) == Linked(Linked(section, ps, resolve), qs, resolve)
    decreases |qs|
  {
    if qs == [] {
      assert ps + qs == ps;
    } else {
      var front := qs[..|qs| - 1];
      LinkedSplit(section, ps, front, resolve);
      assert (ps + qs)[..|ps + qs| - 1] == ps + front;
    }
  }

  /** Entries inside a prefix do not touch the rest. */
  lemma {:induction false} LinkedPrefix(section: seq<byte>, more: seq<byte>, ps: seq<Reloc>, resolve: Resolver)
    requires Inside(ps, 0, |section|)
    ensures Linked(section + more, ps, resolve) == Linked(section, ps, resolve) + more
    decreases |ps|
  {
    if ps != [] {
      var front, last := ps[..|ps| - 1], ps[|ps| - 1];
      LinkedPrefix(section, more, front, resolve);
      PutPrefix(Linked(section, front, resolve), more, last.offset, resolve(last.name, last.addend));
    }
  }

  lemma {:induction false} PutPrefix(b: seq<byte>, more: seq<byte>, at: nat, w: Word8)
    requires at + 8 <= |b|
    ensures Put(b + more, at, w) == Put(b, at, w) + more
  {
    assert (b + more)[..at] == b[..at];
    assert (b + more)[at + 8..] == b[at + 8..] + more;
  }

  lemma {:induction false} PutAtEnd(pre: seq<byte>, w: Word8)
    ensures Put(pre + Zeros(8), |pre|, w) == pre + w
  {
  }

  /** Patching every placeholder of a constant gives the data with every reference resolved. */
  lemma {:induction false} PatchingResolves(c: Constant, ty: Option<IrType>, pre: seq<byte>, resolve: Resolver)
    ensures Linked(pre + ConstantBytes(c, ty), Places(c, |pre|, ty), resolve) == pre + Emit(c, ty, resolve)
    decreases c, 0
  {
    hide Linked, Inside, InOrder, EmitFields, EmitElements, FieldPlaces, ElementPlaces;
    match c
    case Fields(fields) =>
      PatchFields(fields, |fields|, ty, pre, resolve);
      FieldPlacesFit(fields, |fields|, |pre|, ty);
      SameFieldsLength(fields, |fields|, ty, resolve);
      PaddedPatch(pre, EmitFields(fields, |fields|, ty, PLACEHOLDER), EmitFields(fields, |fields|, ty, resolve),
                  FieldPlaces(fields, |fields|, |pre|, ty), SizeOf(ty), resolve);
    case Elements(elements) =>
      PatchElements(elements, |elements|, ty, pre, resolve);
      ElementPlacesFit(elements, |elements|, |pre|, ty);
      SameElementsLength(elements, |elements|, ty, resolve);
      PaddedPatch(pre, EmitElements(elements, |elements|, ty, PLACEHOLDER),
                  EmitElements(elements, |elements|, ty, resolve),
                  ElementPlaces(elements, |elements|, |pre|, ty),
                  if ty.Some? && ty.value.Array? then Size(ty.value) else 0, resolve);
    case GlobalRef(name) => OneReference(pre, Reloc(|pre|, name, 0), resolve);
    case GlobalRefOffset(name, addend) => OneReference(pre, Reloc(|pre|, name, addend), resolve);
    case _ => NothingLinked(pre + ConstantBytes(c, ty), resolve);
  }

  lemma {:induction false} OneReference(pre: seq<byte>, p: Reloc, resolve: Resolver)
    requires p.offset == |pre|
    ensures Linked(pre + Zeros(8), [p], resolve) == pre + resolve(p.name, p.addend)
  {
    assert [p][..|[p]| - 1] == [];
    PutAtEnd(pre, resolve(p.name, p.addend));
  }

  lemma {:induction false} PaddedPatch(pre: seq<byte>, before: seq<byte>, after: seq<byte>, ps: seq<Reloc>, n: nat,
                                       resolve: Resolver)
    requires Linked(pre + before, ps, resolve) == pre + after && |before| == |after|
    requires Inside(ps, |pre|, |pre| + |before|)
    ensures Linked(pre + PadTo(before, n), ps, resolve) == pre + PadTo(after, n)
  {
    if |before| < n {
      var pad := Zeros(n - |before|);
      LinkedPrefix(pre + before, pad, ps, resolve);
      assert pre + PadTo(before, n) == (pre + before) + pad;
      assert pre + PadTo(after, n) == (pre + after) + pad;
    }
  }

  lemma {:induction false} PatchFields(fields: seq<Constant>, n: nat, ty: Option<IrType>, pre: seq<byte>,
                                       resolve: Resolver)
    requires n <= |fields|
    ensures Linked(pre + EmitFields(fields, n, ty, PLACEHOLDER), FieldPlaces(fields, n, |pre|, ty), resolve)
         == pre + EmitFields(fields, n, ty, resolve)
    decreases fields, n
  {
    hide Gap, Emit, Places, Linked;
    if n == 0 {
      NothingLinked(pre, resolve);
    } else {
      PatchFields(fields, n - 1, ty, pre, resolve);
      FieldPlacesFit(fields, n - 1, |pre|, ty);
      SameFieldsLength(fields, n - 1, ty, resolve);
      var front, front' := EmitFields(fields, n - 1, ty, PLACEHOLDER), EmitFields(fields, n - 1, ty, resolve);
      var gap, ft := Zeros(Gap(ty, n - 1, |front|)), FieldType(ty, n - 1);
      PatchingResolves(fields[n - 1], ft, pre + front' + gap, resolve);
      PatchStep(pre, front, front', gap, ConstantBytes(fields[n - 1], ft), Emit(fields[n - 1], ft, resolve),
                FieldPlaces(fields, n - 1, |pre|, ty),
                    Places(fields[n - 1], |pre| + FieldStart(fields, n - 1, ty), ft), resolve);
    }
  }

  lemma {:induction false} NothingLinked(pre: seq<byte>, resolve: Resolver)
    ensures Linked(pre, [], resolve) == pre && pre + [] == pre
  {
  }

  /** Patch the front, then the last part behind the patched front. */
  lemma {:induction false} PatchStep(pre: seq<byte>, front: seq<byte>, front': seq<byte>, gap: seq<byte>,
                                     last: seq<byte>, last': seq<byte>, ps: seq<Reloc>, qs: seq<Reloc>,
                                     resolve: Resolver)
    requires Linked(pre + front, ps, resolve) == pre + front' && Inside(ps, |pre|, |pre| + |front|)
    requires Linked(pre + front' + gap + last, qs, resolve) == pre + front' + gap + last'
    ensures Linked(pre + (front + gap + last), ps + qs, resolve) == pre + (front' + gap + last')
  {
    hide Linked, Inside;
    var whole := pre + (front + gap + last);
    Regroup(pre, front, gap, last);
    InsideLower(ps, |pre|, |pre + front|);
    LinkedPrefix(pre + front, gap + last, ps, resolve);
    LinkedSplit(whole, ps, qs, resolve);
    Regroup(pre, front', gap, last);
    Regroup(pre, front', gap, last');
  }

  lemma {:induction false} InsideLower(ps: seq<Reloc>, lo: nat, hi: nat)
    requires Inside(ps, lo, hi)
    ensures Inside(ps, 0, hi)
  {
  }

  lemma {:induction false} Regroup(a: seq<byte>, b: seq<byte>, c: seq<byte>, d: seq<byte>)
    ensures a + (b + c + d) == (a + b) + (c + d)
    ensures a + b + c + d == (a + b) + (c + d)
  {
    assert (b + c) + d == b + (c + d);
    assert a + (b + (c + d)) == (a + b) + (c + d);
  }

  lemma {:induction false} PatchElements(elements: seq<Constant>, n: nat, ty: Option<IrType>, pre: seq<byte>,
                                         resolve: Resolver)
    requires n <= |elements|
    ensures Linked(pre + EmitElements(elements, n, ty, PLACEHOLDER), ElementPlaces(elements, n, |pre|, ty), resolve)
         == pre + EmitElements(elements, n, ty, resolve)
    decreases elements, n
  {
    hide Emit, Places, Linked, Inside, InOrder, PadTo;
    if n == 0 {
      NothingLinked(pre, resolve);
    } else {
      PatchElements(elements, n - 1, ty, pre, resolve);
      ElementPlacesFit(elements, n - 1, |pre|, ty);
      SameElementsLength(elements, n - 1, ty, resolve);
      var front, front' := EmitElements(elements, n - 1, ty, PLACEHOLDER), EmitElements(elements, n - 1, ty, resolve);
      var et := ElementType(ty);
      var last, last' := ConstantBytes(elements[n - 1], et), Emit(elements[n - 1], et, resolve);
      var qs := Places(elements[n - 1], |pre| + ElementStart(elements, n - 1, ty), et);
      PatchingResolves(elements[n - 1], et, pre + front', resolve);
      SameLength(elements[n - 1], et, resolve);
      PlacesFit(elements[n - 1], |pre + front'|, et);
      PaddedPatch(pre + front', last, last', qs, SizeOf(et), resolve);
      assert pre + front' + [] == pre + front';
      PatchStep(pre, front, front', [], PadTo(last, SizeOf(et)), PadTo(last', SizeOf(et)),
                ElementPlaces(elements, n - 1, |pre|, ty), qs, resolve);
      assert front + [] == front && front' + [] == front';
    }
  }

  // ---- what ends up at a place ----

  lemma {:induction false} LinkedAt(section: seq<byte>, ps: seq<Reloc>, k: nat, resolve: Resolver)
    requires InOrder(ps) && Inside(ps, 0, |section|) && k < |ps|
    ensures Occupies(Linked(section, ps, resolve), ps[k].offset, resolve(ps[k].name, ps[k].addend))
    decreases |ps|
  {
    hide Occupies;
    var front, last := ps[..|ps| - 1], ps[|ps| - 1];
    var before := Linked(section, front, resolve);
    if k < |front| {
      LinkedAt(section, front, k, resolve);
      assert ps[k].offset + 8 <= last.offset;
      PutBehind(before, last.offset, resolve(last.name, last.addend), ps[k].offset, resolve(ps[k].name, ps[k].addend));
    } else {
      PutThere(before, last.offset, resolve(last.name, last.addend));
    }
  }

  lemma {:induction false} PutThere(b: seq<byte>, at: nat, w: Word8)
    requires at + 8 <= |b|
    ensures Occupies(Put(b, at, w), at, w)
  {
  }

  lemma {:induction false} PutBehind(b: seq<byte>, at: nat, w: Word8, at': nat, w': Word8)
    requires at' + 8 <= at && at + 8 <= |b| && Occupies(b, at', w')
    ensures Occupies(Put(b, at, w), at', w')
  {
    assert Put(b, at, w)[at'..at' + 8] == b[at'..at' + 8];
  }

  /** Every place is in range and holds the eight bytes emitted for its reference: the resolved address,
      or zeros in the compiler's own output. */
  lemma {:induction false} ReferenceAtItsPlace(c: Constant, ty: Option<IrType>, k: nat, resolve: Resolver)
    requires k < |Places(c, 0, ty)|
    ensures var p := Places(c, 0, ty)[k];
      && Occupies(Emit(c, ty, resolve), p.offset, resolve(p.name, p.addend))
      && Occupies(ConstantBytes(c, ty), p.offset, Zeros(8))
  {
    hide Linked, Places, Emit, Occupies;
    PlacesFit(c, 0, ty);
    PatchingResolves(c, ty, [], resolve);
    PatchingResolves(c, ty, [], PLACEHOLDER);
    assert [] + ConstantBytes(c, ty) == ConstantBytes(c, ty) && [] + Emit(c, ty, resolve) == Emit(c, ty, resolve);
    LinkedAt(ConstantBytes(c, ty), Places(c, 0, ty), k, resolve);
    LinkedAt(ConstantBytes(c, ty), Places(c, 0, ty), k, PLACEHOLDER);
  }

  // ---- when the collector's offsets are the serialiser's ----

  predicate HasRef(c: Constant) {
    match c
    case GlobalRef(_) => true
    case GlobalRefOffset(_, _) => true
    case Fields(fields) => exists i :: 0 <= i < |fields| && HasRef(fields[i])
    case Elements(elements) => exists i :: 0 <= i < |elements| && HasRef(elements[i])
    case _ => false
  }

  /** A struct at `at` is aligned for its fields up to and including field `i`. */
  predicate AlignedFor(ty: Option<IrType>, i: nat, at: nat) {
    ty.Some? && ty.value.Struct? && !ty.value.packed ==>
      forall j :: 0 <= j <= i && j < |ty.value.fields| ==> at % Align(ty.value.fields[j]) == 0
  }

  /** None of the first `i` elements is shorter than its slot. */
  predicate FullWidth(elements: seq<Constant>, i: nat, ty: Option<IrType>)
    requires i <= |elements|
  {
    forall j :: 0 <= j < i ==> |ConstantBytes(elements[j], ElementType(ty))| >= SizeOf(ElementType(ty))
  }

  /** Up to every reference, structs start aligned and elements have full width. */
  predicate Mirrors(c: Constant, at: nat, ty: Option<IrType>)
    decreases c
  {
    match c
    case Fields(fields) =>
      forall i :: 0 <= i < |fields| && HasRef(fields[i]) ==>
        AlignedFor(ty, i, at) && Mirrors(fields[i], at + FieldStart(fields, i, ty), FieldType(ty, i))
    case Elements(elements) =>
      forall i :: 0 <= i < |elements| && HasRef(elements[i]) ==>
        FullWidth(elements, i, ty) && Mirrors(elements[i], at + ElementStart(elements, i, ty), ElementType(ty))
    case _ => true
  }

  lemma {:induction false} NothingToCollect(c: Constant, at: nat, at': nat, ty: Option<IrType>)
    requires !HasRef(c)
    ensures Relocs(c, at, ty) == [] && Places(c, at', ty) == []
    decreases c, 0
  {
    match c
    case Fields(fields) => NoFieldRefs(fields, |fields|, at, at', ty);
    case Elements(elements) => NoElementRefs(elements, |elements|, at, at', ty);
    case _ =>
  }

  lemma {:induction false} NoFieldRefs(fields: seq<Constant>, n: nat, at: nat, at': nat, ty: Option<IrType>)
    requires n <= |fields| && !HasRef(Fields(fields))
    ensures FieldRelocs(fields, n, at, ty).1 == [] && FieldPlaces(fields, n, at', ty) == []
    decreases fields, n
  {
    hide Gap, ConstantBytes, EmitFields;
    if n > 0 {
      NoFieldRefs(fields, n - 1, at, at', ty);
      var before := FieldRelocs(fields, n - 1, at, ty).0;
      NothingToCollect(fields[n - 1], before + Gap(ty, n - 1, before), at' + FieldStart(fields, n - 1, ty),
                       FieldType(ty, n - 1));
    }
  }

  lemma {:induction false} NoElementRefs(elements: seq<Constant>, n: nat, at: nat, at': nat, ty: Option<IrType>)
    requires n <= |elements| && !HasRef(Elements(elements))
    ensures ElementRelocs(elements, n, at, ty).1 == [] && ElementPlaces(elements, n, at', ty) == []
    decreases elements, n
  {
    hide ConstantBytes, EmitElements;
    if n > 0 {
      NoElementRefs(elements, n - 1, at, at', ty);
      NothingToCollect(elements[n - 1], ElementRelocs(elements, n - 1, at, ty).0,
                       at' + ElementStart(elements, n - 1, ty),
                       ElementType(ty));
    }
  }

  lemma {:induction false} GapShifts(ty: Option<IrType>, i: nat, at: nat, x: nat)
    requires AlignedFor(ty, i, at)
    ensures Gap(ty, i, at + x) == Gap(ty, i, x)
  {
    if ty.Some? && ty.value.Struct? && !ty.value.packed && i < |ty.value.fields| {
      AlignUpShifts(at, x, Align(ty.value.fields[i]));
    }
  }

  lemma {:induction false} CollectorKeepsStep(fields: seq<Constant>, n: nat, at: nat, ty: Option<IrType>)
    requires n <= |fields| && (n > 0 ==> AlignedFor(ty, n - 1, at))
    ensures FieldRelocs(fields, n, at, ty).0 == at + |EmitFields(fields, n, ty, PLACEHOLDER)|
    decreases n
  {
    hide Gap, Emit;
    if n > 0 {
      if n > 1 {
        assert AlignedFor(ty, n - 2, at);
      }
      CollectorKeepsStep(fields, n - 1, at, ty);
      GapShifts(ty, n - 1, at, |EmitFields(fields, n - 1, ty, PLACEHOLDER)|);
    }
  }

  lemma {:induction false} CollectorKeepsUp(elements: seq<Constant>, n: nat, at: nat, ty: Option<IrType>)
    requires n <= |elements| && FullWidth(elements, n, ty)
    ensures ElementRelocs(elements, n, at, ty).0 == at + |EmitElements(elements, n, ty, PLACEHOLDER)|
    decreases n
  {
    hide Emit;
    if n > 0 {
      CollectorKeepsUp(elements, n - 1, at, ty);
    }
  }

  /** The collector reports exactly the places of the placeholders. */
  lemma {:induction false} RelocsArePlaces(c: Constant, at: nat, ty: Option<IrType>)
    requires Mirrors(c, at, ty)
    ensures Relocs(c, at, ty) == Places(c, at, ty)
    decreases c, 0
  {
    match c
    case Fields(fields) => FieldRelocsArePlaces(fields, |fields|, at, ty);
    case Elements(elements) => ElementRelocsArePlaces(elements, |elements|, at, ty);
    case _ =>
  }

  lemma {:induction false} FieldStep(fields: seq<Constant>, n: nat, at: nat, ty: Option<IrType>)
    requires 0 < n <= |fields|
    ensures var before := FieldRelocs(fields, n - 1, at, ty);
      FieldRelocs(fields, n, at, ty).1
      == before.1 + Relocs(fields[n - 1], before.0 + Gap(ty, n - 1, before.0), FieldType(ty, n - 1))
    ensures FieldPlaces(fields, n, at, ty)
         == FieldPlaces(fields, n - 1, at, ty) + Places(fields[n - 1], at + FieldStart(fields, n - 1, ty),
                                                        FieldType(ty, n - 1))
  {
    hide Gap, Relocs, Places, FieldStart, FieldType, ConstantBytes;
  }

  /** At a field with a reference the two offsets agree. */
  lemma {:induction false} SameFieldOffset(fields: seq<Constant>, i: nat, at: nat, ty: Option<IrType>)
    requires i < |fields| && AlignedFor(ty, i, at)
    ensures var before := FieldRelocs(fields, i, at, ty).0;
      before + Gap(ty, i, before) == at + FieldStart(fields, i, ty)
  {
    hide Gap, EmitFields, FieldRelocs;
    if i > 0 {
      AlignedForFewer(ty, i, at);
    }
    hide AlignedFor;
    CollectorKeepsStep(fields, i, at, ty);
    GapShifts(ty, i, at, |EmitFields(fields, i, ty, PLACEHOLDER)|);
  }

  lemma {:induction false} NothingCollectedYet(parts: seq<Constant>, at: nat, ty: Option<IrType>)
    ensures FieldRelocs(parts, 0, at, ty) == (at, []) && FieldPlaces(parts, 0, at, ty) == []
    ensures ElementRelocs(parts, 0, at, ty) == (at, []) && ElementPlaces(parts, 0, at, ty) == []
  {
  }

  lemma {:induction false} FieldRelocsArePlaces(fields: seq<Constant>, n: nat, at: nat, ty: Option<IrType>)
    requires n <= |fields| && Mirrors(Fields(fields), at, ty)
    ensures FieldRelocs(fields, n, at, ty).1 == FieldPlaces(fields, n, at, ty)
    decreases fields, n
  {
    hide Mirrors, HasRef, Gap, Relocs, Places, FieldStart, FieldRelocs, FieldPlaces, AlignedFor, FieldType;
    if n == 0 {
      NothingCollectedYet(fields, at, ty);
    } else {
      FieldRelocsArePlaces(fields, n - 1, at, ty);
      FieldStep(fields, n, at, ty);
      var ft, before, start := FieldType(ty, n - 1), FieldRelocs(fields, n - 1, at, ty).0,
          at + FieldStart(fields, n - 1, ty);
      if HasRef(fields[n - 1]) {
        MirrorsField(fields, n - 1, at, ty);
        SameFieldOffset(fields, n - 1, at, ty);
        RelocsArePlaces(fields[n - 1], start, ft);
      } else {
        NothingToCollect(fields[n - 1], before + Gap(ty, n - 1, before), start, ft);
      }
    }
  }

  lemma {:induction false} MirrorsField(fields: seq<Constant>, i: nat, at: nat, ty: Option<IrType>)
    requires Mirrors(Fields(fields), at, ty) && i < |fields| && HasRef(fields[i])
    ensures AlignedFor(ty, i, at) && Mirrors(fields[i], at + FieldStart(fields, i, ty), FieldType(ty, i))
  {
    hide AlignedFor, HasRef, FieldStart, FieldType;
  }

  lemma {:induction false} MirrorsElement(elements: seq<Constant>, i: nat, at: nat, ty: Option<IrType>)
    requires Mirrors(Elements(elements), at, ty) && i < |elements| && HasRef(elements[i])
    ensures FullWidth(elements, i, ty) && Mirrors(elements[i], at + ElementStart(elements, i, ty), ElementType(ty))
  {
    hide FullWidth, HasRef, ElementStart;
  }

  lemma {:induction false} AlignedForFewer(ty: Option<IrType>, i: nat, at: nat)
    requires AlignedFor(ty, i, at) && i > 0
    ensures AlignedFor(ty, i - 1, at)
  {
  }

  lemma {:induction false} ElementStep(elements: seq<Constant>, n: nat, at: nat, ty: Option<IrType>)
    requires 0 < n <= |elements|
    ensures var before := ElementRelocs(elements, n - 1, at, ty);
      ElementRelocs(elements, n, at, ty).1 == before.1 + Relocs(elements[n - 1], before.0, ElementType(ty))
    ensures ElementPlaces(elements, n, at, ty)
         == ElementPlaces(elements, n - 1, at, ty)
            + Places(elements[n - 1], at + ElementStart(elements, n - 1, ty), ElementType(ty))
  {
    hide Relocs, Places, ElementStart, ElementType, ConstantBytes;
  }

  lemma {:induction false} ElementRelocsArePlaces(elements: seq<Constant>, n: nat, at: nat, ty: Option<IrType>)
    requires n <= |elements| && Mirrors(Elements(elements), at, ty)
    ensures ElementRelocs(elements, n, at, ty).1 == ElementPlaces(elements, n, at, ty)
    decreases elements, n
  {
    hide Mirrors, HasRef, Relocs, Places, EmitElements, ElementRelocs, ElementPlaces, FullWidth, ElementType;
    if n == 0 {
      NothingCollectedYet(elements, at, ty);
    } else {
      ElementRelocsArePlaces(elements, n - 1, at, ty);
      ElementStep(elements, n, at, ty);
      var et, before := ElementType(ty), ElementRelocs(elements, n - 1, at, ty).0;
      if HasRef(elements[n - 1]) {
        MirrorsElement(elements, n - 1, at, ty);
        CollectorKeepsUp(elements, n - 1, at, ty);
        RelocsArePlaces(elements[n - 1], at + ElementStart(elements, n - 1, ty), et);
      } else {
        NothingToCollect(elements[n - 1], before, at + ElementStart(elements, n - 1, ty), et);
      }
    }
  }

  /** Linking the section against the collected entries gives the section with this constant's
      references resolved and nothing else changed. */
  lemma {:induction false} LinkingResolves(c: Constant, ty: Option<IrType>, pre: seq<byte>, post: seq<byte>,
                                           resolve: Resolver)
    requires Mirrors(c, |pre|, ty)
    ensures Linked(pre + ConstantBytes(c, ty) + post, Relocs(c, |pre|, ty), resolve)
         == pre + Emit(c, ty, resolve) + post
  {
    hide Linked, Places, Relocs, Emit, Mirrors;
    RelocsArePlaces(c, |pre|, ty);
    PlacesFit(c, |pre|, ty);
    PatchingResolves(c, ty, pre, resolve);
    LinkedPrefix(pre + ConstantBytes(c, ty), post, Places(c, |pre|, ty), resolve);
  }
}
