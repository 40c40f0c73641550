/** Reading a relocatable object back: sections, symbols and relocations for the linker. */
module ElfParser {
  import opened Wrappers
  import opened Bytes
  import opened ElfStrings
  import opened ElfFormat
  import opened ElfWriter

  /** The number of the object among those linked together, and whether local names are told apart by it. */
  datatype Origin = Origin(number: nat, unique: bool)

  datatype InputSection = InputSection(name: Name, kind: nat, flags: nat, data: seq<byte>, size: nat, align: nat,
                                       objectId: nat, index: nat)

  datatype InputSymbol = InputSymbol(name: Name, value: nat, size: nat, binding: nat, kind: nat, visibility: nat,
                                     section: nat, objectId: nat)

  datatype InputReloc = InputReloc(offset: nat, symbolName: Name, symbol: nat, kind: nat, addend: int, objectId: nat,
                                   section: nat)

  datatype LinkerInput = LinkerInput(sections: seq<InputSection>, symbols: seq<InputSymbol>, relocs: seq<InputReloc>)

  function TEXT(): Name {
    [0x2e, 0x74, 0x65, 0x78, 0x74]
  }

  function START(): Name {
    [0x5f, 0x73, 0x74, 0x61, 0x72, 0x74]
  }

  /** Bytes that cannot be read as an object are taken for code. */
  function RawText(id: Origin, data: seq<byte>): InputSection {
    InputSection(TEXT(), SHT_PROGBITS, 6, data, |data|, 16, id.number, 1)
  }

  function DefaultStart(id: Origin): InputSymbol {
    InputSymbol(START(), 0, 0, 1, 2, 0, 1, id.number)
  }

  // ---- what is loaded ----

  predicate HasPrefix(s: Name, p: Name) {
    p <= s
  }

  /** .eh_frame*, .note*, .comment, .GCC*, .gnu.hash* */
  predicate Skipped(s: Name) {
    || HasPrefix(s, [0x2e, 0x65, 0x68, 0x5f, 0x66, 0x72, 0x61, 0x6d, 0x65])
    || HasPrefix(s, [0x2e, 0x6e, 0x6f, 0x74, 0x65])
    || s == [0x2e, 0x63, 0x6f, 0x6d, 0x6d, 0x65, 0x6e, 0x74]
    || HasPrefix(s, [0x2e, 0x47, 0x43, 0x43])
    || HasPrefix(s, [0x2e, 0x67, 0x6e, 0x75, 0x2e, 0x68, 0x61, 0x73, 0x68])
  }

  predicate Loadable(name: Name, kind: nat) {
    (kind == SHT_PROGBITS || kind == SHT_NOBITS) && !Skipped(name)
  }

  // ---- the header table ----

  /** Where the table is and how many entries it has; `None` when there is no usable table. */
  function TableOf(data: seq<byte>): Option<(nat, nat)>
    requires |data| >= 64
  {
    var shoff, entsize, n := ReadWord(data, 40, 8), ReadWord(data, 58, 2), ReadWord(data, 60, 2);
    if shoff == 0 || n == 0 || shoff + n * entsize > |data| then None else Some((shoff, n))
  }

  function HeadersAt(data: seq<byte>, shoff: nat, n: nat): (hs: seq<SectionHeader>)
    requires shoff + n * HEADER_SIZE <= |data|
    ensures |hs| == n && forall i :: 0 <= i < n ==> hs[i] == ReadHeader(data, shoff + i * HEADER_SIZE)
  {
    seq(n, i requires 0 <= i < n => ReadHeader(data, shoff + i * HEADER_SIZE))
  }

  /** The file bytes of a section, cut at the end of the file. */
  function ContentsOf(data: seq<byte>, h: SectionHeader): seq<byte>
    requires h.offset <= |data|
  {
    data[h.offset..if h.offset + h.size > |data| then |data| else h.offset + h.size]
  }

  /** Objects of the kind that the compiler writes: 64-bit, little-endian, with entries of the usual
      sizes and offsets inside the file. */
  predicate Readable(data: seq<byte>) {
    |data| >= 64 ==>
      && data[4] == 2 && data[5] == 1
      && (TableOf(data).Some? ==>
            && ReadWord(data, 58, 2) == HEADER_SIZE
            && forall i :: 0 <= i < TableOf(data).value.1 ==>
                 SoundHeader(ReadHeader(data, TableOf(data).value.0 + i * HEADER_SIZE), |data|))
  }

  predicate SoundHeader(h: SectionHeader, length: nat) {
    && h.offset <= length
    && (h.kind == SHT_SYMTAB || h.kind == SHT_RELA ==> h.entsize == 0 || h.entsize >= 24)
    && (h.kind == SHT_REL ==> h.entsize == 0 || h.entsize >= 16)
  }

  /** What the passes share. */
  datatype Object = Object(data: seq<byte>, hs: seq<SectionHeader>, names: seq<byte>, id: Origin)

  predicate ValidObject(o: Object) {
    o.hs != [] && forall i :: 0 <= i < |o.hs| ==> SoundHeader(o.hs[i], |o.data|)
  }

  function NameTable(data: seq<byte>, hs: seq<SectionHeader>, index: nat): seq<byte>
    requires forall i :: 0 <= i < |hs| ==> hs[i].offset <= |data|
  {
    if index < |hs| then ContentsOf(data, hs[index]) else []
  }

  function SectionName(o: Object, i: nat): Name
    requires i < |o.hs|
  {
    NameAt(o.names, o.hs[i].name)
  }

  // ---- symbols ----

  function FirstSymtab(hs: seq<SectionHeader>, i: nat): (r: Option<nat>)
    requires i <= |hs|
    ensures r.Some? ==> r.value < |hs| && hs[r.value].kind == SHT_SYMTAB
    decreases |hs| - i
  {
    if i == |hs| then None else if hs[i].kind == SHT_SYMTAB then Some(i) else FirstSymtab(hs, i + 1)
  }

  function Strtab(o: Object, symtab: nat): seq<byte>
    requires ValidObject(o) && symtab < |o.hs|
  {
    var link := o.hs[symtab].link;
    ContentsOf(o.data, o.hs[if link < |o.hs| then link else 0])
  }

  function EntrySize(h: SectionHeader): nat {
    if h.entsize > 0 then h.entsize else if h.kind == SHT_REL then 16 else 24
  }

  function EntryCount(h: SectionHeader): nat {
    h.size / EntrySize(h)
  }

  predicate EntryFits(o: Object, h: SectionHeader, j: nat) {
    h.offset + j * EntrySize(h) + EntrySize(h) <= |o.data|
  }

  function Digits(n: nat): Name {
    if n < 10 then [0x30 + n] else Digits(n / 10) + [0x30 + n % 10]
  }

  /** "__secsym_" name "_" id */
  function SectionSymbolName(section: Name, id: nat): Name {
    SECTION_PREFIX() + section + [0x5f] + Digits(id)
  }

  /** "__secsym_" */
  function SECTION_PREFIX(): Name {
    [0x5f, 0x5f, 0x73, 0x65, 0x63, 0x73, 0x79, 0x6d, 0x5f]
  }

  /** "__obj" */
  function OBJECT_INFIX(): Name {
    [0x5f, 0x5f, 0x6f, 0x62, 0x6a]
  }

  function Numbered(name: Name, number: nat): Name {
    name + OBJECT_INFIX() + Digits(number)
  }

  /** Local names get the number of the object when several objects are linked. */
  function ToldApart(id: Origin, name: Name, binding: nat, kind: nat): Name {
    if id.unique && binding == 0 && name != [] && kind != 3 && !HasPrefix(name, SECTION_PREFIX())
    then Numbered(name, id.number)
    else name
  }

  function BindingRead(b: nat): nat {
    if b <= 2 then b else 1
  }

  function KindRead(k: nat): nat {
    if k <= 2 then k else 0
  }

  function SymbolRead(o: Object, raw: RawSymbol, name: Name): InputSymbol {
    var own := if raw.info % 16 == 3 && 0 < raw.section < |o.hs| && SectionName(o, raw.section) != []
               then SectionSymbolName(SectionName(o, raw.section), o.id.number) else name;
    InputSymbol(ToldApart(o.id, own, raw.info / 16, raw.info % 16), raw.value, raw.size, BindingRead(raw.info / 16),
                KindRead(raw.info % 16), raw.other % 4, raw.section, o.id.number)
  }

  predicate IsNullSymbol(j: nat, raw: RawSymbol, name: Name) {
    j == 0 && name == [] && raw.value == 0 && raw.section == 0
  }

  /** The symbols from entry `j` on; the null entry is left out. */
  function SymbolsFrom(o: Object, symtab: nat, j: nat): seq<InputSymbol>
    requires ValidObject(o) && symtab < |o.hs| && o.hs[symtab].kind == SHT_SYMTAB
    decreases EntryCount(o.hs[symtab]) - j
  {
    var h := o.hs[symtab];
    if j >= EntryCount(h) || !EntryFits(o, h, j) then []
    else
      var raw := ReadSymbol(o.data, h.offset + j * EntrySize(h));
      var name := NameAt(Strtab(o, symtab), raw.name);
      (if IsNullSymbol(j, raw, name) then [] else [SymbolRead(o, raw, name)]) + SymbolsFrom(o, symtab, j + 1)
  }

  function SymbolsOf(o: Object): seq<InputSymbol>
    requires ValidObject(o)
  {
    var symtab := FirstSymtab(o.hs, 0);
    if symtab.Some? then SymbolsFrom(o, symtab.value, 0) else []
  }

  // ---- sections ----

  function SectionRead(o: Object, i: nat): InputSection
    requires ValidObject(o) && i < |o.hs|
  {
    var h := o.hs[i];
    InputSection(SectionName(o, i), h.kind, h.flags, if h.kind == SHT_NOBITS then [] else ContentsOf(o.data, h), h.size,
                 if h.align < 1 then 1 else h.align, o.id.number, i)
  }

  function SectionsFrom(o: Object, i: nat): seq<InputSection>
    requires ValidObject(o) && i <= |o.hs|
    decreases |o.hs| - i
  {
    if i == |o.hs| then []
    else
      (if i > 0 && Loadable(SectionName(o, i), o.hs[i].kind) then [SectionRead(o, i)] else []) + SectionsFrom(o, i + 1)
  }

  // ---- relocations ----

  function IndexedSection(sections: seq<InputSection>, index: nat): Option<InputSection> {
    if sections == [] then None
    else if sections[0].index == index then Some(sections[0]) else IndexedSection(sections[1..], index)
  }

  /** The name that an entry's symbol index stands for. */
  function TargetName(o: Object, sections: seq<InputSection>, symbol: nat): Name
    requires ValidObject(o)
  {
    var symtab := FirstSymtab(o.hs, 0);
    if symtab.None? || symbol >= EntryCount(o.hs[symtab.value]) then []
    else
      var h := o.hs[symtab.value];
      var raw := if EntryFits(o, h, symbol) then ReadSymbol(o.data, h.offset + symbol * EntrySize(h)) else NULL_SYMBOL;
      var name := if EntryFits(o, h, symbol) then NameAt(Strtab(o, symtab.value), raw.name) else [];
      var sec := IndexedSection(sections, raw.section);
      var own := if name != [] then name else if sec.Some? then SectionSymbolName(sec.value.name, o.id.number) else [];
      if EntryFits(o, h, symbol) then ToldApart(o.id, own, raw.info / 16, raw.info % 16) else own
  }

  function RelocRead(o: Object, sections: seq<InputSection>, h: SectionHeader, j: nat): InputReloc
    requires ValidObject(o) && SoundHeader(h, |o.data|) && h.kind in {SHT_RELA, SHT_REL} && EntryFits(o, h, j)
  {
    var at := h.offset + j * EntrySize(h);
    var info := ReadWord(o.data, at + 8, 8);
    var symbol := info / 0x1_0000_0000;
    InputReloc(ReadWord(o.data, at, 8), TargetName(o, sections, symbol), symbol, info % 0x1_0000_0000,
               if h.kind == SHT_RELA then Signed(ReadWord(o.data, at + 16, 8)) else 0, o.id.number, h.info)
  }

  function EntriesFrom(o: Object, sections: seq<InputSection>, h: SectionHeader, j: nat): seq<InputReloc>
    requires ValidObject(o) && SoundHeader(h, |o.data|) && h.kind in {SHT_RELA, SHT_REL}
    decreases EntryCount(h) - j
  {
    if j >= EntryCount(h) || !EntryFits(o, h, j) then []
    else [RelocRead(o, sections, h, j)] + EntriesFrom(o, sections, h, j + 1)
  }

  /** Relocations for sections that were not loaded are dropped. */
  predicate HasRelocs(h: SectionHeader, sections: seq<InputSection>) {
    (h.kind == SHT_RELA || h.kind == SHT_REL) && IndexedSection(sections, h.info).Some?
  }

  function RelocsFrom(o: Object, sections: seq<InputSection>, i: nat): seq<InputReloc>
    requires ValidObject(o) && i <= |o.hs|
    decreases |o.hs| - i
  {
    if i == |o.hs| then []
    else
      (if HasRelocs(o.hs[i], sections) then EntriesFrom(o, sections, o.hs[i], 0) else [])
      + RelocsFrom(o, sections, i + 1)
  }

  // ---- the whole object ----

  function ObjectOf(id: Origin, data: seq<byte>): (o: Object)
    requires Readable(data) && |data| >= 64 && TableOf(data).Some?
    ensures ValidObject(o)
  {
    var (shoff, n) := TableOf(data).value;
    var hs := HeadersAt(data, shoff, n);
    Object(data, hs, NameTable(data, hs, ReadWord(data, 62, 2)), id)
  }

  function WithDefaults(id: Origin, data: seq<byte>, sections: seq<InputSection>, symbols: seq<InputSymbol>,
                        relocs: seq<InputReloc>): LinkerInput {
    LinkerInput(if sections == [] then [RawText(id, data)] else sections,
                if symbols == [] then [DefaultStart(id)] else symbols, relocs)
  }

  function Parsed(id: Origin, data: seq<byte>): LinkerInput
    requires Readable(data)
  {
    if |data| < 64 || TableOf(data).None? then LinkerInput([RawText(id, data)], [], [])
    else
      var o := ObjectOf(id, data);
      var sections := SectionsFrom(o, 0);
      WithDefaults(id, data, sections, SymbolsOf(o), RelocsFrom(o, sections, 0))
  }

  method FindSymtab(hs: seq<SectionHeader>) returns (symtab: Option<nat>)
    ensures symtab == FirstSymtab(hs, 0)
  {
    symtab := None;
    for i := 0 to |hs|
      invariant FirstSymtab(hs, 0) == FirstSymtab(hs, i)
    {
      if hs[i].kind == SHT_SYMTAB {
        return Some(i);
      }
    }
  }

  method ReadSymbols(o: Object) returns (symbols: seq<InputSymbol>)
    requires ValidObject(o)
    ensures symbols == SymbolsOf(o)
  {
    hide SymbolsFrom, SymbolRead, NameAt, Strtab, ReadSymbol, FirstSymtab, IsNullSymbol, EntryCount;
    symbols := [];
    var symtab := FindSymtab(o.hs);
    if symtab.None? {
      return;
    }
    var h, strtab := o.hs[symtab.value], Strtab(o, symtab.value);
    for j := 0 to EntryCount(h)
      invariant symbols + SymbolsFrom(o, symtab.value, j) == SymbolsFrom(o, symtab.value, 0)
    {
      if !EntryFits(o, h, j) {
        SymbolsEnd(o, symtab.value, j, symbols);
        return;
      }
      SymbolsStep(o, symtab.value, j, symbols);
      var raw := ReadSymbol(o.data, h.offset + j * EntrySize(h));
      var name := NameAt(strtab, raw.name);
      if IsNullSymbol(j, raw, name) {
        continue;
      }
      symbols := symbols + [SymbolRead(o, raw, name)];
    }
    SymbolsEnd(o, symtab.value, EntryCount(h), symbols);
  }

  lemma {:induction false} SymbolsEnd(o: Object, symtab: nat, j: nat, before: seq<InputSymbol>)
    requires ValidObject(o) && symtab < |o.hs| && o.hs[symtab].kind == SHT_SYMTAB
    requires j >= EntryCount(o.hs[symtab]) || !EntryFits(o, o.hs[symtab], j)
    ensures before + SymbolsFrom(o, symtab, j) == before
  {
  }

  lemma {:induction false} SymbolsStep(o: Object, symtab: nat, j: nat, before: seq<InputSymbol>)
    requires ValidObject(o) && symtab < |o.hs| && o.hs[symtab].kind == SHT_SYMTAB
    requires j < EntryCount(o.hs[symtab]) && EntryFits(o, o.hs[symtab], j)
    ensures var raw := ReadSymbol(o.data, o.hs[symtab].offset + j * EntrySize(o.hs[symtab]));
      var name := NameAt(Strtab(o, symtab), raw.name);
      before + SymbolsFrom(o, symtab, j)
      == (if IsNullSymbol(j, raw, name) then before else before + [SymbolRead(o, raw, name)])
         + SymbolsFrom(o, symtab, j + 1)
  {
    hide SymbolRead, NameAt, Strtab, ReadSymbol;
    assert before + [] == before;
  }

  lemma {:induction false} SectionsStep(o: Object, i: nat, before: seq<InputSection>)
    requires ValidObject(o) && i <= |o.hs|
    ensures i == |o.hs| ==> before + SectionsFrom(o, i) == before
    ensures i < |o.hs| ==>
      before + SectionsFrom(o, i)
      == (if i > 0 && Loadable(SectionName(o, i), o.hs[i].kind) then before + [SectionRead(o, i)] else before)
         + SectionsFrom(o, i + 1)
  {
    hide Loadable, SectionName, SectionRead;
    assert before + [] == before;
  }

  method ReadSections(o: Object) returns (sections: seq<InputSection>)
    requires ValidObject(o)
    ensures sections == SectionsFrom(o, 0)
  {
    hide SectionsFrom, Loadable, SectionName, SectionRead;
    sections := [];
    for i := 0 to |o.hs|
      invariant sections + SectionsFrom(o, i) == SectionsFrom(o, 0)
    {
      SectionsStep(o, i, sections);
      if i == 0 {
        continue;
      }
      if !Loadable(SectionName(o, i), o.hs[i].kind) {
        continue;
      }
      sections := sections + [SectionRead(o, i)];
    }
    SectionsStep(o, |o.hs|, sections);
  }

  method ReadRelocs(o: Object, sections: seq<InputSection>) returns (relocs: seq<InputReloc>)
    requires ValidObject(o)
    ensures relocs == RelocsFrom(o, sections, 0)
  {
    hide RelocRead, IndexedSection;
    relocs := [];
    for i := 0 to |o.hs|
      invariant relocs + RelocsFrom(o, sections, i) == RelocsFrom(o, sections, 0)
    {
      var h := o.hs[i];
      if !HasRelocs(h, sections) {
        continue;
      }
      ghost var before := relocs;
      for j := 0 to EntryCount(h)
        invariant relocs + EntriesFrom(o, sections, h, j) == before + EntriesFrom(o, sections, h, 0)
      {
        if !EntryFits(o, h, j) {
          break;
        }
        relocs := relocs + [RelocRead(o, sections, h, j)];
      }
      assert relocs + [] == relocs;
    }
    assert relocs + [] == relocs;
  }

  method ReadHeaders(data: seq<byte>, shoff: nat, n: nat) returns (hs: seq<SectionHeader>)
    requires shoff + n * HEADER_SIZE <= |data|
    ensures hs == HeadersAt(data, shoff, n)
  {
    hide ReadHeader;
    hs := [];
    for i := 0 to n
      invariant |hs| == i && forall k :: 0 <= k < i ==> hs[k] == ReadHeader(data, shoff + k * HEADER_SIZE)
    {
      hs := hs + [ReadHeader(data, shoff + i * HEADER_SIZE)];
    }
  }

  method ParseObject(id: Origin, data: seq<byte>) returns (input: LinkerInput)
    requires Readable(data)
    ensures input == Parsed(id, data)
  {
    hide ReadHeader, SectionsFrom, SymbolsOf, RelocsFrom, ReadWord, TEXT, START;
    if |data| < 64 {
      return LinkerInput([RawText(id, data)], [], []);
    }
    var shoff, entsize, n, strndx := ReadWord(data, 40, 8), ReadWord(data, 58, 2), ReadWord(data, 60, 2),
        ReadWord(data, 62, 2);
    if shoff == 0 || n == 0 || shoff + n * entsize > |data| {
      return LinkerInput([RawText(id, data)], [], []);
    }
    var hs := ReadHeaders(data, shoff, n);
    ghost var whole := ObjectOf(id, data);
    var o := Object(data, hs, NameTable(data, hs, strndx), id);
    var symbols := ReadSymbols(o);
    var sections := ReadSections(o);
    var relocs := ReadRelocs(o, sections);
    input := LinkerInput(if sections == [] then [RawText(id, data)] else sections,
                         if symbols == [] then [DefaultStart(id)] else symbols, relocs);
  }
}
