/** What a written object says it is, and the names that have a meaning of their own, as text. */
module ElfIdentity {
  import opened Bytes
  import opened ElfStrings
  import opened ElfFormat
  import opened ElfSymbols
  import opened ElfWriter
  import opened ElfParser
  import opened ElfRoundTrip
  import opened RelocSymbols

  /** The bytes of a text in ASCII. */
  function Ascii(s: string): Name {
    seq(|s|, i requires 0 <= i < |s| => s[i] as int % 256)
  }

  // ---- the file header ----

  /** The identification and the thirteen fields of the file header (System V ABI, generic edition,
      chapter 4, "ELF Header"), read at their offsets. */
  predicate SaysWhatItIs(img: seq<byte>, t: Target, table: nat, n: nat) {
    && |img| >= 64
    && img[..4] == [0x7f] + Ascii("ELF") && img[4] == 2 && img[5] == 1 && img[6] == 1
    && (forall k :: 7 <= k < 16 ==> img[k] == 0)
    && ReadWord(img, 16, 2) == t.kind && ReadWord(img, 18, 2) == t.machine && ReadWord(img, 20, 4) == 1
    && ReadWord(img, 24, 8) == t.entry && ReadWord(img, 32, 8) == 0 && ReadWord(img, 40, 8) == table
    && ReadWord(img, 48, 4) == t.flags && ReadWord(img, 52, 2) == 64 && ReadWord(img, 54, 2) == 56
    && ReadWord(img, 56, 2) == 0 && ReadWord(img, 58, 2) == 64 && ReadWord(img, 60, 2) == n + 4
    && ReadWord(img, 62, 2) == n + 3
  }

  predicate TargetFits(t: Target) {
    t.kind < Pow256(2) && t.machine < Pow256(2) && t.entry < Pow256(8) && t.flags < Pow256(4)
  }

  /** Where the fields of the file header start, behind the identification. */
  lemma {:induction false} HeaderStarts(t: Target, layout: Layout, n: nat)
    ensures var r := FileRecord(t, layout, n);
      && |r| == 13 && StartOf(r, 0) == 0 && StartOf(r, 1) == 2 && StartOf(r, 2) == 4 && StartOf(r, 3) == 8
      && StartOf(r, 4) == 16 && StartOf(r, 5) == 24 && StartOf(r, 6) == 32 && StartOf(r, 7) == 36 && StartOf(r, 8) == 38
      && StartOf(r, 9) == 40 && StartOf(r, 10) == 42 && StartOf(r, 11) == 44 && StartOf(r, 12) == 46
  {
    var r := FileRecord(t, layout, n);
    assert StartOf(r, 0) == 0;
    hide StartOf;
    StartStep(r, 0);
    StartStep(r, 1);
    StartStep(r, 2);
    StartStep(r, 3);
    StartStep(r, 4);
    StartStep(r, 5);
    StartStep(r, 6);
    StartStep(r, 7);
    StartStep(r, 8);
    StartStep(r, 9);
    StartStep(r, 10);
    StartStep(r, 11);
  }

  lemma {:induction false} RecordSays(img: seq<byte>, t: Target, layout: Layout, n: nat)
    requires TargetFits(t) && layout.table < Pow256(8) && n + 4 < Pow256(2)
    requires Occupies(img, 0, IDENT() + Pack(FileRecord(t, layout, n)))
    ensures SaysWhatItIs(img, t, layout.table, n)
  {
    var r := FileRecord(t, layout, n);
    FileHeaderParts(img, t, layout, n);
    FileHeaderLength(t, layout, n);
    HeaderStarts(t, layout, n);
    IdentReads(img, Pack(r));
    hide Pack, StartOf, ReadWord, Occupies, Pow256, IDENT, Ascii;
    FieldSays(img, t, layout, n, 0);
    FieldSays(img, t, layout, n, 1);
    FieldSays(img, t, layout, n, 2);
    FieldSays(img, t, layout, n, 3);
    FieldSays(img, t, layout, n, 4);
    FieldSays(img, t, layout, n, 5);
    FieldSays(img, t, layout, n, 6);
    FieldSays(img, t, layout, n, 7);
    FieldSays(img, t, layout, n, 8);
    FieldSays(img, t, layout, n, 9);
    FieldSays(img, t, layout, n, 10);
    FieldSays(img, t, layout, n, 11);
    FieldSays(img, t, layout, n, 12);
  }

  lemma {:induction false} FieldSays(img: seq<byte>, t: Target, layout: Layout, n: nat, k: nat)
    requires TargetFits(t) && layout.table < Pow256(8) && n + 4 < Pow256(2) && k < 13
    requires Occupies(img, 16, Pack(FileRecord(t, layout, n)))
    ensures var r := FileRecord(t, layout, n); var start := 16 + StartOf(r, k);
      start + r[k].1 <= |img| && ReadWord(img, start, r[k].1) == r[k].0
  {
    var r := FileRecord(t, layout, n);
    assert Pow256(2) == 65536 && Pow256(4) == 65536 * 65536;
    EightBytes();
    hide Pack, StartOf, ReadWord, Occupies, Pow256;
    FieldReads(img, 16, r, k);
  }

  lemma {:induction false} IdentReads(img: seq<byte>, rest: seq<byte>)
    requires Occupies(img, 0, IDENT() + rest)
    ensures |img| >= 16 && img[..4] == [0x7f] + Ascii("ELF") && img[4] == 2 && img[5] == 1 && img[6] == 1
    ensures forall k :: 7 <= k < 16 ==> img[k] == 0
  {
    var header := IDENT() + rest;
    assert img[..|header|] == header;
    assert forall k :: 0 <= k < 16 ==> img[k] == header[k] == IDENT()[k];
    assert Ascii("ELF") == [0x45, 0x4c, 0x46];
  }

  /** The file says what it is: its type, its machine, its entry point, and where the section table is. */
  lemma {:induction false} FileSaysWhatItIs(t: Target, sections: seq<Section>, syms: seq<ElfSymbol>)
    requires WellFormed(sections, syms) && TargetFits(t)
    ensures SaysWhatItIs(Image(t, sections, syms), t, LayoutFor(sections, syms).table, |sections|)
  {
    hide *;
    TableFits(sections, syms);
    FileHeaderInImage(t, sections, syms);
    assert FileHeader(t, sections, syms) == IDENT() + Pack(FileRecord(t, LayoutFor(sections, syms), |sections|)) by {
      HeaderIs(t, sections, syms);
    }
    RecordSays(Image(t, sections, syms), t, LayoutFor(sections, syms), |sections|);
  }

  lemma {:induction false} HeaderIs(t: Target, sections: seq<Section>, syms: seq<ElfSymbol>)
    ensures FileHeader(t, sections, syms) == IDENT() + Pack(FileRecord(t, LayoutFor(sections, syms), |sections|))
  {
    hide LayoutFor, Pack, IDENT, FileRecord;
  }

  lemma {:induction false} TableFits(sections: seq<Section>, syms: seq<ElfSymbol>)
    requires WellFormed(sections, syms)
    ensures LayoutFor(sections, syms).table < Pow256(8) && |sections| + 4 < Pow256(2)
  {
    hide LayoutFor, Pow256, StringsOf, HeaderStrings, SectionFits, SymbolFitsFile;
    LayoutBounds(sections, syms);
  }

  // ---- entries, field by field ----

  /** A section header (System V ABI, generic edition, chapter 4, "Sections") that leads to the section's
      data. */
  predicate DescribesSection(img: seq<byte>, at: nat, s: Section, names: seq<byte>) {
    && at + 64 <= |img|
    && NameAt(names, ReadWord(img, at, 4)) == s.name && ReadWord(img, at + 4, 4) == s.kind
    && ReadWord(img, at + 8, 8) == s.flags && ReadWord(img, at + 16, 8) == s.address
    && (s.kind != 8 ==> Occupies(img, ReadWord(img, at + 24, 8), s.data))
    && ReadWord(img, at + 32, 8) == (if s.logicalSize == 0 then |s.data| else s.logicalSize)
    && ReadWord(img, at + 40, 4) == s.link && ReadWord(img, at + 44, 4) == s.info
    && ReadWord(img, at + 48, 8) == s.align && ReadWord(img, at + 56, 8) == s.entsize
  }

  lemma {:induction false} HeaderFields(img: seq<byte>, at: nat, h: SectionHeader)
    requires Occupies(img, at, Pack(HeaderRecord(h))) && HeaderFits(h)
    ensures at + 64 <= |img| && ReadHeader(img, at) == h.(addr := 0) && ReadWord(img, at + 16, 8) == h.addr
  {
    HeaderReads(img, at, h);
    var r := HeaderRecord(h);
    StartStep(r, 0);
    StartStep(r, 1);
    StartStep(r, 2);
    hide Occupies, Pack, StartOf, ReadWord, Pow256;
    FieldReads(img, at, r, 3);
  }

  lemma {:induction false} UserHeaderIs(sections: seq<Section>, syms: seq<ElfSymbol>, i: nat)
    requires i < |sections|
    ensures var s, h := sections[i], HeaderOf(sections, syms, i + 1);
      && h.kind == s.kind && h.flags == s.flags && h.addr == s.address && h.offset == OffsetOf(sections, i)
      && h.size == MemorySize(s) && h.link == s.link && h.info == s.info && h.align == s.align && h.entsize == s.entsize
  {
    hide HeaderStrings, StringsOf, SymtabBytes, LayoutOf, OffsetOf;
  }

  /** Every section's header says what the section is and where its data are. */
  lemma {:induction false} SectionIsDescribed(t: Target, sections: seq<Section>, syms: seq<ElfSymbol>, i: nat)
    requires WellFormed(sections, syms) && i < |sections|
    ensures DescribesSection(Image(t, sections, syms), LayoutFor(sections, syms).table + 64 * (i + 1), sections[i],
                             HeaderStrings(sections).data)
  {
    hide *;
    var h := HeaderOf(sections, syms, i + 1);
    HeadersFit(sections, syms, i + 1);
    HeaderInImage(t, sections, syms, i + 1);
    HeaderStands(Image(t, sections, syms), LayoutFor(sections, syms).table, i + 1, h);
    UserHeaderIs(sections, syms, i);
    SectionInImage(t, sections, syms, i);
    NameOfHeader(t, sections, syms, i);
    Describes(Image(t, sections, syms), LayoutFor(sections, syms).table + 64 * (i + 1), sections[i],
              HeaderStrings(sections).data, h);
  }

  lemma {:induction false} HeaderStands(img: seq<byte>, table: nat, i: nat, h: SectionHeader)
    requires Occupies(img, table + HEADER_SIZE * i, Pack(HeaderRecord(h))) && HeaderFits(h)
    ensures var at := table + 64 * i;
      at + 64 <= |img| && ReadHeader(img, at) == h.(addr := 0) && ReadWord(img, at + 16, 8) == h.addr
  {
    HeaderFields(img, table + 64 * i, h);
  }

  lemma {:induction false} Describes(img: seq<byte>, at: nat, s: Section, names: seq<byte>, h: SectionHeader)
    requires at + 64 <= |img| && ReadHeader(img, at) == h.(addr := 0) && ReadWord(img, at + 16, 8) == h.addr
    requires NameAt(names, h.name) == s.name && Occupies(img, h.offset, FileData(s))
    requires h.kind == s.kind && h.flags == s.flags && h.addr == s.address && h.size == MemorySize(s)
    requires h.link == s.link && h.info == s.info && h.align == s.align && h.entsize == s.entsize
    ensures DescribesSection(img, at, s, names)
  {
    hide ReadWord, NameAt, Occupies;
  }

  lemma {:induction false} NameOfHeader(t: Target, sections: seq<Section>, syms: seq<ElfSymbol>, i: nat)
    requires WellFormed(sections, syms) && i < |sections|
    ensures NameAt(HeaderStrings(sections).data, HeaderOf(sections, syms, i + 1).name) == sections[i].name
  {
    NameBackIsIndexed(sections, syms, i + 1);
    HeaderName(sections, syms, i + 1);
    hide WellFormed, HeaderOf, HeaderStrings, Sound, NameAt;
    NameIsFound(HeaderStrings(sections), NameBack(sections, i + 1));
  }

  /** A symbol entry (System V ABI, generic edition, chapter 4, "Symbol Table"): binding in the upper half of
      the info byte, type in the lower half. */
  predicate DescribesSymbol(img: seq<byte>, at: nat, s: ElfSymbol, names: seq<byte>) {
    && at + 24 <= |img|
    && NameAt(names, ReadWord(img, at, 4)) == s.name
    && ReadWord(img, at + 4, 1) / 16 == s.binding % 16 && ReadWord(img, at + 4, 1) % 16 == s.kind % 16
    && ReadWord(img, at + 5, 1) == s.visibility % 4 && ReadWord(img, at + 6, 2) == s.section
    && ReadWord(img, at + 8, 8) == s.value && ReadWord(img, at + 16, 8) == s.size
  }

  /** Every entry of the symbol table says what its symbol is. */
  lemma {:induction false} SymbolIsDescribed(t: Target, sections: seq<Section>, syms: seq<ElfSymbol>, k: nat)
    requires WellFormed(sections, syms) && k < |syms|
    ensures |Ordered(syms)| == |syms|
    ensures DescribesSymbol(Image(t, sections, syms), LayoutFor(sections, syms).symtab + 24 * (k + 1), Ordered(syms)[k],
                            StringsOf(syms).data)
  {
    hide *;
    EntryReads(t, sections, syms, k);
    NameOfEntry(sections, syms, k);
    RawIsBack(syms, k + 1);
    RawInfo(syms, k + 1);
    RawFields(Ordered(syms)[k], StringsOf(syms));
    DescribesEntry(Image(t, sections, syms), LayoutFor(sections, syms).symtab + 24 * (k + 1), Ordered(syms)[k],
                   StringsOf(syms).data, RawOf(Ordered(syms)[k], StringsOf(syms)));
  }

  lemma {:induction false} EntryReads(t: Target, sections: seq<Section>, syms: seq<ElfSymbol>, k: nat)
    requires WellFormed(sections, syms) && k < |syms|
    ensures |Ordered(syms)| == |syms|
    ensures var img, at := Image(t, sections, syms), LayoutFor(sections, syms).symtab + 24 * (k + 1);
      at + 24 <= |img| && ReadSymbol(img, at) == RawOf(Ordered(syms)[k], StringsOf(syms))
  {
    hide *;
    EntrySizeIs();
    EntryIsBack(t, sections, syms, k + 1);
    RawIsBack(syms, k + 1);
  }

  lemma {:induction false} EntrySizeIs()
    ensures SYMBOL_SIZE == 24
  {
  }

  lemma {:induction false} NameOfEntry(sections: seq<Section>, syms: seq<ElfSymbol>, k: nat)
    requires WellFormed(sections, syms) && k < |syms| && |Ordered(syms)| == |syms|
    ensures NameAt(StringsOf(syms).data, RawOf(Ordered(syms)[k], StringsOf(syms)).name) == Ordered(syms)[k].name
  {
    hide *;
    WellFormedSymbols(sections, syms);
    RawIsBack(syms, k + 1);
    EntryName(syms, k + 1);
  }

  lemma {:induction false} RawFields(s: ElfSymbol, strings: Strings)
    ensures var raw := RawOf(s, strings);
      raw.other == s.visibility % 4 && raw.section == s.section && raw.value == s.value && raw.size == s.size
  {
  }

  lemma {:induction false} DescribesEntry(img: seq<byte>, at: nat, s: ElfSymbol, names: seq<byte>, raw: RawSymbol)
    requires at + 24 <= |img| && ReadSymbol(img, at) == raw && NameAt(names, raw.name) == s.name
    requires raw.info / 16 == s.binding % 16 && raw.info % 16 == s.kind % 16
    requires raw.other == s.visibility % 4 && raw.section == s.section && raw.value == s.value && raw.size == s.size
    ensures DescribesSymbol(img, at, s, names)
  {
    hide ReadWord, NameAt;
  }

  /** A relocation entry (System V ABI, generic edition, chapter 4, "Relocation"): the symbol in the upper
      half of the info word, the type in the lower half, the addend in two's complement. */
  lemma {:induction false} RelaFields(data: seq<byte>, at: nat, r: RawRela)
    requires Occupies(data, at, Pack(RelaRecord(r))) && RelaFits(r)
    ensures at + 24 <= |data| && ReadWord(data, at, 8) == r.offset
    ensures ReadWord(data, at + 8, 8) / 0x1_0000_0000 == r.symbol && ReadWord(data, at + 8, 8) % 0x1_0000_0000 == r.kind
    ensures var w := ReadWord(data, at + 16, 8); r.addend == w || r.addend == w - 0x1_0000_0000_0000_0000
  {
    RelaReads(data, at, r);
    hide ReadWord, Pack, Occupies, RelaRecord;
  }

  // ---- names ----

  lemma {:induction false} NamesAreText()
    ensures SYMTAB_NAME() == Ascii(".symtab") && STRTAB_NAME() == Ascii(".strtab")
    ensures SHSTRTAB_NAME() == Ascii(".shstrtab")
    ensures SECTION_PREFIX() == Ascii("__secsym_") && OBJECT_INFIX() == Ascii("__obj")
    ensures TEXT() == Ascii(".text") && START() == Ascii("_start")
  {
  }

  /** The linker loads contents and reserved space, but for unwinding tables, notes and the like. */
  lemma {:induction false} LoadedExactly(name: Name, kind: nat)
    ensures Loadable(name, kind)
       <==> && (kind == 1 || kind == 8)
            && !(Ascii(".eh_frame") <= name || Ascii(".note") <= name || name == Ascii(".comment")
                 || Ascii(".GCC") <= name || Ascii(".gnu.hash") <= name)
  {
    assert Ascii(".eh_frame") == [0x2e, 0x65, 0x68, 0x5f, 0x66, 0x72, 0x61, 0x6d, 0x65];
    assert Ascii(".note") == [0x2e, 0x6e, 0x6f, 0x74, 0x65];
    assert Ascii(".comment") == [0x2e, 0x63, 0x6f, 0x6d, 0x6d, 0x65, 0x6e, 0x74];
    assert Ascii(".GCC") == [0x2e, 0x47, 0x43, 0x43];
    assert Ascii(".gnu.hash") == [0x2e, 0x67, 0x6e, 0x75, 0x2e, 0x68, 0x61, 0x73, 0x68];
    hide Ascii;
  }

  /** What instruction selection takes for a private name. */
  lemma {:induction false} LocalLabelExactly(name: Name)
    ensures IsLocalLabel(name) <==> Ascii(".L") <= name
  {
    assert Ascii(".L") == [0x2e, 0x4c];
  }

  // ---- the writer's own sections ----

  /** Header `i` of the table, as it stands in the file. */
  predicate HeaderSays(img: seq<byte>, at: nat, kind: nat, link: nat, info: nat, align: nat, entsize: nat) {
    && at + 64 <= |img|
    && ReadWord(img, at + 4, 4) == kind && ReadWord(img, at + 8, 8) == 0 && ReadWord(img, at + 16, 8) == 0
    && ReadWord(img, at + 40, 4) == link && ReadWord(img, at + 44, 4) == info
    && ReadWord(img, at + 48, 8) == align && ReadWord(img, at + 56, 8) == entsize
  }

  lemma {:induction false} OwnHeaderIs(sections: seq<Section>, syms: seq<ElfSymbol>)
    ensures var n := |sections|;
      && HeaderOf(sections, syms, 0) == SectionHeader(0, 0, 0, 0, 0, 0, 0, 0, 0, 0)
      && HeaderOf(sections, syms, n + 1).(name := 0, offset := 0, size := 0)
         == SectionHeader(0, 2, 0, 0, 0, 0, n + 2, |Locals(syms)| + 1, 8, 24)
      && HeaderOf(sections, syms, n + 2).(name := 0, offset := 0, size := 0)
         == SectionHeader(0, 3, 0, 0, 0, 0, 0, 0, 1, 0)
      && HeaderOf(sections, syms, n + 3).(name := 0, offset := 0, size := 0)
         == SectionHeader(0, 3, 0, 0, 0, 0, 0, 0, 1, 0)
  {
    hide HeaderStrings, StringsOf, SymtabBytes, LayoutOf;
  }

  lemma {:induction false} HeaderIsSaid(img: seq<byte>, table: nat, i: nat, h: SectionHeader)
    requires Occupies(img, table + HEADER_SIZE * i, Pack(HeaderRecord(h))) && HeaderFits(h) && h.flags == h.addr == 0
    ensures HeaderSays(img, table + 64 * i, h.kind, h.link, h.info, h.align, h.entsize)
  {
    HeaderFields(img, table + 64 * i, h);
    hide ReadWord, Occupies, Pack;
  }

  lemma {:induction false} OwnHeaderSays(t: Target, sections: seq<Section>, syms: seq<ElfSymbol>, i: nat)
    requires WellFormed(sections, syms) && i < |sections| + 4
    requires HeaderOf(sections, syms, i).flags == HeaderOf(sections, syms, i).addr == 0
    ensures var h := HeaderOf(sections, syms, i);
      HeaderSays(Image(t, sections, syms), LayoutFor(sections, syms).table + 64 * i, h.kind, h.link, h.info, h.align,
                 h.entsize)
  {
    hide *;
    HeadersFit(sections, syms, i);
    HeaderInImage(t, sections, syms, i);
    HeaderIsSaid(Image(t, sections, syms), LayoutFor(sections, syms).table, i, HeaderOf(sections, syms, i));
  }

  /** The null header, the symbol table with the number of its local entries, and the two string tables. */
  lemma {:induction false} OwnSectionsAreDescribed(t: Target, sections: seq<Section>, syms: seq<ElfSymbol>)
    requires WellFormed(sections, syms)
    ensures var img, table, n := Image(t, sections, syms), LayoutFor(sections, syms).table, |sections|;
      && HeaderSays(img, table, 0, 0, 0, 0, 0)
      && HeaderSays(img, table + 64 * (n + 1), 2, n + 2, |Locals(syms)| + 1, 8, 24)
      && HeaderSays(img, table + 64 * (n + 2), 3, 0, 0, 1, 0)
      && HeaderSays(img, table + 64 * (n + 3), 3, 0, 0, 1, 0)
  {
    hide *;
    OwnHeaderIs(sections, syms);
    OwnHeaderSays(t, sections, syms, 0);
    OwnHeaderSays(t, sections, syms, |sections| + 1);
    OwnHeaderSays(t, sections, syms, |sections| + 2);
    OwnHeaderSays(t, sections, syms, |sections| + 3);
  }

  /** Nothing is further back than alignment asks for: sections at the next multiple of their alignment, the
      symbol table at the next multiple of eight, then the strings, and the header table at the next
      multiple of eight. */
  lemma {:induction false} LayoutIsTight(sections: seq<Section>, syms: seq<ElfSymbol>, i: nat)
    ensures i < |sections| ==>
      && 0 <= OffsetOf(sections, i) - EndOf(sections, i) < AlignOf(sections[i])
      && EndOf(sections, i + 1) == OffsetOf(sections, i) + if sections[i].kind == 8 then 0 else |sections[i].data|
    ensures EndOf(sections, 0) == 64
    ensures var l := LayoutFor(sections, syms);
      && 0 <= l.symtab - EndOf(sections, |sections|) < 8 && l.symtab % 8 == 0
      && l.strtab == l.symtab + |SymtabBytes(syms, StringsOf(syms))| && l.shstrtab == l.strtab + |StringsOf(syms).data|
      && 0 <= l.table - (l.shstrtab + |HeaderStrings(sections).data|) < 8 && l.table % 8 == 0
      && l.total == l.table + 64 * (|sections| + 4)
  {
    hide SymtabBytes, StringsOf, HeaderStrings;
  }

  // ---- what the parser makes of the rest ----

  /** Section symbols, and names that stand for sections, are not told apart by object once more. */
  lemma {:induction false} SectionNamesStay(id: Origin, name: Name, section: Name, binding: nat, kind: nat)
    ensures ToldApart(id, name, binding, 3) == name
    ensures ToldApart(id, SectionSymbolName(section, id.number), binding, kind) == SectionSymbolName(section, id.number)
    ensures SectionSymbolName(section, id.number) == Ascii("__secsym_") + section + Ascii("_") + Digits(id.number)
  {
    NamesAreText();
    assert Ascii("_") == [0x5f];
    hide Ascii, Digits;
  }

  /** Data without a section table are taken for code, loaded and executable. */
  lemma {:induction false} RawDataIsCode(id: Origin, data: seq<byte>)
    requires Readable(data) && (|data| < 64 || TableOf(data).None?)
    ensures var input := Parsed(id, data);
      && |input.sections| == 1 && input.symbols == [] && input.relocs == []
      && var s := input.sections[0];
         && s.name == Ascii(".text") && s.kind == 1 && s.flags == 2 + 4
         && s.data == data && s.size == |data| && s.align == 16
  {
    NamesAreText();
  }

  /** Bindings and types that the linker does not know are read as global and as untyped. */
  lemma {:induction false} UnknownIsRead(b: nat, k: nat)
    ensures BindingRead(b) == (if b in {STB_LOCAL, STB_GLOBAL, STB_WEAK} then b else STB_GLOBAL)
    ensures KindRead(k) == (if k in {STT_NOTYPE, STT_OBJECT, STT_FUNC} then k else STT_NOTYPE)
  {
  }

  /** Entries without addends are read with addend zero, and are sixteen bytes apart unless the header says
      otherwise. */
  lemma {:induction false} WithoutAddend(o: Object, loaded: seq<InputSection>, h: SectionHeader, j: nat)
    requires ValidObject(o) && SoundHeader(h, |o.data|) && h.kind == 9 && EntryFits(o, h, j)
    ensures RelocRead(o, loaded, h, j).addend == 0 && (h.entsize == 0 ==> EntrySize(h) == 16)
  {
    hide TargetName, ReadWord, ValidObject;
  }
}
