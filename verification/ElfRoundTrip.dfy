/** Parsing what the writer wrote gives back the sections and the symbols. */
module ElfRoundTrip {
  import opened Wrappers
  import opened Bytes
  import opened ElfStrings
  import opened ElfFormat
  import opened ElfSymbols
  import opened ElfWriter
  import opened ElfParser

  predicate SectionFits(s: Section) {
    && NulFree(s.name)
    && s.kind < Pow256(4) && s.link < Pow256(4) && s.info < Pow256(4)
    && s.flags < Pow256(8) && s.address < Pow256(8) && s.align < Pow256(8) && s.entsize < Pow256(8)
    && MemorySize(s) < Pow256(8)
    && s.kind != SHT_SYMTAB
    && (s.kind == SHT_RELA ==> s.entsize == 0 || s.entsize >= 24)
    && (s.kind == SHT_REL ==> s.entsize == 0 || s.entsize >= 16)
  }

  predicate SymbolFitsFile(s: ElfSymbol) {
    NulFree(s.name) && s.value < Pow256(8) && s.size < Pow256(8) && s.section < Pow256(2)
  }

  /** Everything fits the width of its field, names are NUL-free, and the caller adds no symbol table of
      its own. */
  ghost predicate WellFormed(sections: seq<Section>, syms: seq<ElfSymbol>) {
    && (forall i :: 0 <= i < |sections| ==> SectionFits(sections[i]))
    && (forall i :: 0 <= i < |syms| ==> SymbolFitsFile(syms[i]))
    && |sections| + 4 < Pow256(2) && |syms| + 1 < Pow256(4)
    && |StringsOf(syms).data| < Pow256(4) && |HeaderStrings(sections).data| < Pow256(4)
    && LayoutFor(sections, syms).total < Pow256(8)
  }

  // ---- the file header ----

  lemma {:induction false} FileHeaderReads(t: Target, sections: seq<Section>, syms: seq<ElfSymbol>)
    requires WellFormed(sections, syms)
    ensures var img := Image(t, sections, syms);
      && |img| == LayoutFor(sections, syms).total && |img| >= 64
      && img[4] == 2 && img[5] == 1
      && ReadWord(img, 40, 8) == LayoutFor(sections, syms).table && ReadWord(img, 58, 2) == HEADER_SIZE
      && ReadWord(img, 60, 2) == |sections| + 4 && ReadWord(img, 62, 2) == |sections| + 3
  {
    hide Image, Pack, StartOf, Occupies, ReadWord, LayoutFor, Contents;
    var img, layout := Image(t, sections, syms), LayoutFor(sections, syms);
    ImageLength(t, sections, syms);
    FileHeaderInImage(t, sections, syms);
    LayoutBounds(sections, syms);
    FileHeaderParts(img, t, layout, |sections|);
    hide WellFormed;
    FileRecordReads(img, t, layout, |sections|);
  }

  lemma {:induction false} FileRecordReads(img: seq<byte>, t: Target, layout: Layout, n: nat)
    requires Occupies(img, 16, Pack(FileRecord(t, layout, n))) && layout.table < Pow256(8) && n + 4 < Pow256(2)
    ensures |img| >= 64 && ReadWord(img, 40, 8) == layout.table && ReadWord(img, 58, 2) == HEADER_SIZE
    ensures ReadWord(img, 60, 2) == n + 4 && ReadWord(img, 62, 2) == n + 3
  {
    hide Pack, StartOf, Occupies, ReadWord;
    FileHeaderLength(t, layout, n);
    var record := FileRecord(t, layout, n);
    FieldReads(img, 16, record, 5);
    assert Pow256(2) == 65536;
    FieldReads(img, 16, record, 10);
    FieldReads(img, 16, record, 11);
    FieldReads(img, 16, record, 12);
  }

  lemma {:induction false} FileHeaderParts(img: seq<byte>, t: Target, layout: Layout, n: nat)
    requires Occupies(img, 0, IDENT() + Pack(FileRecord(t, layout, n)))
    ensures Occupies(img, 16, Pack(FileRecord(t, layout, n)))
    ensures |img| >= 16 && img[4] == 2 && img[5] == 1
  {
    var record := Pack(FileRecord(t, layout, n));
    var header := IDENT() + record;
    InSecond(IDENT(), record, 0, record);
    OccupiesWithin(img, 0, header, 16, record);
    assert img[..|header|] == header;
    assert header[4] == 2 && header[5] == 1;
  }

  // ---- the header table ----

  lemma {:induction false} NamesAreSound(sections: seq<Section>)
    requires forall i :: 0 <= i < |sections| ==> NulFree(sections[i].name)
    ensures Sound(HeaderStrings(sections))
    ensures forall i :: 0 <= i < |sections| ==> sections[i].name in HeaderStrings(sections).index
    ensures SYMTAB_NAME() in HeaderStrings(sections).index && STRTAB_NAME() in HeaderStrings(sections).index
    ensures SHSTRTAB_NAME() in HeaderStrings(sections).index
  {
    var own := [SYMTAB_NAME(), STRTAB_NAME(), SHSTRTAB_NAME()];
    var names := [[]] + SectionNames(sections) + own;
    NothingSound();
    forall i | 0 <= i < |names|
      ensures NulFree(names[i])
    {
    }
    AllAddedSound(NO_STRINGS, names);
    hide AddedAll, Sound;
    forall i | 0 <= i < |sections|
      ensures sections[i].name in HeaderStrings(sections).index
    {
      assert names[1 + i] == sections[i].name;
    }
    assert names[|sections| + 1] == SYMTAB_NAME() && names[|sections| + 2] == STRTAB_NAME()
        && names[|sections| + 3] == SHSTRTAB_NAME();
  }

  lemma {:induction false} SymbolNamesAreSound(syms: seq<ElfSymbol>)
    requires forall i :: 0 <= i < |syms| ==> NulFree(syms[i].name)
    ensures Sound(StringsOf(syms)) && forall i :: 0 <= i < |syms| ==> syms[i].name in StringsOf(syms).index
  {
    NothingSound();
    AllAddedSound(NO_STRINGS, NamesOf(syms));
  }

  lemma {:induction false} NameOffsetFits(st: Strings, s: Name)
    requires Sound(st) && s in st.index
    ensures st.index[s] < |st.data|
  {
  }

  /** The bounds that a well-formed object keeps to. */
  lemma {:induction false} FileBounds(sections: seq<Section>, syms: seq<ElfSymbol>)
    requires WellFormed(sections, syms)
    ensures |syms| + 1 < Pow256(4) && |sections| + 4 < Pow256(4)
    ensures |StringsOf(syms).data| < Pow256(4) && |HeaderStrings(sections).data| < Pow256(4)
    ensures LayoutFor(sections, syms).total < Pow256(8)
    ensures forall i :: 0 <= i < |sections| ==> SectionFits(sections[i]) && NulFree(sections[i].name)
  {
    Sizes();
    hide LayoutFor, StringsOf, HeaderStrings, Pow256;
  }

  lemma {:induction false} OwnNamesFit(sections: seq<Section>, syms: seq<ElfSymbol>, name: Name)
    requires WellFormed(sections, syms)
    ensures OwnName(HeaderStrings(sections), name) < Pow256(4)
  {
    FileBounds(sections, syms);
    NamesAreSound(sections);
    Sizes();
    hide WellFormed, HeaderStrings, Sound, Pow256;
    var names := HeaderStrings(sections);
    if name in names.index {
      NameOffsetFits(names, name);
    }
  }

  lemma {:induction false} UserHeaderFits(sections: seq<Section>, names: Strings, i: nat)
    requires i < |sections| && SectionFits(sections[i])
    requires OffsetOf(sections, i) < Pow256(8) && OwnName(names, sections[i].name) < Pow256(4)
    ensures HeaderFits(UserHeader(sections, i, names))
  {
    hide OffsetOf, Pow256, MemorySize, NulFree;
  }

  lemma {:induction false} HeaderIsUsers(sections: seq<Section>, syms: seq<ElfSymbol>, i: nat)
    requires 0 < i <= |sections|
    ensures HeaderOf(sections, syms, i) == UserHeader(sections, i - 1, HeaderStrings(sections))
    ensures HeaderOf(sections, syms, i).offset == OffsetOf(sections, i - 1)
  {
    hide HeaderStrings, StringsOf, SymtabBytes, LayoutOf, OffsetOf;
  }

  lemma {:induction false} WriterHeaderFits(sections: seq<Section>, syms: seq<ElfSymbol>, i: nat)
    requires WellFormed(sections, syms) && (i == 0 || |sections| < i < |sections| + 4)
    ensures HeaderFits(HeaderOf(sections, syms, i))
    ensures HeaderOf(sections, syms, i).offset <= LayoutFor(sections, syms).total
  {
    FileBounds(sections, syms);
    OwnNamesFit(sections, syms, SYMTAB_NAME());
    OwnNamesFit(sections, syms, STRTAB_NAME());
    OwnNamesFit(sections, syms, SHSTRTAB_NAME());
    LayoutBounds(sections, syms);
    LocalsAreSome(syms);
    Sizes();
    hide WellFormed, SYMTAB_NAME, STRTAB_NAME, SHSTRTAB_NAME, OwnName, OffsetOf, EndOf, HeaderStrings, StringsOf,
      SymtabBytes, Pow256, Locals, SectionFits;
  }

  lemma {:induction false} HeadersFit(sections: seq<Section>, syms: seq<ElfSymbol>, i: nat)
    requires WellFormed(sections, syms) && i < |sections| + 4
    ensures HeaderFits(HeaderOf(sections, syms, i))
    ensures HeaderOf(sections, syms, i).offset <= LayoutFor(sections, syms).total
  {
    hide HeaderOf, HeaderFits, WellFormed, OffsetOf, EndOf, HeaderStrings, StringsOf, SymtabBytes, LayoutFor,
      UserHeader, Pow256, SectionFits, NulFree, OwnName;
    if 0 < i <= |sections| {
      FileBounds(sections, syms);
      OwnNamesFit(sections, syms, sections[i - 1].name);
      LayoutBounds(sections, syms);
      EndStep(sections, i - 1);
      EndsAscend(sections, i, |sections|);
      HeaderIsUsers(sections, syms, i);
      UserHeaderFits(sections, HeaderStrings(sections), i - 1);
    } else {
      WriterHeaderFits(sections, syms, i);
    }
  }

  lemma {:induction false} LocalsAreSome(syms: seq<ElfSymbol>)
    ensures |Locals(syms)| <= |syms|
  {
    LocalsComeFirst(syms);
  }

  lemma {:induction false} Sizes()
    ensures Pow256(2) == 0x1_0000 && Pow256(4) == 0x1_0000_0000 && Pow256(8) == 0x1_0000_0000_0000_0000
  {
    EightBytes();
  }

  /** The parts of the file lie within its length. */
  lemma {:induction false} LayoutBounds(sections: seq<Section>, syms: seq<ElfSymbol>)
    ensures var layout := LayoutFor(sections, syms);
      && EndOf(sections, |sections|) <= layout.symtab
      && layout.symtab + |SymtabBytes(syms, StringsOf(syms))| == layout.strtab
      && layout.strtab + |StringsOf(syms).data| == layout.shstrtab
      && layout.shstrtab + |HeaderStrings(sections).data| <= layout.table
      && 64 <= layout.table && layout.table + (|sections| + 4) * HEADER_SIZE == layout.total
  {
    EndsAscend(sections, 0, |sections|);
    hide EndOf, SymtabBytes, StringsOf, HeaderStrings;
  }

  /** The reader's header number `i`. */
  function HeaderBack(sections: seq<Section>, syms: seq<ElfSymbol>, i: nat): SectionHeader
    requires i < |sections| + 4
  {
    HeaderOf(sections, syms, i).(addr := 0)
  }

  lemma {:induction false} HeaderIsBack(t: Target, sections: seq<Section>, syms: seq<ElfSymbol>, i: nat)
    requires WellFormed(sections, syms) && i < |sections| + 4
    ensures var at := LayoutFor(sections, syms).table + i * HEADER_SIZE;
      at + HEADER_SIZE <= |Image(t, sections, syms)|
          && ReadHeader(Image(t, sections, syms), at) == HeaderBack(sections, syms, i)
  {
    hide WellFormed, HeaderOf, HeaderFits, LayoutFor, Image, Pack, HeaderRecord, Occupies, ReadHeader;
    HeadersFit(sections, syms, i);
    HeaderInImage(t, sections, syms, i);
    HeaderReads(Image(t, sections, syms), LayoutFor(sections, syms).table + HEADER_SIZE * i,
                HeaderOf(sections, syms, i));
  }

  lemma {:induction false} HeaderReadsSound(t: Target, sections: seq<Section>, syms: seq<ElfSymbol>, i: nat)
    requires WellFormed(sections, syms) && i < |sections| + 4
    ensures var img, at := Image(t, sections, syms), LayoutFor(sections, syms).table + i * HEADER_SIZE;
      at + HEADER_SIZE <= |img| && SoundHeader(ReadHeader(img, at), |img|)
  {
    hide *;
    HeaderIsBack(t, sections, syms, i);
    HeaderIsSound(t, sections, syms, i);
  }

  lemma {:induction false} TableIsFound(img: seq<byte>, table: nat, n: nat)
    requires |img| >= 64 && img[4] == 2 && img[5] == 1
    requires ReadWord(img, 40, 8) == table && ReadWord(img, 58, 2) == HEADER_SIZE && ReadWord(img, 60, 2) == n
    requires table > 0 && n > 0 && table + n * HEADER_SIZE == |img|
    requires forall i :: 0 <= i < n ==> SoundHeader(ReadHeader(img, table + i * HEADER_SIZE), |img|)
    ensures TableOf(img) == Some((table, n)) && Readable(img)
  {
    hide ReadWord, ReadHeader, SoundHeader;
  }

  lemma {:induction false} TableIsBack(t: Target, sections: seq<Section>, syms: seq<ElfSymbol>)
    requires WellFormed(sections, syms)
    ensures var img := Image(t, sections, syms);
      && |img| >= 64 && TableOf(img) == Some((LayoutFor(sections, syms).table, |sections| + 4)) && Readable(img)
  {
    hide WellFormed, Image, LayoutFor, ReadWord, ReadHeader, SoundHeader, Readable, TableOf;
    FileHeaderReads(t, sections, syms);
    LayoutBounds(sections, syms);
    forall i | 0 <= i < |sections| + 4
      ensures SoundHeader(ReadHeader(Image(t, sections, syms), LayoutFor(sections, syms).table + i * HEADER_SIZE),
                          |Image(t, sections, syms)|)
    {
      HeaderReadsSound(t, sections, syms, i);
    }
    TableIsFound(Image(t, sections, syms), LayoutFor(sections, syms).table, |sections| + 4);
  }

  lemma {:induction false} HeaderIsSound(t: Target, sections: seq<Section>, syms: seq<ElfSymbol>, i: nat)
    requires WellFormed(sections, syms) && i < |sections| + 4
    ensures SoundHeader(HeaderBack(sections, syms, i), |Image(t, sections, syms)|)
  {
    HeadersFit(sections, syms, i);
    ImageLength(t, sections, syms);
    hide Image, OffsetOf, HeaderStrings, StringsOf, SymtabBytes, HeaderFits;
  }

  // ---- the object ----

  function ObjectBack(t: Target, sections: seq<Section>, syms: seq<ElfSymbol>, id: Origin): Object {
    Object(Image(t, sections, syms),
           seq(|sections| + 4, i requires 0 <= i < |sections| + 4 => HeaderBack(sections, syms, i)),
           HeaderStrings(sections).data, id)
  }

  lemma {:induction false} WholeContents(data: seq<byte>, h: SectionHeader, part: seq<byte>)
    requires Occupies(data, h.offset, part) && h.size == |part|
    ensures h.offset <= |data| && ContentsOf(data, h) == part
  {
  }

  lemma {:induction false} ObjectIsBack(t: Target, sections: seq<Section>, syms: seq<ElfSymbol>, id: Origin)
    requires WellFormed(sections, syms)
    ensures Readable(Image(t, sections, syms)) && |Image(t, sections, syms)| >= 64
    ensures TableOf(Image(t, sections, syms)).Some?
    ensures ObjectOf(id, Image(t, sections, syms)) == ObjectBack(t, sections, syms, id)
  {
    hide WellFormed, Image, LayoutFor, ReadWord, ReadHeader, HeaderBack, Readable, TableOf, ContentsOf, HeaderStrings;
    TableIsBack(t, sections, syms);
    FileHeaderReads(t, sections, syms);
    var img, table := Image(t, sections, syms), LayoutFor(sections, syms).table;
    var o, back := ObjectOf(id, img), ObjectBack(t, sections, syms, id);
    forall i | 0 <= i < |sections| + 4
      ensures o.hs[i] == back.hs[i]
    {
      HeaderIsBack(t, sections, syms, i);
    }
    assert o.hs == back.hs;
    NamesContents(t, sections, syms);
  }

  lemma {:induction false} NamesContents(t: Target, sections: seq<Section>, syms: seq<ElfSymbol>)
    ensures var img, n := Image(t, sections, syms), |sections|;
      && HeaderBack(sections, syms, n + 3).offset <= |img|
      && ContentsOf(img, HeaderBack(sections, syms, n + 3)) == HeaderStrings(sections).data
      && HeaderBack(sections, syms, n + 2).offset <= |img|
      && ContentsOf(img, HeaderBack(sections, syms, n + 2)) == StringsOf(syms).data
  {
    TablesInImage(t, sections, syms);
    hide Image, Occupies, ContentsOf, HeaderStrings, StringsOf, SymtabBytes;
    WholeContents(Image(t, sections, syms), HeaderBack(sections, syms, |sections| + 3), HeaderStrings(sections).data);
    WholeContents(Image(t, sections, syms), HeaderBack(sections, syms, |sections| + 2), StringsOf(syms).data);
  }

  /** The name of section number `i`. */
  function NameBack(sections: seq<Section>, i: nat): Name
    requires i < |sections| + 4
  {
    if i == 0 then []
    else if i <= |sections| then sections[i - 1].name
    else if i == |sections| + 1 then SYMTAB_NAME()
    else if i == |sections| + 2 then STRTAB_NAME()
    else SHSTRTAB_NAME()
  }

  lemma {:induction false} SectionNameIsBack(t: Target, sections: seq<Section>, syms: seq<ElfSymbol>, id: Origin,
                                             i: nat)
    requires WellFormed(sections, syms) && i < |sections| + 4
    ensures SectionName(ObjectBack(t, sections, syms, id), i) == NameBack(sections, i)
  {
    NameBackIsIndexed(sections, syms, i);
    HeaderName(sections, syms, i);
    hide WellFormed, HeaderOf, Image, HeaderStrings, Sound, NameAt, NameBack;
    NameIsFound(HeaderStrings(sections), NameBack(sections, i));
  }

  lemma {:induction false} NameBackIsIndexed(sections: seq<Section>, syms: seq<ElfSymbol>, i: nat)
    requires WellFormed(sections, syms) && i < |sections| + 4
    ensures Sound(HeaderStrings(sections)) && NameBack(sections, i) in HeaderStrings(sections).index
    ensures i == 0 ==> HeaderStrings(sections).index[NameBack(sections, i)] == 0
  {
    FileBounds(sections, syms);
    NamesAreSound(sections);
    EmptyName(sections);
    hide WellFormed, HeaderStrings, Sound, SYMTAB_NAME, STRTAB_NAME, SHSTRTAB_NAME;
  }

  lemma {:induction false} HeaderName(sections: seq<Section>, syms: seq<ElfSymbol>, i: nat)
    requires i < |sections| + 4
    ensures HeaderOf(sections, syms, i).name
         == if i == 0 then 0 else OwnName(HeaderStrings(sections), NameBack(sections, i))
  {
    hide HeaderStrings, SYMTAB_NAME, STRTAB_NAME, SHSTRTAB_NAME, StringsOf, SymtabBytes, LayoutOf, OffsetOf;
  }

  lemma {:induction false} EmptyKept(st: Strings, names: seq<Name>)
    requires [] in st.index && st.index[[]] == 0
    ensures var st' := AddedAll(st, names); [] in st'.index && st'.index[[]] == 0
    decreases |names|
  {
    if names != [] {
      EmptyKept(st, names[..|names| - 1]);
    }
  }

  lemma {:induction false} EmptyName(sections: seq<Section>)
    ensures [] in HeaderStrings(sections).index && HeaderStrings(sections).index[[]] == 0
  {
    EmptyKept(NO_STRINGS, [[]] + SectionNames(sections) + [SYMTAB_NAME(), STRTAB_NAME(), SHSTRTAB_NAME()]);
  }

  // ---- sections ----

  /** What the parser makes of section number `i`. */
  function SectionBack(sections: seq<Section>, id: Origin, i: nat): InputSection
    requires 0 < i <= |sections|
  {
    var s := sections[i - 1];
    InputSection(s.name, s.kind, s.flags, FileData(s), MemorySize(s), AlignOf(s), id.number, i)
  }

  function SectionsBack(sections: seq<Section>, id: Origin, i: nat): seq<InputSection>
    requires i <= |sections| + 1
    decreases |sections| + 1 - i
  {
    if i == |sections| + 1 then []
    else (if i > 0 && Loadable(sections[i - 1].name, sections[i - 1].kind) then [SectionBack(sections, id, i)] else [])
         + SectionsBack(sections, id, i + 1)
  }

  /** Sections with file contents give their size by their data. */
  predicate PlainSizes(sections: seq<Section>) {
    forall i :: 0 <= i < |sections| && sections[i].kind == SHT_PROGBITS
        ==> MemorySize(sections[i]) == |sections[i].data|
  }

  lemma {:induction false} UserHeaderBack(sections: seq<Section>, syms: seq<ElfSymbol>, i: nat)
    requires 0 < i <= |sections|
    ensures var s, h := sections[i - 1], HeaderBack(sections, syms, i);
      h.kind == s.kind && h.flags == s.flags && h.size == MemorySize(s) && h.align == s.align && h.info == s.info
      && h.entsize == s.entsize && h.offset == OffsetOf(sections, i - 1)
  {
    hide HeaderStrings, StringsOf, SymtabBytes, LayoutOf, OffsetOf;
  }

  lemma {:induction false} OwnHeaderBack(sections: seq<Section>, syms: seq<ElfSymbol>, i: nat)
    requires i == 0 || |sections| < i < |sections| + 4
    ensures HeaderBack(sections, syms, i).kind
         == if i == 0 then 0 else if i == |sections| + 1 then SHT_SYMTAB else SHT_STRTAB
  {
    hide HeaderStrings, StringsOf, SymtabBytes, LayoutOf, OffsetOf;
  }

  /** A section with file contents is read back in full exactly when its declared size, if any, is the
      length of its data. */
  lemma {:induction false} ContentsBack(t: Target, sections: seq<Section>, syms: seq<ElfSymbol>, i: nat)
    requires 0 < i <= |sections| && sections[i - 1].kind == SHT_PROGBITS
    ensures var img, h, s := Image(t, sections, syms), HeaderBack(sections, syms, i), sections[i - 1];
      h.offset <= |img| && (ContentsOf(img, h) == s.data <==> s.logicalSize == 0 || s.logicalSize == |s.data|)
  {
    hide Image, HeaderBack, HeaderOf, OffsetOf, EndOf, ContentsOf, SymtabBytes, StringsOf, HeaderStrings;
    SectionInImage(t, sections, syms, i - 1);
    UserHeaderBack(sections, syms, i);
    HeaderOffset(sections, syms, i);
    ImageLength(t, sections, syms);
    LayoutBounds(sections, syms);
    EndStep(sections, i - 1);
    EndsAscend(sections, i, |sections|);
    CutContents(Image(t, sections, syms), HeaderBack(sections, syms, i), sections[i - 1].data);
  }

  lemma {:induction false} CutContents(data: seq<byte>, h: SectionHeader, part: seq<byte>)
    requires Occupies(data, h.offset, part) && h.offset + |part| < |data|
    ensures ContentsOf(data, h) == part <==> h.size == |part|
  {
    assert data[h.offset..h.offset + |part|] == part;
  }

  lemma {:induction false} SectionIsBack(t: Target, sections: seq<Section>, syms: seq<ElfSymbol>, id: Origin, i: nat)
    requires WellFormed(sections, syms) && PlainSizes(sections) && 0 < i <= |sections|
    requires Loadable(sections[i - 1].name, sections[i - 1].kind)
    requires ValidObject(ObjectBack(t, sections, syms, id))
    ensures SectionRead(ObjectBack(t, sections, syms, id), i) == SectionBack(sections, id, i)
  {
    hide WellFormed, Image, HeaderBack, SectionName, ContentsOf, HeaderStrings, Skipped, ValidObject;
    SectionNameIsBack(t, sections, syms, id, i);
    UserHeaderBack(sections, syms, i);
    if sections[i - 1].kind == SHT_PROGBITS {
      ContentsBack(t, sections, syms, i);
    }
  }

  lemma {:induction false} HeaderOffset(sections: seq<Section>, syms: seq<ElfSymbol>, i: nat)
    requires i < |sections| + 4
    ensures HeaderOf(sections, syms, i).offset == HeaderBack(sections, syms, i).offset
  {
  }

  lemma {:induction false} OneSectionIsBack(t: Target, sections: seq<Section>, syms: seq<ElfSymbol>, id: Origin, i: nat)
    requires WellFormed(sections, syms) && PlainSizes(sections) && i < |sections| + 4
    requires ValidObject(ObjectBack(t, sections, syms, id))
    ensures var o := ObjectBack(t, sections, syms, id);
      (if i > 0 && Loadable(SectionName(o, i), o.hs[i].kind) then [SectionRead(o, i)] else [])
      == if 0 < i <= |sections| && Loadable(sections[i - 1].name, sections[i - 1].kind)
         then [SectionBack(sections, id, i)] else []
  {
    hide WellFormed, HeaderBack, SectionName, SectionRead, SectionBack, Skipped, ValidObject, HeaderStrings, Image,
      PlainSizes;
    if 0 < i <= |sections| {
      SectionNameIsBack(t, sections, syms, id, i);
      UserHeaderBack(sections, syms, i);
      if Loadable(sections[i - 1].name, sections[i - 1].kind) {
        SectionIsBack(t, sections, syms, id, i);
      }
    } else {
      OwnHeaderBack(sections, syms, i);
    }
  }

  lemma {:induction false} SectionsAreBack(t: Target, sections: seq<Section>, syms: seq<ElfSymbol>, id: Origin, i: nat)
    requires WellFormed(sections, syms) && PlainSizes(sections) && i <= |sections| + 4
    requires ValidObject(ObjectBack(t, sections, syms, id))
    ensures SectionsFrom(ObjectBack(t, sections, syms, id), i)
         == if i <= |sections| then SectionsBack(sections, id, i) else []
    decreases |sections| + 4 - i
  {
    hide WellFormed, HeaderBack, SectionName, SectionRead, SectionBack, Loadable, ValidObject, HeaderStrings, Image,
      PlainSizes;
    if i < |sections| + 4 {
      SectionsAreBack(t, sections, syms, id, i + 1);
      OneSectionIsBack(t, sections, syms, id, i);
    }
  }

  // ---- symbols ----

  /** What the parser makes of a symbol. */
  function SymbolBack(sections: seq<Section>, id: Origin, s: ElfSymbol): InputSymbol {
    var own := if s.kind % 16 == 3 && 0 < s.section < |sections| + 4 && NameBack(sections, s.section) != []
               then SectionSymbolName(NameBack(sections, s.section), id.number) else s.name;
    InputSymbol(ToldApart(id, own, s.binding % 16, s.kind % 16), s.value, s.size, BindingRead(s.binding % 16),
                KindRead(s.kind % 16), s.visibility % 4, s.section, id.number)
  }

  /** The name under which relocations find the symbol. */
  function TargetBack(id: Origin, s: ElfSymbol): Name {
    ToldApart(id, s.name, s.binding % 16, s.kind % 16)
  }

  function SymbolsBack(sections: seq<Section>, id: Origin, syms: seq<ElfSymbol>): (r: seq<InputSymbol>)
    ensures |r| == |syms| && forall i :: 0 <= i < |syms| ==> r[i] == SymbolBack(sections, id, syms[i])
  {
    seq(|syms|, i requires 0 <= i < |syms| => SymbolBack(sections, id, syms[i]))
  }

  lemma {:induction false} KindBack(sections: seq<Section>, syms: seq<ElfSymbol>, i: nat)
    requires WellFormed(sections, syms) && i <= |sections| + 1
    ensures HeaderBack(sections, syms, i).kind == SHT_SYMTAB <==> i == |sections| + 1
  {
    hide HeaderBack, WellFormed;
    if 0 < i <= |sections| {
      FileBounds(sections, syms);
      UserHeaderBack(sections, syms, i);
    } else {
      OwnHeaderBack(sections, syms, i);
    }
  }

  lemma {:induction false} FirstSymtabIsBack(t: Target, sections: seq<Section>, syms: seq<ElfSymbol>, id: Origin,
                                             i: nat)
    requires WellFormed(sections, syms) && i <= |sections| + 1
    ensures FirstSymtab(ObjectBack(t, sections, syms, id).hs, i) == Some(|sections| + 1)
    decreases |sections| + 1 - i
  {
    hide HeaderBack, HeaderStrings, Image, WellFormed;
    KindBack(sections, syms, i);
    if i <= |sections| {
      FirstSymtabIsBack(t, sections, syms, id, i + 1);
    }
  }

  lemma {:induction false} SymtabHeaderBack(sections: seq<Section>, syms: seq<ElfSymbol>)
    ensures var h := HeaderBack(sections, syms, |sections| + 1);
      && h.kind == SHT_SYMTAB && h.entsize == SYMBOL_SIZE && h.link == |sections| + 2 && h.info == |Locals(syms)| + 1
      && h.size == |SymtabBytes(syms, StringsOf(syms))| && h.offset == LayoutFor(sections, syms).symtab
      && EntrySize(h) == SYMBOL_SIZE
  {
    hide HeaderStrings, StringsOf, SymtabBytes, OffsetOf, Locals, EndOf;
  }

  lemma {:induction false} SymtabLength(syms: seq<ElfSymbol>, strings: Strings)
    ensures |SymtabBytes(syms, strings)| == SYMBOL_SIZE * (|syms| + 1) && |Ordered(syms)| == |syms|
    ensures Occupies(SymtabBytes(syms, strings), 0, Pack(SymbolRecord(NULL_SYMBOL)))
  {
    LocalsComeFirst(syms);
    if syms != [] {
      SymbolAtIndex(syms, strings, 0);
    } else {
      NothingOrdered(strings);
      NullLength();
      hide Entries, Pack, Ordered;
      OccupiesEnd([], Pack(SymbolRecord(NULL_SYMBOL)), []);
      assert [] + Pack(SymbolRecord(NULL_SYMBOL)) + [] == Pack(SymbolRecord(NULL_SYMBOL));
      assert Entries(Ordered(syms), strings) == [];
      assert SymtabBytes(syms, strings) == Pack(SymbolRecord(NULL_SYMBOL)) + [];
    }
  }

  /** Entry `j` of the symbol table as the reader sees it. */
  function RawBack(syms: seq<ElfSymbol>, j: nat): RawSymbol
    requires j <= |syms| && |Ordered(syms)| == |syms|
  {
    if j == 0 then NULL_SYMBOL else RawOf(Ordered(syms)[j - 1], StringsOf(syms))
  }

  lemma {:induction false} RawFits(syms: seq<ElfSymbol>, s: ElfSymbol)
    requires (forall i :: 0 <= i < |syms| ==> SymbolFitsFile(syms[i])) && s in syms
             && |StringsOf(syms).data| < Pow256(4)
    ensures SymbolFits(RawOf(s, StringsOf(syms)))
    ensures NameAt(StringsOf(syms).data, RawOf(s, StringsOf(syms)).name) == s.name
  {
    SymbolNamesAreSound(syms);
    var k :| 0 <= k < |syms| && syms[k] == s;
    assert Pow256(1) == 256;
    hide StringsOf, Sound, Pow256;
    NameOffsetFits(StringsOf(syms), s.name);
    NameIsFound(StringsOf(syms), s.name);
  }

  lemma {:induction false} OrderedMember(syms: seq<ElfSymbol>, k: nat)
    requires k < |Ordered(syms)|
    ensures Ordered(syms)[k] in syms
  {
    LocalsComeFirst(syms);
    assert Ordered(syms)[k] in multiset(Ordered(syms));
  }

  lemma {:induction false} NullFits()
    ensures SymbolFits(NULL_SYMBOL)
  {
  }

  lemma {:induction false} WellFormedSymbols(sections: seq<Section>, syms: seq<ElfSymbol>)
    requires WellFormed(sections, syms)
    ensures (forall i :: 0 <= i < |syms| ==> SymbolFitsFile(syms[i])) && |StringsOf(syms).data| < Pow256(4)
  {
  }

  lemma {:induction false} TableEntry(syms: seq<ElfSymbol>, j: nat)
    requires (forall i :: 0 <= i < |syms| ==> SymbolFitsFile(syms[i])) && |StringsOf(syms).data| < Pow256(4)
             && j <= |syms|
    ensures |Ordered(syms)| == |syms|
    ensures SymbolFits(RawBack(syms, j))
    ensures Occupies(SymtabBytes(syms, StringsOf(syms)), SYMBOL_SIZE * j, Pack(SymbolRecord(RawBack(syms, j))))
  {
    SymtabLength(syms, StringsOf(syms));
    hide SymtabBytes, StringsOf, Occupies, Pack, Ordered, RawOf, SymbolFits, SymbolFitsFile;
    if j == 0 {
      NullFits();
    } else {
      OrderedMember(syms, j - 1);
      RawFits(syms, Ordered(syms)[j - 1]);
      SymbolAtIndex(syms, StringsOf(syms), j - 1);
    }
  }

  lemma {:induction false} SymtabInImage(t: Target, sections: seq<Section>, syms: seq<ElfSymbol>)
    ensures Occupies(Image(t, sections, syms), LayoutFor(sections, syms).symtab, SymtabBytes(syms, StringsOf(syms)))
  {
    TablesInImage(t, sections, syms);
    SymtabHeaderBack(sections, syms);
    HeaderOffset(sections, syms, |sections| + 1);
  }

  lemma {:induction false} EntryIsBack(t: Target, sections: seq<Section>, syms: seq<ElfSymbol>, j: nat)
    requires WellFormed(sections, syms) && j <= |syms|
    ensures |Ordered(syms)| == |syms|
    ensures var at := LayoutFor(sections, syms).symtab + SYMBOL_SIZE * j;
      at + SYMBOL_SIZE <= |Image(t, sections, syms)| && ReadSymbol(Image(t, sections, syms), at) == RawBack(syms, j)
  {
    hide Image, SymtabBytes, StringsOf, Occupies, LayoutFor, Pack, ReadSymbol, Ordered, RawBack, SymbolFits,
      WellFormed, SymbolFitsFile;
    WellFormedSymbols(sections, syms);
    SymtabInImage(t, sections, syms);
    TableEntry(syms, j);
    var img, at := Image(t, sections, syms), LayoutFor(sections, syms).symtab;
    OccupiesWithin(img, at, SymtabBytes(syms, StringsOf(syms)), SYMBOL_SIZE * j, Pack(SymbolRecord(RawBack(syms, j))));
    SymbolReads(img, at + SYMBOL_SIZE * j, RawBack(syms, j));
  }

  /** Binding and type come apart again. */
  lemma {:induction false} SymbolReadBack(t: Target, sections: seq<Section>, syms: seq<ElfSymbol>, id: Origin,
                                          s: ElfSymbol)
    requires WellFormed(sections, syms)
    ensures SymbolRead(ObjectBack(t, sections, syms, id), RawOf(s, StringsOf(syms)), s.name)
         == SymbolBack(sections, id, s)
  {
    var o := ObjectBack(t, sections, syms, id);
    hide WellFormed, StringsOf, HeaderBack, HeaderStrings, Image, NameBack, SectionName;
    if 0 < s.section < |sections| + 4 {
      SectionNameIsBack(t, sections, syms, id, s.section);
    }
    var info := s.binding * 16 % 256 + s.kind % 16;
    assert info / 16 == s.binding % 16 && info % 16 == s.kind % 16 by {
      InfoByte(s.binding, s.kind);
    }
  }

  lemma {:induction false} InfoByte(binding: nat, kind: nat)
    ensures var info := binding * 16 % 256 + kind % 16; info / 16 == binding % 16 && info % 16 == kind % 16
  {
    assert binding * 16 % 256 == (binding % 16) * 16;
  }

  lemma {:induction false} SymbolEntry(t: Target, sections: seq<Section>, syms: seq<ElfSymbol>, id: Origin, j: nat)
    requires WellFormed(sections, syms) && j <= |syms| && ValidObject(ObjectBack(t, sections, syms, id))
    ensures |Ordered(syms)| == |syms|
    ensures var o := ObjectBack(t, sections, syms, id); var h := o.hs[|sections| + 1];
      && h.kind == SHT_SYMTAB && EntrySize(h) == SYMBOL_SIZE && EntryCount(h) == |syms| + 1 && EntryFits(o, h, j)
      && ReadSymbol(o.data, h.offset + j * EntrySize(h)) == RawBack(syms, j)
      && NameAt(Strtab(o, |sections| + 1), RawBack(syms, j).name) == if j == 0 then [] else Ordered(syms)[j - 1].name
  {
    hide Image, SymtabBytes, StringsOf, LayoutFor, ReadSymbol, Ordered, RawBack, WellFormed, HeaderBack, ContentsOf,
      NameAt, HeaderStrings, ValidObject, SymbolFitsFile;
    SymtabHeaderBack(sections, syms);
    EntryIsBack(t, sections, syms, j);
    SymtabLength(syms, StringsOf(syms));
    NamesContents(t, sections, syms);
    WellFormedSymbols(sections, syms);
    EntryName(syms, j);
  }

  lemma {:induction false} EntryName(syms: seq<ElfSymbol>, j: nat)
    requires (forall i :: 0 <= i < |syms| ==> SymbolFitsFile(syms[i])) && |StringsOf(syms).data| < Pow256(4)
             && j <= |syms|
    requires |Ordered(syms)| == |syms|
    ensures NameAt(StringsOf(syms).data, RawBack(syms, j).name) == if j == 0 then [] else Ordered(syms)[j - 1].name
  {
    if j == 0 {
      SymbolNamesAreSound(syms);
      EmptyKept(NO_STRINGS, NamesOf(syms));
      NameIsFound(StringsOf(syms), []);
    } else {
      OrderedMember(syms, j - 1);
      RawFits(syms, Ordered(syms)[j - 1]);
    }
  }

  lemma {:induction false} SymbolsAreBack(t: Target, sections: seq<Section>, syms: seq<ElfSymbol>, id: Origin, j: nat)
    requires WellFormed(sections, syms) && ValidObject(ObjectBack(t, sections, syms, id)) && 1 <= j <= |syms| + 1
    requires ObjectBack(t, sections, syms, id).hs[|sections| + 1].kind == SHT_SYMTAB && |Ordered(syms)| == |syms|
    ensures SymbolsFrom(ObjectBack(t, sections, syms, id), |sections| + 1, j)
         == SymbolsBack(sections, id, Ordered(syms))[j - 1..]
    decreases |syms| + 1 - j
  {
    hide WellFormed, ValidObject, HeaderBack, Image, HeaderStrings, Ordered, RawBack, ReadSymbol, NameAt, Strtab,
      SymbolRead, SymbolBack;
    var o := ObjectBack(t, sections, syms, id);
    SymbolEntry(t, sections, syms, id, if j <= |syms| then j else 0);
    if j <= |syms| {
      SymbolsAreBack(t, sections, syms, id, j + 1);
      RawIsBack(syms, j);
      SymbolReadBack(t, sections, syms, id, Ordered(syms)[j - 1]);
      assert SymbolsBack(sections, id, Ordered(syms))[j - 1..]
          == [SymbolBack(sections, id, Ordered(syms)[j - 1])] + SymbolsBack(sections, id, Ordered(syms))[j..];
    }
  }

  lemma {:induction false} RawIsBack(syms: seq<ElfSymbol>, j: nat)
    requires 1 <= j <= |syms| && |Ordered(syms)| == |syms|
    ensures RawBack(syms, j) == RawOf(Ordered(syms)[j - 1], StringsOf(syms)) && RawBack(syms, 0) == NULL_SYMBOL
  {
  }

  // ---- the round trip ----

  lemma {:induction false} ObjectIsValid(t: Target, sections: seq<Section>, syms: seq<ElfSymbol>, id: Origin)
    requires WellFormed(sections, syms)
    ensures ValidObject(ObjectBack(t, sections, syms, id))
    ensures ObjectBack(t, sections, syms, id).hs[|sections| + 1].kind == SHT_SYMTAB
  {
    hide WellFormed, Image, HeaderBack, ObjectBack;
    ObjectIsBack(t, sections, syms, id);
    hide ValidObject;
    SymtabHeaderBack(sections, syms);
    SymtabIndex(t, sections, syms, id);
  }

  lemma {:induction false} SymtabIndex(t: Target, sections: seq<Section>, syms: seq<ElfSymbol>, id: Origin)
    ensures |ObjectBack(t, sections, syms, id).hs| == |sections| + 4
    ensures ObjectBack(t, sections, syms, id).hs[|sections| + 1] == HeaderBack(sections, syms, |sections| + 1)
  {
    hide Image, HeaderBack, HeaderStrings;
  }

  lemma {:induction false} AllSymbolsAreBack(t: Target, sections: seq<Section>, syms: seq<ElfSymbol>, id: Origin)
    requires WellFormed(sections, syms) && ValidObject(ObjectBack(t, sections, syms, id))
    ensures SymbolsOf(ObjectBack(t, sections, syms, id)) == SymbolsBack(sections, id, Ordered(syms))
    ensures |Ordered(syms)| == |syms|
  {
    hide WellFormed, ValidObject, HeaderBack, Image, HeaderStrings, Ordered, ReadSymbol, NameAt, Strtab, SymbolRead,
      SymbolBack, ObjectBack, FirstSymtab, SymbolsFrom, EntryFits, EntryCount, EntrySize;
    var o, n := ObjectBack(t, sections, syms, id), |sections|;
    ObjectIsValid(t, sections, syms, id);
    FirstSymtabIsBack(t, sections, syms, id, 0);
    SymbolEntry(t, sections, syms, id, 0);
    SymbolsAreBack(t, sections, syms, id, 1);
    assert SymbolsBack(sections, id, Ordered(syms))[0..] == SymbolsBack(sections, id, Ordered(syms));
    NullIsSkipped(o, n + 1, RawBack(syms, 0));
  }

  lemma {:induction false} NullIsSkipped(o: Object, symtab: nat, raw: RawSymbol)
    requires ValidObject(o) && symtab < |o.hs| && o.hs[symtab].kind == SHT_SYMTAB
    requires EntryCount(o.hs[symtab]) > 0 && EntryFits(o, o.hs[symtab], 0) && raw == NULL_SYMBOL
    requires ReadSymbol(o.data, o.hs[symtab].offset + 0 * EntrySize(o.hs[symtab])) == raw
    requires NameAt(Strtab(o, symtab), raw.name) == []
    ensures SymbolsFrom(o, symtab, 0) == SymbolsFrom(o, symtab, 1)
  {
    hide ReadSymbol, NameAt, Strtab, SymbolRead;
  }

  /** Writing and parsing: the loadable sections with name, type, flags, size, alignment and contents, and
      the symbols, locals first, each group in its own order. */
  lemma {:induction false} WrittenObjectParses(t: Target, sections: seq<Section>, syms: seq<ElfSymbol>, id: Origin)
    requires WellFormed(sections, syms) && PlainSizes(sections)
    ensures Readable(Image(t, sections, syms))
    ensures var img := Image(t, sections, syms); var back := SectionsBack(sections, id, 0);
      Parsed(id, img).sections == if back == [] then [RawText(id, img)] else back
    ensures Parsed(id, Image(t, sections, syms)).symbols
         == if syms == [] then [DefaultStart(id)] else SymbolsBack(sections, id, Ordered(syms))
  {
    hide WellFormed, PlainSizes, Image, ObjectBack, SectionsFrom, SymbolsOf, RelocsFrom, SectionsBack, Ordered,
      Readable;
    ObjectIsBack(t, sections, syms, id);
    ObjectIsValid(t, sections, syms, id);
    SectionsAreBack(t, sections, syms, id, 0);
    AllSymbolsAreBack(t, sections, syms, id);
  }

  /** A symbol that is not a section symbol keeps all its fields exactly when binding, type and visibility
      are among those that the linker knows and its name is not one to be told apart. */
  lemma {:induction false} SymbolSurvives(sections: seq<Section>, id: Origin, s: ElfSymbol)
    requires s.binding < 256 && s.kind < 256 && s.visibility < 256 && s.kind % 16 != 3
    ensures SymbolBack(sections, id, s)
         == InputSymbol(s.name, s.value, s.size, s.binding, s.kind, s.visibility, s.section, id.number)
       <==> && s.binding <= 2 && s.kind <= 2 && s.visibility <= 3
            && !(id.unique && s.binding == STB_LOCAL && s.name != [] && !HasPrefix(s.name, SECTION_PREFIX()))
  {
    assert |Numbered(s.name, id.number)| > |s.name|;
  }

  /** A relocation finds a symbol under the very name under which the symbol itself is read. */
  lemma {:induction false} TargetIsSymbol(sections: seq<Section>, id: Origin, s: ElfSymbol)
    requires s.kind % 16 != 3
    ensures SymbolBack(sections, id, s).name == TargetBack(id, s)
  {
  }

  lemma {:induction false} EndsInNoDigit(a: Name, b: Name, n: nat)
    requires a != [] && a[|a| - 1] >= 0x3a
    ensures a != b + Digits(n)
  {
    var d := Digits(n);
    assert (b + d)[|b + d| - 1] == d[|d| - 1] < 0x3a;
  }

  /** Digits behind something else tell the number. */
  lemma {:induction false} DigitsTell(a: Name, b: Name, i: nat, j: nat)
    requires a != [] && b != [] && a[|a| - 1] >= 0x3a && b[|b| - 1] >= 0x3a
    requires a + Digits(i) == b + Digits(j)
    ensures i == j
    decreases i
  {
    var n := |a + Digits(i)| - 1;
    var front := (a + Digits(i))[..n];
    assert (a + Digits(i))[n] == 0x30 + i % 10 == 0x30 + j % 10;
    assert front == if i < 10 then a else a + Digits(i / 10);
    assert front == if j < 10 then b else b + Digits(j / 10);
    EndsInNoDigit(a, b, j / 10);
    EndsInNoDigit(b, a, i / 10);
    if i >= 10 && j >= 10 {
      DigitsTell(a, b, i / 10, j / 10);
    }
  }

  /** Local names of different objects never coincide. */
  lemma {:induction false} LocalsOfObjectsDiffer(a: Name, b: Name, i: nat, j: nat)
    requires i != j
    ensures Numbered(a, i) != Numbered(b, j)
  {
    if Numbered(a, i) == Numbered(b, j) {
      DigitsTell(a + OBJECT_INFIX(), b + OBJECT_INFIX(), i, j);
    }
  }

  // ---- relocations ----

  function RelaBytes(rs: seq<RawRela>): seq<byte> {
    if rs == [] then [] else RelaBytes(rs[..|rs| - 1]) + Pack(RelaRecord(rs[|rs| - 1]))
  }

  lemma {:induction false} RelaAt(rs: seq<RawRela>, j: nat)
    requires (forall k :: 0 <= k < |rs| ==> RelaFits(rs[k])) && j < |rs|
    ensures |RelaBytes(rs)| == RELA_SIZE * |rs| && Occupies(RelaBytes(rs), RELA_SIZE * j, Pack(RelaRecord(rs[j])))
    decreases |rs|
  {
    hide Pack, RelaRecord, Occupies, RelaFits;
    var n := |rs| - 1;
    var front, last := RelaBytes(rs[..n]), Pack(RelaRecord(rs[n]));
    RelaLength(rs[n]);
    if n > 0 {
      RelaAt(rs[..n], if j < n then j else 0);
    }
    if j < n {
      OccupiesLonger(front, last, RELA_SIZE * j, Pack(RelaRecord(rs[j])));
    } else {
      OccupiesEnd(front, last, []);
      assert front + last + [] == front + last;
    }
  }

  lemma {:induction false} RelaLength(r: RawRela)
    ensures |Pack(RelaRecord(r))| == RELA_SIZE
  {
    RelaStarts(r);
    PackLength(RelaRecord(r));
  }

  /** An entry that names a symbol of the file by its index is resolved to that symbol's name. */
  lemma {:induction false} IndexNamesSymbol(t: Target, sections: seq<Section>, syms: seq<ElfSymbol>, id: Origin,
                                            loaded: seq<InputSection>, k: nat)
    requires WellFormed(sections, syms) && ValidObject(ObjectBack(t, sections, syms, id)) && 1 <= k <= |syms|
    ensures |Ordered(syms)| == |syms|
    ensures Ordered(syms)[k - 1].name != [] ==>
      TargetName(ObjectBack(t, sections, syms, id), loaded, k) == TargetBack(id, Ordered(syms)[k - 1])
  {
    hide WellFormed, HeaderBack, Image, HeaderStrings, Ordered, RawBack, ReadSymbol, NameAt, Strtab, ObjectBack,
      FirstSymtab, SectionSymbolName, IndexedSection, EntryFits, EntryCount, EntrySize;
    FirstSymtabIsBack(t, sections, syms, id, 0);
    SymbolEntry(t, sections, syms, id, k);
    RawInfo(syms, k);
    ObjectOrigin(t, sections, syms, id);
  }

  lemma {:induction false} ObjectOrigin(t: Target, sections: seq<Section>, syms: seq<ElfSymbol>, id: Origin)
    ensures ObjectBack(t, sections, syms, id).id == id
  {
    hide Image, HeaderBack, HeaderStrings;
  }

  lemma {:induction false} RawInfo(syms: seq<ElfSymbol>, k: nat)
    requires 1 <= k <= |syms| && |Ordered(syms)| == |syms|
    ensures var s := Ordered(syms)[k - 1];
      RawBack(syms, k).info / 16 == s.binding % 16 && RawBack(syms, k).info % 16 == s.kind % 16
  {
    var s := Ordered(syms)[k - 1];
    hide Ordered, StringsOf;
    InfoByte(s.binding, s.kind);
  }

  /** Every relocation entry comes back with its place, type and addend, and with the name of the symbol
      at its index. */
  lemma {:induction false} RelocIsBack(t: Target, sections: seq<Section>, syms: seq<ElfSymbol>, id: Origin,
                                       loaded: seq<InputSection>, i: nat, rs: seq<RawRela>, j: nat)
    requires WellFormed(sections, syms) && ValidObject(ObjectBack(t, sections, syms, id))
    requires 0 < i <= |sections| && sections[i - 1].kind == SHT_RELA && sections[i - 1].entsize in {0, RELA_SIZE}
    requires sections[i - 1].data == RelaBytes(rs) && sections[i - 1].logicalSize == 0
    requires (forall k :: 0 <= k < |rs| ==> RelaFits(rs[k])) && j < |rs|
    requires |Ordered(syms)| == |syms| && 1 <= rs[j].symbol <= |syms| && Ordered(syms)[rs[j].symbol - 1].name != []
    ensures var o := ObjectBack(t, sections, syms, id); var h := o.hs[i];
      && EntryCount(h) == |rs| && h.kind == SHT_RELA && SoundHeader(h, |o.data|) && EntryFits(o, h, j)
      && RelocRead(o, loaded, h, j)
         == InputReloc(rs[j].offset, TargetBack(id, Ordered(syms)[rs[j].symbol - 1]), rs[j].symbol, rs[j].kind,
                       rs[j].addend,
                       id.number, sections[i - 1].info)
  {
    hide WellFormed, Image, HeaderBack, HeaderStrings, Ordered, TargetName, RelocRead, RelaBytes, RelaFits, Pack,
      Occupies, RelaRecord, ValidObject, SoundHeader, EntryCount, EntryFits, EntrySize;
    IndexNamesSymbol(t, sections, syms, id, loaded, rs[j].symbol);
    RelaInImage(t, sections, syms, i, rs, j);
    RelaHeader(t, sections, syms, i, rs);
    EntryRead(ObjectBack(t, sections, syms, id), loaded, HeaderBack(sections, syms, i), j, rs[j]);
  }

  lemma {:induction false} RelaHeader(t: Target, sections: seq<Section>, syms: seq<ElfSymbol>, i: nat, rs: seq<RawRela>)
    requires WellFormed(sections, syms)
    requires 0 < i <= |sections| && sections[i - 1].kind == SHT_RELA && sections[i - 1].entsize in {0, RELA_SIZE}
    requires sections[i - 1].data == RelaBytes(rs) && sections[i - 1].logicalSize == 0
    requires (forall k :: 0 <= k < |rs| ==> RelaFits(rs[k])) && rs != []
    ensures var h := HeaderBack(sections, syms, i);
      && h.kind == SHT_RELA && EntrySize(h) == RELA_SIZE && EntryCount(h) == |rs| && h.info == sections[i - 1].info
      && SoundHeader(h, |Image(t, sections, syms)|)
  {
    hide WellFormed, Image, HeaderBack, RelaBytes, RelaFits, Pack, Occupies, RelaRecord;
    UserHeaderBack(sections, syms, i);
    HeaderIsSound(t, sections, syms, i);
    RelaAt(rs, 0);
  }

  lemma {:induction false} EntryRead(o: Object, loaded: seq<InputSection>, h: SectionHeader, j: nat, r: RawRela)
    requires ValidObject(o) && SoundHeader(h, |o.data|) && h.kind == SHT_RELA && EntrySize(h) == RELA_SIZE
    requires RelaFits(r)
    requires Occupies(o.data, h.offset + RELA_SIZE * j, Pack(RelaRecord(r)))
    ensures EntryFits(o, h, j)
    ensures RelocRead(o, loaded, h, j)
         == InputReloc(r.offset, TargetName(o, loaded, r.symbol), r.symbol, r.kind, r.addend, o.id.number, h.info)
  {
    hide TargetName, ReadWord, Pack, Occupies, RelaRecord, ValidObject, RelaFits;
    RelaReads(o.data, h.offset + RELA_SIZE * j, r);
  }

  lemma {:induction false} RelaInImage(t: Target, sections: seq<Section>, syms: seq<ElfSymbol>, i: nat,
                                       rs: seq<RawRela>, j: nat)
    requires 0 < i <= |sections| && sections[i - 1].kind == SHT_RELA && sections[i - 1].data == RelaBytes(rs)
    requires (forall k :: 0 <= k < |rs| ==> RelaFits(rs[k])) && j < |rs|
    ensures Occupies(Image(t, sections, syms), HeaderBack(sections, syms, i).offset + RELA_SIZE * j,
                     Pack(RelaRecord(rs[j])))
  {
    hide Occupies, Image, HeaderOf, HeaderBack, RelaBytes, Pack, RelaRecord, RelaFits;
    RelaAt(rs, j);
    SectionInImage(t, sections, syms, i - 1);
    HeaderOffset(sections, syms, i);
    OccupiesWithin(Image(t, sections, syms), HeaderBack(sections, syms, i).offset, RelaBytes(rs), RELA_SIZE * j,
                   Pack(RelaRecord(rs[j])));
  }
}
