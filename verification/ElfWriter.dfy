/** Writing a 64-bit relocatable object: file header, section data at aligned offsets, symbol and string
    tables, section header table. */
module ElfWriter {
  import opened Bytes
  import opened ElfStrings
  import opened ElfFormat
  import opened ElfSymbols

  const SHT_PROGBITS := 1
  const SHT_SYMTAB := 2
  const SHT_STRTAB := 3
  const SHT_RELA := 4
  const SHT_NOBITS := 8
  const SHT_REL := 9

  datatype Section = Section(name: Name, kind: nat, flags: nat, data: seq<byte>, align: nat, entsize: nat,
                             link: nat, info: nat, logicalSize: nat, address: nat)

  /** What the target and the caller fix in the file header. */
  datatype Target = Target(kind: nat, machine: nat, flags: nat, entry: nat)

  function SYMTAB_NAME(): Name {
    [0x2e, 0x73, 0x79, 0x6d, 0x74, 0x61, 0x62]
  }

  function STRTAB_NAME(): Name {
    [0x2e, 0x73, 0x74, 0x72, 0x74, 0x61, 0x62]
  }

  function SHSTRTAB_NAME(): Name {
    [0x2e, 0x73, 0x68, 0x73, 0x74, 0x72, 0x74, 0x61, 0x62]
  }

  // ---- layout ----

  /** Sections without file contents occupy no space. */
  function FileData(s: Section): seq<byte> {
    if s.kind == SHT_NOBITS then [] else s.data
  }

  function MemorySize(s: Section): nat {
    if s.logicalSize > 0 then s.logicalSize else |s.data|
  }

  function AlignOf(s: Section): nat {
    if s.align < 1 then 1 else s.align
  }

  /** File offset after the first `n` sections. */
  function EndOf(sections: seq<Section>, n: nat): nat
    requires n <= |sections|
    decreases n, 0
  {
    if n == 0 then 64 else OffsetOf(sections, n - 1) + |FileData(sections[n - 1])|
  }

  function OffsetOf(sections: seq<Section>, i: nat): nat
    requires i < |sections|
    decreases i, 1
  {
    AlignUp(EndOf(sections, i), AlignOf(sections[i]))
  }

  datatype Layout = Layout(symtab: nat, strtab: nat, shstrtab: nat, table: nat, total: nat)

  function LayoutOf(sections: seq<Section>, symtab: nat, strtab: nat, shstrtab: nat): Layout {
    var symtabAt := AlignUp(EndOf(sections, |sections|), 8);
    var strtabAt := symtabAt + symtab;
    var shstrtabAt := strtabAt + strtab;
    var table := AlignUp(shstrtabAt + shstrtab, 8);
    Layout(symtabAt, strtabAt, shstrtabAt, table, table + (|sections| + 4) * HEADER_SIZE)
  }

  // ---- contents ----

  function SectionNames(sections: seq<Section>): seq<Name> {
    seq(|sections|, i requires 0 <= i < |sections| => sections[i].name)
  }

  /** The section name table: user sections first, then the three sections that the writer adds. */
  function HeaderStrings(sections: seq<Section>): Strings {
    AddedAll(NO_STRINGS, [[]] + SectionNames(sections) + [SYMTAB_NAME(), STRTAB_NAME(), SHSTRTAB_NAME()])
  }

  function IDENT(): seq<byte> {
    [0x7f, 0x45, 0x4c, 0x46, 2, 1, 1, 0] + Zeros(8)
  }

  function FileRecord(t: Target, layout: Layout, sections: nat): Record {
    [(t.kind, 2), (t.machine, 2), (1, 4), (t.entry, 8), (0, 8), (layout.table, 8), (t.flags, 4), (64, 2), (56, 2),
     (0, 2), (64, 2), (sections + 4, 2), (sections + 3, 2)]
  }

  function UserHeader(sections: seq<Section>, i: nat, names: Strings): SectionHeader
    requires i < |sections|
  {
    var s := sections[i];
    SectionHeader(if s.name in names.index then names.index[s.name] else 0,
                  s.kind, s.flags, s.address, OffsetOf(sections, i), MemorySize(s), s.link, s.info, s.align, s.entsize)
  }

  function OwnName(names: Strings, s: Name): nat {
    if s in names.index then names.index[s] else 0
  }

  /** Header number `i` of the table. */
  function HeaderOf(sections: seq<Section>, syms: seq<ElfSymbol>, i: nat): SectionHeader
    requires i < |sections| + 4
  {
    var names, strings := HeaderStrings(sections), StringsOf(syms);
    var n, symtab := |sections|, |SymtabBytes(syms, strings)|;
    var layout := LayoutOf(sections, symtab, |strings.data|, |names.data|);
    if i == 0 then NULL_HEADER
    else if i <= n then UserHeader(sections, i - 1, names)
    else if i == n + 1 then
      SectionHeader(OwnName(names, SYMTAB_NAME()), SHT_SYMTAB, 0, 0, layout.symtab, symtab, n + 2, |Locals(syms)| + 1,
                    8, SYMBOL_SIZE)
    else if i == n + 2 then
      SectionHeader(OwnName(names, STRTAB_NAME()), SHT_STRTAB, 0, 0, layout.strtab, |strings.data|, 0, 0, 1, 0)
    else
      SectionHeader(OwnName(names, SHSTRTAB_NAME()), SHT_STRTAB, 0, 0, layout.shstrtab, |names.data|, 0, 0, 1, 0)
  }

  /** The file up to the data of the first `n` sections. */
  function BodyUpTo(header: seq<byte>, sections: seq<Section>, n: nat): seq<byte>
    requires n <= |sections|
  {
    if n == 0 then header
    else PadTo(BodyUpTo(header, sections, n - 1), OffsetOf(sections, n - 1)) + FileData(sections[n - 1])
  }

  function HeadersUpTo(sections: seq<Section>, syms: seq<ElfSymbol>, n: nat): seq<byte>
    requires n <= |sections| + 4
  {
    if n == 0 then [] else HeadersUpTo(sections, syms, n - 1) + Pack(HeaderRecord(HeaderOf(sections, syms, n - 1)))
  }

  function LayoutFor(sections: seq<Section>, syms: seq<ElfSymbol>): Layout {
    LayoutOf(sections, |SymtabBytes(syms, StringsOf(syms))|, |StringsOf(syms).data|, |HeaderStrings(sections).data|)
  }

  /** Everything before the section header table. */
  function Contents(t: Target, sections: seq<Section>, syms: seq<ElfSymbol>): seq<byte> {
    var layout := LayoutFor(sections, syms);
    var body := BodyUpTo(IDENT() + Pack(FileRecord(t, layout, |sections|)), sections, |sections|);
    PadTo(body, layout.symtab) + SymtabBytes(syms, StringsOf(syms)) + StringsOf(syms).data
    + HeaderStrings(sections).data
  }

  function Image(t: Target, sections: seq<Section>, syms: seq<ElfSymbol>): seq<byte> {
    PadTo(Contents(t, sections, syms), LayoutFor(sections, syms).table) + HeadersUpTo(sections, syms, |sections| + 4)
  }

  // ---- the writer ----

  class ElfWriter {
    const target: Target
    var sections: seq<Section>
    const symbols: SymbolTable

    ghost predicate Valid()
      reads this, symbols, symbols.strings
    {
      symbols.Valid()
    }

    constructor (target: Target)
      ensures Valid() && this.target == target && sections == [] && symbols.symbols == []
      ensures fresh(symbols) && fresh(symbols.strings)
    {
      this.target := target;
      sections := [];
      symbols := new SymbolTable();
    }

    /** Sections are numbered from one. */
    method AddSection(section: Section) returns (index: nat)
      requires Valid()
      modifies this
      ensures Valid() && sections == old(sections) + [section] && index == |sections|
    {
      sections := sections + [section];
      index := |sections|;
    }

    method AddSymbol(sym: ElfSymbol)
      requires Valid()
      modifies symbols, symbols.strings
      ensures Valid() && symbols.symbols == old(symbols.symbols) + [sym]
    {
      symbols.AddSymbol(sym);
    }

    /** The section name table and the name offset of every user section. */
    method InternNames() returns (names: seq<byte>, offsets: seq<nat>, symtab: nat, strtab: nat, shstrtab: nat)
      requires Valid()
      ensures var st := HeaderStrings(sections);
        && names == st.data && symtab == OwnName(st, SYMTAB_NAME()) && strtab == OwnName(st, STRTAB_NAME())
        && shstrtab == OwnName(st, SHSTRTAB_NAME())
      ensures |offsets| == |sections|
      ensures forall i :: 0 <= i < |sections| ==> offsets[i] == OwnName(HeaderStrings(sections), sections[i].name)
    {
      hide Added, AddedAll;
      var table := new StringTable();
      NoneAdded();
      var _ := table.AddString([]);
      AddedOne(NO_STRINGS, [], []);
      offsets := [];
      ghost var all: seq<Name> := [[]];
      assert [] + [[]] == all;
      assert all == [[]] + SectionNames(sections)[..0];
      for i := 0 to |sections|
        modifies table
        invariant all == [[]] + SectionNames(sections)[..i]
        invariant table.State() == AddedAll(NO_STRINGS, all)
        invariant |offsets| == i && forall j :: 0 <= j < i
                                     ==> sections[j].name in table.index && offsets[j] == table.index[sections[j].name]
      {
        AddedOne(NO_STRINGS, all, sections[i].name);
        AddedKeeps(table.State(), sections[i].name);
        var offset := table.AddString(sections[i].name);
        offsets := offsets + [offset];
        all := all + [sections[i].name];
        assert SectionNames(sections)[..i + 1] == SectionNames(sections)[..i] + [sections[i].name];
      }
      assert SectionNames(sections)[..|sections|] == SectionNames(sections);
      AddedOne(NO_STRINGS, all, SYMTAB_NAME());
      AddedKeeps(table.State(), SYMTAB_NAME());
      symtab := table.AddString(SYMTAB_NAME());
      AddedOne(NO_STRINGS, all + [SYMTAB_NAME()], STRTAB_NAME());
      AddedKeeps(table.State(), STRTAB_NAME());
      strtab := table.AddString(STRTAB_NAME());
      AddedOne(NO_STRINGS, all + [SYMTAB_NAME(), STRTAB_NAME()], SHSTRTAB_NAME());
      AddedKeeps(table.State(), SHSTRTAB_NAME());
      shstrtab := table.AddString(SHSTRTAB_NAME());
      assert all + [SYMTAB_NAME()] + [STRTAB_NAME()] == all + [SYMTAB_NAME(), STRTAB_NAME()];
      assert all + [SYMTAB_NAME(), STRTAB_NAME()] + [SHSTRTAB_NAME()]
          == all + [SYMTAB_NAME(), STRTAB_NAME(), SHSTRTAB_NAME()];
      names := table.data;
    }

    /** File offset and memory size of every user section, and the offset after the last. */
    method PlaceSections() returns (places: seq<(nat, nat)>, current: nat)
      ensures |places| == |sections| && current == EndOf(sections, |sections|)
      ensures forall i :: 0 <= i < |sections| ==> places[i] == (OffsetOf(sections, i), MemorySize(sections[i]))
    {
      hide AlignUp, EndOf, OffsetOf;
      current, places := 64, [];
      EndStep(sections, 0);
      for i := 0 to |sections|
        invariant current == EndOf(sections, i) && |places| == i
        invariant forall j :: 0 <= j < i ==> places[j] == (OffsetOf(sections, j), MemorySize(sections[j]))
      {
        EndStep(sections, i);
        var s := sections[i];
        var size := if s.logicalSize > 0 then s.logicalSize else |s.data|;
        current := AlignUp(current, if s.align < 1 then 1 else s.align);
        places := places + [(current, size)];
        if s.kind != SHT_NOBITS {
          current := current + |s.data|;
        }
      }
      var end := current;
      for i := 0 to |sections|
        invariant end == current
      {
        EndStep(sections, i);
        EndsAscend(sections, i + 1, |sections|);
        var length := if sections[i].kind != SHT_NOBITS then |sections[i].data| else 0;
        var sectionEnd := places[i].0 + length;
        if sectionEnd > end {
          end := sectionEnd;
        }
      }
      current := end;
    }

    /** The section header table behind `before`. */
    method WriteHeaders(before: seq<byte>, places: seq<(nat, nat)>, offsets: seq<nat>, layout: Layout, first: nat,
                        own: (nat, nat, nat), sizes: (nat, nat, nat)) returns (buf: seq<byte>)
      requires Valid() && |places| == |sections| && |offsets| == |sections|
      requires forall i :: 0 <= i < |sections| ==> places[i] == (OffsetOf(sections, i), MemorySize(sections[i]))
      requires forall i :: 0 <= i < |sections| ==> offsets[i] == OwnName(HeaderStrings(sections), sections[i].name)
      requires layout == LayoutFor(sections, symbols.symbols) && first == |Locals(symbols.symbols)| + 1
      requires own == (OwnName(HeaderStrings(sections), SYMTAB_NAME()), OwnName(HeaderStrings(sections), STRTAB_NAME()),
                       OwnName(HeaderStrings(sections), SHSTRTAB_NAME()))
      requires sizes == (|SymtabBytes(symbols.symbols, StringsOf(symbols.symbols))|, |StringsOf(symbols.symbols).data|,
                         |HeaderStrings(sections).data|)
      ensures buf == before + HeadersUpTo(sections, symbols.symbols, |sections| + 4)
    {
      hide HeaderStrings, StringsOf, SymtabBytes, Pack, OffsetOf, Locals, SYMTAB_NAME, STRTAB_NAME, SHSTRTAB_NAME,
        HeadersUpTo;
      var n := |sections|;
      HeadersStep(sections, symbols.symbols, before, 0);
      buf := before + Pack(HeaderRecord(NULL_HEADER));
      for i := 0 to n
        invariant buf == before + HeadersUpTo(sections, symbols.symbols, i + 1)
      {
        var s := sections[i];
        var header := SectionHeader(offsets[i], s.kind, s.flags, s.address, places[i].0, places[i].1, s.link, s.info,
                                    s.align, s.entsize);
        assert header == HeaderOf(sections, symbols.symbols, i + 1);
        HeadersStep(sections, symbols.symbols, before, i + 1);
        buf := buf + Pack(HeaderRecord(header));
      }
      HeadersStep(sections, symbols.symbols, before, n + 1);
      HeadersStep(sections, symbols.symbols, before, n + 2);
      HeadersStep(sections, symbols.symbols, before, n + 3);
      buf := buf + Pack(HeaderRecord(SectionHeader(own.0, SHT_SYMTAB, 0, 0, layout.symtab, sizes.0, n + 2, first, 8,
                                                   SYMBOL_SIZE)));
      buf := buf + Pack(HeaderRecord(SectionHeader(own.1, SHT_STRTAB, 0, 0, layout.strtab, sizes.1, 0, 0, 1, 0)));
      buf := buf + Pack(HeaderRecord(SectionHeader(own.2, SHT_STRTAB, 0, 0, layout.shstrtab, sizes.2, 0, 0, 1, 0)));
    }

    method Write() returns (buf: seq<byte>)
      requires Valid()
      ensures buf == Image(target, sections, symbols.symbols)
    {
      hide HeaderStrings, StringsOf, SymtabBytes, Pack, OffsetOf, EndOf, AlignUp, HeadersUpTo;
      var names, offsets, own0, own1, own2 := InternNames();
      var symBytes, first := symbols.BuildBytes();
      var strings := symbols.strings.data;
      var places, current := PlaceSections();
      var n := |sections|;
      var layout := LayoutOf(sections, |symBytes|, |strings|, |names|);
      buf := IDENT();
      buf := buf + Pack(FileRecord(target, layout, n));
      ghost var header := buf;
      for i := 0 to n
        invariant buf == BodyUpTo(header, sections, i)
      {
        buf := PadTo(buf, places[i].0);
        if sections[i].kind != SHT_NOBITS {
          buf := buf + sections[i].data;
        }
      }
      buf := PadTo(buf, layout.symtab) + symBytes + strings + names;
      buf := PadTo(buf, layout.table);
      buf := WriteHeaders(buf, places, offsets, layout, first, (own0, own1, own2), (|symBytes|, |strings|, |names|));
    }
  }

  lemma {:induction false} EndStep(sections: seq<Section>, i: nat)
    ensures EndOf(sections, 0) == 64
    ensures i < |sections| ==>
      && OffsetOf(sections, i) == AlignUp(EndOf(sections, i), AlignOf(sections[i]))
      && EndOf(sections, i + 1) == OffsetOf(sections, i) + |FileData(sections[i])|
  {
  }

  lemma {:induction false} HeadersStep(sections: seq<Section>, syms: seq<ElfSymbol>, before: seq<byte>, n: nat)
    requires n < |sections| + 4
    ensures HeadersUpTo(sections, syms, 0) == []
    ensures before + HeadersUpTo(sections, syms, n + 1)
         == before + HeadersUpTo(sections, syms, n) + Pack(HeaderRecord(HeaderOf(sections, syms, n)))
  {
    hide HeaderOf, Pack;
  }

  lemma {:induction false} EndsAscend(sections: seq<Section>, m: nat, n: nat)
    requires m <= n <= |sections|
    ensures EndOf(sections, m) <= EndOf(sections, n)
    decreases n
  {
    if m < n {
      EndsAscend(sections, m, n - 1);
    }
  }

  /** Section data lies in the order of the sections, each after the header and before the next. */
  lemma {:induction false} OffsetsAscend(sections: seq<Section>, i: nat, j: nat)
    requires i < j < |sections|
    ensures 64 <= OffsetOf(sections, i) && OffsetOf(sections, i) + |FileData(sections[i])| <= OffsetOf(sections, j)
    ensures OffsetOf(sections, j) % AlignOf(sections[j]) == 0
  {
    EndsAscend(sections, 0, i);
    EndsAscend(sections, i + 1, j);
  }

  lemma {:induction false} NoneAdded()
    ensures AddedAll(NO_STRINGS, []) == NO_STRINGS
  {
  }

  lemma {:induction false} AddedOne(st: Strings, names: seq<Name>, s: Name)
    ensures AddedAll(st, names + [s]) == Added(AddedAll(st, names), s)
  {
    assert (names + [s])[..|names|] == names;
  }

  lemma {:induction false} AddedKeeps(st: Strings, s: Name)
    ensures forall t :: t in st.index ==> t in Added(st, s).index && Added(st, s).index[t] == st.index[t]
  {
  }

  // ---- everything is where the headers say ----

  lemma {:induction false} BodyLength(header: seq<byte>, sections: seq<Section>, n: nat)
    requires |header| == 64 && n <= |sections|
    ensures |BodyUpTo(header, sections, n)| == EndOf(sections, n)
    decreases n
  {
    hide AlignUp;
    if n > 0 {
      BodyLength(header, sections, n - 1);
    }
  }

  lemma {:induction false} FileHeaderLength(t: Target, layout: Layout, n: nat)
    ensures |IDENT() + Pack(FileRecord(t, layout, n))| == 64
    ensures var r := FileRecord(t, layout, n);
      StartOf(r, 5) == 24 && StartOf(r, 10) == 42 && StartOf(r, 11) == 44 && StartOf(r, 12) == 46
  {
    hide StartOf;
    var r := FileRecord(t, layout, n);
    StartStep(r, 0);
    StartStep(r, 1);
    StartStep(r, 2);
    StartStep(r, 3);
    StartStep(r, 4);
    StartStep(r, 5);
    StartStep(r, 6);
    StartStep(r, 7);
    StartStep(r, 8);
    StartStep(r, 9);
    StartStep(r, 10);
    StartStep(r, 11);
    StartStep(r, 12);
    PackLength(r);
  }

  function FileHeader(t: Target, sections: seq<Section>, syms: seq<ElfSymbol>): seq<byte> {
    IDENT() + Pack(FileRecord(t, LayoutFor(sections, syms), |sections|))
  }

  lemma {:induction false} PadKeeps(b: seq<byte>, n: nat, at: nat, part: seq<byte>)
    requires Occupies(b, at, part)
    ensures Occupies(PadTo(b, n), at, part)
  {
    if |b| < n {
      OccupiesLonger(b, Zeros(n - |b|), at, part);
    }
  }

  lemma {:induction false} BodyHolds(header: seq<byte>, sections: seq<Section>, n: nat, i: nat)
    requires |header| == 64 && i < n <= |sections|
    ensures Occupies(BodyUpTo(header, sections, n), OffsetOf(sections, i), FileData(sections[i]))
    decreases n
  {
    hide Occupies, OffsetOf, EndOf, FileData;
    BodyLength(header, sections, n - 1);
    EndStep(sections, n - 1);
    var before := PadTo(BodyUpTo(header, sections, n - 1), OffsetOf(sections, n - 1));
    var data := FileData(sections[n - 1]);
    if i < n - 1 {
      BodyHolds(header, sections, n - 1, i);
      PadKeeps(BodyUpTo(header, sections, n - 1), OffsetOf(sections, n - 1), OffsetOf(sections, i),
               FileData(sections[i]));
      OccupiesLonger(before, data, OffsetOf(sections, i), FileData(sections[i]));
    } else {
      OccupiesEnd(before, data, []);
      assert before + data + [] == before + data;
    }
  }

  lemma {:induction false} BodyStarts(header: seq<byte>, sections: seq<Section>, n: nat)
    requires n <= |sections|
    ensures Occupies(BodyUpTo(header, sections, n), 0, header)
    decreases n
  {
    hide Occupies, OffsetOf, FileData;
    if n == 0 {
      OccupiesEnd([], header, []);
      assert [] + header + [] == header;
    } else {
      BodyStarts(header, sections, n - 1);
      PadKeeps(BodyUpTo(header, sections, n - 1), OffsetOf(sections, n - 1), 0, header);
      OccupiesLonger(PadTo(BodyUpTo(header, sections, n - 1), OffsetOf(sections, n - 1)), FileData(sections[n - 1]),
                     0, header);
    }
  }

  lemma {:induction false} HeadersHold(sections: seq<Section>, syms: seq<ElfSymbol>, n: nat, i: nat)
    requires i < n <= |sections| + 4
    ensures |HeadersUpTo(sections, syms, n)| == HEADER_SIZE * n
    ensures Occupies(HeadersUpTo(sections, syms, n), HEADER_SIZE * i, Pack(HeaderRecord(HeaderOf(sections, syms, i))))
    decreases n
  {
    hide Occupies, HeaderOf, Pack;
    var front, last := HeadersUpTo(sections, syms, n - 1), Pack(HeaderRecord(HeaderOf(sections, syms, n - 1)));
    HeaderLength(HeaderOf(sections, syms, n - 1));
    if n > 1 {
      HeadersHold(sections, syms, n - 1, if i < n - 1 then i else 0);
    }
    if i < n - 1 {
      OccupiesLonger(front, last, HEADER_SIZE * i, Pack(HeaderRecord(HeaderOf(sections, syms, i))));
    } else {
      OccupiesEnd(front, last, []);
      assert front + last + [] == front + last;
    }
  }

  lemma {:induction false} HeaderLength(h: SectionHeader)
    ensures |Pack(HeaderRecord(h))| == HEADER_SIZE
  {
    HeaderStarts(h);
    PackLength(HeaderRecord(h));
  }

  /** Offsets of the three tables and of the header table follow the section data without overlap. */
  lemma {:induction false} ContentsLength(t: Target, sections: seq<Section>, syms: seq<ElfSymbol>)
    ensures var layout := LayoutFor(sections, syms);
      && |Contents(t, sections, syms)| == layout.shstrtab + |HeaderStrings(sections).data| <= layout.table
      && EndOf(sections, |sections|) <= layout.symtab
      && |PadTo(BodyUpTo(FileHeader(t, sections, syms), sections, |sections|), layout.symtab)| == layout.symtab
  {
    hide HeaderStrings, StringsOf, SymtabBytes, Pack, EndOf, AlignUp;
    var layout := LayoutFor(sections, syms);
    FileHeaderLength(t, layout, |sections|);
    BodyLength(FileHeader(t, sections, syms), sections, |sections|);
    hide BodyUpTo;
  }

  /** The length of the file is what the layout announced. */
  lemma {:induction false} ImageLength(t: Target, sections: seq<Section>, syms: seq<ElfSymbol>)
    ensures |Image(t, sections, syms)| == LayoutFor(sections, syms).total
  {
    ContentsLength(t, sections, syms);
    HeadersHold(sections, syms, |sections| + 4, 0);
    hide Contents, HeadersUpTo, HeaderStrings, StringsOf, SymtabBytes, AlignUp, EndOf;
  }

  /** A part of the contents is a part of the file. */
  lemma {:induction false} ContentsInImage(t: Target, sections: seq<Section>, syms: seq<ElfSymbol>, at: nat,
                                           part: seq<byte>)
    requires Occupies(Contents(t, sections, syms), at, part)
    ensures Occupies(Image(t, sections, syms), at, part)
  {
    hide Occupies, Contents, HeadersUpTo;
    var table := LayoutFor(sections, syms).table;
    PadKeeps(Contents(t, sections, syms), table, at, part);
    OccupiesLonger(PadTo(Contents(t, sections, syms), table), HeadersUpTo(sections, syms, |sections| + 4), at, part);
  }

  /** Every section's bytes sit at the offset in its header. */
  lemma {:induction false} SectionInImage(t: Target, sections: seq<Section>, syms: seq<ElfSymbol>, i: nat)
    requires i < |sections|
    ensures Occupies(Image(t, sections, syms), HeaderOf(sections, syms, i + 1).offset, FileData(sections[i]))
  {
    var header := FileHeader(t, sections, syms);
    FileHeaderLength(t, LayoutFor(sections, syms), |sections|);
    BodyHolds(header, sections, |sections|, i);
    InBody(t, sections, syms, OffsetOf(sections, i), FileData(sections[i]));
  }

  /** Parts of a concatenation. */
  lemma {:induction false} FourParts(b: seq<byte>, x: seq<byte>, y: seq<byte>, z: seq<byte>)
    ensures Occupies(b + x + y + z, |b|, x)
    ensures Occupies(b + x + y + z, |b| + |x|, y)
    ensures Occupies(b + x + y + z, |b| + |x| + |y|, z)
  {
    hide Occupies;
    OccupiesEnd(b, x, []);
    assert b + x + [] == b + x;
    OccupiesLonger(b + x, y, |b|, x);
    OccupiesLonger(b + x + y, z, |b|, x);
    OccupiesEnd(b + x, y, z);
    OccupiesEnd(b + x + y, z, []);
    assert b + x + y + z + [] == b + x + y + z;
  }

  lemma {:induction false} FirstOfFour(b: seq<byte>, x: seq<byte>, y: seq<byte>, z: seq<byte>, at: nat, part: seq<byte>)
    requires Occupies(b, at, part)
    ensures Occupies(b + x + y + z, at, part)
  {
    hide Occupies;
    OccupiesLonger(b, x, at, part);
    OccupiesLonger(b + x, y, at, part);
    OccupiesLonger(b + x + y, z, at, part);
  }

  /** The padded section data. */
  function PaddedBody(t: Target, sections: seq<Section>, syms: seq<ElfSymbol>): seq<byte> {
    PadTo(BodyUpTo(FileHeader(t, sections, syms), sections, |sections|), LayoutFor(sections, syms).symtab)
  }

  lemma {:induction false} ContentsParts(t: Target, sections: seq<Section>, syms: seq<ElfSymbol>)
    ensures Contents(t, sections, syms)
         == PaddedBody(t, sections, syms) + SymtabBytes(syms, StringsOf(syms)) + StringsOf(syms).data
            + HeaderStrings(sections).data
  {
    hide BodyUpTo, SymtabBytes, StringsOf, HeaderStrings, PadTo;
  }

  lemma {:induction false} InBody(t: Target, sections: seq<Section>, syms: seq<ElfSymbol>, at: nat, part: seq<byte>)
    requires Occupies(BodyUpTo(FileHeader(t, sections, syms), sections, |sections|), at, part)
    ensures Occupies(Image(t, sections, syms), at, part)
  {
    hide Occupies, BodyUpTo, SymtabBytes, StringsOf, HeaderStrings, Contents, FileHeader, PadTo, LayoutFor, Image;
    PadKeeps(BodyUpTo(FileHeader(t, sections, syms), sections, |sections|), LayoutFor(sections, syms).symtab, at, part);
    ContentsParts(t, sections, syms);
    FirstOfFour(PaddedBody(t, sections, syms), SymtabBytes(syms, StringsOf(syms)), StringsOf(syms).data,
                HeaderStrings(sections).data, at, part);
    ContentsInImage(t, sections, syms, at, part);
  }

  lemma {:induction false} FileHeaderInImage(t: Target, sections: seq<Section>, syms: seq<ElfSymbol>)
    ensures Occupies(Image(t, sections, syms), 0, FileHeader(t, sections, syms))
  {
    BodyStarts(FileHeader(t, sections, syms), sections, |sections|);
    InBody(t, sections, syms, 0, FileHeader(t, sections, syms));
  }

  /** The symbol table and the two string tables sit at the offsets in their headers. */
  lemma {:induction false} TablesInImage(t: Target, sections: seq<Section>, syms: seq<ElfSymbol>)
    ensures var n := |sections|;
      && Occupies(Image(t, sections, syms), HeaderOf(sections, syms, n + 1).offset, SymtabBytes(syms, StringsOf(syms)))
      && Occupies(Image(t, sections, syms), HeaderOf(sections, syms, n + 2).offset, StringsOf(syms).data)
      && Occupies(Image(t, sections, syms), HeaderOf(sections, syms, n + 3).offset, HeaderStrings(sections).data)
  {
    ContentsLength(t, sections, syms);
    hide Occupies, BodyUpTo, SymtabBytes, StringsOf, HeaderStrings, Image, EndOf, AlignUp, Contents;
    var layout := LayoutFor(sections, syms);
    var sym, str, names := SymtabBytes(syms, StringsOf(syms)), StringsOf(syms).data, HeaderStrings(sections).data;
    assert |PaddedBody(t, sections, syms)| == layout.symtab;
    hide PaddedBody;
    ContentsParts(t, sections, syms);
    FourParts(PaddedBody(t, sections, syms), sym, str, names);
    ContentsInImage(t, sections, syms, layout.symtab, sym);
    ContentsInImage(t, sections, syms, layout.strtab, str);
    ContentsInImage(t, sections, syms, layout.shstrtab, names);
  }

  lemma {:induction false} InSecond(before: seq<byte>, after: seq<byte>, at: nat, part: seq<byte>)
    requires Occupies(after, at, part)
    ensures Occupies(before + after, |before| + at, part)
  {
    hide Occupies;
    OccupiesEnd(before, after, []);
    assert before + after + [] == before + after;
    OccupiesWithin(before + after, |before|, after, at, part);
  }

  /** Header number `i` stands in the table. */
  lemma {:induction false} HeaderInImage(t: Target, sections: seq<Section>, syms: seq<ElfSymbol>, i: nat)
    requires i < |sections| + 4
    ensures Occupies(Image(t, sections, syms), LayoutFor(sections, syms).table + HEADER_SIZE * i,
                     Pack(HeaderRecord(HeaderOf(sections, syms, i))))
  {
    hide Occupies, Contents, HeadersUpTo, HeaderOf, Pack, LayoutFor, HeaderRecord;
    TableStart(t, sections, syms);
    HeadersHold(sections, syms, |sections| + 4, i);
    hide PadTo;
    InSecond(PadTo(Contents(t, sections, syms), LayoutFor(sections, syms).table),
             HeadersUpTo(sections, syms, |sections| + 4),
             HEADER_SIZE * i, Pack(HeaderRecord(HeaderOf(sections, syms, i))));
  }

  lemma {:induction false} TableStart(t: Target, sections: seq<Section>, syms: seq<ElfSymbol>)
    ensures |PadTo(Contents(t, sections, syms), LayoutFor(sections, syms).table)| == LayoutFor(sections, syms).table
  {
    ContentsLength(t, sections, syms);
    hide Contents, LayoutFor;
  }
}
