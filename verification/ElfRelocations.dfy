/** All relocations of a written object, as the parser reads them. */
module ElfRelocations {
  import opened ElfFormat
  import opened ElfSymbols
  import opened ElfWriter
  import opened ElfParser
  import opened ElfRoundTrip

  /** The entries of a relocation section fit their fields and name symbols of the file. */
  ghost predicate EntriesFit(syms: seq<ElfSymbol>, s: Section, rs: seq<RawRela>) {
    && s.entsize in {0, RELA_SIZE} && s.data == RelaBytes(rs) && s.logicalSize == 0
    && forall k :: 0 <= k < |rs| ==>
         RelaFits(rs[k]) && 1 <= rs[k].symbol <= |Ordered(syms)| && Ordered(syms)[rs[k].symbol - 1].name != []
  }

  /** Section `i` holds `entries[i]`, if it is one for relocations; none has entries without addends. */
  ghost predicate RelocsFit(sections: seq<Section>, syms: seq<ElfSymbol>, entries: seq<seq<RawRela>>) {
    && |entries| == |sections|
    && forall i :: 0 <= i < |sections| ==>
         sections[i].kind != SHT_REL && (sections[i].kind == SHT_RELA ==> EntriesFit(syms, sections[i], entries[i]))
  }

  /** The parser loads the section with this index. */
  predicate Loaded(sections: seq<Section>, index: nat) {
    0 < index <= |sections| && Loadable(sections[index - 1].name, sections[index - 1].kind)
  }

  function RelocBack(syms: seq<ElfSymbol>, id: Origin, place: nat, r: RawRela): InputReloc
    requires 1 <= r.symbol <= |Ordered(syms)|
  {
    InputReloc(r.offset, TargetBack(id, Ordered(syms)[r.symbol - 1]), r.symbol, r.kind, r.addend, id.number, place)
  }

  ghost function EntriesBack(syms: seq<ElfSymbol>, id: Origin, s: Section, rs: seq<RawRela>): seq<InputReloc>
    requires EntriesFit(syms, s, rs)
  {
    seq(|rs|, k requires 0 <= k < |rs| => RelocBack(syms, id, s.info, rs[k]))
  }

  /** The entries for loaded sections from section `i` on, section after section. */
  ghost function RelocsBack(sections: seq<Section>, syms: seq<ElfSymbol>, id: Origin, entries: seq<seq<RawRela>>,
                            i: nat): seq<InputReloc>
    requires RelocsFit(sections, syms, entries) && i <= |sections|
    decreases |sections| - i
  {
    if i == |sections| then []
    else (if sections[i].kind == SHT_RELA && Loaded(sections, sections[i].info)
          then EntriesBack(syms, id, sections[i], entries[i]) else [])
         + RelocsBack(sections, syms, id, entries, i + 1)
  }

  lemma {:induction false} FoundExactly(sections: seq<Section>, id: Origin, i: nat, index: nat)
    requires i <= |sections| + 1
    ensures IndexedSection(SectionsBack(sections, id, i), index).Some? <==> Loaded(sections, index) && i <= index
    decreases |sections| + 1 - i
  {
    hide Loadable;
    if i <= |sections| {
      FoundExactly(sections, id, i + 1, index);
      var rest := SectionsBack(sections, id, i + 1);
      if i > 0 && Loadable(sections[i - 1].name, sections[i - 1].kind) {
        FoundBehind(SectionBack(sections, id, i), rest, index);
      } else {
        assert [] + rest == rest;
      }
    }
  }

  lemma {:induction false} FoundBehind(s: InputSection, rest: seq<InputSection>, index: nat)
    ensures IndexedSection([s] + rest, index).Some? <==> s.index == index || IndexedSection(rest, index).Some?
  {
    assert ([s] + rest)[1..] == rest;
  }

  lemma {:induction false} EmptyHeader(t: Target, sections: seq<Section>, syms: seq<ElfSymbol>, i: nat)
    requires WellFormed(sections, syms) && 0 < i <= |sections| && sections[i - 1].kind == SHT_RELA
    requires sections[i - 1].entsize in {0, RELA_SIZE} && sections[i - 1].data == [] && sections[i - 1].logicalSize == 0
    ensures var h := HeaderBack(sections, syms, i);
      && h.kind == SHT_RELA && EntryCount(h) == 0 && h.info == sections[i - 1].info
      && SoundHeader(h, |Image(t, sections, syms)|)
  {
    hide WellFormed, Image, HeaderBack;
    UserHeaderBack(sections, syms, i);
    HeaderIsSound(t, sections, syms, i);
  }

  /** The header of a relocation section announces its entries. */
  lemma {:induction false} HeaderAnnounces(t: Target, sections: seq<Section>, syms: seq<ElfSymbol>, i: nat,
                                           rs: seq<RawRela>)
    requires WellFormed(sections, syms) && 0 < i <= |sections| && sections[i - 1].kind == SHT_RELA
    requires EntriesFit(syms, sections[i - 1], rs)
    ensures var h := HeaderBack(sections, syms, i);
      && h.kind == SHT_RELA && EntryCount(h) == |rs| && h.info == sections[i - 1].info
      && SoundHeader(h, |Image(t, sections, syms)|)
  {
    hide WellFormed, Image, HeaderBack, RelaFits, EntryCount, SoundHeader;
    if rs == [] {
      EmptyHeader(t, sections, syms, i);
    } else {
      RelaHeader(t, sections, syms, i, rs);
    }
  }

  lemma {:induction false} EntriesAreBack(t: Target, sections: seq<Section>, syms: seq<ElfSymbol>, id: Origin,
                                          loaded: seq<InputSection>, i: nat, rs: seq<RawRela>, j: nat)
    requires WellFormed(sections, syms) && ValidObject(ObjectBack(t, sections, syms, id))
    requires 0 < i <= |sections| && sections[i - 1].kind == SHT_RELA && EntriesFit(syms, sections[i - 1], rs)
    requires j <= |rs|
    ensures var o := ObjectBack(t, sections, syms, id); var h := HeaderBack(sections, syms, i);
      && h.kind == SHT_RELA && SoundHeader(h, |o.data|)
      && EntriesFrom(o, loaded, h, j) == EntriesBack(syms, id, sections[i - 1], rs)[j..]
    decreases |rs| - j
  {
    hide WellFormed, Image, HeaderBack, ObjectBack, RelaFits, Ordered, EntryCount, EntryFits, SoundHeader,
      ValidObject, RelocRead, RelaBytes, TargetBack;
    var o, h := ObjectBack(t, sections, syms, id), HeaderBack(sections, syms, i);
    HeaderAnnounces(t, sections, syms, i, rs);
    ObjectParts(t, sections, syms, id, i);
    if j < |rs| {
      LocalsComeFirst(syms);
      EntriesAreBack(t, sections, syms, id, loaded, i, rs, j + 1);
      RelocIsBack(t, sections, syms, id, loaded, i, rs, j);
      var back := EntriesBack(syms, id, sections[i - 1], rs);
      assert back[j..] == [back[j]] + back[j + 1..];
    }
  }

  lemma {:induction false} ObjectParts(t: Target, sections: seq<Section>, syms: seq<ElfSymbol>, id: Origin, i: nat)
    requires i < |sections| + 4
    ensures var o := ObjectBack(t, sections, syms, id);
      |o.hs| == |sections| + 4 && o.hs[i] == HeaderBack(sections, syms, i) && o.data == Image(t, sections, syms)
  {
    hide Image, HeaderBack;
  }

  /** Headers that are not the caller's have no relocations. */
  lemma {:induction false} OwnRelocs(t: Target, sections: seq<Section>, syms: seq<ElfSymbol>, id: Origin,
                                     loaded: seq<InputSection>, i: nat)
    requires ValidObject(ObjectBack(t, sections, syms, id)) && |sections| < i <= |sections| + 4
    ensures |ObjectBack(t, sections, syms, id).hs| == |sections| + 4
    ensures RelocsFrom(ObjectBack(t, sections, syms, id), loaded, i) == []
    decreases |sections| + 4 - i
  {
    hide ValidObject, ObjectBack, HeaderBack, EntriesFrom, IndexedSection;
    ObjectParts(t, sections, syms, id, 0);
    if i < |sections| + 4 {
      OwnRelocs(t, sections, syms, id, loaded, i + 1);
      OwnHeaderBack(sections, syms, i);
      ObjectParts(t, sections, syms, id, i);
    }
  }

  lemma {:induction false} RelocsAreBack(t: Target, sections: seq<Section>, syms: seq<ElfSymbol>, id: Origin,
                                         entries: seq<seq<RawRela>>, i: nat)
    requires WellFormed(sections, syms) && ValidObject(ObjectBack(t, sections, syms, id))
    requires RelocsFit(sections, syms, entries)
    requires 1 <= i <= |sections| + 1 && |ObjectBack(t, sections, syms, id).hs| == |sections| + 4
    ensures RelocsFrom(ObjectBack(t, sections, syms, id), SectionsBack(sections, id, 0), i)
         == RelocsBack(sections, syms, id, entries, i - 1)
    decreases |sections| + 1 - i
  {
    hide WellFormed, Image, HeaderBack, ObjectBack, SoundHeader, ValidObject, EntriesFrom, EntriesBack, SectionsBack,
      IndexedSection, Loaded, EntriesFit;
    var loaded := SectionsBack(sections, id, 0);
    if i == |sections| + 1 {
      OwnRelocs(t, sections, syms, id, loaded, i);
    } else {
      RelocsAreBack(t, sections, syms, id, entries, i + 1);
      ObjectParts(t, sections, syms, id, i);
      UserHeaderBack(sections, syms, i);
      FoundExactly(sections, id, 0, sections[i - 1].info);
      if sections[i - 1].kind == SHT_RELA {
        EntriesAreBack(t, sections, syms, id, loaded, i, entries[i - 1], 0);
        assert EntriesBack(syms, id, sections[i - 1], entries[i - 1])[0..]
            == EntriesBack(syms, id, sections[i - 1], entries[i - 1]);
      }
    }
  }

  /** Writing and parsing: the relocations are exactly the written entries for loaded sections, in order,
      each under the name by which the linker knows its symbol. */
  lemma {:induction false} WrittenRelocsParse(t: Target, sections: seq<Section>, syms: seq<ElfSymbol>, id: Origin,
                                              entries: seq<seq<RawRela>>)
    requires WellFormed(sections, syms) && PlainSizes(sections) && RelocsFit(sections, syms, entries)
    ensures Readable(Image(t, sections, syms))
    ensures Parsed(id, Image(t, sections, syms)).relocs == RelocsBack(sections, syms, id, entries, 0)
  {
    hide WellFormed, PlainSizes, Image, ObjectBack, SectionsFrom, SymbolsOf, RelocsFrom, SectionsBack, RelocsFit,
      RelocsBack, ValidObject, Readable, HeaderBack;
    ObjectIsBack(t, sections, syms, id);
    ObjectIsValid(t, sections, syms, id);
    SectionsAreBack(t, sections, syms, id, 0);
    NullHasNoRelocs(t, sections, syms, id, SectionsBack(sections, id, 0));
    RelocsAreBack(t, sections, syms, id, entries, 1);
  }

  lemma {:induction false} NullHasNoRelocs(t: Target, sections: seq<Section>, syms: seq<ElfSymbol>, id: Origin,
                                           loaded: seq<InputSection>)
    requires ValidObject(ObjectBack(t, sections, syms, id))
    ensures var o := ObjectBack(t, sections, syms, id);
      |o.hs| == |sections| + 4 && RelocsFrom(o, loaded, 0) == RelocsFrom(o, loaded, 1)
  {
    hide ValidObject, ObjectBack, HeaderBack, EntriesFrom, IndexedSection;
    ObjectParts(t, sections, syms, id, 0);
    OwnHeaderBack(sections, syms, 0);
  }
}
