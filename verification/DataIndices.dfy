/** The second numbering of the symbols, for relocations of initialised data. It lists every name that
    a code relocation mentions as a global symbol, local labels too. */
module DataIndices {
  import opened ElfStrings
  import opened ElfSymbols
  import opened ElfWriter
  import opened ElfParser
  import opened ElfRoundTrip
  import opened RelocSymbols
  import opened RelocIndices

  /** What code relocations mention, all of it global, and the names seen. Numbering looks at names and
      bindings only. */
  function TextMentions(u: Unit, n: nat): (seq<ElfSymbol>, set<Name>)
    requires n <= |u.relocs|
  {
    if n == 0 then ([], KnownNames(u))
    else
      var (syms, known) := TextMentions(u, n - 1);
      var name := u.relocs[n - 1].symbol;
      if name in known then (syms, known)
      else (syms + [Undefined(name, STB_GLOBAL, if IsCalled(u, name) then STT_FUNC else STT_NOTYPE)], known + {name})
  }

  function TextNames(u: Unit): set<Name> {
    set r | r in u.relocs :: r.symbol
  }

  /** Names that only data relocations mention, and the names seen. */
  function DataExtras(u: Unit, names: seq<Name>, n: nat): (seq<ElfSymbol>, set<Name>)
    requires n <= |names|
  {
    if n == 0 then ([], KnownNames(u) + TextNames(u))
    else
      var (syms, known) := DataExtras(u, names, n - 1);
      if names[n - 1] in known then (syms, known)
      else (syms + [Undefined(names[n - 1], STB_GLOBAL, STT_NOTYPE)], known + {names[n - 1]})
  }

  function Extras(u: Unit, names: seq<Name>): seq<ElfSymbol> {
    DataExtras(u, names, |names|).0
  }

  /** What both numberings begin with. */
  function Base(u: Unit): seq<ElfSymbol> {
    Listed(u) + Everything(AliasCandidates(u, |u.aliases|))
  }

  function Behind(u: Unit, names: seq<Name>): seq<ElfSymbol> {
    TextMentions(u, |u.relocs|).0 + Extras(u, names)
  }

  function DataNumbered(u: Unit, names: seq<Name>): seq<ElfSymbol> {
    Base(u) + Behind(u, names)
  }

  /** The symbol table once the extra names are added. */
  function DataTable(u: Unit, names: seq<Name>): seq<ElfSymbol> {
    Table(Candidates(u), Extras(u, names))
  }

  /** Add the extra names to the file and number everything. */
  method NumberForData(u: Unit, names: seq<Name>, writer: ElfWriter) returns (index: map<Name, nat>)
    requires writer.Valid()
    modifies writer.symbols, writer.symbols.strings
    ensures writer.Valid() && writer.symbols.symbols == old(writer.symbols.symbols) + Extras(u, names)
    ensures index == IndexMap(DataNumbered(u, names))
  {
    hide KnownNames, IsCalled, StringsOf, Listed, AliasCandidates, IndexMap;
    var known, extras := KnownNames(u) + TextNames(u), [];
    for i := 0 to |names|
      invariant (extras, known) == DataExtras(u, names, i)
    {
      if names[i] !in known {
        known := known + {names[i]};
        extras := extras + [Undefined(names[i], STB_GLOBAL, STT_NOTYPE)];
      }
    }
    AddAll(writer, extras);
    var all := ListSymbols(u);
    var mentions, seen := [], KnownNames(u);
    for i := 0 to |u.relocs|
      invariant (mentions, seen) == TextMentions(u, i)
    {
      var name := u.relocs[i].symbol;
      if name !in seen {
        seen := seen + {name};
        mentions := mentions + [Undefined(name, STB_GLOBAL, if IsCalled(u, name) then STT_FUNC else STT_NOTYPE)];
      }
    }
    assert all + (mentions + extras) == DataNumbered(u, names);
    index := NumberSymbols(all + (mentions + extras));
  }

  /** The extra names are those that nothing else mentions, once each, and left to other objects. */
  lemma {:induction false} ExtrasExactly(u: Unit, names: seq<Name>, n: nat)
    requires n <= |names|
    ensures var (syms, known) := DataExtras(u, names, n);
      && (forall s :: s in syms ==> s == ElfSymbol(s.name, 0, 0, 1, 0, 0, 0) && s.name in known
                                    && s.name !in KnownNames(u) && s.name !in TextNames(u) && s.name in names[..n])
      && (forall a, b :: 0 <= a < b < |syms| ==> syms[a].name != syms[b].name)
      && (forall name :: name in names[..n] || name in KnownNames(u) || name in TextNames(u) ==> name in known)
      && (forall name :: name in known
                         ==> name in KnownNames(u) || name in TextNames(u) || exists s :: s in syms && s.name == name)
    decreases n
  {
    hide KnownNames, TextNames;
    if n > 0 {
      ExtrasExactly(u, names, n - 1);
      var (syms, known) := DataExtras(u, names, n - 1);
      var last := Undefined(names[n - 1], STB_GLOBAL, STT_NOTYPE);
      assert names[..n] == names[..n - 1] + [names[n - 1]];
      assert last in syms + [last] && forall s :: s in syms ==> s in syms + [last];
    }
  }

  // ---- what is numbered ----

  predicate NoLabelMentioned(u: Unit) {
    forall r :: r in u.relocs && r.symbol in u.labels ==> r.symbol in KnownNames(u)
  }

  lemma {:induction false} MentionsAgree(u: Unit, n: nat)
    requires n <= |u.relocs|
    ensures TextMentions(u, n).1 == MentionedSymbols(u, n).2
    ensures NoLabelMentioned(u) ==> MentionedSymbols(u, n).0 == [] && TextMentions(u, n).0 == MentionedSymbols(u, n).1
    ensures KnownNames(u) <= TextMentions(u, n).1
    decreases n
  {
    hide KnownNames, IsCalled;
    if n > 0 {
      MentionsAgree(u, n - 1);
      assert u.relocs[n - 1] in u.relocs;
    }
  }

  lemma {:induction false} MentionsGlobal(u: Unit, names: seq<Name>, n: nat, m: nat)
    requires n <= |u.relocs| && m <= |names|
    ensures NoLocals(TextMentions(u, n).0) && NoLocals(DataExtras(u, names, m).0)
    decreases n + m
  {
    hide KnownNames, IsCalled, TextNames;
    if n > 0 {
      MentionsGlobal(u, names, n - 1, m);
    } else if m > 0 {
      MentionsGlobal(u, names, n, m - 1);
    }
  }

  // ---- without local labels every name is recovered ----

  lemma {:induction false} TextNameMentioned(u: Unit, n: nat, name: Name)
    requires n <= |u.relocs| && (exists i :: 0 <= i < n && u.relocs[i].symbol == name)
    ensures name in KnownNames(u) || Names(TextMentions(u, n).0, name)
    decreases n
  {
    hide KnownNames, IsCalled, Names;
    var last := u.relocs[n - 1].symbol;
    MentionSeen(u, n - 1, last);
    var (syms, known) := TextMentions(u, n - 1);
    var undefined := Undefined(last, STB_GLOBAL, if IsCalled(u, last) then STT_FUNC else STT_NOTYPE);
    NamesJoin(syms, [undefined], name);
    OneName(undefined);
    if name != last {
      TextNameMentioned(u, n - 1, name);
    }
  }

  lemma {:induction false} MentionSeen(u: Unit, n: nat, name: Name)
    requires n <= |u.relocs|
    ensures name in TextMentions(u, n).1 <==> name in KnownNames(u) || Names(TextMentions(u, n).0, name)
    decreases n
  {
    hide KnownNames, IsCalled, Names;
    if n == 0 {
      NoName(name);
    } else {
      MentionSeen(u, n - 1, name);
      var last := u.relocs[n - 1].symbol;
      var undefined := Undefined(last, STB_GLOBAL, if IsCalled(u, last) then STT_FUNC else STT_NOTYPE);
      NamesJoin(TextMentions(u, n - 1).0, [undefined], name);
      OnlyName(undefined, name);
    }
  }

  lemma {:induction false} NoName(name: Name)
    ensures !Names([], name)
  {
  }

  lemma {:induction false} OnlyName(s: ElfSymbol, name: Name)
    ensures Names([s], name) <==> s.name == name
  {
    assert [s][0] == s;
  }

  lemma {:induction false} ExtraSeen(u: Unit, names: seq<Name>, n: nat, name: Name)
    requires n <= |names|
    ensures name in DataExtras(u, names, n).1
       <==> name in KnownNames(u) || name in TextNames(u) || Names(DataExtras(u, names, n).0, name)
    ensures (exists i :: 0 <= i < n && names[i] == name) ==> name in DataExtras(u, names, n).1
    decreases n
  {
    hide KnownNames, TextNames, Names;
    if n == 0 {
      NoName(name);
    } else {
      ExtraSeen(u, names, n - 1, name);
      var last := Undefined(names[n - 1], STB_GLOBAL, STT_NOTYPE);
      NamesJoin(DataExtras(u, names, n - 1).0, [last], name);
      OnlyName(last, name);
    }
  }

  lemma {:induction false} KnownInBase(u: Unit, name: Name)
    requires name in KnownNames(u)
    ensures Names(Base(u), name)
  {
    hide Listed, AliasCandidate, AliasCandidates, KnownNames, Names;
    KnownIsCandidate(u, name);
    NamesJoin(Listed(u), Everything(AliasCandidates(u, |u.aliases|)), name);
    if !Names(Listed(u), name) {
      var i :| 0 <= i < |u.aliases| && u.aliases[i].name == name;
      AliasAt(u, |u.aliases|, i);
      AliasName(u, u.aliases[i]);
      NameAt(Everything(AliasCandidates(u, |u.aliases|)), i);
    }
  }

  lemma {:induction false} NameAt(syms: seq<ElfSymbol>, i: nat)
    requires i < |syms|
    ensures Names(syms, syms[i].name)
  {
  }

  /** Every name that a data relocation mentions is numbered. */
  lemma {:induction false} DataNameIsNumbered(u: Unit, names: seq<Name>, name: Name) returns (p: nat)
    requires name in names
    ensures p < |DataNumbered(u, names)| && DataNumbered(u, names)[p].name == name
  {
    hide Base, KnownNames, TextMentions, DataExtras;
    var mentions := TextMentions(u, |u.relocs|).0;
    NamesJoin(Base(u), Behind(u, names), name);
    NamesJoin(mentions, Extras(u, names), name);
    ExtraSeen(u, names, |names|, name);
    if name in KnownNames(u) {
      KnownInBase(u, name);
    } else if name in TextNames(u) {
      var k :| 0 <= k < |u.relocs| && u.relocs[k].symbol == name;
      TextNameMentioned(u, |u.relocs|, name);
    }
    hide DataNumbered;
    assert Names(DataNumbered(u, names), name) by {
      DataNumberedMeans(u, names);
    }
    p :| 0 <= p < |DataNumbered(u, names)| && DataNumbered(u, names)[p].name == name;
  }

  lemma {:induction false} DataNumberedMeans(u: Unit, names: seq<Name>)
    ensures DataNumbered(u, names) == Base(u) + Behind(u, names)
  {
  }

  lemma {:induction false} WrittenWhenDefined(u: Unit)
    requires TargetsDefined(u)
    ensures Written(Candidates(u)) == Base(u) + Mentioned(u)
  {
    hide Written, Listed, Mentioned, AliasCandidates;
    var cs := Candidates(u);
    OnlyAliasesMissing(u);
    AllAreWritten(cs, |cs|);
    assert cs[..|cs|] == cs;
    assert Everything(cs) == Base(u) + Mentioned(u);
  }

  /** If code relocations mention no local label and every alias target is defined, both lists agree. */
  lemma {:induction false} SameList(u: Unit, names: seq<Name>)
    requires TargetsDefined(u) && NoLabelMentioned(u)
    ensures DataNumbered(u, names) == DataTable(u, names)
  {
    hide Base, NoLabelMentioned, Written, Candidates;
    WrittenWhenDefined(u);
    MentionsAgree(u, |u.relocs|);
    assert Mentioned(u) == TextMentions(u, |u.relocs|).0;
    assert Base(u) + (TextMentions(u, |u.relocs|).0 + Extras(u, names))
        == Base(u) + TextMentions(u, |u.relocs|).0 + Extras(u, names);
  }

  lemma {:induction false} OrderedNames(syms: seq<ElfSymbol>, k: nat)
    requires k < |Ordered(syms)|
    ensures Names(syms, Ordered(syms)[k].name)
  {
    hide Ordered, Position, Names;
    var p := PositionIsReached(syms, k);
    PositionHolds(syms, p);
    NameAt(syms, p);
  }

  /** A name that only the common end of two lists bears is recovered, whatever stands before it. */
  lemma {:induction false} TailLeadsBack(a: seq<ElfSymbol>, b: seq<ElfSymbol>, tail: seq<ElfSymbol>, name: Name)
    requires |a| == |b| && NoLocals(tail) && !Names(a, name) && Names(tail, name)
    ensures LeadsBack(a + tail, b + tail, name)
  {
    hide Ordered, NoLocals;
    OrderedLater(a, tail);
    OrderedLater(b, tail);
    SameCount(a);
    SameCount(b);
    var ordered := Ordered(a + tail);
    var k :| 0 <= k < |tail| && tail[k].name == name;
    assert ordered[|a| + k] == tail[k];
    IndexCovers(ordered, |ordered|, |a| + k);
    IndexLeadsBack(ordered, |ordered|, name);
    var i := IndexMap(a + tail)[name] - 1;
    if i < |a| {
      assert ordered[i] == Ordered(a)[i];
      OrderedNames(a, i);
    }
    assert Ordered(b + tail)[i] == tail[i - |a|] == ordered[i];
  }

  lemma {:induction false} MentionIsText(u: Unit, n: nat, name: Name)
    requires n <= |u.relocs| && Names(TextMentions(u, n).0, name)
    ensures name in TextNames(u)
    decreases n
  {
    hide KnownNames, IsCalled, Names;
    if n == 0 {
      NoName(name);
    } else {
      var last := u.relocs[n - 1].symbol;
      var undefined := Undefined(last, STB_GLOBAL, if IsCalled(u, last) then STT_FUNC else STT_NOTYPE);
      NamesJoin(TextMentions(u, n - 1).0, [undefined], name);
      OnlyName(undefined, name);
      assert u.relocs[n - 1] in u.relocs;
      if Names(TextMentions(u, n - 1).0, name) {
        MentionIsText(u, n - 1, name);
      }
    }
  }

  lemma {:induction false} NotInBase(u: Unit, name: Name)
    requires name !in KnownNames(u)
    ensures !Names(Base(u), name)
  {
    hide KnownNames, Base;
    if Names(Base(u), name) {
      var p :| 0 <= p < |Base(u)| && Base(u)[p].name == name;
      BaseIsKnown(u, p);
    }
  }

  /** Both lists in three parts, each part as long in one as in the other. */
  lemma {:induction false} BothLists(u: Unit, names: seq<Name>)
    requires TargetsDefined(u)
    ensures DataNumbered(u, names) == Base(u) + TextMentions(u, |u.relocs|).0 + Extras(u, names)
    ensures DataTable(u, names) == Base(u) + Mentioned(u) + Extras(u, names)
    ensures |TextMentions(u, |u.relocs|).0| == |Mentioned(u)|
  {
    hide Base, TextMentions, MentionedSymbols, DataExtras, Written, Candidates, TargetsDefined;
    WrittenWhenDefined(u);
    SameNumber(u, |u.relocs|);
  }

  lemma {:induction false} SameNumber(u: Unit, n: nat)
    requires n <= |u.relocs|
    ensures |TextMentions(u, n).0| == |MentionedSymbols(u, n).0| + |MentionedSymbols(u, n).1|
    decreases n
  {
    hide KnownNames, IsCalled;
    if n > 0 {
      SameNumber(u, n - 1);
      MentionsAgree(u, n - 1);
    }
  }

  /** A name that only data mentions is recovered, with or without labels. */
  lemma {:induction false} DataOnlyRecovered(u: Unit, names: seq<Name>, name: Name)
    requires TargetsDefined(u) && name in names && name !in KnownNames(u) && name !in TextNames(u)
    ensures LeadsBack(DataNumbered(u, names), DataTable(u, names), name)
  {
    hide *;
    var base, mentions, mentioned, extras := Base(u), TextMentions(u, |u.relocs|).0, Mentioned(u), Extras(u, names);
    BothLists(u, names);
    NotInBase(u, name);
    NamesJoin(base, mentions, name);
    if Names(mentions, name) {
      MentionIsText(u, |u.relocs|, name);
    }
    ExtraNamed(u, names, name);
    ExtrasGlobal(u, names);
    TailLeadsBack(base + mentions, base + mentioned, extras, name);
  }

  lemma {:induction false} ExtraNamed(u: Unit, names: seq<Name>, name: Name)
    requires name in names && name !in KnownNames(u) && name !in TextNames(u)
    ensures Names(Extras(u, names), name)
  {
    hide Names, KnownNames, TextNames, DataExtras;
    ExtraSeen(u, names, |names|, name);
  }

  lemma {:induction false} ExtrasGlobal(u: Unit, names: seq<Name>)
    ensures NoLocals(Extras(u, names))
  {
    hide NoLocals, TextMentions, DataExtras;
    MentionsGlobal(u, names, 0, |names|);
  }

  /** A name that a data relocation mentions is recovered from its index if code mentions no label, or only
      data mentions the name. */
  lemma {:induction false} DataNamesRecovered(u: Unit, names: seq<Name>, name: Name)
    requires TargetsDefined(u) && name in names
    requires NoLabelMentioned(u) || (name !in KnownNames(u) && name !in TextNames(u))
    ensures LeadsBack(DataNumbered(u, names), DataTable(u, names), name)
  {
    hide DataNumbered, DataTable, TargetsDefined, NoLabelMentioned, Ordered, LeadsBack, KnownNames, TextNames;
    if NoLabelMentioned(u) {
      SameList(u, names);
      var p := DataNameIsNumbered(u, names, name);
      PrefixLeadsBack(DataNumbered(u, names), DataTable(u, names), p);
    } else {
      DataOnlyRecovered(u, names, name);
    }
  }

  /** ... and through the written and parsed file. */
  lemma {:induction false} DataNamesSurvive(t: Target, sections: seq<Section>, u: Unit, names: seq<Name>, id: Origin,
                                            loaded: seq<InputSection>, name: Name)
    requires TargetsDefined(u) && name in names && name != []
    requires NoLabelMentioned(u) || (name !in KnownNames(u) && name !in TextNames(u))
    requires WellFormed(sections, DataTable(u, names))
    ensures FindsSymbol(t, sections, DataNumbered(u, names), DataTable(u, names), id, loaded, name)
  {
    hide *;
    DataNamesRecovered(u, names, name);
    ObjectIsValid(t, sections, DataTable(u, names), id);
    FoundInFile(t, sections, DataNumbered(u, names), DataTable(u, names), id, loaded, name);
  }

  // ---- with local labels the globals are off ----

  ghost predicate AllLocals(syms: seq<ElfSymbol>) {
    forall i :: 0 <= i < |syms| ==> syms[i].binding == STB_LOCAL
  }

  lemma {:induction false} LabelsLocal(u: Unit, n: nat)
    requires n <= |u.relocs|
    ensures AllLocals(MentionedSymbols(u, n).0) && NoLocals(MentionedSymbols(u, n).1)
    decreases n
  {
    hide KnownNames, IsCalled;
    if n > 0 {
      LabelsLocal(u, n - 1);
    }
  }

  lemma {:induction false} LaterLocals(syms: seq<ElfSymbol>, labels: seq<ElfSymbol>, n: nat)
    requires AllLocals(labels) && n <= |labels|
    ensures |Locals(syms + labels[..n])| == |Locals(syms)| + n
    decreases n
  {
    hide Locals, Others;
    if n == 0 {
      assert syms + labels[..0] == syms;
    } else {
      LaterLocals(syms, labels, n - 1);
      assert syms + labels[..n] == (syms + labels[..n - 1]) + [labels[n - 1]];
      GroupsSnoc(syms + labels[..n - 1], labels[n - 1]);
    }
  }

  /** Labels in the table move every global symbol before them up. */
  lemma {:induction false} LabelsShift(base: seq<ElfSymbol>, labels: seq<ElfSymbol>, more: seq<ElfSymbol>,
                                       others: seq<ElfSymbol>, p: nat)
    requires p < |base| && AllLocals(labels) && NoLocals(more) && NoLocals(others)
    ensures Position(base + labels + more, p)
         == Position(base + others, p) + if base[p].binding == STB_LOCAL then 0 else |labels|
  {
    hide Locals, Others, AllLocals, NoLocals;
    LaterGlobals(base + labels, more, |more|);
    LaterGlobals(base, others, |others|);
    LaterLocals(base, labels, |labels|);
    assert more[..|more|] == more && others[..|others|] == others && labels[..|labels|] == labels;
    assert (base + labels + more)[..p] == base[..p] == (base + others)[..p];
  }

  lemma {:induction false} LabelsMentioned(u: Unit, n: nat)
    requires n <= |u.relocs|
    ensures MentionedSymbols(u, n).0 == []
       <==> forall i :: 0 <= i < n && u.relocs[i].symbol in u.labels ==> u.relocs[i].symbol in KnownNames(u)
    decreases n
  {
    hide KnownNames, IsCalled;
    if n > 0 {
      LabelsMentioned(u, n - 1);
      MentionsAgree(u, n - 1);
      if MentionedSymbols(u, n - 1).0 == [] {
        SeenIsKnown(u, n - 1);
      }
    }
  }

  /** A label that is seen already has been listed, unless it was known. */
  lemma {:induction false} SeenIsKnown(u: Unit, n: nat)
    requires n <= |u.relocs| && MentionedSymbols(u, n).0 == []
    ensures forall name :: name in MentionedSymbols(u, n).2 && name in u.labels ==> name in KnownNames(u)
    decreases n
  {
    hide KnownNames, IsCalled;
    if n > 0 {
      SeenIsKnown(u, n - 1);
    }
  }

  lemma {:induction false} DeclarationsKnown(u: Unit, n: nat, name: Name)
    requires n <= |u.declarations|
    ensures Names(DeclarationSymbols(u, n), name) ==> name in u.declarations
    decreases n
  {
    hide Names, FunctionNames;
    if n == 0 {
      NoName(name);
    } else {
      DeclarationsKnown(u, n - 1, name);
      var last := Undefined(u.declarations[n - 1], STB_GLOBAL, STT_FUNC);
      NamesJoin(DeclarationSymbols(u, n - 1), [last], name);
      OnlyName(last, name);
      assert DeclarationSymbols(u, n - 1) + [] == DeclarationSymbols(u, n - 1);
    }
  }

  lemma {:induction false} FunctionsKnown(u: Unit, n: nat, m: nat, name: Name)
    requires n <= |u.functions| && m <= |u.globals|
    ensures Names(FunctionSymbols(u, n), name) ==> name in FunctionNames(u)
    ensures Names(GlobalSymbols(u, m), name) ==> exists k :: 0 <= k < |u.globals| && u.globals[k].name == name
    decreases n + m
  {
    hide Names, FunctionSymbol, GlobalSymbol;
    if n > 0 {
      FunctionsKnown(u, n - 1, m, name);
      var f := u.functions[n - 1];
      var last := FunctionSymbol(u, f.name, f, f.binding, f.visibility);
      NamesJoin(FunctionSymbols(u, n - 1), [last], name);
      OnlyName(last, name);
      SymbolNames(u, f, f.name, if m > 0 then u.globals[m - 1] else GlobalInfo(name, 0, 0, true, 0));
    } else if m > 0 {
      FunctionsKnown(u, n, m - 1, name);
      NamesJoin(GlobalSymbols(u, m - 1), [GlobalSymbol(u.globals[m - 1])], name);
      OnlyName(GlobalSymbol(u.globals[m - 1]), name);
      SymbolNames(u, FunctionInfo(name, 0, 0, 0, 0), name, u.globals[m - 1]);
      NoName(name);
    } else {
      NoName(name);
    }
  }

  lemma {:induction false} SymbolNames(u: Unit, f: FunctionInfo, name: Name, g: GlobalInfo)
    ensures FunctionSymbol(u, name, f, f.binding, f.visibility).name == name && GlobalSymbol(g).name == g.name
  {
  }

  lemma {:induction false} ExternsKnown(u: Unit, n: nat, name: Name)
    requires n <= |u.moduleGlobals|
    ensures Names(ExternSymbols(u, n).0, name)
            ==> exists g :: g in u.moduleGlobals && g.name == name && !g.isDefinition
    decreases n
  {
    hide Names, DefinedNames;
    if n == 0 {
      NoName(name);
    } else {
      ExternsKnown(u, n - 1, name);
      var g := u.moduleGlobals[n - 1];
      var last := Undefined(g.name, if g.isWeak then STB_WEAK else STB_GLOBAL, STT_NOTYPE);
      NamesJoin(ExternSymbols(u, n - 1).0, [last], name);
      OnlyName(last, name);
    }
  }

  lemma {:induction false} BaseIsKnown(u: Unit, p: nat)
    requires p < |Base(u)|
    ensures Base(u)[p].name in KnownNames(u)
  {
    var name := Base(u)[p].name;
    AliasCount(u, |u.aliases|);
    if |Listed(u)| <= p {
      AliasAt(u, |u.aliases|, p - |Listed(u)|);
      AliasName(u, u.aliases[p - |Listed(u)|]);
      assert u.aliases[p - |Listed(u)|] in u.aliases;
    } else {
      NameAt(Listed(u), p);
      ListedIsKnown(u, name);
    }
  }

  lemma {:induction false} ListedIsKnown(u: Unit, name: Name)
    requires Names(Listed(u), name)
    ensures name in KnownNames(u)
  {
    var f, g, d, e := FunctionSymbols(u, |u.functions|), GlobalSymbols(u, |u.globals|),
      DeclarationSymbols(u, |u.declarations|), ExternSymbols(u, |u.moduleGlobals|).0;
    FunctionsKnown(u, |u.functions|, |u.globals|, name);
    DeclarationsKnown(u, |u.declarations|, name);
    ExternsKnown(u, |u.moduleGlobals|, name);
    hide Names, FunctionSymbols, GlobalSymbols, DeclarationSymbols, ExternSymbols;
    NamesJoin(f, g, name);
    NamesJoin(f + g, d, name);
    NamesJoin(f + g + d, e, name);
  }

  /** Nothing behind the base bears a name that is known. */
  lemma {:induction false} BehindIsNew(u: Unit, names: seq<Name>, n: nat, m: nat, name: Name)
    requires n <= |u.relocs| && m <= |names| && name in KnownNames(u)
    ensures !Names(TextMentions(u, n).0, name) && !Names(DataExtras(u, names, m).0, name)
    ensures !Names(MentionedSymbols(u, n).0, name) && !Names(MentionedSymbols(u, n).1, name)
    decreases n + m
  {
    hide KnownNames, IsCalled, TextNames, Names;
    if n > 0 {
      BehindIsNew(u, names, n - 1, m, name);
      MentionsAgree(u, n - 1);
      var last := u.relocs[n - 1].symbol;
      var undefined := Undefined(last, STB_GLOBAL, if IsCalled(u, last) then STT_FUNC else STT_NOTYPE);
      NamesJoin(TextMentions(u, n - 1).0, [undefined], name);
      NamesJoin(MentionedSymbols(u, n - 1).1, [undefined], name);
      OnlyName(undefined, name);
      if last in u.labels {
        var place := ElfSymbol(last, u.labels[last], 0, STB_LOCAL, STT_NOTYPE, 0, u.text);
        NamesJoin(MentionedSymbols(u, n - 1).0, [place], name);
        OnlyName(place, name);
      }
    } else if m > 0 {
      BehindIsNew(u, names, n, m - 1, name);
      ExtraSeen(u, names, m - 1, name);
      var last := Undefined(names[m - 1], STB_GLOBAL, STT_NOTYPE);
      NamesJoin(DataExtras(u, names, m - 1).0, [last], name);
      OnlyName(last, name);
    } else {
      NoName(name);
    }
  }

  lemma {:induction false} StaysUnique(base: seq<ElfSymbol>, more: seq<ElfSymbol>, p: nat)
    requires p < |base| && UniqueAt(base, p) && !Names(more, base[p].name)
    ensures UniqueAt(base + more, p)
  {
    forall i | 0 <= i < |base + more| && i != p
      ensures (base + more)[i].name != base[p].name
    {
      if i >= |base| {
        NameAt(more, i - |base|);
      }
    }
  }

  lemma {:induction false} ShiftedLeadsBack(base: seq<ElfSymbol>, labels: seq<ElfSymbol>, more: seq<ElfSymbol>,
                                            others: seq<ElfSymbol>, p: nat)
    requires p < |base| && UniqueAt(base, p) && AllLocals(labels) && NoLocals(more) && NoLocals(others)
    requires !Names(labels, base[p].name) && !Names(more, base[p].name) && !Names(others, base[p].name)
    ensures LeadsBack(base + others, base + labels + more, base[p].name)
         <==> base[p].binding == STB_LOCAL || labels == []
  {
    hide Names, Position, UniqueAt, LeadsBack, AllLocals, NoLocals;
    StaysUnique(base, others, p);
    StaysUnique(base, labels, p);
    StaysUnique(base + labels, more, p);
    LabelsShift(base, labels, more, others, p);
    UniqueLeadsBack(base + others, base + labels + more, p, p);
  }

  /** A listed symbol or alias whose name no other has is recovered for data relocations exactly when
      it is local or code relocations mention no local label. */
  lemma {:induction false} DataRecoveredExactly(u: Unit, names: seq<Name>, p: nat)
    requires TargetsDefined(u) && p < |Base(u)| && UniqueAt(Base(u), p)
    ensures LeadsBack(DataNumbered(u, names), DataTable(u, names), Base(u)[p].name)
       <==> Base(u)[p].binding == STB_LOCAL || NoLabelMentioned(u)
  {
    hide Base, Names, Position, UniqueAt, KnownNames, TextMentions, DataExtras, MentionedSymbols, LeadsBack, Written,
      Candidates, AllLocals, NoLocals;
    var base, name, extras, mentions := Base(u), Base(u)[p].name, Extras(u, names), TextMentions(u, |u.relocs|).0;
    var (labels, undefined, known) := MentionedSymbols(u, |u.relocs|);
    BaseIsKnown(u, p);
    BehindIsNew(u, names, |u.relocs|, |names|, name);
    NamesJoin(mentions, extras, name);
    NamesJoin(undefined, extras, name);
    LabelsLocal(u, |u.relocs|);
    MentionsGlobal(u, names, |u.relocs|, |names|);
    GlobalsJoin(mentions, extras);
    GlobalsJoin(undefined, extras);
    LabelsMentioned(u, |u.relocs|);
    WrittenWhenDefined(u);
    assert base + (labels + undefined) + extras == base + labels + (undefined + extras);
    ShiftedLeadsBack(base, labels, undefined + extras, Behind(u, names), p);
  }

  lemma {:induction false} GlobalsJoin(a: seq<ElfSymbol>, b: seq<ElfSymbol>)
    requires NoLocals(a) && NoLocals(b)
    ensures NoLocals(a + b)
  {
  }

  // ---- names that only code mentions ----

  /** Relocation `i` is the first to mention its symbol, which the unit does not know. */
  predicate FirstMention(u: Unit, i: nat) {
    && i < |u.relocs| && u.relocs[i].symbol !in KnownNames(u)
    && forall k :: 0 <= k < i ==> u.relocs[k].symbol != u.relocs[i].symbol
  }

  /** Every label that is mentioned later is known or was mentioned before as well. */
  predicate LabelsBefore(u: Unit, i: nat) {
    forall k :: i <= k < |u.relocs| && u.relocs[k].symbol in u.labels ==> MentionedBy(u, i, u.relocs[k].symbol)
  }

  predicate MentionedBy(u: Unit, i: nat, name: Name) {
    name in KnownNames(u) || exists j :: 0 <= j < i <= |u.relocs| && u.relocs[j].symbol == name
  }

  /** Before relocation `i` nothing unknown but labels is mentioned. */
  predicate OnlyLabelsBefore(u: Unit, i: nat) {
    forall k :: 0 <= k < i <= |u.relocs| ==> u.relocs[k].symbol in KnownNames(u) || u.relocs[k].symbol in u.labels
  }

  lemma {:induction false} SeenMeans(u: Unit, n: nat, name: Name)
    requires n <= |u.relocs|
    ensures name in MentionedSymbols(u, n).2 <==> MentionedBy(u, n, name)
    decreases n
  {
    hide KnownNames, IsCalled;
    if n > 0 {
      SeenMeans(u, n - 1, name);
      assert MentionedBy(u, n, name) <==> MentionedBy(u, n - 1, name) || u.relocs[n - 1].symbol == name;
    }
  }

  lemma {:induction false} UniqueLast(syms: seq<ElfSymbol>, s: ElfSymbol)
    requires !Names(syms, s.name)
    ensures UniqueAt(syms + [s], |syms|)
  {
  }

  lemma {:induction false} UniqueGrows(syms: seq<ElfSymbol>, s: ElfSymbol, p: nat)
    requires p < |syms| && UniqueAt(syms, p) && s.name != syms[p].name
    ensures UniqueAt(syms + [s], p) && (syms + [s])[p] == syms[p]
  {
  }

  /** In the numbered list the symbol stands behind what was mentioned before it. */
  lemma {:induction false} StandsInText(u: Unit, i: nat, n: nat)
    requires FirstMention(u, i) && i < n <= |u.relocs|
    ensures var syms, t := TextMentions(u, n).0, |TextMentions(u, i).0|;
      && t < |syms| && syms[t].name == u.relocs[i].symbol && UniqueAt(syms, t)
      && u.relocs[i].symbol in TextMentions(u, n).1
    decreases n
  {
    hide KnownNames, IsCalled, Names, UniqueAt, MentionedSymbols, MentionedBy;
    var name, last := u.relocs[i].symbol, u.relocs[n - 1].symbol;
    var undefined := Undefined(last, STB_GLOBAL, if IsCalled(u, last) then STT_FUNC else STT_NOTYPE);
    if n == i + 1 {
      MentionsAgree(u, i);
      SeenMeans(u, i, name);
      FirstIsNew(u, i);
      MentionSeen(u, i, name);
      UniqueLast(TextMentions(u, i).0, undefined);
    } else {
      StandsInText(u, i, n - 1);
      if last !in TextMentions(u, n - 1).1 {
        UniqueGrows(TextMentions(u, n - 1).0, undefined, |TextMentions(u, i).0|);
      }
    }
  }

  lemma {:induction false} FirstIsNew(u: Unit, i: nat)
    requires FirstMention(u, i)
    ensures !MentionedBy(u, i, u.relocs[i].symbol)
  {
  }

  /** Labels are listed with labels, other names with others. */
  lemma {:induction false} ListedByKind(u: Unit, n: nat, name: Name)
    requires n <= |u.relocs|
    ensures Names(MentionedSymbols(u, n).0, name) ==> name in u.labels && name in MentionedSymbols(u, n).2
    ensures Names(MentionedSymbols(u, n).1, name) ==> name !in u.labels && name in MentionedSymbols(u, n).2
    decreases n
  {
    hide KnownNames, IsCalled, Names;
    if n == 0 {
      NoName(name);
    } else {
      ListedByKind(u, n - 1, name);
      var (labels, extras, known) := MentionedSymbols(u, n - 1);
      var last := u.relocs[n - 1].symbol;
      var undefined := Undefined(last, STB_GLOBAL, if IsCalled(u, last) then STT_FUNC else STT_NOTYPE);
      NamesJoin(extras, [undefined], name);
      OnlyName(undefined, name);
      if last in u.labels {
        var place := ElfSymbol(last, u.labels[last], 0, STB_LOCAL, STT_NOTYPE, 0, u.text);
        NamesJoin(labels, [place], name);
        OnlyName(place, name);
      }
    }
  }

  /** What the file lists of the kind of `name`. */
  function OfKind(u: Unit, n: nat, name: Name): seq<ElfSymbol>
    requires n <= |u.relocs|
  {
    if name in u.labels then MentionedSymbols(u, n).0 else MentionedSymbols(u, n).1
  }

  /** In the file it stands behind what was mentioned before it and is of its kind. */
  lemma {:induction false} StandsInFile(u: Unit, i: nat, n: nat)
    requires FirstMention(u, i) && i < n <= |u.relocs|
    ensures var name := u.relocs[i].symbol; var syms, t := OfKind(u, n, name), |OfKind(u, i, name)|;
      t < |syms| && syms[t].name == name && UniqueAt(syms, t) && name in MentionedSymbols(u, n).2
    decreases n
  {
    hide KnownNames, IsCalled, Names, UniqueAt, MentionedBy;
    var name, last := u.relocs[i].symbol, u.relocs[n - 1].symbol;
    var undefined := Undefined(last, STB_GLOBAL, if IsCalled(u, last) then STT_FUNC else STT_NOTYPE);
    var place := ElfSymbol(last, if last in u.labels then u.labels[last] else 0, 0, STB_LOCAL, STT_NOTYPE, 0, u.text);
    var s := if last in u.labels then place else undefined;
    if n == i + 1 {
      SeenMeans(u, i, name);
      FirstIsNew(u, i);
      ListedByKind(u, i, name);
      UniqueLast(OfKind(u, i, name), s);
    } else {
      StandsInFile(u, i, n - 1);
      if last !in MentionedSymbols(u, n - 1).2 && (last in u.labels <==> name in u.labels) {
        UniqueGrows(OfKind(u, n - 1, name), s, |OfKind(u, i, name)|);
      }
    }
  }

  lemma {:induction false} LabelsGrow(u: Unit, i: nat, n: nat)
    requires i <= n <= |u.relocs|
    ensures |MentionedSymbols(u, i).0| <= |MentionedSymbols(u, n).0|
    ensures |MentionedSymbols(u, i).0| == |MentionedSymbols(u, n).0|
       <==> forall k :: i <= k < n && u.relocs[k].symbol in u.labels ==> u.relocs[k].symbol in MentionedSymbols(u, i).2
    ensures |MentionedSymbols(u, i).0| == |MentionedSymbols(u, n).0|
        ==> forall name :: name in u.labels && name in MentionedSymbols(u, n).2 ==> name in MentionedSymbols(u, i).2
    ensures MentionedSymbols(u, i).2 <= MentionedSymbols(u, n).2
    decreases n
  {
    hide KnownNames, IsCalled;
    if i < n {
      LabelsGrow(u, i, n - 1);
    }
  }

  lemma {:induction false} LabelsBeforeMeans(u: Unit, i: nat)
    requires i <= |u.relocs|
    ensures LabelsBefore(u, i) <==> |MentionedSymbols(u, i).0| == |MentionedSymbols(u, |u.relocs|).0|
  {
    hide MentionedSymbols, MentionedBy;
    LabelsGrow(u, i, |u.relocs|);
    forall k | i <= k < |u.relocs|
      ensures u.relocs[k].symbol in MentionedSymbols(u, i).2 <==> MentionedBy(u, i, u.relocs[k].symbol)
    {
      SeenMeans(u, i, u.relocs[k].symbol);
    }
  }

  lemma {:induction false} OnlyLabelsMeans(u: Unit, i: nat)
    requires i <= |u.relocs|
    ensures OnlyLabelsBefore(u, i) <==> MentionedSymbols(u, i).1 == []
    ensures OnlyLabelsBefore(u, i) ==>
      forall name :: name in MentionedSymbols(u, i).2 ==> name in KnownNames(u) || name in u.labels
    decreases i
  {
    hide KnownNames, IsCalled;
    if i > 0 {
      OnlyLabelsMeans(u, i - 1);
      SeenMeans(u, i - 1, u.relocs[i - 1].symbol);
      var plain := u.relocs[i - 1].symbol !in KnownNames(u) && u.relocs[i - 1].symbol !in u.labels;
      assert OnlyLabelsBefore(u, i) <==> OnlyLabelsBefore(u, i - 1) && !plain;
      MentionsAgree(u, i - 1);
    }
  }

  /** What is unique in the middle part stays so. */
  lemma {:induction false} UniqueBetween(a: seq<ElfSymbol>, b: seq<ElfSymbol>, c: seq<ElfSymbol>, t: nat)
    requires t < |b| && UniqueAt(b, t) && !Names(a, b[t].name) && !Names(c, b[t].name)
    ensures UniqueAt(a + b + c, |a| + t) && (a + b + c)[|a| + t] == b[t]
  {
    forall i | 0 <= i < |a + b + c| && i != |a| + t
      ensures (a + b + c)[i].name != b[t].name
    {
      if i < |a| {
        NameAt(a, i);
      } else if i >= |a + b| {
        NameAt(c, i - |a + b|);
      } else {
        assert (a + b + c)[i] == b[i - |a|];
      }
    }
  }

  lemma {:induction false} GroupCount(syms: seq<ElfSymbol>)
    ensures |Locals(syms)| + |Others(syms)| == |syms|
  {
    SameCount(syms);
  }

  /** Among global symbols behind a list. */
  lemma {:induction false} GlobalPosition(a: seq<ElfSymbol>, b: seq<ElfSymbol>, c: seq<ElfSymbol>, t: nat)
    requires t < |b| && NoLocals(b) && NoLocals(c)
    ensures Position(a + b + c, |a| + t) == |a| + t
  {
    hide Locals, Others;
    GlobalsJoin(b, c);
    assert a + b + c == a + (b + c) && (a + b + c)[|a| + t] == b[t];
    LaterGlobals(a, b + c, |b + c|);
    assert (b + c)[..|b + c|] == b + c;
    LaterGlobals(a, b + c, t);
    assert (a + b + c)[..|a| + t] == a + (b + c)[..t];
    GroupCount(a);
  }

  /** Among labels behind a list. */
  lemma {:induction false} LabelPosition(a: seq<ElfSymbol>, b: seq<ElfSymbol>, c: seq<ElfSymbol>, t: nat)
    requires t < |b| && AllLocals(b)
    ensures Position(a + b + c, |a| + t) == |Locals(a)| + t
  {
    hide Locals, Others;
    assert (a + b + c)[|a| + t] == b[t] && (a + b + c)[..|a| + t] == a + b[..t];
    LaterLocals(a, b, t);
  }

  /** The symbol of a first mention has one place in each list. */
  lemma {:induction false} MentionPlaces(u: Unit, names: seq<Name>, i: nat) returns (p: nat, q: nat)
    requires TargetsDefined(u) && FirstMention(u, i)
    ensures var name, labels := u.relocs[i].symbol, |MentionedSymbols(u, |u.relocs|).0|;
      && p < |DataNumbered(u, names)| && UniqueAt(DataNumbered(u, names), p) && DataNumbered(u, names)[p].name == name
      && q < |DataTable(u, names)| && UniqueAt(DataTable(u, names), q) && DataTable(u, names)[q].name == name
      && Position(DataNumbered(u, names), p) == |Base(u)| + |MentionedSymbols(u, i).0| + |MentionedSymbols(u, i).1|
      && Position(DataTable(u, names), q) == if name in u.labels then |Locals(Base(u))| + |MentionedSymbols(u, i).0|
                                             else |Base(u)| + labels + |MentionedSymbols(u, i).1|
  {
    hide Base, Names, Position, UniqueAt, KnownNames, TextNames, TextMentions, DataExtras, MentionedSymbols, Locals,
      AllLocals, NoLocals, DataNumbered, DataTable, TargetsDefined, MentionedBy;
    var name, n := u.relocs[i].symbol, |u.relocs|;
    var base, mentions, extras, t := Base(u), TextMentions(u, n).0, Extras(u, names), |TextMentions(u, i).0|;
    var (labels, undefined, known) := MentionedSymbols(u, n);
    BothLists(u, names);
    SameNumber(u, i);
    NotInBase(u, name);
    NotInExtras(u, names, i);
    LabelsLocal(u, n);
    MentionsGlobal(u, names, n, |names|);
    StandsInText(u, i, n);
    UniqueBetween(base, mentions, extras, t);
    GlobalPosition(base, mentions, extras, t);
    p := |base| + t;
    StandsInFile(u, i, n);
    ListedByKind(u, n, name);
    if name in u.labels {
      q := |base| + |MentionedSymbols(u, i).0|;
      NamesJoin(undefined, extras, name);
      UniqueBetween(base, labels, undefined + extras, |MentionedSymbols(u, i).0|);
      LabelPosition(base, labels, undefined + extras, |MentionedSymbols(u, i).0|);
      assert base + (labels + undefined) + extras == base + labels + (undefined + extras);
    } else {
      q := |base + labels| + |MentionedSymbols(u, i).1|;
      NamesJoin(base, labels, name);
      UniqueBetween(base + labels, undefined, extras, |MentionedSymbols(u, i).1|);
      GlobalPosition(base + labels, undefined, extras, |MentionedSymbols(u, i).1|);
      assert base + (labels + undefined) + extras == base + labels + undefined + extras;
    }
  }

  lemma {:induction false} NotInExtras(u: Unit, names: seq<Name>, i: nat)
    requires FirstMention(u, i)
    ensures !Names(Extras(u, names), u.relocs[i].symbol)
  {
    assert u.relocs[i] in u.relocs;
    hide Names, KnownNames, DataExtras;
    ExtrasAreNew(u, names, |names|, u.relocs[i].symbol);
  }

  lemma {:induction false} ExtrasAreNew(u: Unit, names: seq<Name>, m: nat, name: Name)
    requires m <= |names| && name in TextNames(u)
    ensures !Names(DataExtras(u, names, m).0, name) && name in DataExtras(u, names, m).1
    decreases m
  {
    hide KnownNames, TextNames, Names;
    if m == 0 {
      NoName(name);
    } else {
      ExtrasAreNew(u, names, m - 1, name);
      var last := Undefined(names[m - 1], STB_GLOBAL, STT_NOTYPE);
      NamesJoin(DataExtras(u, names, m - 1).0, [last], name);
      OnlyName(last, name);
    }
  }

  /** A name that only code mentions is recovered for data relocations exactly when every label is
      mentioned before it; a label, exactly when nothing that is not local comes before it. */
  lemma {:induction false} MentionRecoveredExactly(u: Unit, names: seq<Name>, i: nat)
    requires TargetsDefined(u) && FirstMention(u, i)
    ensures LeadsBack(DataNumbered(u, names), DataTable(u, names), u.relocs[i].symbol)
       <==> if u.relocs[i].symbol in u.labels then Others(Base(u)) == [] && OnlyLabelsBefore(u, i)
            else LabelsBefore(u, i)
  {
    hide Base, Position, UniqueAt, KnownNames, MentionedSymbols, LeadsBack, DataNumbered, DataTable, TargetsDefined,
      Locals, Others, LabelsBefore, OnlyLabelsBefore;
    var p, q := MentionPlaces(u, names, i);
    UniqueLeadsBack(DataNumbered(u, names), DataTable(u, names), p, q);
    GroupCount(Base(u));
    LabelsBeforeMeans(u, i);
    OnlyLabelsMeans(u, i);
    LabelsGrow(u, i, |u.relocs|);
  }

  // ---- an example ----

  /** ".Lpcrel_hi4". */
  const LABEL: Name := [0x2e, 0x4c, 0x70, 0x63, 0x72, 0x65, 0x6c, 0x5f, 0x68, 0x69, 0x34]

  /** One function whose code mentions one local label. */
  const LABELLED := Unit([FunctionInfo(MAIN, 0, 8, STB_GLOBAL, 0)], [], [], [], [], [TextReloc(LABEL, false)],
                         map[LABEL := 4], 1)

  /** A data entry for the function carries the index of the label. */
  lemma {:induction false} LabelMisleadsData()
    ensures TargetsDefined(LABELLED)
    ensures !LeadsBack(DataNumbered(LABELLED, [MAIN]), DataTable(LABELLED, [MAIN]), MAIN)
  {
    var u := LABELLED;
    assert u.functions[0].name == MAIN;
    assert FunctionSymbols(u, 1) == FunctionSymbols(u, 0) + [FunctionSymbol(u, MAIN, u.functions[0], STB_GLOBAL, 0)];
    assert GlobalSymbols(u, 0) == [] && DeclarationSymbols(u, 0) == [] && ExternSymbols(u, 0).0 == [];
    assert AliasCandidates(u, 0) == [];
    assert |Base(u)| == 1 && Base(u)[0].name == MAIN && Base(u)[0].binding == STB_GLOBAL;
    assert u.relocs[0] in u.relocs && LABEL in u.labels && LABEL !in KnownNames(u);
    assert !NoLabelMentioned(u);
    hide Base, NoLabelMentioned, LeadsBack;
    DataRecoveredExactly(u, [MAIN], 0);
  }
}
