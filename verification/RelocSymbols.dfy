/** The symbols of a compiled unit, and the map from names to symbol-table indices that relocation
    entries are written with. */
module RelocSymbols {
  import opened Wrappers
  import opened ElfStrings
  import opened ElfSymbols
  import opened ElfWriter

  const STT_NOTYPE := 0
  const STT_OBJECT := 1
  const STT_FUNC := 2

  datatype FunctionInfo = FunctionInfo(name: Name, offset: nat, size: nat, binding: nat, visibility: nat)

  /** `section` is the index of the section that the variable was placed in. */
  datatype GlobalInfo = GlobalInfo(name: Name, offset: nat, size: nat, isGlobal: bool, section: nat)

  datatype ModuleGlobal = ModuleGlobal(name: Name, isDefinition: bool, isWeak: bool)

  datatype Alias = Alias(name: Name, target: Name)

  datatype TextReloc = TextReloc(symbol: Name, isCall: bool)

  /** `labels` are the names that stand for places in the code, with their offsets. */
  datatype Unit = Unit(functions: seq<FunctionInfo>, globals: seq<GlobalInfo>, declarations: seq<Name>,
                       moduleGlobals: seq<ModuleGlobal>, aliases: seq<Alias>, relocs: seq<TextReloc>,
                       labels: map<Name, nat>, text: nat)

  /** A symbol of the unit; `written` says whether the object file gets it. */
  datatype Candidate = Candidate(sym: ElfSymbol, written: bool)

  // ---- the lists ----

  function FunctionNames(u: Unit): set<Name> {
    set f | f in u.functions :: f.name
  }

  function DefinedNames(u: Unit): set<Name> {
    FunctionNames(u) + (set g | g in u.globals :: g.name) + (set a | a in u.aliases :: a.name)
  }

  function FunctionSymbol(u: Unit, name: Name, f: FunctionInfo, binding: nat, visibility: nat): ElfSymbol {
    ElfSymbol(name, f.offset, f.size, binding, STT_FUNC, visibility, u.text)
  }

  function IsLocalLabel(name: Name): bool {
    [0x2e, 0x4c] <= name
  }

  function GlobalSymbol(g: GlobalInfo): ElfSymbol {
    ElfSymbol(g.name, g.offset, g.size, if g.isGlobal then STB_GLOBAL else STB_LOCAL,
              if IsLocalLabel(g.name) then STT_NOTYPE else STT_OBJECT, 0, g.section)
  }

  function Undefined(name: Name, binding: nat, kind: nat): ElfSymbol {
    ElfSymbol(name, 0, 0, binding, kind, 0, 0)
  }

  function FunctionSymbols(u: Unit, n: nat): seq<ElfSymbol>
    requires n <= |u.functions|
  {
    if n == 0 then []
    else
      var f := u.functions[n - 1];
      FunctionSymbols(u, n - 1) + [FunctionSymbol(u, f.name, f, f.binding, f.visibility)]
  }

  function GlobalSymbols(u: Unit, n: nat): seq<ElfSymbol>
    requires n <= |u.globals|
  {
    if n == 0 then [] else GlobalSymbols(u, n - 1) + [GlobalSymbol(u.globals[n - 1])]
  }

  /** Declarations of functions that the unit does not define. */
  function DeclarationSymbols(u: Unit, n: nat): seq<ElfSymbol>
    requires n <= |u.declarations|
  {
    if n == 0 then []
    else
      var name := u.declarations[n - 1];
      DeclarationSymbols(u, n - 1) + if name in FunctionNames(u) then [] else [Undefined(name, STB_GLOBAL, STT_FUNC)]
  }

  /** Variables declared but neither defined nor already listed, and the names seen. */
  function ExternSymbols(u: Unit, n: nat): (seq<ElfSymbol>, set<Name>)
    requires n <= |u.moduleGlobals|
  {
    if n == 0 then ([], {})
    else
      var (syms, seen) := ExternSymbols(u, n - 1);
      var g := u.moduleGlobals[n - 1];
      if g.isDefinition || g.name in DefinedNames(u) || g.name in seen then (syms, seen)
      else (syms + [Undefined(g.name, if g.isWeak then STB_WEAK else STB_GLOBAL, STT_NOTYPE)], seen + {g.name})
  }

  function FindFunction(u: Unit, name: Name, i: nat): Option<FunctionInfo>
    requires i <= |u.functions|
    decreases |u.functions| - i
  {
    if i == |u.functions| then None
    else if u.functions[i].name == name then Some(u.functions[i]) else FindFunction(u, name, i + 1)
  }

  function FindGlobal(u: Unit, name: Name, i: nat): Option<GlobalInfo>
    requires i <= |u.globals|
    decreases |u.globals| - i
  {
    if i == |u.globals| then None
    else if u.globals[i].name == name then Some(u.globals[i]) else FindGlobal(u, name, i + 1)
  }

  /** An alias shares the address of its target; without a target the file gets no symbol. */
  function AliasCandidate(u: Unit, a: Alias): Candidate {
    var f, g := FindFunction(u, a.target, 0), FindGlobal(u, a.target, 0);
    if f.Some? then Candidate(FunctionSymbol(u, a.name, f.value, STB_GLOBAL, 0), true)
    else if g.Some? then
      Candidate(ElfSymbol(a.name, g.value.offset, g.value.size, STB_GLOBAL, STT_OBJECT, 0, g.value.section), true)
    else Candidate(Undefined(a.name, STB_GLOBAL, STT_NOTYPE), false)
  }

  function AliasCandidates(u: Unit, n: nat): seq<Candidate>
    requires n <= |u.aliases|
  {
    if n == 0 then [] else AliasCandidates(u, n - 1) + [AliasCandidate(u, u.aliases[n - 1])]
  }

  function KnownNames(u: Unit): set<Name> {
    DefinedNames(u) + (set d | d in u.declarations) + (set g | g in u.moduleGlobals && !g.isDefinition :: g.name)
  }

  predicate IsCalled(u: Unit, name: Name) {
    exists r :: r in u.relocs && r.isCall && r.symbol == name
  }

  /** Symbols that only relocations mention: local labels, and others that stay undefined. */
  function MentionedSymbols(u: Unit, n: nat): (seq<ElfSymbol>, seq<ElfSymbol>, set<Name>)
    requires n <= |u.relocs|
  {
    if n == 0 then ([], [], KnownNames(u))
    else
      var (labels, extras, known) := MentionedSymbols(u, n - 1);
      var name := u.relocs[n - 1].symbol;
      if name in known then (labels, extras, known)
      else if name in u.labels then
        (labels + [ElfSymbol(name, u.labels[name], 0, STB_LOCAL, STT_NOTYPE, 0, u.text)], extras, known + {name})
      else (labels, extras + [Undefined(name, STB_GLOBAL, if IsCalled(u, name) then STT_FUNC else STT_NOTYPE)],
            known + {name})
  }

  function AllWritten(syms: seq<ElfSymbol>): (cs: seq<Candidate>)
    ensures |cs| == |syms| && forall i :: 0 <= i < |syms| ==> cs[i] == Candidate(syms[i], true)
  {
    seq(|syms|, i requires 0 <= i < |syms| => Candidate(syms[i], true))
  }

  /** Functions, variables, declared functions, declared variables. */
  function Listed(u: Unit): seq<ElfSymbol> {
    FunctionSymbols(u, |u.functions|) + GlobalSymbols(u, |u.globals|) + DeclarationSymbols(u, |u.declarations|)
    + ExternSymbols(u, |u.moduleGlobals|).0
  }

  function Mentioned(u: Unit): seq<ElfSymbol> {
    MentionedSymbols(u, |u.relocs|).0 + MentionedSymbols(u, |u.relocs|).1
  }

  function Candidates(u: Unit): seq<Candidate> {
    AllWritten(Listed(u)) + AliasCandidates(u, |u.aliases|) + AllWritten(Mentioned(u))
  }

  function Written(cs: seq<Candidate>): seq<ElfSymbol> {
    if cs == [] then []
    else Written(cs[..|cs| - 1]) + if cs[|cs| - 1].written then [cs[|cs| - 1].sym] else []
  }

  function Everything(cs: seq<Candidate>): (syms: seq<ElfSymbol>)
    ensures |syms| == |cs| && forall i :: 0 <= i < |cs| ==> syms[i] == cs[i].sym
  {
    seq(|cs|, i requires 0 <= i < |cs| => cs[i].sym)
  }

  /** Name to index, from one; a later name replaces an earlier one. */
  function IndexUpTo(ordered: seq<ElfSymbol>, n: nat): map<Name, nat>
    requires n <= |ordered|
  {
    if n == 0 then map[] else IndexUpTo(ordered, n - 1)[ordered[n - 1].name := n]
  }

  function IndexMap(syms: seq<ElfSymbol>): map<Name, nat> {
    IndexUpTo(Ordered(syms), |Ordered(syms)|)
  }

  // ---- the passes ----

  method CollectDeclarations(u: Unit) returns (syms: seq<ElfSymbol>)
    ensures syms == DeclarationSymbols(u, |u.declarations|)
  {
    syms := [];
    var defined := FunctionNames(u);
    for i := 0 to |u.declarations|
      invariant syms == DeclarationSymbols(u, i)
    {
      if u.declarations[i] in defined {
        continue;
      }
      syms := syms + [Undefined(u.declarations[i], STB_GLOBAL, STT_FUNC)];
    }
  }

  method CollectExterns(u: Unit) returns (syms: seq<ElfSymbol>)
    ensures syms == ExternSymbols(u, |u.moduleGlobals|).0
  {
    hide DefinedNames;
    syms := [];
    var defined, seen := DefinedNames(u), {};
    for i := 0 to |u.moduleGlobals|
      invariant (syms, seen) == ExternSymbols(u, i)
    {
      var g := u.moduleGlobals[i];
      if !g.isDefinition && g.name !in defined && g.name !in seen {
        seen := seen + {g.name};
        syms := syms + [Undefined(g.name, if g.isWeak then STB_WEAK else STB_GLOBAL, STT_NOTYPE)];
      }
    }
  }

  method CollectMentioned(u: Unit) returns (labels: seq<ElfSymbol>, extras: seq<ElfSymbol>)
    ensures (labels, extras) == (MentionedSymbols(u, |u.relocs|).0, MentionedSymbols(u, |u.relocs|).1)
  {
    hide KnownNames, IsCalled;
    labels, extras := [], [];
    var known := KnownNames(u);
    for i := 0 to |u.relocs|
      invariant (labels, extras, known) == MentionedSymbols(u, i)
    {
      var name := u.relocs[i].symbol;
      if name !in known {
        known := known + {name};
        if name in u.labels {
          labels := labels + [ElfSymbol(name, u.labels[name], 0, STB_LOCAL, STT_NOTYPE, 0, u.text)];
        } else {
          extras := extras + [Undefined(name, STB_GLOBAL, if IsCalled(u, name) then STT_FUNC else STT_NOTYPE)];
        }
      }
    }
  }

  method FindTarget(u: Unit, a: Alias) returns (c: Candidate)
    ensures c == AliasCandidate(u, a)
  {
    hide FunctionSymbol, Undefined;
    for i := 0 to |u.functions|
      invariant FindFunction(u, a.target, 0) == FindFunction(u, a.target, i)
    {
      if u.functions[i].name == a.target {
        return Candidate(FunctionSymbol(u, a.name, u.functions[i], STB_GLOBAL, 0), true);
      }
    }
    for i := 0 to |u.globals|
      invariant FindGlobal(u, a.target, 0) == FindGlobal(u, a.target, i)
    {
      if u.globals[i].name == a.target {
        var g := u.globals[i];
        return Candidate(ElfSymbol(a.name, g.offset, g.size, STB_GLOBAL, STT_OBJECT, 0, g.section), true);
      }
    }
    c := Candidate(Undefined(a.name, STB_GLOBAL, STT_NOTYPE), false);
  }

  lemma {:induction false} WrittenSnoc(cs: seq<Candidate>, c: Candidate)
    ensures Written(cs + [c]) == Written(cs) + if c.written then [c.sym] else []
  {
    assert (cs + [c])[..|cs|] == cs;
  }

  lemma {:induction false} WrittenAppend(cs: seq<Candidate>, ds: seq<Candidate>)
    ensures Written(cs + ds) == Written(cs) + Written(ds)
    decreases |ds|
  {
    if ds == [] {
      assert cs + ds == cs;
    } else {
      var front := ds[..|ds| - 1];
      assert cs + ds == (cs + front) + [ds[|ds| - 1]] && ds == front + [ds[|ds| - 1]];
      WrittenAppend(cs, front);
      WrittenSnoc(cs + front, ds[|ds| - 1]);
      WrittenSnoc(front, ds[|ds| - 1]);
    }
  }

  lemma {:induction false} WrittenOfAll(syms: seq<ElfSymbol>)
    ensures Written(AllWritten(syms)) == syms
    decreases |syms|
  {
    if syms != [] {
      WrittenOfAll(syms[..|syms| - 1]);
      assert AllWritten(syms)[..|syms| - 1] == AllWritten(syms[..|syms| - 1]);
    }
  }

  lemma {:induction false} WrittenParts(u: Unit)
    ensures Written(Candidates(u)) == Listed(u) + Written(AliasCandidates(u, |u.aliases|)) + Mentioned(u)
  {
    hide Listed, Mentioned, AliasCandidates, Written;
    var a, b, c := AllWritten(Listed(u)), AliasCandidates(u, |u.aliases|), AllWritten(Mentioned(u));
    WrittenAppend(a + b, c);
    WrittenAppend(a, b);
    WrittenOfAll(Listed(u));
    WrittenOfAll(Mentioned(u));
  }

  /** Hand every symbol of a list to the writer. */
  method AddAll(writer: ElfWriter, syms: seq<ElfSymbol>)
    requires writer.Valid()
    modifies writer.symbols, writer.symbols.strings
    ensures writer.Valid() && writer.symbols.symbols == old(writer.symbols.symbols) + syms
  {
    ghost var before := writer.symbols.symbols;
    for i := 0 to |syms|
      invariant writer.Valid() && writer.symbols.symbols == before + syms[..i]
    {
      writer.AddSymbol(syms[i]);
      assert syms[..i + 1] == syms[..i] + [syms[i]];
    }
    assert syms[..|syms|] == syms;
  }

  method AddDefinitions(u: Unit, writer: ElfWriter)
    requires writer.Valid()
    modifies writer.symbols, writer.symbols.strings
    ensures writer.Valid()
    ensures writer.symbols.symbols
         == old(writer.symbols.symbols) + FunctionSymbols(u, |u.functions|) + GlobalSymbols(u, |u.globals|)
  {
    hide FunctionSymbol, GlobalSymbol;
    ghost var before := writer.symbols.symbols;
    for i := 0 to |u.functions|
      invariant writer.Valid() && writer.symbols.symbols == before + FunctionSymbols(u, i)
    {
      var f := u.functions[i];
      writer.AddSymbol(FunctionSymbol(u, f.name, f, f.binding, f.visibility));
    }
    ghost var functions := FunctionSymbols(u, |u.functions|);
    for i := 0 to |u.globals|
      invariant writer.Valid() && writer.symbols.symbols == before + functions + GlobalSymbols(u, i)
    {
      writer.AddSymbol(GlobalSymbol(u.globals[i]));
    }
  }

  /** The pass that fills the writer's symbol table. */
  method AddSymbols(u: Unit, writer: ElfWriter)
    requires writer.Valid()
    modifies writer.symbols, writer.symbols.strings
    ensures writer.Valid() && writer.symbols.symbols == old(writer.symbols.symbols) + Written(Candidates(u))
  {
    hide Written, AliasCandidates, DeclarationSymbols, ExternSymbols, MentionedSymbols, FunctionSymbols,
      GlobalSymbols, Candidates;
    hide StringsOf;
    ghost var before := writer.symbols.symbols;
    AddDefinitions(u, writer);
    var declarations := CollectDeclarations(u);
    AddAll(writer, declarations);
    var externs := CollectExterns(u);
    AddAll(writer, externs);
    AddAliases(u, writer);
    var labels, extras := CollectMentioned(u);
    AddAll(writer, labels);
    AddAll(writer, extras);
    WrittenParts(u);
    Regrouped(before, FunctionSymbols(u, |u.functions|), GlobalSymbols(u, |u.globals|), declarations, externs,
              Written(AliasCandidates(u, |u.aliases|)), labels, extras);
  }

  lemma {:induction false} Regrouped(z: seq<ElfSymbol>, a: seq<ElfSymbol>, b: seq<ElfSymbol>, c: seq<ElfSymbol>,
                                     d: seq<ElfSymbol>, e: seq<ElfSymbol>, f: seq<ElfSymbol>, g: seq<ElfSymbol>)
    ensures z + a + b + c + d + e + f + g == z + (a + b + c + d + e + (f + g))
  {
    var listed := a + b + c + d;
    assert z + a + b + c + d == z + listed;
    assert z + listed + e == z + (listed + e);
    assert z + (listed + e) + f + g == z + (listed + e + (f + g));
  }

  method AddAliases(u: Unit, writer: ElfWriter)
    requires writer.Valid()
    modifies writer.symbols, writer.symbols.strings
    ensures writer.Valid() && writer.symbols.symbols
         == old(writer.symbols.symbols) + Written(AliasCandidates(u, |u.aliases|))
  {
    hide AliasCandidate;
    ghost var before := writer.symbols.symbols;
    for i := 0 to |u.aliases|
      invariant writer.Valid() && writer.symbols.symbols == before + Written(AliasCandidates(u, i))
    {
      WrittenSnoc(AliasCandidates(u, i), AliasCandidate(u, u.aliases[i]));
      var c := FindTarget(u, u.aliases[i]);
      if c.written {
        writer.AddSymbol(c.sym);
      }
    }
  }

  /** The functions, variables, declarations and aliases, as both numberings list them; every alias is
      taken, with or without a target. */
  method ListSymbols(u: Unit) returns (all: seq<ElfSymbol>)
    ensures all == Listed(u) + Everything(AliasCandidates(u, |u.aliases|))
  {
    hide AliasCandidate, DeclarationSymbols, ExternSymbols, FunctionSymbol, GlobalSymbol;
    all := [];
    for i := 0 to |u.functions|
      invariant all == FunctionSymbols(u, i)
    {
      var f := u.functions[i];
      all := all + [FunctionSymbol(u, f.name, f, f.binding, f.visibility)];
    }
    ghost var functions := all;
    for i := 0 to |u.globals|
      invariant all == functions + GlobalSymbols(u, i)
    {
      all := all + [GlobalSymbol(u.globals[i])];
    }
    var declarations := CollectDeclarations(u);
    var externs := CollectExterns(u);
    all := all + declarations + externs;
    for i := 0 to |u.aliases|
      invariant all == Listed(u) + Everything(AliasCandidates(u, i))
    {
      var c := FindTarget(u, u.aliases[i]);
      all := all + [c.sym];
    }
  }

  /** The pass that rebuilds the list and numbers it. */
  method BuildIndex(u: Unit) returns (index: map<Name, nat>)
    ensures index == IndexMap(Everything(Candidates(u)))
  {
    hide Listed, AliasCandidates, MentionedSymbols, IndexMap;
    var all := ListSymbols(u);
    var labels, extras := CollectMentioned(u);
    all := all + labels + extras;
    assert all == Everything(Candidates(u));
    index := NumberSymbols(all);
  }

  method NumberSymbols(all: seq<ElfSymbol>) returns (index: map<Name, nat>)
    ensures index == IndexMap(all)
  {
    hide Locals, Others;
    var locals, others := [], [];
    NothingOrdered(NO_STRINGS);
    assert all[..0] == [];
    for k := 0 to |all|
      invariant locals == Locals(all[..k]) && others == Others(all[..k])
    {
      OrderSnoc(all, k);
      if all[k].binding == STB_LOCAL {
        locals := locals + [all[k]];
      } else {
        others := others + [all[k]];
      }
    }
    assert all[..|all|] == all;
    index := map[];
    for i := 0 to |locals|
      invariant index == IndexUpTo(locals + others, i)
    {
      index := index[locals[i].name := i + 1];
    }
    for i := 0 to |others|
      invariant index == IndexUpTo(locals + others, |locals| + i)
    {
      index := index[others[i].name := |locals| + 1 + i];
    }
  }
}
