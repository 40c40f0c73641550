/** What the symbols of an object file say, field by field: where functions, variables, aliases and labels
    are, and what is left to other objects. */
module SymbolContents {
  import opened ElfStrings
  import opened ElfSymbols
  import opened ElfWriter
  import opened ElfParser
  import opened ElfRoundTrip
  import opened RelocSymbols
  import opened RelocIndices

  /** The function starts at its offset in the code. */
  predicate IsFunction(u: Unit, f: FunctionInfo, s: ElfSymbol) {
    && s.name == f.name && s.value == f.offset && s.size == f.size && s.binding == f.binding
    && s.kind == 2 && s.visibility == f.visibility && s.section == u.text
  }

  /** The variable starts at its offset in its section; strings and the like have no type. */
  predicate IsVariable(g: GlobalInfo, s: ElfSymbol) {
    && s.name == g.name && s.value == g.offset && s.size == g.size && s.binding == (if g.isGlobal then 1 else 0)
    && s.kind == (if IsLocalLabel(g.name) then 0 else 1) && s.visibility == 0 && s.section == g.section
  }

  /** A symbol that another object has to define. */
  predicate IsUndefined(s: ElfSymbol, name: Name) {
    s.name == name && s.value == 0 && s.size == 0 && s.binding != 0 && s.visibility == 0 && s.section == 0
  }

  /** Function `k` is the first of that name. */
  predicate FirstFunction(u: Unit, k: nat, name: Name) {
    k < |u.functions| && u.functions[k].name == name && forall j :: 0 <= j < k ==> u.functions[j].name != name
  }

  predicate FirstVariable(u: Unit, k: nat, name: Name) {
    k < |u.globals| && u.globals[k].name == name && forall j :: 0 <= j < k ==> u.globals[j].name != name
  }

  /** The alias stands for the first function of its target's name, or else the first variable. */
  ghost predicate IsAlias(u: Unit, a: Alias, s: ElfSymbol) {
    && s.name == a.name && s.binding == 1 && s.visibility == 0
    && if exists f :: f in u.functions && f.name == a.target then
         exists k: nat :: FirstFunction(u, k, a.target) && s.value == u.functions[k].offset
                          && s.size == u.functions[k].size && s.kind == 2 && s.section == u.text
       else
         exists k: nat :: FirstVariable(u, k, a.target) && s.value == u.globals[k].offset && s.size == u.globals[k].size
                          && s.kind == 1 && s.section == u.globals[k].section
  }

  /** The unit defines the name or declares it. */
  predicate IsListed(u: Unit, name: Name) {
    || IsDefined(u, name)
    || name in u.declarations
    || exists g :: g in u.moduleGlobals && g.name == name && !g.isDefinition
  }

  predicate IsDefined(u: Unit, name: Name) {
    || (exists f :: f in u.functions && f.name == name)
    || (exists g :: g in u.globals && g.name == name)
    || (exists a :: a in u.aliases && a.name == name)
  }

  lemma {:induction false} KnownExactly(u: Unit, name: Name)
    ensures name in DefinedNames(u) <==> IsDefined(u, name)
    ensures name in KnownNames(u) <==> IsListed(u, name)
    ensures name in FunctionNames(u) <==> exists f :: f in u.functions && f.name == name
  {
  }

  /** Some relocation of a call mentions the name. */
  predicate CalledSomewhere(u: Unit, name: Name) {
    exists i :: 0 <= i < |u.relocs| && u.relocs[i].isCall && u.relocs[i].symbol == name
  }

  lemma {:induction false} CalledExactly(u: Unit, name: Name)
    ensures IsCalled(u, name) <==> CalledSomewhere(u, name)
  {
    if i :| 0 <= i < |u.relocs| && u.relocs[i].isCall && u.relocs[i].symbol == name {
      assert u.relocs[i] in u.relocs;
    }
  }

  /** A place in the code, not visible outside. */
  predicate IsLabel(u: Unit, name: Name, s: ElfSymbol) {
    && name in u.labels && s.name == name && s.value == u.labels[name] && s.size == 0
    && s.binding == 0 && s.kind == 0 && s.visibility == 0 && s.section == u.text
  }

  // ---- every symbol is there ----

  lemma {:induction false} DefinitionsStand(u: Unit, n: nat, m: nat)
    requires n <= |u.functions| && m <= |u.globals|
    ensures |FunctionSymbols(u, n)| == n && |GlobalSymbols(u, m)| == m
    ensures forall k :: 0 <= k < n ==> IsFunction(u, u.functions[k], FunctionSymbols(u, n)[k])
    ensures forall k :: 0 <= k < m ==> IsVariable(u.globals[k], GlobalSymbols(u, m)[k])
    decreases n + m
  {
    if n > 0 {
      DefinitionsStand(u, n - 1, m);
    } else if m > 0 {
      DefinitionsStand(u, n, m - 1);
    }
  }

  /** The list begins with the functions and the variables, in order. */
  predicate BeginsWithDefinitions(u: Unit, syms: seq<ElfSymbol>) {
    var n, m := |u.functions|, |u.globals|;
    && n + m <= |syms|
    && (forall k :: 0 <= k < n ==> IsFunction(u, u.functions[k], syms[k]))
    && (forall k :: 0 <= k < m ==> IsVariable(u.globals[k], syms[n + k]))
  }

  lemma {:induction false} FrontBegins(u: Unit, f: seq<ElfSymbol>, g: seq<ElfSymbol>, rest: seq<ElfSymbol>)
    requires |f| == |u.functions| && forall k :: 0 <= k < |f| ==> IsFunction(u, u.functions[k], f[k])
    requires |g| == |u.globals| && forall k :: 0 <= k < |g| ==> IsVariable(u.globals[k], g[k])
    ensures BeginsWithDefinitions(u, f + g + rest)
  {
    hide IsFunction, IsVariable;
    assert forall k :: 0 <= k < |f| ==> (f + g + rest)[k] == f[k];
    assert forall k :: 0 <= k < |g| ==> (f + g + rest)[|f| + k] == g[k];
  }

  /** So does the symbol table of the file, as it is filled. */
  lemma {:induction false} DefinitionsAreWritten(u: Unit)
    ensures BeginsWithDefinitions(u, Written(Candidates(u)))
  {
    hide *;
    var f, g := FunctionSymbols(u, |u.functions|), GlobalSymbols(u, |u.globals|);
    var rest := DeclarationSymbols(u, |u.declarations|) + ExternSymbols(u, |u.moduleGlobals|).0
      + Written(AliasCandidates(u, |u.aliases|)) + Mentioned(u);
    DefinitionsStand(u, |u.functions|, |u.globals|);
    DefinitionsFirst(u, f, g, rest);
    FrontBegins(u, f, g, rest);
  }

  lemma {:induction false} DefinitionsFirst(u: Unit, f: seq<ElfSymbol>, g: seq<ElfSymbol>, rest: seq<ElfSymbol>)
    requires f == FunctionSymbols(u, |u.functions|) && g == GlobalSymbols(u, |u.globals|)
    requires rest == DeclarationSymbols(u, |u.declarations|) + ExternSymbols(u, |u.moduleGlobals|).0
                     + Written(AliasCandidates(u, |u.aliases|)) + Mentioned(u)
    ensures Written(Candidates(u)) == f + g + rest
  {
    hide *;
    var d, e := DeclarationSymbols(u, |u.declarations|), ExternSymbols(u, |u.moduleGlobals|).0;
    WrittenParts(u);
    ListedParts(u);
    SixParts(f, g, d, e, Written(AliasCandidates(u, |u.aliases|)), Mentioned(u));
  }

  lemma {:induction false} ListedParts(u: Unit)
    ensures Listed(u) == FunctionSymbols(u, |u.functions|) + GlobalSymbols(u, |u.globals|)
                         + DeclarationSymbols(u, |u.declarations|) + ExternSymbols(u, |u.moduleGlobals|).0
  {
    hide FunctionSymbols, GlobalSymbols, DeclarationSymbols, ExternSymbols;
  }

  lemma {:induction false} SixParts(f: seq<ElfSymbol>, g: seq<ElfSymbol>, d: seq<ElfSymbol>, e: seq<ElfSymbol>,
                                    a: seq<ElfSymbol>, m: seq<ElfSymbol>)
    ensures f + g + d + e + a + m == f + g + (d + e + a + m)
  {
  }

  lemma {:induction false} FoundFunction(u: Unit, name: Name, i: nat)
    requires i <= |u.functions| && forall j :: 0 <= j < i ==> u.functions[j].name != name
    ensures var f := FindFunction(u, name, i);
      if name in FunctionNames(u)
      then f.Some? && exists k: nat :: FirstFunction(u, k, name) && f.value == u.functions[k]
      else f.None?
    decreases |u.functions| - i
  {
    if i < |u.functions| {
      if u.functions[i].name == name {
        assert FirstFunction(u, i, name) && u.functions[i] in u.functions;
      } else {
        FoundFunction(u, name, i + 1);
      }
    }
  }

  lemma {:induction false} FoundVariable(u: Unit, name: Name, i: nat)
    requires i <= |u.globals| && forall j :: 0 <= j < i ==> u.globals[j].name != name
    ensures var g := FindGlobal(u, name, i);
      if exists k :: 0 <= k < |u.globals| && u.globals[k].name == name
      then g.Some? && exists k: nat :: FirstVariable(u, k, name) && g.value == u.globals[k]
      else g.None?
    decreases |u.globals| - i
  {
    if i < |u.globals| {
      if u.globals[i].name == name {
        assert FirstVariable(u, i, name);
      } else {
        FoundVariable(u, name, i + 1);
      }
    }
  }

  /** The unit defines something of that name. */
  predicate HasTarget(u: Unit, name: Name) {
    || (exists f :: f in u.functions && f.name == name)
    || exists k :: 0 <= k < |u.globals| && u.globals[k].name == name
  }

  lemma {:induction false} AliasStands(u: Unit, a: Alias)
    ensures AliasCandidate(u, a).written <==> HasTarget(u, a.target)
    ensures HasTarget(u, a.target) ==> IsAlias(u, a, AliasCandidate(u, a).sym)
  {
    FoundFunction(u, a.target, 0);
    FoundVariable(u, a.target, 0);
    KnownExactly(u, a.target);
    hide FunctionNames, IsDefined, IsListed, KnownNames, DefinedNames;
  }

  lemma {:induction false} WrittenMember(cs: seq<Candidate>, p: nat)
    requires p < |cs| && cs[p].written
    ensures cs[p].sym in Written(cs)
  {
    WrittenAt(cs, p, |cs|);
    assert cs[..|cs|] == cs;
  }

  lemma {:induction false} CandidateIsWritten(u: Unit, p: nat)
    requires p < |Candidates(u)| && Candidates(u)[p].written
    ensures Candidates(u)[p].sym in Written(Candidates(u))
  {
    hide Candidates;
    WrittenMember(Candidates(u), p);
  }

  /** Every alias whose target the unit defines is there, with the address of its target. */
  lemma {:induction false} AliasIsWritten(u: Unit, k: nat)
    requires k < |u.aliases| && HasTarget(u, u.aliases[k].target)
    ensures exists s :: s in Written(Candidates(u)) && IsAlias(u, u.aliases[k], s)
  {
    hide *;
    AliasStands(u, u.aliases[k]);
    CandidateCount(u);
    CandidateAt(u, |Listed(u)| + k);
    CandidateIsWritten(u, |Listed(u)| + k);
  }

  lemma {:induction false} MentionStands(u: Unit, n: nat, i: nat)
    requires n <= |u.relocs| && i < n && u.relocs[i].symbol !in KnownNames(u)
    ensures var (labels, extras, known) := MentionedSymbols(u, n); var name := u.relocs[i].symbol;
      && name in known
      && if name in u.labels then exists s :: s in labels && IsLabel(u, name, s)
         else exists s :: s in extras && IsUndefined(s, name) && s.binding == 1
                            && s.kind == if IsCalled(u, name) then 2 else 0
    decreases n
  {
    hide KnownNames, IsCalled;
    MentionIsListed(u, n, u.relocs[i].symbol, i);
  }

  lemma {:induction false} MentionIsListed(u: Unit, n: nat, name: Name, i: nat)
    requires n <= |u.relocs| && name !in KnownNames(u)
    ensures i < n && u.relocs[i].symbol == name ==> name in MentionedSymbols(u, n).2
    ensures var (labels, extras, known) := MentionedSymbols(u, n);
      name in known ==>
        if name in u.labels then exists s :: s in labels && IsLabel(u, name, s)
        else exists s :: s in extras && IsUndefined(s, name) && s.binding == 1
                            && s.kind == if IsCalled(u, name) then 2 else 0
    decreases n
  {
    hide KnownNames, IsCalled;
    if n > 0 {
      MentionIsListed(u, n - 1, name, i);
      var (labels, extras, known) := MentionedSymbols(u, n - 1);
      if u.relocs[n - 1].symbol == name && name !in known {
        if name in u.labels {
          var s := ElfSymbol(name, u.labels[name], 0, STB_LOCAL, STT_NOTYPE, 0, u.text);
          assert s in labels + [s] && IsLabel(u, name, s);
        } else {
          var s := Undefined(name, STB_GLOBAL, if IsCalled(u, name) then STT_FUNC else STT_NOTYPE);
          assert s in extras + [s] && IsUndefined(s, name);
        }
      }
    }
  }

  /** Whatever else a relocation mentions is there: labels at their offset, the rest undefined, and known to
      be a function if it is called. */
  lemma {:induction false} MentionIsWritten(u: Unit, i: nat)
    requires i < |u.relocs| && !IsListed(u, u.relocs[i].symbol)
    ensures var name := u.relocs[i].symbol; var written := Written(Candidates(u));
      if name in u.labels then exists s :: s in written && IsLabel(u, name, s)
      else exists s :: s in written && IsUndefined(s, name) && s.binding == 1
                       && s.kind == if CalledSomewhere(u, name) then 2 else 0
  {
    KnownExactly(u, u.relocs[i].symbol);
    CalledExactly(u, u.relocs[i].symbol);
    hide IsListed, CalledSomewhere;
    MentionStands(u, |u.relocs|, i);
    WrittenParts(u);
    hide Candidates, Written, IsLabel, IsUndefined, IsCalled, KnownNames, Listed, MentionedSymbols, AliasCandidates;
    var (labels, extras, known) := MentionedSymbols(u, |u.relocs|);
    assert forall s :: s in labels || s in extras ==> s in Mentioned(u);
  }

  // ---- declarations ----

  lemma {:induction false} DeclarationStands(u: Unit, n: nat, i: nat)
    requires i < n <= |u.declarations| && u.declarations[i] !in FunctionNames(u)
    ensures exists s :: s in DeclarationSymbols(u, n) && IsUndefined(s, u.declarations[i]) && s.binding == 1
                        && s.kind == 2
    decreases n
  {
    hide FunctionNames;
    if i < n - 1 {
      DeclarationStands(u, n - 1, i);
    } else {
      var s := Undefined(u.declarations[i], STB_GLOBAL, STT_FUNC);
      assert s in DeclarationSymbols(u, n - 1) + [s] && IsUndefined(s, u.declarations[i]);
    }
  }

  /** Nothing that is a function of the unit is listed as declared, and nothing that is not declared. */
  lemma {:induction false} OnlyDeclarations(u: Unit, n: nat)
    requires n <= |u.declarations|
    ensures forall s :: s in DeclarationSymbols(u, n) ==> s.name in u.declarations && s.name !in FunctionNames(u)
    decreases n
  {
    hide FunctionNames;
    if n > 0 {
      OnlyDeclarations(u, n - 1);
    }
  }

  /** The first declaration of a variable that the unit does not define. */
  predicate FirstExtern(u: Unit, i: nat) {
    && i < |u.moduleGlobals| && !u.moduleGlobals[i].isDefinition && u.moduleGlobals[i].name !in DefinedNames(u)
    && forall j :: 0 <= j < i ==> u.moduleGlobals[j].isDefinition || u.moduleGlobals[j].name != u.moduleGlobals[i].name
  }

  lemma {:induction false} ExternStands(u: Unit, n: nat, i: nat)
    requires FirstExtern(u, i) && n <= |u.moduleGlobals|
    ensures var g, (syms, seen) := u.moduleGlobals[i], ExternSymbols(u, n);
      && (g.name in seen <==> i < n)
      && (i < n ==> exists s :: s in syms && IsUndefined(s, g.name) && s.kind == 0
                                && s.binding == if g.isWeak then 2 else 1)
    decreases n
  {
    hide DefinedNames;
    if n > 0 {
      ExternStands(u, n - 1, i);
      var g, last := u.moduleGlobals[i], u.moduleGlobals[n - 1];
      if i == n - 1 {
        var s := Undefined(g.name, if g.isWeak then STB_WEAK else STB_GLOBAL, STT_NOTYPE);
        assert s in ExternSymbols(u, n - 1).0 + [s] && IsUndefined(s, g.name);
      }
    }
  }

  /** Each of these variables is listed once, and nothing else. */
  lemma {:induction false} ExternsOnce(u: Unit, n: nat)
    requires n <= |u.moduleGlobals|
    ensures var (syms, seen) := ExternSymbols(u, n);
      && (forall s :: s in syms ==> s.name in seen)
      && (forall a, b :: 0 <= a < b < |syms| ==> syms[a].name != syms[b].name)
      && (forall name :: name in seen ==>
            name !in DefinedNames(u) && exists g :: g in u.moduleGlobals && g.name == name && !g.isDefinition)
    decreases n
  {
    hide DefinedNames;
    if n > 0 {
      ExternsOnce(u, n - 1);
      assert u.moduleGlobals[n - 1] in u.moduleGlobals;
    }
  }

  /** What the unit declares and does not define is in the file, undefined: functions as functions, variables
      weak if they are declared so. */
  lemma {:induction false} DeclarationIsWritten(u: Unit, i: nat)
    requires i < |u.declarations| && !exists f :: f in u.functions && f.name == u.declarations[i]
    ensures exists s :: s in Written(Candidates(u)) && IsUndefined(s, u.declarations[i]) && s.binding == 1
                        && s.kind == 2
  {
    KnownExactly(u, u.declarations[i]);
    DeclarationStands(u, |u.declarations|, i);
    WrittenParts(u);
    hide Candidates, Written, IsUndefined, DeclarationSymbols, ExternSymbols, FunctionSymbols, GlobalSymbols, Mentioned,
      AliasCandidates, DefinedNames, KnownNames, FunctionNames;
    assert forall s :: s in DeclarationSymbols(u, |u.declarations|) ==> s in Listed(u);
  }

  lemma {:induction false} ExternIsWritten(u: Unit, i: nat)
    requires i < |u.moduleGlobals| && !u.moduleGlobals[i].isDefinition && !IsDefined(u, u.moduleGlobals[i].name)
    requires forall j :: 0 <= j < i
              ==> u.moduleGlobals[j].isDefinition || u.moduleGlobals[j].name != u.moduleGlobals[i].name
    ensures var g := u.moduleGlobals[i];
      exists s :: s in Written(Candidates(u)) && IsUndefined(s, g.name) && s.kind == 0
                  && s.binding == if g.isWeak then 2 else 1
  {
    KnownExactly(u, u.moduleGlobals[i].name);
    ExternStands(u, |u.moduleGlobals|, i);
    WrittenParts(u);
    hide Candidates, Written, IsUndefined, DeclarationSymbols, ExternSymbols, FunctionSymbols, GlobalSymbols, Mentioned,
      AliasCandidates, DefinedNames, KnownNames, FunctionNames, IsDefined;
    assert forall s :: s in ExternSymbols(u, |u.moduleGlobals|).0 ==> s in Listed(u);
  }

  // ---- there are no others ----

  ghost predicate Explained(u: Unit, s: ElfSymbol) {
    || (exists f :: f in u.functions && IsFunction(u, f, s))
    || (exists g :: g in u.globals && IsVariable(g, s))
    || (exists a :: a in u.aliases && IsAlias(u, a, s))
    || IsLabel(u, s.name, s)
    || IsUndefined(s, s.name)
  }

  ghost predicate AllExplained(u: Unit, syms: seq<ElfSymbol>) {
    forall s :: s in syms ==> Explained(u, s)
  }

  lemma {:induction false} JoinExplained(u: Unit, a: seq<ElfSymbol>, b: seq<ElfSymbol>)
    requires AllExplained(u, a) && AllExplained(u, b)
    ensures AllExplained(u, a + b)
  {
    hide Explained;
  }

  lemma {:induction false} DeclarationsExplained(u: Unit, n: nat, m: nat)
    requires n <= |u.declarations| && m <= |u.moduleGlobals|
    ensures AllExplained(u, DeclarationSymbols(u, n)) && AllExplained(u, ExternSymbols(u, m).0)
    decreases n + m
  {
    hide FunctionNames, DefinedNames, IsFunction, IsVariable, IsAlias, IsLabel;
    if n > 0 {
      DeclarationsExplained(u, n - 1, m);
    } else if m > 0 {
      DeclarationsExplained(u, n, m - 1);
    }
  }

  lemma {:induction false} MentionsExplained(u: Unit, n: nat)
    requires n <= |u.relocs|
    ensures AllExplained(u, MentionedSymbols(u, n).0) && AllExplained(u, MentionedSymbols(u, n).1)
    decreases n
  {
    hide KnownNames, IsCalled, IsFunction, IsVariable, IsAlias;
    if n > 0 {
      MentionsExplained(u, n - 1);
    }
  }

  lemma {:induction false} AliasesExplained(u: Unit, n: nat)
    requires n <= |u.aliases|
    ensures AllExplained(u, Written(AliasCandidates(u, n)))
    decreases n
  {
    if n > 0 {
      AliasesExplained(u, n - 1);
      var a := u.aliases[n - 1];
      AliasStands(u, a);
      WrittenSnoc(AliasCandidates(u, n - 1), AliasCandidate(u, a));
      hide IsFunction, IsVariable, IsAlias, IsLabel, IsUndefined, AliasCandidate, Written, HasTarget;
      assert a in u.aliases;
    }
  }

  lemma {:induction false} DefinitionsExplained(u: Unit)
    ensures AllExplained(u, FunctionSymbols(u, |u.functions|)) && AllExplained(u, GlobalSymbols(u, |u.globals|))
  {
    DefinitionsStand(u, |u.functions|, |u.globals|);
    hide IsFunction, IsVariable, IsAlias, IsLabel, IsUndefined, FunctionSymbols, GlobalSymbols;
  }

  /** Every symbol of the file is a function, a variable, an alias or a label of the unit, or undefined. */
  lemma {:induction false} EverySymbolIsExplained(u: Unit)
    ensures AllExplained(u, Written(Candidates(u)))
  {
    var f, g, d, e := FunctionSymbols(u, |u.functions|), GlobalSymbols(u, |u.globals|),
      DeclarationSymbols(u, |u.declarations|), ExternSymbols(u, |u.moduleGlobals|).0;
    var aliases := Written(AliasCandidates(u, |u.aliases|));
    var (labels, extras, known) := MentionedSymbols(u, |u.relocs|);
    WrittenParts(u);
    assert Written(Candidates(u)) == f + g + d + e + aliases + (labels + extras);
    hide *;
    DefinitionsExplained(u);
    DeclarationsExplained(u, |u.declarations|, |u.moduleGlobals|);
    AliasesExplained(u, |u.aliases|);
    MentionsExplained(u, |u.relocs|);
    JoinExplained(u, f, g);
    JoinExplained(u, f + g, d);
    JoinExplained(u, f + g + d, e);
    JoinExplained(u, f + g + d + e, aliases);
    JoinExplained(u, labels, extras);
    JoinExplained(u, f + g + d + e + aliases, labels + extras);
  }

  // ---- what the linker sees ----

  /** The linker knows a place at this offset of this section, under this name. */
  ghost predicate LinkerSees(input: LinkerInput, name: Name, value: nat, size: nat, kind: nat, section: nat) {
    exists s :: s in input.symbols && s.name == name && s.value == value && s.size == size && s.kind == kind
                && s.section == section
  }

  lemma {:induction false} TableMember(u: Unit, later: seq<ElfSymbol>, s: ElfSymbol) returns (k: nat)
    requires s in Written(Candidates(u))
    ensures var table := Table(Candidates(u), later);
      table != [] && k < |Ordered(table)| && Ordered(table)[k] == s
  {
    hide Written, Candidates, Ordered;
    var table := Table(Candidates(u), later);
    LocalsComeFirst(table);
    assert s in table && s in multiset(table) && s in multiset(Ordered(table));
    k :| 0 <= k < |Ordered(table)| && Ordered(table)[k] == s;
  }

  /** A symbol of the unit, read back from the file. */
  lemma {:induction false} SymbolIsSeen(t: Target, sections: seq<Section>, u: Unit, later: seq<ElfSymbol>, id: Origin,
                                        s: ElfSymbol)
    requires WellFormed(sections, Table(Candidates(u), later)) && PlainSizes(sections)
    requires s in Written(Candidates(u)) && s.kind <= 2
    ensures Readable(Image(t, sections, Table(Candidates(u), later)))
    ensures LinkerSees(Parsed(id, Image(t, sections, Table(Candidates(u), later))), TargetBack(id, s), s.value, s.size,
                       s.kind, s.section)
  {
    hide *;
    var table := Table(Candidates(u), later);
    var k := TableMember(u, later, s);
    WrittenObjectParses(t, sections, table, id);
    SeenAt(Parsed(id, Image(t, sections, table)), sections, id, Ordered(table), k);
  }

  lemma {:induction false} SeenAt(input: LinkerInput, sections: seq<Section>, id: Origin, syms: seq<ElfSymbol>, k: nat)
    requires k < |syms| && input.symbols == SymbolsBack(sections, id, syms) && syms[k].kind <= 2
    ensures LinkerSees(input, TargetBack(id, syms[k]), syms[k].value, syms[k].size, syms[k].kind, syms[k].section)
  {
    hide ToldApart, BindingRead, SectionSymbolName, NameBack;
    assert input.symbols[k] == SymbolBack(sections, id, syms[k]);
    assert input.symbols[k] in input.symbols;
  }

  /** The linker finds every function at its offset in the code, ... */
  lemma {:induction false} FunctionIsSeen(t: Target, sections: seq<Section>, u: Unit, later: seq<ElfSymbol>, id: Origin,
                                          k: nat)
    requires WellFormed(sections, Table(Candidates(u), later)) && PlainSizes(sections) && k < |u.functions|
    ensures Readable(Image(t, sections, Table(Candidates(u), later)))
    ensures var f := u.functions[k];
      LinkerSees(Parsed(id, Image(t, sections, Table(Candidates(u), later))),
                 ToldApart(id, f.name, f.binding % 16, 2), f.offset, f.size, 2, u.text)
  {
    DefinitionsAreWritten(u);
    var s := Written(Candidates(u))[k];
    assert IsFunction(u, u.functions[k], s);
    assert TargetBack(id, s) == ToldApart(id, u.functions[k].name, u.functions[k].binding % 16, 2);
    hide *;
    SymbolIsSeen(t, sections, u, later, id, s);
  }

  /** ... and every variable at its offset in its section. */
  lemma {:induction false} VariableIsSeen(t: Target, sections: seq<Section>, u: Unit, later: seq<ElfSymbol>, id: Origin,
                                          k: nat)
    requires WellFormed(sections, Table(Candidates(u), later)) && PlainSizes(sections) && k < |u.globals|
    ensures Readable(Image(t, sections, Table(Candidates(u), later)))
    ensures var g := u.globals[k]; var kind := if IsLocalLabel(g.name) then 0 else 1;
      LinkerSees(Parsed(id, Image(t, sections, Table(Candidates(u), later))),
                 ToldApart(id, g.name, if g.isGlobal then 1 else 0, kind), g.offset, g.size, kind, g.section)
  {
    hide WellFormed, PlainSizes, Table, Candidates, Written, ToldApart;
    DefinitionsAreWritten(u);
    var s, g := Written(Candidates(u))[|u.functions| + k], u.globals[k];
    assert IsVariable(g, s);
    VariableName(id, g, s);
    hide *;
    SymbolIsSeen(t, sections, u, later, id, s);
  }

  lemma {:induction false} VariableName(id: Origin, g: GlobalInfo, s: ElfSymbol)
    requires IsVariable(g, s)
    ensures s.kind == (if IsLocalLabel(g.name) then 0 else 1)
    ensures TargetBack(id, s)
         == ToldApart(id, g.name, if g.isGlobal then 1 else 0, if IsLocalLabel(g.name) then 0 else 1)
    ensures s.value == g.offset && s.size == g.size && s.section == g.section
  {
    hide ToldApart;
  }
}
