/** Which relocation symbols keep their name through the object file. */
module RelocIndices {
  import opened ElfStrings
  import opened ElfSymbols
  import opened ElfWriter
  import opened ElfParser
  import opened ElfRoundTrip
  import opened RelocSymbols

  /** No other symbol of the list has the name of symbol `p`. */
  ghost predicate UniqueAt(syms: seq<ElfSymbol>, p: nat) {
    p < |syms| && forall i :: 0 <= i < |syms| && i != p ==> syms[i].name != syms[p].name
  }

  /** Position of symbol `p` in the ordered list. */
  function Position(syms: seq<ElfSymbol>, p: nat): nat
    requires p < |syms|
  {
    if syms[p].binding == STB_LOCAL then |Locals(syms[..p])| else |Locals(syms)| + |Others(syms[..p])|
  }

  lemma {:induction false} PositionHolds(syms: seq<ElfSymbol>, p: nat)
    requires p < |syms|
    ensures Position(syms, p) < |Ordered(syms)| && Ordered(syms)[Position(syms, p)] == syms[p]
  {
    var local := syms[p].binding == STB_LOCAL;
    var q := GroupPosition(syms, p, local);
  }

  lemma {:induction false} NothingAtStart(syms: seq<ElfSymbol>, cs: seq<Candidate>)
    ensures |Locals(syms[..0])| == 0 && |Others(syms[..0])| == 0 && |Written(cs[..0])| == 0
  {
  }

  /** Every position of the ordered list comes from some symbol. */
  lemma {:induction false} PositionIsReached(syms: seq<ElfSymbol>, k: nat) returns (p: nat)
    requires k < |Ordered(syms)|
    ensures p < |syms| && Position(syms, p) == k
  {
    assert syms[..|syms|] == syms;
    if k < |Locals(syms)| {
      p := LocalAt(syms, k, |syms|);
    } else {
      p := OtherAt(syms, k - |Locals(syms)|, |syms|);
    }
  }

  lemma {:induction false} LocalAt(syms: seq<ElfSymbol>, k: nat, n: nat) returns (p: nat)
    requires n <= |syms| && k < |Locals(syms[..n])|
    ensures p < n && syms[p].binding == STB_LOCAL && |Locals(syms[..p])| == k
    decreases n
  {
    if n == 0 {
      NothingAtStart(syms, []);
      assert false;
    } else {
      OrderSnoc(syms, n - 1);
      if k < |Locals(syms[..n - 1])| {
        p := LocalAt(syms, k, n - 1);
      } else {
        p := n - 1;
      }
    }
  }

  lemma {:induction false} OtherAt(syms: seq<ElfSymbol>, k: nat, n: nat) returns (p: nat)
    requires n <= |syms| && k < |Others(syms[..n])|
    ensures p < n && syms[p].binding != STB_LOCAL && |Others(syms[..p])| == k
    decreases n
  {
    if n == 0 {
      NothingAtStart(syms, []);
      assert false;
    } else {
      OrderSnoc(syms, n - 1);
      if k < |Others(syms[..n - 1])| {
        p := OtherAt(syms, k, n - 1);
      } else {
        p := n - 1;
      }
    }
  }

  /** A unique name stands in one place of the ordered list. */
  lemma {:induction false} OrderedOnce(syms: seq<ElfSymbol>, p: nat, k: nat)
    requires UniqueAt(syms, p) && k < |Ordered(syms)| && Ordered(syms)[k].name == syms[p].name
    ensures k == Position(syms, p)
  {
    hide Ordered, Position;
    var q := PositionIsReached(syms, k);
    PositionHolds(syms, q);
  }

  lemma {:induction false} IndexHolds(syms: seq<ElfSymbol>, n: nat, p: nat)
    requires p < |syms| && UniqueAt(syms, p) && Position(syms, p) < n <= |Ordered(syms)|
    requires Ordered(syms)[Position(syms, p)] == syms[p]
    ensures syms[p].name in IndexUpTo(Ordered(syms), n)
    ensures IndexUpTo(Ordered(syms), n)[syms[p].name] == Position(syms, p) + 1
    decreases n
  {
    hide Ordered, UniqueAt, Position;
    if Position(syms, p) < n - 1 {
      IndexHolds(syms, n - 1, p);
      if Ordered(syms)[n - 1].name == syms[p].name {
        OrderedOnce(syms, p, n - 1);
      }
    }
  }

  /** The map gives a symbol with a unique name its position in the table, counted from one. */
  lemma {:induction false} IndexIsPosition(syms: seq<ElfSymbol>, p: nat)
    requires UniqueAt(syms, p)
    ensures syms[p].name in IndexMap(syms) && IndexMap(syms)[syms[p].name] == Position(syms, p) + 1
  {
    hide Ordered, Position;
    PositionHolds(syms, p);
    IndexHolds(syms, |Ordered(syms)|, p);
  }

  // ---- names that may repeat ----

  /** Whatever index the map has for a name leads back to the name, though other entries may bear it. */
  lemma {:induction false} IndexLeadsBack(ordered: seq<ElfSymbol>, n: nat, name: Name)
    requires n <= |ordered| && name in IndexUpTo(ordered, n)
    ensures 1 <= IndexUpTo(ordered, n)[name] <= n && ordered[IndexUpTo(ordered, n)[name] - 1].name == name
    decreases n
  {
    if n > 0 && ordered[n - 1].name != name {
      IndexLeadsBack(ordered, n - 1, name);
    }
  }

  lemma {:induction false} IndexCovers(ordered: seq<ElfSymbol>, n: nat, k: nat)
    requires k < n <= |ordered|
    ensures ordered[k].name in IndexUpTo(ordered, n)
    decreases n
  {
    if k < n - 1 {
      IndexCovers(ordered, n - 1, k);
    }
  }

  /** The index that the numbering of one list gives a name leads back to it in the table made of another. */
  ghost predicate LeadsBack(numbered: seq<ElfSymbol>, table: seq<ElfSymbol>, name: Name) {
    var index, ordered := IndexMap(numbered), Ordered(table);
    name in index && 1 <= index[name] <= |ordered| && ordered[index[name] - 1].name == name
  }

  /** If the file only adds to the numbered list behind it, every numbered name is found again. */
  lemma {:induction false} PrefixLeadsBack(numbered: seq<ElfSymbol>, table: seq<ElfSymbol>, p: nat)
    requires Ordered(numbered) <= Ordered(table) && p < |numbered|
    ensures LeadsBack(numbered, table, numbered[p].name)
  {
    hide Ordered, Position;
    PositionHolds(numbered, p);
    IndexCovers(Ordered(numbered), |Ordered(numbered)|, Position(numbered, p));
    IndexLeadsBack(Ordered(numbered), |Ordered(numbered)|, numbered[p].name);
  }

  /** Symbols with unique names are found again exactly if both lists give them the same position. */
  lemma {:induction false} UniqueLeadsBack(numbered: seq<ElfSymbol>, table: seq<ElfSymbol>, p: nat, q: nat)
    requires p < |numbered| && UniqueAt(numbered, p) && q < |table| && UniqueAt(table, q)
    requires numbered[p].name == table[q].name
    ensures LeadsBack(numbered, table, numbered[p].name) <==> Position(numbered, p) == Position(table, q)
  {
    hide Ordered, Position, UniqueAt;
    IndexIsPosition(numbered, p);
    PositionHolds(table, q);
    var k := Position(numbered, p);
    if k < |Ordered(table)| && Ordered(table)[k].name == table[q].name {
      OrderedOnce(table, q, k);
    }
  }

  // ---- the list that is written and the list that is numbered ----

  /** Number of symbols before `p` that the file does not get. */
  function Missing(cs: seq<Candidate>, p: nat): nat
    requires p <= |cs|
  {
    if p == 0 then 0 else Missing(cs, p - 1) + if cs[p - 1].written then 0 else 1
  }

  /** Only symbols that are not local are left out. */
  ghost predicate OnlyGlobalsMissing(cs: seq<Candidate>) {
    forall i :: 0 <= i < |cs| && !cs[i].written ==> cs[i].sym.binding != STB_LOCAL
  }

  ghost predicate NoLocals(syms: seq<ElfSymbol>) {
    forall i :: 0 <= i < |syms| ==> syms[i].binding != STB_LOCAL
  }

  lemma {:induction false} PrefixStep(cs: seq<Candidate>, n: nat)
    requires n < |cs|
    ensures Written(cs[..n + 1]) == Written(cs[..n]) + if cs[n].written then [cs[n].sym] else []
    ensures Everything(cs[..n + 1]) == Everything(cs[..n]) + [cs[n].sym]
  {
    assert cs[..n + 1] == cs[..n] + [cs[n]];
    WrittenSnoc(cs[..n], cs[n]);
  }

  lemma {:induction false} GroupsSnoc(syms: seq<ElfSymbol>, s: ElfSymbol)
    ensures Locals(syms + [s]) == Locals(syms) + if s.binding == STB_LOCAL then [s] else []
    ensures Others(syms + [s]) == Others(syms) + if s.binding == STB_LOCAL then [] else [s]
  {
    assert (syms + [s])[..|syms|] == syms;
  }

  /** Both lists have the same locals; of the others the written list lacks the missing ones. */
  lemma {:induction false} GroupsCompare(cs: seq<Candidate>, n: nat)
    requires OnlyGlobalsMissing(cs) && n <= |cs|
    ensures Locals(Written(cs[..n])) == Locals(Everything(cs[..n]))
    ensures |Others(Written(cs[..n]))| + Missing(cs, n) == |Others(Everything(cs[..n]))|
    decreases n
  {
    hide Locals, Others, Written;
    if n == 0 {
      NothingOrdered(NO_STRINGS);
      NothingWritten();
      assert cs[..0] == [] && Everything(cs[..0]) == [];
    } else {
      GroupsCompare(cs, n - 1);
      PrefixStep(cs, n - 1);
      assert Written(cs[..n - 1]) + [] == Written(cs[..n - 1]);
      GroupsSnoc(Written(cs[..n - 1]), cs[n - 1].sym);
      GroupsSnoc(Everything(cs[..n - 1]), cs[n - 1].sym);
    }
  }

  lemma {:induction false} NothingWritten()
    ensures Written([]) == []
  {
  }

  lemma {:induction false} LaterGlobals(syms: seq<ElfSymbol>, later: seq<ElfSymbol>, n: nat)
    requires NoLocals(later) && n <= |later|
    ensures Locals(syms + later[..n]) == Locals(syms) && Others(syms + later[..n]) == Others(syms) + later[..n]
    decreases n
  {
    hide Locals, Others;
    if n == 0 {
      assert syms + later[..0] == syms;
    } else {
      LaterGlobals(syms, later, n - 1);
      assert syms + later[..n] == (syms + later[..n - 1]) + [later[n - 1]];
      GroupsSnoc(syms + later[..n - 1], later[n - 1]);
      assert later[..n] == later[..n - 1] + [later[n - 1]];
    }
  }

  /** Further global symbols come last. */
  lemma {:induction false} OrderedLater(syms: seq<ElfSymbol>, later: seq<ElfSymbol>)
    requires NoLocals(later)
    ensures Ordered(syms + later) == Ordered(syms) + later
  {
    LaterGlobals(syms, later, |later|);
    assert later[..|later|] == later;
    assert Locals(syms) + (Others(syms) + later) == Ordered(syms) + later;
  }

  /** Where candidate `p` lands in the written list. */
  lemma {:induction false} WrittenAt(cs: seq<Candidate>, p: nat, n: nat)
    requires p < n <= |cs| && cs[p].written
    ensures |Written(cs[..p])| < |Written(cs[..n])| && Written(cs[..n])[|Written(cs[..p])|] == cs[p].sym
    ensures Written(cs[..p]) <= Written(cs[..n])
    decreases n
  {
    hide Written;
    PrefixStep(cs, n - 1);
    if p < n - 1 {
      WrittenAt(cs, p, n - 1);
    }
  }

  /** The table as the linker sees it: the unit's symbols and whatever undefined symbols follow. */
  function Table(cs: seq<Candidate>, later: seq<ElfSymbol>): seq<ElfSymbol> {
    Written(cs) + later
  }

  /** The index that an entry for `name` carries leads back to the name. */
  ghost predicate Recovered(cs: seq<Candidate>, later: seq<ElfSymbol>, name: Name) {
    LeadsBack(Everything(cs), Table(cs, later), name)
  }

  /** Position of a written symbol, in terms of its position in the numbered list. */
  lemma {:induction false} WrittenPosition(cs: seq<Candidate>, later: seq<ElfSymbol>, p: nat) returns (q: nat)
    requires OnlyGlobalsMissing(cs) && NoLocals(later) && p < |cs| && cs[p].written
    ensures var table := Table(cs, later);
      && q < |table| && table[q] == cs[p].sym
      && Position(table, q)
         == Position(Everything(cs), p) - if cs[p].sym.binding == STB_LOCAL then 0 else Missing(cs, p)
  {
    var table := Table(cs, later);
    q := |Written(cs[..p])|;
    assert cs[..|cs|] == cs;
    WrittenAt(cs, p, |cs|);
    GroupsCompare(cs, p);
    GroupsCompare(cs, |cs|);
    LaterGlobals(Written(cs), later, |later|);
    assert later[..|later|] == later;
    assert table[..q] == Written(cs[..p]);
    assert Everything(cs)[..p] == Everything(cs[..p]);
  }

  /** Candidate `p` is the only symbol of its name. */
  ghost predicate Once(cs: seq<Candidate>, later: seq<ElfSymbol>, p: nat) {
    && UniqueAt(Everything(cs), p)
    && forall j :: 0 <= j < |later| ==> later[j].name != cs[p].sym.name
  }

  /** The candidate behind entry `k` of the written list. */
  function SourceOf(cs: seq<Candidate>, n: nat, k: nat): (p: nat)
    requires n <= |cs|
    ensures n > 0 ==> p < n
    decreases n
  {
    if n <= 1 then 0
    else
      if k < |Written(cs[..n - 1])| then SourceOf(cs, n - 1, k) else n - 1
  }

  lemma {:induction false} SourceHolds(cs: seq<Candidate>, n: nat, k: nat)
    requires n <= |cs| && k < |Written(cs[..n])|
    ensures SourceOf(cs, n, k) < n && cs[SourceOf(cs, n, k)].sym == Written(cs[..n])[k]
    decreases n
  {
    hide Written;
    if n == 0 {
      NothingAtStart([], cs);
      assert false;
    } else {
      PrefixStep(cs, n - 1);
      if k < |Written(cs[..n - 1])| {
        SourceHolds(cs, n - 1, k);
      }
    }
  }

  lemma {:induction false} SourceGrows(cs: seq<Candidate>, n: nat, a: nat, b: nat)
    requires n <= |cs| && a < b < |Written(cs[..n])|
    ensures SourceOf(cs, n, a) < SourceOf(cs, n, b)
    decreases n
  {
    hide Written;
    if n == 0 {
      NothingAtStart([], cs);
      assert false;
    } else {
      PrefixStep(cs, n - 1);
      SourceHolds(cs, n, a);
      if b < |Written(cs[..n - 1])| {
        SourceGrows(cs, n - 1, a, b);
      } else {
        SourceHolds(cs, n - 1, a);
      }
    }
  }

  lemma {:induction false} TailEntry(front: seq<ElfSymbol>, back: seq<ElfSymbol>, q: nat)
    requires q < |front + back|
    ensures q < |front| || (front + back)[q] in back
  {
  }

  /** An entry of the table that bears the name of candidate `p` comes from it. */
  lemma {:induction false} EntryIsCandidate(cs: seq<Candidate>, later: seq<ElfSymbol>, p: nat, q: nat)
    requires p < |cs| && Once(cs, later, p) && q < |Table(cs, later)| && Table(cs, later)[q].name == cs[p].sym.name
    ensures cs[p].written && q < |Written(cs)| && SourceOf(cs, |cs|, q) == p
  {
    hide Written, SourceOf;
    assert cs[..|cs|] == cs;
    TailEntry(Written(cs), later, q);
    SourceIsWritten(cs, |cs|, q);
    SourceHolds(cs, |cs|, q);
    assert Everything(cs)[SourceOf(cs, |cs|, q)].name == cs[p].sym.name;
  }

  lemma {:induction false} TableUnique(cs: seq<Candidate>, later: seq<ElfSymbol>, p: nat, q: nat)
    requires p < |cs| && Once(cs, later, p) && q < |Table(cs, later)| && Table(cs, later)[q].name == cs[p].sym.name
    ensures UniqueAt(Table(cs, later), q)
  {
    hide Written, SourceOf, Table, Once;
    assert cs[..|cs|] == cs;
    EntryIsCandidate(cs, later, p, q);
    forall i | 0 <= i < |Table(cs, later)| && i != q
      ensures Table(cs, later)[i].name != Table(cs, later)[q].name
    {
      if Table(cs, later)[i].name == cs[p].sym.name {
        EntryIsCandidate(cs, later, p, i);
        SourceGrows(cs, |cs|, if i < q then i else q, if i < q then q else i);
      }
    }
  }

  // ---- which names are recovered ----

  /** A symbol whose name no other has is recovered exactly when the file has it and, unless it is
      local, no symbol before it is missing. */
  lemma {:induction false} RecoveredExactly(cs: seq<Candidate>, later: seq<ElfSymbol>, p: nat)
    requires OnlyGlobalsMissing(cs) && NoLocals(later) && p < |cs| && Once(cs, later, p)
    ensures Recovered(cs, later, cs[p].sym.name)
       <==> cs[p].written && (cs[p].sym.binding == STB_LOCAL || Missing(cs, p) == 0)
  {
    hide Position, Ordered, Table, OnlyGlobalsMissing, IndexMap, NoLocals, Missing;
    var all, table, name := Everything(cs), Table(cs, later), cs[p].sym.name;
    if cs[p].written {
      var q := WrittenPosition(cs, later, p);
      TableUnique(cs, later, p, q);
      UniqueLeadsBack(all, table, p, q);
    } else if Recovered(cs, later, name) {
      var q := PositionIsReached(table, IndexMap(all)[name] - 1);
      PositionHolds(table, q);
      EntryIsCandidate(cs, later, p, q);
    }
  }

  lemma {:induction false} SourceIsWritten(cs: seq<Candidate>, n: nat, k: nat)
    requires n <= |cs| && k < |Written(cs[..n])|
    ensures cs[SourceOf(cs, n, k)].written
    decreases n
  {
    hide Written;
    if n == 0 {
      NothingAtStart([], cs);
      assert false;
    } else {
      PrefixStep(cs, n - 1);
      if k < |Written(cs[..n - 1])| {
        SourceIsWritten(cs, n - 1, k);
      }
    }
  }

  // ---- the symbols of a unit ----

  predicate TargetsDefined(u: Unit) {
    forall i :: 0 <= i < |u.aliases| ==> AliasCandidate(u, u.aliases[i]).written
  }

  lemma {:induction false} AliasAt(u: Unit, n: nat, i: nat)
    requires i < n <= |u.aliases|
    ensures |AliasCandidates(u, n)| == n && AliasCandidates(u, n)[i] == AliasCandidate(u, u.aliases[i])
    decreases n
  {
    hide AliasCandidate;
    if n > 1 {
      AliasAt(u, n - 1, if i < n - 1 then i else 0);
    }
  }

  /** Candidate `p` is one of the listed symbols, an alias, or a symbol that only relocations mention. */
  lemma {:induction false} CandidateAt(u: Unit, p: nat)
    requires p < |Candidates(u)|
    ensures var cs, n, m := Candidates(u), |Listed(u)|, |u.aliases|;
      && |cs| == n + m + |Mentioned(u)|
      && (p < n ==> cs[p] == Candidate(Listed(u)[p], true))
      && (n <= p < n + m ==> cs[p] == AliasCandidate(u, u.aliases[p - n]))
      && (n + m <= p ==> cs[p] == Candidate(Mentioned(u)[p - n - m], true))
  {
    AliasCount(u, |u.aliases|);
    hide Listed, Mentioned, AliasCandidate, AliasCandidates;
    if |Listed(u)| <= p < |Listed(u)| + |u.aliases| {
      AliasAt(u, |u.aliases|, p - |Listed(u)|);
    }
  }

  lemma {:induction false} AliasCount(u: Unit, n: nat)
    requires n <= |u.aliases|
    ensures |AliasCandidates(u, n)| == n
    decreases n
  {
    if n > 0 {
      AliasCount(u, n - 1);
    }
  }

  lemma {:induction false} OnlyAliasesMissing(u: Unit)
    ensures OnlyGlobalsMissing(Candidates(u))
    ensures TargetsDefined(u) ==> forall p :: 0 <= p < |Candidates(u)| ==> Candidates(u)[p].written
  {
    hide Candidates, Listed, Mentioned;
    forall p | 0 <= p < |Candidates(u)|
      ensures !Candidates(u)[p].written ==> Candidates(u)[p].sym.binding != STB_LOCAL
      ensures TargetsDefined(u) ==> Candidates(u)[p].written
    {
      CandidateAt(u, p);
    }
  }

  lemma {:induction false} AllAreWritten(cs: seq<Candidate>, n: nat)
    requires n <= |cs| && forall p :: 0 <= p < |cs| ==> cs[p].written
    ensures Written(cs[..n]) == Everything(cs[..n])
    decreases n
  {
    hide Written;
    if n == 0 {
      NothingWritten();
      assert cs[..0] == [];
    } else {
      AllAreWritten(cs, n - 1);
      PrefixStep(cs, n - 1);
    }
  }

  predicate Names(syms: seq<ElfSymbol>, name: Name) {
    exists i :: 0 <= i < |syms| && syms[i].name == name
  }

  lemma {:induction false} NamesJoin(a: seq<ElfSymbol>, b: seq<ElfSymbol>, name: Name)
    ensures Names(a + b, name) <==> Names(a, name) || Names(b, name)
  {
    if Names(b, name) {
      var i :| 0 <= i < |b| && b[i].name == name;
      assert (a + b)[|a| + i].name == name;
    }
    if Names(a, name) {
      var i :| 0 <= i < |a| && a[i].name == name;
      assert (a + b)[i].name == name;
    }
    if Names(a + b, name) {
      var i :| 0 <= i < |a + b| && (a + b)[i].name == name;
      assert i < |a| ==> a[i].name == name;
      assert i >= |a| ==> b[i - |a|].name == name;
    }
  }

  lemma {:induction false} FunctionsListed(u: Unit, n: nat, i: nat)
    requires i < n <= |u.functions|
    ensures Names(FunctionSymbols(u, n), u.functions[i].name)
    decreases n
  {
    hide Names;
    var last := FunctionSymbol(u, u.functions[n - 1].name, u.functions[n - 1], u.functions[n - 1].binding,
                               u.functions[n - 1].visibility);
    NamesJoin(FunctionSymbols(u, n - 1), [last], u.functions[i].name);
    if i < n - 1 {
      FunctionsListed(u, n - 1, i);
    } else {
      OneName(last);
    }
  }

  lemma {:induction false} OneName(s: ElfSymbol)
    ensures Names([s], s.name)
  {
    assert [s][0].name == s.name;
  }

  lemma {:induction false} GlobalsListed(u: Unit, n: nat, i: nat)
    requires i < n <= |u.globals|
    ensures Names(GlobalSymbols(u, n), u.globals[i].name)
    decreases n
  {
    hide Names;
    NamesJoin(GlobalSymbols(u, n - 1), [GlobalSymbol(u.globals[n - 1])], u.globals[i].name);
    if i < n - 1 {
      GlobalsListed(u, n - 1, i);
    } else {
      OneName(GlobalSymbol(u.globals[n - 1]));
    }
  }

  lemma {:induction false} DeclarationsListed(u: Unit, n: nat, i: nat)
    requires i < n <= |u.declarations|
    ensures u.declarations[i] in FunctionNames(u) || Names(DeclarationSymbols(u, n), u.declarations[i])
    decreases n
  {
    hide Names, FunctionNames;
    var last := Undefined(u.declarations[n - 1], STB_GLOBAL, STT_FUNC);
    if i < n - 1 {
      DeclarationsListed(u, n - 1, i);
      NamesJoin(DeclarationSymbols(u, n - 1), [last], u.declarations[i]);
      assert DeclarationSymbols(u, n - 1) + [] == DeclarationSymbols(u, n - 1);
    } else {
      NamesJoin(DeclarationSymbols(u, n - 1), [last], u.declarations[i]);
      OneName(last);
    }
  }

  lemma {:induction false} ExternsListed(u: Unit, n: nat, name: Name)
    requires n <= |u.moduleGlobals|
    ensures name in ExternSymbols(u, n).1 ==> Names(ExternSymbols(u, n).0, name)
    ensures (exists i :: 0 <= i < n && u.moduleGlobals[i].name == name && !u.moduleGlobals[i].isDefinition)
            ==> name in DefinedNames(u) || name in ExternSymbols(u, n).1
    decreases n
  {
    hide Names, DefinedNames;
    if n > 0 {
      ExternsListed(u, n - 1, name);
      var g := u.moduleGlobals[n - 1];
      var last := Undefined(g.name, if g.isWeak then STB_WEAK else STB_GLOBAL, STT_NOTYPE);
      NamesJoin(ExternSymbols(u, n - 1).0, [last], name);
      OneName(last);
    }
  }

  lemma {:induction false} MentionedListed(u: Unit, n: nat, name: Name)
    requires n <= |u.relocs|
    ensures var (labels, extras, known) := MentionedSymbols(u, n);
      && (name in known ==> name in KnownNames(u) || Names(labels, name) || Names(extras, name))
      && ((exists i :: 0 <= i < n && u.relocs[i].symbol == name) ==> name in known)
    decreases n
  {
    hide Names, KnownNames, IsCalled;
    if n > 0 {
      MentionedListed(u, n - 1, name);
      var (labels, extras, known) := MentionedSymbols(u, n - 1);
      var last := u.relocs[n - 1].symbol;
      var undefined := Undefined(last, STB_GLOBAL, if IsCalled(u, last) then STT_FUNC else STT_NOTYPE);
      NamesJoin(extras, [undefined], name);
      OneName(undefined);
      if last in u.labels {
        var place := ElfSymbol(last, u.labels[last], 0, STB_LOCAL, STT_NOTYPE, 0, u.text);
        NamesJoin(labels, [place], name);
        OneName(place);
      }
    }
  }

  /** A name that is known before the relocations are looked at is that of a candidate. */
  lemma {:induction false} KnownIsCandidate(u: Unit, name: Name)
    requires name in KnownNames(u)
    ensures Names(Listed(u), name) || exists i :: 0 <= i < |u.aliases| && u.aliases[i].name == name
  {
    var f, g, d, e := FunctionSymbols(u, |u.functions|), GlobalSymbols(u, |u.globals|),
      DeclarationSymbols(u, |u.declarations|), ExternSymbols(u, |u.moduleGlobals|).0;
    NamesJoin(f, g, name);
    NamesJoin(f + g, d, name);
    NamesJoin(f + g + d, e, name);
    ExternsListed(u, |u.moduleGlobals|, name);
    hide Names, FunctionSymbols, GlobalSymbols, DeclarationSymbols, ExternSymbols;
    if name in FunctionNames(u) {
      FunctionNamed(u, name);
    } else if exists k :: 0 <= k < |u.globals| && u.globals[k].name == name {
      var k :| 0 <= k < |u.globals| && u.globals[k].name == name;
      GlobalsListed(u, |u.globals|, k);
    } else if name in u.declarations {
      var k :| 0 <= k < |u.declarations| && u.declarations[k] == name;
      DeclarationsListed(u, |u.declarations|, k);
    }
  }

  lemma {:induction false} FunctionNamed(u: Unit, name: Name)
    requires name in FunctionNames(u)
    ensures Names(FunctionSymbols(u, |u.functions|), name)
  {
    var f :| f in u.functions && f.name == name;
    var k :| 0 <= k < |u.functions| && u.functions[k] == f;
    FunctionsListed(u, |u.functions|, k);
  }

  /** Every name that a relocation mentions is that of a candidate. */
  lemma {:induction false} RelocIsCandidate(u: Unit, r: TextReloc) returns (p: nat)
    requires r in u.relocs
    ensures p < |Candidates(u)| && Candidates(u)[p].sym.name == r.symbol
  {
    hide Listed, Candidates, MentionedSymbols, KnownNames, AliasCandidate;
    var k :| 0 <= k < |u.relocs| && u.relocs[k] == r;
    MentionedListed(u, |u.relocs|, r.symbol);
    var (labels, extras, known) := MentionedSymbols(u, |u.relocs|);
    NamesJoin(labels, extras, r.symbol);
    CandidateCount(u);
    if Names(Mentioned(u), r.symbol) {
      var i :| 0 <= i < |Mentioned(u)| && Mentioned(u)[i].name == r.symbol;
      p := |Listed(u)| + |u.aliases| + i;
      CandidateAt(u, p);
    } else {
      KnownIsCandidate(u, r.symbol);
      if Names(Listed(u), r.symbol) {
        p :| 0 <= p < |Listed(u)| && Listed(u)[p].name == r.symbol;
        CandidateAt(u, p);
      } else {
        var i :| 0 <= i < |u.aliases| && u.aliases[i].name == r.symbol;
        p := |Listed(u)| + i;
        CandidateAt(u, p);
        AliasName(u, u.aliases[i]);
      }
    }
  }

  lemma {:induction false} AliasName(u: Unit, a: Alias)
    ensures AliasCandidate(u, a).sym.name == a.name
  {
  }

  lemma {:induction false} CandidateCount(u: Unit)
    ensures |Candidates(u)| == |Listed(u)| + |u.aliases| + |Mentioned(u)|
  {
    AliasCount(u, |u.aliases|);
    hide Listed, Mentioned, AliasCandidates;
  }

  /** With every alias target defined, every relocation's symbol is recovered from its index, even if
      the unit lists a name more than once. */
  lemma {:induction false} RelocNamesRecovered(u: Unit, later: seq<ElfSymbol>, r: TextReloc)
    requires TargetsDefined(u) && NoLocals(later) && r in u.relocs
    ensures Recovered(Candidates(u), later, r.symbol)
  {
    hide Candidates, NoLocals, TargetsDefined, OnlyGlobalsMissing, Ordered, LeadsBack, Written;
    var cs := Candidates(u);
    var p := RelocIsCandidate(u, r);
    OnlyAliasesMissing(u);
    AllAreWritten(cs, |cs|);
    assert cs[..|cs|] == cs;
    OrderedLater(Everything(cs), later);
    PrefixLeadsBack(Everything(cs), Table(cs, later), p);
  }

  /** In the written and parsed file the index of `name` leads the parser to a symbol of that name, under
      the name by which the linker knows the symbol. */
  ghost predicate FindsSymbol(t: Target, sections: seq<Section>, numbered: seq<ElfSymbol>, table: seq<ElfSymbol>,
                              id: Origin, loaded: seq<InputSection>, name: Name) {
    var index, o, ordered := IndexMap(numbered), ObjectBack(t, sections, table, id), Ordered(table);
    && name in index && ValidObject(o) && 1 <= index[name] <= |ordered| && ordered[index[name] - 1].name == name
    && TargetName(o, loaded, index[name]) == TargetBack(id, ordered[index[name] - 1])
  }

  /** ... and through the written and parsed file. */
  lemma {:induction false} RelocNamesSurvive(t: Target, sections: seq<Section>, u: Unit, later: seq<ElfSymbol>,
                                             id: Origin, loaded: seq<InputSection>, r: TextReloc)
    requires TargetsDefined(u) && NoLocals(later) && r in u.relocs && r.symbol != []
    requires WellFormed(sections, Table(Candidates(u), later))
    ensures FindsSymbol(t, sections, Everything(Candidates(u)), Table(Candidates(u), later), id, loaded, r.symbol)
  {
    hide *;
    RelocNamesRecovered(u, later, r);
    ObjectIsValid(t, sections, Table(Candidates(u), later), id);
    hide Everything;
    assert LeadsBack(Everything(Candidates(u)), Table(Candidates(u), later), r.symbol) by {
      RecoveredMeans(Candidates(u), later, r.symbol);
    }
    FoundInFile(t, sections, Everything(Candidates(u)), Table(Candidates(u), later), id, loaded, r.symbol);
  }

  lemma {:induction false} RecoveredMeans(cs: seq<Candidate>, later: seq<ElfSymbol>, name: Name)
    ensures Recovered(cs, later, name) <==> LeadsBack(Everything(cs), Table(cs, later), name)
  {
    hide LeadsBack;
  }

  /** What leads back in the table does so in the parsed file. */
  lemma {:induction false} FoundInFile(t: Target, sections: seq<Section>, numbered: seq<ElfSymbol>,
                                       table: seq<ElfSymbol>, id: Origin, loaded: seq<InputSection>, name: Name)
    requires LeadsBack(numbered, table, name) && name != [] && WellFormed(sections, table)
    requires ValidObject(ObjectBack(t, sections, table, id))
    ensures FindsSymbol(t, sections, numbered, table, id, loaded, name)
  {
    hide WellFormed, ObjectBack, IndexMap, Ordered, ValidObject, TargetName, TargetBack;
    SameCount(table);
    IndexNamesSymbol(t, sections, table, id, loaded, IndexMap(numbered)[name]);
  }

  lemma {:induction false} SameCount(syms: seq<ElfSymbol>)
    ensures |Ordered(syms)| == |syms|
  {
    LocalsComeFirst(syms);
  }

  // ---- an alias without a target ----

  const MAIN: Name := [0x6d]
  const ALIAS: Name := [0x61]
  const PUTS: Name := [0x70]

  /** A function, an alias of something that is not there, and a call of something else. */
  const BROKEN_ALIAS := Unit([FunctionInfo(MAIN, 0, 8, STB_GLOBAL, 0)], [], [], [], [Alias(ALIAS, PUTS)],
                             [TextReloc(PUTS, true)], map[], 1)

  lemma {:induction false} BrokenAliasCandidates()
    ensures var cs := Candidates(BROKEN_ALIAS);
      && |cs| == 3 && cs[0].written && !cs[1].written && cs[2].written
      && cs[0].sym.name == MAIN && cs[1].sym.name == ALIAS && cs[2].sym.name == PUTS
      && cs[0].sym.binding == cs[1].sym.binding == cs[2].sym.binding == STB_GLOBAL
  {
    var u := BROKEN_ALIAS;
    assert u.functions[0].name == MAIN;
    assert FunctionSymbols(u, 1) == FunctionSymbols(u, 0) + [FunctionSymbol(u, MAIN, u.functions[0], STB_GLOBAL, 0)];
    assert GlobalSymbols(u, 0) == [] && DeclarationSymbols(u, 0) == [] && ExternSymbols(u, 0).0 == [];
    assert |Listed(u)| == 1 && Listed(u)[0].name == MAIN;
    assert FindFunction(u, PUTS, 1).None? && FindFunction(u, PUTS, 0).None? && FindGlobal(u, PUTS, 0).None?;
    assert AliasCandidates(u, 1) == AliasCandidates(u, 0) + [AliasCandidate(u, u.aliases[0])];
    assert PUTS !in KnownNames(u);
    assert MentionedSymbols(u, 0) == ([], [], KnownNames(u));
    assert |Mentioned(u)| == 1 && Mentioned(u)[0].name == PUTS && Mentioned(u)[0].binding == STB_GLOBAL;
  }

  /** The alias is numbered but not written, and the index of the called function leads elsewhere. */
  lemma {:induction false} UnresolvedAliasShifts()
    ensures var cs := Candidates(BROKEN_ALIAS);
      Recovered(cs, [], MAIN) && !Recovered(cs, [], ALIAS) && !Recovered(cs, [], PUTS)
  {
    BrokenAliasCandidates();
    hide Candidates, Recovered;
    var cs := Candidates(BROKEN_ALIAS);
    assert Missing(cs, 0) == 0 && Missing(cs, 1) == 0 && Missing(cs, 2) == 1;
    RecoveredExactly(cs, [], 0);
    RecoveredExactly(cs, [], 1);
    RecoveredExactly(cs, [], 2);
  }
}
