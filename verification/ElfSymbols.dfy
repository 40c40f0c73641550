/** The symbol table: locals first, then the others, both in the order they were added (System V ABI,
    generic edition, chapter 4, "Symbol Table"). */
module ElfSymbols {
  import opened Bytes
  import opened ElfStrings
  import opened ElfFormat

  const STB_LOCAL := 0
  const STB_GLOBAL := 1
  const STB_WEAK := 2

  datatype ElfSymbol = ElfSymbol(name: Name, value: nat, size: nat, binding: nat, kind: nat, visibility: nat,
                                 section: nat)

  function Locals(syms: seq<ElfSymbol>): seq<ElfSymbol> {
    if syms == [] then []
    else
      var last := syms[|syms| - 1];
      Locals(syms[..|syms| - 1]) + if last.binding == STB_LOCAL then [last] else []
  }

  function Others(syms: seq<ElfSymbol>): seq<ElfSymbol> {
    if syms == [] then []
    else
      var last := syms[|syms| - 1];
      Others(syms[..|syms| - 1]) + if last.binding == STB_LOCAL then [] else [last]
  }

  function Ordered(syms: seq<ElfSymbol>): seq<ElfSymbol> {
    Locals(syms) + Others(syms)
  }

  function NamesOf(syms: seq<ElfSymbol>): (names: seq<Name>)
    ensures |names| == |syms| && forall i :: 0 <= i < |syms| ==> names[i] == syms[i].name
  {
    seq(|syms|, i requires 0 <= i < |syms| => syms[i].name)
  }

  /** Binding and type share a byte. */
  function RawOf(s: ElfSymbol, strings: Strings): RawSymbol {
    RawSymbol(if s.name in strings.index then strings.index[s.name] else 0,
              s.binding * 16 % 256 + s.kind % 16, s.visibility % 4, s.section, s.value, s.size)
  }

  function Entry(s: ElfSymbol, strings: Strings): seq<byte> {
    Pack(SymbolRecord(RawOf(s, strings)))
  }

  function Entries(syms: seq<ElfSymbol>, strings: Strings): seq<byte> {
    if syms == [] then [] else Entries(syms[..|syms| - 1], strings) + Entry(syms[|syms| - 1], strings)
  }

  function SymtabBytes(syms: seq<ElfSymbol>, strings: Strings): seq<byte> {
    Pack(SymbolRecord(NULL_SYMBOL)) + Entries(Ordered(syms), strings)
  }

  /** The names of the symbols, interned in the order of the symbols. */
  function StringsOf(syms: seq<ElfSymbol>): Strings {
    AddedAll(NO_STRINGS, NamesOf(syms))
  }

  lemma {:induction false} NamesSnoc(syms: seq<ElfSymbol>, s: ElfSymbol)
    ensures StringsOf(syms + [s]) == Added(StringsOf(syms), s.name)
  {
    assert NamesOf(syms + [s])[..|syms|] == NamesOf(syms);
  }

  lemma {:induction false} OrderSnoc(syms: seq<ElfSymbol>, k: nat)
    requires k < |syms|
    ensures Locals(syms[..k + 1]) == Locals(syms[..k]) + if syms[k].binding == STB_LOCAL then [syms[k]] else []
    ensures Others(syms[..k + 1]) == Others(syms[..k]) + if syms[k].binding == STB_LOCAL then [] else [syms[k]]
  {
    assert syms[..k + 1][..k] == syms[..k];
  }

  lemma {:induction false} NothingOrdered(strings: Strings)
    ensures Locals([]) == [] && Others([]) == [] && Entries([], strings) == []
  {
  }

  lemma {:induction false} EntriesSnoc(syms: seq<ElfSymbol>, k: nat, strings: Strings)
    requires k < |syms|
    ensures Entries(syms[..k + 1], strings) == Entries(syms[..k], strings) + Entry(syms[k], strings)
  {
    assert syms[..k + 1][..k] == syms[..k];
  }

  class SymbolTable {
    var symbols: seq<ElfSymbol>
    const strings: StringTable

    ghost predicate Valid()
      reads this, strings
    {
      strings.State() == StringsOf(symbols)
    }

    constructor ()
      ensures Valid() && symbols == [] && fresh(strings)
    {
      symbols := [];
      strings := new StringTable();
    }

    method AddSymbol(sym: ElfSymbol)
      requires Valid()
      modifies this, strings
      ensures Valid() && symbols == old(symbols) + [sym]
    {
      NamesSnoc(symbols, sym);
      var _ := strings.AddString(sym.name);
      symbols := symbols + [sym];
    }

    /** One past the last local symbol, the null symbol counted. */
    method FirstGlobalIndex() returns (first: nat)
      ensures first == |Locals(symbols)| + 1
    {
      hide Locals, Others, Entries;
      first := 0;
      NothingOrdered(NO_STRINGS);
      assert symbols[..0] == [];
      for k := 0 to |symbols|
        invariant first == |Locals(symbols[..k])|
      {
        OrderSnoc(symbols, k);
        if symbols[k].binding == STB_LOCAL {
          first := first + 1;
        }
      }
      assert symbols[..|symbols|] == symbols;
      first := first + 1;
    }

    method BuildBytes() returns (bytes: seq<byte>, first: nat)
      requires Valid()
      ensures bytes == SymtabBytes(symbols, strings.State()) && first == |Locals(symbols)| + 1
    {
      hide Locals, Others, Entries, Pack, StringsOf;
      var locals, others := [], [];
      NothingOrdered(strings.State());
      assert symbols[..0] == [];
      for k := 0 to |symbols|
        invariant locals == Locals(symbols[..k]) && others == Others(symbols[..k])
      {
        OrderSnoc(symbols, k);
        if symbols[k].binding == STB_LOCAL {
          locals := locals + [symbols[k]];
        } else {
          others := others + [symbols[k]];
        }
      }
      assert symbols[..|symbols|] == symbols;
      bytes := Pack(SymbolRecord(NULL_SYMBOL));
      first := 1 + |locals|;
      var all := locals + others;
      assert all[..0] == [];
      for k := 0 to |all|
        invariant bytes == Pack(SymbolRecord(NULL_SYMBOL)) + Entries(all[..k], strings.State())
      {
        EntriesSnoc(all, k, strings.State());
        var s := all[k];
        var offset := strings.GetOffset(s.name);
        var raw := RawSymbol(if offset.Some? then offset.value else 0,
                             s.binding * 16 % 256 + s.kind % 16, s.visibility % 4, s.section, s.value, s.size);
        bytes := bytes + Pack(SymbolRecord(raw));
      }
      assert all[..|all|] == all;
    }
  }

  // ---- what the order guarantees ----

  lemma {:induction false} OrderedSplits(syms: seq<ElfSymbol>)
    ensures forall i :: 0 <= i < |Locals(syms)| ==> Locals(syms)[i].binding == STB_LOCAL
    ensures forall i :: 0 <= i < |Others(syms)| ==> Others(syms)[i].binding != STB_LOCAL
    ensures multiset(Ordered(syms)) == multiset(syms)
    decreases |syms|
  {
    if syms != [] {
      var front, last := syms[..|syms| - 1], syms[|syms| - 1];
      OrderedSplits(front);
      assert syms == front + [last];
      assert multiset(syms) == multiset(front) + multiset{last};
      assert multiset(Ordered(syms)) == multiset(Locals(syms)) + multiset(Others(syms));
    }
  }

  /** Every local symbol has an index below `sh_info`, every other one an index from it on; no symbol is
      lost or repeated. */
  lemma {:induction false} LocalsComeFirst(syms: seq<ElfSymbol>)
    ensures forall i :: 0 <= i < |Ordered(syms)|
             ==> (Ordered(syms)[i].binding == STB_LOCAL <==> i + 1 < |Locals(syms)| + 1)
    ensures multiset(Ordered(syms)) == multiset(syms) && |Ordered(syms)| == |syms|
  {
    OrderedSplits(syms);
    assert |multiset(Ordered(syms))| == |multiset(syms)|;
  }

  /** The order within each group is the order of addition. */
  lemma {:induction false} OrderIsStable(syms: seq<ElfSymbol>, i: nat, j: nat) returns (p: nat, q: nat)
    requires i < j < |syms| && (syms[i].binding == STB_LOCAL <==> syms[j].binding == STB_LOCAL)
    ensures p < q < |Ordered(syms)| && Ordered(syms)[p] == syms[i] && Ordered(syms)[q] == syms[j]
  {
    if syms[i].binding == STB_LOCAL {
      p := GroupPosition(syms, i, true);
      q := GroupPosition(syms, j, true);
      PositionsGrow(syms, i, j, true);
    } else {
      p := GroupPosition(syms, i, false);
      q := GroupPosition(syms, j, false);
      PositionsGrow(syms, i, j, false);
      p, q := |Locals(syms)| + p, |Locals(syms)| + q;
    }
  }

  ghost function Group(syms: seq<ElfSymbol>, local: bool): seq<ElfSymbol> {
    if local then Locals(syms) else Others(syms)
  }

  lemma {:induction false} GroupPrefix(syms: seq<ElfSymbol>, k: nat, local: bool)
    requires k <= |syms|
    ensures Group(syms[..k], local) <= Group(syms, local)
    decreases |syms| - k
  {
    if k < |syms| {
      GroupPrefix(syms, k + 1, local);
      OrderSnoc(syms, k);
    } else {
      assert syms[..k] == syms;
    }
  }

  /** Position of symbol `i` within its group. */
  lemma {:induction false} GroupPosition(syms: seq<ElfSymbol>, i: nat, local: bool) returns (p: nat)
    requires i < |syms| && (syms[i].binding == STB_LOCAL <==> local)
    ensures p == |Group(syms[..i], local)| < |Group(syms, local)| && Group(syms, local)[p] == syms[i]
  {
    p := |Group(syms[..i], local)|;
    OrderSnoc(syms, i);
    GroupPrefix(syms, i + 1, local);
  }

  lemma {:induction false} PositionsGrow(syms: seq<ElfSymbol>, i: nat, j: nat, local: bool)
    requires i < j < |syms| && (syms[i].binding == STB_LOCAL <==> local)
    ensures |Group(syms[..i], local)| < |Group(syms[..j], local)|
  {
    OrderSnoc(syms, i);
    assert syms[..j][..i + 1] == syms[..i + 1];
    GroupPrefix(syms[..j], i + 1, local);
  }

  // ---- entries are found by their index ----

  lemma {:induction false} EntryLength(s: ElfSymbol, strings: Strings)
    ensures |Entry(s, strings)| == SYMBOL_SIZE
  {
    SymbolStarts(RawOf(s, strings));
    PackLength(SymbolRecord(RawOf(s, strings)));
  }

  lemma {:induction false} EntriesAt(syms: seq<ElfSymbol>, strings: Strings, k: nat)
    requires k < |syms|
    ensures |Entries(syms, strings)| == SYMBOL_SIZE * |syms|
    ensures Occupies(Entries(syms, strings), SYMBOL_SIZE * k, Entry(syms[k], strings))
    decreases |syms|
  {
    hide Entry, Occupies;
    var n := |syms| - 1;
    var front, last := Entries(syms[..n], strings), Entry(syms[n], strings);
    EntryLength(syms[n], strings);
    if n > 0 {
      EntriesAt(syms[..n], strings, if k < n then k else 0);
    }
    if k < n {
      OccupiesLonger(front, last, SYMBOL_SIZE * k, Entry(syms[k], strings));
    } else {
      OccupiesEnd(front, last, []);
      assert front + last + [] == front + last;
    }
  }

  /** Symbol number `k` of the ordered list is entry `k + 1` of the table. */
  lemma {:induction false} SymbolAtIndex(syms: seq<ElfSymbol>, strings: Strings, k: nat)
    requires k < |Ordered(syms)|
    ensures |SymtabBytes(syms, strings)| == SYMBOL_SIZE * (|Ordered(syms)| + 1)
    ensures Occupies(SymtabBytes(syms, strings), SYMBOL_SIZE * (k + 1), Entry(Ordered(syms)[k], strings))
    ensures Occupies(SymtabBytes(syms, strings), 0, Pack(SymbolRecord(NULL_SYMBOL)))
  {
    hide Entry, Pack, Ordered;
    var nullEntry, all := Pack(SymbolRecord(NULL_SYMBOL)), Entries(Ordered(syms), strings);
    NullLength();
    EntriesAt(Ordered(syms), strings, k);
    OccupiesEnd(nullEntry, all, []);
    assert nullEntry + all + [] == nullEntry + all;
    OccupiesWithin(nullEntry + all, |nullEntry|, all, SYMBOL_SIZE * k, Entry(Ordered(syms)[k], strings));
    OccupiesEnd([], nullEntry, all);
    assert [] + nullEntry + all == nullEntry + all;
  }

  lemma {:induction false} NullLength()
    ensures |Pack(SymbolRecord(NULL_SYMBOL))| == SYMBOL_SIZE
  {
    SymbolStarts(NULL_SYMBOL);
    PackLength(SymbolRecord(NULL_SYMBOL));
  }
}
