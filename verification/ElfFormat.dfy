/** Records of the object format (System V ABI, generic edition, chapter 4): fixed-width little-endian
    fields, written and read back. */
module ElfFormat {
  import opened Bytes

  /** A record as values with their widths in bytes. */
  type Record = seq<(nat, nat)>

  function Pack(fields: Record): seq<byte> {
    if fields == [] then []
    else
      var last := fields[|fields| - 1];
      Pack(fields[..|fields| - 1]) + LittleEndian(last.0, last.1)
  }

  function StartOf(fields: Record, k: nat): nat
    requires k <= |fields|
  {
    if k == 0 then 0 else StartOf(fields, k - 1) + fields[k - 1].1
  }

  function ReadWord(data: seq<byte>, at: nat, width: nat): nat
    requires at + width <= |data|
  {
    Unsigned(data[at..at + width])
  }

  lemma {:induction false} StartOfFront(fields: Record, n: nat, k: nat)
    requires k <= n <= |fields|
    ensures StartOf(fields[..n], k) == StartOf(fields, k)
    decreases k
  {
    if k > 0 {
      StartOfFront(fields, n, k - 1);
    }
  }

  lemma {:induction false} PackLength(fields: Record)
    ensures |Pack(fields)| == StartOf(fields, |fields|)
    decreases |fields|
  {
    if fields != [] {
      var n := |fields| - 1;
      PackLength(fields[..n]);
      StartOfFront(fields, n, n);
    }
  }

  lemma {:induction false} PackedField(fields: Record, k: nat)
    requires k < |fields|
    ensures Occupies(Pack(fields), StartOf(fields, k), LittleEndian(fields[k].0, fields[k].1))
    decreases |fields|
  {
    hide Occupies;
    var n := |fields| - 1;
    PackLength(fields[..n]);
    StartOfFront(fields, n, n);
    var last := LittleEndian(fields[n].0, fields[n].1);
    if k < n {
      PackedField(fields[..n], k);
      StartOfFront(fields, n, k);
      OccupiesLonger(Pack(fields[..n]), last, StartOf(fields, k), LittleEndian(fields[k].0, fields[k].1));
    } else {
      OccupiesEnd(Pack(fields[..n]), last, []);
      assert Pack(fields[..n]) + last + [] == Pack(fields);
    }
  }

  lemma {:induction false} OccupiesWithin(whole: seq<byte>, at: nat, part: seq<byte>, at': nat, piece: seq<byte>)
    requires Occupies(whole, at, part) && Occupies(part, at', piece)
    ensures Occupies(whole, at + at', piece)
  {
    SliceOfSlice(whole, at, at + |part|, at', at' + |piece|);
  }

  lemma {:induction false} SliceOfSlice(s: seq<byte>, a: nat, b: nat, c: nat, d: nat)
    requires a <= b <= |s| && c <= d <= b - a
    ensures s[a..b][c..d] == s[a + c..a + d]
  {
    var part := s[a..b];
    forall k | c <= k < d
      ensures part[k] == s[a + k]
    {
    }
    assert part[c..d] == s[a + c..a + d];
  }

  /** A field of a record that stands in the data reads as its value. */
  lemma {:induction false} FieldReads(data: seq<byte>, at: nat, fields: Record, k: nat)
    requires k < |fields| && Occupies(data, at, Pack(fields)) && fields[k].0 < Pow256(fields[k].1)
    ensures var start := at + StartOf(fields, k);
      start + fields[k].1 <= |data| && ReadWord(data, start, fields[k].1) == fields[k].0
  {
    PackedField(fields, k);
    OccupiesWithin(data, at, Pack(fields), StartOf(fields, k), LittleEndian(fields[k].0, fields[k].1));
    ReadBack(fields[k].0, fields[k].1);
  }

  // ---- section headers ----

  datatype SectionHeader = SectionHeader(name: nat, kind: nat, flags: nat, addr: nat, offset: nat, size: nat,
                                         link: nat, info: nat, align: nat, entsize: nat)

  const NULL_HEADER := SectionHeader(0, 0, 0, 0, 0, 0, 0, 0, 0, 0)

  const HEADER_SIZE := 64

  function HeaderRecord(h: SectionHeader): Record {
    [(h.name, 4), (h.kind, 4), (h.flags, 8), (h.addr, 8), (h.offset, 8), (h.size, 8),
     (h.link, 4), (h.info, 4), (h.align, 8), (h.entsize, 8)]
  }

  /** Every field fits its width. */
  predicate HeaderFits(h: SectionHeader) {
    && h.name < Pow256(4) && h.kind < Pow256(4) && h.link < Pow256(4) && h.info < Pow256(4)
    && h.flags < Pow256(8) && h.addr < Pow256(8) && h.offset < Pow256(8) && h.size < Pow256(8)
    && h.align < Pow256(8) && h.entsize < Pow256(8)
  }

  /** The reader, which knows the fields by their offsets; it has no use for the address. */
  function ReadHeader(data: seq<byte>, base: nat): SectionHeader
    requires base + HEADER_SIZE <= |data|
  {
    SectionHeader(ReadWord(data, base, 4), ReadWord(data, base + 4, 4), ReadWord(data, base + 8, 8), 0,
                  ReadWord(data, base + 24, 8), ReadWord(data, base + 32, 8), ReadWord(data, base + 40, 4),
                  ReadWord(data, base + 44, 4), ReadWord(data, base + 48, 8), ReadWord(data, base + 56, 8))
  }

  lemma {:induction false} HeaderStarts(h: SectionHeader)
    ensures var r := HeaderRecord(h);
      && StartOf(r, 0) == 0 && StartOf(r, 1) == 4 && StartOf(r, 2) == 8 && StartOf(r, 4) == 24 && StartOf(r, 5) == 32
      && StartOf(r, 6) == 40 && StartOf(r, 7) == 44 && StartOf(r, 8) == 48 && StartOf(r, 9) == 56
      && StartOf(r, 10) == 64
  {
    hide StartOf;
    var r := HeaderRecord(h);
    StartStep(r, 0);
    StartStep(r, 1);
    StartStep(r, 2);
    StartStep(r, 3);
    StartStep(r, 4);
    StartStep(r, 5);
    StartStep(r, 6);
    StartStep(r, 7);
    StartStep(r, 8);
    StartStep(r, 9);
  }

  lemma {:induction false} StartStep(fields: Record, k: nat)
    requires k < |fields|
    ensures StartOf(fields, k + 1) == StartOf(fields, k) + fields[k].1 && StartOf(fields, 0) == 0
  {
  }

  /** A header that stands in the data is read back. */
  lemma {:induction false} HeaderReads(data: seq<byte>, base: nat, h: SectionHeader)
    requires Occupies(data, base, Pack(HeaderRecord(h))) && HeaderFits(h)
    ensures |Pack(HeaderRecord(h))| == HEADER_SIZE
    ensures base + HEADER_SIZE <= |data| && ReadHeader(data, base) == h.(addr := 0)
  {
    hide Occupies, Pack, StartOf, ReadWord, Pow256;
    var r := HeaderRecord(h);
    HeaderStarts(h);
    PackLength(r);
    FieldReads(data, base, r, 0);
    FieldReads(data, base, r, 1);
    FieldReads(data, base, r, 2);
    FieldReads(data, base, r, 4);
    FieldReads(data, base, r, 5);
    FieldReads(data, base, r, 6);
    FieldReads(data, base, r, 7);
    FieldReads(data, base, r, 8);
    FieldReads(data, base, r, 9);
  }

  // ---- symbol entries ----

  datatype RawSymbol = RawSymbol(name: nat, info: nat, other: nat, section: nat, value: nat, size: nat)

  const NULL_SYMBOL := RawSymbol(0, 0, 0, 0, 0, 0)

  const SYMBOL_SIZE := 24

  function SymbolRecord(s: RawSymbol): Record {
    [(s.name, 4), (s.info, 1), (s.other, 1), (s.section, 2), (s.value, 8), (s.size, 8)]
  }

  predicate SymbolFits(s: RawSymbol) {
    && s.name < Pow256(4) && s.info < Pow256(1) && s.other < Pow256(1) && s.section < Pow256(2)
    && s.value < Pow256(8) && s.size < Pow256(8)
  }

  function ReadSymbol(data: seq<byte>, at: nat): RawSymbol
    requires at + SYMBOL_SIZE <= |data|
  {
    RawSymbol(ReadWord(data, at, 4), ReadWord(data, at + 4, 1), ReadWord(data, at + 5, 1), ReadWord(data, at + 6, 2),
              ReadWord(data, at + 8, 8), ReadWord(data, at + 16, 8))
  }

  lemma {:induction false} SymbolStarts(s: RawSymbol)
    ensures var r := SymbolRecord(s);
      && StartOf(r, 0) == 0 && StartOf(r, 1) == 4 && StartOf(r, 2) == 5 && StartOf(r, 3) == 6 && StartOf(r, 4) == 8
      && StartOf(r, 5) == 16 && StartOf(r, 6) == 24
  {
    hide StartOf;
    var r := SymbolRecord(s);
    StartStep(r, 0);
    StartStep(r, 1);
    StartStep(r, 2);
    StartStep(r, 3);
    StartStep(r, 4);
    StartStep(r, 5);
  }

  lemma {:induction false} SymbolReads(data: seq<byte>, at: nat, s: RawSymbol)
    requires Occupies(data, at, Pack(SymbolRecord(s))) && SymbolFits(s)
    ensures |Pack(SymbolRecord(s))| == SYMBOL_SIZE
    ensures at + SYMBOL_SIZE <= |data| && ReadSymbol(data, at) == s
  {
    hide Occupies, Pack, StartOf, ReadWord, Pow256;
    var r := SymbolRecord(s);
    SymbolStarts(s);
    PackLength(r);
    FieldReads(data, at, r, 0);
    FieldReads(data, at, r, 1);
    FieldReads(data, at, r, 2);
    FieldReads(data, at, r, 3);
    FieldReads(data, at, r, 4);
    FieldReads(data, at, r, 5);
  }

  // ---- relocation entries ----

  datatype RawRela = RawRela(offset: nat, symbol: nat, kind: nat, addend: int)

  const RELA_SIZE := 24

  /** Symbol index and relocation type share one word; the addend is in two's complement. */
  function RelaRecord(r: RawRela): Record {
    [(r.offset, 8), (r.symbol * 0x1_0000_0000 + r.kind, 8), (r.addend % 0x1_0000_0000_0000_0000, 8)]
  }

  predicate RelaFits(r: RawRela) {
    && r.offset < Pow256(8) && r.symbol < 0x1_0000_0000 && r.kind < 0x1_0000_0000
    && -0x8000_0000_0000_0000 <= r.addend < 0x8000_0000_0000_0000
  }

  function Signed(w: nat): int {
    if w >= 0x8000_0000_0000_0000 then w - 0x1_0000_0000_0000_0000 else w
  }

  function ReadRela(data: seq<byte>, at: nat): RawRela
    requires at + RELA_SIZE <= |data|
  {
    var info := ReadWord(data, at + 8, 8);
    RawRela(ReadWord(data, at, 8), info / 0x1_0000_0000, info % 0x1_0000_0000, Signed(ReadWord(data, at + 16, 8)))
  }

  lemma {:induction false} EightBytes()
    ensures Pow256(8) == 0x1_0000_0000_0000_0000
  {
    assert Pow256(4) == 0x1_0000_0000;
    assert Pow256(6) == 0x1_0000_0000_0000;
  }

  /** The two halves of the info word come apart again. */
  lemma {:induction false} InfoSplits(symbol: nat, kind: nat)
    requires symbol < 0x1_0000_0000 && kind < 0x1_0000_0000
    ensures var info := symbol * 0x1_0000_0000 + kind;
      info < 0x1_0000_0000_0000_0000 && info / 0x1_0000_0000 == symbol && info % 0x1_0000_0000 == kind
  {
  }

  lemma {:induction false} RelaStarts(r: RawRela)
    ensures var fields := RelaRecord(r);
      StartOf(fields, 0) == 0 && StartOf(fields, 1) == 8 && StartOf(fields, 2) == 16 && StartOf(fields, 3) == 24
  {
    hide StartOf;
    var fields := RelaRecord(r);
    StartStep(fields, 0);
    StartStep(fields, 1);
    StartStep(fields, 2);
  }

  lemma {:induction false} RelaReads(data: seq<byte>, at: nat, r: RawRela)
    requires Occupies(data, at, Pack(RelaRecord(r))) && RelaFits(r)
    ensures |Pack(RelaRecord(r))| == RELA_SIZE
    ensures at + RELA_SIZE <= |data| && ReadRela(data, at) == r
  {
    hide Occupies, Pack, StartOf, ReadWord, Pow256;
    var fields := RelaRecord(r);
    EightBytes();
    RelaStarts(r);
    PackLength(fields);
    InfoSplits(r.symbol, r.kind);
    FieldReads(data, at, fields, 0);
    FieldReads(data, at, fields, 1);
    FieldReads(data, at, fields, 2);
  }
}
