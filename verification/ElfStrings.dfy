/** String tables: NUL-terminated names found again by their offset. */
module ElfStrings {
  import opened Wrappers
  import opened Bytes

  type Name = seq<byte>

  predicate NulFree(s: Name) {
    forall k :: 0 <= k < |s| ==> s[k] != 0
  }

  /** The table's bytes, and where each name starts. */
  datatype Strings = Strings(data: seq<byte>, index: map<Name, nat>)

  const NO_STRINGS := Strings([0], map[[] := 0])

  function Added(st: Strings, s: Name): Strings {
    if s in st.index then st else Strings(st.data + s + [0], st.index[s := |st.data|])
  }

  function AddedAll(st: Strings, names: seq<Name>): Strings {
    if names == [] then st else Added(AddedAll(st, names[..|names| - 1]), names[|names| - 1])
  }

  /** What a reader finds at an offset: the bytes up to the next NUL. */
  function UpToNul(b: seq<byte>): Name {
    if b == [] || b[0] == 0 then [] else [b[0]] + UpToNul(b[1..])
  }

  function NameAt(table: seq<byte>, offset: nat): Name {
    if offset >= |table| then [] else UpToNul(table[offset..])
  }

  /** Every name of the index stands in the data at its offset, terminated. */
  ghost predicate Sound(st: Strings) {
    && [] in st.index
    && forall s :: s in st.index ==> NulFree(s) && Occupies(st.data, st.index[s], s + [0])
  }

  class StringTable {
    var data: seq<byte>
    var index: map<Name, nat>

    function State(): Strings
      reads this
    {
      Strings(data, index)
    }

    constructor ()
      ensures State() == NO_STRINGS
    {
      data, index := [0], map[[] := 0];
    }

    /** A name already present keeps its offset; a new one is appended. */
    method AddString(s: Name) returns (offset: nat)
      modifies this
      ensures State() == Added(old(State()), s)
      ensures s in index && offset == index[s]
    {
      if s in index {
        return index[s];
      }
      offset := |data|;
      data := data + s;
      data := data + [0];
      index := index[s := offset];
    }

    method GetOffset(s: Name) returns (offset: Option<nat>)
      ensures offset == if s in index then Some(index[s]) else None
    {
      offset := if s in index then Some(index[s]) else None;
    }
  }

  lemma {:induction false} NothingSound()
    ensures Sound(NO_STRINGS)
  {
    assert [0][0..1] == [] + [0];
  }

  /** Adding keeps every earlier offset and every earlier byte. */
  lemma {:induction false} AddedSound(st: Strings, s: Name)
    requires Sound(st) && NulFree(s)
    ensures var st' := Added(st, s);
      && Sound(st') && s in st'.index && st.data <= st'.data
      && forall t :: t in st.index ==> t in st'.index && st'.index[t] == st.index[t]
  {
    if s !in st.index {
      var st' := Added(st, s);
      forall t | t in st'.index
        ensures NulFree(t) && Occupies(st'.data, st'.index[t], t + [0])
      {
        if t == s {
          assert st'.data[|st.data|..|st.data| + |s + [0]|] == s + [0];
        } else {
          OccupiesLonger(st.data, s + [0], st.index[t], t + [0]);
          assert st'.data == st.data + (s + [0]);
        }
      }
    }
  }

  lemma {:induction false} AllAddedSound(st: Strings, names: seq<Name>)
    requires Sound(st) && forall i :: 0 <= i < |names| ==> NulFree(names[i])
    ensures var st' := AddedAll(st, names);
      && Sound(st') && (forall i :: 0 <= i < |names| ==> names[i] in st'.index)
      && (forall t :: t in st.index ==> t in st'.index && st'.index[t] == st.index[t])
    decreases |names|
  {
    if names != [] {
      var front := names[..|names| - 1];
      AllAddedSound(st, front);
      AddedSound(AddedAll(st, front), names[|names| - 1]);
      hide Sound, Added;
      forall i | 0 <= i < |names|
        ensures names[i] in AddedAll(st, names).index
      {
        assert i < |front| ==> names[i] == front[i];
      }
    }
  }

  lemma {:induction false} UpToNulFinds(s: Name, rest: seq<byte>)
    requires NulFree(s)
    ensures UpToNul(s + [0] + rest) == s
    decreases |s|
  {
    var b := s + [0] + rest;
    if s != [] {
      assert b[1..] == s[1..] + [0] + rest;
      UpToNulFinds(s[1..], rest);
      assert b[0] == s[0];
    }
  }

  /** Reading at a name's offset gives the name back. */
  lemma {:induction false} NameIsFound(st: Strings, s: Name)
    requires Sound(st) && s in st.index
    ensures NameAt(st.data, st.index[s]) == s
  {
    var at := st.index[s];
    var rest := st.data[at + |s| + 1..];
    assert st.data[at..] == s + [0] + rest by {
      assert st.data[at..] == st.data[at..at + |s + [0]|] + rest;
    }
    UpToNulFinds(s, rest);
  }
}
