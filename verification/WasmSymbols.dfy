/** The symbol table of a relocatable WebAssembly object (tool-conventions,
    Linking.md, version 2): how `parse_symbols` reads it and how it is written. */
module WasmSymbols {
  import opened Leb128
  import opened Wrappers

  const SECTION: Byte := 3
  const DATA: Byte := 1

  /** The encoded length of a name and its text. */
  datatype Name = NoName | Name(len: Bytes, text: Bytes)

  /** One symbol, as the bytes of its fields. */
  datatype Entry = Entry(kind: Byte, flags: Bytes, index: Bytes, name: Name, tail: Bytes)

  predicate Defined(flags: nat) {
    flags / 16 % 2 == 0
  }

  predicate Common(flags: nat) {
    flags % 4 == 3
  }

  predicate Explicit(flags: nat) {
    flags / 64 % 2 == 1
  }

  /** Data symbols always store a name, section symbols never; of the others
      an undefined one only with an explicit name. */
  predicate HasName(kind: Byte, flags: nat) {
    kind == DATA || (kind != SECTION && (Defined(flags) || Explicit(flags)))
  }

  /** The length of n numbers at the front of s. */
  function Numbers(s: Bytes, n: nat): (r: Option<nat>)
    ensures r.Some? ==> r.value <= |s|
  {
    if n == 0 then Some(0)
    else
      var first := Uleb(s);
      if first.None? then None
      else
        var rest := Numbers(s[first.value.1..], n - 1);
        if rest.None? then None else Some(first.value.1 + rest.value)
  }

  /** The length of what follows the name: segment, offset and size of a
      defined data symbol, size and alignment byte of a common one. */
  function TailLength(s: Bytes, kind: Byte, flags: nat): (r: Option<nat>)
    ensures r.Some? ==> r.value <= |s|
  {
    if kind != DATA then Some(0)
    else if Defined(flags) && !Common(flags) then Numbers(s, 3)
    else if Common(flags) then
      var size := Numbers(s, 1);
      if size.None? || size.value == |s| then None else Some(size.value + 1)
    else Some(0)
  }

  function NameBytes(name: Name): Bytes {
    if name.Name? then name.len + name.text else []
  }

  /** The bytes of a symbol. */
  function Raw(e: Entry): Bytes {
    [e.kind] + (e.flags + (e.index + (NameBytes(e.name) + e.tail)))
  }

  // ----- reading one symbol -----

  function ReadName(s: Bytes): (r: Option<Name>)
    ensures r.Some? ==> r.value.Name?
  {
    var len := Uleb(s);
    if len.None? || |s| < len.value.1 + len.value.0 then None
    else Some(Name(s[..len.value.1], s[len.value.1..len.value.1 + len.value.0]))
  }

  function ReadTail(kind: Byte, flags: Bytes, index: Bytes, name: Name, s: Bytes): Option<Entry>
    requires IsUleb(flags)
  {
    var n := TailLength(s, kind, Uleb(flags).value.0);
    if n.None? then None else Some(Entry(kind, flags, index, name, s[..n.value]))
  }

  function ReadNamed(kind: Byte, flags: Bytes, index: Bytes, s: Bytes): Option<Entry>
    requires IsUleb(flags)
  {
    if HasName(kind, Uleb(flags).value.0) then
      var name := ReadName(s);
      if name.None? || |s| < |NameBytes(name.value)| then None
      else ReadTail(kind, flags, index, name.value, s[|NameBytes(name.value)|..])
    else ReadTail(kind, flags, index, NoName, s)
  }

  function ReadIndexed(kind: Byte, flags: Bytes, s: Bytes): Option<Entry>
    requires IsUleb(flags)
  {
    if kind == DATA then ReadNamed(kind, flags, [], s)
    else
      var index := Uleb(s);
      if index.None? then None else ReadNamed(kind, flags, s[..index.value.1], s[index.value.1..])
  }

  /** The symbol at the front of s. */
  function ReadEntry(s: Bytes): Option<Entry> {
    if s == [] || Uleb(s[1..]).None? then None
    else
      var k := Uleb(s[1..]).value.1;
      UlebPrefix(s[1..]);
      ReadIndexed(s[0], s[1..][..k], s[1..][k..])
  }

  // ----- symbols that are what they are read as -----

  predicate WellFlags(e: Entry) {
    IsUleb(e.flags) && (if e.kind == DATA then e.index == [] else IsUleb(e.index))
  }

  predicate Well(e: Entry) {
    && WellFlags(e)
    && var flags := Uleb(e.flags).value.0;
    && (HasName(e.kind, flags) <==> e.name.Name?)
    && (e.name.Name? ==> IsUleb(e.name.len) && Uleb(e.name.len).value.0 == |e.name.text|)
    && TailLength(e.tail, e.kind, flags) == Some(|e.tail|)
  }

  lemma {:induction false} NumbersLocal(s: Bytes, t: Bytes, n: nat)
    requires Numbers(s, n).Some? && Numbers(s, n).value <= |t| && t[..Numbers(s, n).value] == s[..Numbers(s, n).value]
    ensures Numbers(t, n) == Numbers(s, n)
  {
    hide Uleb;
    if n > 0 {
      var k, all := Uleb(s).value.1, Numbers(s, n).value;
      var more := Numbers(s[k..], n - 1).value;
      assert s[..k] == s[..all][..k] == t[..all][..k] == t[..k];
      UlebLocal(s, t);
      assert s[k..][..more] == s[..all][k..] == t[..all][k..] == t[k..][..more];
      NumbersLocal(s[k..], t[k..], n - 1);
    }
  }

  lemma TailLocal(s: Bytes, t: Bytes, kind: Byte, flags: nat)
    requires var n := TailLength(s, kind, flags); n.Some? && n.value <= |t| && t[..n.value] == s[..n.value]
    ensures TailLength(t, kind, flags) == TailLength(s, kind, flags)
  {
    var n := TailLength(s, kind, flags).value;
    if kind == DATA && Defined(flags) && !Common(flags) {
      NumbersLocal(s, t, 3);
    } else if kind == DATA && Common(flags) {
      assert s[..n - 1] == s[..n][..n - 1] == t[..n][..n - 1] == t[..n - 1];
      NumbersLocal(s, t, 1);
    }
  }

  lemma FrontOf(a: Bytes, b: Bytes)
    ensures (a + b)[..|a|] == a && (a + b)[|a|..] == b
  {
  }

  lemma ReadTailBack(e: Entry, rest: Bytes)
    requires Well(e)
    ensures ReadTail(e.kind, e.flags, e.index, e.name, e.tail + rest) == Some(e)
  {
    hide HasName, Defined, Common, TailLength, Uleb;
    FrontOf(e.tail, rest);
    assert e.tail[..|e.tail|] == e.tail;
    TailLocal(e.tail, e.tail + rest, e.kind, Uleb(e.flags).value.0);
  }

  lemma ReadNameBack(name: Name, rest: Bytes)
    requires name.Name? && IsUleb(name.len) && Uleb(name.len).value.0 == |name.text|
    ensures ReadName(NameBytes(name) + rest) == Some(name)
  {
    var s := NameBytes(name) + rest;
    assert s == name.len + (name.text + rest);
    UlebOf(name.len, name.text + rest);
    FrontOf(name.len, name.text + rest);
    FrontOf(name.text, rest);
    assert s[|name.len|..|name.len| + |name.text|] == s[|name.len|..][..|name.text|];
  }

  lemma ReadNamedBack(e: Entry, rest: Bytes)
    requires Well(e)
    ensures ReadNamed(e.kind, e.flags, e.index, NameBytes(e.name) + (e.tail + rest)) == Some(e)
  {
    hide ReadTail, TailLength, IsUleb, HasName, ReadName, Uleb;
    ReadTailBack(e, rest);
    if e.name.Name? {
      ReadNameBack(e.name, e.tail + rest);
      FrontOf(NameBytes(e.name), e.tail + rest);
    } else {
      assert NameBytes(e.name) + (e.tail + rest) == e.tail + rest;
    }
  }

  lemma ReadIndexedBack(e: Entry, rest: Bytes)
    requires Well(e)
    ensures ReadIndexed(e.kind, e.flags, e.index + (NameBytes(e.name) + (e.tail + rest))) == Some(e)
  {
    hide ReadNamed, TailLength, HasName, NameBytes;
    ReadNamedBack(e, rest);
    var s := NameBytes(e.name) + (e.tail + rest);
    if e.kind == DATA {
      assert e.index + s == s;
    } else {
      UlebOf(e.index, s);
      FrontOf(e.index, s);
    }
  }

  /** A well-formed symbol is read back from its bytes, whatever follows. */
  lemma ReadBack(e: Entry, rest: Bytes)
    requires Well(e)
    ensures ReadEntry(Raw(e) + rest) == Some(e)
  {
    hide ReadIndexed, TailLength, HasName, NameBytes;
    ReadIndexedBack(e, rest);
    var s := e.index + (NameBytes(e.name) + (e.tail + rest));
    assert (Raw(e) + rest)[1..] == e.flags + s;
    UlebOf(e.flags, s);
    FrontOf(e.flags, s);
  }

  // ----- what is read is well formed -----

  lemma ReadTailWell(kind: Byte, flags: Bytes, index: Bytes, name: Name, s: Bytes)
    requires IsUleb(flags) && ReadTail(kind, flags, index, name, s).Some?
    ensures var e := ReadTail(kind, flags, index, name, s).value;
      && e.tail <= s && TailLength(e.tail, kind, Uleb(flags).value.0) == Some(|e.tail|)
      && e == Entry(kind, flags, index, name, e.tail)
  {
    hide HasName, Defined, Common, TailLength, Uleb;
    var n := TailLength(s, kind, Uleb(flags).value.0).value;
    assert s[..n][..n] == s[..n];
    TailLocal(s, s[..n], kind, Uleb(flags).value.0);
  }

  lemma ReadNameWell(s: Bytes)
    requires ReadName(s).Some?
    ensures var name := ReadName(s).value;
      NameBytes(name) <= s && IsUleb(name.len) && Uleb(name.len).value.0 == |name.text|
  {
    UlebPrefix(s);
    var name := ReadName(s).value;
    assert NameBytes(name) == s[..|NameBytes(name)|];
  }

  lemma ReadNamedWell(kind: Byte, flags: Bytes, index: Bytes, s: Bytes)
    requires IsUleb(flags) && ReadNamed(kind, flags, index, s).Some?
    ensures var e := ReadNamed(kind, flags, index, s).value;
      && e.kind == kind && e.flags == flags && e.index == index && NameBytes(e.name) + e.tail <= s
      && (HasName(kind, Uleb(flags).value.0) <==> e.name.Name?)
      && (e.name.Name? ==> IsUleb(e.name.len) && Uleb(e.name.len).value.0 == |e.name.text|)
      && TailLength(e.tail, kind, Uleb(flags).value.0) == Some(|e.tail|)
  {
    hide ReadTail, TailLength, HasName, ReadName, Uleb, NameBytes;
    if HasName(kind, Uleb(flags).value.0) {
      ReadNameWell(s);
      var name := ReadName(s).value;
      ReadTailWell(kind, flags, index, name, s[|NameBytes(name)|..]);
    } else {
      ReadTailWell(kind, flags, index, NoName, s);
      EmptyName();
    }
  }

  lemma EmptyName()
    ensures NameBytes(NoName) == []
  {
  }

  lemma ReadIndexedWell(kind: Byte, flags: Bytes, s: Bytes)
    requires IsUleb(flags) && ReadIndexed(kind, flags, s).Some?
    ensures var e := ReadIndexed(kind, flags, s).value;
      Well(e) && e.kind == kind && e.flags == flags && e.index + (NameBytes(e.name) + e.tail) <= s
  {
    hide ReadNamed, TailLength, HasName, NameBytes, Uleb;
    if kind == DATA {
      ReadNamedWell(kind, flags, [], s);
      var e := ReadNamed(kind, flags, [], s).value;
      assert e.index + (NameBytes(e.name) + e.tail) == NameBytes(e.name) + e.tail;
    } else {
      UlebPrefix(s);
      var k := Uleb(s).value.1;
      ReadNamedWell(kind, flags, s[..k], s[k..]);
    }
  }

  /** What is read is well formed and is the front of s. */
  lemma ReadWell(s: Bytes)
    requires ReadEntry(s).Some?
    ensures Well(ReadEntry(s).value) && Raw(ReadEntry(s).value) <= s
  {
    hide ReadIndexed, Well, NameBytes, Uleb;
    UlebPrefix(s[1..]);
    var k := Uleb(s[1..]).value.1;
    ReadIndexedWell(s[0], s[1..][..k], s[1..][k..]);
    var e := ReadEntry(s).value;
    var body := e.index + (NameBytes(e.name) + e.tail);
    assert e.flags + body <= s[1..];
  }

  lemma ReadBeyond(s: Bytes, n: nat)
    requires n <= |s| && ReadEntry(s[..n]).Some?
    ensures ReadEntry(s) == ReadEntry(s[..n])
  {
    hide ReadEntry, Raw, Well;
    ReadWell(s[..n]);
    var e := ReadEntry(s[..n]).value;
    ReadBack(e, s[|Raw(e)|..]);
    assert Raw(e) + s[|Raw(e)|..] == s;
  }

  /** Within the first n bytes the same symbol is read, unless it overruns them. */
  lemma ReadWithin(s: Bytes, n: nat)
    requires n <= |s|
    ensures ReadEntry(s[..n]) == if ReadEntry(s).Some? && |Raw(ReadEntry(s).value)| <= n then ReadEntry(s) else None
  {
    hide ReadEntry, Raw, Well;
    if ReadEntry(s).Some? && |Raw(ReadEntry(s).value)| <= n {
      ReadWell(s);
      var e := ReadEntry(s).value;
      ReadBack(e, s[..n][|Raw(e)|..]);
      assert Raw(e) + s[..n][|Raw(e)|..] == s[..n];
    } else if ReadEntry(s[..n]).Some? {
      ReadWell(s[..n]);
      ReadBeyond(s, n);
    }
  }

  // ----- the whole table -----

  function AllRaw(es: seq<Entry>): Bytes {
    if es == [] then [] else Raw(es[0]) + AllRaw(es[1..])
  }

  predicate AllWell(es: seq<Entry>) {
    forall i :: 0 <= i < |es| ==> Well(es[i])
  }

  /** Exactly n symbols. */
  function ReadEntries(s: Bytes, n: nat): Option<seq<Entry>>
    decreases n
  {
    if n == 0 then if s == [] then Some([]) else None
    else
      var e := ReadEntry(s);
      if e.None? || |s| < |Raw(e.value)| then None
      else
        var rest := ReadEntries(s[|Raw(e.value)|..], n - 1);
        if rest.None? then None else Some([e.value] + rest.value)
  }

  /** A symbol table that fills s. */
  function ReadTable(s: Bytes): Option<seq<Entry>> {
    var n := Uleb(s);
    if n.None? then None else ReadEntries(s[n.value.1..], n.value.0)
  }

  function TableBytes(es: seq<Entry>): Bytes {
    Encode(|es|) + AllRaw(es)
  }

  lemma {:induction false} ReadEntriesBack(es: seq<Entry>)
    requires AllWell(es)
    ensures ReadEntries(AllRaw(es), |es|) == Some(es)
  {
    hide ReadEntry, Raw, Well;
    if es != [] {
      ReadBack(es[0], AllRaw(es[1..]));
      FrontOf(Raw(es[0]), AllRaw(es[1..]));
      ReadEntriesBack(es[1..]);
      assert es == [es[0]] + es[1..];
    }
  }

  /** A written table is read back. */
  lemma ReadTableBack(es: seq<Entry>)
    requires AllWell(es)
    ensures ReadTable(TableBytes(es)) == Some(es)
  {
    EncodeDecodes(|es|, AllRaw(es));
    FrontOf(Encode(|es|), AllRaw(es));
    ReadEntriesBack(es);
  }

  lemma {:induction false} ReadEntriesWell(s: Bytes, n: nat)
    requires ReadEntries(s, n).Some?
    ensures AllWell(ReadEntries(s, n).value) && |ReadEntries(s, n).value| == n
    ensures AllRaw(ReadEntries(s, n).value) == s
    decreases n
  {
    hide ReadEntry, Raw, Well;
    if n > 0 {
      ReadWell(s);
      var e := ReadEntry(s).value;
      ReadEntriesWell(s[|Raw(e)|..], n - 1);
      var rest := ReadEntries(s[|Raw(e)|..], n - 1).value;
      assert ([e] + rest)[1..] == rest;
    }
  }
}
