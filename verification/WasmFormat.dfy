/** The format and the renaming in the terms of the conventions: kinds and flag
    values as numbers, and one object file as bytes. */
module WasmFormat {
  import opened Arithmetic
  import opened Leb128
  import opened WasmRename
  import opened WasmSymbols
  import opened Wrappers

  // ----- numbers -----

  function Scale(j: nat): (r: nat)
    ensures r > 0
  {
    if j == 0 then 1 else 128 * Scale(j - 1)
  }

  /** A number ends with its first byte below 128; its bytes are its digits to
      the base 128, the lowest first. */
  lemma {:induction false} UlebDigits(s: Bytes, j: nat)
    requires Uleb(s).Some?
    ensures var (v, k) := Uleb(s).value;
      && s[k - 1] < 128 && v < Scale(k)
      && (j < k - 1 ==> s[j] >= 128)
      && v / Scale(j) % 128 == if j < k then s[j] % 128 else 0
  {
    if s[0] < 128 {
      OneGroup(s[0], j);
    } else {
      var (w, m) := Uleb(s[1..]).value;
      UlebDigits(s[1..], if j == 0 then 0 else j - 1);
      MoreGroups(s[0], w, m, j);
      hide Scale;
    }
  }

  lemma OneGroup(b: nat, j: nat)
    requires b < 128
    ensures b < Scale(1) && b / Scale(j) % 128 == if j < 1 then b % 128 else 0
  {
    assert Scale(1) == 128 * Scale(0);
    if j > 0 {
      assert b < Scale(j) == 128 * Scale(j - 1);
      BelowScale(b, Scale(j));
    }
  }

  lemma MoreGroups(b: nat, w: nat, m: nat, j: nat)
    requires 128 <= b < 256 && w < Scale(m)
    ensures var v := b - 128 + 128 * w;
      v < Scale(m + 1) && v / Scale(j) % 128 == if j == 0 then b % 128 else w / Scale(j - 1) % 128
  {
    if j > 0 {
      DigitBelow(b - 128, w, Scale(j - 1));
    }
  }

  lemma BelowScale(v: nat, scale: nat)
    requires v < scale
    ensures v / scale == 0
  {
  }

  lemma DigitBelow(low: nat, v: nat, scale: nat)
    requires low < 128 && scale > 0
    ensures (low + 128 * v) / (128 * scale) == v / scale
  {
    var q, r := v / scale, v % scale;
    assert low + 128 * v == q * (128 * scale) + (low + 128 * r);
    DivUnique(low + 128 * v, 128 * scale, q, low + 128 * r);
  }

  lemma {:induction false} UlebEnds(s: Bytes, k: nat)
    requires 0 < k <= |s| && s[k - 1] < 128
    ensures Uleb(s).Some?
  {
    if s[0] >= 128 {
      UlebEnds(s[1..], k - 1);
    }
  }

  // ----- symbols -----

  /** A length and as many bytes of text. */
  predicate NameShape(name: Name) {
    name.Name? && IsUleb(name.len) && Uleb(name.len).value.0 == |name.text|
  }

  predicate ThreeNumbers(s: Bytes) {
    exists a: nat, b: nat | 0 < a < b < |s| :: IsUleb(s[..a]) && IsUleb(s[a..b]) && IsUleb(s[b..])
  }

  /** A symbol as the conventions give it; 0x10 is undefined, 0x40 an explicit
      name, 3 in the lowest two bits common. */
  predicate Shape(e: Entry) {
    && IsUleb(e.flags)
    && var flags := Uleb(e.flags).value.0;
    var undefined, explicit, common := flags % 0x20 >= 0x10, flags % 0x80 >= 0x40, flags % 4 == 3;
    if e.kind == 3 then IsUleb(e.index) && e.name.NoName? && e.tail == []
    else if e.kind == 1 then
      && e.index == [] && NameShape(e.name)
      && if common then 1 < |e.tail| && IsUleb(e.tail[..|e.tail| - 1])
         else if undefined then e.tail == []
         else ThreeNumbers(e.tail)
    else
      && IsUleb(e.index) && e.tail == []
      && if undefined && !explicit then e.name.NoName? else NameShape(e.name)
  }

  lemma NumbersOne(s: Bytes)
    ensures Numbers(s, 1) == if Uleb(s).None? then None else Some(Uleb(s).value.1)
  {
    hide Uleb;
  }

  lemma NumbersSplit(s: Bytes)
    requires Numbers(s, 3) == Some(|s|)
    ensures ThreeNumbers(s)
  {
    hide Uleb;
    var a := Uleb(s).value.1;
    var t := s[a..];
    assert Numbers(t, 2) == Some(|s| - a);
    var c := Uleb(t).value.1;
    NumbersOne(t[c..]);
    assert Numbers(t[c..], 1) == Some(|s| - a - c);
    assert t[c..] == s[a + c..] && t[..c] == s[a..a + c];
    UlebPrefix(s);
    UlebPrefix(t);
    assert t[c..][..|t| - c] == t[c..];
  }

  lemma NumbersJoin(s: Bytes, a: nat, b: nat)
    requires 0 < a < b < |s| && IsUleb(s[..a]) && IsUleb(s[a..b]) && IsUleb(s[b..])
    ensures Numbers(s, 3) == Some(|s|)
  {
    hide Uleb;
    UlebOf(s[..a], s[a..]);
    assert s == s[..a] + s[a..];
    UlebOf(s[a..b], s[b..]);
    assert s[a..] == s[a..b] + s[b..];
    NumbersOne(s[b..]);
    var t := s[a..];
    assert t[b - a..] == s[b..];
    assert Numbers(t, 2) == Some(|s| - a);
  }

  lemma NumbersThree(s: Bytes)
    ensures Numbers(s, 3) == Some(|s|) <==> ThreeNumbers(s)
  {
    if Numbers(s, 3) == Some(|s|) {
      NumbersSplit(s);
    } else if ThreeNumbers(s) {
      var a: nat, b: nat :| 0 < a < b < |s| && IsUleb(s[..a]) && IsUleb(s[a..b]) && IsUleb(s[b..]);
      NumbersJoin(s, a, b);
    }
  }

  lemma CommonTail(s: Bytes)
    ensures (Numbers(s, 1).Some? && Numbers(s, 1).value + 1 == |s|) <==> (1 < |s| && IsUleb(s[..|s| - 1]))
  {
    NumbersOne(s);
    if 1 < |s| && IsUleb(s[..|s| - 1]) {
      UlebOf(s[..|s| - 1], s[|s| - 1..]);
      assert s == s[..|s| - 1] + s[|s| - 1..];
    } else if Uleb(s).Some? {
      UlebPrefix(s);
    }
  }

  lemma Bits(flags: nat)
    ensures Defined(flags) <==> flags % 0x20 < 0x10
    ensures Explicit(flags) <==> flags % 0x80 >= 0x40
    ensures Common(flags) <==> flags % 4 == 3
  {
    Bit(flags, 0x10, flags / 0x20, flags % 0x20);
    Bit(flags, 0x40, flags / 0x80, flags % 0x80);
  }

  lemma Bit(n: nat, place: nat, q: nat, r: nat)
    requires place > 0 && r < 2 * place && n == 2 * place * q + r
    ensures n / place % 2 == if r >= place then 1 else 0
  {
    var bit := if r >= place then 1 else 0;
    assert n == (2 * q + bit) * place + (r - bit * place);
    DivUnique(n, place, 2 * q + bit, r - bit * place);
  }

  /** The symbols that are read are those of the conventions. */
  lemma WellIsShape(e: Entry)
    ensures Well(e) <==> Shape(e)
  {
    hide Uleb, Numbers, ThreeNumbers, Defined, Common, Explicit;
    if IsUleb(e.flags) {
      Bits(Uleb(e.flags).value.0);
      NumbersThree(e.tail);
      CommonTail(e.tail);
    }
  }

  // ----- the renamed file -----

  lemma {:induction false} EncodeShortest(v: nat)
    ensures |Encode(v)| == 1 || Encode(v)[|Encode(v)| - 1] != 0
  {
    if v >= 128 {
      EncodeShortest(v / 128);
    }
  }

  /** A name with the prefix before it, its length written without padding. */
  predicate PrefixedBy(name: Name, prefix: Bytes, was: Name)
    requires was.Name?
  {
    && NameShape(name) && name.text == prefix + was.text
    && (|name.len| == 1 || name.len[|name.len| - 1] != 0)
  }

  lemma RenamedEntry(e: Entry, prefix: Bytes)
    requires Well(e)
    ensures var e', flags := Renamed(e, prefix), Uleb(e.flags).value.0;
      && e' == e.(name := e'.name)
      && if e.name.Name? && flags % 0x20 < 0x10 then PrefixedBy(e'.name, prefix, e.name) else e'.name == e.name
  {
    hide Uleb, HasName, TailLength, Encode, Defined;
    Bits(Uleb(e.flags).value.0);
    if e.name.Name? {
      EncodeIsUleb(|prefix + e.name.text|);
      EncodeShortest(|prefix + e.name.text|);
    }
  }

  /** What the renamed file's symbols are: as many, in the same order, the same
      but for the names of the defined ones. */
  lemma RenamedSymbols(buf: Bytes, prefix: Bytes, i: nat, k: nat)
    requires WellFormed(buf) && Rename(buf, prefix).Some? && i < |LinkingOf(buf).subs|
    ensures WellFormed(Rename(buf, prefix).value)
    ensures var l, l' := LinkingOf(buf), LinkingOf(Rename(buf, prefix).value);
      && l'.version == l.version && |l'.subs| == |l.subs|
      && (l.subs[i].Other? ==> l'.subs[i] == l.subs[i])
      && (l.subs[i].Table? ==> l'.subs[i].Table? && |l'.subs[i].symbols| == |l.subs[i].symbols|)
      && (l.subs[i].Table? && k < |l.subs[i].symbols| ==>
            var e, e' := l.subs[i].symbols[k], l'.subs[i].symbols[k];
            && Shape(e) && Shape(e') && e' == e.(name := e'.name)
            && if e.name.Name? && Uleb(e.flags).value.0 % 0x20 < 0x10 then PrefixedBy(e'.name, prefix, e.name)
               else e'.name == e.name)
  {
    hide Locate, ReadLinking, LinkingBytes, Uleb, Encode, Well, Shape, Renamed, PrefixedBy;
    RenameReadsBack(buf, prefix);
    var l := LinkingOf(buf);
    assert WellSub(l.subs[i]);
    if l.subs[i].Table? && k < |l.subs[i].symbols| {
      var e := l.subs[i].symbols[k];
      RenamedEntry(e, prefix);
      RenamedWell(e, prefix);
      WellIsShape(e);
      WellIsShape(Renamed(e, prefix));
    }
  }

  /** A file is renamed if and only if it has a symbol with a name that is not undefined. */
  lemma RenamedExactly(buf: Bytes, prefix: Bytes)
    requires WellFormed(buf)
    ensures Rename(buf, prefix).Some? <==>
      exists i: nat, k: nat | i < |LinkingOf(buf).subs| :: NamedAt(LinkingOf(buf).subs[i], k)
  {
    hide Locate, ReadLinking, LinkingBytes, Uleb, Encode, HasName, TailLength, Defined, Replaced;
    var subs := LinkingOf(buf).subs;
    assert WellSubs(subs);
    forall i: nat, k: nat | i < |subs|
      ensures NamedAt(subs[i], k) ==> HasRenamable(subs)
    {
      if NamedAt(subs[i], k) {
        NamedIs(subs[i], k);
        assert RenamableAt(subs[i].symbols, k);
        assert SubRenamable(subs[i]);
      }
    }
    if HasRenamable(subs) {
      var i :| 0 <= i < |subs| && SubRenamable(subs[i]);
      var k :| 0 <= k < |subs[i].symbols| && RenamableAt(subs[i].symbols, k);
      NamedIs(subs[i], k);
    }
  }

  lemma NamedIs(sub: Sub, k: nat)
    requires WellSub(sub) && sub.Table? && k < |sub.symbols|
    ensures NamedAt(sub, k) <==> RenamableAt(sub.symbols, k)
  {
    hide Uleb, HasName, TailLength, Defined;
    Bits(Uleb(sub.symbols[k].flags).value.0);
  }

  /** Symbol k has a name and is not undefined. */
  predicate NamedAt(sub: Sub, k: nat) {
    && sub.Table? && k < |sub.symbols| && IsUleb(sub.symbols[k].flags)
    && sub.symbols[k].name.Name? && Uleb(sub.symbols[k].flags).value.0 % 0x20 < 0x10
  }

  // ----- one file -----

  /** A symbol table: symbols of every shape, one number of three bytes. */
  const TABLE: Bytes :=
    [0x08] // so many symbols
    + [0x00, 0x00, 0x00, 0x01, 0x66] // a function
    + [0x00, 0x10, 0x01] // an imported function
    + [0x00, 0x50, 0x02, 0x01, 0x67] // an import with an explicit name
    + [0x01, 0x00, 0x01, 0x64, 0x00, 0x04, 0xe5, 0x8e, 0x26] // data
    + [0x01, 0x03, 0x01, 0x63, 0x08, 0x02] // common data
    + [0x01, 0x10, 0x01, 0x75] // undefined data
    + [0x03, 0x02, 0x04] // a section
    + [0x05, 0x00, 0x00, 0x01, 0x74] // a table

  /** The same symbols, the defined ones renamed to begin with "p". */
  const NEW_TABLE: Bytes :=
    [0x08] // so many symbols
    + [0x00, 0x00, 0x00, 0x02, 0x70, 0x66] // a function
    + [0x00, 0x10, 0x01] // an imported function
    + [0x00, 0x50, 0x02, 0x01, 0x67] // an import with an explicit name
    + [0x01, 0x00, 0x02, 0x70, 0x64, 0x00, 0x04, 0xe5, 0x8e, 0x26] // data
    + [0x01, 0x03, 0x02, 0x70, 0x63, 0x08, 0x02] // common data
    + [0x01, 0x10, 0x01, 0x75] // undefined data
    + [0x03, 0x02, 0x04] // a section
    + [0x05, 0x00, 0x00, 0x02, 0x70, 0x74] // a table

  /** An object file with the table in its linking section. */
  const FILE: Bytes :=
    [0x00, 0x61, 0x73, 0x6d, 0x01, 0x00, 0x00, 0x00] // magic and version
    + [0x01, 0x01, 0x00] // a section of types
    + [0x00, 0x37, 0x07, 0x6c, 0x69, 0x6e, 0x6b, 0x69, 0x6e, 0x67] // the custom section "linking"
    + [0x02] // version
    + [0x05, 0x01, 0x00] // a subsection of another kind
    + [0x08, 0x29] // the symbol table
    + TABLE
    + [0x0b, 0x01, 0x00] // a section of data

  /** The file with the new table: both sizes have grown by four. */
  const RENAMED: Bytes :=
    [0x00, 0x61, 0x73, 0x6d, 0x01, 0x00, 0x00, 0x00] // magic and version
    + [0x01, 0x01, 0x00] // a section of types
    + [0x00, 0x3b, 0x07, 0x6c, 0x69, 0x6e, 0x6b, 0x69, 0x6e, 0x67] // the custom section "linking"
    + [0x02] // version
    + [0x05, 0x01, 0x00] // a subsection of another kind
    + [0x08, 0x2d] // the symbol table
    + NEW_TABLE
    + [0x0b, 0x01, 0x00] // a section of data

  /** Its symbols, and those of the renamed file. */
  const SYMBOLS: seq<Entry> := [
    Entry(0, [0x00], [0x00], Name([1], [0x66]), []),
    Entry(0, [0x10], [0x01], NoName, []),
    Entry(0, [0x50], [0x02], Name([1], [0x67]), []),
    Entry(1, [0x00], [], Name([1], [0x64]), [0x00, 0x04, 0xe5, 0x8e, 0x26]),
    Entry(1, [0x03], [], Name([1], [0x63]), [0x08, 0x02]),
    Entry(1, [0x10], [], Name([1], [0x75]), []),
    Entry(3, [0x02], [0x04], NoName, []),
    Entry(5, [0x00], [0x00], Name([1], [0x74]), [])
  ]

  const NEW_SYMBOLS: seq<Entry> := [
    Entry(0, [0x00], [0x00], Name([2], [0x70, 0x66]), []),
    Entry(0, [0x10], [0x01], NoName, []),
    Entry(0, [0x50], [0x02], Name([1], [0x67]), []),
    Entry(1, [0x00], [], Name([2], [0x70, 0x64]), [0x00, 0x04, 0xe5, 0x8e, 0x26]),
    Entry(1, [0x03], [], Name([2], [0x70, 0x63]), [0x08, 0x02]),
    Entry(1, [0x10], [], Name([1], [0x75]), []),
    Entry(3, [0x02], [0x04], NoName, []),
    Entry(5, [0x00], [0x00], Name([2], [0x70, 0x74]), [])
  ]

  lemma ExampleNumbers()
    ensures forall b: Byte {:trigger Uleb([b])} | b < 128 :: Uleb([b]) == Some((b as nat, 1))
    ensures Uleb([0xe5, 0x8e, 0x26]) == Some((624485, 3))
    ensures Encode(2) == [2]
  {
    assert [0xe5, 0x8e, 0x26][1..] == [0x8e, 0x26] && [0x8e, 0x26][1..] == [0x26];
    assert Uleb([0x26]) == Some((0x26, 1));
    assert Uleb([0x8e, 0x26]) == Some((0x8e - 128 + 128 * 0x26, 2));
  }

  lemma ExampleEntry0()
    ensures var e := SYMBOLS[0]; Well(e) && Renamed(e, [0x70]) == NEW_SYMBOLS[0]
    ensures Raw(SYMBOLS[0]) == [0x00, 0x00, 0x00, 0x01, 0x66]
    ensures Raw(NEW_SYMBOLS[0]) == [0x00, 0x00, 0x00, 0x02, 0x70, 0x66]
  {
    hide Uleb, Well, ThreeNumbers;
    var e := SYMBOLS[0];
    ExampleNumbers();
    assert [0x70] + e.name.text == NEW_SYMBOLS[0].name.text;
    WellIsShape(e);
  }

  lemma ExampleEntry1()
    ensures var e := SYMBOLS[1]; Well(e) && Renamed(e, [0x70]) == NEW_SYMBOLS[1]
    ensures Raw(SYMBOLS[1]) == [0x00, 0x10, 0x01]
    ensures Raw(NEW_SYMBOLS[1]) == [0x00, 0x10, 0x01]
  {
    hide Uleb, Well, ThreeNumbers;
    var e := SYMBOLS[1];
    ExampleNumbers();
    WellIsShape(e);
  }

  lemma ExampleEntry2()
    ensures var e := SYMBOLS[2]; Well(e) && Renamed(e, [0x70]) == NEW_SYMBOLS[2]
    ensures Raw(SYMBOLS[2]) == [0x00, 0x50, 0x02, 0x01, 0x67]
    ensures Raw(NEW_SYMBOLS[2]) == [0x00, 0x50, 0x02, 0x01, 0x67]
  {
    hide Uleb, Well, ThreeNumbers;
    var e := SYMBOLS[2];
    ExampleNumbers();
    WellIsShape(e);
  }

  lemma ExampleData()
    ensures ThreeNumbers(SYMBOLS[3].tail)
  {
    hide Uleb;
    ExampleNumbers();
    var s := SYMBOLS[3].tail;
    assert s[..1] == [0] && s[1..2] == [4] && s[2..] == [0xe5, 0x8e, 0x26];
    assert IsUleb(s[..1]) && IsUleb(s[1..2]) && IsUleb(s[2..]);
  }

  lemma ExampleEntry3()
    ensures var e := SYMBOLS[3]; Well(e) && Renamed(e, [0x70]) == NEW_SYMBOLS[3]
    ensures Raw(SYMBOLS[3]) == [0x01, 0x00, 0x01, 0x64, 0x00, 0x04, 0xe5, 0x8e, 0x26]
    ensures Raw(NEW_SYMBOLS[3]) == [0x01, 0x00, 0x02, 0x70, 0x64, 0x00, 0x04, 0xe5, 0x8e, 0x26]
  {
    hide Uleb, Well, ThreeNumbers;
    var e := SYMBOLS[3];
    ExampleNumbers();
    ExampleData();
    assert [0x70] + e.name.text == NEW_SYMBOLS[3].name.text;
    WellIsShape(e);
  }

  lemma ExampleEntry4()
    ensures var e := SYMBOLS[4]; Well(e) && Renamed(e, [0x70]) == NEW_SYMBOLS[4]
    ensures Raw(SYMBOLS[4]) == [0x01, 0x03, 0x01, 0x63, 0x08, 0x02]
    ensures Raw(NEW_SYMBOLS[4]) == [0x01, 0x03, 0x02, 0x70, 0x63, 0x08, 0x02]
  {
    hide Uleb, Well, ThreeNumbers;
    var e := SYMBOLS[4];
    ExampleNumbers();
    assert [0x70] + e.name.text == NEW_SYMBOLS[4].name.text;
    assert e.tail[..1] == [8];
    WellIsShape(e);
  }

  lemma ExampleEntry5()
    ensures var e := SYMBOLS[5]; Well(e) && Renamed(e, [0x70]) == NEW_SYMBOLS[5]
    ensures Raw(SYMBOLS[5]) == [0x01, 0x10, 0x01, 0x75]
    ensures Raw(NEW_SYMBOLS[5]) == [0x01, 0x10, 0x01, 0x75]
  {
    hide Uleb, Well, ThreeNumbers;
    var e := SYMBOLS[5];
    ExampleNumbers();
    WellIsShape(e);
  }

  lemma ExampleEntry6()
    ensures var e := SYMBOLS[6]; Well(e) && Renamed(e, [0x70]) == NEW_SYMBOLS[6]
    ensures Raw(SYMBOLS[6]) == [0x03, 0x02, 0x04]
    ensures Raw(NEW_SYMBOLS[6]) == [0x03, 0x02, 0x04]
  {
    hide Uleb, Well, ThreeNumbers;
    var e := SYMBOLS[6];
    ExampleNumbers();
    WellIsShape(e);
  }

  lemma ExampleEntry7()
    ensures var e := SYMBOLS[7]; Well(e) && Renamed(e, [0x70]) == NEW_SYMBOLS[7]
    ensures Raw(SYMBOLS[7]) == [0x05, 0x00, 0x00, 0x01, 0x74]
    ensures Raw(NEW_SYMBOLS[7]) == [0x05, 0x00, 0x00, 0x02, 0x70, 0x74]
  {
    hide Uleb, Well, ThreeNumbers;
    var e := SYMBOLS[7];
    ExampleNumbers();
    assert [0x70] + e.name.text == NEW_SYMBOLS[7].name.text;
    WellIsShape(e);
  }

  lemma AllRawFrom(es: seq<Entry>, i: nat)
    requires i < |es|
    ensures AllRaw(es[i..]) == Raw(es[i]) + AllRaw(es[i + 1..])
  {
    hide Raw;
    assert es[i..][1..] == es[i + 1..];
  }

  lemma EightRaw(es: seq<Entry>)
    requires |es| == 8
    ensures TableBytes(es) == [8] + Raw(es[0]) + Raw(es[1]) + Raw(es[2]) + Raw(es[3]) + Raw(es[4]) + Raw(es[5])
                            + Raw(es[6]) + Raw(es[7])
  {
    hide Raw;
    AllRawFrom(es, 0);
    AllRawFrom(es, 1);
    AllRawFrom(es, 2);
    AllRawFrom(es, 3);
    AllRawFrom(es, 4);
    AllRawFrom(es, 5);
    AllRawFrom(es, 6);
    AllRawFrom(es, 7);
    assert es[0..] == es && Raw(es[7]) + [] == Raw(es[7]);
    Regroup([8], Raw(es[0]), Raw(es[1]), Raw(es[2]), AllRaw(es[3..]));
    Regroup([8] + Raw(es[0]) + Raw(es[1]) + Raw(es[2]), Raw(es[3]), Raw(es[4]), Raw(es[5]), AllRaw(es[6..]));
    assert Encode(8) == [8];
    assert [8] + Raw(es[0]) + Raw(es[1]) + Raw(es[2]) + Raw(es[3]) + Raw(es[4]) + Raw(es[5]) + (Raw(es[6]) + Raw(es[7]))
        == [8] + Raw(es[0]) + Raw(es[1]) + Raw(es[2]) + Raw(es[3]) + Raw(es[4]) + Raw(es[5]) + Raw(es[6]) + Raw(es[7]);
  }

  lemma Regroup(a: Bytes, b: Bytes, c: Bytes, d: Bytes, e: Bytes)
    ensures a + (b + (c + (d + e))) == a + b + c + d + e
  {
  }

  lemma ExampleRaw()
    ensures TableBytes(SYMBOLS) == TABLE && TableBytes(NEW_SYMBOLS) == NEW_TABLE
  {
    hide TableBytes, Raw, Well, Renamed;
    EightRaw(SYMBOLS);
    EightRaw(NEW_SYMBOLS);
    ExampleEntry0();
    ExampleEntry1();
    ExampleEntry2();
    ExampleEntry3();
    ExampleEntry4();
    ExampleEntry5();
    ExampleEntry6();
    ExampleEntry7();
  }

  lemma ExampleTable()
    ensures AllWell(SYMBOLS) && RenamedTable(SYMBOLS, [0x70]) == NEW_SYMBOLS
  {
    hide Well, Renamed, Raw;
    ExampleEntry0();
    ExampleEntry1();
    ExampleEntry2();
    ExampleEntry3();
    ExampleEntry4();
    ExampleEntry5();
    ExampleEntry6();
    ExampleEntry7();
  }
  /** The file of the example around a table t, with the sizes n and m of the
      section and of the table. */
  function Around(t: Bytes, n: Byte, m: Byte): Bytes {
    [0x00, 0x61, 0x73, 0x6d, 0x01, 0x00, 0x00, 0x00]
    + [0x01, 0x01, 0x00]
    + [0x00, n, 0x07, 0x6c, 0x69, 0x6e, 0x6b, 0x69, 0x6e, 0x67]
    + [0x02]
    + [0x05, 0x01, 0x00]
    + [0x08, m]
    + t
    + [0x0b, 0x01, 0x00]
  }

  /** Its linking section. */
  function Subs(es: seq<Entry>): Linking {
    Linking(2, [Other(5, [0]), Table(es)])
  }

  lemma ExamplePayload(es: seq<Entry>)
    requires |TableBytes(es)| < 100
    ensures LinkingBytes(Subs(es)) == [2] + ([5, 1, 0] + ([8, |TableBytes(es)|] + TableBytes(es)))
  {
    hide TableBytes;
    var subs := Subs(es).subs;
    assert subs[1..] == [subs[1]] && subs[1..][1..] == [];
    assert SubBytes(subs[1]) == [8, |TableBytes(es)|] + TableBytes(es);
    assert SubBytes(subs[0]) == [5, 1, 0];
    assert SubsBytes(subs[1..]) == SubBytes(subs[1]) + [];
  }

  lemma ExampleSection(t: Bytes, rest: Bytes)
    requires |t| < 100
    ensures var payload := [2] + ([5, 1, 0] + ([8, |t|] + t));
      Section(payload) == [0, |t| + 14, 7, 0x6c, 0x69, 0x6e, 0x6b, 0x69, 0x6e, 0x67] + payload
  {
    LinkingLength();
  }

  lemma AroundParts(t: Bytes)
    requires |t| < 100
    ensures var buf, payload := Around(t, |t| + 14, |t|), [2] + ([5, 1, 0] + ([8, |t|] + t));
      && |buf| > 11 && buf[..4] == MAGIC && buf[11..] == Section(payload) + [0x0b, 1, 0]
      && buf[..11] == [0, 0x61, 0x73, 0x6d, 1, 0, 0, 0, 1, 1, 0]
      && buf == buf[..11] + (Section(payload) + [0x0b, 1, 0])
  {
    ExampleSection(t, []);
    hide Section;
    assert MAGIC == [0x00, 0x61, 0x73, 0x6d];
    var buf, payload := Around(t, |t| + 14, |t|), [2] + ([5, 1, 0] + ([8, |t|] + t));
    assert buf == [0, 0x61, 0x73, 0x6d, 1, 0, 0, 0, 1, 1, 0] + (Section(payload) + [0x0b, 1, 0]);
  }

  lemma TypesSkipped(buf: Bytes)
    requires |buf| > 11 && buf[..11] == [0, 0x61, 0x73, 0x6d, 1, 0, 0, 0, 1, 1, 0]
    ensures Skips(buf, 8, 1, 10)
  {
    assert buf[8] == buf[..11][8] && buf[9] == buf[..11][9];
    assert Uleb(buf[9..]) == Some((1, 1));
  }

  lemma AroundLocated(buf: Bytes, payload: Bytes)
    requires |buf| > 11 && buf[..11] == [0, 0x61, 0x73, 0x6d, 1, 0, 0, 0, 1, 1, 0]
    requires buf[11..] == Section(payload) + [0x0b, 1, 0]
    ensures Locate(buf, 8) == Some(NewPlace(11, payload))
    ensures buf[NewPlace(11, payload).payload..NewPlace(11, payload).end] == payload
    ensures buf[NewPlace(11, payload).end..] == [0x0b, 1, 0]
  {
    hide Section, Locate, NewPlace, Skips;
    LocateSection(buf, 11, payload, [0x0b, 1, 0]);
    TypesSkipped(buf);
    LocateSkips(buf, 8, 1, 10);
    SectionLength(11, payload);
    FrontOf(Section(payload), [0x0b, 1, 0]);
    assert buf[NewPlace(11, payload).end..] == buf[11..][|Section(payload)|..];
  }

  lemma ExampleRead(es: seq<Entry>, t: Bytes, buf: Bytes)
    requires AllWell(es) && t == TableBytes(es) && |t| < 100 && buf == Around(t, |t| + 14, |t|)
    ensures WellFormed(buf) && LinkingOf(buf) == Subs(es) && PlaceOf(buf).id == 11
    ensures buf[..11] == [0, 0x61, 0x73, 0x6d, 1, 0, 0, 0, 1, 1, 0] && buf[PlaceOf(buf).end..] == [0x0b, 1, 0]
    ensures buf == buf[..11] + (Section(LinkingBytes(Subs(es))) + [0x0b, 1, 0])
  {
    hide AllWell, TableBytes, Section, Locate, Around, LinkingBytes, ReadLinking;
    var payload := LinkingBytes(Subs(es));
    ExamplePayload(es);
    AroundParts(t);
    AroundLocated(buf, payload);
    ReadLinkingBack(Subs(es));
  }

  /** The example is read as the symbols it should have, and only the names of
      the defined ones change, and the sizes. */
  lemma ExampleRenamed()
    ensures WellFormed(FILE) && LinkingOf(FILE) == Linking(2, [Other(5, [0]), Table(SYMBOLS)])
    ensures Rename(FILE, [0x70]) == Some(RENAMED)
  {
    ExampleFile();
    ExampleRaw();
    ExampleTable();
    hide AllWell, TableBytes, Section, Locate, Around, LinkingBytes, ReadLinking, RenamedTable;
    hide SYMBOLS, NEW_SYMBOLS, TABLE, NEW_TABLE, FILE, RENAMED;
    ExampleRead(SYMBOLS, TABLE, FILE);
    RenamedTableWell(SYMBOLS, [0x70]);
    ExampleRead(NEW_SYMBOLS, NEW_TABLE, RENAMED);
    ExampleHas();
    assert RenamedLinking(Subs(SYMBOLS), [0x70]).subs == Subs(NEW_SYMBOLS).subs;
  }

  lemma ExampleFile()
    ensures FILE == Around(TABLE, 55, 41) && |TABLE| == 41
    ensures RENAMED == Around(NEW_TABLE, 59, 45) && |NEW_TABLE| == 45
  {
  }

  lemma ExampleHas()
    ensures HasRenamable(Subs(SYMBOLS).subs)
  {
    hide Well, Renamed, TailLength;
    ExampleEntry0();
    ExampleNumbers();
    assert RenamableAt(SYMBOLS, 0);
    assert SubRenamable(Subs(SYMBOLS).subs[1]);
  }
}
