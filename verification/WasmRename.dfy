/** Renaming every defined symbol of a relocatable WebAssembly object: the
    linking section, its place in the file, and what a renamed file is read as. */
module WasmRename {
  import opened Leb128
  import opened WasmSymbols
  import opened Wrappers

  const SYMTAB: nat := 8
  const MAGIC: Bytes := [0, 0x61, 0x73, 0x6d] // "\0asm"
  const LINKING: Bytes := [0x6c, 0x69, 0x6e, 0x6b, 0x69, 0x6e, 0x67] // "linking"

  // ----- renaming symbols -----

  /** A symbol that the tool renames: defined, and with a name of its own. */
  predicate Renamable(e: Entry)
    requires Well(e)
  {
    e.name.Name? && Defined(Uleb(e.flags).value.0)
  }

  function Prefixed(name: Name, prefix: Bytes): Name
    requires name.Name?
  {
    Name(Encode(|prefix + name.text|), prefix + name.text)
  }

  function Renamed(e: Entry, prefix: Bytes): Entry
    requires Well(e)
  {
    if Renamable(e) then e.(name := Prefixed(e.name, prefix)) else e
  }

  lemma RenamedWell(e: Entry, prefix: Bytes)
    requires Well(e)
    ensures Well(Renamed(e, prefix)) && (Renamable(Renamed(e, prefix)) <==> Renamable(e))
  {
    hide Uleb, HasName, TailLength, Encode;
    if Renamable(e) {
      EncodeIsUleb(|prefix + e.name.text|);
    }
  }

  lemma RenamedTwice(e: Entry, p: Bytes, q: Bytes)
    requires Well(e)
    ensures Well(Renamed(e, p)) && Renamed(Renamed(e, p), q) == Renamed(e, q + p)
  {
    hide Uleb, HasName, TailLength, Encode;
    RenamedWell(e, p);
    if Renamable(e) {
      assert q + (p + e.name.text) == (q + p) + e.name.text;
    }
  }

  function RenamedTable(es: seq<Entry>, prefix: Bytes): (r: seq<Entry>)
    requires AllWell(es)
    ensures |r| == |es| && forall i :: 0 <= i < |es| ==> r[i] == Renamed(es[i], prefix)
  {
    seq(|es|, i requires 0 <= i < |es| => Renamed(es[i], prefix))
  }

  lemma RenamedTableWell(es: seq<Entry>, prefix: Bytes)
    requires AllWell(es)
    ensures AllWell(RenamedTable(es, prefix))
  {
    hide Well, Renamed;
    forall i | 0 <= i < |es| ensures Well(RenamedTable(es, prefix)[i]) {
      RenamedWell(es[i], prefix);
    }
  }

  lemma RenamedTableTwice(es: seq<Entry>, p: Bytes, q: Bytes)
    requires AllWell(es) && AllWell(RenamedTable(es, p))
    ensures RenamedTable(RenamedTable(es, p), q) == RenamedTable(es, q + p)
  {
    hide Well, Renamed;
    forall i | 0 <= i < |es| ensures RenamedTable(RenamedTable(es, p), q)[i] == RenamedTable(es, q + p)[i] {
      RenamedTwice(es[i], p, q);
    }
  }

  // ----- the linking section -----

  datatype Sub = Table(symbols: seq<Entry>) | Other(tag: nat, payload: Bytes)

  datatype Linking = Linking(version: nat, subs: seq<Sub>)

  predicate WellSub(sub: Sub) {
    match sub
    case Table(es) => AllWell(es)
    case Other(tag, _) => tag != SYMTAB
  }

  predicate WellSubs(subs: seq<Sub>) {
    forall i :: 0 <= i < |subs| ==> WellSub(subs[i])
  }

  function ReadSub(tag: nat, payload: Bytes): Option<Sub> {
    if tag == SYMTAB then
      var es := ReadTable(payload);
      if es.None? then None else Some(Table(es.value))
    else Some(Other(tag, payload))
  }

  /** Tag and size of the subsection at the front of s, and where its payload starts. */
  function Header(s: Bytes): (r: Option<(nat, nat, nat)>)
    ensures r.Some? ==> 0 < r.value.2 <= |s|
  {
    var tag := Uleb(s);
    if tag.None? then None
    else
      var size := Uleb(s[tag.value.1..]);
      if size.None? then None else Some((tag.value.0, size.value.0, tag.value.1 + size.value.1))
  }

  /** Subsections that fill s. */
  function ReadSubs(s: Bytes): Option<seq<Sub>>
    decreases |s|
  {
    if s == [] then Some([])
    else
      var h := Header(s);
      if h.None? || |s| < h.value.2 + h.value.1 then None
      else
        var (tag, size, at) := h.value;
        var sub := ReadSub(tag, s[at..][..size]);
        var rest := ReadSubs(s[at..][size..]);
        if sub.None? || rest.None? then None else Some([sub.value] + rest.value)
  }

  /** The payload of the linking section. */
  function ReadLinking(s: Bytes): Option<Linking> {
    var version := Uleb(s);
    if version.None? then None
    else
      var subs := ReadSubs(s[version.value.1..]);
      if subs.None? then None else Some(Linking(version.value.0, subs.value))
  }

  function Tag(sub: Sub): nat {
    if sub.Table? then SYMTAB else sub.tag
  }

  function Payload(sub: Sub): Bytes {
    if sub.Table? then TableBytes(sub.symbols) else sub.payload
  }

  function SubBytes(sub: Sub): Bytes {
    Encode(Tag(sub)) + (Encode(|Payload(sub)|) + Payload(sub))
  }

  function SubsBytes(subs: seq<Sub>): Bytes {
    if subs == [] then [] else SubBytes(subs[0]) + SubsBytes(subs[1..])
  }

  function LinkingBytes(l: Linking): Bytes {
    Encode(l.version) + SubsBytes(l.subs)
  }

  lemma ReadSubBack(sub: Sub)
    requires WellSub(sub)
    ensures ReadSub(Tag(sub), Payload(sub)) == Some(sub)
  {
    hide ReadTable, TableBytes, AllWell;
    if sub.Table? {
      ReadTableBack(sub.symbols);
    }
  }

  lemma HeaderBack(sub: Sub, rest: Bytes)
    ensures var s := SubBytes(sub) + rest; var k := |Encode(Tag(sub))| + |Encode(|Payload(sub)|)|;
      Header(s) == Some((Tag(sub), |Payload(sub)|, k)) && k <= |s| && s[k..] == Payload(sub) + rest
  {
    hide Payload, Tag, Uleb, Encode;
    var a, b, c := Encode(Tag(sub)), Encode(|Payload(sub)|), Payload(sub);
    var s := SubBytes(sub) + rest;
    assert s == a + (b + (c + rest));
    EncodeDecodes(Tag(sub), b + (c + rest));
    FrontOf(a, b + (c + rest));
    EncodeDecodes(|c|, c + rest);
    FrontOf(b, c + rest);
    assert s[|a| + |b|..] == s[|a|..][|b|..];
  }

  lemma {:induction false} ReadSubsBack(subs: seq<Sub>)
    requires WellSubs(subs)
    ensures ReadSubs(SubsBytes(subs)) == Some(subs)
  {
    if subs != [] {
      ReadSubBack(subs[0]);
      HeaderBack(subs[0], SubsBytes(subs[1..]));
      FrontOf(Payload(subs[0]), SubsBytes(subs[1..]));
      ReadSubsBack(subs[1..]);
      hide Header, ReadSub, Payload, Tag, SubBytes, WellSub;
      assert subs == [subs[0]] + subs[1..];
    }
  }

  predicate WellLinking(l: Linking) {
    WellSubs(l.subs)
  }

  /** A written linking payload is read back. */
  lemma ReadLinkingBack(l: Linking)
    requires WellLinking(l)
    ensures ReadLinking(LinkingBytes(l)) == Some(l)
  {
    hide ReadSubs, SubsBytes, WellSubs, Uleb, Encode;
    EncodeDecodes(l.version, SubsBytes(l.subs));
    FrontOf(Encode(l.version), SubsBytes(l.subs));
    ReadSubsBack(l.subs);
  }

  lemma {:induction false} ReadSubsWell(s: Bytes)
    requires ReadSubs(s).Some?
    ensures WellSubs(ReadSubs(s).value)
    decreases |s|
  {
    if s != [] {
      var (tag, size, at) := Header(s).value;
      ReadSubsWell(s[at..][size..]);
      ReadSubWell(tag, s[at..][..size]);
    }
  }

  lemma ReadSubWell(tag: nat, payload: Bytes)
    requires ReadSub(tag, payload).Some?
    ensures WellSub(ReadSub(tag, payload).value)
  {
    hide ReadEntries;
    if tag == SYMTAB {
      ReadEntriesWell(payload[Uleb(payload).value.1..], Uleb(payload).value.0);
    }
  }

  function RenamedSub(sub: Sub, prefix: Bytes): Sub
    requires WellSub(sub)
  {
    if sub.Table? then Table(RenamedTable(sub.symbols, prefix)) else sub
  }

  function RenamedSubs(subs: seq<Sub>, prefix: Bytes): (r: seq<Sub>)
    requires WellSubs(subs)
    ensures |r| == |subs| && forall i :: 0 <= i < |subs| ==> r[i] == RenamedSub(subs[i], prefix)
  {
    seq(|subs|, i requires 0 <= i < |subs| => RenamedSub(subs[i], prefix))
  }

  function RenamedLinking(l: Linking, prefix: Bytes): Linking
    requires WellLinking(l)
  {
    l.(subs := RenamedSubs(l.subs, prefix))
  }

  lemma RenamedLinkingWell(l: Linking, prefix: Bytes)
    requires WellLinking(l)
    ensures WellLinking(RenamedLinking(l, prefix))
  {
    hide AllWell, RenamedTable;
    forall i | 0 <= i < |l.subs| ensures WellSub(RenamedSubs(l.subs, prefix)[i]) {
      if l.subs[i].Table? {
        RenamedTableWell(l.subs[i].symbols, prefix);
      }
    }
  }

  lemma RenamedLinkingTwice(l: Linking, p: Bytes, q: Bytes)
    requires WellLinking(l)
    ensures WellLinking(RenamedLinking(l, p)) && RenamedLinking(RenamedLinking(l, p), q) == RenamedLinking(l, q + p)
  {
    hide AllWell, RenamedTable;
    RenamedLinkingWell(l, p);
    var once := RenamedSubs(l.subs, p);
    forall i | 0 <= i < |l.subs| ensures RenamedSubs(once, q)[i] == RenamedSubs(l.subs, q + p)[i] {
      if l.subs[i].Table? {
        RenamedTableTwice(l.subs[i].symbols, p, q);
      }
    }
    assert RenamedSubs(once, q) == RenamedSubs(l.subs, q + p);
  }

  predicate RenamableAt(es: seq<Entry>, k: nat)
    requires k < |es|
  {
    Well(es[k]) && Renamable(es[k])
  }

  predicate TableRenamable(es: seq<Entry>) {
    exists k :: 0 <= k < |es| && RenamableAt(es, k)
  }

  predicate SubRenamable(sub: Sub) {
    sub.Table? && TableRenamable(sub.symbols)
  }

  /** Some symbol is renamed. */
  predicate HasRenamable(subs: seq<Sub>) {
    exists i :: 0 <= i < |subs| && SubRenamable(subs[i])
  }

  lemma RenamedHasRenamable(subs: seq<Sub>, prefix: Bytes)
    requires WellSubs(subs) && HasRenamable(subs)
    ensures HasRenamable(RenamedSubs(subs, prefix))
  {
    hide Well, Renamed, Renamable;
    var i :| 0 <= i < |subs| && SubRenamable(subs[i]);
    var k :| 0 <= k < |subs[i].symbols| && RenamableAt(subs[i].symbols, k);
    assert WellSub(subs[i]);
    RenamedWell(subs[i].symbols[k], prefix);
    assert RenamableAt(RenamedSubs(subs, prefix)[i].symbols, k);
    assert SubRenamable(RenamedSubs(subs, prefix)[i]);
  }

  // ----- the place of the linking section -----

  /** Offsets of the section id, the section name, the payload and the end. */
  datatype Place = Place(id: nat, name: nat, payload: nat, end: nat)

  /** The name of a custom section with the given content, and the offset of
      the name; None if the name overruns the section. */
  function NameOf(content: Bytes): (r: Option<(Bytes, nat)>)
    ensures r.Some? ==> 0 < r.value.1 && r.value.1 + |r.value.0| <= |content|
  {
    var n := Uleb(content);
    if n.None? || n.value.1 + n.value.0 > |content| then None
    else Some((content[n.value.1..n.value.1 + n.value.0], n.value.1))
  }

  /** Size and offset of the content of the section at off, if it is all there. */
  function SectionAt(buf: Bytes, off: nat): (r: Option<(nat, nat)>)
    ensures r.Some? ==> off < r.value.1 && r.value.1 + r.value.0 <= |buf|
  {
    if off >= |buf| then None
    else
      var size := Uleb(buf[off + 1..]);
      if size.None? || off + 1 + size.value.1 + size.value.0 > |buf| then None
      else Some((size.value.0, off + 1 + size.value.1))
  }

  /** The linking section from the section boundary `off` on, in a file whose
      sections lie inside it, and custom section names inside their sections. */
  function Locate(buf: Bytes, off: nat): (r: Option<Place>)
    ensures r.Some? ==> off <= r.value.id < r.value.name <= r.value.payload <= r.value.end <= |buf|
    decreases |buf| - off
  {
    var at := SectionAt(buf, off);
    if at.None? then None
    else
      var (size, body) := at.value;
      if buf[off] != 0 then Locate(buf, body + size)
      else
        var name := NameOf(buf[body..][..size]);
        if name.None? then None
        else if name.value.0 == LINKING then
          Some(Place(off, body + name.value.1, body + name.value.1 + |LINKING|, body + size))
        else Locate(buf, body + size)
  }

  predicate WellFormed(buf: Bytes) {
    && |buf| >= 4 && buf[..4] == MAGIC
    && var place := Locate(buf, 8);
    && place.Some? && ReadLinking(buf[place.value.payload..place.value.end]).Some?
  }

  function PlaceOf(buf: Bytes): Place
    requires WellFormed(buf)
  {
    Locate(buf, 8).value
  }

  /** The linking section of a well-formed file. */
  function LinkingOf(buf: Bytes): (l: Linking)
    requires WellFormed(buf)
    ensures WellLinking(l)
  {
    var l := ReadLinking(buf[PlaceOf(buf).payload..PlaceOf(buf).end]).value;
    var payload := buf[PlaceOf(buf).payload..PlaceOf(buf).end];
    ReadSubsWell(payload[Uleb(payload).value.1..]);
    l
  }

  /** The body and the bytes of a linking section. */
  function Body(payload: Bytes): Bytes {
    Encode(|LINKING|) + (LINKING + payload)
  }

  function Section(payload: Bytes): Bytes {
    [0] + (Encode(|Body(payload)|) + Body(payload))
  }

  /** The file with its linking payload replaced. */
  function Replaced(buf: Bytes, place: Place, payload: Bytes): Bytes
    requires place.id <= place.end <= |buf|
  {
    buf[..place.id] + (Section(payload) + buf[place.end..])
  }

  // ----- the renamed file is found and read again -----

  function NewPlace(id: nat, payload: Bytes): Place {
    var body := id + 1 + |Encode(|Body(payload)|)|;
    Place(id, body + 1, body + 8, body + 8 + |payload|)
  }

  lemma LinkingLength()
    ensures Encode(|LINKING|) == [7] && |LINKING| == 7
  {
  }

  lemma SliceOfFront(s: Bytes, a: nat, b: nat, c: nat)
    requires a <= b <= c <= |s|
    ensures s[..c][a..b] == s[a..b]
  {
  }

  lemma SliceOfRest(s: Bytes, a: nat, b: nat, c: nat)
    requires a <= |s| && b <= c <= |s| - a
    ensures s[a..][b..c] == s[a + b..a + c] && s[a..][b..] == s[a + b..]
  {
  }

  /** A section written at `id` is found there. */
  lemma LocateSection(buf: Bytes, id: nat, payload: Bytes, rest: Bytes)
    requires id <= |buf| && buf[id..] == Section(payload) + rest
    ensures Locate(buf, id) == Some(NewPlace(id, payload))
    ensures buf[NewPlace(id, payload).payload..NewPlace(id, payload).end] == payload
  {
    hide *;
    var content := Body(payload);
    var body := id + 1 + |Encode(|content|)|;
    SectionIs(payload);
    SectionStarts(buf, id, content, rest);
    BodyNamed(payload);
    FrontOf(content, rest);
    LocateFinds(buf, id, |content|, body, 1);
    BodySlices(payload);
    NewPlaceIs(id, payload);
    SliceOfFront(buf[body..], 8, |content|, |content|);
    SliceOfRest(buf, body, 8, |content|);
    SliceAll(content, 8);
  }

  lemma SliceAll(s: Bytes, a: nat)
    requires a <= |s|
    ensures s[a..|s|] == s[a..]
  {
  }

  lemma SectionIs(payload: Bytes)
    ensures Section(payload) == [0] + (Encode(|Body(payload)|) + Body(payload))
  {
  }

  lemma NewPlaceIs(id: nat, payload: Bytes)
    ensures var body := id + 1 + |Encode(|Body(payload)|)|;
      NewPlace(id, payload) == Place(id, body + 1, body + 8, body + 8 + |payload|)
  {
  }

  lemma LocateFinds(buf: Bytes, id: nat, size: nat, body: nat, n: nat)
    requires SectionAt(buf, id) == Some((size, body)) && buf[id] == 0 &&
      NameOf(buf[body..][..size]) == Some((LINKING, n))
    ensures Locate(buf, id) == Some(Place(id, body + n, body + n + |LINKING|, body + size)) && |LINKING| == 7
  {
    hide SectionAt, NameOf;
  }

  lemma SectionStarts(buf: Bytes, id: nat, content: Bytes, rest: Bytes)
    requires id <= |buf| && buf[id..] == ([0] + (Encode(|content|) + content)) + rest
    ensures id < |buf| && buf[id] == 0
    ensures var body := id + 1 + |Encode(|content|)|;
      SectionAt(buf, id) == Some((|content|, body)) && buf[body..] == content + rest
  {
    hide Uleb, Encode;
    var size := Encode(|content|);
    var tail := buf[id..];
    assert tail == [0] + (size + (content + rest));
    assert buf[id] == tail[0];
    assert buf[id + 1..] == tail[1..] == size + (content + rest);
    EncodeDecodes(|content|, content + rest);
    FrontOf(size, content + rest);
    SliceOfRest(buf, id + 1, |size|, |size|);
  }

  lemma BodySlices(payload: Bytes)
    ensures var content := Body(payload);
      |content| == 8 + |payload| && content[1..8] == LINKING && content[8..] == payload
  {
    LinkingLength();
    hide Encode;
    assert Body(payload) == [7] + (LINKING + payload);
  }

  lemma BodyNamed(payload: Bytes)
    ensures NameOf(Body(payload)) == Some((LINKING, 1)) && |Body(payload)| == 8 + |payload|
  {
    LinkingLength();
    BodySlices(payload);
    assert Body(payload)[0] == 7;
    hide Encode, Body;
  }

  /** The section at off has the given content bounds and is not the linking section. */
  predicate Skips(buf: Bytes, off: nat, size: nat, body: nat) {
    && SectionAt(buf, off) == Some((size, body))
    && (buf[off] == 0 ==> NameOf(buf[body..][..size]).Some? && NameOf(buf[body..][..size]).value.0 != LINKING)
  }

  lemma LocateSkips(buf: Bytes, off: nat, size: nat, body: nat)
    requires Skips(buf, off, size, body)
    ensures Locate(buf, off) == Locate(buf, body + size)
  {
    hide SectionAt, NameOf;
  }

  lemma LocateSkipped(buf: Bytes, off: nat)
    requires Locate(buf, off).Some? && Locate(buf, off).value.id != off
    ensures SectionAt(buf, off).Some?
    ensures var at := SectionAt(buf, off).value; Skips(buf, off, at.0, at.1)
  {
    hide SectionAt, NameOf;
  }

  /** Replacing the payload leaves the sections before it, and finds it again. */
  lemma {:induction false} LocateReplaced(buf: Bytes, off: nat, payload: Bytes)
    requires Locate(buf, off).Some?
    ensures var place := Locate(buf, off).value;
      Locate(Replaced(buf, place, payload), off) == Some(NewPlace(place.id, payload))
    decreases |buf| - off
  {
    hide Section, NewPlace, Skips, Locate, SectionAt;
    var place := Locate(buf, off).value;
    var buf' := Replaced(buf, place, payload);
    if place.id == off {
      assert buf'[off..] == Section(payload) + buf[place.end..];
      LocateSection(buf', off, payload, buf[place.end..]);
    } else {
      LocateSkipped(buf, off);
      var (size, body) := SectionAt(buf, off).value;
      LocateSkips(buf, off, size, body);
      LocateReplaced(buf, body + size, payload);
      assert buf'[..place.id] == buf[..place.id];
      SameSection(buf, buf', off, place.id, size, body);
      LocateSkips(buf', off, size, body);
    }
  }

  /** A section that lies before `limit` is the same in two files that agree up to there. */
  lemma SameSection(buf: Bytes, buf': Bytes, off: nat, limit: nat, size: nat, body: nat)
    requires Skips(buf, off, size, body) && body + size <= limit <= |buf| && limit <= |buf'| &&
      buf'[..limit] == buf[..limit]
    ensures Skips(buf', off, size, body)
  {
    hide Uleb, NameOf;
    var k := body - off - 1;
    SliceOfFront(buf, off, off + 1, limit);
    SliceOfFront(buf', off, off + 1, limit);
    assert buf[off] == buf[off..off + 1][0] == buf'[off..off + 1][0] == buf'[off];
    SliceOfFront(buf, off + 1, body, limit);
    SliceOfFront(buf', off + 1, body, limit);
    SliceOfRest(buf, off + 1, 0, k);
    SliceOfRest(buf', off + 1, 0, k);
    UlebLocal(buf[off + 1..], buf'[off + 1..]);
    SliceOfFront(buf, body, body + size, limit);
    SliceOfFront(buf', body, body + size, limit);
    SliceOfRest(buf, body, 0, size);
    SliceOfRest(buf', body, 0, size);
  }

  /** The renamed file: None if the file defines nothing to rename. */
  function Rename(buf: Bytes, prefix: Bytes): Option<Bytes>
    requires WellFormed(buf)
  {
    if HasRenamable(LinkingOf(buf).subs) then
      Some(Replaced(buf, PlaceOf(buf), LinkingBytes(RenamedLinking(LinkingOf(buf), prefix))))
    else None
  }

  /** Renaming yields a well-formed file in which the bytes before and after
      the linking section are unchanged and whose linking section is the
      renamed one. */
  lemma RenameReadsBack(buf: Bytes, prefix: Bytes)
    requires WellFormed(buf) && Rename(buf, prefix).Some?
    ensures var out := Rename(buf, prefix).value;
      && WellFormed(out) && LinkingOf(out) == RenamedLinking(LinkingOf(buf), prefix)
      && PlaceOf(out).id == PlaceOf(buf).id && out[..PlaceOf(out).id] == buf[..PlaceOf(buf).id]
      && out[PlaceOf(out).end..] == buf[PlaceOf(buf).end..]
  {
    hide Locate, ReadLinking, LinkingBytes, RenamedLinking, WellLinking, HasRenamable, Section, Body;
    var place := PlaceOf(buf);
    var l := RenamedLinking(LinkingOf(buf), prefix);
    var payload := LinkingBytes(l);
    var out := Rename(buf, prefix).value;
    assert out == Replaced(buf, place, payload);
    LocateReplaced(buf, 8, payload);
    assert out[place.id..] == Section(payload) + buf[place.end..];
    LocateSection(out, place.id, payload, buf[place.end..]);
    RenamedLinkingWell(LinkingOf(buf), prefix);
    ReadLinkingBack(l);
    assert out[..4] == out[..place.id][..4] == buf[..place.id][..4] == MAGIC;
    SectionLength(place.id, payload);
    FrontOf(Section(payload), buf[place.end..]);
    assert out[NewPlace(place.id, payload).end..] == out[place.id..][|Section(payload)|..];
  }

  lemma SectionLength(id: nat, payload: Bytes)
    ensures NewPlace(id, payload).end == id + |Section(payload)|
  {
    LinkingLength();
    hide Encode;
  }

  lemma ReplacedTwice(buf: Bytes, place: Place, payload: Bytes, place': Place, payload': Bytes)
    requires place.id <= place.end <= |buf| && place'.id == place.id
    requires place'.end == place.id + |Section(payload)|
    ensures place'.end <= |Replaced(buf, place, payload)|
    ensures Replaced(Replaced(buf, place, payload), place', payload') == Replaced(buf, place, payload')
  {
    hide Section;
    var mid := Replaced(buf, place, payload);
    assert mid[..place.id] == buf[..place.id];
    assert mid[place'.end..] == buf[place.end..];
  }

  /** Renaming with p and then with q is renaming once with q followed by p, byte for byte. */
  lemma RenameComposes(buf: Bytes, p: Bytes, q: Bytes)
    requires WellFormed(buf) && Rename(buf, p).Some?
    ensures WellFormed(Rename(buf, p).value)
    ensures Rename(Rename(buf, p).value, q) == Rename(buf, q + p)
  {
    hide Locate, ReadLinking, LinkingBytes, RenamedLinking, WellLinking, HasRenamable, Section, Replaced;
    RenameReadsBack(buf, p);
    var l := LinkingOf(buf);
    var mid := Rename(buf, p).value;
    RenamedSubsOf(l, p);
    RenamedHasRenamable(l.subs, p);
    RenamedLinkingTwice(l, p, q);
    var payload := LinkingBytes(RenamedLinking(l, p));
    SectionLength(PlaceOf(buf).id, payload);
    NewPlaceOf(buf, p);
    ReplacedTwice(buf, PlaceOf(buf), payload, PlaceOf(mid), LinkingBytes(RenamedLinking(l, q + p)));
  }

  lemma RenamedSubsOf(l: Linking, prefix: Bytes)
    requires WellLinking(l)
    ensures WellSubs(l.subs) && RenamedLinking(l, prefix).subs == RenamedSubs(l.subs, prefix)
  {
  }

  lemma NewPlaceOf(buf: Bytes, prefix: Bytes)
    requires WellFormed(buf) && Rename(buf, prefix).Some? && WellFormed(Rename(buf, prefix).value)
    ensures PlaceOf(Rename(buf, prefix).value)
      == NewPlace(PlaceOf(buf).id, LinkingBytes(RenamedLinking(LinkingOf(buf), prefix)))
  {
    hide Locate, ReadLinking, LinkingBytes, RenamedLinking, WellLinking, HasRenamable, Section;
    LocateReplaced(buf, 8, LinkingBytes(RenamedLinking(LinkingOf(buf), prefix)));
  }
}
