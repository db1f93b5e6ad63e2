/** The renaming tool itself: cursors moving over the file's bytes. Reading
    past the end of the file raises an index error, slices are clipped. */
module WasmTool {
  import opened Leb128
  import opened WasmRename
  import opened WasmSymbols
  import opened Wrappers

  /** s[a:b] */
  function Slice(s: Bytes, a: nat, b: nat): Bytes {
    var hi := if b < |s| then b else |s|;
    if a <= hi then s[a..hi] else []
  }

  // ----- finding the section -----

  /** `find_linking`; None as well after an index error. */
  method FindLinking(buf: Bytes) returns (place: Option<Place>)
    ensures |buf| >= 4 && buf[..4] == MAGIC && Locate(buf, 8).Some? ==> place == Locate(buf, 8)
    ensures !(|buf| >= 4 && buf[..4] == MAGIC) ==> place.None?
    ensures place.Some? ==> place.value.name <= place.value.payload
  {
    hide Locate, At, Skips;
    if Slice(buf, 0, 4) != MAGIC {
      return None;
    }
    var off := 8;
    while off < |buf|
      invariant Locate(buf, 8).Some? ==> Locate(buf, off) == Locate(buf, 8)
      decreases |buf| - off
    {
      var start := off;
      var ok, size, body := ReadUleb(buf, off + 1);
      if !ok {
        NoSection(buf, start);
        return None;
      }
      if buf[start] == 0 {
        var named, n, p := ReadUleb(buf, body);
        if !named {
          NameMissing(buf, start);
          return None;
        }
        FoundName(buf, start, size, body, n, p);
        if Slice(buf, p, p + n) == LINKING {
          return Some(Place(start, p, p + n, body + size));
        }
      } else {
        NotCustom(buf, start);
      }
      if Locate(buf, start).Some? {
        Onward(buf, start, size, body);
      }
      off := body + size;
    }
    NothingLeft(buf, off);
    place := None;
  }

  lemma NothingLeft(buf: Bytes, off: nat)
    requires off >= |buf|
    ensures Locate(buf, off).None?
  {
  }

  lemma NotCustom(buf: Bytes, off: nat)
    requires off < |buf| && buf[off] != 0
    ensures Locate(buf, off).Some? ==> Locate(buf, off).value.id != off
  {
  }

  lemma NoSection(buf: Bytes, off: nat)
    requires off < |buf| && At(buf, off + 1).None?
    ensures Locate(buf, off).None?
  {
  }

  lemma NameMissing(buf: Bytes, off: nat)
    requires off < |buf| && buf[off] == 0 && At(buf, off + 1).Some?
    requires At(buf, off + 1 + At(buf, off + 1).value.1).None?
    ensures Locate(buf, off).None?
  {
    hide Uleb;
    if SectionAt(buf, off).Some? {
      var (size, body) := SectionAt(buf, off).value;
      if Uleb(buf[body..][..size]).Some? {
        NameWithin(buf, body, size);
      }
    }
  }

  /** A number inside a section is read the same from the whole file. */
  lemma NameWithin(buf: Bytes, body: nat, size: nat)
    requires body + size <= |buf| && Uleb(buf[body..][..size]).Some?
    ensures At(buf, body) == Uleb(buf[body..][..size])
  {
    hide Uleb;
    var k := Uleb(buf[body..][..size]).value.1;
    SliceOfFront(buf[body..], 0, k, size);
    UlebLocal(buf[body..][..size], buf[body..]);
  }

  lemma FoundName(buf: Bytes, off: nat, size: nat, body: nat, n: nat, p: nat)
    requires off < |buf| && buf[off] == 0 && off + 1 < body <= |buf| && At(buf, off + 1) == Some((size, body - off - 1))
    requires body < p && At(buf, body) == Some((n, p - body))
    ensures Locate(buf, off).Some? && Slice(buf, p, p + n) == LINKING ==>
      Locate(buf, off) == Some(Place(off, p, p + n, body + size))
    ensures Locate(buf, off).Some? && Slice(buf, p, p + n) != LINKING ==> Locate(buf, off).value.id != off
  {
    hide *;
    if Locate(buf, off).Some? {
      SectionAtIs(buf, off, size, body);
      LocateCustom(buf, off, size, body);
      NameIs(buf, body, size, n, p);
      LinkingLength();
    }
  }

  lemma SectionAtIs(buf: Bytes, off: nat, size: nat, body: nat)
    requires Locate(buf, off).Some? && off < |buf| && off + 1 < body && At(buf, off + 1) == Some((size, body - off - 1))
    ensures SectionAt(buf, off) == Some((size, body))
  {
    hide Uleb, NameOf;
  }

  lemma LocateCustom(buf: Bytes, off: nat, size: nat, body: nat)
    requires Locate(buf, off).Some? && SectionAt(buf, off) == Some((size, body)) && buf[off] == 0
    ensures NameOf(buf[body..][..size]).Some?
    ensures var (name, at) := NameOf(buf[body..][..size]).value;
      if name == LINKING then Locate(buf, off) == Some(Place(off, body + at, body + at + |LINKING|, body + size))
      else Locate(buf, off).value.id != off
  {
    hide SectionAt, NameOf;
  }

  lemma NameIs(buf: Bytes, body: nat, size: nat, n: nat, p: nat)
    requires body + size <= |buf| && NameOf(buf[body..][..size]).Some? && body < p &&
      At(buf, body) == Some((n, p - body))
    ensures NameOf(buf[body..][..size]) == Some((Slice(buf, p, p + n), p - body)) && |Slice(buf, p, p + n)| == n
  {
    hide Uleb;
    NameWithin(buf, body, size);
    SliceOfFront(buf[body..], p - body, p - body + n, size);
    SliceOfRest(buf, body, p - body, p - body + n);
  }

  lemma Onward(buf: Bytes, off: nat, size: nat, body: nat)
    requires Locate(buf, off).Some? && Locate(buf, off).value.id != off
    requires off < |buf| && off + 1 < body && At(buf, off + 1) == Some((size, body - off - 1))
    ensures Locate(buf, off) == Locate(buf, body + size)
  {
    hide Uleb, Locate, Skips;
    LocateSkipped(buf, off);
    LocateSkips(buf, off, size, body);
  }

  // ----- reading the symbols -----

  /** A record of `parse_symbols`: the bytes of a symbol, whether it counts as
      defined, and where its name's length, its name, and what follows start. */
  datatype Span = Span(raw: Bytes, defined: bool, named: bool, len: nat, start: nat, end: nat)

  predicate SpanOf(span: Span, e: Entry) {
    && span.raw == Raw(e) && IsUleb(e.flags) && span.named == e.name.Name?
    && span.defined == (e.kind != SECTION && Defined(Uleb(e.flags).value.0))
    && (span.named ==> SpanCuts(span, e))
  }

  /** The offsets of a named symbol cut its bytes before the length of the
      name, before the name and after it. */
  predicate SpanCuts(span: Span, e: Entry)
    requires e.name.Name?
  {
    && span.len <= span.start <= span.end <= |span.raw|
    && span.raw[..span.len] == [e.kind] + (e.flags + e.index)
    && span.raw[span.start..span.end] == e.name.text && span.raw[span.end..] == e.tail
  }

  /** What follows a name, or an error; running past the end may be noticed later. */
  method SkipTail(buf: Bytes, off: nat, kind: Byte, flags: nat) returns (ok: bool, next: nat)
    ensures next >= off
    ensures off <= |buf| && TailLength(buf[off..], kind, flags).Some? ==>
      ok && next == off + TailLength(buf[off..], kind, flags).value
    ensures off > |buf| || TailLength(buf[off..], kind, flags).None? ==> !ok || next > |buf|
  {
    hide Uleb, Defined, Common;
    var skipped: nat;
    ok, next := true, off;
    if kind == DATA {
      if Defined(flags) && !Common(flags) {
        ok, skipped, next := ReadUleb(buf, next);
        if !ok { next := off; return; }
        ghost var b := next;
        ok, skipped, next := ReadUleb(buf, next);
        if !ok { next := off; SecondFails(buf, off, b); return; }
        ghost var c := next;
        ok, skipped, next := ReadUleb(buf, next);
        if !ok { next := off; ThirdFails(buf, off, b, c); return; }
        AllThree(buf, off, b, c, next);
      } else if Common(flags) {
        if off <= |buf| {
          OneNumber(buf[off..]);
        }
        ok, skipped, next := ReadUleb(buf, next);
        if !ok { next := off; return; }
        next := next + 1;
      }
    }
  }

  lemma OneNumber(s: Bytes)
    ensures Numbers(s, 1) == if Uleb(s).None? then None else Some(Uleb(s).value.1)
  {
    hide Uleb;
  }

  lemma SecondFails(buf: Bytes, a: nat, b: nat)
    requires a < b <= |buf| && At(buf, a).Some? && At(buf, a).value.1 == b - a && At(buf, b).None?
    ensures Numbers(buf[a..], 3).None?
  {
    hide Uleb;
    SliceOfRest(buf, a, b - a, b - a);
  }

  lemma ThirdFails(buf: Bytes, a: nat, b: nat, c: nat)
    requires a < b < c <= |buf| && At(buf, a).Some? && At(buf, a).value.1 == b - a
    requires At(buf, b).Some? && At(buf, b).value.1 == c - b && At(buf, c).None?
    ensures Numbers(buf[a..], 3).None?
  {
    hide Uleb;
    SliceOfRest(buf, a, b - a, b - a);
    SliceOfRest(buf, b, c - b, c - b);
    assert Numbers(buf[c..], 1).None?;
    assert Numbers(buf[b..], 2).None?;
  }

  lemma AllThree(buf: Bytes, a: nat, b: nat, c: nat, d: nat)
    requires a < b < c < d <= |buf| && At(buf, a).Some? && At(buf, a).value.1 == b - a
    requires At(buf, b).Some? && At(buf, b).value.1 == c - b && At(buf, c).Some? && At(buf, c).value.1 == d - c
    ensures Numbers(buf[a..], 3) == Some(d - a)
  {
    hide Uleb;
    SliceOfRest(buf, a, b - a, b - a);
    SliceOfRest(buf, b, c - b, c - b);
    assert Numbers(buf[c..], 1) == Some(d - c);
    assert Numbers(buf[b..], 2) == Some(d - b);
  }

  lemma EntryAt(buf: Bytes, off: nat, p: nat)
    requires off < |buf| && off + 1 < p <= |buf| && At(buf, off + 1).Some? && At(buf, off + 1).value.1 == p - off - 1
    ensures IsUleb(buf[off + 1..p]) && Uleb(buf[off + 1..p]) == At(buf, off + 1)
    ensures ReadEntry(buf[off..]) == ReadIndexed(buf[off], buf[off + 1..p], buf[p..])
  {
    hide ReadIndexed, Uleb;
    var k := p - off - 1;
    SliceOfRest(buf, off, 1, 1);
    SliceOfRest(buf, off + 1, 0, k);
    SliceOfRest(buf, off + 1, k, k);
    UlebPrefix(buf[off + 1..]);
    assert buf[off..][0] == buf[off];
  }

  lemma IndexAt(buf: Bytes, kind: Byte, flags: Bytes, p: nat, q: nat)
    requires IsUleb(flags) && kind != DATA && p < q <= |buf| && At(buf, p).Some? && At(buf, p).value.1 == q - p
    ensures ReadIndexed(kind, flags, buf[p..]) == ReadNamed(kind, flags, buf[p..q], buf[q..])
  {
    hide ReadNamed, Uleb;
    SliceOfRest(buf, p, 0, q - p);
    SliceOfRest(buf, p, q - p, q - p);
  }

  lemma NameAt(buf: Bytes, kind: Byte, flags: Bytes, index: Bytes, p: nat, n: nat, q: nat)
    requires IsUleb(flags) && HasName(kind, Uleb(flags).value.0) && p < q <= |buf| && At(buf, p) == Some((n, q - p))
    ensures ReadNamed(kind, flags, index, buf[p..])
         == if q + n > |buf| then None else ReadTail(kind, flags, index, Name(buf[p..q], buf[q..q + n]), buf[q + n..])
  {
    hide ReadTail, Uleb, HasName;
    if q + n <= |buf| {
      SliceOfRest(buf, p, 0, q - p);
      SliceOfRest(buf, p, q - p, q - p + n);
      SliceOfRest(buf, p, q - p + n, q - p + n);
    }
  }

  lemma TailAt(buf: Bytes, kind: Byte, flags: Bytes, index: Bytes, name: Name, p: nat, next: nat)
    requires IsUleb(flags) && p <= next <= |buf| && TailLength(buf[p..], kind, Uleb(flags).value.0) == Some(next - p)
    ensures ReadTail(kind, flags, index, name, buf[p..]) == Some(Entry(kind, flags, index, name, buf[p..next]))
  {
    hide Uleb, TailLength;
    SliceOfRest(buf, p, 0, next - p);
  }

  lemma Join(buf: Bytes, a: nat, b: nat, c: nat)
    requires a <= b <= c <= |buf|
    ensures buf[a..b] + buf[b..c] == buf[a..c]
  {
  }

  /** Fields that follow each other in the file make up the bytes of the symbol. */
  lemma RawAt(buf: Bytes, off: nat, p: nat, q: nat, r: nat, t: nat, next: nat, e: Entry)
    requires off < p <= q <= r <= t <= next <= |buf|
    requires e.kind == buf[off] && e.flags == buf[off + 1..p] && e.index == buf[p..q] && e.tail == buf[t..next]
    requires if e.name.Name? then e.name.len == buf[q..r] && e.name.text == buf[r..t] else q == t
    ensures Raw(e) == buf[off..next]
    ensures [e.kind] + (e.flags + e.index) == buf[off..q]
  {
    assert [e.kind] == buf[off..off + 1];
    Join(buf, q, r, t);
    Join(buf, q, t, next);
    Join(buf, p, q, next);
    Join(buf, off + 1, p, next);
    Join(buf, off, off + 1, next);
    Join(buf, off + 1, p, q);
    Join(buf, off, off + 1, q);
    assert e.name.NoName? ==> NameBytes(e.name) + e.tail == buf[q..next];
  }

  lemma Inner(s: Bytes, a: nat, b: nat, c: nat, d: nat)
    requires a <= c <= d <= b <= |s|
    ensures s[a..b][c - a..d - a] == s[c..d]
  {
    assert s[a..b] == s[a..][..b - a];
    SliceOfFront(s[a..], c - a, d - a, b - a);
    SliceOfRest(s, a, c - a, d - a);
  }

  lemma CutsAt(buf: Bytes, off: nat, q: nat, r: nat, t: nat, next: nat)
    requires off <= q <= r <= t <= next <= |buf|
    ensures var raw := buf[off..next];
      raw[..q - off] == buf[off..q] && raw[r - off..t - off] == buf[r..t] && raw[t - off..] == buf[t..next]
  {
    Inner(buf, off, next, off, q);
    Inner(buf, off, next, r, t);
    Inner(buf, off, next, t, next);
  }

  lemma EmptyEntry(s: Bytes)
    requires s == []
    ensures ReadEntry(s).None?
  {
  }

  lemma NoFlags(buf: Bytes, off: nat)
    requires off < |buf| && At(buf, off + 1).None?
    ensures ReadEntry(buf[off..]).None?
  {
    hide Uleb;
    SliceOfRest(buf, off, 1, 1);
  }

  lemma NoIndex(buf: Bytes, kind: Byte, flags: Bytes, p: nat)
    requires IsUleb(flags) && kind != DATA && p <= |buf| && At(buf, p).None?
    ensures ReadIndexed(kind, flags, buf[p..]).None?
  {
    hide Uleb;
  }

  lemma NoIndexNeeded(buf: Bytes, flags: Bytes, p: nat)
    requires IsUleb(flags) && p <= |buf|
    ensures ReadIndexed(DATA, flags, buf[p..]) == ReadNamed(DATA, flags, buf[p..p], buf[p..])
  {
    hide Uleb, ReadNamed;
    assert buf[p..p] == [];
  }

  lemma NoNameThere(buf: Bytes, kind: Byte, flags: Bytes, index: Bytes, q: nat)
    requires IsUleb(flags) && HasName(kind, Uleb(flags).value.0) && q <= |buf| && At(buf, q).None?
    ensures ReadNamed(kind, flags, index, buf[q..]).None?
  {
    hide Uleb, HasName;
  }

  lemma NoTail(buf: Bytes, kind: Byte, flags: Bytes, index: Bytes, name: Name, t: nat)
    requires IsUleb(flags) && t <= |buf| && TailLength(buf[t..], kind, Uleb(flags).value.0).None?
    ensures ReadTail(kind, flags, index, name, buf[t..]).None?
  {
    hide Uleb, TailLength;
  }

  lemma SliceIs(s: Bytes, a: nat, b: nat)
    requires a <= b <= |s|
    ensures Slice(s, a, b) == s[a..b]
  {
  }

  lemma Unnamed(buf: Bytes, off: nat, p: nat, q: nat)
    requires off < |buf| && off < p <= q <= |buf| && IsUleb(buf[off + 1..p])
    requires !HasName(buf[off], Uleb(buf[off + 1..p]).value.0)
    ensures var e := ReadNamed(buf[off], buf[off + 1..p], buf[p..q], buf[q..]);
      e.Some? && Raw(e.value) == buf[off..q] == Slice(buf, off, q)
      && SpanOf(Span(buf[off..q], buf[off] != SECTION && Defined(Uleb(buf[off + 1..p]).value.0), false, 0, 0, 0),
        e.value)
  {
    var e := Entry(buf[off], buf[off + 1..p], buf[p..q], NoName, buf[q..q]);
    assert buf[q..][..0] == buf[q..q] == [];
    SliceIs(buf, off, q);
    assert ReadNamed(buf[off], buf[off + 1..p], buf[p..q], buf[q..]) == Some(e) by { hide Uleb; }
    hide Raw, Uleb;
    RawAt(buf, off, p, q, q, q, q, e);
  }

  lemma NamedEntry(buf: Bytes, off: nat, p: nat, q: nat, r: nat, t: nat, next: nat)
    requires off < |buf| && off < p <= q <= r <= t <= next <= |buf| && IsUleb(buf[off + 1..p]) && buf[off] != SECTION
    requires TailLength(buf[t..], buf[off], Uleb(buf[off + 1..p]).value.0) == Some(next - t)
    ensures var e := ReadTail(buf[off], buf[off + 1..p], buf[p..q], Name(buf[q..r], buf[r..t]), buf[t..]);
      e.Some? && Raw(e.value) == buf[off..next] == Slice(buf, off, next)
      && SpanOf(Span(buf[off..next], Defined(Uleb(buf[off + 1..p]).value.0), true, q - off, r - off, t - off), e.value)
  {
    hide Raw, Uleb, TailLength;
    var name := Name(buf[q..r], buf[r..t]);
    var e := Entry(buf[off], buf[off + 1..p], buf[p..q], name, buf[t..next]);
    TailAt(buf, buf[off], buf[off + 1..p], buf[p..q], name, t, next);
    RawAt(buf, off, p, q, r, t, next, e);
    CutsAt(buf, off, q, r, t, next);
    SliceIs(buf, off, next);
  }

  /** One round of the loop of `parse_symbols`. */
  method ParseOne(buf: Bytes, off: nat, end: nat) returns (ok: bool, span: Span, next: nat)
    ensures ok ==> off < next <= end
    ensures off <= |buf| && end <= |buf| ==>
      (ok <==> ReadEntry(buf[off..]).Some? && off + |Raw(ReadEntry(buf[off..]).value)| <= end)
    ensures off <= |buf| && end <= |buf| && ok ==>
      next == off + |Raw(ReadEntry(buf[off..]).value)| && SpanOf(span, ReadEntry(buf[off..]).value)
  {
    hide ReadEntry, ReadIndexed, ReadNamed, ReadTail, Raw, TailLength, Uleb, At, IsUleb, SpanOf;
    span := Span([], false, false, 0, 0, 0);
    if off >= |buf| {
      if off == |buf| {
        EmptyEntry(buf[off..]);
      }
      return false, span, off;
    }
    var kind := buf[off];
    var flags, p, skipped, q, n, r, t;
    ok, flags, p := ReadUleb(buf, off + 1);
    if !ok {
      NoFlags(buf, off);
      return false, span, off;
    }
    EntryAt(buf, off, p);
    ghost var fb := buf[off + 1..p];
    assert Uleb(fb).value.0 == flags;
    if kind == SECTION {
      ok, skipped, q := ReadUleb(buf, p);
      if !ok {
        NoIndex(buf, kind, fb, p);
        return false, span, off;
      }
      IndexAt(buf, kind, fb, p, q);
      Unnamed(buf, off, p, q);
      ok := q <= end;
      return ok, Span(Slice(buf, off, q), false, false, 0, 0, 0), q;
    }
    q := p;
    if kind != DATA {
      ok, skipped, q := ReadUleb(buf, p);
      if !ok {
        NoIndex(buf, kind, fb, p);
        return false, span, off;
      }
      IndexAt(buf, kind, fb, p, q);
    } else {
      NoIndexNeeded(buf, fb, p);
    }
    if !HasName(kind, flags) {
      Unnamed(buf, off, p, q);
      ok := q <= end;
      return ok, Span(Slice(buf, off, q), Defined(flags), false, 0, 0, 0), q;
    }
    ok, n, r := ReadUleb(buf, q);
    if !ok {
      NoNameThere(buf, kind, fb, buf[p..q], q);
      return false, span, off;
    }
    NameAt(buf, kind, fb, buf[p..q], q, n, r);
    t := r + n;
    ok, next := SkipTail(buf, t, kind, flags);
    if !ok || next > end {
      if t <= |buf| && TailLength(buf[t..], kind, flags).None? {
        NoTail(buf, kind, fb, buf[p..q], Name(buf[q..r], buf[r..t]), t);
      } else if t <= |buf| && end <= |buf| {
        NamedEntry(buf, off, p, q, r, t, next);
      }
      return false, span, off;
    }
    span := Span(Slice(buf, off, next), Defined(flags), true, q - off, r - off, t - off);
    if end <= |buf| {
      NamedEntry(buf, off, p, q, r, t, next);
    }
  }

  function Prepend(done: seq<Entry>, rest: Option<seq<Entry>>): Option<seq<Entry>> {
    if rest.None? then None else Some(done + rest.value)
  }

  lemma TableStarts(buf: Bytes, off: nat, end: nat)
    requires off <= end <= |buf|
    ensures At(buf, off).None? ==> ReadTable(buf[off..end]).None?
    ensures At(buf, off).Some? ==>
      var (n, k) := At(buf, off).value;
      ReadTable(buf[off..end]) == if off + k <= end then Prepend([], ReadEntries(buf[off + k..end], n)) else None
  {
    hide Uleb, ReadEntries;
    var s := buf[off..end];
    if At(buf, off).Some? && off + At(buf, off).value.1 <= end {
      var k := At(buf, off).value.1;
      Inner(buf, off, end, off, off + k);
      SliceOfRest(buf, off, 0, k);
      UlebLocal(buf[off..], s);
      Inner(buf, off, end, off + k, end);
      assert s[k..end - off] == s[k..];
      PrependNothing(ReadEntries(buf[off + k..end], At(buf, off).value.0));
    } else if Uleb(s).Some? {
      assert s == buf[off..][..end - off];
      NameWithin(buf, off, end - off);
    }
  }

  lemma PrependNothing(x: Option<seq<Entry>>)
    ensures Prepend([], x) == x
  {
    if x.Some? {
      assert [] + x.value == x.value;
    }
  }

  lemma TableContinues(buf: Bytes, off: nat, end: nat, m: nat, done: seq<Entry>)
    requires off <= end <= |buf| && m > 0
    ensures var e := ReadEntry(buf[off..]);
      if e.Some? && off + |Raw(e.value)| <= end then
        Prepend(done, ReadEntries(buf[off..end], m))
        == Prepend(done + [e.value], ReadEntries(buf[off + |Raw(e.value)|..end], m - 1))
      else ReadEntries(buf[off..end], m).None?
  {
    hide ReadEntry, Raw;
    assert buf[off..end] == buf[off..][..end - off];
    ReadWithin(buf[off..], end - off);
    var e := ReadEntry(buf[off..]);
    if e.Some? && off + |Raw(e.value)| <= end {
      var k := |Raw(e.value)|;
      Inner(buf, off, end, off + k, end);
      assert buf[off..end][k..end - off] == buf[off..end][k..];
      var rest := ReadEntries(buf[off + k..end], m - 1);
      if rest.Some? {
        assert done + ([e.value] + rest.value) == (done + [e.value]) + rest.value;
      }
    }
  }

  lemma PrependNone(done: seq<Entry>, x: Option<seq<Entry>>)
    ensures x.None? ==> Prepend(done, x).None?
  {
  }

  lemma NoneLeft(buf: Bytes, off: nat, end: nat, done: seq<Entry>)
    requires off <= end <= |buf|
    ensures Prepend(done, ReadEntries(buf[off..end], 0)) == if off == end then Some(done) else None
  {
    if off == end {
      assert buf[off..end] == [] && done + [] == done;
    }
  }

  lemma NothingCollected()
    ensures Collected([], [])
  {
  }

  /** The symbols whose records have been collected so far. */
  predicate Collected(entries: seq<Span>, es: seq<Entry>) {
    |entries| == |es| && forall i :: 0 <= i < |es| ==> SpanOf(entries[i], es[i])
  }

  lemma CollectedNext(entries: seq<Span>, es: seq<Entry>, span: Span, e: Entry)
    requires Collected(entries, es) && SpanOf(span, e)
    ensures Collected(entries + [span], es + [e])
  {
    hide SpanOf;
  }

  /** `parse_symbols`: fails exactly when the bytes are not one symbol table. */
  method ParseSymbols(buf: Bytes, start: nat, end: nat) returns (ok: bool, entries: seq<Span>)
    requires start <= end
    ensures end <= |buf| ==> (ok <==> ReadTable(buf[start..end]).Some?)
    ensures end <= |buf| && ok ==> Collected(entries, ReadTable(buf[start..end]).value)
  {
    hide ReadTable, ReadEntries, ReadEntry, Raw, At, SpanOf, Prepend, Collected;
    entries := [];
    ghost var es: seq<Entry> := [];
    var n: nat, off: nat;
    ok, n, off := ReadUleb(buf, start);
    if end <= |buf| {
      TableStarts(buf, start, end);
    }
    if !ok {
      return;
    }
    NothingCollected();
    for i := 0 to n
      invariant end <= |buf| ==> Collected(entries, es)
      invariant end <= |buf| ==>
        ReadTable(buf[start..end]) == if off <= end then Prepend(es, ReadEntries(buf[off..end], n - i)) else None
    {
      var span, next;
      ok, span, next := ParseOne(buf, off, end);
      if end <= |buf| && off <= end {
        TableContinues(buf, off, end, n - i, es);
        PrependNone(es, ReadEntries(buf[off..end], n - i));
      }
      if !ok {
        return;
      }
      if end <= |buf| {
        CollectedNext(entries, es, span, ReadEntry(buf[off..]).value);
        es := es + [ReadEntry(buf[off..]).value];
      }
      entries := entries + [span];
      off := next;
    }
    ok := off == end;
    if end <= |buf| && off <= end {
      NoneLeft(buf, off, end, es);
    }
  }

  // ----- rebuilding -----

  /** One entry of the new table. */
  method RebuildOne(span: Span, prefix: Bytes, ghost e: Entry) returns (sub: Bytes, renamed: bool)
    ensures SpanOf(span, e) && Well(e) ==> sub == Raw(Renamed(e, prefix)) && renamed == Renamable(e)
  {
    hide Uleb, TailLength, Encode, IsUleb, Defined, Explicit;
    if !span.defined || !span.named {
      return span.raw, false;
    }
    var name := prefix + Slice(span.raw, span.start, span.end);
    var size := WriteUleb(|name|);
    sub := Slice(span.raw, 0, span.len) + size + name + Slice(span.raw, span.end, |span.raw|);
    renamed := true;
    if SpanOf(span, e) && Well(e) {
      CutSlices(span, e);
      var text := prefix + e.name.text;
      assert Raw(Renamed(e, prefix)) == ([e.kind] + (e.flags + e.index)) + size + text + e.tail;
    }
  }

  lemma CutSlices(span: Span, e: Entry)
    requires e.name.Name? && SpanCuts(span, e)
    ensures Slice(span.raw, 0, span.len) == [e.kind] + (e.flags + e.index)
    ensures Slice(span.raw, span.start, span.end) == e.name.text && Slice(span.raw, span.end, |span.raw|) == e.tail
  {
  }

  lemma {:induction false} AllRawNext(es: seq<Entry>, e: Entry)
    ensures AllRaw(es + [e]) == AllRaw(es) + Raw(e)
  {
    hide Raw;
    if es == [] {
      assert es + [e] == [e] && [e][1..] == [] && Raw(e) + [] == Raw(e) && [] + Raw(e) == Raw(e);
    } else {
      assert (es + [e])[1..] == es[1..] + [e];
      AllRawNext(es[1..], e);
      assert Raw(es[0]) + (AllRaw(es[1..]) + Raw(e)) == (Raw(es[0]) + AllRaw(es[1..])) + Raw(e);
    }
  }

  /** The new symbol table. */
  method RebuildTable(entries: seq<Span>, prefix: Bytes, ghost es: seq<Entry>) returns (sub: Bytes, renamed: nat)
    ensures Collected(entries, es) && AllWell(es) ==>
      sub == TableBytes(RenamedTable(es, prefix)) && (renamed > 0 <==> TableRenamable(es))
  {
    hide Raw, Well, Renamed, Renamable, Encode, SpanOf, AllRaw;
    sub := WriteUleb(|entries|);
    renamed := 0;
    ghost var good := Collected(entries, es) && AllWell(es);
    NoRaw();
    for i := 0 to |entries|
      invariant good ==> sub == Encode(|es|) + AllRaw(RenamedTable(es, prefix)[..i])
      invariant good ==> (renamed > 0 <==> exists k :: 0 <= k < i && RenamableAt(es, k))
    {
      ghost var e := if good then es[i] else Entry(0, [], [], NoName, []);
      var bytes, now := RebuildOne(entries[i], prefix, e);
      if good {
        ghost var done := RenamedTable(es, prefix);
        assert done[..i + 1] == done[..i] + [done[i]];
        AllRawNext(done[..i], done[i]);
        assert (Encode(|es|) + AllRaw(done[..i])) + bytes == Encode(|es|) + (AllRaw(done[..i]) + bytes);
        assert RenamableAt(es, i) <==> now;
      }
      sub := sub + bytes;
      renamed := if now then renamed + 1 else renamed;
    }
    if good {
      assert RenamedTable(es, prefix)[..|entries|] == RenamedTable(es, prefix);
    }
  }

  lemma NoRaw()
    ensures AllRaw([]) == []
  {
  }

  lemma {:induction false} SubsBytesNext(subs: seq<Sub>, sub: Sub)
    ensures SubsBytes(subs + [sub]) == SubsBytes(subs) + SubBytes(sub)
  {
    hide SubBytes;
    if subs == [] {
      assert subs + [sub] == [sub] && [sub][1..] == [] && SubBytes(sub) + [] == SubBytes(sub) &&
        [] + SubBytes(sub) == SubBytes(sub);
    } else {
      assert (subs + [sub])[1..] == subs[1..] + [sub];
      SubsBytesNext(subs[1..], sub);
      assert SubBytes(subs[0]) + (SubsBytes(subs[1..]) + SubBytes(sub))
        == (SubBytes(subs[0]) + SubsBytes(subs[1..])) + SubBytes(sub);
    }
  }

  /** How far the subsections of a well-formed payload have been rebuilt. */
  ghost predicate Progress(buf: Bytes, off: nat, end: nat, l: Linking, i: nat, prefix: Bytes, out: Bytes,
                           renamed: nat)
  {
    && off <= end <= |buf| && i <= |l.subs| && WellSubs(l.subs) && ReadSubs(buf[off..end]) == Some(l.subs[i..])
    && out == Encode(l.version) + SubsBytes(RenamedSubs(l.subs, prefix)[..i])
    && (renamed > 0 <==> HasRenamable(l.subs[..i]))
  }

  lemma ProgressStarts(buf: Bytes, start: nat, end: nat, prefix: Bytes)
    requires start <= end <= |buf| && ReadLinking(buf[start..end]).Some?
    ensures At(buf, start).Some? && At(buf, start).value.0 == ReadLinking(buf[start..end]).value.version
    ensures var l := ReadLinking(buf[start..end]).value;
      Progress(buf, start + At(buf, start).value.1, end, l, 0, prefix, Encode(l.version), 0)
  {
    hide Uleb, ReadSubs, Encode;
    var s := buf[start..end];
    var k := Uleb(s).value.1;
    assert s == buf[start..][..end - start];
    NameWithin(buf, start, end - start);
    Inner(buf, start, end, start + k, end);
    assert s[k..end - start] == s[k..];
    ReadSubsWell(s[k..]);
    var l := ReadLinking(s).value;
    assert l.subs[0..] == l.subs && RenamedSubs(l.subs, prefix)[..0] == [] &&
      Encode(l.version) + [] == Encode(l.version);
  }

  lemma HeaderAt(buf: Bytes, off: nat, end: nat)
    requires off <= end <= |buf| && Header(buf[off..end]).Some?
    ensures At(buf, off).Some? && At(buf, off + At(buf, off).value.1).Some?
    ensures var a := off + At(buf, off).value.1;
      Header(buf[off..end]) == Some((At(buf, off).value.0, At(buf, a).value.0, a + At(buf, a).value.1 - off))
  {
    hide Uleb;
    var s := buf[off..end];
    assert s == buf[off..][..end - off];
    NameWithin(buf, off, end - off);
    var k := Uleb(s).value.1;
    Inner(buf, off, end, off + k, end);
    assert s[k..end - off] == s[k..];
    assert s[k..] == buf[off + k..][..end - off - k];
    NameWithin(buf, off + k, end - off - k);
  }

  /** The next subsection of a well-formed payload. */
  lemma NextSub(buf: Bytes, off: nat, end: nat, l: Linking, i: nat)
    requires off < end <= |buf| && i <= |l.subs| && ReadSubs(buf[off..end]) == Some(l.subs[i..])
    ensures i < |l.subs| && At(buf, off).Some? && At(buf, off + At(buf, off).value.1).Some?
    ensures var a := off + At(buf, off).value.1;
      var b, tag, size := a + At(buf, a).value.1, At(buf, off).value.0, At(buf, a).value.0;
      b + size <= end && ReadSub(tag, buf[b..b + size]) == Some(l.subs[i]) &&
      ReadSubs(buf[b + size..end]) == Some(l.subs[i + 1..])
  {
    hide ReadSub, Header, At;
    var s := buf[off..end];
    var (tag, size, at) := Header(s).value;
    HeaderAt(buf, off, end);
    Inner(buf, off, end, off + at, off + at + size);
    Inner(buf, off, end, off + at + size, end);
    SliceOfRest(s, at, 0, size);
    SliceOfRest(s, at, size, size);
    assert s[at + size..end - off] == s[at + size..];
    FirstOf(l.subs, i, ReadSub(tag, s[at..][..size]).value, ReadSubs(s[at..][size..]).value);
  }

  lemma FirstOf(subs: seq<Sub>, i: nat, first: Sub, rest: seq<Sub>)
    requires i <= |subs| && subs[i..] == [first] + rest
    ensures i < |subs| && subs[i] == first && subs[i + 1..] == rest
  {
    assert |subs[i..]| == |subs| - i > 0;
    assert subs[i] == subs[i..][0] && subs[i + 1..] == subs[i..][1..];
  }

  lemma ProgressNext(buf: Bytes, off: nat, next: nat, end: nat, l: Linking, i: nat, prefix: Bytes, out: Bytes,
                     renamed: nat, bytes: Bytes, more: nat)
    requires Progress(buf, off, end, l, i, prefix, out, renamed) && i < |l.subs| && next <= end
    requires ReadSubs(buf[next..end]) == Some(l.subs[i + 1..])
    requires WellSub(l.subs[i]) && bytes == SubBytes(RenamedSub(l.subs[i], prefix)) &&
      (more > 0 <==> SubRenamable(l.subs[i]))
    ensures Progress(buf, next, end, l, i + 1, prefix, out + bytes, renamed + more)
  {
    hide ReadSubs, Encode, SubBytes, WellSub, RenamedSub, SubRenamable;
    var done := RenamedSubs(l.subs, prefix);
    assert done[..i + 1] == done[..i] + [done[i]];
    SubsBytesNext(done[..i], done[i]);
    assert l.subs[..i + 1] == l.subs[..i] + [l.subs[i]];
    MoreRenamable(l.subs[..i], l.subs[i]);
    assert (Encode(l.version) + SubsBytes(done[..i])) + bytes == Encode(l.version) + (SubsBytes(done[..i]) + bytes);
  }

  lemma MoreRenamable(subs: seq<Sub>, sub: Sub)
    ensures HasRenamable(subs + [sub]) <==> HasRenamable(subs) || SubRenamable(sub)
  {
    hide SubRenamable;
    var all := subs + [sub];
    if HasRenamable(subs) {
      var i :| 0 <= i < |subs| && SubRenamable(subs[i]);
      assert SubRenamable(all[i]);
    }
    assert SubRenamable(sub) ==> SubRenamable(all[|subs|]);
  }

  lemma ProgressEnds(buf: Bytes, end: nat, l: Linking, i: nat, prefix: Bytes, out: Bytes, renamed: nat)
    requires Progress(buf, end, end, l, i, prefix, out, renamed)
    ensures out == LinkingBytes(RenamedLinking(l, prefix)) && (renamed > 0 <==> HasRenamable(l.subs))
  {
    assert buf[end..end] == [];
    assert i == |l.subs| && l.subs[..i] == l.subs;
    assert RenamedSubs(l.subs, prefix)[..i] == RenamedSubs(l.subs, prefix);
    hide SubsBytes, Encode, SubRenamable;
  }

  /** `rebuild_linking` */
  method RebuildLinking(buf: Bytes, start: nat, end: nat, prefix: Bytes) returns (ok: bool, out: Bytes)
    ensures start <= end <= |buf| && ReadLinking(buf[start..end]).Some? ==>
      var l := ReadLinking(buf[start..end]).value;
      WellLinking(l) && (ok <==> HasRenamable(l.subs)) && (ok ==> out == LinkingBytes(RenamedLinking(l, prefix)))
  {
    hide ReadLinking, ReadSubs, At, Progress, Encode, ReadTable, AllWell, Collected, SubRenamable, TableRenamable;
    hide HasRenamable;
    ghost var good := start <= end <= |buf| && ReadLinking(buf[start..end]).Some?;
    ghost var l := if good then ReadLinking(buf[start..end]).value else Linking(0, []);
    if good {
      ProgressStarts(buf, start, end, prefix);
    }
    var version, off;
    ok, version, off := ReadUleb(buf, start);
    if !ok {
      return false, [];
    }
    out := WriteUleb(version);
    var renamed := 0;
    ghost var i := 0;
    while off < end
      invariant good ==> Progress(buf, off, end, l, i, prefix, out, renamed)
      decreases end - off
    {
      ghost var before := off;
      if good {
        ProgressSubs(buf, off, end, l, i, prefix, out, renamed);
        NextSub(buf, off, end, l, i);
      }
      var tag, size, a;
      ok, tag, a := ReadUleb(buf, off);
      if !ok {
        return false, [];
      }
      ok, size, off := ReadUleb(buf, a);
      if !ok {
        return false, [];
      }
      var subEnd := off + size;
      var more := 0;
      var sub: Bytes;
      if tag == SYMTAB {
        var entries;
        ok, entries := ParseSymbols(buf, off, subEnd);
        if good {
          TableOf(buf[off..subEnd], l.subs[i]);
        }
        if !ok {
          return false, [];
        }
        sub, more := RebuildTable(entries, prefix, if good then l.subs[i].symbols else []);
      } else {
        sub := Slice(buf, off, subEnd);
      }
      var t := WriteUleb(tag);
      var z := WriteUleb(if tag == SYMTAB then |sub| else size);
      if good {
        RebuiltSub(buf, off, subEnd, tag, l.subs[i], prefix, t, z, sub, more);
        ProgressNext(buf, before, subEnd, end, l, i, prefix, out, renamed, t + (z + sub), more);
        i := i + 1;
      }
      assert out + (t + (z + sub)) == out + t + z + sub;
      out := out + t + z + sub;
      renamed := renamed + more;
      off := subEnd;
    }
    if good {
      ProgressSubs(buf, off, end, l, i, prefix, out, renamed);
      ProgressEnds(buf, end, l, i, prefix, out, renamed);
    }
    ok := renamed != 0;
  }

  lemma ProgressSubs(buf: Bytes, off: nat, end: nat, l: Linking, i: nat, prefix: Bytes, out: Bytes, renamed: nat)
    requires Progress(buf, off, end, l, i, prefix, out, renamed)
    ensures off <= end <= |buf| && i <= |l.subs| && WellLinking(l) && ReadSubs(buf[off..end]) == Some(l.subs[i..])
    ensures i < |l.subs| ==> WellSub(l.subs[i])
  {
    hide ReadSubs;
  }

  lemma TableOf(payload: Bytes, sub: Sub)
    requires ReadSub(SYMTAB, payload) == Some(sub) && WellSub(sub)
    ensures sub.Table? && ReadTable(payload) == Some(sub.symbols) && AllWell(sub.symbols)
  {
    hide ReadTable;
  }

  lemma RebuiltSub(buf: Bytes, off: nat, end: nat, tag: nat, sub: Sub, prefix: Bytes, t: Bytes, z: Bytes, bytes: Bytes,
                   more: nat)
    requires off <= end <= |buf| && WellSub(sub) && ReadSub(tag, buf[off..end]) == Some(sub)
    requires t == Encode(tag) && z == Encode(if tag == SYMTAB then |bytes| else end - off)
    requires tag == SYMTAB ==>
      bytes == TableBytes(RenamedTable(sub.symbols, prefix)) && (more > 0 <==> TableRenamable(sub.symbols))
    requires tag != SYMTAB ==> bytes == Slice(buf, off, end) && more == 0
    ensures t + (z + bytes) == SubBytes(RenamedSub(sub, prefix)) && (more > 0 <==> SubRenamable(sub))
  {
    hide ReadTable, Encode, TableBytes, TableRenamable;
    SliceIs(buf, off, end);
  }

  /** `main`, between reading the raw object and writing the final one: None
      when it exits with an error. */
  method RenameObject(buf: Bytes, prefix: Bytes) returns (out: Option<Bytes>)
    ensures WellFormed(buf) ==> out == Rename(buf, prefix)
    ensures !(|buf| >= 4 && buf[..4] == MAGIC) ==> out.None?
  {
    hide Locate, ReadLinking, LinkingBytes, RenamedLinking, WellLinking, HasRenamable, Encode;
    var place := FindLinking(buf);
    if place.None? {
      return None;
    }
    var at := place.value;
    var ok, payload := RebuildLinking(buf, at.payload, at.end, prefix);
    if !ok {
      return None;
    }
    var name := Slice(buf, at.name, at.payload);
    var body := WriteUleb(|name|);
    body := body + name + payload;
    var size := WriteUleb(|body|);
    out := Some(Slice(buf, 0, at.id) + [0] + size + body + Slice(buf, at.end, |buf|));
    if WellFormed(buf) {
      PlaceNamed(buf, 8);
      assert body == Body(payload);
      assert out.value == buf[..at.id] + (([0] + (size + body)) + buf[at.end..]);
    }
  }

  lemma {:induction false} PlaceNamed(buf: Bytes, off: nat)
    requires Locate(buf, off).Some?
    ensures var at := Locate(buf, off).value; Slice(buf, at.name, at.payload) == LINKING
    decreases |buf| - off
  {
    hide SectionAt, NameOf;
    var (size, body) := SectionAt(buf, off).value;
    if Locate(buf, off).value.id != off {
      LocateSkipped(buf, off);
      LocateSkips(buf, off, size, body);
      PlaceNamed(buf, body + size);
    } else {
      NameOfSlice(buf, body, size);
    }
  }

  lemma NameOfSlice(buf: Bytes, body: nat, size: nat)
    requires body + size <= |buf| && NameOf(buf[body..][..size]).Some?
    ensures var (name, at) := NameOf(buf[body..][..size]).value; Slice(buf, body + at, body + at + |name|) == name
  {
    hide Uleb;
    var (name, at) := NameOf(buf[body..][..size]).value;
    SliceOfFront(buf[body..], at, at + |name|, size);
    SliceOfRest(buf, body, at, at + |name|);
  }
}
