/** Unsigned LEB128 numbers (section 5.2.2 of the WebAssembly Core Specification). */
module Leb128 {
  import opened Wrappers

  type Byte = b: int | 0 <= b < 256

  type Bytes = seq<Byte>

  /** The value at the front of s and the number of bytes it takes; None if s
      ends inside it. Padding with zero groups is allowed. */
  function Uleb(s: Bytes): (r: Option<(nat, nat)>)
    ensures r.Some? ==> 0 < r.value.1 <= |s|
  {
    if s == [] then None
    else if s[0] < 128 then Some((s[0] as nat, 1))
    else
      var rest := Uleb(s[1..]);
      if rest.None? then None else Some((s[0] - 128 + 128 * rest.value.0, rest.value.1 + 1))
  }

  /** The shortest encoding. */
  function Encode(v: nat): (r: Bytes)
    ensures r != []
  {
    if v < 128 then [v] else [128 + v % 128] + Encode(v / 128)
  }

  lemma {:induction false} EncodeDecodes(v: nat, rest: Bytes)
    ensures Uleb(Encode(v) + rest) == Some((v, |Encode(v)|))
  {
    if v >= 128 {
      EncodeDecodes(v / 128, rest);
      assert (Encode(v) + rest)[1..] == Encode(v / 128) + rest;
    }
  }

  /** Only the bytes of the number itself matter. */
  lemma {:induction false} UlebLocal(s: Bytes, t: Bytes)
    requires Uleb(s).Some? && Uleb(s).value.1 <= |t| && t[..Uleb(s).value.1] == s[..Uleb(s).value.1]
    ensures Uleb(t) == Uleb(s)
  {
    var k := Uleb(s).value.1;
    assert t[0] == t[..k][0] == s[..k][0] == s[0];
    if s[0] >= 128 {
      assert s[1..][..k - 1] == s[..k][1..] == t[..k][1..] == t[1..][..k - 1];
      UlebLocal(s[1..], t[1..]);
    }
  }

  /** Exactly one number. */
  predicate IsUleb(s: Bytes) {
    Uleb(s).Some? && Uleb(s).value.1 == |s|
  }

  lemma UlebOf(s: Bytes, rest: Bytes)
    requires IsUleb(s)
    ensures Uleb(s + rest) == Uleb(s)
  {
    assert (s + rest)[..|s|] == s == s[..|s|];
    UlebLocal(s, s + rest);
  }

  lemma UlebPrefix(s: Bytes)
    requires Uleb(s).Some?
    ensures IsUleb(s[..Uleb(s).value.1]) && Uleb(s[..Uleb(s).value.1]) == Uleb(s)
  {
    var k := Uleb(s).value.1;
    assert s[..k][..k] == s[..k];
    UlebLocal(s, s[..k]);
  }

  lemma EncodeIsUleb(v: nat)
    ensures IsUleb(Encode(v)) && Uleb(Encode(v)).value.0 == v
  {
    EncodeDecodes(v, []);
    assert Encode(v) + [] == Encode(v);
  }

  /** The result of `read_uleb` at an offset; None for an index error. */
  function At(buf: Bytes, off: nat): Option<(nat, nat)> {
    if off <= |buf| then Uleb(buf[off..]) else None
  }

  /** The front of a number: its last group, or a group and the rest. */
  lemma AtFront(buf: Bytes, off: nat)
    requires off < |buf|
    ensures buf[off] < 128 ==> At(buf, off) == Some((buf[off] as nat, 1))
    ensures buf[off] >= 128 ==> At(buf, off) == Continue(buf[off] - 128, 128, 1, At(buf, off + 1))
  {
    assert buf[off..][1..] == buf[off + 1..];
  }

  lemma AtEnd(buf: Bytes, off: nat)
    requires off >= |buf|
    ensures At(buf, off).None?
  {
  }

  /** `read_uleb` */
  method ReadUleb(buf: Bytes, off: nat) returns (ok: bool, value: nat, next: nat)
    ensures ok <==> At(buf, off).Some?
    ensures ok ==> At(buf, off) == Some((value, next - off)) && off < next <= |buf|
  {
    hide At, Continue;
    value, next, ok := 0, off, false;
    var scale: nat := 1; // 1 << shift
    ghost var whole := At(buf, off);
    Start(whole);
    while next < |buf|
      invariant off <= next && scale > 0 && (off <= |buf| ==> next <= |buf|)
      invariant whole == Continue(value, scale, next - off, At(buf, next))
    {
      var b := buf[next];
      AtFront(buf, next);
      Step(value, scale, next - off, b, At(buf, next + 1));
      value := value + (b as nat % 128) * scale;
      next := next + 1;
      if b < 128 {
        ok := true;
        return;
      }
      scale := scale * 128;
    }
    AtEnd(buf, next);
    ContinueNone(value, scale, next - off);
  }

  lemma ContinueNone(low: nat, scale: nat, k: nat)
    ensures Continue(low, scale, k, None).None?
  {
  }

  /** A number that starts with k groups of value `low`, scaled so far, and goes on with rest. */
  function Continue(low: nat, scale: nat, k: nat, rest: Option<(nat, nat)>): Option<(nat, nat)> {
    if rest.None? then None else Some((low + scale * rest.value.0, k + rest.value.1))
  }

  lemma Start(rest: Option<(nat, nat)>)
    ensures Continue(0, 1, 0, rest) == rest
  {
  }

  lemma Step(low: nat, scale: nat, k: nat, b: Byte, rest: Option<(nat, nat)>)
    ensures b >= 128 ==>
      Continue(low, scale, k, Continue(b - 128, 128, 1, rest))
      == Continue(low + (b as nat % 128) * scale, scale * 128, k + 1, rest)
    ensures b < 128 ==> Continue(low, scale, k, Some((b as nat, 1))) == Some((low + (b as nat % 128) * scale, k + 1))
  {
    if b >= 128 && rest.Some? {
      var v := rest.value.0;
      assert scale * (b - 128 + 128 * v) == (b - 128) * scale + scale * 128 * v;
    }
  }

  /** `write_uleb` */
  method WriteUleb(v: nat) returns (out: Bytes)
    ensures out == Encode(v)
  {
    out := [];
    var value := v;
    while true
      invariant out + Encode(value) == Encode(v)
      decreases value
    {
      var b := value % 128;
      ghost var before, rest := out, Encode(value);
      value := value / 128;
      if value != 0 {
        out := out + [b + 128];
        assert before + rest == before + ([128 + b] + Encode(value)) == out + Encode(value);
      } else {
        out := out + [b];
        return;
      }
    }
  }
}
