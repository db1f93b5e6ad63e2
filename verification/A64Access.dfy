/** The loads and stores of one register in A64: decoding of a word and its
    effect on registers and memory (DDI 0487, sections C4.1 and C6.2). */
module A64Access {
  import opened A64
  import opened StackSetup
  import opened Wrappers

  /** How the bytes loaded into a general register are extended: with zeros, or
      with the sign to 32 or to 64 bits. */
  datatype Extension = Zeros | Sign32 | Sign64

  datatype Transfer = Transfer(load: bool, vector: bool, bytes: nat, extension: Extension)

  datatype Offset = Fixed(bytes: bv64) | Register(rm: bv32)

  datatype Access = Access(what: Transfer, rt: bv32, rn: bv32, offset: Offset)

  // ----- decoding -----

  function Bytes(size: bv32): nat {
    if size == 0 then 1 else if size == 1 then 2 else if size == 2 then 4 else 8
  }

  /** The fields size, V and opc; None for prefetches and what is not allocated. */
  function DecodeTransfer(size: bv32, vector: bool, opc: bv32): Option<Transfer> {
    if vector then
      if opc <= 1 then Some(Transfer(opc == 1, true, Bytes(size), Zeros))
      else if size == 0 then Some(Transfer(opc == 3, true, 16, Zeros))
      else None
    else if opc <= 1 then Some(Transfer(opc == 1, false, Bytes(size), Zeros))
    else if opc == 2 && size <= 2 then Some(Transfer(true, false, Bytes(size), Sign64))
    else if opc == 3 && size <= 1 then Some(Transfer(true, false, Bytes(size), Sign32))
    else None
  }

  function TransferOf(w: bv32): Option<Transfer> {
    DecodeTransfer((w >> 30) & 3, w & 0x400_0000 != 0, (w >> 22) & 3)
  }

  /** The twelve-bit offset counts in units of the access size. */
  function Scaled(bytes: nat, imm: bv64): bv64 {
    if bytes == 1 then imm
    else if bytes == 2 then imm << 1
    else if bytes == 4 then imm << 2
    else if bytes == 8 then imm << 3
    else imm << 4
  }

  function SignExtend9(imm: bv64): bv64 {
    if imm & 0x100 != 0 then imm | 0xffff_ffff_ffff_fe00 else imm
  }

  /** Loads and stores with an unsigned scaled offset, an unscaled signed
      offset, or an unshifted register offset. */
  function DecodeAccess(w: bv32): Option<Access> {
    var what, rt, rn := TransferOf(w), w & 31, (w >> 5) & 31;
    if what.None? then None
    else if w & 0x3b00_0000 == 0x3900_0000 then
      Some(Access(what.value, rt, rn, Fixed(Scaled(what.value.bytes, ((w >> 10) & 0xfff) as bv64))))
    else if w & 0x3b20_0c00 == 0x3800_0000 then
      Some(Access(what.value, rt, rn, Fixed(SignExtend9(((w >> 12) & 0x1ff) as bv64))))
    else if w & 0x3b20_fc00 == 0x3820_6800 then
      Some(Access(what.value, rt, rn, Register((w >> 16) & 31)))
    else None
  }

  // ----- execution -----

  /** Bytes of memory by address, modulo 2^64. */
  type Memory = nat -> bv8

  /** General registers, vector registers as sixteen bytes with the lowest
      first, and memory. */
  datatype State = State(regs: Regs, vectors: bv32 -> seq<bv8>, mem: Memory)

  const TOP: nat := 0x1_0000_0000_0000_0000

  /** The address that an access reaches from the registers s. */
  function AddressOf(a: Access, s: Regs): bv64 {
    match a.offset
    case Fixed(bytes) => Plus(s(a.rn), bytes)
    case Register(rm) => Plus(s(a.rn), s(rm))
  }

  /** The address k bytes behind a. */
  function Cell(a: nat, k: nat): nat {
    (a + k) % TOP
  }

  /** The n bytes from address a on. */
  function Fetch(mem: Memory, a: nat, n: nat): (r: seq<bv8>)
    ensures |r| == n
    decreases n
  {
    if n == 0 then [] else [mem(Cell(a, 0))] + Fetch(mem, a + 1, n - 1)
  }

  function Stored(mem: Memory, a: nat, data: seq<bv8>): Memory
    decreases data
  {
    if data == [] then mem
    else
      var rest := Stored(mem, a + 1, data[1..]);
      (p: nat) => if p == Cell(a, 0) then data[0] else rest(p)
  }

  function LowByte(x: bv64): bv8 {
    (x & 0xff) as bv8
  }

  function Down(x: bv64): bv64 {
    x >> 8
  }

  function Joined(b: bv8, higher: bv64): bv64 {
    (b as bv64) | (higher << 8)
  }

  /** The lowest n bytes of x, the lowest first. */
  function LowBytes(x: bv64, n: nat): (r: seq<bv8>)
    ensures |r| == n
    decreases n
  {
    if n == 0 then [] else [LowByte(x)] + LowBytes(Down(x), n - 1)
  }

  function Number(data: seq<bv8>): bv64 {
    if data == [] then 0 else Joined(data[0], Number(data[1..]))
  }

  /** A number of 8, 16 or 32 bits with its sign in the higher bits. */
  function SignedTo64(bytes: nat, x: bv64): bv64 {
    if bytes == 1 then if x & 0x80 != 0 then x | 0xffff_ffff_ffff_ff00 else x
    else if bytes == 2 then if x & 0x8000 != 0 then x | 0xffff_ffff_ffff_0000 else x
    else SignExtend32(x)
  }

  /** The same with the sign in the bits up to 31. */
  function SignedTo32(bytes: nat, x: bv64): bv64 {
    if bytes == 1 then if x & 0x80 != 0 then x | 0xffff_ff00 else x
    else if x & 0x8000 != 0 then x | 0xffff_0000
    else x
  }

  function Extended(how: Extension, bytes: nat, x: bv64): bv64 {
    match how
    case Zeros => x
    case Sign64 => SignedTo64(bytes, x)
    case Sign32 => SignedTo32(bytes, x)
  }

  function ZeroBytes(n: nat): seq<bv8> {
    seq(n, _ => 0)
  }

  /** The bytes that a store takes from its register. */
  function Outgoing(a: Access, m: State): seq<bv8> {
    if a.what.vector then
      var v := m.vectors(a.rt);
      if a.what.bytes <= |v| then v[..a.what.bytes] else v
    else LowBytes(Read(m.regs, a.rt), a.what.bytes)
  }

  function SetVector(vectors: bv32 -> seq<bv8>, r: bv32, v: seq<bv8>): bv32 -> seq<bv8> {
    (q: bv32) => if q == r then v else vectors(q)
  }

  /** The effect of a load or store. */
  function Perform(a: Access, m: State): State {
    var at := AddressOf(a, m.regs) as nat;
    if !a.what.load then m.(mem := Stored(m.mem, at, Outgoing(a, m)))
    else
      var data := Fetch(m.mem, at, a.what.bytes);
      if a.what.vector then
        var rest := if a.what.bytes <= 16 then ZeroBytes(16 - a.what.bytes) else [];
        m.(vectors := SetVector(m.vectors, a.rt, data + rest))
      else m.(regs := Write(m.regs, a.rt, Extended(a.what.extension, a.what.bytes, Number(data))))
  }

  // ----- memory -----

  lemma CellNext(a: nat, k: nat)
    ensures Cell(a + 1, k) == Cell(a, k + 1)
  {
  }

  lemma {:induction false} StoredElsewhere(mem: Memory, a: nat, data: seq<bv8>, p: nat)
    requires forall k: nat :: k < |data| ==> Cell(a, k) != p
    ensures Stored(mem, a, data)(p) == mem(p)
    decreases data
  {
    hide Cell;
    if data != [] {
      var next := a + 1;
      forall k: nat | k < |data[1..]| ensures Cell(next, k) != p {
        CellNext(a, k);
      }
      StoredElsewhere(mem, a + 1, data[1..], p);
    }
  }

  lemma CellsDiffer(a: nat, k: nat)
    requires k < 16
    ensures Cell(a + 1, k) != Cell(a, 0)
  {
  }

  lemma {:induction false} FetchSame(mem: Memory, mem': Memory, a: nat, n: nat)
    requires forall k: nat :: k < n ==> mem'(Cell(a, k)) == mem(Cell(a, k))
    ensures Fetch(mem', a, n) == Fetch(mem, a, n)
    decreases n
  {
    hide Cell;
    if n > 0 {
      var next := a + 1;
      forall k: nat | k < n - 1 ensures mem'(Cell(next, k)) == mem(Cell(next, k)) {
        CellNext(a, k);
      }
      FetchSame(mem, mem', a + 1, n - 1);
    }
  }

  /** What is stored is fetched again. */
  lemma {:induction false} FetchStored(mem: Memory, a: nat, data: seq<bv8>)
    requires |data| <= 16
    ensures Fetch(Stored(mem, a, data), a, |data|) == data
    decreases data
  {
    hide Cell;
    if data != [] {
      var next := a + 1;
      var rest := Stored(mem, next, data[1..]);
      FetchStored(mem, next, data[1..]);
      forall k: nat | k < |data| - 1 ensures Stored(mem, a, data)(Cell(next, k)) == rest(Cell(next, k)) {
        CellsDiffer(a, k);
      }
      FetchSame(rest, Stored(mem, a, data), next, |data| - 1);
    }
  }

  // ----- bytes of a register -----

  function Masked(x: bv64, mask: bv64): bv64 {
    x & mask
  }

  function Widened(mask: bv64): bv64 {
    0xff | (mask << 8)
  }

  function LowMask(n: nat): bv64 {
    if n == 0 then 0 else Widened(LowMask(n - 1))
  }

  predicate StepOf(x: bv64, m: bv64, low: bv8, down: bv64, wide: bv64, y: bv64) {
    low == (x & 0xff) as bv8 && down == x >> 8 && wide == 0xff | (m << 8) && y == down & m
  }

  lemma StepIs(x: bv64, m: bv64)
    ensures StepOf(x, m, LowByte(x), Down(x), Widened(m), Masked(Down(x), m))
  {
  }

  lemma StepMasked(x: bv64, m: bv64, low: bv8, down: bv64, wide: bv64, y: bv64)
    requires StepOf(x, m, low, down, wide, y)
    ensures Joined(low, y) == Masked(x, wide)
  {
  }

  lemma JoinedMasked(x: bv64, m: bv64)
    ensures Joined(LowByte(x), Masked(Down(x), m)) == Masked(x, Widened(m))
  {
    hide *;
    StepIs(x, m);
    StepMasked(x, m, LowByte(x), Down(x), Widened(m), Masked(Down(x), m));
  }

  lemma {:induction false} NumberOfLow(x: bv64, n: nat)
    ensures Number(LowBytes(x, n)) == Masked(x, LowMask(n))
    decreases n
  {
    hide Masked, Widened, LowByte, Down, Joined;
    if n > 0 {
      NumberOfLow(Down(x), n - 1);
      JoinedMasked(x, LowMask(n - 1));
      assert LowBytes(x, n)[1..] == LowBytes(Down(x), n - 1);
    } else {
      NothingMasked(x);
    }
  }

  lemma NothingMasked(x: bv64)
    ensures Masked(x, 0) == 0
  {
  }

  lemma LowMasks()
    ensures LowMask(1) == 0xff && LowMask(2) == 0xffff && LowMask(4) == 0xffff_ffff
    ensures LowMask(8) == 0xffff_ffff_ffff_ffff
  {
  }
}
