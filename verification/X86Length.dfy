/** How many bytes the x86 decoder passes over, as a function of the input and the tables
    (`source/x86/decoder.c`): where it stops, whether it succeeds, and when its 8-bit cursor
    wraps round. */
module X86Length {
  import opened Wrappers
  import opened X86Prefixes
  import opened X86PrefixOrder

  type uint8 = x: int | 0 <= x < 256

  // ----- the hash code and the tables -----

  /** The fields of the hash code that dispatch fills in. */
  datatype Hash = Hash(opcode: Byte, len: nat, yosz: bool, zosz: bool, yasz: bool)

  const NoHash := Hash(0, 0, false, false, false)

  /** The hash code: a legacy instruction is looked up by operand size, a vector instruction
      by vector length. */
  function HashOf(s: State, op: Byte): (h: Hash)
    ensures h.opcode == op
  {
    var osz, legacy := Normal(s).sizes.osz, s.vector.enc == Legacy;
    Hash(op, if legacy then osz else s.vector.vl, legacy && osz >= 1, legacy && osz <= 1,
         s.sizes.asz == 1 || s.sizes.asz == 2)
  }

  lemma HashIs(s: State, op: Byte, h: Hash)
    requires h.opcode == op && (h.yasz <==> s.sizes.asz == 1 || s.sizes.asz == 2)
    requires var osz := Normal(s).sizes.osz;
      if s.vector.enc == Legacy then h.len == osz && (h.yosz <==> osz >= 1) && (h.zosz <==> osz <= 1)
      else h.len == s.vector.vl && !h.yosz && !h.zosz
    ensures h == HashOf(s, op)
  {
  }

  /** Where the table of a map starts. */
  function MapIndex(m: OpcodeMap): nat {
    match m
    case Primary => 0
    case Map0F => 256
    case Map0F0F => 512
    case Map0F38 => 768
    case Map0F3A => 1024
    case MapXop8 => 1280
    case MapXop9 => 1536
    case MapXopA => 1792
  }

  /** What the lookup sees, the index first.  The rest of the state is there because it may also decide
      whether an operand is accepted. */
  datatype Key = Key(
    index: nat, hash: Hash, mod: Byte, reg: Byte, rm: Byte,
    longMode: bool, sizes: Sizes, flags: Flags, rex: Rex, vector: Vector)

  /** The key for an opcode and a ModRM byte, with the sizes already normalised. */
  function KeyOf(s: State, mod: Byte, reg: Byte, rm: Byte, op: Byte): Key {
    Key(MapIndex(s.map_) + op as int, HashOf(s, op), mod, reg, rm, s.longMode, Normal(s).sizes, s.flags, s.rex, s.vector)
  }

  /** An operand, as far as it reads bytes: an immediate of so many bytes by operand
      size, the shared register or immediate byte, a memory offset, a far pointer, or an
      operand that reads nothing and is accepted or not. */
  datatype Node = Plain(accepted: bool) | Imm(bytes: nat -> uint8) | Is4 | Moffs | Ptr

  /** What the lookup finds; `known` is a non-zero encoding index. */
  datatype Entry = Entry(known: bool, hasModrm: bool, f64: bool, d64: bool, nodes: seq<Node>)

  /** The sizes after the template had its say. */
  function Widened(s: State, entry: Entry): Sizes {
    if !s.longMode || s.sizes.osz == 2 then s.sizes
    else if entry.f64 then s.sizes.(osz := 2)
    else if entry.d64 then s.sizes.(osz := if s.flags.p66 then 1 else 2)
    else s.sizes
  }

  // ----- ModRM, SIB and displacement -----

  function ModOf(byte: Byte): Byte {
    (byte >> 6) & 3
  }

  function RegOf(byte: Byte): Byte {
    (byte >> 3) & 7
  }

  function RmOf(byte: Byte): Byte {
    byte & 7
  }

  /** 1, 2, 4 or 8. */
  function ScaleOf(sib: Byte): Byte {
    1 << ((sib >> 6) & 3)
  }

  /** `amed_x86_modrm`, put together from its fields. */
  function ModrmByte(mod: Byte, reg: Byte, rm: Byte): Byte {
    (mod << 6) | (reg << 3) | rm
  }

  lemma ModrmRoundTrip(byte: Byte)
    ensures ModrmByte(ModOf(byte), RegOf(byte), RmOf(byte)) == byte
    ensures ModOf(byte) <= 3
  {
  }

  /** Displacement bytes that the ModRM byte asks for. */
  function ModrmDisp(mod: Byte, rm: Byte): nat {
    if mod == 0 && rm == 5 then 4 else if mod == 1 then 1 else if mod == 2 then 4 else 0
  }

  /** Displacement bytes that `decode_sib` reads. */
  function SibDisp(mod: Byte, base: Byte): nat {
    if base != 5 then 0 else if mod == 0 then 4 else if mod == 1 then 1 else if mod == 2 then 4 else 0
  }

  predicate HasSib(mod: Byte, rm: Byte) {
    mod != 3 && rm == 4
  }

  /** What the decoder reads after the ModRM byte. */
  function TailLength(mod: Byte, rm: Byte, base: Byte): nat {
    (if HasSib(mod, rm) then 1 + SibDisp(mod, base) else 0) + ModrmDisp(mod, rm)
  }

  /** The same by the manual (Intel SDM volume 2, tables 2-2 and 2-3): mod 1 and mod 2
      have one displacement of 1 or 4 bytes, mod 0 has one of 4 bytes with rm 5 or with
      a SIB byte of base 5. */
  function ManualTailLength(mod: Byte, rm: Byte, base: Byte): nat {
    (if mod != 3 && rm == 4 then 1 else 0)
    + (if mod == 1 then 1
       else if mod == 2 then 4
       else if mod == 0 && (rm == 5 || (rm == 4 && base == 5)) then 4
       else 0)
  }

  /** The decoder agrees with the manual unless there is a SIB byte of base 5 with mod 1
      or 2, whose displacement it reads twice. */
  lemma TailLengthConforms(mod: Byte, rm: Byte, base: Byte)
    requires mod <= 3
    ensures TailLength(mod, rm, base) == ManualTailLength(mod, rm, base)
      <==> !(rm == 4 && base == 5 && (mod == 1 || mod == 2))
    ensures rm == 4 && base == 5 && mod == 1 ==> TailLength(mod, rm, base) == ManualTailLength(mod, rm, base) + 1
    ensures rm == 4 && base == 5 && mod == 2 ==> TailLength(mod, rm, base) == ManualTailLength(mod, rm, base) + 4
  {
  }

  /** Where reading stops, and whether all bytes were there. */
  datatype Cursor = Cursor(ok: bool, pc: nat)

  function Over(address: seq<Byte>, pc: nat, n: nat): Cursor {
    if pc + n > |address| then Cursor(false, pc) else Cursor(true, pc + n)
  }

  /** A displacement of no bytes is not looked for. */
  function DispEnd(address: seq<Byte>, pc: nat, n: nat): Cursor {
    if n == 0 then Cursor(true, pc) else Over(address, pc, n)
  }

  function SibEnd(address: seq<Byte>, pc: nat, mod: Byte): Cursor {
    if pc >= |address| then Cursor(false, pc) else DispEnd(address, pc + 1, SibDisp(mod, RmOf(address[pc])))
  }

  /** After the ModRM byte. */
  function TailEnd(address: seq<Byte>, pc: nat, mod: Byte, rm: Byte): Cursor {
    var sib := if HasSib(mod, rm) then SibEnd(address, pc, mod) else Cursor(true, pc);
    if sib.ok then DispEnd(address, sib.pc, ModrmDisp(mod, rm)) else sib
  }

  /** The byte at the cursor, 0 past the end. */
  function ByteAt(address: seq<Byte>, pc: nat): Byte
    requires pc <= |address|
  {
    (address + [0])[pc]
  }

  /** The ModRM byte is passed over without a look at the end, on an 8-bit cursor. */
  function ModrmEnd(address: seq<Byte>, pc: nat): Cursor
    requires pc <= |address|
  {
    TailEnd(address, (pc + 1) % 256, ModOf(ByteAt(address, pc)), RmOf(ByteAt(address, pc)))
  }

  /** The base in the SIB byte at the cursor. */
  function BaseAt(address: seq<Byte>, pc: nat): Byte {
    if pc < |address| then RmOf(address[pc]) else 0
  }

  /** The tail is read exactly when all its bytes are there. */
  lemma TailEndMeaning(address: seq<Byte>, pc: nat, mod: Byte, rm: Byte)
    ensures var n := TailLength(mod, rm, BaseAt(address, pc));
      && (TailEnd(address, pc, mod, rm).ok <==> n == 0 || pc + n <= |address|)
      && (TailEnd(address, pc, mod, rm).ok ==> TailEnd(address, pc, mod, rm).pc == pc + n)
  {
    hide RmOf;
  }

  // ----- operands -----

  /** Reading operands also remembers whether the shared byte was read. */
  datatype Reading = Reading(ok: bool, pc: nat, hasIs4: bool)

  function Then(c: Cursor, hasIs4: bool): Reading {
    Reading(c.ok, c.pc, hasIs4)
  }

  /** A memory offset has the width of the address size. */
  function MoffsLength(sizes: Sizes): nat {
    if sizes.asz == 0 then 2 else if sizes.asz == 1 then 4 else 8
  }

  /** The offset of a far pointer has 2 or 4 bytes, by the operand size. */
  function OffsetLength(sizes: Sizes): nat {
    if sizes.osz == 0 then 2 else 4
  }

  /** The segment stays consumed when the offset is missing. */
  function PtrEnd(address: seq<Byte>, pc: nat, sizes: Sizes): Cursor {
    if pc + 2 > |address| then Cursor(false, pc)
    else if sizes.osz > 1 then Cursor(false, pc + 2)
    else Over(address, pc + 2, OffsetLength(sizes))
  }

  function NodeEnd(address: seq<Byte>, pc: nat, hasIs4: bool, sizes: Sizes, node: Node): Reading {
    match node
    case Plain(accepted) => Reading(accepted, pc, hasIs4)
    case Imm(bytes) => Then(Over(address, pc, bytes(sizes.osz)), hasIs4)
    case Is4 => if hasIs4 || pc >= |address| then Reading(true, pc, hasIs4) else Reading(true, pc + 1, true)
    case Moffs =>
      Then(if sizes.asz > 2 then Cursor(false, pc) else Over(address, pc, MoffsLength(sizes)), hasIs4)
    case Ptr => Then(PtrEnd(address, pc, sizes), hasIs4)
  }

  /** Operands are read in order until one is refused. */
  function NodesEnd(address: seq<Byte>, pc: nat, hasIs4: bool, sizes: Sizes, nodes: seq<Node>): Reading
    decreases |nodes|
  {
    if nodes == [] then Reading(true, pc, hasIs4)
    else
      var r := NodeEnd(address, pc, hasIs4, sizes, nodes[0]);
      if r.ok then NodesEnd(address, r.pc, r.hasIs4, sizes, nodes[1..]) else r
  }

  /** The bytes of an operand, the shared byte aside. */
  function OwnLength(node: Node, sizes: Sizes): nat {
    match node
    case Plain(_) => 0
    case Imm(bytes) => bytes(sizes.osz)
    case Is4 => 0
    case Moffs => MoffsLength(sizes)
    case Ptr => 2 + OffsetLength(sizes)
  }

  function OwnLengths(nodes: seq<Node>, sizes: Sizes): nat {
    if nodes == [] then 0 else OwnLength(nodes[0], sizes) + OwnLengths(nodes[1..], sizes)
  }

  /** Accepted operands read their own bytes and, all together, the shared byte at most
      once: when one of them asks for it, and unless the input ends before it. */
  lemma {:induction false} NodesMeaning(address: seq<Byte>, pc: nat, hasIs4: bool, sizes: Sizes, nodes: seq<Node>)
    requires NodesEnd(address, pc, hasIs4, sizes, nodes).ok
    ensures var r := NodesEnd(address, pc, hasIs4, sizes, nodes);
      && r.pc == pc + OwnLengths(nodes, sizes) + (if r.hasIs4 && !hasIs4 then 1 else 0)
      && (hasIs4 ==> r.hasIs4)
      && (r.hasIs4 ==> hasIs4 || Is4 in nodes)
      && (Is4 in nodes && r.pc < |address| ==> r.hasIs4)
    decreases |nodes|
  {
    if nodes != [] {
      var r := NodeEnd(address, pc, hasIs4, sizes, nodes[0]);
      NodesMeaning(address, r.pc, r.hasIs4, sizes, nodes[1..]);
      assert nodes == [nodes[0]] + nodes[1..];
    }
  }

  // ----- the whole instruction -----

  /** From the end of the prefixes to the opcode: for 3DNow! it stands after the ModRM byte
      and its tail. */
  function OpcodeEnd(address: seq<Byte>, pc: nat, map_: OpcodeMap): (c: Cursor)
    requires pc <= |address|
    ensures c.ok ==> c.pc < |address|
    ensures map_ != Map0F0F ==> c == Cursor(pc < |address|, pc)
  {
    if map_ != Map0F0F || pc == |address| then Cursor(pc < |address|, pc)
    else
      var modrm := ModrmEnd(address, pc);
      Cursor(modrm.ok && modrm.pc < |address|, modrm.pc)
  }

  /** Where the opcode is. */
  function OpcodeAt(mode: Mode, address: seq<Byte>): (c: Cursor)
    ensures c.ok ==> c.pc < |address|
  {
    OpcodeEnd(address, DispatchAt(mode, address), AtDispatch(mode, address).map_)
  }

  /** What is looked up.  The ModRM byte, real or pretended, stands behind the opcode, or
      for 3DNow! right behind the prefixes. */
  function KeyAt(mode: Mode, address: seq<Byte>): Key
    requires OpcodeAt(mode, address).ok
  {
    var s, opcode := AtDispatch(mode, address), OpcodeAt(mode, address).pc;
    var byte := ByteAt(address, if s.map_ == Map0F0F then DispatchAt(mode, address) else opcode + 1);
    KeyOf(s, ModOf(byte), RegOf(byte), RmOf(byte), address[opcode])
  }

  /** From behind the opcode over the ModRM byte and the operands.  Whether the tail of the
      ModRM byte was there is not looked at. */
  function OperandsEnd(address: seq<Byte>, pc: nat, hasModrm: bool, sizes: Sizes, nodes: seq<Node>): Reading
    requires pc <= |address|
  {
    NodesEnd(address, if hasModrm then ModrmEnd(address, pc).pc else pc, false, sizes, nodes)
  }

  /** All of it for what was looked up. */
  function ReadOperands(mode: Mode, address: seq<Byte>, entry: Entry): Reading
    requires OpcodeAt(mode, address).ok
  {
    var s := AtDispatch(mode, address);
    OperandsEnd(address, OpcodeAt(mode, address).pc + 1, entry.hasModrm && s.map_ != Map0F0F,
                Widened(Normal(s), entry), entry.nodes)
  }

  /** Where decoding ends; it fails only when the opcode is missing. */
  function DecodeEnd(mode: Mode, address: seq<Byte>, lookup: Key -> Entry): Cursor {
    var opcode := OpcodeAt(mode, address);
    if !opcode.ok then opcode
    else Cursor(true, ReadOperands(mode, address, lookup(KeyAt(mode, address))).pc)
  }

  /** The ModRM byte would be the byte after an input of 255. */
  predicate Wraps(mode: Mode, address: seq<Byte>, lookup: Key -> Entry) {
    && |address| == 255 && DispatchAt(mode, address) == 254
    && AtDispatch(mode, address).map_ != Map0F0F && lookup(KeyAt(mode, address)).hasModrm
  }

  // ----- what the length is -----

  /** The ModRM byte and its tail. */
  function ModrmLength(address: seq<Byte>, pc: nat): nat
    requires pc <= |address|
  {
    var byte := ByteAt(address, pc);
    1 + TailLength(ModOf(byte), RmOf(byte), BaseAt(address, pc + 1))
  }

  lemma ModrmEndMeaning(address: seq<Byte>, pc: nat)
    requires pc <= |address| && pc < 255 && ModrmEnd(address, pc).ok
    ensures ModrmEnd(address, pc).pc == pc + ModrmLength(address, pc)
  {
    hide TailEnd, TailLength, ModOf, RmOf, BaseAt;
    TailEndMeaning(address, pc + 1, ModOf(ByteAt(address, pc)), RmOf(ByteAt(address, pc)));
  }

  /** Whether no byte is missing and every operand is accepted. */
  predicate Complete(mode: Mode, address: seq<Byte>, lookup: Key -> Entry) {
    && OpcodeAt(mode, address).ok
    && var entry := lookup(KeyAt(mode, address));
    && ReadOperands(mode, address, entry).ok
    && (entry.hasModrm && AtDispatch(mode, address).map_ != Map0F0F ==>
          ModrmEnd(address, OpcodeAt(mode, address).pc + 1).ok)
  }

  /** A complete instruction has the length of its parts: prefixes and escape, the opcode,
      ModRM with its tail, the operands' own bytes and at most one shared byte. */
  lemma FullLength(mode: Mode, address: seq<Byte>, lookup: Key -> Entry)
    requires |address| <= 255 && Complete(mode, address, lookup) && !Wraps(mode, address, lookup)
    ensures var s, at := AtDispatch(mode, address), DispatchAt(mode, address);
      var entry := lookup(KeyAt(mode, address));
      var modrm :=
        if s.map_ == Map0F0F then ModrmLength(address, at)
        else if entry.hasModrm then ModrmLength(address, at + 1)
        else 0;
      DecodeEnd(mode, address, lookup) ==
        Cursor(true, at + 1 + modrm + OwnLengths(entry.nodes, Widened(Normal(s), entry))
                     + (if ReadOperands(mode, address, entry).hasIs4 then 1 else 0))
  {
    hide AtDispatch, DispatchAt, ModrmEnd, ModrmLength, Normal, Widened, OwnLengths, NodesEnd, KeyOf;
    var s, at := AtDispatch(mode, address), DispatchAt(mode, address);
    var entry := lookup(KeyAt(mode, address));
    if s.map_ == Map0F0F {
      ModrmEndMeaning(address, at);
    } else if entry.hasModrm {
      ModrmEndMeaning(address, at + 1);
    }
    var opcode := OpcodeAt(mode, address).pc;
    var from := if entry.hasModrm && s.map_ != Map0F0F then ModrmEnd(address, opcode + 1).pc else opcode + 1;
    NodesMeaning(address, from, false, Widened(Normal(s), entry), entry.nodes);
  }

  /** A wrapped cursor reads the operands from the first byte on. */
  lemma WrapsToStart(mode: Mode, address: seq<Byte>, lookup: Key -> Entry)
    requires Wraps(mode, address, lookup)
    ensures var entry := lookup(KeyAt(mode, address));
      DecodeEnd(mode, address, lookup)
      == Cursor(true, NodesEnd(address, 0, false, Widened(Normal(AtDispatch(mode, address)), entry), entry.nodes).pc)
  {
    hide AtDispatch, DispatchAt, Normal, Widened, NodesEnd, KeyOf;
    assert ModrmEnd(address, 255) == Cursor(true, 0);
  }

  /** An input on which decoding succeeds and the length comes out 0. */
  lemma WrapWitness(mode: Mode)
    ensures var address := seq(254, _ => 0x67) + [0x00];
      var lookup := (_: Key) => Entry(true, true, false, false, []);
      Wraps(mode, address, lookup) && DecodeEnd(mode, address, lookup) == Cursor(true, 0)
  {
    hide Step, VectorPrefix, EscapeLength, EscapeMap;
    var ops := seq(254, _ => 0x67);
    var address := ops + [0x00];
    var lookup := (_: Key) => Entry(true, true, false, false, []);
    RunLengthIs(mode, address, 254);
    assert address[..254] == ops && address[254..] == [0x00];
    NoEscape(Steps(mode, InitialState(mode), ops), [0x00]);
    RunIsSummary(mode, ops);
    WrapsToStart(mode, address, lookup);
  }
}
