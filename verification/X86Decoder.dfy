/** The x86 decoder's cursor (`source/x86/decoder.c`): every byte it passes over goes into
    a log of spans, whatever the input and however decoding ends. */
module X86Decoder {
  import opened Wrappers
  import opened X86Prefixes
  import opened X86PrefixOrder
  import opened X86Length

  datatype SpanKind =
    | OpcodeSpan | MapSpan | ModrmSpan | SibSpan | DispSpan | AbsSegSpan | ImmSpan
    | PrefixSpan | RexSpan | Vex2Span | Vex3Span | EvexSpan | MvexSpan

  /** One entry of `bytecodes`: the bytes of its value as they lie in memory. */
  datatype Span = Span(kind: SpanKind, bytes: seq<Byte>)

  /** `AMED_X86_MAX_BYTECODE_COUNT`. */
  const MAX_BYTECODES: nat := 15

  /** The instruction bytes a span stands for.  The two map bytes are stored as the
      16-bit number 0x0f38, so in memory they are the other way round. */
  function SpanText(s: Span): seq<Byte> {
    if s.kind == MapSpan && |s.bytes| == 2 then [s.bytes[1], s.bytes[0]] else s.bytes
  }

  function Text(log: seq<Span>): seq<Byte>
    decreases |log|
  {
    if log == [] then [] else Text(log[..|log| - 1]) + SpanText(log[|log| - 1])
  }

  lemma TextOfOneMore(log: seq<Span>, s: Span)
    ensures Text(log + [s]) == Text(log) + SpanText(s)
  {
    assert (log + [s])[..|log|] == log;
  }

  function TotalLength(spans: seq<Span>): nat
    decreases |spans|
  {
    if spans == [] then 0 else TotalLength(spans[..|spans| - 1]) + |spans[|spans| - 1].bytes|
  }

  lemma {:induction false} TextLength(spans: seq<Span>)
    ensures |Text(spans)| == TotalLength(spans)
    decreases |spans|
  {
    if spans != [] {
      TextLength(spans[..|spans| - 1]);
    }
  }

  /** The spans of `log` spell the bytes before the cursor, which may be one past the end,
      after a missing ModRM byte that reads as 0.  Once the 8-bit cursor has wrapped round,
      only the lengths still add up. */
  predicate Spells(address: seq<Byte>, log: seq<Span>, pc: nat, laps: nat) {
    && |Text(log)| == pc + 256 * laps
    && (laps == 0 ==>
      pc <= |address| + 1 && Text(log) == (address + [0])[..pc] && (pc == |address| + 1 ==> EndsInModrm(log)))
  }

  predicate EndsInModrm(log: seq<Span>) {
    log != [] && log[|log| - 1].kind == ModrmSpan
  }

  /** A span of the bytes the cursor moved over keeps the spelling. */
  lemma Spanned(address: seq<Byte>, log: seq<Span>, pc: nat, laps: nat, kind: SpanKind, bytes: seq<Byte>)
    requires Spells(address, log, pc, laps) && pc + |bytes| <= |address| && kind != MapSpan
    requires bytes == address[pc..pc + |bytes|]
    ensures Spells(address, log + [Span(kind, bytes)], pc + |bytes|, laps)
  {
    hide Text;
    TextOfOneMore(log, Span(kind, bytes));
    if laps == 0 {
      OneMore(address, pc, bytes);
    }
  }

  lemma OneMore(address: seq<Byte>, pc: nat, bytes: seq<Byte>)
    requires pc + |bytes| <= |address| && bytes == address[pc..pc + |bytes|]
    ensures (address + [0])[..pc + |bytes|] == (address + [0])[..pc] + bytes
  {
  }

  lemma SpannedByte(address: seq<Byte>, log: seq<Span>, pc: nat, laps: nat, kind: SpanKind, byte: Byte)
    requires Spells(address, log, pc, laps) && pc < |address| && byte == address[pc] && kind != MapSpan
    ensures Spells(address, log + [Span(kind, [byte])], pc + 1, laps)
    ensures [byte] == address[pc..pc + 1]
  {
    hide Spells;
    assert [byte] == address[pc..pc + 1];
    Spanned(address, log, pc, laps, kind, [byte]);
  }

  lemma SpannedModrm(address: seq<Byte>, log: seq<Span>, pc: nat, byte: Byte)
    requires Spells(address, log, pc, 0) && pc <= |address| <= 255 && byte == (address + [0])[pc]
    ensures Spells(address, log + [Span(ModrmSpan, [byte])], (pc + 1) % 256, (pc + 1) / 256)
  {
    hide Text;
    TextOfOneMore(log, Span(ModrmSpan, [byte]));
    assert (address + [0])[..pc + 1] == (address + [0])[..pc] + [byte];
  }

  /** The bytes of a number in memory, sign extended to `width` bytes. */
  function SignExtended(bytes: seq<Byte>, width: nat): (r: seq<Byte>)
    requires bytes != []
    ensures |r| >= |bytes| && r[..|bytes|] == bytes
  {
    if |bytes| >= width then bytes
    else bytes + seq(width - |bytes|, _ => if bytes[|bytes| - 1] & 0x80 != 0 then 0xff else 0)
  }

  /** `imm.i64`, which is 0 until bytes are peeked into its low end. */
  function Peeked64(bytes: seq<Byte>): (r: seq<Byte>)
    ensures |r| >= |bytes| && r[..|bytes|] == bytes
  {
    if |bytes| >= 8 then bytes else bytes + seq(8 - |bytes|, _ => 0)
  }

  // ----- the rest of `x86_diagram` -----

  datatype Modrm = Modrm(
    mod: Byte, reg: Byte, rm: Byte, modreg: bool, cr: bool, hasModrm: bool,
    scale: Byte, index: Byte, base: Byte, hasSib: bool, hasDisp: bool)

  function MapSpanOf(n: nat, op: Byte): Span {
    Span(MapSpan, if n == 2 then [op, 0x0f] else [0x0f])
  }

  lemma MapText(address: seq<Byte>, start: nat, n: nat, op: Byte)
    requires 1 <= n <= 2 && start + n <= |address|
    requires address[start] == 0x0f && (n == 2 ==> address[start + 1] == op)
    ensures (address + [0])[..start + n] == (address + [0])[..start] + SpanText(MapSpanOf(n, op))
    ensures SpanText(MapSpanOf(n, op)) == address[start..start + n]
  {
  }

  class Decoder {
    const address: seq<Byte>
    const mode: Mode
    var pc: uint8
    var bytecodes: array<Span>
    var count: nat
    var longMode: bool
    var sizes: Sizes
    var flags: Flags
    var rex: Rex
    var vector: Vector
    var vfpc: uint8
    var map_: OpcodeMap
    var segment: Segment
    var lastF: LastF
    var isUgly: bool
    var modrm: Modrm
    var hash: Hash
    var is4: Byte
    var hasIs4: bool
    var isUndefined: bool
    var entry: Entry
    var hasBase: bool
    var hasIndex: bool
    var compressed: bool

    /** Every span added, also those that no longer fit into `bytecodes`. */
    ghost var log: seq<Span>

    /** How often the cursor has wrapped round. */
    ghost var laps: nat

    constructor (address: seq<Byte>, mode: Mode)
      requires |address| <= 255
      ensures Valid() && fresh(bytecodes) && pc == 0 && log == [] && laps == 0
      ensures this.address == address && this.mode == mode
      ensures State() == InitialState(mode) && !isUndefined && hash == NoHash && !hasIs4
    {
      this.address, this.mode := address, mode;
      pc, count, log, laps := 0, 0, [], 0;
      bytecodes := new Span[MAX_BYTECODES](_ => Span(OpcodeSpan, []));
      longMode := mode == Mode64;
      sizes := Sizes(DefaultOperandSize(mode), DefaultAddressSize(mode), false);
      flags := Flags(false, false, false, false);
      rex := Rex(false, false, false, false, false, false, false, false);
      vector := Vector(Legacy, 0, 0, 0, 0, false, false, 0);
      vfpc, map_, segment, lastF, isUgly, isUndefined := 0, Primary, NoSegment, NoF, false, false;
      modrm := Modrm(0, 0, 0, false, false, false, 0, 0, 0, false, false);
      hash := NoHash;
      is4, hasIs4, hasBase, hasIndex, compressed := 0, false, false, false, false;
      entry := Entry(false, false, false, false, []);
    }

    ghost function State(): State
      reads `longMode, `sizes, `flags, `rex, `vector, `vfpc, `map_, `segment, `lastF, `isUgly
    {
      X86Prefixes.State(longMode, sizes, flags, rex, vector, vfpc, map_, segment, lastF, isUgly)
    }

    /** `bytecodes` holds the first spans. */
    ghost predicate Recorded()
      reads `count, `log, `bytecodes, bytecodes
    {
      && bytecodes.Length == MAX_BYTECODES
      && count == (if |log| <= MAX_BYTECODES then |log| else MAX_BYTECODES)
      && bytecodes[..count] == log[..count]
    }

    ghost predicate Valid()
      reads `pc, `count, `log, `laps, `vfpc, `bytecodes, bytecodes
    {
      && Recorded() && Spells(address, log, pc, laps)
      && |address| <= 255 && pc <= |address| + 1 && (laps == 0 ==> vfpc <= pc)
    }

    /** From the old state the cursor moved over one span of `n` bytes. */
    twostate predicate Took(kind: SpanKind, n: nat)
      reads this
    {
      && pc == old(pc) + n <= |address|
      && log == old(log) + [Span(kind, address[old(pc)..pc])]
    }

    twostate predicate Stayed()
      reads this
    {
      pc == old(pc) && log == old(log) && State() == old(State())
    }

    /** `length` bytes of a buffer; beyond 15 spans nothing is recorded. */
    method AddBytecode(buffer: seq<Byte>, kind: SpanKind, length: uint8)
      requires Recorded() && length <= |buffer|
      modifies `count, `log, bytecodes
      ensures Recorded()
      ensures log == old(log) + [Span(kind, buffer[..length])]
      ensures length == |buffer| ==> log == old(log) + [Span(kind, buffer)]
    {
      assert length == |buffer| ==> buffer[..length] == buffer;
      if count < MAX_BYTECODES {
        bytecodes[count] := Span(kind, buffer[..length]);
        count := count + 1;
      }
      log := log + [Span(kind, buffer[..length])];
    }

    method AdvanceByte()
      requires pc < 255
      modifies `pc
      ensures pc == old(pc) + 1
    {
      pc := pc + 1;
    }

    /** `peek_byte`: the caller's byte stays when there is none. */
    method PeekByte(byte: Byte) returns (ok: bool, peeked: Byte)
      ensures ok <==> pc + 1 <= |address|
      ensures peeked == if ok then address[pc] else byte
    {
      if pc + 1 > |address| {
        return false, byte;
      }
      return true, address[pc];
    }

    method PeekBytes(n: uint8) returns (ok: bool, buffer: seq<Byte>)
      ensures ok <==> pc + n <= |address|
      ensures ok ==> buffer == address[pc..pc + n]
    {
      if pc + n > |address| {
        return false, [];
      }
      return true, address[pc..pc + n];
    }

    method AddSegment(op: Byte, segment': Segment)
      requires Valid() && laps == 0 && pc < |address| && address[pc] == op
      requires segment' == SegmentOf(op) != NoSegment
      modifies `pc, `count, `log, bytecodes
      modifies `sizes, `flags, `rex, `vector, `vfpc, `map_, `segment, `lastF, `isUgly
      ensures Valid() && bytecodes == old(bytecodes) && Took(PrefixSpan, 1)
      ensures State() == Step(mode, old(State()), op)
    {
      hide Step, SegmentOf, Recorded, Spells;
      StepOfSegment(mode, State(), op);
      ghost var before, from := log, pc;
      var _, byte := PeekByte(0);
      AdvanceByte();
      AddBytecode([byte], PrefixSpan, 1);
      SpannedByte(address, before, from, laps, PrefixSpan, byte);
      if segment != NoSegment {
        isUgly := true;
      }
      segment := segment';
    }

    method DecodeRex() returns (ok: bool)
      requires Valid() && laps == 0 && pc < |address| && IsRexByte(address[pc])
      modifies `pc, `count, `log, bytecodes
      modifies `sizes, `flags, `rex, `vector, `vfpc, `map_, `segment, `lastF, `isUgly
      ensures Valid() && bytecodes == old(bytecodes)
      ensures ok <==> old(longMode)
      ensures ok ==> Took(RexSpan, 1) && State() == Step(mode, old(State()), address[old(pc)])
      ensures !ok ==> Stayed()
    {
      hide Step, IsRexByte, Has, Recorded, Spells;
      if !longMode {
        return false;
      }
      var peeked, op := PeekByte(0);
      if !peeked {
        return false;
      }
      ghost var before, from := log, pc;
      AdvanceByte();
      SetRexFields(op);
      AddBytecode([op], RexSpan, 1);
      SpannedByte(address, before, from, laps, RexSpan, op);
      return true;
    }

    method SetRexFields(op: Byte)
      requires IsRexByte(op) && vfpc < 255
      modifies `rex, `vfpc, `sizes
      ensures State() == Step(mode, old(State()), op) && vfpc == old(vfpc) + 1
    {
      hide Step, IsRexByte, Has, WithW, WithRex;
      StepOfRex(mode, State(), op);
      SetRex(op);
      vfpc := vfpc + 1;
      SetW(Has(op, 8));
    }

    method SetRex(op: Byte)
      modifies `rex
      ensures rex == WithRex(old(rex), op)
    {
      rex := rex.(fb := Has(op, 1), b := Has(op, 1));
      rex := rex.(r := Has(op, 4));
      rex := rex.(x := Has(op, 2));
      rex := rex.(hasRex := true);
    }

    method SetW(value: bool)
      modifies `sizes
      ensures sizes == WithW(old(sizes), value)
    {
      sizes := sizes.(w := value);
      if value {
        sizes := sizes.(osz := 2);
      }
    }

    method SetPp(pp: Byte)
      modifies `flags
      ensures flags == WithPp(old(flags), pp)
    {
      if pp == 1 {
        flags := flags.(p66 := true);
      } else if pp == 2 {
        flags := flags.(f3 := true);
      } else if pp == 3 {
        flags := flags.(f2 := true);
      }
    }

    method SetLl(ll: Byte)
      modifies `vector
      ensures vector == WithLl(old(vector), ll)
    {
      vector := vector.(vl := if ll == 0 then 0 else if ll == 1 then 1 else 2);
      vector := vector.(ll := ll);
    }

    /** R, X and B, which these prefixes hold inverted. */
    method SetRxb(byte: Byte)
      modifies `rex
      ensures rex == WithRxb(old(rex), byte)
    {
      rex := rex.(hasRex := true);
      rex := rex.(r := !Has(byte, 0x80));
      rex := rex.(x := !Has(byte, 0x40));
      rex := rex.(b := !Has(byte, 0x20));
    }

    /** `set_mmmmm_field`: reserved maps are refused and change nothing. */
    method SetMap(mmmmm: Byte) returns (ok: bool)
      modifies `map_
      ensures ok <==> MapOf(mmmmm).Some?
      ensures map_ == if ok then MapOf(mmmmm).value else old(map_)
    {
      match mmmmm {
        case 1 => map_ := Map0F;
        case 2 => map_ := Map0F38;
        case 3 => map_ := Map0F3A;
        case _ => return false;
      }
      return true;
    }

    /** All or nothing, like the other vector prefixes. */
    method DecodeVex2() returns (ok: bool)
      requires Valid()
      modifies `pc, `count, `log, bytecodes
      modifies `sizes, `flags, `rex, `vector, `vfpc, `map_, `segment, `lastF, `isUgly
      ensures Valid() && bytecodes == old(bytecodes)
      ensures ok <==> old(pc) + 2 <= |address| && Vex2(old(State()), address[old(pc)..old(pc) + 2]).Some?
      ensures ok ==> Took(Vex2Span, 2) && Some(State()) == Vex2(old(State()), address[old(pc)..pc])
      ensures !ok ==> Stayed()
    {
      hide Vex2, Recorded, Spells;
      var peeked, p := PeekBytes(2);
      if !peeked {
        return false;
      }
      ok := SetVex2(p);
      if ok {
        ghost var before, from := log, pc;
        pc := pc + 2;
        AddBytecode(p, Vex2Span, 2);
        Spanned(address, before, from, laps, Vex2Span, p);
      }
    }

    method SetVex2(p: seq<Byte>) returns (ok: bool)
      requires |p| == 2
      modifies `map_, `sizes, `flags, `rex, `vector
      ensures ok <==> Vex2(old(State()), p).Some?
      ensures State() == if ok then Vex2(old(State()), p).value else old(State())
    {
      hide Has, WithPp, WithLl, Inverted4;
      if !longMode && !Has(p[1], 0x80) {
        return false;
      }
      map_ := Map0F;
      SetPp(p[1] & 3);
      SetLl(if Has(p[1], 4) then 1 else 0);
      vector := vector.(enc := Vex);
      rex := rex.(hasRex := true);
      rex := rex.(r := !Has(p[1], 0x80));
      vector := vector.(vvvv := Inverted4((p[1] >> 3) & 0xf));
      return true;
    }

    method DecodeVex3() returns (ok: bool)
      requires Valid()
      modifies `pc, `count, `log, bytecodes
      modifies `sizes, `flags, `rex, `vector, `vfpc, `map_, `segment, `lastF, `isUgly
      ensures Valid() && bytecodes == old(bytecodes)
      ensures ok <==> old(pc) + 3 <= |address| && Vex3(old(State()), address[old(pc)..old(pc) + 3]).Some?
      ensures ok ==> Took(Vex3Span, 3) && Some(State()) == Vex3(old(State()), address[old(pc)..pc])
      ensures !ok ==> Stayed()
    {
      hide Vex3, Recorded, Spells;
      var peeked, p := PeekBytes(3);
      if !peeked {
        return false;
      }
      ok := SetVex3(p);
      if ok {
        ghost var before, from := log, pc;
        pc := pc + 3;
        AddBytecode(p, Vex3Span, 3);
        Spanned(address, before, from, laps, Vex3Span, p);
      }
    }

    method SetVex3(p: seq<Byte>) returns (ok: bool)
      requires |p| == 3
      modifies `map_, `sizes, `flags, `rex, `vector
      ensures ok <==> Vex3(old(State()), p).Some?
      ensures State() == if ok then Vex3(old(State()), p).value else old(State())
    {
      hide Has, AllSet, WithPp, WithLl, WithW, WithRxb, Inverted4, MapOf;
      if !longMode && !AllSet(p[1]) {
        return false;
      }
      ok := SetMap(p[1] & 0x1f);
      if !ok {
        return;
      }
      SetW(Has(p[2], 0x80));
      SetPp(p[2] & 3);
      SetLl(if Has(p[2], 4) then 1 else 0);
      vector := vector.(enc := Vex);
      SetRxb(p[1]);
      vector := vector.(vvvv := Inverted4((p[2] >> 3) & 0xf));
    }

    /** The span of an XOP prefix is recorded as one of VEX3. */
    method DecodeXop() returns (ok: bool)
      requires Valid()
      modifies `pc, `count, `log, bytecodes
      modifies `sizes, `flags, `rex, `vector, `vfpc, `map_, `segment, `lastF, `isUgly
      ensures Valid() && bytecodes == old(bytecodes)
      ensures ok <==> old(pc) + 3 <= |address| && XopPrefix(old(State()), address[old(pc)..old(pc) + 3]).Some?
      ensures ok ==> Took(Vex3Span, 3) && Some(State()) == XopPrefix(old(State()), address[old(pc)..pc])
      ensures !ok ==> Stayed()
    {
      hide XopPrefix, Recorded, Spells;
      var peeked, p := PeekBytes(3);
      if !peeked {
        return false;
      }
      ok := SetXop(p);
      if ok {
        ghost var before, from := log, pc;
        pc := pc + 3;
        AddBytecode(p, Vex3Span, 3);
        Spanned(address, before, from, laps, Vex3Span, p);
      }
    }

    method SetXop(p: seq<Byte>) returns (ok: bool)
      requires |p| == 3
      modifies `map_, `sizes, `flags, `rex, `vector
      ensures ok <==> XopPrefix(old(State()), p).Some?
      ensures State() == if ok then XopPrefix(old(State()), p).value else old(State())
    {
      hide Has, AllSet, WithW, WithRxb, Inverted4;
      if !longMode && !AllSet(p[1]) {
        return false;
      }
      match p[1] & 0x1f {
        case 8 => map_ := MapXop8;
        case 9 => map_ := MapXop9;
        case 10 => map_ := MapXopA;
        case _ => return false;
      }
      vector := vector.(enc := Xop);
      SetRxb(p[1]);
      vector := vector.(vvvv := Inverted4((p[2] >> 3) & 0xf));
      SetW(Has(p[2], 0x80));
      SetLl(if Has(p[2], 4) then 1 else 0);
      return true;
    }

    method DecodeMevex() returns (ok: bool)
      requires Valid()
      modifies `pc, `count, `log, bytecodes
      modifies `sizes, `flags, `rex, `vector, `vfpc, `map_, `segment, `lastF, `isUgly
      ensures Valid() && bytecodes == old(bytecodes)
      ensures ok <==> old(pc) + 4 <= |address| && MevexPrefix(old(State()), address[old(pc)..old(pc) + 4]).Some?
      ensures ok ==> Took(if IsEvex(address[old(pc)..old(pc) + 4]) then EvexSpan else MvexSpan, 4)
      ensures ok ==> Some(State()) == MevexPrefix(old(State()), address[old(pc)..pc])
      ensures !ok ==> Stayed()
    {
      hide MevexPrefix, IsEvex, Recorded, Spells;
      var peeked, p := PeekBytes(4);
      if !peeked {
        return false;
      }
      ok := SetMevex(p);
      if ok {
        var kind := if IsEvex(p) then EvexSpan else MvexSpan;
        ghost var before, from := log, pc;
        AddBytecode(p, kind, 4);
        pc := pc + 4;
        Spanned(address, before, from, laps, kind, p);
      }
    }

    method SetMevex(p: seq<Byte>) returns (ok: bool)
      requires |p| == 4
      modifies `map_, `sizes, `flags, `rex, `vector
      ensures ok <==> MevexPrefix(old(State()), p).Some?
      ensures State() == if ok then MevexPrefix(old(State()), p).value else old(State())
    {
      hide EvexPrefix, MvexPrefix, IsEvex;
      if !IsEvex(p) {
        if !longMode {
          return false;
        }
        ok := SetMvex(p);
      } else {
        ok := SetEvex(p);
      }
    }

    method SetMvex(p: seq<Byte>) returns (ok: bool)
      requires |p| == 4
      modifies `map_, `sizes, `flags, `rex, `vector
      ensures ok <==> MvexPrefix(old(State()), p).Some?
      ensures State() == if ok then MvexPrefix(old(State()), p).value else old(State())
    {
      hide Has, WithPp, WithW, WithRxb, Inverted4;
      match p[1] & 0xf {
        case 0 => map_ := Map0F;
        case 1 => map_ := Map0F;
        case 2 => map_ := Map0F38;
        case 3 => map_ := Map0F3A;
        case _ => return false;
      }
      SetPp(p[2] & 3);
      SetW(Has(p[2], 0x80));
      SetRxb(p[1]);
      rex := rex.(rp := !Has(p[1], 0x10), vp := !Has(p[3], 8));
      vector := vector.(e := Has(p[3], 0x80), aaa := p[3] & 7, vvvv := Inverted4((p[2] >> 3) & 0xf));
      vector := vector.(z := false, sss := (p[3] >> 4) & 7, enc := Mvex);
      return true;
    }

    method SetEvex(p: seq<Byte>) returns (ok: bool)
      requires |p| == 4
      modifies `map_, `sizes, `flags, `rex, `vector
      ensures ok <==> EvexPrefix(old(State()), p).Some?
      ensures State() == if ok then EvexPrefix(old(State()), p).value else old(State())
    {
      hide Has, AllSet, WithPp, WithLl, WithW, WithRxb, Inverted4, MapOf;
      if !longMode && !AllSet(p[1]) {
        return false;
      }
      ok := SetMap(p[1] & 3);
      if !ok {
        return;
      }
      SetPp(p[2] & 3);
      SetW(Has(p[2], 0x80));
      SetLl((p[3] >> 5) & 3);
      SetRxb(p[1]);
      rex := rex.(rp := !Has(p[1], 0x10), vp := !Has(p[3], 8), bp := Has(p[3], 0x10), fb := Has(p[3], 0x10));
      vector := vector.(aaa := p[3] & 7, vvvv := Inverted4((p[2] >> 3) & 0xf));
      vector := vector.(z := Has(p[3], 0x80), enc := Evex);
    }

    /** The map bytes read so far, `n` of them.  Two are stored as a number, the 0F in
        the higher byte. */
    method RecordMap(ghost start: nat, n: uint8, op: Byte)
      requires Recorded() && start + n == pc <= |address| <= 255 && laps == 0 && vfpc <= start
      requires Spells(address, log, start, 0)
      requires 1 <= n <= 2 && address[start] == 0x0f && (n == 2 ==> address[start + 1] == op)
      modifies `count, `log, bytecodes
      ensures Valid()
      ensures log == old(log) + [MapSpanOf(n, op)] && SpanText(MapSpanOf(n, op)) == address[start..pc]
    {
      hide Text, SpanText;
      MapText(address, start, n, op);
      TextOfOneMore(log, MapSpanOf(n, op));
      AddBytecode(MapSpanOf(n, op).bytes, MapSpan, n);
    }

    /** One span more, of the map bytes the cursor moved over. */
    twostate predicate TookMap()
      reads this
    {
      && |log| == |old(log)| + 1 && old(log) <= log && log[|old(log)|].kind == MapSpan
      && old(pc) <= pc <= |address| && SpanText(log[|old(log)|]) == address[old(pc)..pc]
    }

    method DecodeMap()
      requires Valid() && laps == 0 && pc < |address| && address[pc] == 0x0f
      modifies `pc, `count, `log, bytecodes
      modifies `sizes, `flags, `rex, `vector, `vfpc, `map_, `segment, `lastF, `isUgly
      ensures Valid() && bytecodes == old(bytecodes)
      ensures pc == old(pc) + EscapeLength(address[old(pc)..])
      ensures State() == old(State()).(map_ := EscapeMap(address[old(pc)..]))
      ensures TookMap()
      ensures Escaped()
    {
      hide Recorded, Spells, SpanText;
      ghost var start := pc;
      ghost var rest := address[pc..];
      assert rest[0] == 0x0f;
      map_ := Map0F;
      pc := pc + 1;
      var peeked, op := PeekByte(0);
      assert peeked <==> |rest| > 1;
      assert peeked ==> rest[1] == op;
      if peeked {
        match op {
          case 0x0f =>
            map_ := Map0F0F;
            pc := pc + 1;
            RecordMap(start, 2, op);
            return;
          case 0x38 =>
            map_ := Map0F38;
            pc := pc + 1;
            RecordMap(start, 2, op);
            return;
          case 0x3a =>
            map_ := Map0F3A;
            pc := pc + 1;
            RecordMap(start, 2, op);
            return;
          case _ =>
        }
      }
      RecordMap(start, 1, 0);
    }

    /** The cursor and the state after `AfterRun`. */
    twostate predicate Escaped()
      reads this
      requires old(pc) <= |address|
    {
      && pc == old(pc) + AfterRunLength(old(State()), address[old(pc)..])
      && State() == AfterRun(old(State()), address[old(pc)..])
    }

    method ScanSize(op: Byte)
      requires Valid() && laps == 0 && pc < |address| && address[pc] == op && (op == 0x66 || op == 0x67)
      modifies `pc, `count, `log, bytecodes
      modifies `sizes, `flags, `rex, `vector, `vfpc, `map_, `segment, `lastF, `isUgly
      ensures Valid() && bytecodes == old(bytecodes) && Took(PrefixSpan, 1)
      ensures State() == Step(mode, old(State()), op)
    {
      hide Step, Recorded, Spells;
      SetSizeFields(op);
      ghost var before, from := log, pc;
      AdvanceByte();
      AddBytecode([op], PrefixSpan, 1);
      SpannedByte(address, before, from, laps, PrefixSpan, op);
    }

    method SetSizeFields(op: Byte)
      requires (op == 0x66 || op == 0x67) && vfpc < 255
      modifies `flags, `sizes, `vfpc
      ensures State() == Step(mode, old(State()), op) && vfpc <= old(vfpc) + 1
    {
      hide Step;
      StepOfSize(mode, State(), op);
      if op == 0x66 {
        vfpc := vfpc + 1;
        flags := flags.(p66 := true);
        sizes := sizes.(osz := DefaultOperandSize(mode) / 2);
      } else {
        sizes := sizes.(asz := DefaultAddressSize(mode) / 2);
      }
    }

    method ScanFlag(op: Byte)
      requires Valid() && laps == 0 && pc < |address| && address[pc] == op && (op == 0xf0 || op == 0xf2 || op == 0xf3)
      modifies `pc, `count, `log, bytecodes
      modifies `sizes, `flags, `rex, `vector, `vfpc, `map_, `segment, `lastF, `isUgly
      ensures Valid() && bytecodes == old(bytecodes) && Took(PrefixSpan, 1)
      ensures State() == Step(mode, old(State()), op)
    {
      hide Step, Recorded, Spells;
      SetFlagFields(op);
      ghost var before, from := log, pc;
      AdvanceByte();
      AddBytecode([op], PrefixSpan, 1);
      SpannedByte(address, before, from, laps, PrefixSpan, op);
    }

    method SetFlagFields(op: Byte)
      requires (op == 0xf0 || op == 0xf2 || op == 0xf3) && vfpc < 255
      modifies `flags, `lastF, `vfpc
      ensures State() == Step(mode, old(State()), op) && vfpc == old(vfpc) + 1
    {
      hide Step;
      StepOfFlag(mode, State(), op);
      vfpc := vfpc + 1;
      if op == 0xf0 {
        flags := flags.(f0 := true);
      } else if op == 0xf2 {
        lastF := F2;
        flags := flags.(f2 := true);
      } else {
        lastF := F3;
        flags := flags.(f3 := true);
      }
    }

    /** The vector prefixes; one that is refused is taken for an opcode. */
    method ScanVector(op: Byte)
      requires Valid() && laps == 0 && pc < |address| && address[pc] == op && op in {0x8f, 0x62, 0xc4, 0xc5}
      modifies `pc, `count, `log, bytecodes
      modifies `sizes, `flags, `rex, `vector, `vfpc, `map_, `segment, `lastF, `isUgly
      ensures Valid() && bytecodes == old(bytecodes) && Escaped()
    {
      hide Recorded, Spells, Vex2, Vex3, XopPrefix, MevexPrefix;
      ghost var rest := address[pc..];
      assert rest[0] == op && EscapeLength(rest) == 0;
      assert forall n :: 0 <= n <= |rest| ==> rest[..n] == address[pc..pc + n];
      var ok;
      match op {
        case 0x8f => ok := DecodeXop();
        case 0x62 => ok := DecodeMevex();
        case 0xc4 => ok := DecodeVex3();
        case _ => ok := DecodeVex2();
      }
    }

    /** One turn of the loop at `reenter`: a prefix, or the end of the prefixes. */
    method ScanOne() returns (again: bool)
      requires Valid() && laps == 0 && pc <= |address| && (longMode <==> mode == Mode64)
      modifies `pc, `count, `log, bytecodes
      modifies `sizes, `flags, `rex, `vector, `vfpc, `map_, `segment, `lastF, `isUgly
      ensures Valid() && bytecodes == old(bytecodes)
      ensures again <==> old(pc) < |address| && IsPrefix(mode, address[old(pc)])
      ensures again ==> pc == old(pc) + 1 && State() == Step(mode, old(State()), address[old(pc)])
      ensures !again ==> Escaped()
    {
      hide Step, Recorded, Spells, VectorPrefix, AfterRun, AfterRunLength, EscapeLength, EscapeMap, TookMap;
      var peeked, op := PeekByte(0);
      if !peeked {
        NoEscape(State(), address[pc..]);
        return false;
      }
      assert address[pc..][0] == op;
      if IsRexByte(op) {
        NoEscape(State(), address[pc..]);
        again := DecodeRex();
      } else if op == 0x0f {
        DecodeMap();
        again := false;
      } else if op == 0x8f || op == 0x62 || op == 0xc4 || op == 0xc5 {
        ScanVector(op);
        again := false;
      } else if SegmentOf(op) != NoSegment {
        AddSegment(op, SegmentOf(op));
        again := true;
      } else if op == 0x66 || op == 0x67 {
        ScanSize(op);
        again := true;
      } else if op == 0xf0 || op == 0xf2 || op == 0xf3 {
        ScanFlag(op);
        again := true;
      } else {
        NoEscape(State(), address[pc..]);
        again := false;
      }
    }

    /** The prefix loop: it takes the whole run of prefixes and what follows it, and ends
        because every prefix moves the cursor. */
    method ScanPrefixes()
      requires Valid() && laps == 0 && pc == 0 && State() == InitialState(mode)
      modifies `pc, `count, `log, bytecodes
      modifies `sizes, `flags, `rex, `vector, `vfpc, `map_, `segment, `lastF, `isUgly
      ensures Valid() && bytecodes == old(bytecodes)
      ensures State() == AtDispatch(mode, address) && pc == DispatchAt(mode, address)
    {
      hide Step, Recorded, Spells, AfterRun, AfterRunLength, IsPrefix;
      var again := true;
      assert address[..0] == [];
      while again
        invariant Valid() && bytecodes == old(bytecodes)
        invariant again ==> InRun()
        invariant !again ==> State() == AtDispatch(mode, address) && pc == DispatchAt(mode, address)
        decreases if again then 1 + |address| - pc else 0
      {
        ghost var start, before := pc, State();
        again := ScanOne();
        if again {
          StepKeepsMode(mode, before, address[start]);
          assert address[..pc][..start] == address[..start];
        } else {
          RunLengthIs(mode, address, start);
        }
      }
    }

    /** Only prefixes so far. */
    ghost predicate InRun()
      reads this
    {
      && pc <= |address|
      && (forall i :: 0 <= i < pc ==> IsPrefix(mode, address[i]))
      && State() == Steps(mode, InitialState(mode), address[..pc])
      && (longMode <==> mode == Mode64)
    }

    // ----- ModRM, SIB and displacement -----

    method SetModrm(byte: Byte)
      modifies `modrm
      ensures modrm == old(modrm).(mod := ModOf(byte), reg := RegOf(byte), rm := RmOf(byte),
                                   modreg := ModOf(byte) == 3, cr := RegOf(byte) != 0)
    {
      modrm := modrm.(mod := (byte >> 6) & 3);
      modrm := modrm.(reg := (byte >> 3) & 7);
      modrm := modrm.(rm := byte & 7);
      modrm := modrm.(modreg := 3 == modrm.mod);
      modrm := modrm.(cr := if modrm.reg != 0 then true else false);
    }

    /** Only the fields that reading operands writes change, and the log only grows. */
    twostate predicate Advanced()
      reads this, bytecodes
    {
      && Valid() && bytecodes == old(bytecodes)
      && old(log) <= log && old(pc) <= pc
    }

    method DecodeDisp(length: uint8) returns (ok: bool)
      requires Valid() && (length == 1 || length == 2 || length == 4)
      modifies `pc, `count, `log, bytecodes, `modrm, `compressed
      ensures Advanced()
      ensures ok <==> old(pc) + length <= |address|
      ensures Cursor(ok, pc) == Over(address, old(pc), length)
      ensures ok ==> Took(DispSpan, length) && modrm == old(modrm).(hasDisp := true)
      ensures ok ==>
        (compressed <==> old(compressed) || (length == 1 && address[old(pc)] != 0 && vector.enc in {Evex, Mvex}))
      ensures !ok ==> pc == old(pc) && log == old(log) && modrm == old(modrm)
    {
      hide Recorded, Spells;
      if pc + length > |address| {
        return false;
      }
      if length == 1 && address[pc] != 0 && (vector.enc == Evex || vector.enc == Mvex) {
        compressed := true;
      }
      var p := address[pc..pc + length];
      var disp := SignExtended(p, 4);
      modrm := modrm.(hasDisp := true);
      ghost var before, from := log, pc;
      pc := pc + length;
      AddBytecode(disp, DispSpan, length);
      Spanned(address, before, from, laps, DispSpan, p);
      return true;
    }

    /** There is an index unless a legacy instruction has index 4 without REX.X. */
    method SetSib(sib: Byte)
      modifies `modrm, `hasIndex
      ensures modrm == old(modrm).(index := RegOf(sib), base := RmOf(sib), scale := ScaleOf(sib), hasSib := true)
      ensures hasIndex <==> vector.enc != Legacy || rex.x || RegOf(sib) != 4
    {
      modrm := modrm.(index := (sib >> 3) & 7);
      modrm := modrm.(base := sib & 7);
      modrm := modrm.(scale := 1 << ((sib >> 6) & 3));
      modrm := modrm.(hasSib := true);
      hasIndex := Legacy != vector.enc || !(!rex.x && modrm.index == 4);
    }

    /** The fields of a SIB byte. */
    ghost predicate HasFields(sib: Byte)
      reads `modrm, `hasIndex, `vector, `rex
    {
      && modrm.index == RegOf(sib) && modrm.base == RmOf(sib) && modrm.scale == ScaleOf(sib)
      && (hasIndex <==> vector.enc != Legacy || rex.x || RegOf(sib) != 4)
    }

    method DecodeSib() returns (ok: bool)
      requires Valid()
      modifies `pc, `count, `log, bytecodes, `modrm, `compressed, `hasBase, `hasIndex
      ensures Advanced()
      ensures modrm.mod == old(modrm.mod) && modrm.reg == old(modrm.reg) && modrm.rm == old(modrm.rm)
      ensures ok ==> pc == old(pc) + 1 + SibDisp(modrm.mod, modrm.base) <= |address|
      ensures ok ==> old(pc) < |address| && modrm.base == RmOf(address[old(pc)])
      ensures !ok ==> old(pc) + 1 + SibDisp(modrm.mod, modrm.base) > |address|
      ensures Cursor(ok, pc) == SibEnd(address, old(pc), modrm.mod)
      ensures old(pc) < |address| ==> modrm.hasSib && HasFields(address[old(pc)])
      ensures old(pc) < |address| ==> old(log) + [Span(SibSpan, [address[old(pc)]])] <= log
      ensures hasBase <==> old(hasBase) && !(old(pc) < |address| && modrm.base == 5 && modrm.mod == 0)
    {
      hide Recorded, Spells, ScaleOf, RegOf, RmOf, SibDisp, DispEnd;
      var peeked, sib := PeekByte(0);
      if !peeked {
        return false;
      }
      TakeSib(sib);
      ok := SibDisplacement();
    }

    method TakeSib(sib: Byte)
      requires Valid() && pc < |address| && sib == address[pc]
      modifies `pc, `count, `log, bytecodes, `modrm, `hasIndex
      ensures Valid() && bytecodes == old(bytecodes) && pc == old(pc) + 1 <= |address|
      ensures log == old(log) + [Span(SibSpan, [sib])]
      ensures modrm == old(modrm).(index := RegOf(sib), base := RmOf(sib), scale := ScaleOf(sib), hasSib := true)
      ensures HasFields(sib)
    {
      hide Recorded, Spells, ScaleOf, RegOf, RmOf;
      ghost var before, from := log, pc;
      AdvanceByte();
      SetSib(sib);
      AddBytecode([sib], SibSpan, 1);
      SpannedByte(address, before, from, laps, SibSpan, sib);
    }

    /** Base 5 asks for a displacement. */
    method SibDisplacement() returns (ok: bool)
      requires Valid()
      modifies `pc, `count, `log, bytecodes, `modrm, `compressed, `hasBase
      ensures Advanced()
      ensures modrm == old(modrm).(hasDisp := modrm.hasDisp)
      ensures ok ==> pc == old(pc) + SibDisp(modrm.mod, modrm.base)
      ensures ok ==> pc == old(pc) || pc <= |address|
      ensures !ok ==> old(pc) + SibDisp(modrm.mod, modrm.base) > |address|
      ensures Cursor(ok, pc) == DispEnd(address, old(pc), SibDisp(modrm.mod, modrm.base))
      ensures hasBase <==> old(hasBase) && !(modrm.base == 5 && modrm.mod == 0)
    {
      hide Recorded, Spells;
      var length: uint8 := 0;
      if modrm.base == 5 {
        match modrm.mod {
          case 0 =>
            length := 4;
            hasBase := false;
          case 1 => length := 1;
          case 2 => length := 4;
          case _ =>
        }
      }
      if length != 0 {
        ok := DecodeDisp(length);
        return;
      }
      return true;
    }

    /** The fields are those of the byte at the cursor. */
    ghost predicate FieldsHere()
      reads `pc, `modrm
    {
      pc <= |address| && FieldsOf(ByteAt(address, pc))
    }

    ghost predicate FieldsOf(byte: Byte)
      reads `modrm
    {
      modrm.mod == ModOf(byte) && modrm.reg == RegOf(byte) && modrm.rm == RmOf(byte)
    }

    /** The ModRM byte is passed over without a check that it is there: the fields were
        set from a byte peeked before, or from 0.  Past an input of 255 bytes this wraps the
        cursor round. */
    method TakeModrm()
      requires Valid() && laps == 0 && FieldsHere()
      modifies `pc, `count, `log, `laps, bytecodes
      ensures Valid() && bytecodes == old(bytecodes) && old(log) <= log
      ensures pc == (old(pc) + 1) % 256 && laps == (old(pc) + 1) / 256
      ensures log == old(log) + [Span(ModrmSpan, [ByteAt(address, old(pc))])]
    {
      hide ModOf, RegOf, RmOf, ModrmByte, Recorded, Spells;
      ModrmRoundTrip(ByteAt(address, pc));
      SpannedModrm(address, log, pc, ByteAt(address, pc));
      var byte := ModrmByte(modrm.mod, modrm.reg, modrm.rm);
      laps := (pc + 1) / 256;
      pc := (pc + 1) % 256;
      AddBytecode([byte], ModrmSpan, 1);
    }

    method DecodeModrm() returns (ok: bool)
      requires Valid() && laps == 0 && FieldsHere()
      modifies `pc, `count, `log, `laps, bytecodes, `modrm, `compressed, `hasBase, `hasIndex
      ensures Valid() && bytecodes == old(bytecodes) && old(log) <= log
      ensures laps == (old(pc) + 1) / 256 && (laps == 0 ==> old(pc) < pc)
      ensures ok && laps == 0 ==> pc == old(pc) + 1 + TailLength(old(modrm.mod), old(modrm.rm), modrm.base)
      ensures !ok ==> old(pc) + 1 + TailLength(old(modrm.mod), old(modrm.rm), modrm.base) > |address|
      ensures ok && old(pc) < |address| ==> pc <= |address|
      ensures Cursor(ok, pc) == ModrmEnd(address, old(pc))
      ensures old(log) + [Span(ModrmSpan, [ByteAt(address, old(pc))])] <= log
      ensures ok ==> modrm.hasModrm
      ensures modrm.mod == old(modrm.mod) && modrm.reg == old(modrm.reg) && modrm.rm == old(modrm.rm)
    {
      hide Valid, ModOf, RegOf, RmOf, TailLength, HasSib, ModrmDisp, TailEnd;
      ModrmRoundTrip(ByteAt(address, pc));
      TakeModrm();
      var hasSib, length := TailShape();
      ok := DecodeTail(hasSib, length);
      if ok {
        modrm := modrm.(hasModrm := true);
      }
    }

    /** What mod and rm ask for. */
    method TailShape() returns (hasSib: bool, length: uint8)
      requires modrm.mod <= 3
      modifies `hasBase
      ensures hasSib == HasSib(modrm.mod, modrm.rm) && length == ModrmDisp(modrm.mod, modrm.rm)
      ensures hasBase <==> modrm.mod != 0 || modrm.rm != 5 || (longMode && sizes.asz != 0)
    {
      hasSib, length := false, 0;
      hasBase := true;
      match modrm.mod {
        case 0 =>
          if 4 == modrm.rm {
            hasSib := true;
          } else if 5 == modrm.rm {
            length := 4;
            hasBase := longMode && sizes.asz != 0;
          }
        case 1 =>
          hasSib := 4 == modrm.rm;
          length := 1;
        case 2 =>
          hasSib := 4 == modrm.rm;
          length := 4;
        case _ =>
      }
    }

    /** The SIB byte and the displacement of a ModRM byte; it fails just when a byte is
        missing. */
    method DecodeTail(hasSib: bool, length: uint8) returns (ok: bool)
      requires Valid() && modrm.mod <= 3
      requires hasSib == HasSib(modrm.mod, modrm.rm) && length == ModrmDisp(modrm.mod, modrm.rm)
      modifies `pc, `count, `log, bytecodes, `modrm, `compressed, `hasBase, `hasIndex
      ensures Advanced()
      ensures modrm.mod == old(modrm.mod) && modrm.reg == old(modrm.reg) && modrm.rm == old(modrm.rm)
      ensures Cursor(ok, pc) == TailEnd(address, old(pc), modrm.mod, modrm.rm)
      ensures ok ==> pc == old(pc) + TailLength(modrm.mod, modrm.rm, modrm.base)
      ensures ok ==> pc == old(pc) || pc <= |address|
      ensures !ok ==> old(pc) + TailLength(modrm.mod, modrm.rm, modrm.base) > |address|
    {
      hide Recorded, Spells;
      if hasSib {
        ok := DecodeSib();
        if !ok {
          return;
        }
      }
      if length != 0 {
        ok := DecodeDisp(length);
        if !ok {
          return;
        }
      }
      return true;
    }

    // ----- operands -----

    /** The byte that a register and an immediate share is read once; without one the
        value is 0 and the next reader tries again. */
    method GetIs4Value() returns (value: Byte)
      requires Valid()
      modifies `pc, `count, `log, bytecodes, `is4, `hasIs4
      ensures Advanced()
      ensures value == if hasIs4 then is4 else 0
      ensures old(hasIs4) ==> hasIs4 && is4 == old(is4) && pc == old(pc) && log == old(log)
      ensures !old(hasIs4) ==> (hasIs4 <==> old(pc) < |address|)
      ensures !old(hasIs4) && hasIs4 ==> Took(ImmSpan, 1) && is4 == address[old(pc)]
      ensures !hasIs4 ==> pc == old(pc) && log == old(log)
    {
      hide Recorded, Spells;
      if !hasIs4 {
        var peeked;
        peeked, is4 := PeekByte(is4);
        if !peeked {
          return 0;
        }
        ghost var before, from := log, pc;
        AdvanceByte();
        AddBytecode([is4], ImmSpan, 1);
        SpannedByte(address, before, from, laps, ImmSpan, is4);
        hasIs4 := true;
      }
      return is4;
    }

    method DecodeMoffs() returns (ok: bool)
      requires Valid()
      modifies `pc, `count, `log, bytecodes
      ensures Advanced()
      ensures ok ==> sizes.asz <= 2 && Took(DispSpan, if sizes.asz == 0 then 2 else if sizes.asz == 1 then 4 else 8)
      ensures !ok ==> pc == old(pc) && log == old(log)
      ensures Reading(ok, pc, hasIs4) == NodeEnd(address, old(pc), hasIs4, sizes, Moffs)
    {
      hide Recorded, Spells;
      var n: uint8;
      match sizes.asz {
        case 0 => n := 2;
        case 1 => n := 4;
        case 2 => n := 8;
        case _ => return false;
      }
      if pc + n > |address| {
        return false;
      }
      var bytes := address[pc..pc + n];
      var offset := SignExtended(bytes, 8);
      ghost var before, from := log, pc;
      AddBytecode(offset, DispSpan, n);
      pc := pc + n;
      Spanned(address, before, from, laps, DispSpan, bytes);
      return true;
    }

    /** The segment stays consumed when the operand size has no offset or the offset is
        missing. */
    method DecodePtr() returns (ok: bool)
      requires Valid()
      modifies `pc, `count, `log, bytecodes
      ensures Advanced()
      ensures ok <==> sizes.osz <= 1 && old(pc) + 2 + OffsetLength(sizes) <= |address|
      ensures ok ==> pc == old(pc) + 2 + OffsetLength(sizes)
      ensures ok ==> log == old(log) + [Span(AbsSegSpan, address[old(pc)..old(pc) + 2]),
                                        Span(DispSpan, address[old(pc) + 2..pc])]
      ensures !ok && old(pc) + 2 <= |address| ==> Took(AbsSegSpan, 2)
      ensures old(pc) + 2 > |address| ==> pc == old(pc) && log == old(log)
      ensures Cursor(ok, pc) == PtrEnd(address, old(pc), sizes)
    {
      hide Recorded, Spells;
      if pc + 2 > |address| {
        return false;
      }
      var seg := address[pc..pc + 2];
      ghost var before, from := log, pc;
      AddBytecode(seg, AbsSegSpan, 2);
      pc := pc + 2;
      Spanned(address, before, from, laps, AbsSegSpan, seg);
      ok := DecodeOffset();
    }

    method DecodeOffset() returns (ok: bool)
      requires Valid()
      modifies `pc, `count, `log, bytecodes
      ensures Advanced()
      ensures ok <==> sizes.osz <= 1 && old(pc) + OffsetLength(sizes) <= |address|
      ensures ok ==> Took(DispSpan, OffsetLength(sizes))
      ensures !ok ==> pc == old(pc) && log == old(log)
    {
      hide Recorded, Spells;
      var n: uint8;
      match sizes.osz {
        case 0 => n := 2;
        case 1 => n := 4;
        case _ => return false;
      }
      if pc + n > |address| {
        return false;
      }
      var bytes := address[pc..pc + n];
      var offset := SignExtended(bytes, 4);
      ghost var before, from := log, pc;
      AddBytecode(offset, DispSpan, n);
      pc := pc + n;
      Spanned(address, before, from, laps, DispSpan, bytes);
      return true;
    }

    method DecodeImm(n: uint8) returns (ok: bool)
      requires Valid()
      modifies `pc, `count, `log, bytecodes
      ensures Advanced()
      ensures ok <==> old(pc) + n <= |address|
      ensures ok ==> Took(ImmSpan, n)
      ensures !ok ==> pc == old(pc) && log == old(log)
    {
      hide Recorded, Spells;
      var bytes;
      ok, bytes := PeekBytes(n);
      if ok {
        var imm := Peeked64(bytes);
        ghost var before, from := log, pc;
        pc := pc + n;
        AddBytecode(imm, ImmSpan, n);
        Spanned(address, before, from, laps, ImmSpan, bytes);
      }
    }

    method DecodeNode(node: Node) returns (ok: bool)
      requires Valid()
      modifies `pc, `count, `log, bytecodes, `is4, `hasIs4
      ensures Advanced()
      ensures Reading(ok, pc, hasIs4) == NodeEnd(address, old(pc), old(hasIs4), sizes, node)
    {
      hide Recorded, Spells, PtrEnd, MoffsLength;
      match node {
        case Plain(accepted) => ok := accepted;
        case Imm(bytes) => ok := DecodeImm(bytes(sizes.osz));
        case Is4 =>
          var _ := GetIs4Value();
          ok := true;
        case Moffs => ok := DecodeMoffs();
        case Ptr => ok := DecodePtr();
      }
    }

    /** Operands are read in order until one is refused. */
    method DecodeNodes(nodes: seq<Node>) returns (ok: bool)
      requires Valid()
      modifies `pc, `count, `log, bytecodes, `is4, `hasIs4
      ensures Advanced()
      ensures Reading(ok, pc, hasIs4) == NodesEnd(address, old(pc), old(hasIs4), sizes, nodes)
    {
      hide Recorded, Spells, NodeEnd;
      var i := 0;
      assert nodes[0..] == nodes;
      while i < |nodes|
        invariant i <= |nodes| && Advanced()
        invariant NodesEnd(address, pc, hasIs4, sizes, nodes[i..])
          == NodesEnd(address, old(pc), old(hasIs4), sizes, nodes)
      {
        assert nodes[i..][0] == nodes[i] && nodes[i..][1..] == nodes[i + 1..];
        ok := DecodeNode(nodes[i]);
        if !ok {
          return;
        }
        i := i + 1;
      }
      return true;
    }

    // ----- the whole instruction -----

    /** The opcode, which for 3DNow! follows the ModRM byte and its tail.  For the others
        the next byte is looked at as if it were a ModRM byte. */
    method FetchOpcode() returns (ok: bool, op: Byte)
      requires Valid() && laps == 0 && pc <= |address|
      modifies `pc, `count, `log, `laps, bytecodes, `modrm, `compressed, `hasBase, `hasIndex
      ensures Advanced() && laps == 0
      ensures ok ==> old(pc) < pc <= |address| && op == address[pc - 1]
      ensures map_ != Map0F0F ==> (ok <==> old(pc) < |address|)
      ensures ok && map_ != Map0F0F ==> pc == old(pc) + 1
      ensures ok ==> FieldsOf(ByteAt(address, if map_ == Map0F0F then old(pc) else pc))
      ensures Cursor(ok, if ok then pc - 1 else pc) == OpcodeEnd(address, old(pc), map_)
      ensures ok ==> log != [] && log[|log| - 1] == Span(OpcodeSpan, [op])
    {
      hide Recorded, Spells, ModOf, RegOf, RmOf, ModrmEnd;
      if map_ == Map0F0F {
        ok := ModrmFirst();
        if !ok {
          return false, 0;
        }
      }
      ok, op := PeekByte(0);
      if !ok {
        return;
      }
      ghost var before, from := log, pc;
      AdvanceByte();
      if map_ != Map0F0F {
        var _, byte := PeekByte(0);
        SetModrm(byte);
      }
      AddBytecode([op], OpcodeSpan, 1);
      SpannedByte(address, before, from, laps, OpcodeSpan, op);
    }

    /** The ModRM byte of a 3DNow! instruction, with its tail. */
    method ModrmFirst() returns (ok: bool)
      requires Valid() && laps == 0 && pc <= |address|
      modifies `pc, `count, `log, `laps, bytecodes, `modrm, `compressed, `hasBase, `hasIndex
      ensures Advanced() && laps == 0
      ensures ok ==> old(pc) < pc <= |address| && FieldsOf(ByteAt(address, old(pc)))
      ensures Cursor(ok, pc) == if old(pc) == |address| then Cursor(false, old(pc)) else ModrmEnd(address, old(pc))
    {
      hide Recorded, Spells, ModOf, RegOf, RmOf;
      var byte;
      ok, byte := PeekByte(0);
      if !ok {
        return;
      }
      SetModrm(byte);
      ok := DecodeModrm();
    }

    /** The hash code: a legacy instruction is looked up by operand size, where REX.W wins
        over 66, a vector instruction by vector length. */
    method Normalise(op: Byte)
      requires sizes.osz <= 2
      modifies `hash, `sizes, `isUndefined
      ensures State() == Normal(old(State()))
      ensures hash.opcode == op && (hash.yasz <==> old(hash.yasz) || sizes.asz == 1 || sizes.asz == 2)
      ensures vector.enc == Legacy ==> hash.len == sizes.osz
      ensures vector.enc != Legacy ==> hash.len == vector.vl
      ensures old(hash) == NoHash ==> hash == HashOf(old(State()), op)
      ensures isUndefined <==> old(isUndefined) || (vector.enc != Legacy && vfpc != 0)
    {
      hide HashOf;
      ghost var before := State();
      SetAddressSize(op);
      if vector.enc == Legacy {
        if sizes.w {
          sizes := sizes.(osz := 2);
        }
        SetLength();
      } else {
        hash := hash.(len := vector.vl);
        isUndefined := isUndefined || vfpc != 0;
      }
      if old(hash) == NoHash {
        HashIs(before, op, hash);
      }
    }

    method SetAddressSize(op: Byte)
      modifies `hash
      ensures hash == old(hash).(opcode := op, yasz := old(hash.yasz) || sizes.asz == 1 || sizes.asz == 2)
    {
      hash := hash.(opcode := op);
      if sizes.asz == 1 || sizes.asz == 2 {
        hash := hash.(yasz := true);
      }
    }

    method SetLength()
      requires sizes.osz <= 2
      modifies `hash
      ensures hash.len == sizes.osz && hash.opcode == old(hash.opcode) && hash.yasz == old(hash.yasz)
      ensures hash.zosz <==> old(hash.zosz) || sizes.osz <= 1
      ensures hash.yosz <==> old(hash.yosz) || sizes.osz >= 1
    {
      match sizes.osz {
        case 0 => hash := hash.(zosz := true);
        case 1 => hash := hash.(zosz := true, yosz := true);
        case _ => hash := hash.(yosz := true);
      }
      hash := hash.(len := sizes.osz);
    }

    /** In 64-bit mode the template may widen the operands. */
    method Widen()
      modifies `sizes
      ensures sizes == Widened(old(State()), entry)
      ensures sizes.asz == old(sizes.asz) && sizes.w == old(sizes.w)
      ensures !longMode || old(sizes.osz) == 2 || (!entry.f64 && !entry.d64) ==> sizes.osz == old(sizes.osz)
      ensures longMode && old(sizes.osz) != 2 && (entry.f64 || entry.d64) ==>
        sizes.osz == if entry.f64 || !flags.p66 then 2 else 1
    {
      if longMode && 2 != sizes.osz {
        if entry.f64 {
          sizes := sizes.(osz := 2);
        } else if entry.d64 {
          sizes := sizes.(osz := if flags.p66 then 1 else 2);
        }
      }
    }

    /** The real ModRM byte and the operands; whether reading them works is not looked at. */
    method DecodeOperands()
      requires Valid() && laps == 0 && pc <= |address| && (map_ != Map0F0F ==> FieldsHere())
      modifies `pc, `count, `log, `laps, bytecodes, `modrm, `compressed, `hasBase, `hasIndex, `is4, `hasIs4
      ensures Valid() && bytecodes == old(bytecodes)
      ensures !old(hasIs4) ==>
        pc == OperandsEnd(address, old(pc), entry.hasModrm && map_ != Map0F0F, sizes, entry.nodes).pc
      ensures laps == if entry.hasModrm && map_ != Map0F0F then (old(pc) + 1) / 256 else 0
      ensures laps == 0 ==> old(pc) <= pc
    {
      hide Recorded, Spells, ModOf, RegOf, RmOf, ModrmEnd, NodesEnd;
      if entry.hasModrm {
        if map_ != Map0F0F {
          var _ := DecodeModrm();
        }
      } else {
        modrm := modrm.(mod := 0, reg := 0, rm := 0);
      }
      var _ := DecodeNodes(entry.nodes);
    }

    /** The lookup: an unknown instruction is undefined. */
    method LookUp(op: Byte, lookup: Key -> Entry)
      requires sizes.osz <= 2 && hash == NoHash
      modifies `hash, `sizes, `isUndefined, `entry
      ensures hash == HashOf(old(State()), op)
      ensures entry == lookup(KeyOf(old(State()), modrm.mod, modrm.reg, modrm.rm, op))
      ensures sizes == Widened(Normal(old(State())), entry)
      ensures isUndefined <==> old(isUndefined) || (vector.enc != Legacy && vfpc != 0) || !entry.known
    {
      hide HashOf, Widened;
      Normalise(op);
      entry := lookup(Key(MapIndex(map_) + op as int, hash, modrm.mod, modrm.reg, modrm.rm, longMode, sizes, flags, rex, vector));
      isUndefined := isUndefined || !entry.known;
      Widen();
    }

    method Dispatch(op: Byte, lookup: Key -> Entry)
      requires Valid() && laps == 0 && pc <= |address| && sizes.osz <= 2 && hash == NoHash
      requires map_ != Map0F0F ==> FieldsHere()
      modifies `pc, `count, `log, `laps, bytecodes, `modrm, `compressed, `hasBase, `hasIndex, `is4, `hasIs4
      modifies `hash, `sizes, `isUndefined, `entry
      ensures Valid() && bytecodes == old(bytecodes) && hash == HashOf(old(State()), op)
      ensures entry == lookup(KeyOf(old(State()), old(modrm.mod), old(modrm.reg), old(modrm.rm), op))
      ensures sizes == Widened(Normal(old(State())), entry)
      ensures !old(hasIs4) ==>
        pc == OperandsEnd(address, old(pc), entry.hasModrm && map_ != Map0F0F, sizes, entry.nodes).pc
      ensures laps == if entry.hasModrm && map_ != Map0F0F then (old(pc) + 1) / 256 else 0
      ensures laps == 0 ==> old(pc) <= pc
      ensures isUndefined <==> old(isUndefined) || (vector.enc != Legacy && vfpc != 0) || !entry.known
    {
      hide Valid, FieldsOf, HashOf, KeyOf, Normal, Widened, OperandsEnd;
      LookUp(op, lookup);
      DecodeOperands();
    }

    /** `decode_entry`: whatever the bytes are, the cursor and the spans agree when decoding
        ends.  The cursor wraps round in one case only: an input of 255 bytes whose last byte
        is the opcode of an instruction with a ModRM byte.  `vfpc` counts the forbidden
        prefixes, and a vector instruction after one of them is undefined. */
    method DecodeEntry(lookup: Key -> Entry) returns (ok: bool)
      requires Valid() && laps == 0 && pc == 0 && State() == InitialState(mode) && !isUndefined
      requires hash == NoHash && !hasIs4
      modifies this, bytecodes
      ensures Valid() && bytecodes == old(bytecodes)
      ensures Cursor(ok, pc) == DecodeEnd(mode, address, lookup)
      ensures laps == if Wraps(mode, address, lookup) then 1 else 0
      ensures ok ==> OpcodeAt(mode, address).ok && entry == lookup(KeyAt(mode, address))
      ensures vfpc == Count(IsForbidden, address[..RunLength(mode, address)])
      ensures segment == LastSegment(address[..RunLength(mode, address)])
      ensures lastF == LastRepeat(address[..RunLength(mode, address)])
      ensures vector == AtDispatch(mode, address).vector && map_ == AtDispatch(mode, address).map_
      ensures ok ==> (isUndefined <==> (vector.enc != Legacy && vfpc != 0) || !entry.known)
      ensures ok && laps == 0 ==> DispatchAt(mode, address) < pc
      ensures map_ != Map0F0F ==> (ok <==> DispatchAt(mode, address) < |address|)
      ensures ok && map_ != Map0F0F ==> hash.opcode == address[DispatchAt(mode, address)]
      ensures !ok ==> !isUndefined
    {
      hide Valid, AtDispatch, Count, LastSegment, LastRepeat, RunLength, DispatchAt, DecodeEnd, OpcodeAt, KeyAt, Wraps;
      ScanPrefixes();
      DispatchCounts(mode, address);
      DispatchSizes(mode, address);
      ok := DecodeOpcode(lookup);
    }

    /** What follows the prefixes. */
    method DecodeOpcode(lookup: Key -> Entry) returns (ok: bool)
      requires Valid() && laps == 0 && pc == DispatchAt(mode, address) && State() == AtDispatch(mode, address)
      requires hash == NoHash && !hasIs4 && sizes.osz <= 2
      modifies `pc, `count, `log, `laps, bytecodes, `modrm, `compressed, `hasBase, `hasIndex, `is4, `hasIs4
      modifies `hash, `sizes, `isUndefined, `entry
      ensures Valid() && bytecodes == old(bytecodes)
      ensures Cursor(ok, pc) == DecodeEnd(mode, address, lookup)
      ensures laps == if Wraps(mode, address, lookup) then 1 else 0
      ensures ok ==> OpcodeAt(mode, address).ok && entry == lookup(KeyAt(mode, address))
      ensures ok ==> hash.opcode == address[OpcodeAt(mode, address).pc]
      ensures ok ==> (isUndefined <==> old(isUndefined) || (vector.enc != Legacy && vfpc != 0) || !entry.known)
      ensures ok && laps == 0 ==> DispatchAt(mode, address) < pc
      ensures map_ != Map0F0F ==> (ok <==> DispatchAt(mode, address) < |address|)
      ensures ok && map_ != Map0F0F ==> hash.opcode == address[DispatchAt(mode, address)]
      ensures !ok ==> isUndefined == old(isUndefined)
    {
      hide Recorded, Spells, AtDispatch, DispatchAt, ModOf, RegOf, RmOf, ByteAt;
      hide OpcodeEnd, OperandsEnd, HashOf, KeyOf, Normal, Widened;
      var op;
      ok, op := FetchOpcode();
      if !ok {
        return;
      }
      Dispatch(op, lookup);
      return true;
    }

    /** The recorded lengths add up to the cursor when no span was dropped, and otherwise
        fall short of it by what was dropped; a wrapped cursor is short by 256. */
    lemma Conservation()
      requires Valid()
      ensures |log| <= MAX_BYTECODES ==> count == |log| && TotalLength(bytecodes[..count]) == pc + 256 * laps
      ensures TotalLength(bytecodes[..count]) + TotalLength(log[count..]) == pc + 256 * laps
    {
      TextLength(log);
      TotalLengthSplit(log, count);
    }
  }

  lemma {:induction false} TotalLengthSplit(spans: seq<Span>, n: nat)
    requires n <= |spans|
    ensures TotalLength(spans[..n]) + TotalLength(spans[n..]) == TotalLength(spans)
    decreases |spans|
  {
    if n == |spans| {
      assert spans[..n] == spans;
    } else {
      TotalLengthSplit(spans[..|spans| - 1], n);
      assert spans[..|spans| - 1][..n] == spans[..n];
      assert spans[n..][..|spans| - n - 1] == spans[..|spans| - 1][n..];
    }
  }

  /** `amed_x86_decode_insn`, whose length field cuts the input to its length modulo 256.
      On success and on failure the reported length is what the spans cover and at most
      one past the input, except exactly when the cursor has wrapped round. */
  method DecodeInsn(input: seq<Byte>, mode: Mode, lookup: Key -> Entry) returns (ok: bool, decoder: Decoder, length: nat)
    ensures fresh(decoder) && fresh(decoder.bytecodes) && decoder.Valid()
    ensures decoder.address == input[..|input| % 256] && decoder.mode == mode
    ensures input == [] ==> !ok && length == 0
    ensures Cursor(ok, length) == DecodeEnd(mode, decoder.address, lookup)
    ensures decoder.laps == if Wraps(mode, decoder.address, lookup) then 1 else 0
    ensures ok ==> OpcodeAt(mode, decoder.address).ok && decoder.entry == lookup(KeyAt(mode, decoder.address))
    ensures length == decoder.pc
    ensures TotalLength(decoder.log) == length + 256 * decoder.laps
    ensures decoder.laps == 0 ==>
      length <= |decoder.address| + 1 && Text(decoder.log) == (decoder.address + [0])[..length]
    ensures |decoder.log| <= MAX_BYTECODES ==>
      (TotalLength(decoder.bytecodes[..decoder.count]) == length <==> decoder.laps == 0)
    ensures ok ==>
      (decoder.isUndefined <==> (decoder.vector.enc != Legacy && decoder.vfpc != 0) || !decoder.entry.known)
    ensures decoder.count == if |decoder.log| <= 15 then |decoder.log| else 15
    ensures decoder.vfpc == Count(IsForbidden, decoder.address[..RunLength(mode, decoder.address)])
  {
    decoder := new Decoder(input[..|input| % 256], mode);
    ok := false;
    if input != [] {
      ok := decoder.DecodeEntry(lookup);
    }
    decoder.Conservation();
    TextLength(decoder.log);
    length := decoder.pc;
  }
}
