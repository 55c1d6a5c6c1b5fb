/** The vector prefixes by their fields: building the bytes of a prefix and decoding them
    gives the fields back (Intel SDM volume 2, sections 2.3.5 and 2.7). */
module X86VectorEncoding {
  import opened Wrappers
  import opened X86Prefixes

  /** The fields of a vector prefix, as the instruction means them: none is inverted. */
  datatype Fields = Fields(
    r: bool, x: bool, b: bool, w: bool, map_: Byte, vvvv: Byte, ll: Byte, pp: Byte,
    rp: bool, vp: bool, bp: bool, z: bool, aaa: Byte, e: bool, sss: Byte)

  predicate FieldsOk(f: Fields) {
    f.vvvv <= 0xf && f.pp <= 3 && f.ll <= 3 && f.aaa <= 7 && f.sss <= 7
  }

  function Plain(bit: bool, mask: Byte): Byte {
    if bit then mask else 0
  }

  function Inverted(bit: bool, mask: Byte): Byte {
    if bit then 0 else mask
  }

  function Rxb(f: Fields): Byte {
    Inverted(f.r, 0x80) | Inverted(f.x, 0x40) | Inverted(f.b, 0x20)
  }

  /** The bits that the last byte of VEX and XOP and the third of EVEX and MVEX share. */
  function WVvvvPp(f: Fields): Byte {
    Plain(f.w, 0x80) | ((0xf - f.vvvv) << 3) | f.pp
  }

  /** The second and the third byte of VEX and XOP. */
  function RxbMap(f: Fields): Byte {
    Rxb(f) | f.map_
  }

  function WVvvvLpp(f: Fields): Byte {
    WVvvvPp(f) | Plain(f.ll == 1, 4)
  }

  function Vex2Bytes(f: Fields): (p: seq<Byte>)
    ensures |p| == 2
  {
    [0xc5, Inverted(f.r, 0x80) | ((0xf - f.vvvv) << 3) | Plain(f.ll == 1, 4) | f.pp]
  }

  function Vex3Bytes(f: Fields): (p: seq<Byte>)
    ensures |p| == 3
  {
    [0xc4, RxbMap(f), WVvvvLpp(f)]
  }

  function XopBytes(f: Fields): (p: seq<Byte>)
    ensures |p| == 3
  {
    [0x8f, RxbMap(f), WVvvvLpp(f)]
  }

  function EvexBytes(f: Fields): (p: seq<Byte>)
    ensures |p| == 4
  {
    [0x62, Rxb(f) | Inverted(f.rp, 0x10) | f.map_, WVvvvPp(f) | 4,
     Plain(f.z, 0x80) | (f.ll << 5) | Plain(f.bp, 0x10) | Inverted(f.vp, 8) | f.aaa]
  }

  function MvexBytes(f: Fields): (p: seq<Byte>)
    ensures |p| == 4
  {
    [0x62, Rxb(f) | Inverted(f.rp, 0x10) | f.map_, WVvvvPp(f),
     Plain(f.e, 0x80) | (f.sss << 4) | Inverted(f.vp, 8) | f.aaa]
  }

  /** The fields all vector prefixes but VEX2 have in common, as the state holds them. */
  predicate Common(s: State, f: Fields, t: State) {
    && t.rex.hasRex && t.rex.r == f.r && t.rex.x == f.x && t.rex.b == f.b
    && t.sizes.w == f.w && t.vector.vvvv == f.vvvv
    && t.sizes.osz == (if f.w then 2 else s.sizes.osz) && t.sizes.asz == s.sizes.asz
  }

  /** The compressed 66, F3 or F2 joins the flags. */
  predicate Compressed(s: State, pp: Byte, t: State) {
    t.flags == Flags(s.flags.p66 || pp == 1, s.flags.f0, s.flags.f2 || pp == 3, s.flags.f3 || pp == 2)
  }

  predicate Length(ll: Byte, t: State) {
    t.vector.vl == (if ll == 0 then 0 else if ll == 1 then 1 else 2) && t.vector.ll == ll
  }

  // ----- the bytes, field by field -----

  /** R, X, B and the map in the second byte. */
  predicate ReadsRxb(byte: Byte, f: Fields) {
    Has(byte, 0x80) == !f.r && Has(byte, 0x40) == !f.x && Has(byte, 0x20) == !f.b
  }

  predicate ReadsW(byte: Byte, f: Fields) {
    Has(byte, 0x80) == f.w && byte & 3 == f.pp && Inverted4((byte >> 3) & 0xf) == f.vvvv
  }

  lemma RxbMapReads(f: Fields)
    requires f.map_ <= 0x1f
    ensures ReadsRxb(RxbMap(f), f) && RxbMap(f) & 0x1f == f.map_
  {
  }

  lemma WVvvvLppReads(f: Fields)
    requires FieldsOk(f) && f.ll <= 1
    ensures ReadsW(WVvvvLpp(f), f) && Has(WVvvvLpp(f), 4) == (f.ll == 1)
  {
    hide WVvvvPp, ReadsW, Has;
    WVvvvPpBits(f, Plain(f.ll == 1, 4));
  }

  lemma WVvvvPpBits(f: Fields, l: Byte)
    requires FieldsOk(f) && (l == 0 || l == 4)
    ensures ReadsW(WVvvvPp(f) | l, f) && Has(WVvvvPp(f) | l, 4) == (l == 4)
  {
  }

  lemma LowBits(f: Fields)
    requires f.map_ <= 0xf
    ensures var byte := Rxb(f) | Inverted(f.rp, 0x10) | f.map_;
      && ReadsRxb(byte, f) && Has(byte, 0x10) == !f.rp && byte & 0xf == f.map_
      && (byte >> 2) & 3 == f.map_ >> 2 && (f.map_ <= 3 ==> byte & 3 == f.map_)
  {
  }

  lemma EvexLast(f: Fields)
    requires FieldsOk(f)
    ensures ReadsEvexLast(EvexBytes(f)[3], f)
  {
  }

  predicate ReadsEvexLast(byte: Byte, f: Fields) {
    && Has(byte, 0x80) == f.z && (byte >> 5) & 3 == f.ll && Has(byte, 0x10) == f.bp
    && Has(byte, 8) == !f.vp && byte & 7 == f.aaa
  }

  lemma MvexLast(f: Fields)
    requires FieldsOk(f)
    ensures ReadsMvexLast(MvexBytes(f)[3], f)
  {
  }

  predicate ReadsMvexLast(byte: Byte, f: Fields) {
    Has(byte, 0x80) == f.e && (byte >> 4) & 7 == f.sss && Has(byte, 8) == !f.vp && byte & 7 == f.aaa
  }

  // ----- what the decoder makes of them -----

  /** Whether the inverted bits let the prefix pass for one: always in 64-bit mode. */
  predicate Passes(s: State, f: Fields) {
    s.longMode || !(f.r || f.x || f.b)
  }

  lemma PpMeans(flags: Flags, pp: Byte)
    requires pp <= 3
    ensures WithPp(flags, pp) == Flags(flags.p66 || pp == 1, flags.f0, flags.f2 || pp == 3, flags.f3 || pp == 2)
  {
  }

  predicate IsVex2(s: State, f: Fields, t: State) {
    && t.vector.enc == Vex && t.map_ == Map0F && t.rex.hasRex && t.rex.r == f.r
    && t.vector.vvvv == f.vvvv && Length(f.ll, t) && Compressed(s, f.pp, t)
  }

  /** Two-byte VEX; without 64-bit mode R must be clear. */
  lemma Vex2RoundTrip(s: State, f: Fields)
    requires FieldsOk(f) && f.ll <= 1
    ensures Vex2(s, Vex2Bytes(f)).Some? <==> s.longMode || !f.r
    ensures Vex2(s, Vex2Bytes(f)).Some? ==> IsVex2(s, f, Vex2(s, Vex2Bytes(f)).value)
  {
    Vex2Bits(f);
    PpMeans(s.flags, f.pp);
    var p := Vex2Bytes(f);
    hide Vex2Bytes, Has, Inverted4, WithPp;
    assert |p| == 2;
  }

  lemma Vex2Bits(f: Fields)
    requires FieldsOk(f) && f.ll <= 1
    ensures var byte := Vex2Bytes(f)[1];
      && |Vex2Bytes(f)| == 2 && Has(byte, 0x80) == !f.r && byte & 3 == f.pp && Has(byte, 4) == (f.ll == 1)
      && Inverted4((byte >> 3) & 0xf) == f.vvvv
  {
  }

  predicate IsVex3(s: State, f: Fields, t: State) {
    && t.vector.enc == Vex && Some(t.map_) == MapOf(f.map_)
    && Common(s, f, t) && Length(f.ll, t) && Compressed(s, f.pp, t)
  }

  /** Three-byte VEX. */
  lemma Vex3RoundTrip(s: State, f: Fields)
    requires FieldsOk(f) && f.ll <= 1 && f.map_ <= 0x1f
    ensures Vex3(s, Vex3Bytes(f)).Some? <==> Passes(s, f) && 1 <= f.map_ <= 3
    ensures Vex3(s, Vex3Bytes(f)).Some? ==> IsVex3(s, f, Vex3(s, Vex3Bytes(f)).value)
  {
    hide Vex3Bytes, Vex3, ReadsThree;
    Vex3Facts(f);
    Vex3Accepts(s, f, Vex3Bytes(f));
    if Vex3(s, Vex3Bytes(f)).Some? {
      Vex3State(s, f, Vex3Bytes(f));
    }
  }

  lemma Vex3Accepts(s: State, f: Fields, p: seq<Byte>)
    requires |p| == 3 && ReadsThree(p, f)
    ensures Vex3(s, p).Some? <==> Passes(s, f) && 1 <= f.map_ <= 3
  {
    hide Has, Inverted4, WithPp;
  }

  lemma Vex3State(s: State, f: Fields, p: seq<Byte>)
    requires FieldsOk(f) && f.ll <= 1 && |p| == 3 && ReadsThree(p, f) && Vex3(s, p).Some?
    ensures IsVex3(s, f, Vex3(s, p).value)
  {
    hide Has, Inverted4, WithPp, MapOf, AllSet;
    PpMeans(s.flags, f.pp);
  }

  /** What the three bytes of VEX and XOP say. */
  predicate ReadsThree(p: seq<Byte>, f: Fields) {
    && |p| == 3 && ReadsRxb(p[1], f) && p[1] & 0x1f == f.map_
    && ReadsW(p[2], f) && Has(p[2], 4) == (f.ll == 1)
  }

  lemma Vex3Facts(f: Fields)
    requires FieldsOk(f) && f.ll <= 1 && f.map_ <= 0x1f
    ensures ReadsThree(Vex3Bytes(f), f) && ReadsThree(XopBytes(f), f)
  {
    hide RxbMap, WVvvvLpp, ReadsRxb, ReadsW, Has;
    RxbMapReads(f);
    WVvvvLppReads(f);
  }

  predicate IsXop(s: State, f: Fields, t: State) {
    && t.vector.enc == Xop && Some(t.map_) == XopMapOf(f.map_)
    && Common(s, f, t) && Length(f.ll, t) && t.flags == s.flags
  }

  lemma XopRoundTrip(s: State, f: Fields)
    requires FieldsOk(f) && f.ll <= 1 && f.map_ <= 0x1f
    ensures XopPrefix(s, XopBytes(f)).Some? <==> Passes(s, f) && 8 <= f.map_ <= 10
    ensures XopPrefix(s, XopBytes(f)).Some? ==> IsXop(s, f, XopPrefix(s, XopBytes(f)).value)
  {
    hide XopBytes, XopPrefix, ReadsThree;
    Vex3Facts(f);
    XopAccepts(s, f, XopBytes(f));
    if XopPrefix(s, XopBytes(f)).Some? {
      XopState(s, f, XopBytes(f));
    }
  }

  lemma XopAccepts(s: State, f: Fields, p: seq<Byte>)
    requires |p| == 3 && ReadsThree(p, f)
    ensures XopPrefix(s, p).Some? <==> Passes(s, f) && 8 <= f.map_ <= 10
  {
    hide Has, Inverted4;
  }

  lemma XopState(s: State, f: Fields, p: seq<Byte>)
    requires FieldsOk(f) && f.ll <= 1 && |p| == 3 && ReadsThree(p, f) && XopPrefix(s, p).Some?
    ensures IsXop(s, f, XopPrefix(s, p).value)
  {
    hide Has, Inverted4, XopMapOf, AllSet;
  }

  predicate IsEvexState(s: State, f: Fields, t: State) {
    && t.vector.enc == Evex && Some(t.map_) == MapOf(f.map_)
    && Common(s, f, t) && Length(f.ll, t) && Compressed(s, f.pp, t)
    && t.rex.rp == f.rp && t.rex.vp == f.vp && t.rex.bp == f.bp && t.rex.fb == f.bp
    && t.vector.z == f.z && t.vector.aaa == f.aaa
  }

  lemma EvexRoundTrip(s: State, f: Fields)
    requires FieldsOk(f) && f.map_ <= 3
    ensures MevexPrefix(s, EvexBytes(f)).Some? <==> Passes(s, f) && 1 <= f.map_
    ensures MevexPrefix(s, EvexBytes(f)).Some? ==> IsEvexState(s, f, MevexPrefix(s, EvexBytes(f)).value)
  {
    hide EvexBytes, MevexPrefix, ReadsEvex;
    EvexFacts(f);
    EvexAccepts(s, f, EvexBytes(f));
    if MevexPrefix(s, EvexBytes(f)).Some? {
      EvexState(s, f, EvexBytes(f));
    }
  }

  lemma EvexAccepts(s: State, f: Fields, p: seq<Byte>)
    requires |p| == 4 && f.map_ <= 3 && ReadsEvex(p, f)
    ensures MevexPrefix(s, p).Some? <==> Passes(s, f) && 1 <= f.map_
  {
    hide Has, Inverted4, WithPp, IsEvex, ReadsW, ReadsEvexLast;
  }

  lemma EvexState(s: State, f: Fields, p: seq<Byte>)
    requires FieldsOk(f) && |p| == 4 && ReadsEvex(p, f) && MevexPrefix(s, p).Some?
    ensures IsEvexState(s, f, MevexPrefix(s, p).value)
  {
    hide Has, Inverted4, WithPp, IsEvex, MapOf, AllSet;
    PpMeans(s.flags, f.pp);
  }

  predicate ReadsEvex(p: seq<Byte>, f: Fields) {
    && |p| == 4 && IsEvex(p) && ReadsRxb(p[1], f) && Has(p[1], 0x10) == !f.rp && p[1] & 3 == f.map_
    && ReadsW(p[2], f) && ReadsEvexLast(p[3], f)
  }

  lemma EvexFacts(f: Fields)
    requires FieldsOk(f) && f.map_ <= 3
    ensures ReadsEvex(EvexBytes(f), f)
  {
    hide Rxb, WVvvvPp, ReadsRxb, ReadsW, ReadsEvexLast, Inverted;
    assert f.map_ >> 2 == 0;
    LowBits(f);
    WVvvvPpBits(f, 4);
    EvexLast(f);
  }

  predicate IsMvexState(s: State, f: Fields, t: State) {
    && t.vector.enc == Mvex && Some(t.map_) == MvexMapOf(f.map_)
    && Common(s, f, t) && Compressed(s, f.pp, t)
    && t.rex.rp == f.rp && t.rex.vp == f.vp
    && t.vector.e == f.e && t.vector.aaa == f.aaa && t.vector.sss == f.sss && !t.vector.z
  }

  /** MVEX is told from EVEX by the bit that EVEX has set; it exists in 64-bit mode only. */
  lemma MvexRoundTrip(s: State, f: Fields)
    requires FieldsOk(f) && f.map_ <= 0xf
    ensures MevexPrefix(s, MvexBytes(f)).Some? <==> s.longMode && f.map_ <= 3
    ensures MevexPrefix(s, MvexBytes(f)).Some? ==> IsMvexState(s, f, MevexPrefix(s, MvexBytes(f)).value)
  {
    hide MvexBytes, MevexPrefix, ReadsMvex;
    MvexFacts(f);
    MvexAccepts(s, f, MvexBytes(f));
    if MevexPrefix(s, MvexBytes(f)).Some? {
      MvexState(s, f, MvexBytes(f));
    }
  }

  lemma MvexAccepts(s: State, f: Fields, p: seq<Byte>)
    requires |p| == 4 && ReadsMvex(p, f)
    ensures MevexPrefix(s, p).Some? <==> s.longMode && f.map_ <= 3
  {
    hide Has, Inverted4, WithPp, IsEvex, ReadsRxb, ReadsW, ReadsMvexLast;
  }

  lemma MvexState(s: State, f: Fields, p: seq<Byte>)
    requires FieldsOk(f) && |p| == 4 && ReadsMvex(p, f) && MevexPrefix(s, p).Some?
    ensures IsMvexState(s, f, MevexPrefix(s, p).value)
  {
    hide Has, Inverted4, WithPp, IsEvex, MvexMapOf;
    PpMeans(s.flags, f.pp);
  }

  predicate ReadsMvex(p: seq<Byte>, f: Fields) {
    && |p| == 4 && !IsEvex(p) && ReadsRxb(p[1], f) && Has(p[1], 0x10) == !f.rp && p[1] & 0xf == f.map_
    && ReadsW(p[2], f) && ReadsMvexLast(p[3], f)
  }

  lemma MvexFacts(f: Fields)
    requires FieldsOk(f) && f.map_ <= 0xf
    ensures ReadsMvex(MvexBytes(f), f)
  {
    hide Rxb, WVvvvPp, ReadsRxb, ReadsW, ReadsMvexLast, Inverted;
    LowBits(f);
    WVvvvPpBits(f, 0);
    assert WVvvvPp(f) | 0 == WVvvvPp(f);
    MvexLast(f);
  }
}
