/** Compiling field expressions such as `a:b<3:1>:c` into masks, and `f1:f2!=0b01x`
    constraints into a mask and a value. */
module FieldExpressions {
  import opened Bits
  import opened Wrappers
  import opened BinaryUtils
  import DecisionTree

  /** A named field of the opcode diagram. */
  datatype Field = Field(pos: nat, size: nat)

  type Diagram = map<string, Field>

  /** A term of a field expression: a field or bits `hi` down to `lo` of it. */
  datatype Term = All(name: string) | Slice(name: string, hi: nat, lo: nat)

  datatype Part = Part(pos: nat, size: nat, mask: Bits)

  datatype Chunk = Chunk(mask: Bits, size: nat)

  const WIDTH := 32

  // ----- well-formed input -----

  predicate Separate(f: Field, g: Field) {
    f.pos + f.size <= g.pos || g.pos + g.size <= f.pos
  }

  /** Fields of a 32-bit opcode that share no bit. */
  predicate DiagramOk(d: Diagram) {
    (forall n :: n in d ==> d[n].size > 0 && d[n].pos + d[n].size <= WIDTH)
    && forall m, n :: m in d && n in d && m != n ==> Separate(d[m], d[n])
  }

  /** A slice may reach past its field, but not past the opcode. */
  predicate TermOk(d: Diagram, t: Term) {
    t.name in d ==> t.Slice? ==> t.lo <= t.hi && d[t.name].pos + t.hi < WIDTH
  }

  predicate TermsOk(d: Diagram, terms: seq<Term>) {
    forall t :: t in terms ==> TermOk(d, t)
  }

  /** No slice reaches past its field. */
  predicate Inside(d: Diagram, terms: seq<Term>) {
    forall t :: t in terms && t.name in d && t.Slice? ==> t.hi < d[t.name].size
  }

  predicate Known(d: Diagram, terms: seq<Term>) {
    forall t :: t in terms ==> t.name in d
  }

  // ----- what an expression means -----

  /** Lowest bit of the term and one past the highest, in the opcode. */
  function Low(d: Diagram, t: Term): nat
    requires t.name in d
  {
    d[t.name].pos + (if t.Slice? then t.lo else 0)
  }

  function High(d: Diagram, t: Term): nat
    requires t.name in d
  {
    d[t.name].pos + (if t.Slice? then t.hi + 1 else d[t.name].size)
  }

  lemma TermRange(d: Diagram, t: Term)
    requires DiagramOk(d) && t.name in d && TermOk(d, t)
    ensures d[t.name].pos <= Low(d, t) < High(d, t) <= WIDTH
  {
  }

  /** The named bits, concatenated with the first term most significant. */
  function Concatenation(d: Diagram, terms: seq<Term>, opcode: Bits): Bits
    requires DiagramOk(d) && Known(d, terms) && TermsOk(d, terms) && |opcode| == WIDTH
  {
    if terms == [] then []
    else
      var last := terms[|terms| - 1];
      TermRange(d, last);
      opcode[Low(d, last)..High(d, last)] + Concatenation(d, terms[..|terms| - 1], opcode)
  }

  function TotalSize(d: Diagram, terms: seq<Term>): nat
    requires DiagramOk(d) && Known(d, terms) && TermsOk(d, terms)
  {
    if terms == [] then 0
    else
      var last := terms[|terms| - 1];
      TermRange(d, last);
      TotalSize(d, terms[..|terms| - 1]) + (High(d, last) - Low(d, last))
  }

  // ----- the compiler -----

  /** Bits `low` up to but not including `high`. */
  function RangeMask(low: nat, high: nat, width: nat): (m: Bits)
    requires low <= high <= width
    ensures |m| == width && forall i :: 0 <= i < width ==> m[i] == (low <= i < high)
  {
    seq(width, i => low <= i < high)
  }

  /** `get_mask_from_range(from, to)`, shifted to a position. */
  method GetMaskFromRange(from: nat, to: int, pos: nat) returns (mask: Bits)
    requires from <= to + 1 && pos + to + 1 <= WIDTH
    ensures pos + from <= pos + to + 1 && mask == RangeMask(pos + from, pos + to + 1, WIDTH)
  {
    mask := Zeros(WIDTH);
    var i := from;
    while i <= to
      invariant from <= i <= to + 1 && mask == RangeMask(from, i, WIDTH)
    {
      mask := Or(mask, Shl(RangeMask(0, 1, WIDTH), i));
      i := i + 1;
    }
    mask := Shl(mask, pos);
  }

  function PartOf(d: Diagram, t: Term): (p: Part)
    requires DiagramOk(d) && t.name in d && TermOk(d, t)
    ensures |p.mask| == WIDTH && p.size > 0
  {
    TermRange(d, t);
    Part(d[t.name].pos, High(d, t) - Low(d, t), RangeMask(Low(d, t), High(d, t), WIDTH))
  }

  function Parts(d: Diagram, terms: seq<Term>): (ps: seq<Part>)
    requires DiagramOk(d) && Known(d, terms) && TermsOk(d, terms)
    ensures |ps| == |terms|
  {
    if terms == [] then []
    else Parts(d, terms[..|terms| - 1]) + [PartOf(d, terms[|terms| - 1])]
  }

  /** The merging loop's variables; `pos` is undefined only between two chunks. */
  datatype Merge = Merge(masks: seq<Chunk>, open: Option<Part>)

  function MergeStep(m: Merge, p: Part): Merge
    requires |p.mask| == WIDTH && (m.open.Some? ==> |m.open.value.mask| == WIDTH)
  {
    match m.open
    case None => m.(open := Some(p))
    case Some(o) =>
      if p.pos < o.pos then m.(open := Some(Part(p.pos, o.size + p.size, Or(o.mask, p.mask))))
      else Merge(m.masks + [Chunk(o.mask, o.size)], Some(p))
  }

  predicate PartsOk(ps: seq<Part>) {
    forall p :: p in ps ==> |p.mask| == WIDTH
  }

  function MergeAll(ps: seq<Part>): (m: Merge)
    requires PartsOk(ps)
    ensures m.open.Some? ==> |m.open.value.mask| == WIDTH
    ensures m.open.Some? <==> ps != []
  {
    if ps == [] then Merge([], None) else MergeStep(MergeAll(ps[..|ps| - 1]), ps[|ps| - 1])
  }

  function Terminator(): Chunk {
    Chunk(Zeros(WIDTH), 0)
  }

  function Closed(m: Merge): seq<Chunk> {
    m.masks + if m.open.Some? then [Chunk(m.open.value.mask, m.open.value.size)] else []
  }

  lemma {:induction false} PartsAreOk(d: Diagram, terms: seq<Term>)
    requires DiagramOk(d) && Known(d, terms) && TermsOk(d, terms)
    ensures PartsOk(Parts(d, terms))
    ensures forall i :: 0 <= i < |terms| ==> Parts(d, terms)[i] == PartOf(d, terms[i])
  {
    hide DiagramOk, TermOk, PartOf;
    if terms != [] {
      PartsAreOk(d, terms[..|terms| - 1]);
    }
  }

  /** What `parse_encodedin` returns; an unknown name empties the expression. */
  function Compiled(d: Diagram, terms: seq<Term>): seq<Chunk>
    requires DiagramOk(d) && TermsOk(d, terms)
  {
    if Known(d, terms) then
      PartsAreOk(d, terms);
      Closed(MergeAll(Parts(d, terms))) + [Terminator()]
    else [Terminator()]
  }

  /** One term: its field's position and the size and mask of the bits it names. */
  method ReadTerm(d: Diagram, t: Term) returns (p: Part)
    requires DiagramOk(d) && t.name in d && TermOk(d, t)
    ensures p == PartOf(d, t)
  {
    TermRange(d, t);
    var size, pos := d[t.name].size, d[t.name].pos;
    var mask;
    if t.Slice? {
      mask := GetMaskFromRange(t.lo, t.hi, pos);
      size := if t.hi == t.lo then 1 else t.hi - t.lo + 1;
    } else {
      mask := GetMaskFromRange(0, size - 1, pos);
    }
    p := Part(pos, size, mask);
  }

  lemma PartsLast(d: Diagram, terms: seq<Term>, i: nat)
    requires DiagramOk(d) && i < |terms| && Known(d, terms[..i]) && TermsOk(d, terms) && terms[i].name in d
    ensures Known(d, terms[..i + 1]) && TermsOk(d, terms[..i + 1]) && TermsOk(d, terms[..i])
    ensures Parts(d, terms[..i + 1]) == Parts(d, terms[..i]) + [PartOf(d, terms[i])]
  {
    assert terms[..i + 1] == terms[..i] + [terms[i]];
  }

  /** The first loop of `parse_encodedin`. */
  method CollectParts(d: Diagram, terms: seq<Term>) returns (encodedin: seq<Part>)
    requires DiagramOk(d) && TermsOk(d, terms)
    ensures encodedin == if Known(d, terms) then Parts(d, terms) else []
  {
    hide DiagramOk, TermOk, PartOf;
    encodedin := [];
    var i := 0;
    while i < |terms|
      invariant i <= |terms| && Known(d, terms[..i]) && TermsOk(d, terms[..i]) && encodedin == Parts(d, terms[..i])
    {
      var t := terms[i];
      if t.name !in d {
        assert !Known(d, terms);
        return [];
      }
      PartsLast(d, terms, i);
      var p := ReadTerm(d, t);
      encodedin := encodedin + [p];
      i := i + 1;
    }
    assert terms[..i] == terms;
  }

  /** The variables of the merging loop as one value. */
  function Variables(masks: seq<Chunk>, pos: Option<nat>, mask: Bits, sz: nat): Merge {
    Merge(masks, if pos.None? then None else Some(Part(pos.value, sz, mask)))
  }

  lemma MergeLast(ps: seq<Part>, i: nat)
    requires PartsOk(ps) && i < |ps|
    ensures PartsOk(ps[..i]) && PartsOk(ps[..i + 1])
    ensures MergeAll(ps[..i + 1]) == MergeStep(MergeAll(ps[..i]), ps[i])
  {
    assert ps[..i + 1][..i] == ps[..i];
  }

  /** `parse_encodedin`. */
  method ParseEncodedin(d: Diagram, terms: seq<Term>) returns (masks: seq<Chunk>)
    requires DiagramOk(d) && TermsOk(d, terms)
    ensures masks == Compiled(d, terms)
  {
    hide DiagramOk, TermsOk, Parts, MergeAll;
    var encodedin := CollectParts(d, terms);
    assert PartsOk(encodedin) by {
      if Known(d, terms) {
        PartsAreOk(d, terms);
      }
    }
    masks := MergeParts(encodedin);
    NoParts();
  }

  lemma NoParts()
    ensures MergeAll([]) == Merge([], None) && Closed(MergeAll([])) == []
  {
  }

  /** The second loop of `parse_encodedin`. */
  method MergeParts(encodedin: seq<Part>) returns (masks: seq<Chunk>)
    requires PartsOk(encodedin)
    ensures masks == Closed(MergeAll(encodedin)) + [Terminator()]
  {
    hide MergeAll;
    var pos: Option<nat>, mask, sz: nat := None, Zeros(WIDTH), 0;
    masks := [];
    var i := 0;
    NoParts();
    assert encodedin[..0] == [];
    while i < |encodedin|
      invariant i <= |encodedin| && |mask| == WIDTH && PartsOk(encodedin[..i])
      invariant Variables(masks, pos, mask, sz) == MergeAll(encodedin[..i])
    {
      var field := encodedin[i];
      MergeLast(encodedin, i);
      if pos.Some? && field.pos >= pos.value {
        masks := masks + [Chunk(mask, sz)];
        pos := None;
      }
      if pos.None? {
        pos, mask, sz := Some(field.pos), field.mask, field.size;
      } else {
        mask, sz, pos := Or(mask, field.mask), sz + field.size, Some(field.pos);
      }
      i := i + 1;
    }
    assert encodedin[..i] == encodedin;
    if pos.Some? {
      masks := masks + [Chunk(mask, sz)];
    }
    masks := masks + [Terminator()];
  }

  // ----- the merged masks mean the expression -----

  /** The value of a list of chunks, the first most significant. */
  function ChunksValue(chunks: seq<Chunk>, opcode: Bits): Bits
    requires |opcode| == WIDTH && forall c :: c in chunks ==> |c.mask| == WIDTH
  {
    if chunks == [] then []
    else Gather(opcode, chunks[|chunks| - 1].mask) + ChunksValue(chunks[..|chunks| - 1], opcode)
  }

  lemma {:induction false} GatherFalse(v: Bits, m: Bits)
    requires |v| == |m| && forall i :: 0 <= i < |m| ==> !m[i]
    ensures Gather(v, m) == []
  {
    GatherZero(v, m);
  }

  /** Everything under `high` lies above everything under `low`. */
  lemma GatherStacked(v: Bits, high: Bits, low: Bits, k: nat)
    requires |v| == |high| == |low| && k <= |v|
    requires forall i :: 0 <= i < k ==> !high[i]
    requires forall i :: k <= i < |v| ==> !low[i]
    ensures Gather(v, Or(high, low)) == Gather(v, low) + Gather(v, high)
  {
    hide Gather, Or;
    var both := Or(high, low);
    GatherAt(v, both, k);
    GatherAt(v, high, k);
    GatherAt(v, low, k);
    assert both[..k] == low[..k] && both[k..] == high[k..];
    GatherFalse(v[..k], high[..k]);
    GatherFalse(v[k..], low[k..]);
    assert Gather(v[..k], low[..k]) + [] == Gather(v[..k], low[..k]);
    assert [] + Gather(v[k..], high[k..]) == Gather(v[k..], high[k..]);
  }

  lemma GatherAt(v: Bits, m: Bits, k: nat)
    requires |v| == |m| && k <= |v|
    ensures Gather(v, m) == Gather(v[..k], m[..k]) + Gather(v[k..], m[k..])
  {
    hide Gather;
    GatherAppend(v[..k], m[..k], v[k..], m[k..]);
    assert v == v[..k] + v[k..] && m == m[..k] + m[k..];
  }

  lemma {:induction false} GatherTrue(v: Bits, m: Bits)
    requires |v| == |m| && forall i :: 0 <= i < |m| ==> m[i]
    ensures Gather(v, m) == v
  {
    if m != [] {
      GatherTrue(v[1..], m[1..]);
      assert v == [v[0]] + v[1..];
    }
  }

  lemma GatherRange(v: Bits, low: nat, high: nat)
    requires low <= high <= |v|
    ensures Gather(v, RangeMask(low, high, |v|)) == v[low..high]
  {
    hide Gather, RangeMask, Zeros, Ones;
    var m := RangeMask(low, high, |v|);
    RangeMaskParts(low, high, |v|);
    GatherAt(v, m, high);
    GatherFalse(v[high..], Zeros(|v| - high));
    GatherAt(v[..high], m[..high], low);
    GatherFalse(v[..high][..low], Zeros(low));
    GatherTrue(v[..high][low..], Ones(high - low));
    BetweenEmpty(v, low, high);
  }

  lemma RangeMaskParts(low: nat, high: nat, width: nat)
    requires low <= high <= width
    ensures var m := RangeMask(low, high, width);
      m[high..] == Zeros(width - high) && m[..high][..low] == Zeros(low) && m[..high][low..] == Ones(high - low)
  {
  }

  lemma BetweenEmpty(v: Bits, low: nat, high: nat)
    requires low <= high <= |v|
    ensures ([] + v[..high][low..]) + [] == v[low..high]
  {
  }

  /** Term `i` joins the chunk of the term before it. */
  predicate Joins(d: Diagram, terms: seq<Term>, i: nat)
    requires 0 < i < |terms| && Known(d, terms)
  {
    d[terms[i].name].pos < d[terms[i - 1].name].pos
  }

  /** A term that joins a chunk lies below the term before it. */
  predicate JoinsBelow(d: Diagram, terms: seq<Term>, i: nat)
    requires 0 < i < |terms| && Known(d, terms)
  {
    Joins(d, terms, i) ==> High(d, terms[i]) <= Low(d, terms[i - 1])
  }

  /** Every term that joins a chunk does. */
  predicate Stacked(d: Diagram, terms: seq<Term>)
    requires Known(d, terms)
  {
    forall i :: 0 < i < |terms| ==> JoinsBelow(d, terms, i)
  }

  /** Fields share no bit, so slices within their fields never clash. */
  lemma InsideIsStacked(d: Diagram, terms: seq<Term>)
    requires DiagramOk(d) && Known(d, terms) && TermsOk(d, terms) && Inside(d, terms)
    ensures Stacked(d, terms)
  {
    forall i | 0 < i < |terms|
      ensures JoinsBelow(d, terms, i)
    {
      var t, u := terms[i], terms[i - 1];
      assert t in terms && u in terms;
      assert Joins(d, terms, i) ==> Separate(d[t.name], d[u.name]);
    }
  }

  lemma SameJoins(d: Diagram, terms: seq<Term>, i: nat)
    requires Known(d, terms) && 0 < i < |terms| - 1
    ensures Known(d, terms[..|terms| - 1])
    ensures JoinsBelow(d, terms[..|terms| - 1], i) <==> JoinsBelow(d, terms, i)
  {
  }

  lemma StackedInit(d: Diagram, terms: seq<Term>)
    requires Known(d, terms) && terms != []
    ensures var n := |terms| - 1;
      Known(d, terms[..n]) && (Stacked(d, terms) <==>
        Stacked(d, terms[..n]) && (0 < n && Joins(d, terms, n) ==> High(d, terms[n]) <= Low(d, terms[n - 1])))
  {
    var n := |terms| - 1;
    assert 0 < n ==> (JoinsBelow(d, terms, n) <==> (Joins(d, terms, n) ==> High(d, terms[n]) <= Low(d, terms[n - 1])));
    hide High, Low, Joins, JoinsBelow;
    forall i | 0 < i < n
      ensures JoinsBelow(d, terms[..n], i) <==> JoinsBelow(d, terms, i)
    {
      SameJoins(d, terms, i);
    }
  }

  /** The open part is the chunk of the last term: it stands at its field, and its lowest
      bit is that of the term. */
  ghost predicate OpenIs(d: Diagram, t: Term, m: Merge)
    requires t.name in d
  {
    m.open.Some? && m.open.value.pos == d[t.name].pos && LowestIs(m.open.value.mask, Low(d, t))
  }

  ghost predicate LowestIs(mask: Bits, low: nat) {
    |mask| == WIDTH && low < WIDTH && mask[low] && forall i :: 0 <= i < low ==> !mask[i]
  }

  /** Merging keeps the value of the terms so far, and sizes count mask bits. */
  lemma {:induction false} MergeMeaning(d: Diagram, terms: seq<Term>, opcode: Bits)
    requires DiagramOk(d) && Known(d, terms) && TermsOk(d, terms) && Stacked(d, terms) && |opcode| == WIDTH
    ensures PartsOk(Parts(d, terms))
    ensures var m := MergeAll(Parts(d, terms));
      SizesOk(m, opcode) && ChunksValue(Closed(m), opcode) == Concatenation(d, terms, opcode)
      && (terms != [] ==> OpenIs(d, terms[|terms| - 1], m))
  {
    PartsAreOk(d, terms);
    if terms != [] {
      var n := |terms| - 1;
      var init, t := terms[..n], terms[n];
      assert t in terms && forall u :: u in init ==> u in terms;
      StackedInit(d, terms);
      MergeMeaning(d, init, opcode);
      PartsAreOk(d, init);
      MergeOne(d, terms, opcode, MergeAll(Parts(d, init)));
      assert Parts(d, terms)[..n] == Parts(d, init);
    }
  }

  lemma ChunksValueLast(chunks: seq<Chunk>, c: Chunk, opcode: Bits)
    requires |opcode| == WIDTH && |c.mask| == WIDTH && forall x :: x in chunks ==> |x.mask| == WIDTH
    ensures forall x :: x in chunks + [c] ==> |x.mask| == WIDTH
    ensures ChunksValue(chunks + [c], opcode) == Gather(opcode, c.mask) + ChunksValue(chunks, opcode)
  {
    assert (chunks + [c])[..|chunks|] == chunks;
  }

  ghost predicate SizesOk(m: Merge, opcode: Bits)
    requires |opcode| == WIDTH
  {
    forall c :: c in Closed(m) ==> |c.mask| == WIDTH && c.size == |Gather(opcode, c.mask)| > 0
  }

  /** A part below the open chunk joins it. */
  lemma MergeInto(m: Merge, p: Part, opcode: Bits, low: nat)
    requires |opcode| == WIDTH && SizesOk(m, opcode) && m.open.Some? && p.pos < m.open.value.pos
    requires LowestIs(m.open.value.mask, low) && |p.mask| == WIDTH && |Gather(opcode, p.mask)| == p.size
    requires forall i :: low <= i < WIDTH ==> !p.mask[i]
    ensures SizesOk(MergeStep(m, p), opcode)
    ensures ChunksValue(Closed(MergeStep(m, p)), opcode) == Gather(opcode, p.mask) + ChunksValue(Closed(m), opcode)
  {
    hide Gather, Or, ChunksValue;
    var o := m.open.value;
    var c, c' := Chunk(o.mask, o.size), Chunk(Or(o.mask, p.mask), o.size + p.size);
    assert Closed(m) == m.masks + [c] && Closed(MergeStep(m, p)) == m.masks + [c'];
    assert c in Closed(m) && forall x :: x in m.masks ==> x in Closed(m);
    GatherStacked(opcode, o.mask, p.mask, low);
    ReplaceLast(m.masks, c, c', Gather(opcode, p.mask), opcode);
  }

  lemma ReplaceLast(masks: seq<Chunk>, c: Chunk, c': Chunk, bits: Bits, opcode: Bits)
    requires |opcode| == WIDTH && |c.mask| == |c'.mask| == WIDTH && forall x :: x in masks ==> |x.mask| == WIDTH
    requires Gather(opcode, c'.mask) == bits + Gather(opcode, c.mask)
    ensures ChunksValue(masks + [c'], opcode) == bits + ChunksValue(masks + [c], opcode)
  {
    hide Gather, ChunksValue;
    ChunksValueLast(masks, c, opcode);
    ChunksValueLast(masks, c', opcode);
    assert (bits + Gather(opcode, c.mask)) + ChunksValue(masks, opcode)
      == bits + (Gather(opcode, c.mask) + ChunksValue(masks, opcode));
  }

  /** Any other field starts a chunk of its own. */
  lemma MergeFresh(m: Merge, p: Part, bits: Bits, opcode: Bits)
    requires |opcode| == WIDTH && SizesOk(m, opcode)
    requires m.open.Some? ==> |m.open.value.mask| == WIDTH && m.open.value.pos <= p.pos
    requires |p.mask| == WIDTH && Gather(opcode, p.mask) == bits && |bits| == p.size > 0
    ensures SizesOk(MergeStep(m, p), opcode) && MergeStep(m, p).open == Some(p)
    ensures ChunksValue(Closed(MergeStep(m, p)), opcode) == bits + ChunksValue(Closed(m), opcode)
  {
    hide Gather, ChunksValue;
    var c := Chunk(p.mask, p.size);
    assert Closed(MergeStep(m, p)) == Closed(m) + [c];
    ChunksValueLast(Closed(m), c, opcode);
  }

  /** The open part after one more term. */
  lemma OpenNext(d: Diagram, t: Term, m: Merge)
    requires DiagramOk(d) && t.name in d && TermOk(d, t) && (m.open.Some? ==> |m.open.value.mask| == WIDTH)
    requires m.open.Some? && d[t.name].pos < m.open.value.pos ==>
      forall i :: 0 <= i < Low(d, t) ==> !m.open.value.mask[i]
    ensures OpenIs(d, t, MergeStep(m, PartOf(d, t)))
  {
    TermRange(d, t);
  }

  lemma MergeOne(d: Diagram, terms: seq<Term>, opcode: Bits, m: Merge)
    requires DiagramOk(d) && terms != [] && Known(d, terms) && TermsOk(d, terms) && Stacked(d, terms)
    requires |opcode| == WIDTH && SizesOk(m, opcode)
    requires if |terms| > 1 then OpenIs(d, terms[|terms| - 2], m) else m.open.None?
    requires ChunksValue(Closed(m), opcode) == Concatenation(d, terms[..|terms| - 1], opcode)
    ensures var m' := MergeStep(m, PartOf(d, terms[|terms| - 1]));
      SizesOk(m', opcode) && ChunksValue(Closed(m'), opcode) == Concatenation(d, terms, opcode)
      && OpenIs(d, terms[|terms| - 1], m')
  {
    hide Gather, ChunksValue, Closed, SizesOk, MergeStep, TotalSize, OpenIs, DiagramOk, Low, High, Stacked;
    var n := |terms| - 1;
    StackedInit(d, terms);
    var t := terms[n];
    var p := PartOf(d, t);
    TermRange(d, t);
    GatherRange(opcode, Low(d, t), High(d, t));
    if n > 0 {
      OpenFacts(d, terms[n - 1], m);
    }
    OpenNext(d, t, m);
    if n > 0 && p.pos < m.open.value.pos {
      assert Joins(d, terms, n);
      MergeInto(m, p, opcode, Low(d, terms[n - 1]));
    } else {
      MergeFresh(m, p, opcode[Low(d, t)..High(d, t)], opcode);
    }
  }

  lemma OpenFacts(d: Diagram, t: Term, m: Merge)
    requires t.name in d && OpenIs(d, t, m)
    ensures m.open.Some? && m.open.value.pos == d[t.name].pos && LowestIs(m.open.value.mask, Low(d, t))
  {
  }

  // ----- constraints -----

  /** A `names!=0bvalues` pattern: field names and one character per bit, 0, 1 or x. */
  datatype Pattern = Pattern(names: seq<string>, values: string)

  function NamesSize(d: Diagram, names: seq<string>): nat
    requires forall n :: n in names ==> n in d
  {
    if names == [] then 0 else d[names[0]].size + NamesSize(d, names[1..])
  }

  /** Characters left over after the last field are not looked at. */
  predicate PatternOk(d: Diagram, p: Pattern) {
    (forall n :: n in p.names ==> n in d)
    && (forall i, j :: 0 <= i < j < |p.names| ==> p.names[i] != p.names[j])
    && NamesSize(d, p.names) <= |p.values|
  }

  /** The concatenated fields agree with the pattern wherever it is not x. */
  predicate Agrees(d: Diagram, names: seq<string>, values: string, opcode: Word)
    requires DiagramOk(d) && (forall n :: n in names ==> n in d) && NamesSize(d, names) <= |values|
  {
    names == [] ||
    var f := d[names[0]];
    (forall i :: 0 <= i < f.size ==>
      (values[i] == '1' ==> opcode[f.pos + f.size - 1 - i]) && (values[i] == '0' ==> !opcode[f.pos + f.size - 1 - i]))
    && Agrees(d, names[1..], values[f.size..], opcode)
  }

  function SetBit(x: Word, i: nat): (r: Word)
    requires i < 64
  {
    x[i := true]
  }

  /** The bits of one field fixed by its characters; `reverse` puts the last one lowest. */
  ghost predicate FieldFixed(f: Field, values: string, mask0: Bits, value0: Bits, mask: Bits, value: Bits, n: nat)
    requires f.pos + f.size <= 64 && f.size <= |values| && n <= f.size
    requires |mask0| == |value0| == |mask| == |value| == 64
  {
    forall i :: 0 <= i < 64 ==>
      if f.pos <= i < f.pos + n then
        var c := values[f.pos + f.size - 1 - i];
        mask[i] == (mask0[i] || c == '1' || c == '0') && value[i] == (value0[i] || c == '1')
      else mask[i] == mask0[i] && value[i] == value0[i]
  }

  /** One field of `process_constraints`. */
  method FixField(f: Field, values: string, mask0: Word, value0: Word)
      returns (mask: Word, value: Word)
    requires f.pos + f.size <= 64 && f.size <= |values|
    ensures FieldFixed(f, values, mask0, value0, mask, value, f.size)
  {
    mask, value := mask0, value0;
    var pos, k := f.pos, f.size;
    while k > 0
      invariant 0 <= k <= f.size && pos == f.pos + f.size - k
      invariant FieldFixed(f, values, mask0, value0, mask, value, f.size - k)
    {
      k := k - 1;
      if values[k] == '1' {
        mask := SetBit(mask, pos);
        value := SetBit(value, pos);
      } else if values[k] == '0' {
        mask := SetBit(mask, pos);
      }
      pos := pos + 1;
    }
  }

  /** What is left to decide: `mask` and `value` stand for the fields already done. */
  ghost predicate Decided(d: Diagram, p: Pattern, mask: Word, value: Word,
                          rest: seq<string>, values: string)
    requires DiagramOk(d) && PatternOk(d, p) && (forall n :: n in rest ==> n in d) && NamesSize(d, rest) <= |values|
  {
    forall opcode: Word ::
      Agrees(d, p.names, p.values, opcode) <==> And(opcode, mask) == value && Agrees(d, rest, values, opcode)
  }

  lemma NothingDecided(d: Diagram, p: Pattern)
    requires DiagramOk(d) && PatternOk(d, p)
    ensures Decided(d, p, Zeros(64), Zeros(64), p.names, p.values)
  {
    assert forall opcode: Word :: And(opcode, Zeros(64)) == Zeros(64);
  }

  lemma DecideOne(d: Diagram, p: Pattern, rest: seq<string>, values: string,
                  mask0: Word, value0: Word, mask: Word, value: Word)
    requires DiagramOk(d) && PatternOk(d, p) && rest != [] && (forall n :: n in rest ==> n in d)
    requires NamesSize(d, rest) <= |values| && Decided(d, p, mask0, value0, rest, values) && Subset(value0, mask0)
    requires FieldFixed(d[rest[0]], values, mask0, value0, mask, value, d[rest[0]].size) && Free(d, rest, mask0)
    ensures Decided(d, p, mask, value, rest[1..], values[d[rest[0]].size..]) && Subset(value, mask)
  {
    var f := d[rest[0]];
    forall opcode: Word
      ensures And(opcode, mask0) == value0 && Agrees(d, rest, values, opcode)
        <==> And(opcode, mask) == value && Agrees(d, rest[1..], values[f.size..], opcode)
    {
      OneField(f, values, mask0, value0, mask, value, opcode);
    }
  }

  /** One pattern of `process_constraints`. */
  method ProcessConstraint(d: Diagram, p: Pattern) returns (c: DecisionTree.Constraint)
    requires DiagramOk(d) && PatternOk(d, p)
    ensures forall opcode: Word :: !DecisionTree.Meets(opcode, c) <==> Agrees(d, p.names, p.values, opcode)
    ensures Subset(c.value, c.mask)
  {
    hide FieldFixed, Decided, Free, DiagramOk;
    var mask: Word, cvalue: Word := Zeros(64), Zeros(64);
    var values := p.values;
    var i := 0;
    assert p.names[0..] == p.names;
    NothingDecided(d, p);
    AllFree(d, p.names);
    while i < |p.names|
      invariant i <= |p.names| && NamesSize(d, p.names[i..]) <= |values| && Subset(cvalue, mask)
      invariant Free(d, p.names[i..], mask)
      invariant Decided(d, p, mask, cvalue, p.names[i..], values)
    {
      var field := d[p.names[i]];
      assert p.names[i..][0] == p.names[i] && p.names[i..][1..] == p.names[i + 1..];
      FieldInside(d, p.names[i]);
      ghost var mask0, value0 := mask, cvalue;
      mask, cvalue := FixField(field, values, mask, cvalue);
      DecideOne(d, p, p.names[i..], values, mask0, value0, mask, cvalue);
      StillFree(d, p.names, i, values, mask0, value0, mask, cvalue);
      values := values[field.size..];
      i := i + 1;
    }
    assert p.names[i..] == [];
    AllDecided(d, p, mask, cvalue, values);
    c := DecisionTree.Constraint(mask, cvalue);
  }

  /** A constraint is kept by an opcode exactly when the opcode disagrees with its pattern. */
  ghost predicate Forbids(c: DecisionTree.Constraint, d: Diagram, p: Pattern)
    requires DiagramOk(d) && PatternOk(d, p)
  {
    forall opcode: Word :: DecisionTree.Meets(opcode, c) <==> !Agrees(d, p.names, p.values, opcode)
  }

  /** Some constraint looks at bit `b`. */
  predicate SomeLooksAt(cnsts: seq<DecisionTree.Constraint>, b: nat)
    requires b < 64
  {
    exists k :: 0 <= k < |cnsts| && cnsts[k].mask[b]
  }

  /** `process_constraints`: all patterns of a record, whose bits join the mask of the
      record. */
  method ProcessConstraints(d: Diagram, patterns: seq<Pattern>, opcodeMask: Word)
      returns (cnsts: seq<DecisionTree.Constraint>, tmask: Word, cmask: Word)
    requires DiagramOk(d) && forall p :: p in patterns ==> PatternOk(d, p)
    ensures |cnsts| == |patterns| && forall i :: 0 <= i < |patterns| ==> Forbids(cnsts[i], d, patterns[i])
    ensures forall b :: 0 <= b < 64 ==> (cmask[b] <==> SomeLooksAt(cnsts, b))
    ensures forall b :: 0 <= b < 64 ==> (tmask[b] <==> opcodeMask[b] || cmask[b])
  {
    hide DiagramOk, PatternOk, Forbids;
    cnsts, tmask, cmask := [], opcodeMask, Zeros(64);
    var i := 0;
    while i < |patterns|
      invariant i <= |patterns| && |cnsts| == i
      invariant forall k :: 0 <= k < i ==> Forbids(cnsts[k], d, patterns[k])
      invariant forall b :: 0 <= b < 64 ==> (cmask[b] <==> SomeLooksAt(cnsts, b))
      invariant forall b :: 0 <= b < 64 ==> (tmask[b] <==> opcodeMask[b] || cmask[b])
    {
      var c := ProcessConstraint(d, patterns[i]);
      IsForbidden(c, d, patterns[i]);
      OneMoreMask(cnsts, c);
      tmask := Or(tmask, c.mask);
      cmask := Or(cmask, c.mask);
      cnsts := cnsts + [c];
      i := i + 1;
    }
  }

  lemma IsForbidden(c: DecisionTree.Constraint, d: Diagram, p: Pattern)
    requires DiagramOk(d) && PatternOk(d, p)
    requires forall opcode: Word :: !DecisionTree.Meets(opcode, c) <==> Agrees(d, p.names, p.values, opcode)
    ensures Forbids(c, d, p)
  {
  }

  lemma OneMoreMask(cnsts: seq<DecisionTree.Constraint>, c: DecisionTree.Constraint)
    ensures forall b :: 0 <= b < 64 ==> (SomeLooksAt(cnsts + [c], b) <==> SomeLooksAt(cnsts, b) || c.mask[b])
  {
    forall b | 0 <= b < 64
      ensures SomeLooksAt(cnsts + [c], b) <==> SomeLooksAt(cnsts, b) || c.mask[b]
    {
      if k :| 0 <= k < |cnsts| && cnsts[k].mask[b] {
        assert (cnsts + [c])[k].mask[b];
      }
      assert (cnsts + [c])[|cnsts|] == c;
    }
  }

  lemma FieldInside(d: Diagram, name: string)
    requires DiagramOk(d) && name in d
    ensures d[name].pos + d[name].size <= 64
  {
  }

  lemma AllFree(d: Diagram, names: seq<string>)
    requires DiagramOk(d) && forall n :: n in names ==> n in d
    ensures Free(d, names, Zeros(64))
  {
  }

  lemma AllDecided(d: Diagram, p: Pattern, mask: Word, value: Word, values: string)
    requires DiagramOk(d) && PatternOk(d, p) && Decided(d, p, mask, value, [], values)
    ensures forall opcode: Word :: And(opcode, mask) == value <==> Agrees(d, p.names, p.values, opcode)
  {
  }

  /** No field named later has been touched. */
  ghost predicate Free(d: Diagram, names: seq<string>, mask: Bits)
    requires DiagramOk(d) && |mask| == 64 && forall n :: n in names ==> n in d
  {
    forall n, i :: n in names && d[n].pos <= i < d[n].pos + d[n].size ==> !mask[i]
  }

  lemma StillFree(d: Diagram, names: seq<string>, i: nat, values: string, mask0: Bits, value0: Bits, mask: Bits, value: Bits)
    requires DiagramOk(d) && i < |names| && (forall n :: n in names ==> n in d)
    requires forall j, k :: 0 <= j < k < |names| ==> names[j] != names[k]
    requires |mask0| == |value0| == |mask| == |value| == 64 && d[names[i]].size <= |values|
    requires Free(d, names[i..], mask0) && FieldFixed(d[names[i]], values, mask0, value0, mask, value, d[names[i]].size)
    ensures Free(d, names[i + 1..], mask)
  {
    forall n, b | n in names[i + 1..] && d[n].pos <= b < d[n].pos + d[n].size
      ensures !mask[b]
    {
      var k :| 0 <= k < |names[i + 1..]| && names[i + 1..][k] == n;
      assert names[i + 1 + k] == n && names[i..][k + 1] == n;
      assert Separate(d[names[i]], d[n]);
    }
  }

  lemma OneField(f: Field, values: string, mask0: Word, value0: Word,
                 mask: Word, value: Word, opcode: Word)
    requires f.pos + f.size <= 64 && f.size <= |values| && Subset(value0, mask0)
    requires FieldFixed(f, values, mask0, value0, mask, value, f.size)
    requires forall i :: f.pos <= i < f.pos + f.size ==> !mask0[i]
    ensures And(opcode, mask) == value <==> And(opcode, mask0) == value0 && forall i :: 0 <= i < f.size ==>
      (values[i] == '1' ==> opcode[f.pos + f.size - 1 - i]) && (values[i] == '0' ==> !opcode[f.pos + f.size - 1 - i])
  {
  }
}
