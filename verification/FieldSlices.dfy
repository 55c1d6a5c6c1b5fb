/** When a compiled field expression means what it says: slices that reach past their field
    may clash with the term before them. */
module FieldSlices {
  import opened Bits
  import opened Wrappers
  import opened BinaryUtils
  import opened FieldExpressions

  lemma {:induction false} ClosedWidths(ps: seq<Part>)
    requires PartsOk(ps)
    ensures forall c :: c in Closed(MergeAll(ps)) ==> |c.mask| == WIDTH
  {
    if ps != [] {
      ClosedWidths(ps[..|ps| - 1]);
    }
  }

  /** The chunks an expression is compiled to, without the terminator. */
  function Merged(d: Diagram, terms: seq<Term>): (chunks: seq<Chunk>)
    requires DiagramOk(d) && Known(d, terms) && TermsOk(d, terms)
    ensures forall c :: c in chunks ==> |c.mask| == WIDTH
  {
    PartsAreOk(d, terms);
    ClosedWidths(Parts(d, terms));
    Closed(MergeAll(Parts(d, terms)))
  }

  /** On every opcode the masks gather the named bits. */
  ghost predicate MeansTerms(d: Diagram, terms: seq<Term>)
    requires DiagramOk(d) && Known(d, terms) && TermsOk(d, terms)
  {
    forall opcode: Bits | |opcode| == WIDTH :: ChunksValue(Merged(d, terms), opcode) == Concatenation(d, terms, opcode)
  }

  function Masks(d: Diagram, terms: seq<Term>): (m: Merge)
    requires DiagramOk(d) && Known(d, terms) && TermsOk(d, terms)
    ensures m.open.Some? ==> |m.open.value.mask| == WIDTH
    ensures forall c :: c in m.masks ==> |c.mask| == WIDTH
    ensures Merged(d, terms) == Closed(m)
  {
    PartsAreOk(d, terms);
    ClosedWidths(Parts(d, terms));
    var m := MergeAll(Parts(d, terms));
    assert forall c :: c in m.masks ==> c in Closed(m);
    m
  }

  lemma MasksStep(d: Diagram, terms: seq<Term>)
    requires DiagramOk(d) && Known(d, terms) && TermsOk(d, terms) && terms != []
    ensures var n := |terms| - 1;
      Masks(d, terms) == MergeStep(Masks(d, terms[..n]), PartOf(d, terms[n]))
  {
    hide DiagramOk, PartOf;
    var n := |terms| - 1;
    PartsAreOk(d, terms);
    PartsAreOk(d, terms[..n]);
    assert Parts(d, terms)[..n] == Parts(d, terms[..n]);
  }

  /** The open part holds the lowest bit of the last term. */
  lemma OpenHolds(d: Diagram, terms: seq<Term>)
    requires DiagramOk(d) && Known(d, terms) && TermsOk(d, terms) && terms != []
    ensures var m, t := Masks(d, terms), terms[|terms| - 1];
      m.open.Some? && m.open.value.pos == d[t.name].pos && Low(d, t) < WIDTH && m.open.value.mask[Low(d, t)]
  {
    hide DiagramOk, Masks;
    MasksStep(d, terms);
    TermRange(d, terms[|terms| - 1]);
  }

  /** The bits of the chunk that the last term is in. */
  function OpenMask(d: Diagram, terms: seq<Term>): (mask: Bits)
    requires DiagramOk(d) && Known(d, terms) && TermsOk(d, terms) && terms != []
    ensures |mask| == WIDTH && Low(d, terms[|terms| - 1]) < WIDTH && mask[Low(d, terms[|terms| - 1])]
  {
    OpenHolds(d, terms);
    Masks(d, terms).open.value.mask
  }

  /** The bits of one term. */
  function TermMask(d: Diagram, t: Term): (mask: Bits)
    requires DiagramOk(d) && t.name in d && TermOk(d, t)
    ensures Low(d, t) < High(d, t) <= WIDTH
    ensures |mask| == WIDTH && forall i :: 0 <= i < WIDTH ==> mask[i] == (Low(d, t) <= i < High(d, t))
  {
    TermRange(d, t);
    RangeMask(Low(d, t), High(d, t), WIDTH)
  }

  // ----- lengths: a bit named twice in one chunk is read once -----

  lemma {:induction false} PopcountOr(x: Bits, y: Bits)
    requires |x| == |y|
    ensures Popcount(Or(x, y)) <= Popcount(x) + Popcount(y)
    ensures !Disjoint(x, y) ==> Popcount(Or(x, y)) < Popcount(x) + Popcount(y)
  {
    if x != [] {
      PopcountOr(x[1..], y[1..]);
      assert Or(x, y)[1..] == Or(x[1..], y[1..]);
      if !Disjoint(x, y) && !(x[0] && y[0]) {
        var i :| 0 <= i < |x| && x[i] && y[i];
        assert x[1..][i - 1] && y[1..][i - 1];
      }
    }
  }

  /** The chunks of one more term. */
  lemma ValueStep(d: Diagram, terms: seq<Term>, opcode: Bits) returns (closed: Bits)
    requires DiagramOk(d) && Known(d, terms) && TermsOk(d, terms) && terms != [] && |opcode| == WIDTH
    ensures var n := |terms| - 1;
      Concatenation(d, terms, opcode) == Gather(opcode, TermMask(d, terms[n])) + Concatenation(d, terms[..n], opcode)
      && if n > 0 && Joins(d, terms, n) then
        var o := OpenMask(d, terms[..n]);
        ChunksValue(Merged(d, terms), opcode) == Gather(opcode, Or(o, TermMask(d, terms[n]))) + closed
        && ChunksValue(Merged(d, terms[..n]), opcode) == Gather(opcode, o) + closed
      else
        ChunksValue(Merged(d, terms), opcode)
          == Gather(opcode, TermMask(d, terms[n])) + ChunksValue(Merged(d, terms[..n]), opcode)
  {
    hide DiagramOk, Gather, ChunksValue, Merged, Masks;
    var n := |terms| - 1;
    var t := terms[n];
    var m, p := Masks(d, terms[..n]), PartOf(d, t);
    assert p.mask == TermMask(d, t);
    GatherRange(opcode, Low(d, t), High(d, t));
    MasksStep(d, terms);
    if n > 0 {
      OpenHolds(d, terms[..n]);
    } else {
      NoTerms(d);
    }
    StepValue(m, p, opcode);
    closed := ChunksValue(m.masks, opcode);
  }

  lemma NoTerms(d: Diagram)
    requires DiagramOk(d)
    ensures Masks(d, []) == Merge([], None)
  {
  }

  lemma StepValue(m: Merge, p: Part, opcode: Bits)
    requires |opcode| == |p.mask| == WIDTH && (m.open.Some? ==> |m.open.value.mask| == WIDTH)
    requires forall c :: c in m.masks ==> |c.mask| == WIDTH
    ensures forall c :: c in Closed(m) || c in Closed(MergeStep(m, p)) ==> |c.mask| == WIDTH
    ensures if m.open.Some? && p.pos < m.open.value.pos then
        ChunksValue(Closed(MergeStep(m, p)), opcode)
          == Gather(opcode, Or(m.open.value.mask, p.mask)) + ChunksValue(m.masks, opcode)
        && ChunksValue(Closed(m), opcode) == Gather(opcode, m.open.value.mask) + ChunksValue(m.masks, opcode)
      else
        ChunksValue(Closed(MergeStep(m, p)), opcode) == Gather(opcode, p.mask) + ChunksValue(Closed(m), opcode)
  {
    hide Gather, ChunksValue, Or;
    if m.open.Some? && p.pos < m.open.value.pos {
      var o := m.open.value;
      ChunksValueLast(m.masks, Chunk(o.mask, o.size), opcode);
      ChunksValueLast(m.masks, Chunk(Or(o.mask, p.mask), o.size + p.size), opcode);
    } else {
      assert Closed(MergeStep(m, p)) == Closed(m) + [Chunk(p.mask, p.size)];
      ChunksValueLast(Closed(m), Chunk(p.mask, p.size), opcode);
    }
  }

  /** Merging never gathers more bits than the terms name. */
  lemma {:induction false} NeverLonger(d: Diagram, terms: seq<Term>, opcode: Bits)
    requires DiagramOk(d) && Known(d, terms) && TermsOk(d, terms) && |opcode| == WIDTH
    ensures |ChunksValue(Merged(d, terms), opcode)| <= |Concatenation(d, terms, opcode)|
  {
    hide DiagramOk, Gather, Merged, OpenMask, TermMask;
    if terms == [] {
      NoTerms(d);
    } else {
      var n := |terms| - 1;
      NeverLonger(d, terms[..n], opcode);
      var closed := ValueStep(d, terms, opcode);
      if n > 0 && Joins(d, terms, n) {
        JoinedLength(OpenMask(d, terms[..n]), TermMask(d, terms[n]), opcode);
      }
    }
  }

  lemma JoinedLength(o: Bits, p: Bits, opcode: Bits)
    requires |o| == |p| == |opcode|
    ensures |Gather(opcode, Or(o, p))| <= |Gather(opcode, o)| + |Gather(opcode, p)|
    ensures !Disjoint(o, p) ==> |Gather(opcode, Or(o, p))| < |Gather(opcode, o)| + |Gather(opcode, p)|
    ensures |Gather(opcode, p)| <= |Gather(opcode, Or(o, p))|
  {
    GatherLength(opcode, Or(o, p));
    GatherLength(opcode, o);
    GatherLength(opcode, p);
    PopcountOr(o, p);
    PopcountSubset(p, Or(o, p));
  }

  // ----- a joined term that is not below the last one -----

  lemma {:induction false} LeastBit(x: Bits, i: nat) returns (least: nat)
    requires i < |x| && x[i]
    ensures least <= i && x[least] && forall k :: 0 <= k < least ==> !x[k]
  {
    least := i;
    if k :| 0 <= k < i && x[k] {
      least := LeastBit(x, k);
    }
  }

  lemma PopcountBelow(x: Bits, i: nat, j: nat)
    requires i <= j < |x| && x[j]
    ensures Popcount(x[..i]) < Popcount(x)
  {
    assert x == x[..i] + x[i..] && x[i..][j - i];
    PopcountAppend(x[..i], x[i..]);
    PopcountZero(x[i..]);
  }

  lemma {:induction false} GatherSelf(x: Bits)
    ensures |Gather(x, x)| == Popcount(x) && forall k :: 0 <= k < Popcount(x) ==> Gather(x, x)[k]
  {
    if x != [] {
      GatherSelf(x[1..]);
    }
  }

  /** A bit of `o` with only bits of `p` below it is gathered after them. */
  lemma FirstOfOther(o: Bits, p: Bits, i: nat)
    requires |o| == |p| && i < |o| && o[i] && !p[i] && forall k :: 0 <= k < i ==> !o[k]
    ensures Popcount(p[..i]) < |Gather(p, Or(o, p))| && !Gather(p, Or(o, p))[Popcount(p[..i])]
  {
    var both := Or(o, p);
    GatherAt(p, both, i);
    assert both[..i] == p[..i];
    GatherLength(p[..i], p[..i]);
    assert both[i..][0] && !p[i..][0];
  }

  /** If the chunk reads `p` first and loses no bit, `p` lies below `o`. */
  lemma JoinedBelow(o: Bits, p: Bits, i: nat, j: nat)
    requires |o| == |p| && i < |o| && o[i] && j < |p| && p[j] && Disjoint(o, p)
    requires Gather(p, p) <= Gather(p, Or(o, p))
    ensures j < i
  {
    hide Gather, Popcount, Or;
    GatherSelf(p);
    var least := LeastBit(o, i);
    FirstOfOther(o, p, least);
    if least <= j {
      PopcountBelow(p, least, j);
      assert false;
    }
  }

  /** An expression that means its terms has its last term below the chunk it joins. */
  lemma LastIsBelow(d: Diagram, terms: seq<Term>, i: nat)
    requires DiagramOk(d) && Known(d, terms) && TermsOk(d, terms) && MeansTerms(d, terms)
    requires 1 < |terms| && Joins(d, terms, |terms| - 1)
    requires i < WIDTH && OpenMask(d, terms[..|terms| - 1])[i]
    ensures High(d, terms[|terms| - 1]) <= i
  {
    hide DiagramOk, Gather, Merged, OpenMask, TermMask, Low, High;
    var n := |terms| - 1;
    var o, p := OpenMask(d, terms[..n]), TermMask(d, terms[n]);
    NeverLonger(d, terms[..n], p);
    var closed := ValueStep(d, terms, p);
    JoinedLength(o, p, p);
    Prefixes(Gather(p, p), Concatenation(d, terms[..n], p), Gather(p, Or(o, p)), closed);
    JoinedBelow(o, p, i, High(d, terms[n]) - 1);
  }

  lemma Prefixes(a: Bits, b: Bits, x: Bits, y: Bits)
    requires a + b == x + y && |a| <= |x|
    ensures a <= x
  {
    assert (a + b)[..|a|] == (x + y)[..|a|];
  }

  /** An expression that means its terms does so without the last one. */
  lemma InitMeansTerms(d: Diagram, terms: seq<Term>)
    requires DiagramOk(d) && Known(d, terms) && TermsOk(d, terms) && MeansTerms(d, terms) && terms != []
    ensures MeansTerms(d, terms[..|terms| - 1])
  {
    hide DiagramOk, Gather, Merged, OpenMask, TermMask, ChunksValue, Low, High;
    var n := |terms| - 1;
    forall opcode: Bits | |opcode| == WIDTH
      ensures ChunksValue(Merged(d, terms[..n]), opcode) == Concatenation(d, terms[..n], opcode)
    {
      var closed := ValueStep(d, terms, opcode);
      if n > 0 && Joins(d, terms, n) {
        JoinedBits(d, terms, opcode);
        Grouped(Gather(opcode, TermMask(d, terms[n])), Gather(opcode, OpenMask(d, terms[..n])), closed);
      }
      SameRest(Gather(opcode, TermMask(d, terms[n])), ChunksValue(Merged(d, terms[..n]), opcode),
               Concatenation(d, terms[..n], opcode));
    }
  }

  /** The last term is read before the rest of the chunk it joins. */
  lemma JoinedBits(d: Diagram, terms: seq<Term>, opcode: Bits)
    requires DiagramOk(d) && Known(d, terms) && TermsOk(d, terms) && MeansTerms(d, terms) && |opcode| == WIDTH
    requires 1 < |terms| && Joins(d, terms, |terms| - 1)
    ensures var n := |terms| - 1;
      Gather(opcode, Or(OpenMask(d, terms[..n]), TermMask(d, terms[n])))
      == Gather(opcode, TermMask(d, terms[n])) + Gather(opcode, OpenMask(d, terms[..n]))
  {
    hide DiagramOk, Gather, MeansTerms, OpenMask, TermMask, Low, High;
    var n := |terms| - 1;
    forall i | 0 <= i < WIDTH && OpenMask(d, terms[..n])[i]
      ensures High(d, terms[n]) <= i
    {
      LastIsBelow(d, terms, i);
    }
    GatherStacked(opcode, OpenMask(d, terms[..n]), TermMask(d, terms[n]), High(d, terms[n]));
  }

  lemma Grouped(x: Bits, y: Bits, z: Bits)
    ensures (x + y) + z == x + (y + z)
  {
  }

  lemma SameRest(a: Bits, x: Bits, y: Bits)
    requires a + x == a + y
    ensures x == y
  {
    assert (a + x)[|a|..] == x && (a + y)[|a|..] == y;
  }

  /** Exactly when every joined term lies below the one before it do the compiled masks
      gather the named bits on every opcode. */
  lemma {:induction false} MeansTermsExactly(d: Diagram, terms: seq<Term>)
    requires DiagramOk(d) && Known(d, terms) && TermsOk(d, terms)
    ensures Compiled(d, terms) == Merged(d, terms) + [Terminator()]
    ensures MeansTerms(d, terms) <==> Stacked(d, terms)
  {
    hide DiagramOk, TermOk, Joins, MeansTerms, Stacked, OpenMask, MergeAll, Closed, Parts;
    if Stacked(d, terms) {
      StackedMeans(d, terms);
    }
    if MeansTerms(d, terms) {
      if terms == [] {
        NoneStacked(d);
      } else {
        var n := |terms| - 1;
        StackedInit(d, terms);
        InitMeansTerms(d, terms);
        MeansTermsExactly(d, terms[..n]);
        if n > 0 && Joins(d, terms, n) {
          assert OpenMask(d, terms[..n])[Low(d, terms[n - 1])];
          LastIsBelow(d, terms, Low(d, terms[n - 1]));
        }
      }
    }
  }

  lemma StackedMeans(d: Diagram, terms: seq<Term>)
    requires DiagramOk(d) && Known(d, terms) && TermsOk(d, terms) && Stacked(d, terms)
    ensures MeansTerms(d, terms)
  {
    hide DiagramOk, TermOk, Stacked, ChunksValue, Concatenation;
    forall opcode: Bits | |opcode| == WIDTH
      ensures ChunksValue(Merged(d, terms), opcode) == Concatenation(d, terms, opcode)
    {
      MergeMeaning(d, terms, opcode);
    }
  }

  lemma NoneStacked(d: Diagram)
    ensures Stacked(d, [])
  {
  }

  /** A slice that reaches past its field into the field before it. */
  lemma ReachingSlice()
    ensures var d := map["a" := Field(0, 4), "b" := Field(4, 4)];
      var terms := [All("b"), Slice("a", 5, 0)];
      DiagramOk(d) && Known(d, terms) && TermsOk(d, terms) && !MeansTerms(d, terms)
  {
    var d := map["a" := Field(0, 4), "b" := Field(4, 4)];
    var terms := [All("b"), Slice("a", 5, 0)];
    hide MeansTerms, Merged, Concatenation;
    MeansTermsExactly(d, terms);
    assert Joins(d, terms, 1) && High(d, terms[1]) == 6 && Low(d, terms[0]) == 4;
    assert !JoinsBelow(d, terms, 1);
  }
}
