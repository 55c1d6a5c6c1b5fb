/** Reading a field expression in the decoder: the compiled masks, interned in the
    flat array and executed by `read_encodedin_value`. */
module Encodedins {
  import opened Bits
  import opened BinaryUtils
  import opened FieldExpressions
  import opened Sequences

  /** The chunks from `at` up to the terminator. */
  function ListAt(arr: seq<Chunk>, at: nat): seq<Chunk>
    requires at <= |arr|
    decreases |arr| - at
  {
    if at == |arr| || arr[at].size == 0 then [] else [arr[at]] + ListAt(arr, at + 1)
  }

  function TotalBits(chunks: seq<Chunk>): nat {
    if chunks == [] then 0 else TotalBits(chunks[..|chunks| - 1]) + chunks[|chunks| - 1].size
  }

  predicate ChunksOk(chunks: seq<Chunk>) {
    forall c :: c in chunks ==> |c.mask| == WIDTH && c.size == Popcount(c.mask)
  }

  /** What the C code needs: a terminator, sizes that count the mask bits, and no shift
      of the 32-bit result by 32 or past its width. */
  predicate Readable(arr: seq<Chunk>, at: nat) {
    (exists k :: at <= k < |arr| && arr[k].size == 0)
    && ChunksOk(ListAt(arr, at)) && (forall c :: c in ListAt(arr, at) ==> c.size < WIDTH)
    && TotalBits(ListAt(arr, at)) <= WIDTH
  }

  lemma {:induction false} ValueLength(chunks: seq<Chunk>, opcode: Bits)
    requires |opcode| == WIDTH && ChunksOk(chunks)
    ensures |ChunksValue(chunks, opcode)| == TotalBits(chunks)
  {
    if chunks != [] {
      var n := |chunks| - 1;
      ValueLength(chunks[..n], opcode);
      GatherLength(opcode, chunks[n].mask);
    }
  }

  lemma {:induction false} TotalBitsPrefix(chunks: seq<Chunk>, i: nat)
    requires i <= |chunks|
    ensures TotalBits(chunks[..i]) <= TotalBits(chunks)
  {
    if i < |chunks| {
      TotalBitsPrefix(chunks[..|chunks| - 1], i);
      assert chunks[..|chunks| - 1][..i] == chunks[..i];
    } else {
      assert chunks[..i] == chunks;
    }
  }

  /** `result <<= size; result |= value;` puts the new bits below the old ones. */
  lemma ShiftIn(acc: Bits, bits: Bits)
    requires |bits| + |acc| <= WIDTH
    ensures Or(Shl(Pad(acc, WIDTH), |bits|), Pad(bits, WIDTH)) == Pad(bits + acc, WIDTH)
  {
  }

  lemma ChunkStep(chunks: seq<Chunk>, i: nat, opcode: Bits)
    requires i < |chunks| && |opcode| == WIDTH && ChunksOk(chunks) && TotalBits(chunks) <= WIDTH
    ensures var acc, bits := ChunksValue(chunks[..i], opcode), Gather(opcode, chunks[i].mask);
      ChunksValue(chunks[..i + 1], opcode) == bits + acc && |bits| == chunks[i].size && |bits| + |acc| <= WIDTH
      && TotalBits(chunks[..i + 1]) == TotalBits(chunks[..i]) + chunks[i].size
  {
    assert chunks[..i + 1][..i] == chunks[..i];
    assert forall c :: c in chunks[..i + 1] ==> c in chunks;
    assert forall c :: c in chunks[..i] ==> c in chunks;
    GatherLength(opcode, chunks[i].mask);
    ValueLength(chunks[..i + 1], opcode);
    TotalBitsPrefix(chunks, i + 1);
  }

  lemma {:induction false} ListAtNext(arr: seq<Chunk>, at: nat, i: nat)
    requires at <= |arr| && i < |ListAt(arr, at)|
    ensures at + i < |arr| && arr[at + i].size != 0 && arr[at + i] == ListAt(arr, at)[i]
    decreases i
  {
    if i > 0 {
      assert ListAt(arr, at)[1..] == ListAt(arr, at + 1);
      ListAtNext(arr, at + 1, i - 1);
    }
  }

  lemma {:induction false} ListAtEnd(arr: seq<Chunk>, at: nat)
    requires at <= |arr| && exists k :: at <= k < |arr| && arr[k].size == 0
    ensures at + |ListAt(arr, at)| < |arr| && arr[at + |ListAt(arr, at)|].size == 0
    decreases |arr| - at
  {
    if arr[at].size != 0 {
      ListAtEnd(arr, at + 1);
    }
  }

  /** `read_encodedin_value`. */
  method ReadEncodedinValue(opcode: Bits, arr: seq<Chunk>, ref: nat) returns (gsize: nat, result: Bits)
    requires |opcode| == WIDTH && ref <= |arr| && Readable(arr, ref)
    ensures gsize == TotalBits(ListAt(arr, ref)) <= WIDTH
    ensures |ChunksValue(ListAt(arr, ref), opcode)| == gsize
    ensures result == Pad(ChunksValue(ListAt(arr, ref), opcode), WIDTH)
  {
    hide Gather, Pad, Or, Shl, TotalBits, ChunksValue, ListAt;
    ghost var chunks := ListAt(arr, ref);
    ListAtEnd(arr, ref);
    ValueLength(chunks, opcode);
    result := Zeros(WIDTH);
    gsize := 0;
    var i := 0;
    NothingRead(chunks, opcode);
    while true
      invariant i <= |chunks| && gsize == TotalBits(chunks[..i])
      invariant |ChunksValue(chunks[..i], opcode)| <= WIDTH && result == Pad(ChunksValue(chunks[..i], opcode), WIDTH)
      decreases |chunks| - i
    {
      if i < |chunks| {
        ListAtNext(arr, ref, i);
      }
      var mask, size := arr[ref + i].mask, arr[ref + i].size;
      if size == 0 {
        break;
      }
      assert chunks[i] in chunks;
      ChunkStep(chunks, i, opcode);
      gsize := gsize + size;
      var value := GetMaskedValue(opcode, mask);
      ShiftIn(ChunksValue(chunks[..i], opcode), Gather(opcode, mask));
      result := Shl(result, size);
      result := Or(result, value);
      i := i + 1;
    }
    assert chunks[..i] == chunks;
  }

  lemma NothingRead(chunks: seq<Chunk>, opcode: Bits)
    requires |opcode| == WIDTH
    ensures TotalBits(chunks[..0]) == 0 && ChunksValue(chunks[..0], opcode) == [] && Pad([], WIDTH) == Zeros(WIDTH)
  {
  }

  // ----- from the expression to the value -----

  function Texts(chunks: seq<Chunk>): (texts: seq<string>)
    requires forall c :: c in chunks ==> |c.mask| == WIDTH
    ensures |texts| == |chunks| && forall i :: 0 <= i < |chunks| ==> texts[i] == MaskToC(chunks[i])
  {
    seq(|chunks|, i requires 0 <= i < |chunks| => MaskToC(chunks[i]))
  }

  /** `arr` is the array a C compiler makes of the generated initializers. */
  ghost predicate CompiledFrom(arr: seq<Chunk>, flat: seq<string>) {
    |arr| == |flat| && forall i :: 0 <= i < |arr| ==> Initializes(flat[i], arr[i])
  }

  lemma {:induction false} ListAtIs(arr: seq<Chunk>, at: nat, chunks: seq<Chunk>)
    requires at + |chunks| < |arr| && arr[at..at + |chunks|] == chunks && arr[at + |chunks|].size == 0
    requires forall c :: c in chunks ==> c.size != 0
    ensures ListAt(arr, at) == chunks
    decreases |chunks|
  {
    if chunks != [] {
      assert arr[at] == chunks[0];
      assert arr[at + 1..at + 1 + |chunks[1..]|] == chunks[1..];
      ListAtIs(arr, at + 1, chunks[1..]);
      assert chunks == [chunks[0]] + chunks[1..];
    }
  }

  lemma {:induction false} PartsNotEmpty(ps: seq<Part>)
    requires PartsOk(ps) && forall p :: p in ps ==> p.size > 0
    ensures forall c :: c in Closed(MergeAll(ps)) ==> |c.mask| == WIDTH && c.size > 0
  {
    if ps != [] {
      PartsNotEmpty(ps[..|ps| - 1]);
    }
  }

  lemma CompiledWidths(d: Diagram, terms: seq<Term>)
    requires DiagramOk(d) && TermsOk(d, terms)
    ensures forall c :: c in Compiled(d, terms) ==> |c.mask| == WIDTH
    ensures Known(d, terms) ==> PartsOk(Parts(d, terms))
    ensures Known(d, terms) ==> forall c :: c in Closed(MergeAll(Parts(d, terms))) ==> |c.mask| == WIDTH && c.size > 0
    ensures Known(d, terms) && Stacked(d, terms) ==> ChunksOk(Closed(MergeAll(Parts(d, terms))))
  {
    hide MergeAll, Closed, Stacked;
    if Known(d, terms) {
      PartsAreOk(d, terms);
      PartsNotEmpty(Parts(d, terms));
      if Stacked(d, terms) {
        SizesCount(d, terms);
      }
    }
  }

  lemma SizesCount(d: Diagram, terms: seq<Term>)
    requires DiagramOk(d) && TermsOk(d, terms) && Known(d, terms) && Stacked(d, terms)
    ensures PartsOk(Parts(d, terms)) && ChunksOk(Closed(MergeAll(Parts(d, terms))))
  {
    hide DiagramOk, Stacked;
    MergeMeaning(d, terms, Zeros(WIDTH));
    var m := MergeAll(Parts(d, terms));
    assert SizesOk(m, Zeros(WIDTH));
    forall c | c in Closed(m)
      ensures |c.mask| == WIDTH && c.size == Popcount(c.mask)
    {
      GatherLength(Zeros(WIDTH), c.mask);
    }
  }

  /** The initializers that are interned for an expression. */
  function Printed(d: Diagram, terms: seq<Term>): (texts: seq<string>)
    requires DiagramOk(d) && TermsOk(d, terms)
    ensures |texts| == |Compiled(d, terms)|
  {
    CompiledWidths(d, terms);
    Texts(Compiled(d, terms))
  }

  /** The chunks of an expression, without the terminator. */
  function Chunks(d: Diagram, terms: seq<Term>): seq<Chunk>
    requires DiagramOk(d) && TermsOk(d, terms)
  {
    Compiled(d, terms)[..|Compiled(d, terms)| - 1]
  }

  lemma CompiledParts(d: Diagram, terms: seq<Term>)
    requires DiagramOk(d) && TermsOk(d, terms)
    ensures Compiled(d, terms) == Chunks(d, terms) + [Terminator()]
    ensures forall c :: c in Chunks(d, terms) ==> |c.mask| == WIDTH && c.size != 0
    ensures Known(d, terms) ==>
      PartsOk(Parts(d, terms)) && Chunks(d, terms) == Closed(MergeAll(Parts(d, terms)))
    ensures Known(d, terms) && Stacked(d, terms) ==> ChunksOk(Chunks(d, terms))
    ensures !Known(d, terms) ==> Chunks(d, terms) == []
  {
    hide Parts, MergeAll, Closed, Stacked;
    CompiledWidths(d, terms);
  }

  /** The interned initializers of an expression read back as its chunks. */
  lemma ReadsCompiled(d: Diagram, terms: seq<Term>, lists: seq<seq<string>>, arr: seq<Chunk>)
    requires DiagramOk(d) && TermsOk(d, terms)
    requires Printed(d, terms) in lists && CompiledFrom(arr, Flat(lists))
    ensures var at := IndexOf(lists, Printed(d, terms));
      at <= |arr| && (exists k :: at <= k < |arr| && arr[k].size == 0) && ListAt(arr, at) == Chunks(d, terms)
  {
    hide Parts, MergeAll, IndexOf, Flat, MaskToC, DiagramOk, TermsOk, Compiled, Chunks, ListAt, Closed, Known, ChunksOk, PartsOk;
    CompiledParts(d, terms);
    var all, chunks := Compiled(d, terms), Chunks(d, terms);
    CompiledWidths(d, terms);
    var at := IndexOf(lists, Printed(d, terms));
    ReadsBack(lists, Printed(d, terms));
    SameChunks(arr, Flat(lists), at, all);
    Terminated(arr, at, chunks);
  }

  lemma Terminated(arr: seq<Chunk>, at: nat, chunks: seq<Chunk>)
    requires at + |chunks| + 1 <= |arr| && arr[at..at + |chunks| + 1] == chunks + [Terminator()]
    requires forall c :: c in chunks ==> c.size != 0
    ensures (exists k :: at <= k < |arr| && arr[k].size == 0) && ListAt(arr, at) == chunks
  {
    var part := arr[at..at + |chunks| + 1];
    assert part[|chunks|] == Terminator() == arr[at + |chunks|];
    assert arr[at..at + |chunks|] == part[..|chunks|] == chunks;
    ListAtIs(arr, at, chunks);
  }

  lemma SameChunks(arr: seq<Chunk>, flat: seq<string>, at: nat, all: seq<Chunk>)
    requires CompiledFrom(arr, flat) && at + |all| <= |flat| && forall c :: c in all ==> |c.mask| == WIDTH
    requires flat[at..at + |all|] == Texts(all)
    ensures arr[at..at + |all|] == all
  {
    hide MaskToC, Initializes;
    forall i | 0 <= i < |all|
      ensures arr[at + i] == all[i]
    {
      assert flat[at..at + |all|][i] == Texts(all)[i];
      PrintedInitializes(all[i], arr[at + i]);
    }
  }

  lemma {:induction false} TotalBitsAppend(a: seq<Chunk>, c: Chunk)
    ensures TotalBits(a + [c]) == TotalBits(a) + c.size
  {
    assert (a + [c])[..|a|] == a;
  }

  lemma {:induction false} CompiledTotal(d: Diagram, terms: seq<Term>)
    requires DiagramOk(d) && Known(d, terms) && TermsOk(d, terms)
    ensures PartsOk(Parts(d, terms)) && TotalBits(Closed(MergeAll(Parts(d, terms)))) == TotalSize(d, terms)
  {
    PartsAreOk(d, terms);
    if terms != [] {
      var n := |terms| - 1;
      assert forall u :: u in terms[..n] ==> u in terms;
      CompiledTotal(d, terms[..n]);
      PartsAreOk(d, terms[..n]);
      assert Parts(d, terms)[..n] == Parts(d, terms[..n]);
      var m := MergeAll(Parts(d, terms[..n]));
      StepTotal(m, PartOf(d, terms[n]));
    }
  }

  lemma StepTotal(m: Merge, p: Part)
    requires |p.mask| == WIDTH && (m.open.Some? ==> |m.open.value.mask| == WIDTH)
    ensures TotalBits(Closed(MergeStep(m, p))) == TotalBits(Closed(m)) + p.size
  {
    hide TotalBits;
    var m' := MergeStep(m, p);
    assert m.masks + [] == m.masks;
    if m.open.Some? {
      var o := m.open.value;
      TotalBitsAppend(m.masks, Chunk(o.mask, o.size));
      if p.pos < o.pos {
        TotalBitsAppend(m.masks, Chunk(Or(o.mask, p.mask), o.size + p.size));
      } else {
        TotalBitsAppend(m.masks + [Chunk(o.mask, o.size)], Chunk(p.mask, p.size));
      }
    } else {
      TotalBitsAppend(m.masks, Chunk(p.mask, p.size));
    }
  }

  lemma {:induction false} ChunkBelowTotal(chunks: seq<Chunk>, c: Chunk)
    requires c in chunks
    ensures c.size <= TotalBits(chunks)
  {
    var n := |chunks| - 1;
    if chunks[n] != c {
      ChunkBelowTotal(chunks[..n], c);
    }
  }

  /** End to end: reading the interned masks of an expression of known fields, on any
      opcode, gives the concatenation of the named bits and their total width; and an
      expression under 32 bits meets every demand of the reading loop. */
  lemma ReadsConcatenation(d: Diagram, terms: seq<Term>, lists: seq<seq<string>>, arr: seq<Chunk>, opcode: Bits)
    requires DiagramOk(d) && TermsOk(d, terms) && Known(d, terms) && Stacked(d, terms) && |opcode| == WIDTH
    requires Printed(d, terms) in lists && CompiledFrom(arr, Flat(lists))
    ensures var at := IndexOf(lists, Printed(d, terms));
      at <= |arr| && (forall c :: c in ListAt(arr, at) ==> |c.mask| == WIDTH)
      && ChunksValue(ListAt(arr, at), opcode) == Concatenation(d, terms, opcode)
      && TotalBits(ListAt(arr, at)) == TotalSize(d, terms)
      && (TotalSize(d, terms) < WIDTH ==> Readable(arr, at))
  {
    hide Parts, MergeAll, IndexOf, Flat, MaskToC, DiagramOk, TermsOk, TotalBits, ListAt, ChunksValue, Compiled, TotalSize,
      Chunks, Closed, Stacked, Printed;
    CompiledParts(d, terms);
    ReadsCompiled(d, terms, lists, arr);
    MergeMeaning(d, terms, opcode);
    CompiledTotal(d, terms);
    var chunks := Chunks(d, terms);
    forall c | c in chunks
      ensures c.size <= TotalBits(chunks)
    {
      ChunkBelowTotal(chunks, c);
    }
  }

  /** Every list the generator interns is fit for interning. */
  lemma PrintedIsFit(d: Diagram, terms: seq<Term>)
    requires DiagramOk(d) && TermsOk(d, terms)
    ensures Initializers(Printed(d, terms))
  {
    hide Initializer;
    CompiledWidths(d, terms);
    var all := Compiled(d, terms);
    forall e | e in Texts(all)
      ensures Initializer(e)
    {
      var i :| 0 <= i < |all| && Texts(all)[i] == e;
      MaskToCIsInitializer(all[i]);
    }
  }

  /** A C compiler reads the printed list as the compiled chunks. */
  lemma PrintedIsRead(d: Diagram, terms: seq<Term>)
    requires DiagramOk(d) && TermsOk(d, terms)
    ensures forall i :: 0 <= i < |Compiled(d, terms)| ==> Initializes(Printed(d, terms)[i], Compiled(d, terms)[i])
  {
    hide Initializes, Compiled, MaskToC;
    CompiledWidths(d, terms);
    forall i | 0 <= i < |Compiled(d, terms)|
      ensures Initializes(Printed(d, terms)[i], Compiled(d, terms)[i])
    {
      PrintedInitializes(Compiled(d, terms)[i], Compiled(d, terms)[i]);
    }
  }

  /** `mask_to_c` of every chunk. */
  method PrintMasks(masks: seq<Chunk>) returns (texts: seq<string>)
    requires forall c :: c in masks ==> |c.mask| == WIDTH
    ensures texts == Texts(masks)
  {
    hide MaskToC;
    texts := [];
    var i := 0;
    while i < |masks|
      invariant i <= |masks| == |Texts(masks)| && texts == Texts(masks)[..i]
    {
      texts := texts + [MaskToC(masks[i])];
      i := i + 1;
    }
  }

  /** The `encodedin` of a node: compiled, printed and interned, whatever other lists the
      sequence holds. */
  method ProcessNode(d: Diagram, encodedin: seq<Term>, encodedins: Sequence) returns (index: nat)
    requires DiagramOk(d) && TermsOk(d, encodedin) && encodedins.Valid()
    modifies encodedins
    ensures encodedins.Valid() && encodedins.lists == AddList(old(encodedins.lists), Printed(d, encodedin))
    ensures Printed(d, encodedin) in encodedins.lists
    ensures index == IndexOf(encodedins.lists, Printed(d, encodedin))
    ensures forall i :: 0 <= i < |Compiled(d, encodedin)| ==> Initializes(Printed(d, encodedin)[i], Compiled(d, encodedin)[i])
  {
    hide Initializers, Compiled, Initializes, MaskToC;
    PrintedIsFit(d, encodedin);
    PrintedIsRead(d, encodedin);
    CompiledWidths(d, encodedin);
    var masks := ParseEncodedin(d, encodedin);
    var texts := PrintMasks(masks);
    var registered := encodedins.Add(texts);
    index := registered.index;
  }

  /** From the generator to the decoder, for any run of additions: the index that list `i`
      got when it was added, if that list was printed from an expression, reads from any
      array compiled out of the final sequence as the concatenation of the named bits. */
  lemma InternedReads(arrays: seq<seq<string>>, i: nat, d: Diagram, terms: seq<Term>, arr: seq<Chunk>, opcode: Bits)
    requires DiagramOk(d) && TermsOk(d, terms) && Known(d, terms) && Stacked(d, terms) && |opcode| == WIDTH
    requires i < |arrays| && arrays[i] == Printed(d, terms) && CompiledFrom(arr, Flat(AddAll(arrays)))
    ensures arrays[i] in AddAll(arrays[..i + 1])
    ensures var at := IndexOf(AddAll(arrays[..i + 1]), arrays[i]);
      at <= |arr| && (forall c :: c in ListAt(arr, at) ==> |c.mask| == WIDTH)
      && ChunksValue(ListAt(arr, at), opcode) == Concatenation(d, terms, opcode)
      && TotalBits(ListAt(arr, at)) == TotalSize(d, terms)
      && (TotalSize(d, terms) < WIDTH ==> Readable(arr, at))
  {
    hide IndexOf, Flat, AddAll, Printed, Compiled, DiagramOk, TermsOk, Known, Stacked, ListAt, TotalBits, ChunksValue,
      Concatenation, TotalSize, Readable, CompiledFrom;
    Enters(arrays, i);
    LaterAddsKeep(arrays, i + 1);
    ReadsConcatenation(d, terms, AddAll(arrays), arr, opcode);
  }
}
