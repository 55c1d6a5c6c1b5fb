# AMED in Dafny

AMED is a multi-architecture disassembler. A Perl generator turns architecture tables into C
lookup code and data, and a C runtime decodes instruction bytes with them. This project models the
parts whose correctness is not visible from one function body, and proves what they are for.

| file | what it covers |
|---|---|
| `Bits.dfy`, `BinaryUtils.dfy`, `Wrappers.dfy` | machine words as bit sequences, the bit loops of the C runtime |
| `DecisionTree.dfy` | patterns, the linear search, the tree builder on lists, the emitted code and its meaning |
| `DecisionTreeSearch.dfy` | the emitted tree refines a most-specific-first search |
| `DecisionTreeMeaning.dfy` | which pattern wins, when a switch is built and which constraint is tested, in positions of bits |
| `DecisionTreeTermination.dfy` | exactly when building ends |
| `DecisionTreePaths.dfy`, `DecisionTreeWalk.dfy`, `DecisionTreeLeaves.dfy` | what any word is answered, matched or not, and when it is answered 0; one leaf per pattern |
| `DecisionTreeNodes.dfy` | the same builder on linked nodes that are relinked, stripped and forked in place |
| `FieldExpressions.dfy`, `FieldSlices.dfy`, `FieldNumbers.dfy`, `Sequences.dfy`, `Encodedins.dfy` | compiling field expressions and constraints, exactly when that is right, what they read as numbers, printing and interning the masks, reading them back in the decoder |
| `Transformer.dfy`, `TransformerMeaning.dfy`, `TransformerNumbers.dfy` | rewriting alias conditions into C, that it keeps their meaning, and that meaning as numbers |
| `BitmaskImmediate.dfy` | AArch64 logical immediates |
| `X86Prefixes.dfy`, `X86PrefixOrder.dfy`, `X86VectorEncoding.dfy`, `X86Length.dfy`, `X86Meaning.dfy`, `X86Decoder.dfy` | the x86 prefix machine, instruction lengths as a function of input and tables, the decoder's codes in bits, bytes and numbers, and the cursor over the instruction bytes |
| `RegisterLists.dfy`, `SysOps.dfy` | register lists, bit-field aliases, the system-operation switch |

Words are sequences of bits, least significant first; `word & mask == opcode` is the common notion of
a match. Functions say what a step computes, methods with loops or on mutable objects are proved equal
to them or against a closed statement, and lemmas relate the functions to what the repository promises.

Main results:

- The tree that `print_tree` emits answers every word that satisfies some pattern with the one of these
  that fixes the most bits, the first on a tie, for all lists of patterns, constraints included
  (`MostBitsWin`, from `TreeRefinesSearch`); so a pattern never wins over a satisfied one that fixes all
  of its bits and more (`MoreSpecificWins`). The linked-list builder computes exactly that tree
  (`GetTree`).
- Building ends exactly when no list that the splits lead to is stuck: no effective bit, a pending
  constraint, and either none that can be tested or one whose test leaves the list as it was
  (`EndsExactly`, for all lists). When it ends, a nesting depth of twice the weight of the list is enough.
  Lists with compatible constraint masks always end (`BuildingEnds`); so do lists without constraints,
  whose tree has exactly one leaf per pattern (`OneLeafPerRecord`).
- The tree answers any word, matched or not, with the record at which a walk of the word through the
  splits of the list lands, and with 0 exactly when the walk comes to a switch where no entry left has
  the word's value (`BuildFollows`, `AnsweredZero`). The word agrees with the record on every bit its
  path has fixed, and whether it satisfies it is decided by the remaining bits and the constraints alone
  (`AnyWord`, `RestDecides`, `UnmatchedWord`).
- A field expression, compiled, printed as C text, interned in any order with any other lists, read by a
  C compiler and then by the decoder from the index it got, is the concatenation of the named slices
  (`InternedReads`, `PrintedInitializes`). It is so
  exactly when a slice that joins a mask lies below the one before it (`MeansTermsExactly`), which slices
  within their fields always do (`InsideIsStacked`).
- The transformer keeps the meaning of every well-formed condition (`MeaningIsKept`) and leaves plain C
  over `opcode` (`OutputIsPlainC`). It is wrong on two families, each given by an exact condition: slices
  that forget their width (`IsOnesOfSlice`, `NestedSlice`), and constants that outgrow 32 bits
  (`NumbersFoldExactly`, `ShiftedComparison`).
- `decode_logimm` computes the closed bit formula, which is what the architecture builds by rotating and
  repeating except for one reserved family; distinct canonical encodings give distinct immediates, 5334
  in all, and these are exactly what `decode_logimm` returns outside that family (`PatternsAreImmediates`).
  Without a data size the field itself says 32 or 64 bits (`DefaultImmediate`).
- The x86 decoder succeeds and stops exactly where a function of input and table says (`DecodeInsn`,
  `DecodeEnd`): a complete instruction has the length of its parts (`FullLength`). At every point, on
  success and on failure, the spans added so far spell the bytes before the cursor, and the cursor is at
  most one byte past the input, for every input but one family: 255 bytes whose last one is the opcode of
  an instruction with a ModRM byte wrap the 8-bit cursor round, and exactly then the reported length is
  short by 256 (`Wraps`, `Conservation`). Two orders of the same prefixes agree just when their last
  segment prefixes and their last F2 or F3 agree (`OrderOnlyPicksTheLast`).
- What the x86 codes stand for: the state after prefixes by the positions of their bytes (`RunMeaning`),
  the map by the escape bytes or the number that select it, in both directions (`EscapeDispatches`,
  `EscapeIsOfMap`, `VectorMaps`), the widths of addresses, offsets, pointers and immediates in bits by
  mode and prefixes (`MoffsBytes`, `OperandBytes`), and the key of the lookup (`KeyMeaning`).

## Where the code and its documentation differ

The model follows the code.

- A word that satisfies no pattern is not always answered 0 by the decision tree: bits that do not tell
  two patterns apart are never read. Only a switch without its value answers 0 (`AnsweredZero`).
- `divide_tree` and `divide_cnsts` can go on without end. Where they call each other, the source stops by
  its guard of 100000 calls; where the `goto again` of `divide_cnsts` meets the same list again, no call
  is counted and nothing stops it (`GotoForEver`). There are two ways into it (`EndsExactly`): no pending
  constraint lies within the common pending mask, as with two records whose constraint masks overlap (`OverlapNeverEnds`); or a
  constraint whose bits are used up is found again, because `get_node_constraint` looks at all
  constraints of a node that has any left, as with two records whose masks are pairwise equal or
  disjoint (`TwiceNeverEnds`). Overlapping masks alone do not cause it.
- A slice that reaches past its field may clash with the term before it: the merged mask then gathers
  other bits than the expression names (`ReachingSlice`). Nothing rejects such a slice.
- Without a second argument `get_bit_count` of the generator counts digits, not set bits, and it answers 1
  for 0; `get_bit_count` of the C runtime answers 0 for 0.
- A slice of constants with a leading 0 becomes a number that forgets its width, so `IsOnes` of 0:1 comes
  out true (`LeadingZeroLost`).
- Constants are folded in 64 bits, C computes in 32: `(0x80000000 << 1) == 0` is true in C and comes out
  false (`OverflowLost`).
- `decode_logimm` accepts elements of ones only, which the architecture leaves undefined
  (`ConformsExceptAllOnes`).
- With mod 1 or 2 and a SIB byte of base 5 the x86 decoder reads the displacement twice
  (`TailLengthConforms`). A ModRM byte that is missing at the end of the input is passed over and read
  as 0; after an input of 255 bytes that step wraps the 8-bit cursor round to 0 and the operands are read
  from the first byte on (`WrapsToStart`), so that decoding can succeed with a length of 0
  (`WrapWitness`). An input of 256 bytes or more is cut to its length modulo 256.
- An XOP prefix is recorded as a span of type VEX3.
- In 16-bit mode 66 and 67 halve sizes that are the smallest already and change nothing, where section 3.6
  of Intel SDM volume 1 has them select 32 bits (`AddressBits`, `OperandBits`). In front of a template with
  64 bits by default, 66 leaves 32 bits and not 16 (`TemplateBits`).
- A REX byte takes effect wherever it stands among the prefixes; with two of them the operand size depends
  on the order even when the same REX comes last (`TwoRexBytes`, `OrderWithManyRex`).

## Model

| member | source | states |
|---|---|---|
| DecisionTreeSearch.TreeRefinesSearch | generator/DecisionTree.pm:292-643 | whenever building ends, a word that satisfies some record is answered with the index of a satisfied record of the highest rank, the first one of that rank |
| DecisionTreeMeaning.MostBitsWin | generator/DecisionTree.pm:292-319 | whenever building ends, the answer is a satisfied pattern such that no satisfied one has more bits set in `tmask`, none and one counting alike, and none before it as many |
| DecisionTreeMeaning.MoreSpecificWins | generator/DecisionTree.pm:292-319 | a pattern whose bits are some of those of another satisfied pattern is not the answer |
| DecisionTreeMeaning.InitialMeaning | generator/ARM.pm:256-281 | a record enters with its mask and the bits of all its constraints undecided |
| DecisionTreeMeaning.SwitchExactly | generator/DecisionTree.pm:435-463 | a switch is built exactly for two or more effective bits in one byte with 3 to 400 different values |
| DecisionTreeMeaning.GlobalConstraintMeaning | generator/DecisionTree.pm:146-182 | nothing is tested when nothing is pending, else the first constraint that looks only inside the bits pending everywhere, or inside those of the last pending entry when there are none |
| DecisionTreeSearch.BuildAnswers | generator/DecisionTree.pm:574-643 | the same for any list with partly stripped masks: the emitted code agrees with the linear search |
| DecisionTreeSearch.SearchMeaning | generator/DecisionTree.pm:292-319 | the linear search returns the most specific satisfied record, ties going to the earlier one |
| DecisionTreeSearch.BitSplitKeeps | generator/DecisionTree.pm:534-567 | a single-bit split keeps every pattern a word satisfies, in order, on the branch the word takes |
| DecisionTreeSearch.SwitchSplitKeeps | generator/DecisionTree.pm:465-503 | a switch keeps every satisfied pattern in the case the word selects, although whole masks are stripped |
| DecisionTreeSearch.ConstraintSplitKeeps | generator/DecisionTree.pm:216-254 | a constraint split keeps every satisfied pattern on the side the word takes, forked entries included |
| DecisionTreeSearch.SortKeepsBest | generator/DecisionTree.pm:292-319 | sorting by rank leaves the search result unchanged, because equal ranks keep their order |
| DecisionTreeSearch.SortDescends | generator/DecisionTree.pm:292-319 | the sorted list is in descending rank and has only entries of the list |
| DecisionTreeSearch.HeadIsBest | generator/DecisionTree.pm:292-319 | a satisfied head of a sorted list is the search result, which justifies testing it alone |
| DecisionTreeSearch.EffectiveMaskMeaning | generator/DecisionTree.pm:418-433 | the effective mask has a bit exactly when all undecided masks have it and the opcodes differ on it |
| DecisionTreeSearch.BitTestMeaning | generator/DecisionTree.pm:522-532 | the printed test of one byte variable is true exactly when the word has the bit |
| DecisionTreeSearch.SwitchReads | generator/DecisionTree.pm:450-495 | the printed switch expression on one byte equals the builder's shifted value of the whole word |
| DecisionTreeTermination.EndsExactly | generator/DecisionTree.pm:159-585 | for every list: building ends at some depth if and only if no list its splits lead to is stuck, and then any depth above twice the weight suffices |
| DecisionTreeTermination.BuildingEnds | generator/DecisionTree.pm:71-112 | the same for the list made from records; compatible constraint masks, and so no constraints, are enough |
| DecisionTreeTermination.BuildEnds | generator/DecisionTree.pm:403-585 | a list that no stuck list is reached from is finished within twice its weight (mask bits, constraint bits and entries) |
| DecisionTreeTermination.BuildGivesEnds | generator/DecisionTree.pm:403-585 | a list that is finished at some depth reaches no stuck list |
| DecisionTreeTermination.FailingLighter | generator/DecisionTree.pm:196-254 | the list for the words that fail a tested constraint is always lighter, overlapping masks included |
| DecisionTreeTermination.GlobalConstraintReady | generator/DecisionTree.pm:159-182 | while a compatible list has a pending constraint, one is found and it decides some entry, so the weight drops |
| DecisionTreeTermination.StuckForEver | generator/DecisionTree.pm:193-269 | a list of two or more with no effective bit and a pending constraint that cannot be tested, or whose test changes nothing, is finished at no depth |
| DecisionTreeTermination.OverlapNeverEnds | generator/DecisionTree.pm:159-269 | two records with overlapping constraint masks on which building gives up at every depth |
| DecisionTreeTermination.TwiceNeverEnds | generator/DecisionTree.pm:146-157 | two records with constraint masks pairwise equal or disjoint on which building gives up at every depth |
| DecisionTreeTermination.GotoForEver | generator/DecisionTree.pm:256-259 | two records on which the loop over constraints comes back to the same list without a call |
| DecisionTreeLeaves.OneLeafPerRecord | generator/DecisionTree.pm:292-319 | without constraints the tree's leaves are the indexes of the records, each as often as it occurs |
| DecisionTreeLeaves.BitPartition | generator/DecisionTree.pm:534-567 | the two lists of a bit split together hold every entry once |
| DecisionTreeLeaves.CasePartition | generator/DecisionTree.pm:465-489 | the lists of a switch, taken case by case, hold every entry once |
| DecisionTreePaths.AnyWord | generator/DecisionTree.pm:587-643 | for all records, constraints included, and any word: 0 when the path ends in no leaf, else the index of a record that has all bits the path reads in its mask and the word's values there, and that the word satisfies exactly when it agrees with it on the bits not read and meets its constraints |
| DecisionTreePaths.BuildPath | generator/DecisionTree.pm:403-585 | the same agreement for the tree of any list, by induction over all splits |
| DecisionTreePaths.RestDecides | generator/DecisionTree.pm:587-643 | a word satisfies the record it is answered with exactly when the bits not read agree and its constraints are met |
| DecisionTreePaths.UnmatchedWord | generator/DecisionTree.pm:587-643 | 0 is answered exactly when the path ends in no leaf; an unmatched word answered otherwise gets a record it differs from only on bits not read or in a constraint |
| DecisionTreePaths.SingleRecord | generator/DecisionTree.pm:403-416 | a single record answers every word |
| DecisionTreeWalk.BuildFollows | generator/DecisionTree.pm:403-643 | the tree of any list answers a word with the record where the word's walk through the splits lands, and reaches a leaf exactly when it lands |
| DecisionTreeWalk.AnsweredZero | generator/DecisionTree.pm:587-643 | a word is answered 0 exactly when its walk comes to a switch with no entry of its value |
| DecisionTreeWalk.MeetingNotEmpty | generator/DecisionTree.pm:216-269 | the list for the words that meet a tested constraint is never empty |
| DecisionTreeNodes.GetTree | generator/DecisionTree.pm:71-112 | the linked list made from the records yields the tree that the theorems are about |
| DecisionTreeNodes.DivideTree | generator/DecisionTree.pm:574-585 | on any chain of nodes, relinked and stripped in place, the result is the tree of the list of values it held |
| DecisionTreeNodes.DivideTreeUsingSwitch | generator/DecisionTree.pm:435-507 | either the switch of the list, or failure with the nodes and their order untouched |
| DecisionTreeNodes.SplitByValue | generator/DecisionTree.pm:465-489 | relinking by switch value yields one chain per value, each with its entries in order, sharing no node |
| DecisionTreeNodes.CountCases | generator/DecisionTree.pm:448-461 | the number of distinct switch values and the least of them |
| DecisionTreeNodes.DivideTreeUsingIf | generator/DecisionTree.pm:509-572 | the loop that drops agreed bits and the final split give the tree of the list |
| DecisionTreeNodes.SplitByBit | generator/DecisionTree.pm:534-553 | relinking by one bit yields two chains in order that share no node |
| DecisionTreeNodes.DivideTreeTerminal | generator/DecisionTree.pm:403-416 | a leaf for one node, else constraints before ranks |
| DecisionTreeNodes.DivideConstraints | generator/DecisionTree.pm:193-269 | the goto loop over constraints gives the tree of the list |
| DecisionTreeNodes.SplitByConstraint | generator/DecisionTree.pm:196-254 | decided entries move, undecided ones are forked: two chains that share no node, the copies fresh |
| DecisionTreeNodes.GetGlobalConstraint | generator/DecisionTree.pm:159-182 | the first constraint within the common or last pending mask |
| DecisionTreeNodes.StateHasConstraints | generator/DecisionTree.pm:271-279 | whether some entry still has undecided constraint bits |
| DecisionTreeNodes.DivideHighest | generator/DecisionTree.pm:292-319 | sorting the nodes and relinking them gives the tree of the sorted list |
| DecisionTreeNodes.GetEffectiveMask | generator/DecisionTree.pm:418-433 | the accumulating loop computes the effective mask of the list |
| FieldExpressions.ParseEncodedin | generator/ARM.pm:79-142 | the two loops compile an expression to its merged chunks and a terminator, or to the terminator alone for an unknown name; slices may reach past their field |
| FieldExpressions.MergeMeaning | generator/ARM.pm:114-141 | when every term that joins a chunk lies below the one before it, merging keeps the value of the expression on every opcode, and every size counts its mask's bits |
| FieldSlices.MeansTermsExactly | generator/ARM.pm:79-142 | the compiled masks gather the named bits on every opcode if and only if every joined term lies below the one before it |
| FieldExpressions.InsideIsStacked | generator/ARM.pm:79-142 | slices within their fields always lie so, because fields share no bit |
| FieldSlices.ReachingSlice | generator/ARM.pm:97-106 | a slice past its field on which the compiled masks gather other bits |
| FieldExpressions.GetMaskFromRange | generator/Binary/Utils.pm:39-47 | the loop sets exactly the bits of the range, shifted to the field |
| FieldExpressions.ProcessConstraint | generator/ARM.pm:195-240 | the compiled mask and value match an opcode exactly when the concatenated fields agree with the pattern on all bits that are not x |
| FieldExpressions.ProcessConstraints | generator/ARM.pm:195-240 | one constraint per pattern, kept exactly by the opcodes that disagree with it; `cmask` has the bits some constraint looks at, and `tmask` these and the mask |
| FieldNumbers.ConcatenationNumber | generator/ARM.pm:79-108 | an expression reads the number made of quotients and remainders of the opcode by powers of two, the first term most significant |
| FieldNumbers.AgreesNumber | generator/ARM.pm:209-231 | without x, an opcode agrees with a pattern exactly when the number of its fields is that of the binary digits |
| Sequences.Sequence.constructor | generator/Sequence.pm:5-16 | an empty sequence |
| Sequences.Sequence.Add | generator/Sequence.pm:23-40 | the returned index is where the list starts in the flat array; a list seen before keeps its index and adds nothing |
| Sequences.InterningIsFaithful | generator/Sequence.pm:23-40 | over any run of adds every returned index reads its own list back from the final array, and equal lists share an index |
| Sequences.LaterAddsKeep | generator/Sequence.pm:23-40 | later adds only extend the array and move no index |
| Sequences.JoinInjective | generator/Sequence.pm:23-40 | the joined text determines the list when every element is one initializer, a number, a pointer or a nested one: no separator outside its braces; so the text is a sound key |
| Sequences.PlainIsInitializer | generator/Base.pm:504-516 | numbers and pointers, which hold no brace and no comma, are elements of that kind |
| Sequences.MaskToCInjective | generator/ARM.pm:144-147 | different masks or sizes print differently |
| Sequences.PrintedInitializes | generator/ARM.pm:144-147 | read by character codes and place values, the printed text initializes this mask and size and nothing else |
| Sequences.HexReads | generator/ARM.pm:144-147 | eight hexadecimal digits stand for the number of the mask |
| Sequences.DecReads | generator/ARM.pm:144-147 | decimal digits stand for the size, without a leading 0 that C would take for an octal number |
| Encodedins.ReadEncodedinValue | source/aarch64/decoder.c:336-354 | the loop returns the total size and the concatenated masked values of the list up to its terminator |
| Encodedins.ReadsCompiled | source/aarch32/decoder.c:113-131 | from the interned index the decoder reads exactly the chunks of the expression |
| Encodedins.ReadsConcatenation | source/aarch64/decoder.c:336-354 | the value read at the index of a list is the concatenation of the named slices, most significant first, and the size is their total width |
| Encodedins.ProcessNode | generator/ARM.pm:186-191 | an expression is compiled, printed and interned, a C compiler reads each printed element as the compiled mask and size, and the index is where they start |
| Encodedins.InternedReads | generator/Sequence.pm:23-40 | end to end, for any run of additions: the index a list got when it was added reads, in the array compiled from the final sequence, as the concatenation of the expression it was printed from |
| BinaryUtils.GetMaskedValue | source/utils/binary.h:64-75 | the bits of the value under the mask, packed together in order |
| BinaryUtils.GetHiBitPos | source/utils/binary.h:77-88 | the position of the highest set bit, 0 for 0 |
| BinaryUtils.CountBits | source/utils/binary.h:90-99 | the number of set bits |
| Transformer.GetMaskFromBin | generator/Binary/Utils.pm:26-37 | the mask has a bit exactly where the literal has 0 or 1 |
| Transformer.BuildChain | generator/CExpression/Transformer.pm:147-175 | the two loops over the arguments build the chain in which each is shifted by the sizes to its right |
| TransformerMeaning.MeaningIsKept | generator/CExpression/Transformer.pm:16-175 | on every opcode with the fixed bits, the rewritten expression, run without any field names, has the value of the pseudo-expression |
| TransformerMeaning.OutputIsPlainC | generator/CExpression/Transformer.pm:16-175 | no field name, slice, `IsOnes` or literal with x is left, and every number fits 32 bits |
| TransformerMeaning.FieldRead | generator/CExpression/Transformer.pm:16-32 | mask and shift of the opcode, or the constant of a fixed field, is the field's value |
| TransformerMeaning.FoldMeaning | generator/CExpression/Transformer.pm:48-105 | constant folding and the masked comparison keep the value for all operands |
| TransformerMeaning.MaskedMeaning | generator/CExpression/Transformer.pm:73-78 | comparing under the mask agrees with comparing the bits that are not x |
| TransformerMeaning.IsOnesMeaning | generator/CExpression/Transformer.pm:107-113 | for a sized operand the comparison with the mask is true exactly when all its bits are ones |
| TransformerMeaning.IsOnesOfOperator | generator/CExpression/Utils.pm:66-70 | `IsOnes` of an operator that is not folded asks for 32 ones |
| TransformerNumbers.OperatorNumbers | generator/CExpression/Transformer.pm:34-105 | the operators of the conditions compute on numbers what C says for 32-bit unsigned operands |
| TransformerNumbers.FieldNumber | generator/CExpression/Transformer.pm:16-32 | the value of a field is the opcode divided and reduced by powers of two |
| TransformerNumbers.LiteralNumber | generator/CExpression/Transformer.pm:39-45 | a binary literal stands for the number of its digits |
| TransformerMeaning.JoinedMeaning | generator/CExpression/Transformer.pm:147-175 | the chain of shifts and ors is the concatenation of the operands |
| TransformerMeaning.VisitChainSlice | generator/CExpression/Visitor.pm:172-219 | visiting the built chain once more only folds its numbers |
| TransformerMeaning.SliceKeepsWidth | generator/CExpression/Utils.pm:49-53 | a slice's node has the slice's width exactly when the slice is not a constant with a leading 0 |
| TransformerMeaning.IsOnesOfSlice | generator/CExpression/Transformer.pm:107-113 | `IsOnes` of a slice is right exactly when the slice is not a constant 0..01..1 |
| TransformerMeaning.NestedSlice | generator/CExpression/Transformer.pm:147-158 | a slice whose operands may be slices themselves is right exactly when every operand that stands left of one that lost its width is zero |
| TransformerMeaning.LeadingZeroLost | generator/CExpression/Transformer.pm:107-113 | the smallest input on which `IsOnes` is wrong |
| TransformerMeaning.NumbersFoldExactly | generator/CExpression/Transformer.pm:48-105 | folding a number of any size with a number of 32 bits is right exactly when the lost bits neither decide a comparison nor come down in a right shift |
| TransformerMeaning.ShiftedComparison | generator/CExpression/Transformer.pm:48-105 | a constant shifted left and compared with a constant is right exactly when the shifted word fits 32 bits or its low 32 bits differ from the other constant |
| TransformerMeaning.OverflowLost | generator/CExpression/Transformer.pm:48-105 | `(0x80000000 << 1) == 0` comes out false |
| BitmaskImmediate.DecodeLogimm | source/aarch64/decoder.c:240-332 | the loops compute the closed formula: bit i is `((i mod e) + r) mod e <= s` within whole elements, or failure without an element size; with a data size of whole elements, or the 64 or 32 bits N stands for, the low bits are those of DecodeBitMasks, ones for a run that fills the element, and zeros above |
| BitmaskImmediate.DefaultImmediate | source/aarch64/decoder.c:249-254 | without a data size N selects 64 or 32 bits |
| BitmaskImmediate.FillLanes | source/aarch64/decoder.c:280-326 | every lane holds the element and nothing else is set |
| BitmaskImmediate.RotatedRun | source/utils/binary.h:20-38 | the shifted, rotated and masked run is one element of the closed formula |
| BitmaskImmediate.PatternIsRepeated | source/aarch64/decoder.c:240-332 | the closed formula is the rotated run repeated through the data size, as the architecture builds it |
| BitmaskImmediate.ConformsExceptAllOnes | source/aarch64/decoder.c:240-332 | the decoder agrees with DecodeBitMasks of Arm DDI 0487, chapter J1, exactly when the run does not fill the element |
| BitmaskImmediate.PatternInjective | source/aarch64/decoder.c:243-248 | distinct canonical triples (e, s, r) give distinct 64-bit patterns |
| BitmaskImmediate.InversePattern | source/aarch64/decoder.c:243-248 | the inverse of a pattern is again a pattern, of the complementary run |
| BitmaskImmediate.PatternCount | source/aarch64/decoder.c:243-248 | the canonical triples have 5334 patterns |
| BitmaskImmediate.EncodedFields | source/aarch64/decoder.c:250-275 | every element size, run and rotation comes back from the field built for it |
| BitmaskImmediate.PatternsAreImmediates | source/aarch64/decoder.c:240-332 | these patterns are exactly the 64-bit immediates that some field with a run short of its element decodes to |
| X86Decoder.DecodeInsn | source/x86/decoder.c:2004-2017 | for every input and every table: success and length are those of `DecodeEnd`, the cursor wraps round exactly when `Wraps` says, otherwise the length is what the spans cover and at most one past the input; a vector instruction after a forbidden prefix is undefined |
| X86Length.FullLength | source/x86/decoder.c:1747-2002 | a complete instruction has the length of prefixes and escape, opcode, ModRM with its tail, the operands' own bytes and at most one shared byte |
| X86Length.NodesMeaning | source/x86/decoder.c:1606-1621 | accepted operands read their own bytes, in any order the same number, and the shared byte at most once |
| X86Length.TailEndMeaning | source/x86/decoder.c:719-805 | the tail of a ModRM byte is read exactly when all its bytes are there |
| X86Length.WrapsToStart | source/x86/decoder.c:1979-2002 | after a wrap decoding succeeds and the operands are read from the first byte on |
| X86Length.WrapWitness | source/x86/decoder.c:752-771 | an input of 255 bytes on which decoding succeeds with length 0 |
| X86Decoder.Decoder.DecodeEntry | source/x86/decoder.c:1747-2002 | the invariant of cursor and spans, success and cursor as functions of input and table, and the entry that is looked up under the key of the input; `vfpc`, segment and last F2/F3 are those of the run of prefixes |
| X86Decoder.Decoder.Conservation | source/x86/decoder.c:253-282 | recorded lengths add up to the cursor when no span was dropped, and fall short by exactly the dropped ones otherwise; a wrapped cursor is short by 256 |
| X86Decoder.Decoder.AddBytecode | source/x86/decoder.c:253-282 | the array holds the first 15 spans, each with the buffer and length of its call |
| X86Decoder.Decoder.TakeModrm | source/x86/decoder.c:752-771 | the ModRM byte is passed over without a check, past the end as 0 and past 255 bytes with a wrap |
| X86Decoder.Decoder.ScanPrefixes | source/x86/decoder.c:1782-1899 | the loop ends on every input, having taken the whole run of prefixes and what follows it |
| X86Decoder.Decoder.ScanOne | source/x86/decoder.c:1782-1899 | one turn goes on exactly when the byte is a prefix in this mode |
| X86Decoder.Decoder.DecodeRex | source/x86/decoder.c:406-424 | all or nothing; accepted exactly in 64-bit mode |
| X86Decoder.Decoder.DecodeVex2 | source/x86/decoder.c:426-449 | all or nothing |
| X86Decoder.Decoder.DecodeVex3 | source/x86/decoder.c:451-476 | all or nothing |
| X86Decoder.Decoder.DecodeXop | source/x86/decoder.c:478-515 | all or nothing |
| X86Decoder.Decoder.DecodeMevex | source/x86/decoder.c:517-607 | all or nothing, EVEX or MVEX by the reserved bits and the mode |
| X86Decoder.Decoder.DecodeMap | source/x86/decoder.c:1688-1724 | the map is chosen by the byte after 0F and exactly its bytes are passed over |
| X86Meaning.EscapeDispatches | source/x86/decoder.c:1688-1724 | prefixes followed by the escape bytes of a map dispatch behind them at that map, whatever follows |
| X86Meaning.EscapeIsOfMap | source/x86/decoder.c:1688-1724 | the bytes passed over after the prefixes are the escape bytes of the map reached |
| X86Meaning.EscapeIndex | source/x86/decoder.c:21-28 | the table index is the opcode plus 0, 256, 768 or 1024 by escape |
| X86Meaning.IndexInjective | source/x86/decoder.c:21-28 | the index says which map and which opcode |
| X86Meaning.NumberIndex | source/x86/decoder.c:21-28 | where the tables of the numbered maps start |
| X86Meaning.VectorMaps | source/x86/decoder.c:451-607 | after any prefixes, VEX3, XOP, EVEX and MVEX prefixes dispatch behind them at the map with their number |
| X86Meaning.Vex2Reaches | source/x86/decoder.c:426-449 | a two-byte VEX prefix dispatches behind it at map 1 |
| X86Decoder.Decoder.DecodeModrm | source/x86/decoder.c:752-805 | it fails exactly when a byte of the tail is missing, and stops where `ModrmEnd` says on success and on failure, wrapped or not |
| X86Length.TailLengthConforms | source/x86/decoder.c:719-805 | the tail has the length of Intel SDM volume 2, tables 2-2 and 2-3, except exactly for SIB base 5 with mod 1 or 2, where it is 1 or 4 bytes longer |
| X86Decoder.Decoder.DecodeSib | source/x86/decoder.c:719-750 | it fails exactly when a byte is missing, and on success the cursor moved over the SIB byte and its displacement |
| X86Decoder.Decoder.DecodeDisp | source/x86/decoder.c:670-717 | all or nothing, by whether the bytes are there |
| X86Decoder.Decoder.GetIs4Value | source/x86/decoder.c:807-821 | the shared byte is read once; a missing one reads as 0 |
| X86Decoder.Decoder.DecodeNode | source/x86/decoder.c:1536-1604 | an operand is accepted and moves the cursor as `NodeEnd` says by its kind and the sizes; `DecodeNodes` adds them up in order |
| X86Decoder.Decoder.DecodeMoffs | source/x86/decoder.c:1437-1497 | the offset has the width of the address size |
| X86Meaning.MoffsBytes | source/x86/decoder.c:1437-1497 | a memory offset reads 2, 4 or 8 bytes by mode and 67, in every encoding |
| X86Meaning.OperandBytes | source/x86/decoder.c:1499-1534 | a far pointer and an immediate of the operand size read the bytes of that size, by mode, 66, W and template; there is no far pointer of 64 bits |
| X86Meaning.OperandSizeAtDispatch | source/x86/decoder.c:1736-1951 | with one REX at most the operand size is 64 bits with W, 16 with 66 or in 16-bit mode, else 32 |
| X86Meaning.AddressSize | source/x86/decoder.c:1763-1780 | the address size is that of the mode, halved by a 67 |
| X86Meaning.WidenedBits | source/x86/decoder.c:1972-1985 | what a template makes of the operand size in 64-bit mode |
| X86Meaning.ModrmNumber | source/x86/decoder.c:1726-1734 | mod, reg and rm are the octal digits of the byte |
| X86Meaning.ScaleNumber | source/x86/decoder.c:719-727 | the scale is two to the number in the two highest bits |
| X86Decoder.Decoder.DecodePtr | source/x86/decoder.c:1499-1534 | it succeeds exactly when segment and offset are there and the operand size has an offset; on failure the segment alone stays consumed when it is there, and nothing when it is not |
| X86Decoder.Decoder.Normalise | source/x86/decoder.c:1923-1959 | W wins over 66 for legacy encodings, vector encodings are looked up by vector length, one after a forbidden prefix is undefined, and the hash code is that function of state and opcode |
| X86Decoder.Decoder.LookUp | source/x86/decoder.c:1961-1985 | the entry is the one under the key of state, ModRM byte and opcode, and an unknown one is undefined |
| X86Meaning.KeyMeaning | source/x86/decoder.c:1913-1961 | index, opcode and the octal digits of the ModRM byte are those of the next two bytes, and sizes enter by their bits |
| X86Meaning.KeyOf3DNow | source/x86/decoder.c:1902-1921 | for 3DNow! the ModRM byte comes first and the opcode after its tail |
| X86PrefixOrder.RunIsSummary | source/x86/decoder.c:1782-1899 | the state after a run of prefixes is given by the bytes it holds, their number and the last of each kind |
| X86Meaning.RunMeaning | source/x86/decoder.c:1736-1899 | after a run: address and operand size in bits by mode and by the last 66 or REX.W, flags, R, X, B and W of the last REX, the register of the last segment prefix, the last F2 or F3, the number of forbidden bytes |
| X86Meaning.SegmentCodes | source/x86/decoder.c:1817-1849 | every segment register has its own override byte |
| X86Meaning.PrefixCodes | source/x86/decoder.c:1782-1899 | which bytes are prefixes in a mode |
| X86PrefixOrder.OrderOnlyPicksTheLast | source/x86/decoder.c:1736-1951 | two orders of the same prefixes with at most one REX reach the same state exactly when last segment and last F2/F3 agree |
| X86PrefixOrder.OrderWithManyRex | source/x86/decoder.c:1736-1951 | with any number of REX bytes, exactly when also the last REX and the operand size agree |
| X86PrefixOrder.TwoRexBytes | source/x86/decoder.c:1736-1951 | two orders that end in the same REX and differ in operand size |
| X86PrefixOrder.DispatchCounts | source/x86/decoder.c:1851-1959 | at dispatch `vfpc` is the number of REX, 66, F0, F2 and F3 bytes before the opcode or vector prefix, and the encoding is a vector one exactly when a vector prefix was accepted |
| X86VectorEncoding.Vex2RoundTrip | source/x86/decoder.c:426-449 | fields put into a two-byte VEX prefix come back; outside 64-bit mode it is accepted exactly when R is clear |
| X86VectorEncoding.Vex3RoundTrip | source/x86/decoder.c:451-476 | fields put into a three-byte VEX prefix come back; it is accepted exactly for maps 1 to 3 and, outside 64-bit mode, with R, X and B clear |
| X86VectorEncoding.XopRoundTrip | source/x86/decoder.c:478-515 | the same for XOP and maps 8 to 10, where pp is not looked at |
| X86VectorEncoding.EvexRoundTrip | source/x86/decoder.c:517-607 | the same for EVEX, which is told from MVEX by its reserved bits |
| X86VectorEncoding.MvexRoundTrip | source/x86/decoder.c:517-607 | the same for MVEX, accepted exactly in 64-bit mode for maps 0 to 3 |
| X86PrefixOrder.VectorKeeps | source/x86/decoder.c:426-607 | no vector prefix touches `vfpc`, the segment or the last F2/F3 |
| RegisterLists.DecodeGlist | source/aarch32/decoder.c:796-822 | the loop writes the list of the mask, leaves the rest of the array, and reports a branch exactly when a written list holds the program counter |
| RegisterLists.ListIsTheMask | source/aarch32/decoder.c:796-822 | the list holds exactly the set bits, strictly increasing, as many as the bit count of the mask |
| RegisterLists.DecodeVlist | source/aarch64/decoder.c:1154-1199 | consecutive registers, wrapping after 31 |
| RegisterLists.BitfieldRoundTrip | source/aarch64/decoder.c:712-770 | every legal position and width of a bit-field alias comes back from the raw fields of the instruction it stands for |
| RegisterLists.AliasMoves | source/aarch64/decoder.c:712-770 | the raw fields of an alias, executed as UBFM, insert or extract the named bits |
| SysOps.Generate | source/aarch64/sysop.pl:14-78 | the printed four-level switch, over op1, CRn, CRm and op2 from the outside in, answers every four keys with the type of the first row that has them, else Sys_SYS |
| SysOps.FirstTypeMeaning | source/aarch64/sysop.pl:17-28 | the first row with the keys answers, and Sys_SYS exactly without one |
| SysOps.ReadTable | source/aarch64/sysop.pl:17-28 | the loop builds the nested table |
| SysOps.TableFinds | source/aarch64/sysop.pl:17-28 | the nested table holds under four keys exactly the rows with those keys, in order |
| SysOps.PrintCase | source/aarch64/sysop.pl:37-69 | the switch of a level returns for the first row found and otherwise ends; labels increase |

## Left out

- ReadsConcatenation: needs a total size below 32, as the C shift `result <<= size` does.
- DecodeBitMasks: is stated for data sizes made of whole elements; for N = 1 at 32 bits the instruction is unallocated.
- MeaningIsKept: shifts by 32 or more, which C leaves undefined, and division by zero are given one value on both sides.
- ParseEncodedin: slices with the lower bit above the upper one, for which the source makes an empty mask with a size of 0 or less, and slices that reach past bit 31, for which it makes a mask of more than 32 bits.
- Add: lists with an element that is empty or holds ", " outside braces; the generator makes none.
- A constraint with a zero mask, a pattern of only x: `divide_cnsts` replaces the compared value by that of each such node in turn (generator/DecisionTree.pm:229-233), where the model keeps the first.
- DecodeEntry: which tables the lookup consults is a parameter; the claims hold for every lookup function. Whether an operand that reads nothing is accepted is part of what is looked up, so it may depend on prefixes, opcode and ModRM byte.
- X86 operands other than bytes consumed: register and memory operand contents, broadcast, rounding, `disp8*N`, displacement values, `is_ugly` from shift counts, `is_undefined` from vector memory operands and prefix functionality.
- The feature bits that start the x86 hash code, and the C struct's uninitialised fields, which the model starts at 0.
- The 100000-call guard of the generator: a depth bound on nested calls stands for it, and giving up is `None`.
- The hash of `%$tree`, comments, conflict marks and the text of the printed code; the emitted code is a tree with a meaning.
- The cases of a switch are built in numeric order of their keys, where the source sorts the keys as text; no claim depends on it.
- Perl's sentinel list heads are a pair of head and tail; Perl's `sort` is stable.
- The walk of alias expressions is on values: the source overwrites the nodes' hashes in place, and no node is shared in a parsed expression.
- Parsing of field expressions, constraints, alias conditions and tables from text; expressions start as terms or syntax trees, and a slice has at least two operands.
- `visit_part`, the call `part`, floats and strings in alias conditions.
- The `comment` field of interned items.
- The Thumb IT block, VFP and AdvSIMD immediate tables, MOV-immediate preferences, printers, string tables and generated data.
