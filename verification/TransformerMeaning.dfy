/** The rewriting of `Transformer` keeps the meaning of every well-formed expression. */
module TransformerMeaning {
  import opened Bits
  import opened Transformer

  // ----- numbers -----

  lemma {:induction false} NatLow(w: Bits, n: nat)
    requires n <= |w| && forall i :: n <= i < |w| ==> !w[i]
    ensures Nat(w[..n]) == Nat(w)
  {
    if n == 0 {
      NatOfZeros(w);
    } else {
      assert w[..n][1..] == w[1..][..n - 1];
      NatLow(w[1..], n - 1);
    }
  }

  lemma {:induction false} ToBitsSmall(n: nat, width: nat, k: nat)
    requires n < Pow2(k)
    ensures forall i :: k <= i < width ==> !ToBits(n, width)[i]
  {
    if width > 0 {
      if k > 0 {
        ToBitsSmall(n / 2, width - 1, k - 1);
      } else {
        ToBitsSmall(0, width - 1, 0);
      }
    }
  }

  lemma {:induction false} BelowPow2(n: nat, k: nat)
    requires n <= k
    ensures n < Pow2(k)
  {
    if k > 0 {
      BelowPow2(if n == 0 then 0 else n - 1, k - 1);
    }
  }

  /** Shift amounts and sizes survive as numbers. */
  lemma NumberIs(n: nat)
    requires n <= 32
    ensures Fits(ToBits(n, 64)) && Nat(ToBits(n, 64)) == n && Nat(Low32(ToBits(n, 64))) == n
  {
    hide ToBits, Nat, Pow2;
    BelowPow2(n, 32);
    BelowPow2(n, 64);
    ToBitsSmall(n, 64, 32);
    NatOfToBits(n, 64);
    NatLow(ToBits(n, 64), 32);
  }

  // ----- folding -----

  predicate DecFits(e: Expr) {
    e.Dec? ==> Fits(e.value)
  }

  lemma LowInjective(v: Word, w: Word)
    requires Fits(v) && Fits(w) && Low32(v) == Low32(w)
    ensures v == w
  {
    forall i | 0 <= i < 64
      ensures v[i] == w[i]
    {
      if i < 32 {
        assert Low32(v)[i] == Low32(w)[i];
      }
    }
  }

  lemma TruthInjective(a: bool, b: bool)
    ensures Truth(a) == Truth(b) <==> a == b
    ensures IsZero(Truth(a)) <==> !a
  {
    assert Truth(a)[0] == a && Truth(b)[0] == b;
  }

  lemma MaskedMeaning(x: Reg, digits: string)
    requires |digits| <= 32
    ensures AgreesWith(x, digits) <==> And(x, Low32(BinMask(digits))) == Low32(BinValue(digits))
  {
    var m, v := Low32(BinMask(digits)), Low32(BinValue(digits));
    if And(x, m) == v {
      forall i | 0 <= i < |digits| && i < 32
        ensures (digits[|digits| - 1 - i] == '1' ==> x[i]) && (digits[|digits| - 1 - i] == '0' ==> !x[i])
      {
        assert And(x, m)[i] == v[i];
      }
    }
  }

  lemma MaskedKeeps(e: Expr, fields: Fields, env: Env)
    requires e.Op? && FieldsOk(fields) && (e.op == Equal || e.op == NotEqual)
    requires e.right.Bin? && |e.right.digits| <= 32 && HasX(e.right.digits)
    ensures Eval(Masked(e), fields, env) == Eval(e, fields, env)
  {
    var digits, x := e.right.digits, Eval(e.left, fields, env);
    MaskedMeaning(x, digits);
    var mask, value := MakeDec(BinMask(digits), 0), MakeDec(BinValue(digits), 0);
    assert Eval(mask, fields, env) == Low32(BinMask(digits));
    assert Eval(value, fields, env) == Low32(BinValue(digits));
    var left := MakeOp(e.left, BitAnd, mask, 0);
    assert Eval(left, fields, env) == And(x, Low32(BinMask(digits)));
  }

  /** Folding an operator keeps its meaning, whatever its operands are. */
  lemma FoldMeaning(e: Expr, fields: Fields, env: Env)
    requires e.Op? && DecFits(e.left) && DecFits(e.right) && FieldsOk(fields)
    requires e.right.Bin? ==> |e.right.digits| <= 32 && HasX(e.right.digits)
    ensures Eval(Fold(e), fields, env) == Eval(e, fields, env)
  {
    hide Arithmetic, Nat;
    var l, r := e.left, e.right;
    if l.Dec? && r.Dec? {
      FoldNumbers(e, fields, env);
    } else if r.Bin? && (e.op == Equal || e.op == NotEqual) {
      MaskedKeeps(e, fields, env);
    } else if l.Bool? && r.Bool? {
      TruthInjective(l.truth, r.truth);
      TruthInjective(r.truth, l.truth);
    }
  }

  lemma FoldNumbers(e: Expr, fields: Fields, env: Env)
    requires e.Op? && e.left.Dec? && e.right.Dec? && DecFits(e.left) && DecFits(e.right) && FieldsOk(fields)
    ensures Eval(Fold(e), fields, env) == Eval(e, fields, env)
  {
    hide Arithmetic, Nat, Low32, And, Or, Xor, Shl, Shr, Truth, Fits;
    var v, w := e.left.value, e.right.value;
    assert e.right.Dec?;
    LowOperators(v, w);
    if Low32(v) == Low32(w) {
      LowInjective(v, w);
    }
  }

  /** C's operators on the low halves of two numbers. */
  lemma LowOperators(v: Word, w: Word)
    requires Fits(w)
    ensures Nat(Low32(w)) == Nat(w)
    ensures Low32(And(v, w)) == And(Low32(v), Low32(w))
    ensures Low32(Or(v, w)) == Or(Low32(v), Low32(w))
    ensures Low32(Xor(v, w)) == Xor(Low32(v), Low32(w))
    ensures Low32(Shl(v, Nat(w))) == Shl(Low32(v), Nat(w))
    ensures Fits(v) ==> Low32(Shr(v, Nat(w))) == Shr(Low32(v), Nat(w))
  {
    hide Nat;
    NatLow(w, 32);
  }

  // ----- visited operands -----

  predicate IsNumber(e: Expr) {
    e.Dec? && Fits(e.value)
  }

  /** What visiting leaves of an operand of a slice; visiting it again changes nothing. */
  predicate Settled(r: Expr) {
    match r
    case Dec(value, _) => Fits(value)
    case Op(op, l, x, _) =>
      (op == ShiftRight && l.Op? && l.op == BitAnd && l.left == OPCODE && IsNumber(l.right) && IsNumber(x))
      || (op == ShiftLeft && Settled(l) && !l.Dec? && IsNumber(x))
      || (op == BitOr && Settled(l) && Settled(x) && !(l.Dec? && x.Dec?))
    case _ => false
  }

  predicate OperandsSettled(os: Operands) {
    Settled(os.expr) && (os.More? ==> OperandsSettled(os.others))
  }

  lemma {:induction false} SettledStays(r: Expr, fields: Fields)
    requires Settled(r)
    ensures Visit(r, fields) == r
  {
    if r.Op? {
      if r.op == ShiftRight {
        assert Visit(OPCODE, fields) == OPCODE;
        assert Visit(r.left, fields) == r.left;
        assert Visit(r.right, fields) == r.right;
      } else {
        SettledStays(r.left, fields);
        if r.op == BitOr {
          SettledStays(r.right, fields);
        }
      }
    }
  }

  function Shifted(e: Expr, n: nat): Expr {
    Fold(MakeOp(e, ShiftLeft, MakeNumber(n), 0))
  }

  /** The chain over settled operands after its own visit. */
  function Joined(os: Operands): Expr {
    match os
    case Last(e) => Shifted(e, 0)
    case More(e, others) => Fold(Op(BitOr, Shifted(e, ChainSize(others)), Joined(others), 32))
  }

  function JoinedSlice(first: Expr, rest: Operands): Expr {
    Fold(Op(BitOr, Shifted(first, ChainSize(rest)), Joined(rest), ChainSize(rest) + Size(first)))
  }

  lemma VisitShift(e: Expr, n: nat, fields: Fields)
    requires Settled(e)
    ensures Visit(MakeOp(e, ShiftLeft, MakeNumber(n), 0), fields) == Shifted(e, n)
  {
    hide Fold, ToBits, Settled;
    SettledStays(e, fields);
    assert Visit(MakeNumber(n), fields) == MakeNumber(n);
  }

  lemma {:induction false} VisitChain(os: Operands, fields: Fields)
    requires OperandsSettled(os)
    ensures Visit(Chain(os), fields) == Joined(os)
  {
    hide MakeOp, MakeNumber, Fold, Settled;
    match os
    case Last(e) => VisitShift(e, 0, fields);
    case More(e, others) =>
      VisitShift(e, ChainSize(others), fields);
      VisitChain(others, fields);
  }

  lemma VisitChainSlice(first: Expr, rest: Operands, fields: Fields)
    requires Settled(first) && OperandsSettled(rest)
    ensures Visit(ChainSlice(first, rest), fields) == JoinedSlice(first, rest)
  {
    hide MakeOp, MakeNumber, Fold, Settled, Visit;
    VisitShift(first, ChainSize(rest), fields);
    VisitChain(rest, fields);
    VisitOp(ChainSlice(first, rest), fields);
  }

  lemma VisitOp(e: Expr, fields: Fields)
    requires e.Op?
    ensures Visit(e, fields) == Fold(e.(left := Visit(e.left, fields), right := Visit(e.right, fields)))
  {
  }

  // ----- sizes -----

  /** A number's node is at least as wide as its value. */
  predicate Packed(e: Expr) {
    e.Dec? ==> 0 < e.size && forall i :: e.size <= i < 64 ==> !e.value[i]
  }

  predicate OperandsPacked(os: Operands) {
    Packed(os.expr) && Size(os.expr) > 0 && (os.More? ==> OperandsPacked(os.others))
  }

  predicate AllNumbers(os: Operands) {
    os.expr.Dec? && (os.More? ==> AllNumbers(os.others))
  }

  lemma {:induction false} DigitsTop(x: Bits)
    ensures IsZero(x) ==> Digits(x) == 1
    ensures !IsZero(x) ==> Digits(x) <= |x| && x[Digits(x) - 1] && IsZero(x[Digits(x)..])
  {
    if x != [] && !IsZero(x) && !x[|x| - 1] {
      var y := x[..|x| - 1];
      DigitsTop(y);
      assert x == y + [false];
      if IsZero(y) {
        assert false;
      }
      forall i | Digits(y) <= i < |x|
        ensures !x[i]
      {
        if i < |y| {
          assert !y[Digits(y)..][i - Digits(y)];
        }
      }
    }
  }

  /** A number is `w` digits long when it has bit `w - 1` and none above. */
  lemma DigitsAre(v: Word, w: nat)
    requires 2 <= w <= 64 && forall i :: w <= i < 64 ==> !v[i]
    ensures Digits(v) == w <==> v[w - 1]
  {
    DigitsTop(v);
    DigitsAbove(v);
  }

  lemma DigitsAbove(v: Word)
    ensures forall i :: Digits(v) <= i < 64 ==> !v[i]
  {
    DigitsTop(v);
    if !IsZero(v) {
      forall i | Digits(v) <= i < 64
        ensures !v[i]
      {
        assert !v[Digits(v)..][i - Digits(v)];
      }
    }
  }

  lemma ShiftedShape(e: Expr, n: nat)
    requires Settled(e) && Packed(e) && Size(e) + n <= 32
    ensures Settled(Shifted(e, n))
    ensures Shifted(e, n).Dec? <==> e.Dec?
    ensures e.Dec? ==> Shifted(e, n).value == Shl(e.value, n)
    ensures e.Dec? ==> forall i :: Size(e) + n <= i < 64 ==> !Shifted(e, n).value[i]
  {
    hide ToBits, Nat;
    NumberIs(n);
  }

  lemma {:induction false} JoinedShape(os: Operands)
    requires OperandsSettled(os) && OperandsPacked(os) && ChainSize(os) <= 32
    ensures Settled(Joined(os))
    ensures Joined(os).Dec? <==> AllNumbers(os)
    ensures Joined(os).Dec? ==> forall i :: ChainSize(os) <= i < 64 ==> !Joined(os).value[i]
  {
    hide Shifted;
    match os
    case Last(e) => ShiftedShape(e, 0);
    case More(e, others) =>
      JoinedShape(others);
      ShiftedShape(e, ChainSize(others));
  }

  lemma OrShape(l: Expr, r: Expr, n: nat)
    requires Settled(l) && Settled(r)
    ensures var e := Fold(Op(BitOr, l, r, n));
      Settled(e) && (e.Dec? <==> l.Dec? && r.Dec?)
      && (if e.Dec? then e.value == Or(l.value, r.value) && e.size == Digits(e.value) else Size(e) == n)
  {
    hide Digits;
  }

  lemma JoinedSliceShape(first: Expr, rest: Operands)
    requires Settled(first) && Packed(first) && Size(first) > 0
    requires OperandsSettled(rest) && OperandsPacked(rest) && ChainSize(rest) + Size(first) <= 32
    ensures Settled(JoinedSlice(first, rest))
    ensures JoinedSlice(first, rest).Dec? <==> first.Dec? && AllNumbers(rest)
    ensures !JoinedSlice(first, rest).Dec? ==> Size(JoinedSlice(first, rest)) == ChainSize(rest) + Size(first)
    ensures Packed(JoinedSlice(first, rest))
    ensures JoinedSlice(first, rest).Dec? ==> NumberShape(JoinedSlice(first, rest), first, ChainSize(rest) + Size(first))
  {
    hide Shifted, Joined, Settled, Fold;
    JoinedShape(rest);
    ShiftedShape(first, ChainSize(rest));
    RestHasSize(rest);
    OrShape(Shifted(first, ChainSize(rest)), Joined(rest), ChainSize(rest) + Size(first));
    var r := JoinedSlice(first, rest);
    if r.Dec? {
      DigitsAre(r.value, ChainSize(rest) + Size(first));
      DigitsTop(r.value);
      DigitsAbove(r.value);
    }
  }

  lemma RestHasSize(os: Operands)
    requires OperandsPacked(os)
    ensures ChainSize(os) > 0
  {
  }

  /** The number a constant slice becomes, `total` bits wide with `first` on top. */
  predicate NumberShape(r: Expr, first: Expr, total: nat)
    requires r.Dec? && first.Dec?
  {
    && 0 < first.size <= total <= 64
    && r.size == Digits(r.value)
    && 0 < r.size <= total
    && (forall i :: total <= i < 64 ==> !r.value[i])
    && (r.size == total <==> r.value[total - 1])
    && r.value[total - 1] == first.value[first.size - 1]
  }

  /** What visiting makes of an operand: a node of the operand's width, a number just
      when the operand is constant, with the operand's first digit on top. */
  predicate OperandShape(e: Expr, r: Expr, fields: Fields) {
    && Settled(r) && Packed(r)
    && Size(r) == Width(e, fields) > 0
    && (r.Dec? <==> Constant(e, fields))
    && (r.Dec? ==> Size(r) <= 64 && (r.value[Size(r) - 1] <==> LeadsWithOne(e, fields)))
  }

  /** The same of a slice, which as a number keeps its width only with a leading 1. */
  predicate SliceShape(e: Expr, r: Expr, fields: Fields)
    requires e.Slice?
  {
    && Settled(r) && Packed(r)
    && 0 < Size(r) <= Width(e, fields)
    && (r.Dec? ==> r.size == Digits(r.value))
    && (r.Dec? <==> Constant(e, fields))
    && (!r.Dec? ==> Size(r) == Width(e, fields))
    && (r.Dec? ==> Width(e, fields) <= 64 && (Size(r) == Width(e, fields) <==> r.value[Width(e, fields) - 1]))
    && (r.Dec? ==> (r.value[Width(e, fields) - 1] <==> LeadsWithOne(e.first, fields)))
    && (r.Dec? ==> forall i :: Width(e, fields) <= i < 64 ==> !r.value[i])
  }

  lemma IdShape(e: Expr, fields: Fields)
    requires FieldsOk(fields) && e.Id? && !e.reserved && e.name in fields
    ensures OperandShape(e, Visit(e, fields), fields)
  {
    hide Digits, ToBits;
    var f := fields[e.name];
    NumberIs(f.pos);
    assert |f.value| == f.size > 0;
    assert HasX(f.value) || BinValue(f.value)[f.size - 1] == (f.value[0] == '1');
  }

  lemma BinShape(e: Expr, fields: Fields)
    requires e.Bin? && OperandOk(e, fields)
    ensures OperandShape(e, Visit(e, fields), fields)
  {
    hide Digits, ToBits;
  }

  lemma {:induction false} VisitedOperand(e: Expr, fields: Fields)
    requires FieldsOk(fields) && OperandOk(e, fields)
    ensures OperandShape(e, Visit(e, fields), fields)
    decreases e, 1
  {
    hide Settled, Packed, Digits;
    if e.Id? {
      IdShape(e, fields);
    } else if e.Bin? {
      BinShape(e, fields);
    } else {
      VisitedSlice(e, fields);
    }
  }

  lemma {:induction false} VisitedOperands(os: Operands, fields: Fields)
    requires FieldsOk(fields) && OperandsOk(os, fields)
    ensures OperandsSettled(VisitOperands(os, fields)) && OperandsPacked(VisitOperands(os, fields))
    ensures ChainSize(VisitOperands(os, fields)) == OperandsWidth(os, fields)
    ensures AllNumbers(VisitOperands(os, fields)) <==> OperandsConstant(os, fields)
    decreases os, 0
  {
    hide Settled, Packed, LeadsWithOne, Constant;
    VisitedOperand(os.expr, fields);
    if os.More? {
      VisitedOperands(os.others, fields);
    }
  }

  lemma {:induction false} VisitedSlice(e: Expr, fields: Fields)
    requires FieldsOk(fields) && WellFormed(e, fields) && e.Slice?
    ensures SliceShape(e, Visit(e, fields), fields)
    decreases e, 0
  {
    hide Settled, Packed, LeadsWithOne, JoinedSlice, ChainSlice;
    VisitedOperand(e.first, fields);
    VisitedOperands(e.rest, fields);
    var first, rest := Visit(e.first, fields), VisitOperands(e.rest, fields);
    VisitChainSlice(first, rest, fields);
    JoinedSliceShape(first, rest);
    assert Visit(e, fields) == JoinedSlice(first, rest);
  }

  // ----- meaning -----

  /** The target is C code: it knows no fields. */
  function Run(c: Expr, env: Env): Reg {
    Eval(c, map[], env)
  }

  lemma FieldRead(e: Expr, fields: Fields, env: Env)
    requires FieldsOk(fields) && Consistent(fields, env.opcode)
    requires e.Id? && !e.reserved && e.name in fields
    ensures Run(Visit(e, fields), env) == Eval(e, fields, env)
  {
    hide Digits, ToBits, Nat;
    var f := fields[e.name];
    if HasX(f.value) {
      var mask := Shl(Range(0, f.size), f.pos);
      NumberIs(f.pos);
      var c := Visit(e, fields);
      assert Run(c.left.left, env) == env.opcode;
      assert Run(c.left.right, env) == Low32(mask);
      assert Run(c.left, env) == And(env.opcode, Low32(mask));
      assert Run(c.right, env) == Low32(ToBits(f.pos, 64));
      assert Run(c, env) == Shr(And(env.opcode, Low32(mask)), f.pos);
      assert Shr(And(env.opcode, Low32(mask)), f.pos) == FieldValue(f, env.opcode);
    }
  }

  /** The value of an operand has no bit above its width. */
  lemma OperandSmall(e: Expr, fields: Fields, env: Env)
    requires FieldsOk(fields) && OperandOk(e, fields)
    ensures Width(e, fields) <= 32
    ensures forall i :: Width(e, fields) <= i < 32 ==> !Eval(e, fields, env)[i]
  {
    if e.Slice? {
      OperandsBitsLength(e.rest, fields, env);
    }
  }

  lemma {:induction false} OperandsBitsLength(os: Operands, fields: Fields, env: Env)
    requires FieldsOk(fields) && OperandsOk(os, fields) && OperandsWidth(os, fields) <= 32
    ensures |OperandsBits(os, fields, env)| == OperandsWidth(os, fields)
  {
    hide Eval, Sized;
    if os.More? {
      OperandsBitsLength(os.others, fields, env);
    }
  }

  lemma ShiftedMeaning(e: Expr, n: nat, env: Env)
    requires DecFits(e) && n <= 32
    ensures Run(Shifted(e, n), env) == Shl(Run(e, env), n)
  {
    hide ToBits, Nat, Fold;
    NumberIs(n);
    var number := MakeNumber(n);
    assert Run(number, env) == Low32(ToBits(n, 64));
    FoldMeaning(MakeOp(e, ShiftLeft, number, 0), map[], env);
  }

  /** Putting an operand on top of the ones to its right. */
  lemma OnTop(x: Reg, w: nat, low: Bits)
    requires |low| + w <= 32 && forall i :: w <= i < 32 ==> !x[i]
    ensures Or(Shl(x, |low|), Extend(low)) == Extend(low + Take(x, w))
  {
  }

  /** The chain computes the concatenation of its operands. */
  lemma {:induction false} JoinedMeaning(os: Operands, fields: Fields, env: Env)
    requires FieldsOk(fields) && OperandsOk(os, fields) && OperandsWidth(os, fields) <= 32
    requires OperandsMean(os, fields, env)
    ensures Run(Joined(VisitOperands(os, fields)), env) == Extend(OperandsBits(os, fields, env))
  {
    hide Eval, Run, Fold, Shifted, Visit, OperandOk, Settled;
    VisitedOperands(os, fields);
    OperandsBitsLength(os, fields, env);
    OperandSmall(os.expr, fields, env);
    var e := Visit(os.expr, fields);
    SettledFits(e);
    match os
    case Last(_) =>
      ShiftedMeaning(e, 0, env);
      assert Shl(Run(e, env), 0) == Run(e, env);
    case More(_, others) =>
      JoinedMeaning(others, fields, env);
      VisitedOperands(others, fields);
      OperandsBitsLength(others, fields, env);
      ShiftedMeaning(e, OperandsWidth(others, fields), env);
      ShiftedShape(e, OperandsWidth(others, fields));
      SettledFits(Shifted(e, OperandsWidth(others, fields)));
      JoinedShape(VisitOperands(others, fields));
      SettledFits(Joined(VisitOperands(others, fields)));
      OrMeaning(Shifted(e, OperandsWidth(others, fields)), Joined(VisitOperands(others, fields)), 32, env);
      OnTop(Eval(os.expr, fields, env), Width(os.expr, fields), OperandsBits(others, fields, env));
  }

  lemma SettledFits(e: Expr)
    ensures Settled(e) ==> DecFits(e) && !e.Bin?
  {
  }

  lemma OrMeaning(l: Expr, r: Expr, size: nat, env: Env)
    requires DecFits(l) && DecFits(r) && !r.Bin?
    ensures Run(Fold(Op(BitOr, l, r, size)), env) == Or(Run(l, env), Run(r, env))
  {
    hide Fold;
    FoldMeaning(Op(BitOr, l, r, size), map[], env);
  }

  /** Every operand keeps its meaning. */
  predicate OperandsMean(os: Operands, fields: Fields, env: Env)
    requires FieldsOk(fields)
  {
    Run(Visit(os.expr, fields), env) == Eval(os.expr, fields, env)
    && (os.More? ==> OperandsMean(os.others, fields, env))
  }

  lemma JoinedSliceMeaning(e: Expr, fields: Fields, env: Env)
    requires FieldsOk(fields) && WellFormed(e, fields) && e.Slice?
    requires Run(Visit(e.first, fields), env) == Eval(e.first, fields, env)
    requires OperandsMean(e.rest, fields, env)
    ensures Run(Visit(e, fields), env) == Eval(e, fields, env)
  {
    hide Run, Fold, Shifted, Settled, Joined, ChainSlice, OperandsMean;
    var first, rest := Visit(e.first, fields), VisitOperands(e.rest, fields);
    var n, w := OperandsWidth(e.rest, fields), Width(e.first, fields);
    VisitedOperand(e.first, fields);
    VisitedOperands(e.rest, fields);
    VisitChainSlice(first, rest, fields);
    SliceParts(first, rest, n, w, env);
    OperandSmall(e.first, fields, env);
    OperandsBitsLength(e.rest, fields, env);
    JoinedMeaning(e.rest, fields, env);
    OnTop(Eval(e.first, fields, env), w, OperandsBits(e.rest, fields, env));
  }

  lemma SliceParts(first: Expr, rest: Operands, n: nat, w: nat, env: Env)
    requires Settled(first) && Packed(first) && OperandsSettled(rest) && OperandsPacked(rest)
    requires ChainSize(rest) == n && Size(first) == w && n + w <= 32
    ensures Run(JoinedSlice(first, rest), env) == Or(Shl(Run(first, env), n), Run(Joined(rest), env))
  {
    hide Run, Fold, Shifted, Settled, Packed, Joined;
    SettledFits(first);
    ShiftedShape(first, n);
    SettledFits(Shifted(first, n));
    JoinedShape(rest);
    SettledFits(Joined(rest));
    ShiftedMeaning(first, n, env);
    OrMeaning(Shifted(first, n), Joined(rest), n + w, env);
  }

  /** Visiting makes a number only of a constant, and the number fits. */
  lemma {:induction false} VisitedNumber(e: Expr, fields: Fields)
    requires FieldsOk(fields) && WellFormed(e, fields)
    ensures DecFits(Visit(e, fields)) && !Visit(e, fields).Bin?
    ensures Visit(e, fields).Dec? ==> Constant(e, fields)
  {
    hide Digits, Nat, ToBits, Sized;
    if e.Slice? {
      VisitedSlice(e, fields);
      SettledFits(Visit(e, fields));
    } else if e.Op? {
      VisitedNumber(e.left, fields);
      if WellFormed(e.right, fields) {
        VisitedNumber(e.right, fields);
      }
      FoldedNumber(e, Visit(e.left, fields), Visit(e.right, fields), fields);
    } else if e.Id? && !e.reserved && e.name in fields {
      IdShape(e, fields);
      SettledFits(Visit(e, fields));
    }
  }

  lemma FoldedNumber(e: Expr, l: Expr, r: Expr, fields: Fields)
    requires e.Op? && WellFormed(e, fields)
    requires l == Visit(e.left, fields) && r == Visit(e.right, fields)
    requires DecFits(l) && (l.Dec? ==> Constant(e.left, fields))
    requires DecFits(r) && (r.Dec? ==> Constant(e.right, fields))
    ensures DecFits(Fold(e.(left := l, right := r))) && !Fold(e.(left := l, right := r)).Bin?
    ensures Fold(e.(left := l, right := r)).Dec? ==> Constant(e, fields)
  {
    hide Digits, Nat, ToBits, HasX, Fold;
    FoldFits(e.(left := l, right := r));
  }

  lemma FoldFits(e: Expr)
    requires e.Op? && DecFits(e.left) && DecFits(e.right)
    requires e.op == ShiftLeft && e.left.Dec? && e.right.Dec? ==> Fits(Shl(e.left.value, Nat(e.right.value)))
    ensures DecFits(Fold(e)) && !Fold(e).Bin?
    ensures Fold(e).Dec? ==> Folds(e.op) && e.left.Dec? && e.right.Dec?
  {
    hide Digits, Nat, ToBits, HasX, MakeOp, BinMask, BinValue;
  }

  lemma OpMeaning(e: Expr, fields: Fields, env: Env)
    requires FieldsOk(fields) && WellFormed(e, fields) && e.Op?
    requires Run(Visit(e.left, fields), env) == Eval(e.left, fields, env)
    requires WellFormed(e.right, fields) ==> Run(Visit(e.right, fields), env) == Eval(e.right, fields, env)
    ensures Run(Visit(e, fields), env) == Eval(e, fields, env)
  {
    hide Fold, Apply, Constant, AgreesWith;
    VisitedNumber(e.left, fields);
    if WellFormed(e.right, fields) {
      VisitedNumber(e.right, fields);
    }
    var visited := e.(left := Visit(e.left, fields), right := Visit(e.right, fields));
    FoldMeaning(visited, map[], env);
    assert e.right.Bin? && HasX(e.right.digits) ==> visited.right == e.right;
  }

  lemma EqualMeaning(l: Expr, r: Expr, size: nat, env: Env)
    requires !r.Bin?
    ensures Run(MakeOp(l, Equal, r, size), env) == Truth(Run(l, env) == Run(r, env))
  {
  }

  lemma VisitIsOnes(e: Expr, fields: Fields)
    ensures var arg := Visit(e, fields);
      Visit(IsOnes(e), fields) == MakeOp(arg, Equal, MakeDec(Range(0, Size(arg)), 0), Size(arg))
  {
  }

  lemma EvalIsOnes(e: Expr, fields: Fields, env: Env)
    requires FieldsOk(fields)
    ensures Eval(IsOnes(e), fields, env) == Truth(AllOnes(Eval(e, fields, env), Width(e, fields)))
  {
  }

  lemma IsOnesMeaning(e: Expr, fields: Fields, env: Env)
    requires FieldsOk(fields) && OperandOk(e, fields)
    requires Run(Visit(e, fields), env) == Eval(e, fields, env)
    ensures Run(Visit(IsOnes(e), fields), env) == Eval(IsOnes(e), fields, env)
  {
    hide Constant, Digits, Settled, Packed, OperandOk, Range, AllOnes, LeadsWithOne, Width, FieldsOk, Truth;
    VisitedOperand(e, fields);
    OperandSmall(e, fields, env);
    var w, arg := Width(e, fields), Visit(e, fields);
    var mask := MakeDec(Range(0, w), 0);
    hide Visit;
    VisitIsOnes(e, fields);
    EqualMeaning(arg, mask, w, env);
    assert Run(mask, env) == Low32(Range(0, w));
    OnesMask(Eval(e, fields, env), w);
  }

  lemma OnesMask(x: Reg, w: nat)
    requires w <= 32 && forall i :: w <= i < 32 ==> !x[i]
    ensures x == Low32(Range(0, w)) <==> AllOnes(x, w)
  {
    if x == Low32(Range(0, w)) {
      forall i | 0 <= i < w
        ensures x[i]
      {
        assert x[i] == Low32(Range(0, w))[i];
      }
    }
  }

  /** The C expression means what the pseudo-expression means, on every opcode that has
      the bits the encoding fixes. */
  lemma {:induction false} MeaningIsKept(e: Expr, fields: Fields, env: Env)
    requires FieldsOk(fields) && Consistent(fields, env.opcode) && WellFormed(e, fields)
    ensures Run(Visit(e, fields), env) == Eval(e, fields, env)
    decreases e, 1
  {
    hide FieldsOk, Consistent, Fold, Digits, Sized, Constant, Settled, Nat, BinValue;
    match e
    case Dec(_, _) =>
    case Bool(_) =>
    case Bin(_) =>
    case Hex(_) =>
    case Id(name, reserved, _) =>
      if !reserved && name in fields {
        FieldRead(e, fields, env);
      }
    case Op(_, l, r, _) =>
      MeaningIsKept(l, fields, env);
      if WellFormed(r, fields) {
        MeaningIsKept(r, fields, env);
      }
      OpMeaning(e, fields, env);
    case Unary(_, x) => MeaningIsKept(x, fields, env);
    case Slice(first, rest) =>
      MeaningIsKept(first, fields, env);
      OperandsKeepMeaning(rest, fields, env);
      JoinedSliceMeaning(e, fields, env);
    case IsOnes(x) =>
      MeaningIsKept(x, fields, env);
      IsOnesMeaning(x, fields, env);
    case Call(_, args) => ArgumentsKeepMeaning(args, fields, env);
  }

  lemma {:induction false} OperandsKeepMeaning(os: Operands, fields: Fields, env: Env)
    requires FieldsOk(fields) && Consistent(fields, env.opcode) && OperandsOk(os, fields)
    ensures OperandsMean(os, fields, env)
    decreases os, 0
  {
    hide FieldsOk, Consistent, Sized, Visit, Eval, Run;
    MeaningIsKept(os.expr, fields, env);
    if os.More? {
      OperandsKeepMeaning(os.others, fields, env);
    }
  }

  lemma {:induction false} ArgumentsKeepMeaning(args: Arguments, fields: Fields, env: Env)
    requires FieldsOk(fields) && Consistent(fields, env.opcode) && ArgumentsOk(args, fields)
    ensures EvalArguments(VisitArguments(args, fields), map[], env) == EvalArguments(args, fields, env)
    decreases args, 0
  {
    hide Consistent, Visit, Eval;
    if args.Some? {
      MeaningIsKept(args.head, fields, env);
      assert Run(Visit(args.head, fields), env) == Eval(Visit(args.head, fields), map[], env);
      ArgumentsKeepMeaning(args.tail, fields, env);
    }
  }

  /** The result is C over `opcode` alone. */
  lemma {:induction false} OutputIsPlainC(e: Expr, fields: Fields)
    requires FieldsOk(fields) && WellFormed(e, fields)
    ensures PlainC(Visit(e, fields), fields)
    decreases e, 1
  {
    hide FieldsOk, Fold, Digits, Sized, Constant, Settled, ToBits, Range, BinValue, BinMask, Nat;
    match e
    case Dec(_, _) =>
    case Bool(_) =>
    case Bin(_) => VisitedNumber(e, fields);
    case Hex(_) =>
    case Id(name, reserved, _) =>
      if !reserved && name in fields {
        IdShape(e, fields);
        SettledIsPlain(Visit(e, fields), fields);
      }
    case Op(_, l, r, _) =>
      OutputIsPlainC(l, fields);
      if WellFormed(r, fields) {
        OutputIsPlainC(r, fields);
      }
      PlainFold(e, Visit(l, fields), Visit(r, fields), fields);
    case Unary(_, x) => OutputIsPlainC(x, fields);
    case Slice(_, _) => PlainSlice(e, fields);
    case IsOnes(x) =>
      OutputIsPlainC(x, fields);
      assert Fits(Range(0, Size(Visit(x, fields)))) by {
        VisitedOperand(x, fields);
        OperandWidth(x, fields);
        RangeFits(Width(x, fields));
      }
    case Call(_, args) => PlainArgumentsVisited(args, fields);
  }

  lemma RangeFits(n: nat)
    requires n <= 32
    ensures Fits(Range(0, n))
  {
  }

  lemma OperandWidth(e: Expr, fields: Fields)
    requires FieldsOk(fields) && OperandOk(e, fields)
    ensures Width(e, fields) <= 32
  {
  }

  /** Operands that are plain C, or a literal with x to the right of a comparison. */
  lemma PlainFold(e: Expr, l: Expr, r: Expr, fields: Fields)
    requires e.Op? && l == Visit(e.left, fields) && r == Visit(e.right, fields)
    requires FieldsOk(fields) && WellFormed(e, fields) && PlainC(l, fields)
    requires PlainC(r, fields) || (!WellFormed(e.right, fields) && e.right.Bin? && HasX(e.right.digits))
    ensures PlainC(Fold(e.(left := l, right := r)), fields)
  {
    hide Digits, ToBits, HasX, Nat, Fold;
    var c := e.(left := l, right := r);
    if l.Dec? && r.Dec? {
      VisitedNumber(e, fields);
      VisitOp(e, fields);
      FoldedNumbers(c);
      assert PlainC(c, fields);
    } else {
      assert r.Bin? ==> r.digits == e.right.digits;
      PlainUnfolded(c, fields);
    }
  }

  lemma FoldedNumbers(e: Expr)
    requires e.Op? && e.left.Dec? && e.right.Dec?
    ensures Fold(e).Dec? || Fold(e).Bool? || Fold(e) == e
  {
    hide Digits, Nat;
  }

  /** Without two numbers only a comparison is rewritten. */
  lemma PlainUnfolded(e: Expr, fields: Fields)
    requires e.Op? && !(e.left.Dec? && e.right.Dec?) && PlainC(e.left, fields)
    requires PlainC(e.right, fields) || (e.right.Bin? && |e.right.digits| <= 32 && (e.op == Equal || e.op == NotEqual))
    ensures PlainC(Fold(e), fields)
  {
    hide Digits, Nat;
    if e.right.Bin? {
      assert PlainC(MakeOp(e.left, BitAnd, MakeDec(BinMask(e.right.digits), 0), 0), fields);
    }
  }

  lemma {:induction false} PlainArgumentsVisited(args: Arguments, fields: Fields)
    requires FieldsOk(fields) && ArgumentsOk(args, fields)
    ensures PlainArguments(VisitArguments(args, fields), fields)
    decreases args, 0
  {
    hide FieldsOk, Visit, PlainC;
    if args.Some? {
      OutputIsPlainC(args.head, fields);
      PlainArgumentsVisited(args.tail, fields);
    }
  }

  lemma {:induction false} SettledIsPlain(r: Expr, fields: Fields)
    requires Settled(r)
    ensures PlainC(r, fields)
  {
    if r.Op? && r.op != ShiftRight {
      SettledIsPlain(r.left, fields);
      if r.op == BitOr {
        SettledIsPlain(r.right, fields);
      }
    }
  }

  lemma PlainSlice(e: Expr, fields: Fields)
    requires FieldsOk(fields) && WellFormed(e, fields) && e.Slice?
    ensures PlainC(Visit(e, fields), fields)
  {
    hide Visit, WellFormed, Constant, Packed, LeadsWithOne, Width;
    VisitedSlice(e, fields);
    SettledIsPlain(Visit(e, fields), fields);
  }

  // ----- where the meaning is lost: constant slices with a leading 0 -----

  /** A slice's node has the slice's width after visiting just when the slice is not a
      constant with a leading 0. */
  lemma SliceKeepsWidth(e: Expr, fields: Fields)
    requires FieldsOk(fields) && WellFormed(e, fields) && e.Slice?
    ensures Size(Visit(e, fields)) == Width(e, fields) <==> Sized(e, fields)
  {
    hide Visit, WellFormed, Settled, Packed, LeadsWithOne, Width;
    VisitedSlice(e, fields);
  }

  /** Zeros above a run of ones that reaches down to bit 0. */
  predicate ZerosThenOnes(x: Reg, width: nat) {
    exists k :: 1 <= k < width && k <= 32 && IsRun(x, k)
  }

  predicate IsRun(x: Reg, k: nat) {
    forall i :: 0 <= i < 32 ==> x[i] == (i < k)
  }

  /** `IsOnes` of any slice is right just when the slice is not a constant of the form
      0..01..1, which it takes for all ones. */
  lemma IsOnesOfSlice(e: Expr, fields: Fields, env: Env)
    requires FieldsOk(fields) && Consistent(fields, env.opcode) && WellFormed(e, fields) && e.Slice?
    ensures Run(Visit(IsOnes(e), fields), env) == Eval(IsOnes(e), fields, env)
      <==> !(Constant(e, fields) && ZerosThenOnes(Eval(e, fields, env), Width(e, fields)))
  {
    hide Constant, Visit, Eval, WellFormed, Consistent, LeadsWithOne, ZerosThenOnes, Width, Settled, Digits;
    MeaningIsKept(e, fields, env);
    VisitedSlice(e, fields);
    if Constant(e, fields) {
      ConstantOnes(e, fields, env);
    } else {
      assert Sized(e, fields);
      IsOnesMeaning(e, fields, env);
    }
  }

  lemma ConstantOnes(e: Expr, fields: Fields, env: Env)
    requires FieldsOk(fields) && WellFormed(e, fields) && e.Slice? && Constant(e, fields)
    requires Run(Visit(e, fields), env) == Eval(e, fields, env)
    ensures Run(Visit(IsOnes(e), fields), env) == Eval(IsOnes(e), fields, env)
      <==> !ZerosThenOnes(Eval(e, fields, env), Width(e, fields))
  {
    hide Constant, LeadsWithOne, ZerosThenOnes, Settled, Digits, AllOnes, Range, Packed, Sized, Visit, Eval, Run, Width, FieldsOk;
    var w, n := Width(e, fields), Visit(e, fields);
    VisitedSlice(e, fields);
    SliceWidth(e, fields);
    SettledFits(n);
    hide WellFormed, SliceShape;
    OnesOfNumber(e, n, fields, env);
    EvalIsOnes(e, fields, env);
    RunNumber(n, env);
    TruthInjective(Low32(n.value) == Low32(Range(0, n.size)), AllOnes(Low32(n.value), w));
    NumberOnes(n, w);
  }

  lemma SliceWidth(e: Expr, fields: Fields)
    requires WellFormed(e, fields) && e.Slice?
    ensures Width(e, fields) <= 32
  {
  }

  lemma RunNumber(n: Expr, env: Env)
    requires n.Dec?
    ensures Run(n, env) == Low32(n.value)
  {
  }

  lemma OnesOfNumber(e: Expr, n: Expr, fields: Fields, env: Env)
    requires n == Visit(e, fields) && n.Dec?
    ensures Run(Visit(IsOnes(e), fields), env) == Truth(Low32(n.value) == Low32(Range(0, n.size)))
  {
    hide Digits, Range;
    var mask := MakeDec(Range(0, n.size), 0);
    VisitIsOnes(e, fields);
    EqualMeaning(n, mask, n.size, env);
  }

  /** Comparing a number with the ones of its own length, instead of its width. */
  lemma NumberOnes(n: Expr, w: nat)
    requires n.Dec? && Fits(n.value) && n.size == Digits(n.value) && 0 < w <= 32
    requires forall i :: w <= i < 64 ==> !n.value[i]
    ensures (Low32(n.value) == Low32(Range(0, n.size)) <==> AllOnes(Low32(n.value), w))
      <==> !ZerosThenOnes(Low32(n.value), w)
  {
    hide Digits;
    var x, d := Low32(n.value), n.size;
    DigitsTop(n.value);
    if IsZero(n.value) {
      assert !x[0];
      assert Low32(Range(0, d)) != x by {
        assert Low32(Range(0, d))[0];
      }
    } else {
      forall i | d <= i < 64
        ensures !n.value[i]
      {
        assert !n.value[d..][i - d];
      }
      assert d <= w && x[d - 1];
      forall k | 1 <= k <= 32 && IsRun(x, k)
        ensures k == d
      {
        assert x[k - 1];
      }
      if x == Low32(Range(0, d)) {
        assert IsRun(x, d);
        assert x[w - 1] <==> d == w;
      } else {
        assert !IsRun(x, d) by {
          assert exists i :: 0 <= i < 32 && x[i] != Low32(Range(0, d))[i];
        }
      }
    }
  }

  // ----- slices inside slices -----

  /** Operands of which some may be constant slices that forget their width. */
  predicate NestedOk(os: Operands, fields: Fields) {
    WellFormed(os.expr, fields) && (Sized(os.expr, fields) || os.expr.Slice?)
    && (os.More? ==> NestedOk(os.others, fields))
  }

  predicate AllSized(os: Operands, fields: Fields) {
    Sized(os.expr, fields) && (os.More? ==> AllSized(os.others, fields))
  }

  /** Every operand that stands left of an unsized one is zero. */
  predicate NothingMoves(os: Operands, fields: Fields, env: Env)
    requires FieldsOk(fields)
  {
    os.More? ==> (AllSized(os.others, fields) || IsZero(Eval(os.expr, fields, env))) && NothingMoves(os.others, fields, env)
  }

  /** What visiting makes of such an operand: a node at most as wide as the operand, just as
      wide when it is sized, that holds its value. */
  predicate NestedShape(e: Expr, r: Expr, fields: Fields, env: Env)
    requires FieldsOk(fields)
  {
    && Settled(r) && Packed(r) && 0 < Size(r) <= Width(e, fields)
    && (Size(r) == Width(e, fields) <==> Sized(e, fields))
    && Run(r, env) == Eval(e, fields, env)
    && NoneFrom(Run(r, env), Size(r))
  }

  predicate NoneFrom(x: Reg, n: nat) {
    forall i :: n <= i < 32 ==> !x[i]
  }

  lemma SliceSmall(e: Expr, fields: Fields, env: Env)
    requires FieldsOk(fields) && WellFormed(e, fields) && e.Slice?
    ensures forall i :: Width(e, fields) <= i < 32 ==> !Eval(e, fields, env)[i]
  {
    hide LeadsWithOne, Constant;
    OperandsBitsLength(e.rest, fields, env);
  }

  lemma NumberSmall(r: Expr, env: Env)
    requires r.Dec? && Packed(r)
    ensures NoneFrom(Run(r, env), Size(r))
  {
  }

  lemma NestedOperand(e: Expr, fields: Fields, env: Env)
    requires FieldsOk(fields) && Consistent(fields, env.opcode) && WellFormed(e, fields)
    requires (Sized(e, fields) || e.Slice?) && Width(e, fields) <= 32
    ensures NestedShape(e, Visit(e, fields), fields, env)
  {
    hide Constant, Visit, Eval, Run, WellFormed, Consistent, LeadsWithOne, Width, Settled, Packed, Sized, Digits, FieldsOk;
    MeaningIsKept(e, fields, env);
    if e.Slice? {
      VisitedSlice(e, fields);
      SliceKeepsWidth(e, fields);
      SliceSmall(e, fields, env);
      if Visit(e, fields).Dec? {
        NumberSmall(Visit(e, fields), env);
      }
    } else {
      VisitedOperand(e, fields);
      OperandSmall(e, fields, env);
    }
  }

  lemma {:induction false} NestedOperands(os: Operands, fields: Fields, env: Env)
    requires FieldsOk(fields) && Consistent(fields, env.opcode) && NestedOk(os, fields) && OperandsWidth(os, fields) <= 32
    ensures var os' := VisitOperands(os, fields);
      && OperandsSettled(os') && OperandsPacked(os') && ChainSize(os') <= OperandsWidth(os, fields)
      && (ChainSize(os') == OperandsWidth(os, fields) <==> AllSized(os, fields))
    ensures |OperandsBits(os, fields, env)| == OperandsWidth(os, fields)
  {
    hide FieldsOk, Consistent, Settled, Packed, Sized, Visit, Eval, Run, WellFormed, Width, NoneFrom;
    NestedOperand(os.expr, fields, env);
    if os.More? {
      NestedOperands(os.others, fields, env);
    }
  }

  /** One operand on top of the others, in the chain. */
  lemma JoinedParts(e: Expr, others: Operands, env: Env)
    requires Settled(e) && Packed(e) && OperandsSettled(others) && OperandsPacked(others)
    requires ChainSize(others) + Size(e) <= 32
    ensures Run(Joined(More(e, others)), env) == Or(Shl(Run(e, env), ChainSize(others)), Run(Joined(others), env))
  {
    hide Run, Fold, Shifted, Settled, Packed;
    SettledFits(e);
    ShiftedShape(e, ChainSize(others));
    SettledFits(Shifted(e, ChainSize(others)));
    JoinedShape(others);
    SettledFits(Joined(others));
    ShiftedMeaning(e, ChainSize(others), env);
    OrMeaning(Shifted(e, ChainSize(others)), Joined(others), 32, env);
  }

  lemma JoinedLast(e: Expr, env: Env)
    requires Settled(e)
    ensures Run(Joined(Last(e)), env) == Run(e, env)
  {
    hide Run, Shifted, Settled;
    SettledFits(e);
    ShiftedMeaning(e, 0, env);
    assert Shl(Run(e, env), 0) == Run(e, env);
  }

  /** `x` on top of `v` at `d` is `x` on top of `s` at `w` just when the low parts are equal
      and `x` has not moved or is zero: its highest bit shows the place. */
  lemma Moved(x: Reg, v: Reg, s: Reg, d: nat, w: nat, top: nat)
    requires d <= w && w + top <= 32 && NoneFrom(x, top) && NoneFrom(v, d) && NoneFrom(s, w)
    ensures Or(Shl(x, d), v) == Or(Shl(x, w), s) <==> (d == w || IsZero(x)) && v == s
  {
    if IsZero(x) {
      assert Or(Shl(x, d), v) == v && Or(Shl(x, w), s) == s;
    } else if d == w {
      if Or(Shl(x, d), v) == Or(Shl(x, w), s) {
        forall i | 0 <= i < 32
          ensures v[i] == s[i]
        {
          assert Or(Shl(x, d), v)[i] == Or(Shl(x, w), s)[i];
        }
      }
    } else {
      DigitsTop(x);
      var t := Digits(x) - 1;
      assert x[t];
      assert forall i :: t < i < 32 ==> !x[i] by {
        assert forall i :: t < i < 32 ==> x[i] == x[t + 1..][i - t - 1];
      }
      assert Or(Shl(x, w), s)[t + w] && !Or(Shl(x, d), v)[t + w];
    }
  }

  lemma OnTopSmall(x: Reg, v: Reg, d: nat, size: nat)
    requires NoneFrom(x, size) && NoneFrom(v, d)
    ensures NoneFrom(Or(Shl(x, d), v), d + size)
  {
  }

  lemma ExtendSmall(low: Bits)
    ensures |low| <= 32 ==> NoneFrom(Extend(low), |low|)
  {
  }

  lemma TakeAll(x: Reg, w: nat)
    requires w <= 32 && NoneFrom(x, w)
    ensures Extend([] + Take(x, w)) == x && Extend(Take(x, w)) == x
  {
    assert [] + Take(x, w) == Take(x, w);
  }

  /** The chain of the operands is their concatenation just when nothing moves. */
  lemma {:induction false} NestedChain(os: Operands, fields: Fields, env: Env)
    requires FieldsOk(fields) && Consistent(fields, env.opcode) && NestedOk(os, fields) && OperandsWidth(os, fields) <= 32
    ensures Run(Joined(VisitOperands(os, fields)), env) == Extend(OperandsBits(os, fields, env))
      <==> NothingMoves(os, fields, env)
    ensures NoneFrom(Run(Joined(VisitOperands(os, fields)), env), ChainSize(VisitOperands(os, fields)))
  {
    hide FieldsOk, Consistent, Settled, Packed, Sized, Visit, Eval, Run, WellFormed, Width, NoneFrom, Joined,
      Extend, Take, AllSized;
    var e, r := os.expr, Visit(os.expr, fields);
    NestedOperand(e, fields, env);
    NestedOperands(os, fields, env);
    match os
    case Last(_) =>
      JoinedLast(r, env);
      WiderStill(Run(r, env), Size(r), Width(e, fields));
      TakeAll(Run(r, env), Width(e, fields));
    case More(_, others) =>
      var rest, low := VisitOperands(others, fields), OperandsBits(others, fields, env);
      NestedOperands(others, fields, env);
      NestedChain(others, fields, env);
      JoinedParts(r, rest, env);
      NestedTop(e, r, others, Run(Joined(rest), env), fields, env);
      OnTopSmall(Run(r, env), Run(Joined(rest), env), ChainSize(rest), Size(r));
  }

  lemma WiderStill(x: Reg, n: nat, m: nat)
    requires NoneFrom(x, n) && n <= m
    ensures NoneFrom(x, m)
  {
  }

  /** One step: the operand `e`, visited as `r`, on top of the others with the value `v`. */
  lemma NestedTop(e: Expr, r: Expr, others: Operands, v: Reg, fields: Fields, env: Env)
    requires FieldsOk(fields) && Consistent(fields, env.opcode) && NestedOk(others, fields)
    requires NestedShape(e, r, fields, env) && OperandsWidth(others, fields) + Width(e, fields) <= 32
    requires NoneFrom(v, ChainSize(VisitOperands(others, fields)))
    ensures var d, low := ChainSize(VisitOperands(others, fields)), OperandsBits(others, fields, env);
      Or(Shl(Run(r, env), d), v) == Extend(low + Take(Eval(e, fields, env), Width(e, fields)))
      <==> (AllSized(others, fields) || IsZero(Eval(e, fields, env))) && v == Extend(low)
  {
    hide FieldsOk, Consistent, Settled, Packed, Sized, Eval, Run, Width, NoneFrom, Extend, Take, AllSized, NestedOk, Visit;
    var low, x := OperandsBits(others, fields, env), Run(r, env);
    NestedOperands(others, fields, env);
    WiderStill(x, Size(r), Width(e, fields));
    OnTopAt(x, Width(e, fields), low);
    ExtendSmall(low);
    Moved(x, v, Extend(low), ChainSize(VisitOperands(others, fields)), |low|, Width(e, fields));
  }

  lemma OnTopAt(x: Reg, w: nat, low: Bits)
    requires |low| + w <= 32 && NoneFrom(x, w)
    ensures Or(Shl(x, |low|), Extend(low)) == Extend(low + Take(x, w))
  {
    OnTop(x, w, low);
  }

  /** A slice with slices inside is right just when every operand that stands left of an
      unsized one is zero. */
  lemma NestedSlice(first: Expr, rest: Operands, fields: Fields, env: Env)
    requires FieldsOk(fields) && Consistent(fields, env.opcode)
    requires NestedOk(More(first, rest), fields) && Width(Slice(first, rest), fields) <= 32
    ensures Run(Visit(Slice(first, rest), fields), env) == Eval(Slice(first, rest), fields, env)
      <==> NothingMoves(More(first, rest), fields, env)
  {
    NestedParts(first, rest, fields);
    hide FieldsOk, Consistent, Settled, Packed, Sized, Visit, Eval, Run, WellFormed, Width, NoneFrom, Joined, JoinedSlice;
    hide Extend, Take, AllSized;
    var f, os := Visit(first, fields), VisitOperands(rest, fields);
    NestedOperand(first, fields, env);
    NestedOperands(rest, fields, env);
    VisitNested(first, rest, fields);
    VisitChainSlice(f, os, fields);
    SliceParts(f, os, ChainSize(os), Size(f), env);
    NestedChain(rest, fields, env);
    NestedTop(first, f, rest, Run(Joined(os), env), fields, env);
    EvalNested(first, rest, fields, env);
  }

  lemma NestedParts(first: Expr, rest: Operands, fields: Fields)
    requires NestedOk(More(first, rest), fields) && Width(Slice(first, rest), fields) <= 32
    ensures Width(first, fields) + OperandsWidth(rest, fields) <= 32
  {
  }

  lemma EvalNested(first: Expr, rest: Operands, fields: Fields, env: Env)
    requires FieldsOk(fields)
    ensures Eval(Slice(first, rest), fields, env)
      == Extend(OperandsBits(rest, fields, env) + Take(Eval(first, fields, env), Width(first, fields)))
  {
    hide OperandsBits, Width;
  }

  lemma VisitNested(first: Expr, rest: Operands, fields: Fields)
    ensures Visit(Slice(first, rest), fields)
      == Visit(ChainSlice(Visit(first, fields), VisitOperands(rest, fields)), fields)
  {
    hide ChainSlice, Chain, VisitId, VisitBin, Fold, MakeDec, MakeOp, Range;
  }

  /** The smallest case: `IsOnes` of 0 followed by 1 comes out true. */
  lemma LeadingZeroLost(env: Env)
    ensures Run(Visit(IsOnes(Slice(Bin("0"), Last(Bin("1")))), map[]), env)
      != Eval(IsOnes(Slice(Bin("0"), Last(Bin("1")))), map[], env)
  {
    hide Visit, Run, Digits;
    var e := Slice(Bin("0"), Last(Bin("1")));
    assert !HasX("0") && !HasX("1");
    var x := Eval(e, map[], env);
    assert IsRun(x, 1) by {
      var one, zero := Low32(BinValue("1")), Low32(BinValue("0"));
      assert one[0] && !zero[0];
      assert Eval(e.first, map[], env) == zero && Eval(e.rest.expr, map[], env) == one;
      assert OperandsBits(e.rest, map[], env) == one[..1] == [true];
      assert Take(zero, 1) == zero[..1] == [false];
      assert x == Extend([true] + [false]);
    }
    IsOnesOfSlice(e, map[], env);
  }

  // ----- constants that outgrow 32 bits -----

  /** Whether folding a number `v` of any size with a `w` of 32 bits is right.  The
      generator folds in 64 bits: the bits of `v` above 31 are lost in C, but here they take
      part in a comparison and come down in a right shift. */
  predicate FoldsRight(op: Operator, v: Word, w: Word) {
    match op
    case Equal => Fits(v) || Low32(v) != Low32(w)
    case NotEqual => Fits(v) || Low32(v) != Low32(w)
    case ShiftRight => forall i :: 32 <= i < 64 && Nat(w) <= i < Nat(w) + 32 ==> !v[i]
    case _ => true
  }

  lemma ShiftedDown(v: Word, n: nat)
    ensures Low32(Shr(v, n)) == Shr(Low32(v), n) <==> forall i :: 32 <= i < 64 && n <= i < n + 32 ==> !v[i]
  {
    if Low32(Shr(v, n)) == Shr(Low32(v), n) {
      forall i | 32 <= i < 64 && n <= i < n + 32
        ensures !v[i]
      {
        assert Low32(Shr(v, n))[i - n] == v[i];
      }
    }
  }

  lemma SameWhenFits(v: Word, w: Word)
    requires Fits(w)
    ensures v == w <==> Low32(v) == Low32(w) && Fits(v)
  {
    if Low32(v) == Low32(w) && Fits(v) {
      LowInjective(v, w);
    }
  }

  lemma NumbersRun(e: Expr, env: Env)
    requires e.Op? && e.left.Dec? && e.right.Dec?
    ensures Run(e, env) == Apply(e.op, Low32(e.left.value), Low32(e.right.value))
    ensures var c := Fold(e);
      c == e || Run(c, env) == if c.Dec? then Low32(c.value) else Truth(c.Bool? && c.truth)
  {
    hide Apply, Low32, Truth;
    assert Eval(e.left, map[], env) == Low32(e.left.value) && Eval(e.right, map[], env) == Low32(e.right.value);
  }

  lemma NumbersFoldExactly(e: Expr, env: Env)
    requires e.Op? && e.left.Dec? && e.right.Dec? && Fits(e.right.value)
    ensures Run(Fold(e), env) == Run(e, env) <==> FoldsRight(e.op, e.left.value, e.right.value)
  {
    hide Arithmetic, Nat, Low32, And, Or, Xor, Shl, Shr, Truth, Fits, Run;
    var v, w := e.left.value, e.right.value;
    NumbersRun(e, env);
    LowOperators(v, w);
    ShiftedDown(v, Nat(w));
    SameWhenFits(v, w);
    TruthInjective(Low32(v) == Low32(w), v == w);
    TruthInjective(Low32(v) != Low32(w), v != w);
  }

  /** A constant shifted left and compared with a constant.  The comparison is right exactly
      when the shift loses nothing or the 32 bits that C keeps differ anyway. */
  lemma ShiftedComparison(l: Expr, r: Expr, d: Expr, size: nat, fields: Fields, env: Env)
    requires FieldsOk(fields) && Consistent(fields, env.opcode)
    requires WellFormed(l, fields) && WellFormed(r, fields) && WellFormed(d, fields)
    requires Visit(l, fields).Dec? && Visit(r, fields).Dec? && Visit(d, fields).Dec?
    ensures var e := Op(Equal, Op(ShiftLeft, l, r, size), d, size);
      var word := Shl(Visit(l, fields).value, Nat(Visit(r, fields).value));
      Run(Visit(e, fields), env) == Eval(e, fields, env)
      <==> Fits(word) || Low32(word) != Low32(Visit(d, fields).value)
  {
    hide FieldsOk, Consistent, WellFormed, Nat, Shl, Low32, Fits, Truth, Digits;
    MeaningIsKept(l, fields, env);
    MeaningIsKept(r, fields, env);
    MeaningIsKept(d, fields, env);
    VisitedNumber(l, fields);
    VisitedNumber(r, fields);
    VisitedNumber(d, fields);
    var v, w, c := Visit(l, fields), Visit(r, fields), Visit(d, fields);
    var shift := Op(ShiftLeft, v, w, size);
    NumbersFoldExactly(shift, env);
    NumbersFoldExactly(Op(Equal, Fold(shift), c, size), env);
    ComparisonParts(l, r, d, size, fields, env);
  }

  lemma ComparisonParts(l: Expr, r: Expr, d: Expr, size: nat, fields: Fields, env: Env)
    requires FieldsOk(fields)
    requires Visit(l, fields).Dec? && Visit(r, fields).Dec? && Visit(d, fields).Dec?
    requires !d.Bin? || !HasX(d.digits)
    ensures var e := Op(Equal, Op(ShiftLeft, l, r, size), d, size);
      var shift := Op(ShiftLeft, Visit(l, fields), Visit(r, fields), size);
      Visit(e, fields) == Fold(Op(Equal, Fold(shift), Visit(d, fields), size))
  {
    hide Fold;
  }

  /** `(0x80000000 << 1) == 0` is true in C and comes out false. */
  lemma OverflowLost(env: Env)
    ensures var e := Op(Equal, Op(ShiftLeft, Hex(Range(31, 32)), Dec(Range(0, 1), 0), 0), Dec(Zeros(64), 0), 0);
      Run(Visit(e, map[]), env) != Eval(e, map[], env)
  {
    hide Digits, Range, Shl, Low32, Nat, Fits;
    OverflowWord();
    ShiftedComparison(Hex(Range(31, 32)), Dec(Range(0, 1), 0), Dec(Zeros(64), 0), 0, map[], env);
  }

  lemma OverflowWord()
    ensures Nat(Range(0, 1)) == 1 && Fits(Range(31, 32)) && Fits(Range(0, 1)) && Fits(Zeros(64))
    ensures !Fits(Shl(Range(31, 32), 1)) && Low32(Shl(Range(31, 32), 1)) == Low32(Zeros(64))
  {
    assert Range(0, 1) == [true] + Zeros(63);
    NatTrailingZeros([true], Zeros(63));
    assert Shl(Range(31, 32), 1)[32];
  }

  // ----- operands without a width of their own -----

  /** The node of an operator is 32 bits wide, whatever its operands are. */
  lemma OperatorIs32(e: Expr, fields: Fields)
    requires e.Op? && e.bits == 32 && Visit(e, fields).Op?
    ensures Size(Visit(e, fields)) == 32
  {
  }

  /** So `IsOnes` of an operator that is not folded asks for ones in all of the register. */
  lemma IsOnesOfOperator(left: Expr, op: Operator, right: Expr, fields: Fields, env: Env)
    requires FieldsOk(fields) && Consistent(fields, env.opcode)
    requires var e := MakeOp(left, op, right, 0);
      WellFormed(e, fields) && Visit(e, fields).Op?
    ensures var e := MakeOp(left, op, right, 0);
      Run(Visit(IsOnes(e), fields), env) == Truth(forall i :: 0 <= i < 32 ==> Eval(e, fields, env)[i])
  {
    hide FieldsOk, Consistent, Range, Truth, Digits, Eval, Run, Visit, Fold, WellFormed;
    var e := MakeOp(left, op, right, 0);
    MeaningIsKept(e, fields, env);
    OperatorIs32(e, fields);
    var mask := MakeDec(Range(0, 32), 0);
    VisitIsOnes(e, fields);
    EqualMeaning(Visit(e, fields), mask, 32, env);
    DecRun(Range(0, 32), 0, env);
    OnesMask(Eval(e, fields, env), 32);
    assert AllOnes(Eval(e, fields, env), 32) == forall i :: 0 <= i < 32 ==> Eval(e, fields, env)[i];
  }

  lemma DecRun(value: Word, size: nat, env: Env)
    ensures Run(MakeDec(value, size), env) == Low32(value)
  {
  }
}
