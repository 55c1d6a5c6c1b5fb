/** Rewriting ARM pseudo-expressions into C expressions over `opcode`
    (`generator/CExpression/Transformer.pm`). */
module Transformer {
  import opened Bits

  type Reg = w: Bits | |w| == 32 witness Zeros(32)

  /** `value` has one character per bit, most significant first: 0, 1, or x for a bit
      that the encoding leaves open. */
  datatype Field = Field(pos: nat, size: nat, value: string)

  datatype Operator =
    | BitAnd | BitOr | BitXor
    | ShiftLeft | ShiftRight
    | Equal | NotEqual
    | LogicalOr | LogicalAnd
    | Less | Greater | LessEqual | GreaterEqual
    | Plus | Minus | Times | Divide | Modulo

  datatype UnaryOperator = Positive | Negative | Negate

  /** Source and target expressions; a `size` of 0 is an undefined one. */
  datatype Expr =
    | Dec(value: Word, size: nat)
    | Bool(truth: bool)
    | Bin(digits: string)
    | Hex(number: Word)
    | Id(name: string, reserved: bool, width: nat)
    | Op(op: Operator, left: Expr, right: Expr, bits: nat)
    | Unary(uop: UnaryOperator, operand: Expr)
    | Slice(first: Expr, rest: Operands)
    | IsOnes(argument: Expr)
    | Call(function_: string, arguments: Arguments)

  /** The operands of a slice after the first; there is at least one. */
  datatype Operands = Last(expr: Expr) | More(expr: Expr, others: Operands)

  datatype Arguments = None | Some(head: Expr, tail: Arguments)

  type Fields = map<string, Field>

  // ----- node constructors of CExpression::Utils -----

  /** `get_bit_count(value)` without a bit: the number of digits, and 1 for 0. */
  function Digits(x: Bits): (n: nat)
    ensures n >= 1
  {
    if x == [] || IsZero(x) then 1
    else if x[|x| - 1] then |x|
    else Digits(x[..|x| - 1])
  }

  function MakeDec(value: Word, size: nat): (r: Expr)
    ensures r.Dec? && r.value == value
  {
    Dec(value, if size == 0 then Digits(value) else size)
  }

  function MakeNumber(n: nat): (r: Expr)
    ensures r.Dec? && r.value == ToBits(n, 64)
  {
    MakeDec(ToBits(n, 64), 0)
  }

  function MakeOp(left: Expr, op: Operator, right: Expr, size: nat): (r: Expr)
    ensures r.Op? && Slices(r) == Slices(left) + Slices(right)
  {
    Op(op, left, right, if size == 0 then 32 else size)
  }

  const OPCODE := Id("opcode", true, 32)

  /** `$node->{size}`; `make_bool` sets it for false only. */
  function Size(e: Expr): nat {
    match e
    case Dec(_, size) => size
    case Bool(b) => if b then 0 else 1
    case Id(_, _, width) => width
    case Op(_, _, _, bits) => bits
    case _ => 0
  }

  /** `get_mask_from_range(low, high - 1)`. */
  function Range(low: nat, high: nat): (m: Word)
    ensures forall i :: 0 <= i < 64 ==> m[i] == (low <= i < high)
  {
    seq(64, i => low <= i < high)
  }

  // ----- binary literals -----

  predicate HasX(digits: string) {
    exists i :: 0 <= i < |digits| && digits[i] != '0' && digits[i] != '1'
  }

  /** `get_bin_value`: an x counts as 0. */
  function BinValue(digits: string): (v: Word)
    ensures forall i :: 0 <= i < 64 ==> v[i] == (i < |digits| && digits[|digits| - 1 - i] == '1')
  {
    seq(64, i requires 0 <= i < 64 => i < |digits| && digits[|digits| - 1 - i] == '1')
  }

  function BinMask(digits: string): (m: Word)
    ensures forall i :: 0 <= i < 64 ==>
      m[i] == (i < |digits| && (digits[|digits| - 1 - i] == '0' || digits[|digits| - 1 - i] == '1'))
  {
    seq(64, i requires 0 <= i < 64 =>
      i < |digits| && (digits[|digits| - 1 - i] == '0' || digits[|digits| - 1 - i] == '1'))
  }

  /** `get_mask_from_bin`. */
  method GetMaskFromBin(digits: string) returns (mask: Word)
    requires |digits| <= 64
    ensures mask == BinMask(digits)
  {
    mask := Zeros(64);
    var i := 0;
    while i < |digits|
      invariant i <= |digits|
      invariant forall j :: 0 <= j < 64 ==> mask[j] == (j < i && BinMask(digits)[j])
    {
      var c := digits[|digits| - 1 - i];
      if c == '0' || c == '1' {
        mask := mask[i := true];
      }
      i := i + 1;
    }
  }

  // ----- the transformer -----

  /** Slices still to be rewritten. */
  function Slices(e: Expr): nat {
    match e
    case Op(_, l, r, _) => Slices(l) + Slices(r)
    case Unary(_, x) => Slices(x)
    case Slice(first, rest) => 1 + Slices(first) + OperandSlices(rest)
    case IsOnes(x) => Slices(x)
    case Call(_, args) => ArgumentSlices(args)
    case _ => 0
  }

  function OperandSlices(os: Operands): nat {
    match os
    case Last(e) => Slices(e)
    case More(e, others) => Slices(e) + OperandSlices(others)
  }

  function ArgumentSlices(args: Arguments): nat {
    match args
    case None => 0
    case Some(head, tail) => Slices(head) + ArgumentSlices(tail)
  }

  /** `visit_id`. */
  function VisitId(e: Expr, fields: Fields): (r: Expr)
    requires e.Id?
    ensures Slices(r) == 0
  {
    if !e.reserved && e.name in fields then
      var f := fields[e.name];
      if !HasX(f.value) then MakeDec(BinValue(f.value), f.size)
      else
        var mask := MakeDec(Shl(Range(0, f.size), f.pos), 0);
        MakeOp(MakeOp(OPCODE, BitAnd, mask, 0), ShiftRight, MakeNumber(f.pos), f.size)
    else if e.width == 0 then e.(width := 32) else e
  }

  /** `visit_bin`. */
  function VisitBin(e: Expr): (r: Expr)
    requires e.Bin?
    ensures Slices(r) == 0
  {
    if !HasX(e.digits) then MakeDec(BinValue(e.digits), |e.digits|) else e
  }

  /** The folding of `visit_logical_expression` and its siblings, on visited operands. */
  function Fold(e: Expr): (r: Expr)
    requires e.Op?
    ensures Slices(r) <= Slices(e)
  {
    var l, r := e.left, e.right;
    match e.op
    case LogicalOr => if l.Bool? && r.Bool? then Bool(l.truth || r.truth) else e
    case LogicalAnd => if l.Bool? && r.Bool? then Bool(l.truth && r.truth) else e
    case Equal =>
      if l.Dec? && r.Dec? then Bool(l.value == r.value)
      else if l.Bool? && r.Bool? then Bool(l.truth == r.truth)
      else if r.Bin? then Masked(e)
      else e
    case NotEqual =>
      if l.Dec? && r.Dec? then Bool(l.value != r.value)
      else if l.Bool? && r.Bool? then Bool(l.truth != r.truth)
      else if r.Bin? then Masked(e)
      else e
    case BitAnd => if l.Dec? && r.Dec? then MakeDec(And(l.value, r.value), 0) else e
    case BitOr => if l.Dec? && r.Dec? then MakeDec(Or(l.value, r.value), 0) else e
    case BitXor => if l.Dec? && r.Dec? then MakeDec(Xor(l.value, r.value), 0) else e
    case ShiftRight => if l.Dec? && r.Dec? then MakeDec(Shr(l.value, Nat(r.value)), 0) else e
    case ShiftLeft => if l.Dec? && r.Dec? then MakeDec(Shl(l.value, Nat(r.value)), 0) else e
    case _ => e
  }

  /** A comparison with a literal that has don't-care bits. */
  function Masked(e: Expr): (r: Expr)
    requires e.Op? && e.right.Bin?
    ensures Slices(r) == Slices(e)
  {
    var left := MakeOp(e.left, BitAnd, MakeDec(BinMask(e.right.digits), 0), 0);
    MakeOp(left, e.op, MakeDec(BinValue(e.right.digits), 0), 0)
  }

  /** `$size` after the first loop of `visit_slice`: the operands' sizes added up. */
  function ChainSize(os: Operands): nat {
    match os
    case Last(e) => Size(e)
    case More(e, others) => ChainSize(others) + Size(e)
  }

  /** The `|` chain of `visit_slice` over visited operands: each is shifted by the size
      of those to its right. */
  function Chain(os: Operands): Expr {
    match os
    case Last(e) => MakeOp(e, ShiftLeft, MakeNumber(0), 0)
    case More(e, others) =>
      Op(BitOr, MakeOp(e, ShiftLeft, MakeNumber(ChainSize(others)), 0), Chain(others), 32)
  }

  function ChainSlice(first: Expr, rest: Operands): Expr {
    Op(BitOr, MakeOp(first, ShiftLeft, MakeNumber(ChainSize(rest)), 0), Chain(rest),
       ChainSize(rest) + Size(first))
  }

  function FromSeq(es: seq<Expr>): Operands
    requires es != []
  {
    if |es| == 1 then Last(es[0]) else More(es[0], FromSeq(es[1..]))
  }

  /** The two loops of `visit_slice` on visited arguments. */
  method BuildChain(arguments: seq<Expr>) returns (expression: Expr)
    requires |arguments| >= 2
    ensures expression == ChainSlice(arguments[0], FromSeq(arguments[1..]))
  {
    hide MakeOp, MakeNumber, Size, FromSeq, Chain;
    var shifted, size := ShiftArguments(arguments);
    var i := |arguments| - 1;
    expression := shifted[i];
    ChainLast(arguments);
    while i > 1
      invariant 1 <= i < |arguments|
      invariant expression == Chain(FromSeq(arguments[i..]))
    {
      i := i - 1;
      ChainMore(arguments, i);
      expression := Op(BitOr, shifted[i], expression, 32);
    }
    SizeFromSeq(arguments, 1);
    expression := Op(BitOr, shifted[0], expression, size);
  }

  /** The first loop: every argument is shifted by the size of those to its right. */
  method ShiftArguments(arguments: seq<Expr>) returns (shifted: seq<Expr>, size: nat)
    ensures |shifted| == |arguments| && forall k :: 0 <= k < |arguments| ==> shifted[k] == ShiftedAt(arguments, k)
    ensures size == SizeFrom(arguments, 0)
  {
    hide MakeOp, MakeNumber, Size;
    shifted := arguments;
    size := 0;
    var i := |arguments|;
    while i > 0
      invariant 0 <= i <= |arguments| == |shifted|
      invariant forall k :: 0 <= k < i ==> shifted[k] == arguments[k]
      invariant forall k :: i <= k < |arguments| ==> shifted[k] == ShiftedAt(arguments, k)
      invariant size == SizeFrom(arguments, i)
    {
      i := i - 1;
      shifted := shifted[i := MakeOp(arguments[i], ShiftLeft, MakeNumber(size), 0)];
      size := size + Size(arguments[i]);
    }
  }

  lemma ChainLast(es: seq<Expr>)
    requires es != []
    ensures var n := |es| - 1;
      Chain(FromSeq(es[n..])) == ShiftedAt(es, n)
  {
    hide MakeOp, MakeNumber;
  }

  lemma ChainMore(es: seq<Expr>, i: nat)
    requires i + 1 < |es|
    ensures Chain(FromSeq(es[i..])) == Op(BitOr, ShiftedAt(es, i), Chain(FromSeq(es[i + 1..])), 32)
  {
    hide MakeOp, MakeNumber, Size, SizeFrom;
    SizeFromSeq(es, i + 1);
    assert es[i..][1..] == es[i + 1..];
  }

  function SizeFrom(es: seq<Expr>, i: nat): nat
    requires i <= |es|
    decreases |es| - i
  {
    if i == |es| then 0 else SizeFrom(es, i + 1) + Size(es[i])
  }

  function ShiftedAt(es: seq<Expr>, k: nat): Expr
    requires k < |es|
  {
    MakeOp(es[k], ShiftLeft, MakeNumber(SizeFrom(es, k + 1)), 0)
  }

  lemma {:induction false} SizeFromSeq(es: seq<Expr>, i: nat)
    requires i < |es|
    ensures SizeFrom(es, i) == ChainSize(FromSeq(es[i..]))
    decreases |es| - i
  {
    if i + 1 < |es| {
      SizeFromSeq(es, i + 1);
      assert es[i..][1..] == es[i + 1..];
    }
  }

  lemma {:induction false} ChainSlices(os: Operands)
    ensures Slices(Chain(os)) == OperandSlices(os)
  {
    hide MakeOp, MakeNumber, ToBits;
    if os.More? {
      ChainSlices(os.others);
      var left := MakeOp(os.expr, ShiftLeft, MakeNumber(ChainSize(os.others)), 0);
      assert Slices(Op(BitOr, left, Chain(os.others), 32)) == Slices(left) + Slices(Chain(os.others));
    }
  }

  /** `visit`. */
  function Visit(e: Expr, fields: Fields): (r: Expr)
    ensures Slices(r) == 0
    decreases Slices(e), e
  {
    match e
    case Dec(_, _) => e
    case Bool(_) => e
    case Bin(_) => VisitBin(e)
    case Hex(number) => MakeDec(number, 0)
    case Id(_, _, _) => VisitId(e, fields)
    case Op(_, l, r, _) => Fold(e.(left := Visit(l, fields), right := Visit(r, fields)))
    case Unary(_, x) => e.(operand := Visit(x, fields))
    case IsOnes(x) =>
      var arg := Visit(x, fields);
      MakeOp(arg, Equal, MakeDec(Range(0, Size(arg)), 0), Size(arg))
    case Call(_, args) => e.(arguments := VisitArguments(args, fields))
    case Slice(first, rest) =>
      var first', rest' := Visit(first, fields), VisitOperands(rest, fields);
      ChainSlices(rest');
      Visit(ChainSlice(first', rest'), fields)
  }

  function VisitOperands(os: Operands, fields: Fields): (r: Operands)
    ensures OperandSlices(r) == 0
    decreases OperandSlices(os), os
  {
    match os
    case Last(e) => Last(Visit(e, fields))
    case More(e, others) => More(Visit(e, fields), VisitOperands(others, fields))
  }

  function VisitArguments(args: Arguments, fields: Fields): (r: Arguments)
    ensures ArgumentSlices(r) == 0
    decreases ArgumentSlices(args), args
  {
    match args
    case None => None
    case Some(head, tail) => Some(Visit(head, fields), VisitArguments(tail, fields))
  }

  // ----- meaning -----

  /** What the surrounding C code supplies: the opcode word, variables and functions. */
  datatype Env = Env(opcode: Reg, vars: string -> Reg, calls: (string, seq<Reg>) -> Reg)

  function Truth(b: bool): (r: Reg) {
    [b] + Zeros(31)
  }

  function Low32(w: Word): (r: Reg) {
    w[..32]
  }

  /** The bits of a field, zero extended. */
  function FieldValue(f: Field, opcode: Reg): (r: Reg)
    requires f.pos + f.size <= 32
    ensures forall i :: 0 <= i < 32 ==> r[i] == (i < f.size && opcode[f.pos + i])
  {
    opcode[f.pos..f.pos + f.size] + Zeros(32 - f.size)
  }

  /** Fields lie in the opcode and say one character per bit. */
  predicate FieldsOk(fields: Fields) {
    forall n :: n in fields ==>
      fields[n].size > 0 && fields[n].pos + fields[n].size <= 32 && |fields[n].value| == fields[n].size
  }

  /** The opcode has the bits that fixed fields fix. */
  predicate Consistent(fields: Fields, opcode: Reg)
    requires FieldsOk(fields)
  {
    forall n :: n in fields && !HasX(fields[n].value) ==>
      FieldValue(fields[n], opcode) == Low32(BinValue(fields[n].value))
  }

  function Product(a: nat, b: nat): nat {
    a * b
  }

  /** 0 for a division by zero. */
  function Quotient(a: nat, b: nat): nat {
    if b == 0 then 0 else a / b
  }

  function Remainder(a: nat, b: nat): nat {
    if b == 0 then 0 else a % b
  }

  function Arithmetic(op: Operator, x: Reg, y: Reg): Reg {
    var a, b := Nat(x), Nat(y);
    NatBound(y);
    if op == Plus then ToBits(a + b, 32)
    else if op == Minus then ToBits(a + (Pow2(32) - b), 32)
    else if op == Times then ToBits(Product(a, b), 32)
    else if op == Divide then ToBits(Quotient(a, b), 32)
    else ToBits(Remainder(a, b), 32)
  }

  /** C's operators on 32-bit unsigned values. */
  function Apply(op: Operator, x: Reg, y: Reg): Reg {
    match op
    case BitAnd => And(x, y)
    case BitOr => Or(x, y)
    case BitXor => Xor(x, y)
    case ShiftLeft => Shl(x, Nat(y))
    case ShiftRight => Shr(x, Nat(y))
    case Equal => Truth(x == y)
    case NotEqual => Truth(x != y)
    case LogicalOr => Truth(!IsZero(x) || !IsZero(y))
    case LogicalAnd => Truth(!IsZero(x) && !IsZero(y))
    case Less => Truth(Nat(x) < Nat(y))
    case Greater => Truth(Nat(x) > Nat(y))
    case LessEqual => Truth(Nat(x) <= Nat(y))
    case GreaterEqual => Truth(Nat(x) >= Nat(y))
    case _ => Arithmetic(op, x, y)
  }

  /** A value agrees with a literal wherever the literal is not x. */
  predicate AgreesWith(x: Reg, digits: string) {
    forall i :: 0 <= i < |digits| && i < 32 ==>
      (digits[|digits| - 1 - i] == '1' ==> x[i]) && (digits[|digits| - 1 - i] == '0' ==> !x[i])
  }

  predicate AllOnes(x: Reg, width: nat) {
    forall i :: 0 <= i < width && i < 32 ==> x[i]
  }

  /** The width a sized operand has in the pseudo-code. */
  function Width(e: Expr, fields: Fields): nat {
    match e
    case Bin(digits) => |digits|
    case Id(name, reserved, _) => if !reserved && name in fields then fields[name].size else 32
    case Slice(first, rest) => Width(first, fields) + OperandsWidth(rest, fields)
    case _ => 32
  }

  function OperandsWidth(os: Operands, fields: Fields): nat {
    match os
    case Last(e) => Width(e, fields)
    case More(e, others) => Width(e, fields) + OperandsWidth(others, fields)
  }

  function Extend(x: Bits): Reg {
    if |x| <= 32 then x + Zeros(32 - |x|) else x[..32]
  }

  function Take(x: Reg, n: nat): Bits {
    if n <= 32 then x[..n] else x
  }

  /** The meaning of an expression, of the source and of the target alike. */
  function Eval(e: Expr, fields: Fields, env: Env): Reg
    requires FieldsOk(fields)
  {
    match e
    case Dec(value, _) => Low32(value)
    case Bool(b) => Truth(b)
    case Bin(digits) => Low32(BinValue(digits))
    case Hex(number) => Low32(number)
    case Id(name, reserved, _) =>
      if reserved then env.opcode
      else if name in fields then FieldValue(fields[name], env.opcode)
      else env.vars(name)
    case Op(op, l, r, _) =>
      var x := Eval(l, fields, env);
      if r.Bin? && HasX(r.digits) && op == Equal then Truth(AgreesWith(x, r.digits))
      else if r.Bin? && HasX(r.digits) && op == NotEqual then Truth(!AgreesWith(x, r.digits))
      else Apply(op, x, Eval(r, fields, env))
    case Unary(uop, x) =>
      var v := Eval(x, fields, env);
      (match uop
       case Positive => v
       case Negative => Arithmetic(Minus, Zeros(32), v)
       case Negate => Truth(IsZero(v)))
    case Slice(first, rest) =>
      Extend(OperandsBits(rest, fields, env) + Take(Eval(first, fields, env), Width(first, fields)))
    case IsOnes(x) =>
      Truth(AllOnes(Eval(x, fields, env), Width(x, fields)))
    case Call(name, args) => env.calls(name, EvalArguments(args, fields, env))
  }

  /** The operands concatenated, the first most significant. */
  function OperandsBits(os: Operands, fields: Fields, env: Env): Bits
    requires FieldsOk(fields)
  {
    match os
    case Last(e) => Take(Eval(e, fields, env), Width(e, fields))
    case More(e, others) => OperandsBits(others, fields, env) + Take(Eval(e, fields, env), Width(e, fields))
  }

  function EvalArguments(args: Arguments, fields: Fields, env: Env): seq<Reg>
    requires FieldsOk(fields)
  {
    match args
    case None => []
    case Some(head, tail) => [Eval(head, fields, env)] + EvalArguments(tail, fields, env)
  }

  // ----- the expressions the transformer is right about -----

  predicate Folds(op: Operator) {
    op == BitAnd || op == BitOr || op == BitXor || op == ShiftLeft || op == ShiftRight
  }

  /** No varying field: visiting folds it to a number. */
  predicate Constant(e: Expr, fields: Fields) {
    match e
    case Dec(_, _) => true
    case Bin(digits) => !HasX(digits)
    case Hex(_) => true
    case Id(name, reserved, _) => !reserved && name in fields && !HasX(fields[name].value)
    case Op(op, l, r, _) => Folds(op) && Constant(l, fields) && Constant(r, fields)
    case Slice(first, rest) => Constant(first, fields) && OperandsConstant(rest, fields)
    case _ => false
  }

  predicate OperandsConstant(os: Operands, fields: Fields) {
    Constant(os.expr, fields) && (os.More? ==> OperandsConstant(os.others, fields))
  }

  /** The first digit of a constant operand is 1. */
  predicate LeadsWithOne(e: Expr, fields: Fields) {
    match e
    case Bin(digits) => digits != "" && digits[0] == '1'
    case Id(name, reserved, _) => name in fields && fields[name].value != "" && fields[name].value[0] == '1'
    case Slice(first, _) => LeadsWithOne(first, fields)
    case _ => false
  }

  /** An operand whose node carries its width after visiting: a field, a binary literal
      or a slice, but not a constant slice with a leading 0, which becomes a number and
      forgets how wide it was. */
  predicate Sized(e: Expr, fields: Fields) {
    match e
    case Id(name, reserved, _) => !reserved && name in fields
    case Bin(digits) => digits != ""
    case Slice(first, _) => Constant(e, fields) ==> LeadsWithOne(first, fields)
    case _ => false
  }

  /** The number fits the 32 bits of the opcode. */
  predicate Fits(value: Word) {
    forall i :: 32 <= i < 64 ==> !value[i]
  }

  /** Literals fit 32 bits, x only to the right of `==` or `!=`, a constant is shifted
      left without loss, slices and `IsOnes` over sized operands, slices of at most 32 bits
      in all. */
  predicate WellFormed(e: Expr, fields: Fields)
    decreases e, 0
  {
    match e
    case Dec(value, _) => Fits(value)
    case Bool(_) => true
    case Bin(digits) => !HasX(digits) && |digits| <= 32
    case Hex(number) => Fits(number)
    case Id(_, _, _) => true
    case Op(op, l, r, _) =>
      WellFormed(l, fields)
      && (WellFormed(r, fields) || ((op == Equal || op == NotEqual) && r.Bin? && |r.digits| <= 32))
      && (op == ShiftLeft && Visit(l, fields).Dec? && Visit(r, fields).Dec? ==>
            Fits(Shl(Visit(l, fields).value, Nat(Visit(r, fields).value))))
    case Unary(_, x) => WellFormed(x, fields)
    case Slice(first, rest) =>
      Width(e, fields) <= 32 && OperandOk(first, fields) && OperandsOk(rest, fields)
    case IsOnes(x) => OperandOk(x, fields)
    case Call(_, args) => ArgumentsOk(args, fields)
  }

  predicate OperandOk(e: Expr, fields: Fields)
    decreases e, 1
  {
    WellFormed(e, fields) && Sized(e, fields)
  }

  predicate OperandsOk(os: Operands, fields: Fields)
    decreases os, 0
  {
    OperandOk(os.expr, fields) && (os.More? ==> OperandsOk(os.others, fields))
  }

  predicate ArgumentsOk(args: Arguments, fields: Fields)
    decreases args, 0
  {
    args.Some? ==> WellFormed(args.head, fields) && ArgumentsOk(args.tail, fields)
  }

  /** Plain C over `opcode`: numbers of 32 bits, no literal with x, slice, call to
      `IsOnes` or field name is left. */
  predicate PlainC(e: Expr, fields: Fields) {
    match e
    case Dec(value, _) => Fits(value)
    case Bool(_) => true
    case Id(name, reserved, _) => reserved || name !in fields
    case Op(_, l, r, _) => PlainC(l, fields) && PlainC(r, fields)
    case Unary(_, x) => PlainC(x, fields)
    case Call(_, args) => PlainArguments(args, fields)
    case _ => false
  }

  predicate PlainArguments(args: Arguments, fields: Fields) {
    args.Some? ==> PlainC(args.head, fields) && PlainArguments(args.tail, fields)
  }
}
