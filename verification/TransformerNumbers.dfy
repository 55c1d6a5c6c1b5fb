/** What the values of alias conditions are as numbers: fields by division and remainder,
    literals by their digits, and C's operators on 32-bit unsigned numbers. */
module TransformerNumbers {
  import opened Bits
  import opened Transformer
  import FieldNumbers

  const RANGE: nat := 0x1_0000_0000

  lemma RangeIsPower()
    ensures Pow2(32) == RANGE
  {
    assert Pow2(8) == 256;
    FieldNumbers.PowersMultiply(8, 8);
    FieldNumbers.PowersMultiply(16, 16);
  }

  /** The low digits of a number. */
  lemma {:induction false} ToBitsRemainder(n: nat, width: nat)
    ensures Nat(ToBits(n, width)) == n % Pow2(width)
  {
    if width > 0 {
      ToBitsRemainder(n / 2, width - 1);
      HalfRemainder(n, Pow2(width - 1));
    }
  }

  lemma HalfRemainder(n: nat, p: nat)
    requires p > 0
    ensures n % (2 * p) == n % 2 + 2 * (n / 2 % p)
  {
    var m := n / 2;
    var q, r := m / p, m % p;
    assert m == q * p + r;
    FieldNumbers.Commute(q, 2 * p);
    FieldNumbers.Commute(q, p);
    assert n == q * (2 * p) + (n % 2 + 2 * r);
    FieldNumbers.DigitsOf(q, n % 2 + 2 * r, 2 * p);
  }

  /** Bits `i` and up, moved down. */
  lemma ShrNumber(x: Reg, n: nat)
    ensures Nat(Shr(x, n)) == if n < 32 then Nat(x) / Pow2(n) else 0
  {
    hide Nat, Pow2;
    if n < 32 {
      assert Shr(x, n) == x[n..] + Zeros(n);
      NatTrailingZeros(x[n..], Zeros(n));
      assert x == x[..n] + x[n..];
      NatAppend(x[..n], x[n..]);
      NatBound(x[..n]);
      FieldNumbers.Commute(Nat(x[n..]), Pow2(n));
      FieldNumbers.DigitsOf(Nat(x[n..]), Nat(x[..n]), Pow2(n));
    } else {
      assert Shr(x, n) == Zeros(32);
      NatOfZeros(Zeros(32));
    }
  }

  /** The number times a power of two, without the bits that leave the register. */
  lemma ShlNumber(x: Reg, n: nat)
    requires n < 32
    ensures Nat(Shl(x, n)) == Pow2(n) * (Nat(x) % Pow2(32 - n))
  {
    hide Nat, Pow2;
    var low := x[..32 - n];
    assert Shl(x, n) == Zeros(n) + low;
    NatAppend(Zeros(n), low);
    NatOfZeros(Zeros(n));
    assert x == low + x[32 - n..];
    NatAppend(low, x[32 - n..]);
    NatBound(low);
    FieldNumbers.Commute(Nat(x[32 - n..]), Pow2(32 - n));
    FieldNumbers.DigitsOf(Nat(x[32 - n..]), Nat(low), Pow2(32 - n));
  }

  lemma TruthNumber(b: bool)
    ensures Nat(Truth(b)) == if b then 1 else 0
  {
    assert Truth(b) == [b] + Zeros(31);
    NatTrailingZeros([b], Zeros(31));
    assert [b][1..] == [];
  }

  lemma SameNumber(x: Reg, y: Reg)
    ensures x == y <==> Nat(x) == Nat(y)
    ensures IsZero(x) <==> Nat(x) == 0
  {
    if Nat(x) == Nat(y) {
      NatInjective(x, y);
    }
    NatOfZeros(Zeros(32));
    if Nat(x) == 0 {
      NatInjective(x, Zeros(32));
    }
    if IsZero(x) {
      NatOfZeros(x);
    }
  }

  /** C's operators.  A division by zero and a shift by the width or more, which C leaves
      undefined, are left out here. */
  predicate Computes(op: Operator, a: nat, b: nat, r: nat) {
    match op
    case Plus => r == (a + b) % RANGE
    case Minus => r == (a - b) % RANGE
    case Times => r == a * b % RANGE
    case Divide => b != 0 ==> r == a / b
    case Modulo => b != 0 ==> r == a % b
    case Less => r == if a < b then 1 else 0
    case Greater => r == if b < a then 1 else 0
    case LessEqual => r == if a <= b then 1 else 0
    case GreaterEqual => r == if b <= a then 1 else 0
    case Equal => r == if a == b then 1 else 0
    case NotEqual => r == if a == b then 0 else 1
    case LogicalOr => r == if a == 0 && b == 0 then 0 else 1
    case LogicalAnd => r == if a == 0 || b == 0 then 0 else 1
    case ShiftRight => b < 32 ==> r == a / Pow2(b)
    case ShiftLeft => b < 32 ==> r == Pow2(b) * (a % Pow2(32 - b))
    case _ => true
  }

  lemma WrapsBelow(a: nat, b: nat)
    requires b < RANGE
    ensures (a + (RANGE - b)) % RANGE == (a - b) % RANGE
  {
  }

  lemma Small(a: nat)
    requires a < RANGE
    ensures a % RANGE == a
  {
  }

  lemma QuotientSmall(a: nat, b: nat)
    ensures Quotient(a, b) <= a && (b > 0 ==> Remainder(a, b) < b)
  {
    if b > 0 {
      var q, r := a / b, a % b;
      assert a == q * b + r;
      FieldNumbers.MoreIsMore(1, b, q);
      FieldNumbers.Commute(b, q);
    }
  }

  lemma ArithmeticNumbers(op: Operator, x: Reg, y: Reg)
    requires op == Plus || op == Minus || op == Times || op == Divide || op == Modulo
    ensures Computes(op, Nat(x), Nat(y), Nat(Apply(op, x, y)))
  {
    RangeIsPower();
    NatBound(x);
    NatBound(y);
    hide Nat, ToBits, Pow2, Product, Quotient, Remainder, Computes;
    var a, b := Nat(x), Nat(y);
    var r := Nat(Apply(op, x, y));
    match op {
      case Plus =>
        ToBitsRemainder(a + b, 32);
        SaysPlus(a, b, r);
      case Minus =>
        ToBitsRemainder(a + (RANGE - b), 32);
        SaysMinus(a, b, r);
      case Times =>
        ToBitsRemainder(Product(a, b), 32);
        SaysTimes(a, b, r);
      case Divide =>
        ToBitsRemainder(Quotient(a, b), 32);
        SaysDivide(a, b, r);
      case Modulo =>
        ToBitsRemainder(Remainder(a, b), 32);
        SaysModulo(a, b, r);
    }
  }

  lemma SaysPlus(a: nat, b: nat, r: nat)
    requires r == (a + b) % RANGE
    ensures Computes(Plus, a, b, r)
  {
  }

  lemma SaysMinus(a: nat, b: nat, r: nat)
    requires b < RANGE && r == (a + (RANGE - b)) % RANGE
    ensures Computes(Minus, a, b, r)
  {
    WrapsBelow(a, b);
  }

  lemma SaysTimes(a: nat, b: nat, r: nat)
    requires r == Product(a, b) % RANGE
    ensures Computes(Times, a, b, r)
  {
  }

  lemma SaysDivide(a: nat, b: nat, r: nat)
    requires a < RANGE && r == Quotient(a, b) % RANGE
    ensures Computes(Divide, a, b, r)
  {
    QuotientSmall(a, b);
    Small(Quotient(a, b));
  }

  lemma SaysModulo(a: nat, b: nat, r: nat)
    requires b < RANGE && r == Remainder(a, b) % RANGE
    ensures Computes(Modulo, a, b, r)
  {
    QuotientSmall(a, b);
    Small(Remainder(a, b));
  }

  /** Every operator computes what C says, on all values. */
  lemma OperatorNumbers(op: Operator, x: Reg, y: Reg)
    ensures Computes(op, Nat(x), Nat(y), Nat(Apply(op, x, y)))
  {
    hide Nat, Arithmetic, IsZero, Shl, Shr, Truth, Pow2;
    SameNumber(x, y);
    SameNumber(y, x);
    TruthNumber(true);
    TruthNumber(false);
    if op in {Plus, Minus, Times, Divide, Modulo} {
      ArithmeticNumbers(op, x, y);
    } else if op == ShiftRight {
      ShrNumber(x, Nat(y));
    } else if op == ShiftLeft && Nat(y) < 32 {
      ShlNumber(x, Nat(y));
    }
  }

  // ----- fields and literals -----

  lemma FieldNumber(f: Field, opcode: Reg)
    requires f.pos + f.size <= 32
    ensures Nat(FieldValue(f, opcode)) == Nat(opcode) / Pow2(f.pos) % Pow2(f.size)
  {
    hide Nat, Pow2;
    var bits := opcode[f.pos..f.pos + f.size];
    FieldNumbers.SliceNumber(opcode, f.pos, f.pos + f.size);
    NatTrailingZeros(bits, Zeros(32 - f.size));
    assert FieldValue(f, opcode) == bits + Zeros(32 - f.size);
  }

  lemma LiteralNumber(digits: string)
    requires |digits| <= 32 && FieldNumbers.IsBinary(digits)
    ensures Nat(Low32(BinValue(digits))) == FieldNumbers.BinaryNumber(digits)
  {
    hide Nat;
    FieldNumbers.DigitsNumber(digits);
    var bits := FieldNumbers.DigitBits(digits);
    NatTrailingZeros(bits, Zeros(32 - |digits|));
    assert Low32(BinValue(digits)) == bits + Zeros(32 - |digits|);
  }

  /** A slice is its operands one after the other, the first most significant. */
  lemma SliceNumber(e: Expr, others: Operands, fields: Fields, env: Env)
    requires FieldsOk(fields)
    ensures var rest, top := OperandsBits(others, fields, env), Take(Eval(e, fields, env), Width(e, fields));
      Nat(OperandsBits(More(e, others), fields, env)) == Nat(top) * Pow2(|rest|) + Nat(rest)
  {
    hide Nat, Pow2;
    var rest, top := OperandsBits(others, fields, env), Take(Eval(e, fields, env), Width(e, fields));
    NatAppend(rest, top);
    FieldNumbers.Commute(Nat(top), Pow2(|rest|));
  }
}
