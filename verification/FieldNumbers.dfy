/** Field expressions and constraints as numbers: what they read of an opcode, by division
    and remainder. */
module FieldNumbers {
  import opened Bits
  import opened Wrappers
  import opened FieldExpressions

  // ----- slices of a number -----

  lemma MoreIsMore(a: nat, b: nat, q: nat)
    requires a <= b
    ensures a * q <= b * q
  {
  }

  lemma SameDigits(a: nat, b: nat, a': nat, b': nat, q: nat)
    requires b < q && b' < q
    ensures a * q + b == a' * q + b' <==> a == a' && b == b'
  {
    if a < a' {
      MoreIsMore(a + 1, a', q);
      assert (a + 1) * q == a * q + q;
    } else if a' < a {
      MoreIsMore(a' + 1, a, q);
      assert (a' + 1) * q == a' * q + q;
    }
  }

  /** `high` in front of `low`, which is below `q`. */
  function Placed(high: nat, q: nat, low: nat): nat {
    high * q + low
  }

  lemma SamePlaces(a: nat, b: nat, a': nat, b': nat, q: nat)
    requires b < q && b' < q
    ensures Placed(a, q, b) == Placed(a', q, b') <==> a == a' && b == b'
  {
    SameDigits(a, b, a', b', q);
  }

  /** Quotient and remainder are the digits. */
  lemma DigitsOf(m: nat, a: nat, p: nat)
    requires a < p
    ensures (m * p + a) / p == m && (m * p + a) % p == a
  {
    var n := m * p + a;
    var q, r := n / p, n % p;
    assert n == q * p + r;
    SameDigits(q, r, m, a, p);
  }

  /** Bits `low` up to `high` of a word, as a number. */
  lemma SliceNumber(x: Bits, low: nat, high: nat)
    requires low <= high <= |x|
    ensures Nat(x[low..high]) == Nat(x) / Pow2(low) % Pow2(high - low)
  {
    hide Nat, Pow2;
    var a, b, c := x[..low], x[low..high], x[high..];
    assert x == a + (b + c);
    NatAppend(a, b + c);
    NatAppend(b, c);
    NatBound(a);
    NatBound(b);
    MiddleDigit(Nat(a), Pow2(low), Nat(b), Pow2(high - low), Nat(c));
  }

  lemma MiddleDigit(a: nat, p: nat, b: nat, q: nat, c: nat)
    requires a < p && b < q
    ensures (a + p * (b + q * c)) / p % q == b
  {
    var m := c * q + b;
    DigitsOf(c, b, q);
    DigitsOf(m, a, p);
    Commute(c, q);
    Commute(m, p);
    assert a + p * (b + q * c) == m * p + a;
  }

  lemma Commute(a: nat, b: nat)
    ensures a * b == b * a
  {
  }

  // ----- expressions -----

  /** How many bits a term names. */
  function TermWidth(d: Diagram, t: Term): int
    requires t.name in d
  {
    if t.Slice? then t.hi - t.lo + 1 else d[t.name].size
  }

  /** What a term reads of the number `n`. */
  function TermNumber(d: Diagram, t: Term, n: nat): nat
    requires t.name in d && TermWidth(d, t) >= 0
  {
    n / Pow2(d[t.name].pos + (if t.Slice? then t.lo else 0)) % Pow2(TermWidth(d, t))
  }

  /** The terms one after the other, each below those before it. */
  function Number(d: Diagram, terms: seq<Term>, n: nat): nat
    requires DiagramOk(d) && Known(d, terms) && TermsOk(d, terms)
  {
    if terms == [] then 0
    else
      var t := terms[|terms| - 1];
      TermRange(d, t);
      Number(d, terms[..|terms| - 1], n) * Pow2(TermWidth(d, t)) + TermNumber(d, t, n)
  }

  function Widths(d: Diagram, terms: seq<Term>): int
    requires Known(d, terms)
  {
    if terms == [] then 0 else Widths(d, terms[..|terms| - 1]) + TermWidth(d, terms[|terms| - 1])
  }

  /** The concatenation is that number, and as wide as its terms. */
  lemma {:induction false} ConcatenationNumber(d: Diagram, terms: seq<Term>, opcode: Bits)
    requires DiagramOk(d) && Known(d, terms) && TermsOk(d, terms) && |opcode| == WIDTH
    ensures Nat(Concatenation(d, terms, opcode)) == Number(d, terms, Nat(opcode))
    ensures |Concatenation(d, terms, opcode)| == Widths(d, terms) == TotalSize(d, terms)
  {
    if terms != [] {
      hide Nat, Pow2, DiagramOk, TermNumber, Low, High, TermWidth;
      var t := terms[|terms| - 1];
      var rest := Concatenation(d, terms[..|terms| - 1], opcode);
      ConcatenationNumber(d, terms[..|terms| - 1], opcode);
      TermRange(d, t);
      OneTerm(d, t, opcode);
      NatAppend(opcode[Low(d, t)..High(d, t)], rest);
      Commute(Pow2(TermWidth(d, t)), Nat(rest));
    }
  }

  lemma OneTerm(d: Diagram, t: Term, opcode: Bits)
    requires DiagramOk(d) && t.name in d && TermOk(d, t) && |opcode| == WIDTH
    ensures Low(d, t) < High(d, t) <= WIDTH && High(d, t) - Low(d, t) == TermWidth(d, t)
    ensures Nat(opcode[Low(d, t)..High(d, t)]) == TermNumber(d, t, Nat(opcode))
  {
    hide Nat, Pow2;
    TermRange(d, t);
    SliceNumber(opcode, Low(d, t), High(d, t));
  }

  // ----- constraints -----

  function FieldNumber(f: Field, n: nat): nat {
    n / Pow2(f.pos) % Pow2(f.size)
  }

  /** The fields of a pattern, the first most significant. */
  function NamesNumber(d: Diagram, names: seq<string>, n: nat): nat
    requires forall name :: name in names ==> name in d
  {
    if names == [] then 0
    else
      Placed(FieldNumber(d[names[0]], n), Pow2(NamesSize(d, names[1..])), NamesNumber(d, names[1..], n))
  }

  /** The number a string of binary digits stands for. */
  function BinaryNumber(s: string): nat {
    if s == "" then 0 else 2 * BinaryNumber(s[..|s| - 1]) + (if s[|s| - 1] == '1' then 1 else 0)
  }

  predicate IsBinary(s: string) {
    forall c :: c in s ==> c == '0' || c == '1'
  }

  /** The digits as bits, the last one lowest. */
  function DigitBits(s: string): (x: Bits)
    ensures |x| == |s|
  {
    seq(|s|, i requires 0 <= i < |s| => s[|s| - 1 - i] == '1')
  }

  lemma {:induction false} DigitsNumber(s: string)
    ensures Nat(DigitBits(s)) == BinaryNumber(s)
  {
    if s != "" {
      DigitsNumber(s[..|s| - 1]);
      assert DigitBits(s)[1..] == DigitBits(s[..|s| - 1]);
    }
  }

  lemma DigitsSplit(s: string, k: nat)
    requires k <= |s|
    ensures BinaryNumber(s) == Placed(BinaryNumber(s[..k]), Pow2(|s| - k), BinaryNumber(s[k..]))
    ensures BinaryNumber(s[k..]) < Pow2(|s| - k)
  {
    hide Nat, Pow2, BinaryNumber;
    DigitsNumber(s);
    DigitsNumber(s[..k]);
    DigitsNumber(s[k..]);
    assert DigitBits(s) == DigitBits(s[k..]) + DigitBits(s[..k]);
    NatAppend(DigitBits(s[k..]), DigitBits(s[..k]));
    NatBound(DigitBits(s[k..]));
  }

  lemma {:induction false} NamesBound(d: Diagram, names: seq<string>, n: nat)
    requires forall name :: name in names ==> name in d
    ensures NamesNumber(d, names, n) < Pow2(NamesSize(d, names))
  {
    if names != [] {
      hide Pow2;
      var f := d[names[0]];
      NamesBound(d, names[1..], n);
      PowersMultiply(f.size, NamesSize(d, names[1..]));
      DigitsBelow(FieldNumber(f, n), Pow2(f.size), NamesNumber(d, names[1..], n), Pow2(NamesSize(d, names[1..])));
    } else {
      assert Pow2(0) == 1;
    }
  }

  lemma {:induction false} PowersMultiply(a: nat, b: nat)
    ensures Pow2(a) * Pow2(b) == Pow2(a + b)
  {
    if a > 0 {
      PowersMultiply(a - 1, b);
      assert Pow2(a) * Pow2(b) == 2 * (Pow2(a - 1) * Pow2(b));
    }
  }

  lemma DigitsBelow(a: nat, p: nat, b: nat, q: nat)
    requires a < p && b < q
    ensures a * q + b < p * q
  {
    assert a * q + q == (a + 1) * q;
    MoreIsMore(a + 1, p, q);
  }

  predicate FieldAgrees(f: Field, digits: string, opcode: Word)
    requires f.pos + f.size <= 64 && f.size <= |digits|
  {
    forall i :: 0 <= i < f.size ==>
      (digits[i] == '1' ==> opcode[f.pos + f.size - 1 - i]) && (digits[i] == '0' ==> !opcode[f.pos + f.size - 1 - i])
  }

  lemma AgreesHead(d: Diagram, names: seq<string>, digits: string, opcode: Word)
    requires DiagramOk(d) && names != [] && (forall name :: name in names ==> name in d)
    requires NamesSize(d, names) <= |digits|
    ensures d[names[0]].pos + d[names[0]].size <= 64
    ensures var f := d[names[0]];
      Agrees(d, names, digits, opcode)
      <==> FieldAgrees(f, digits[..f.size], opcode) && Agrees(d, names[1..], digits[f.size..], opcode)
  {
    var f := d[names[0]];
    assert forall i :: 0 <= i < f.size ==> digits[..f.size][i] == digits[i];
  }

  /** One field agrees with as many digits just when it is their number. */
  lemma FieldIsNumber(f: Field, digits: string, opcode: Word)
    requires f.pos + f.size <= 64 && |digits| == f.size && IsBinary(digits)
    ensures FieldAgrees(f, digits, opcode) <==> FieldNumber(f, Nat(opcode)) == BinaryNumber(digits)
  {
    hide Nat, Pow2, BinaryNumber;
    var x, y := opcode[f.pos..f.pos + f.size], DigitBits(digits);
    SliceNumber(opcode, f.pos, f.pos + f.size);
    DigitsNumber(digits);
    if Nat(x) == Nat(y) {
      NatInjective(x, y);
      forall i | 0 <= i < f.size
        ensures opcode[f.pos + f.size - 1 - i] == (digits[i] == '1')
      {
        assert x[f.size - 1 - i] == y[f.size - 1 - i];
        assert digits[i] in digits;
      }
    }
    if FieldAgrees(f, digits, opcode) {
      forall j | 0 <= j < f.size
        ensures x[j] == y[j]
      {
        assert digits[f.size - 1 - j] in digits;
      }
      assert x == y;
    }
  }

  /** Without x, an opcode agrees with a pattern exactly when the number of its fields is
      that of the digits. */
  lemma {:induction false} AgreesNumber(d: Diagram, names: seq<string>, digits: string, opcode: Word)
    requires DiagramOk(d) && (forall name :: name in names ==> name in d)
    requires NamesSize(d, names) == |digits| && IsBinary(digits)
    ensures Agrees(d, names, digits, opcode) <==> NamesNumber(d, names, Nat(opcode)) == BinaryNumber(digits)
  {
    if names == [] {
      assert digits == "";
    } else {
      hide Nat, Pow2, BinaryNumber, DiagramOk, FieldNumber, FieldAgrees, Agrees, Placed;
      var f := d[names[0]];
      var head, tail := digits[..f.size], digits[f.size..];
      assert forall c :: c in head || c in tail ==> c in digits;
      AgreesHead(d, names, digits, opcode);
      AgreesNumber(d, names[1..], tail, opcode);
      FieldIsNumber(f, head, opcode);
      DigitsSplit(digits, f.size);
      NamesBound(d, names[1..], Nat(opcode));
      SamePlaces(FieldNumber(f, Nat(opcode)), NamesNumber(d, names[1..], Nat(opcode)),
                 BinaryNumber(head), BinaryNumber(tail), Pow2(|tail|));
    }
  }
}
