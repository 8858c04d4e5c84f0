/** What the checksum is: the remainder of the message, as a polynomial over the two-element field, modulo the
    generator of section 8 of RFC 1952. A polynomial is a number whose bit i is the coefficient of x^i. */
module CrcRemainder {
  import opened Bytes
  import opened Crc32

  /** The generator by its powers. */
  function Generator(): nat {
    Pow2(32) + Pow2(26) + Pow2(23) + Pow2(22) + Pow2(16) + Pow2(12) + Pow2(11) + Pow2(10)
    + Pow2(8) + Pow2(7) + Pow2(5) + Pow2(4) + Pow2(2) + Pow2(1) + Pow2(0)
  }

  /** The product of two polynomials. */
  function Product(q: nat, g: nat): nat {
    if q == 0 then 0 else Xor(if q % 2 == 1 then g else 0, 2 * Product(q / 2, g))
  }

  ghost predicate Divisible(a: nat) {
    exists q: nat :: a == Product(q, Generator())
  }

  /** The n low bits of s in the opposite order. */
  function Reversed(s: nat, n: nat): nat
    decreases n
  {
    if n == 0 then 0 else (s % 2) * Pow2(n - 1) + Reversed(s / 2, n - 1)
  }

  /** The message: its first bit is the highest power, and every byte comes low bit first. */
  function MessagePolynomial(data: seq<byte>): nat {
    if data == [] then 0
    else Xor(Raise(Reversed(data[0], 8), 8 * (|data| - 1)), MessagePolynomial(data[1..]))
  }

  /** The message moved up by 32 places, its first 32 bits complemented. */
  function Dividend(data: seq<byte>): nat {
    Xor(Raise(0xFFFF_FFFF, 8 * |data|), Raise(MessagePolynomial(data), 32))
  }

  // ---------- multiples of the generator ----------

  lemma GeneratorValue()
    ensures Generator() == 0x1_04C1_1DB7
  {
    Pow2At32();
    assert Pow2(16) == 0x1_0000 && Pow2(23) == 0x80_0000 && Pow2(26) == 0x400_0000;
  }

  lemma XorDouble(a: nat, b: nat)
    ensures Xor(2 * a, 2 * b) == 2 * Xor(a, b)
  {
    hide Xor;
    XorHalf(2 * a, 2 * b);
    Doubled(0, a + b);
  }

  /** Regrouping a sum of four. */
  lemma XorFour(a: nat, b: nat, c: nat, d: nat)
    ensures Xor(Xor(a, b), Xor(c, d)) == Xor(Xor(a, c), Xor(b, d))
  {
    hide Xor;
    XorAssociates(a, b, Xor(c, d));
    XorAssociates(b, c, d);
    XorAssociates(c, b, d);
    XorCommutes(b, c);
    XorAssociates(a, c, Xor(b, d));
  }

  lemma XorSame(a: nat)
    ensures Xor(a, a) == 0
    decreases a
  {
    if a > 0 {
      XorSame(a / 2);
      XorHalf(a, a);
    }
  }

  /** One term of a product: g when the bit is set. */
  function Term(bit: nat, g: nat): nat {
    if bit % 2 == 1 then g else 0
  }

  lemma TermAdds(p: nat, q: nat, x: nat, g: nat)
    requires x % 2 == (p + q) % 2
    ensures Term(x, g) == Xor(Term(p, g), Term(q, g))
  {
    hide Xor;
    XorSame(g);
    XorZero(g);
    XorZero(0);
    XorCommutes(0, g);
  }

  lemma ProductTerm(q: nat, g: nat)
    ensures Product(q, g) == Xor(Term(q, g), 2 * Product(q / 2, g))
  {
    XorZero(0);
  }

  lemma {:induction false} ProductAdds(p: nat, q: nat, g: nat)
    ensures Product(Xor(p, q), g) == Xor(Product(p, g), Product(q, g))
    decreases p + q
  {
    hide Xor, Product, Term;
    if p + q == 0 {
      ProductTerm(0, g);
      XorZero(0);
      assert Product(0, g) == 0 by { ProductOfNothing(g); }
    } else {
      var a, b := Product(p / 2, g), Product(q / 2, g);
      ProductAdds(p / 2, q / 2, g);
      XorHalf(p, q);
      ProductTerm(p, g);
      ProductTerm(q, g);
      ProductTerm(Xor(p, q), g);
      TermAdds(p, q, Xor(p, q), g);
      XorDouble(a, b);
      XorFour(Term(p, g), Term(q, g), 2 * a, 2 * b);
    }
  }

  lemma ProductOfNothing(g: nat)
    ensures Product(0, g) == 0
  {
  }

  lemma DivisibleSum(a: nat, b: nat)
    requires Divisible(a) && Divisible(b)
    ensures Divisible(Xor(a, b))
  {
    hide Xor, Product, Generator;
    var p: nat :| a == Product(p, Generator());
    var q: nat :| b == Product(q, Generator());
    ProductAdds(p, q, Generator());
  }

  lemma {:induction false} DivisibleRaised(a: nat, n: nat)
    requires Divisible(a)
    ensures Divisible(Raise(a, n))
    decreases n
  {
    hide Xor, Product, Generator;
    if n > 0 {
      DivisibleRaised(a, n - 1);
      var q: nat :| Raise(a, n - 1) == Product(q, Generator());
      ProductDouble(q, Generator());
    }
  }

  lemma ProductDouble(q: nat, g: nat)
    ensures Product(2 * q, g) == 2 * Product(q, g)
  {
    hide Xor;
    ProductTerm(2 * q, g);
    XorCommutes(0, 2 * Product(q, g));
    XorZero(2 * Product(q, g));
  }

  lemma DivisibleBasics()
    ensures Divisible(0) && Divisible(Generator())
  {
    hide Xor, Generator;
    assert Product(0, Generator()) == 0;
    XorZero(Generator());
    assert Product(1, Generator()) == Xor(Generator(), 2 * Product(0, Generator()));
  }

  /** A multiple of the generator other than 0 reaches x^32. */
  lemma {:induction false} ProductReaches(q: nat)
    requires q > 0
    ensures Product(q, Generator()) >= U32_LIMIT
  {
    hide Xor, Product, Generator;
    var g := Generator();
    GeneratorValue();
    ProductTerm(q, g);
    var x := 2 * Product(q / 2, g);
    XorCommutes(0, x);
    XorZero(x);
    if q == 1 {
      ProductOfNothing(g);
      XorZero(g);
    } else {
      ProductReaches(q / 2);
      Pow2At32();
      assert Pow2(33) == 0x2_0000_0000;
      XorKeepsTop(g, x, 33);
    }
  }

  lemma SmallMultiple(a: nat)
    requires Divisible(a) && a < U32_LIMIT
    ensures a == 0
  {
    hide Product, Generator;
    var q: nat :| a == Product(q, Generator());
    if q > 0 {
      ProductReaches(q);
    } else {
      ProductOfNothing(Generator());
    }
  }

  // ---------- the opposite order ----------

  lemma {:induction false} ReversedBound(s: nat, n: nat)
    ensures Reversed(s, n) < Pow2(n)
    decreases n
  {
    if n > 0 {
      ReversedBound(s / 2, n - 1);
    }
  }

  /** A number that leaves its highest place free leaves the lowest place of its reversal free. */
  lemma {:induction false} ReversedTop(t: nat, n: nat)
    requires n > 0 && t < Pow2(n - 1)
    ensures Reversed(t, n) == 2 * Reversed(t, n - 1)
    decreases n
  {
    if n > 1 {
      ReversedTop(t / 2, n - 1);
      BitDouble(t % 2, Pow2(n - 2));
    }
  }

  lemma BitDouble(bit: nat, p: nat)
    requires bit < 2
    ensures bit * (2 * p) == 2 * (bit * p)
  {
  }

  lemma {:induction false} ReversedWider(t: nat, n: nat, k: nat)
    requires t < Pow2(n)
    ensures Reversed(t, n + k) == Raise(Reversed(t, n), k)
    decreases k
  {
    hide Reversed;
    if k > 0 {
      Pow2Grows(n, n + k - 1);
      ReversedTop(t, n + k);
      ReversedWider(t, n, k - 1);
    }
  }

  lemma {:induction false} Pow2Grows(m: nat, n: nat)
    requires m <= n
    ensures Pow2(m) <= Pow2(n)
    decreases n
  {
    if m < n {
      Pow2Grows(m, n - 1);
    }
  }

  /** A bit above everything else. */
  function Top(bit: nat, n: nat): nat {
    (bit % 2) * Pow2(n)
  }

  lemma TopAdds(a: nat, b: nat, x: nat, n: nat)
    requires x % 2 == (a + b) % 2
    ensures Top(x, n) == Xor(Top(a, n), Top(b, n))
  {
    hide Xor;
    XorSame(Pow2(n));
    XorZero(Pow2(n));
    XorZero(0);
    XorCommutes(0, Pow2(n));
  }

  lemma {:induction false} RaisedOne(n: nat)
    ensures Raise(1, n) == Pow2(n)
  {
    if n > 0 {
      RaisedOne(n - 1);
    }
  }

  lemma TopValue(s: nat, n: nat)
    ensures Top(s, n) == if s % 2 == 1 then Pow2(n) else 0
    ensures Reversed(s, n + 1) == Top(s, n) + Reversed(s / 2, n)
  {
  }

  lemma ReversedParts(s: nat, n: nat)
    ensures Reversed(s, n + 1) == Xor(Top(s, n), Reversed(s / 2, n))
  {
    hide Xor, Pow2, Raise, Reversed, Top;
    var low := Reversed(s / 2, n);
    TopValue(s, n);
    ReversedBound(s / 2, n);
    RaisedOne(n);
    XorSplits(low, 1, n);
    XorCommutes(low, Pow2(n));
    XorCommutes(low, 0);
    XorZero(low);
  }

  lemma {:induction false} ReversedAdds(a: nat, b: nat, n: nat)
    ensures Reversed(Xor(a, b), n) == Xor(Reversed(a, n), Reversed(b, n))
    decreases n
  {
    hide Xor, Top;
    if n == 0 {
      XorZero(0);
    } else {
      hide Reversed;
      var m := n - 1;
      XorHalf(a, b);
      ReversedAdds(a / 2, b / 2, m);
      ReversedParts(a, m);
      ReversedParts(b, m);
      ReversedParts(Xor(a, b), m);
      TopAdds(a, b, Xor(a, b), m);
      XorFour(Top(a, m), Top(b, m), Reversed(a / 2, m), Reversed(b / 2, m));
    }
  }

  lemma {:induction false} ReversedInjective(a: nat, b: nat, n: nat)
    requires a < Pow2(n) && b < Pow2(n) && Reversed(a, n) == Reversed(b, n)
    ensures a == b
    decreases n
  {
    if n > 0 {
      ReversedBound(a / 2, n - 1);
      ReversedBound(b / 2, n - 1);
      SameBit(a % 2, b % 2, Pow2(n - 1), Reversed(a / 2, n - 1), Reversed(b / 2, n - 1));
      ReversedInjective(a / 2, b / 2, n - 1);
    }
  }

  lemma SameBit(a: nat, b: nat, p: nat, x: nat, y: nat)
    requires a < 2 && b < 2 && x < p && y < p && a * p + x == b * p + y
    ensures a == b && x == y
  {
  }

  // ---------- the register is a remainder ----------

  /** The register's polynomial. */
  function Register(s: nat): nat {
    Reversed(s, 32)
  }

  lemma PolynomialReversed()
    ensures Register(POLYNOMIAL) == 0x04C1_1DB7
  {
    Pow2At32();
    HighHalfReversed();
    assert Reversed(0xE_DB88, 20) == 0x1_1DB7;
    assert Reversed(0xED_B883, 24) == 0xC1_1DB7;
    assert Reversed(0xEDB_8832, 28) == 0x4C1_1DB7;
  }

  lemma HighHalfReversed()
    ensures Reversed(0xEDB8, 16) == 0x1DB7
  {
    assert Reversed(0xE, 4) == 0x7;
    assert Reversed(0xED, 8) == 0xB7;
    assert Reversed(0xEDB, 12) == 0xDB7;
  }

  lemma CongruentTrans(a: nat, b: nat, c: nat)
    requires Divisible(Xor(a, b)) && Divisible(Xor(b, c))
    ensures Divisible(Xor(a, c))
  {
    hide Xor, Divisible;
    DivisibleSum(Xor(a, b), Xor(b, c));
    XorAssociates(a, b, Xor(b, c));
    XorAssociates(b, b, c);
    XorSame(b);
    XorCommutes(0, c);
    XorZero(c);
  }

  /** One step of the register multiplies by x, modulo the generator. */
  lemma BitStepTimesX(s: nat)
    requires s < U32_LIMIT
    ensures Divisible(Xor(2 * Register(s), Register(BitStep(s))))
  {
    hide Xor, Reversed, Divisible, Generator;
    var t := s / 2;
    Pow2At32();
    DivisibleBasics();
    ReversedTop(t, 32);
    ReversedParts(s, 31);
    ReversedBound(t, 31);
    var r := Reversed(t, 31);
    if s % 2 == 0 {
      XorCommutes(0, r);
      XorZero(r);
      XorSame(2 * r);
    } else {
      assert Top(s, 31) == 0x8000_0000;
      XorDouble(0x8000_0000, r);
      ReversedAdds(t, POLYNOMIAL, 32);
      PolynomialReversed();
      GeneratorValue();
      OddStep(2 * r);
    }
  }

  /** The lowest bit of the register leaves it as x^32 and comes back as the rest of the generator. */
  lemma OddStep(x: nat)
    ensures Xor(Xor(0x1_0000_0000, x), Xor(x, 0x04C1_1DB7)) == 0x1_04C1_1DB7
  {
    hide Xor;
    XorAssociates(0x1_0000_0000, x, Xor(x, 0x04C1_1DB7));
    XorAssociates(x, x, 0x04C1_1DB7);
    XorSame(x);
    XorCommutes(0, 0x04C1_1DB7);
    XorZero(0x04C1_1DB7);
    Pow2At32();
    RaisedOne(32);
    XorSplits(0x04C1_1DB7, 1, 32);
    XorCommutes(0x04C1_1DB7, 0x1_0000_0000);
  }

  lemma {:induction false} BitStepsTimesX(s: nat, n: nat)
    requires s < U32_LIMIT
    ensures Divisible(Xor(Raise(Register(s), n), Register(BitSteps(s, n))))
    decreases n
  {
    hide Xor, Register, Divisible, BitStep;
    if n == 0 {
      XorSame(Register(s));
      DivisibleBasics();
    } else {
      BitStepBound(s);
      BitStepTimesX(s);
      BitStepsTimesX(BitStep(s), n - 1);
      RaiseAdds(2 * Register(s), Register(BitStep(s)), n - 1);
      DivisibleRaised(Xor(2 * Register(s), Register(BitStep(s))), n - 1);
      RaiseDouble(Register(s), n - 1);
      CongruentTrans(Raise(Register(s), n), Raise(Register(BitStep(s)), n - 1), Register(BitSteps(s, n)));
    }
  }

  lemma {:induction false} RaiseAdds(a: nat, b: nat, n: nat)
    ensures Raise(Xor(a, b), n) == Xor(Raise(a, n), Raise(b, n))
    decreases n
  {
    hide Xor;
    if n > 0 {
      RaiseAdds(a, b, n - 1);
      XorDouble(Raise(a, n - 1), Raise(b, n - 1));
    }
  }

  lemma {:induction false} RaiseDouble(a: nat, n: nat)
    ensures Raise(2 * a, n) == Raise(a, n + 1)
    decreases n
  {
    if n > 0 {
      RaiseDouble(a, n - 1);
    }
  }

  lemma {:induction false} RaiseTwice(a: nat, m: nat, n: nat)
    ensures Raise(Raise(a, m), n) == Raise(a, m + n)
    decreases n
  {
    if n > 0 {
      RaiseTwice(a, m, n - 1);
    }
  }

  /** What is still to be divided once the register holds s and data is to come. */
  function Remaining(s: nat, data: seq<byte>): nat {
    Xor(Raise(Register(s), 8 * |data|), Raise(MessagePolynomial(data), 32))
  }

  /** A byte taken from the message joins the top of the register. */
  lemma RemainingFirst(s: nat, data: seq<byte>)
    requires s < U32_LIMIT && data != []
    ensures Remaining(s, data) ==
            Xor(Raise(Raise(Register(Xor(s, data[0])), 8), 8 * |data[1..]|),
                Raise(MessagePolynomial(data[1..]), 32))
  {
    hide Xor, Reversed, Raise;
    var n, b, rest := 8 * |data[1..]|, data[0], MessagePolynomial(data[1..]);
    var message := Raise(Reversed(b, 8), n);
    RaiseAdds(message, rest, 32);
    Pow2At32();
    ReversedWider(b, 8, 24);
    RaiseTwice(Reversed(b, 8), n, 32);
    RaiseTwice(Reversed(b, 8), 24, 8 + n);
    assert Raise(message, 32) == Raise(Register(b), 8 + n);
    ReversedAdds(s, b, 32);
    RaiseAdds(Register(s), Register(b), 8 + n);
    RaiseTwice(Register(Xor(s, b)), 8, n);
    XorAssociates(Raise(Register(s), 8 + n), Raise(Register(b), 8 + n), Raise(rest, 32));
  }

  lemma {:induction false} UpdateIsRemainder(s: nat, data: seq<byte>)
    requires s < U32_LIMIT
    ensures Divisible(Xor(Remaining(s, data), Register(Update(s, data))))
    decreases |data|
  {
    hide Xor, Register, Divisible, BitSteps, Raise;
    if data == [] {
      NothingRemaining(s);
    } else {
      var t := ByteStep(s, data[0]);
      ByteStepBound(s, data[0]);
      UpdateIsRemainder(t, data[1..]);
      RemainingStep(s, data);
      CongruentTrans(Remaining(s, data), Remaining(t, data[1..]), Register(Update(s, data)));
    }
  }

  lemma NothingRemaining(s: nat)
    ensures Divisible(Xor(Remaining(s, []), Register(s)))
  {
    hide Xor, Register, Divisible;
    RaisedNothing(32);
    XorZero(Register(s));
    XorSame(Register(s));
    DivisibleBasics();
  }

  lemma {:induction false} RaisedNothing(n: nat)
    ensures Raise(0, n) == 0
  {
    if n > 0 {
      RaisedNothing(n - 1);
    }
  }

  lemma RemainingStep(s: nat, data: seq<byte>)
    requires s < U32_LIMIT && data != []
    ensures Divisible(Xor(Remaining(s, data), Remaining(ByteStep(s, data[0]), data[1..])))
  {
    hide Xor, Register, Divisible, BitSteps, Raise, MessagePolynomial;
    var b, n, rest := data[0], 8 * |data[1..]|, Raise(MessagePolynomial(data[1..]), 32);
    RemainingFirst(s, data);
    Pow2At32();
    XorBound(s, b, 32);
    BitStepsTimesX(Xor(s, b), 8);
    var x, y := Raise(Register(Xor(s, b)), 8), Register(ByteStep(s, b));
    DivisibleRaised(Xor(x, y), n);
    RaiseAdds(x, y, n);
    XorFour(Raise(x, n), rest, Raise(y, n), rest);
    XorSame(rest);
    XorZero(Xor(Raise(x, n), Raise(y, n)));
  }

  lemma {:induction false} OnesReversed(n: nat)
    ensures Reversed(Pow2(n) - 1, n) == Pow2(n) - 1
  {
    if n > 0 {
      OnesReversed(n - 1);
      Halved(Pow2(n - 1));
    }
  }

  lemma Halved(p: nat)
    requires p > 0
    ensures (2 * p - 1) / 2 == p - 1 && (2 * p - 1) % 2 == 1
  {
  }

  /** The checksum of data is the one number whose complement, read with the low bit as the highest power, is the
      remainder of the dividend modulo the generator. */
  lemma ChecksumIsRemainder(data: seq<byte>, c: u32)
    ensures c == Checksum(data) <==> Divisible(Xor(Dividend(data), Reversed(0xFFFF_FFFF - c, 32)))
  {
    hide Xor, Reversed, Divisible, Update, Raise, MessagePolynomial;
    var s := 0xFFFF_FFFF - Checksum(data);
    var d, r, t := Dividend(data), Register(s), Register(0xFFFF_FFFF - c);
    Pow2At32();
    OnesReversed(32);
    UpdateBound(0xFFFF_FFFF, data);
    ReversedBound(s, 32);
    ReversedBound(0xFFFF_FFFF - c, 32);
    UpdateIsRemainder(0xFFFF_FFFF, data);
    if Divisible(Xor(d, t)) {
      XorCommutes(d, r);
      CongruentTrans(r, d, t);
      OneRemainder(r, t);
      ReversedInjective(s, 0xFFFF_FFFF - c, 32);
    }
  }

  lemma OneRemainder(r: nat, t: nat)
    requires Divisible(Xor(r, t)) && r < U32_LIMIT && t < U32_LIMIT
    ensures r == t
  {
    hide Xor, Divisible;
    Pow2At32();
    XorBound(r, t, 32);
    SmallMultiple(Xor(r, t));
    XorSame(t);
    XorCancels(r, t, t);
  }
}
