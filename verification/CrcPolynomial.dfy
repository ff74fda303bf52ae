// What the checksum means.

module CrcPolynomial {
  // The register of Crc.dfy is the remainder of the message modulo the polynomial of CRC-32 (section 8
  // of RFC 1952).  A polynomial is the set of the exponents whose coefficient is 1.

  import opened Bytes
  import opened Crc

  ghost function Plus(p: set<nat>, q: set<nat>): (r: set<nat>)
    ensures forall e :: e in r <==> (e in p) != (e in q)
  {
    (p - q) + (q - p)
  }

  /** The product with x^n. */
  ghost function Raised(p: set<nat>, n: nat): (r: set<nat>)
    ensures forall e :: e in r <==> n <= e && e - n in p
  {
    var r := set e | e in p :: e + n;
    assert forall e | n <= e && e - n in p :: e == (e - n) + n && e in r;
    r
  }

  /** x^32 + x^26 + x^23 + x^22 + x^16 + x^12 + x^11 + x^10 + x^8 + x^7 + x^5 + x^4 + x^2 + x + 1. */
  const GENERATOR: seq<nat> := [32, 26, 23, 22, 16, 12, 11, 10, 8, 7, 5, 4, 2, 1, 0]

  ghost function Sum(p: set<nat>, exponents: seq<nat>): set<nat> {
    if exponents == [] then {} else Plus(Raised(p, exponents[0]), Sum(p, exponents[1..]))
  }

  /** The product with the generator. */
  ghost function Product(p: set<nat>): set<nat> {
    Sum(p, GENERATOR)
  }

  // ----- registers, bytes and messages as polynomials -----

  predicate Odd(r: bv32) {
    r & 1 != 0
  }

  function Half(r: bv32): bv32 {
    r >> 1
  }

  function DropFour(r: bv32): bv32 {
    r >> 4
  }

  /** Bit d, counted from the lowest. */
  predicate BitAt(r: bv32, d: nat) {
    if d == 0 then Odd(r) else BitAt(Half(r), d - 1)
  }

  /** The last n bits: the lowest is the highest power. */
  ghost function Bits(r: bv32, n: nat): set<nat> {
    set e: nat {:trigger BitAt(r, n - 1 - e)} | e < n && BitAt(r, n - 1 - e)
  }

  ghost function Poly(r: bv32): set<nat> {
    Bits(r, 32)
  }

  ghost function BytePoly(b: byte): set<nat> {
    Bits(b as bv32, 8)
  }

  /** The bytes one after another, the first byte the most significant. */
  ghost function Message(s: str): set<nat> {
    if s == [] then {} else Plus(Raised(Message(s[..|s| - 1]), 8), BytePoly(s[|s| - 1]))
  }

  // ----- bits -----

  lemma XorHalf(a: bv32, b: bv32)
    ensures Half(Xor(a, b)) == Xor(Half(a), Half(b))
  {
    hide BitAt;
  }

  lemma XorOdd(a: bv32, b: bv32)
    ensures Odd(Xor(a, b)) <==> Odd(a) != Odd(b)
  {}

  lemma {:induction false} XorBit(a: bv32, b: bv32, d: nat)
    ensures BitAt(Xor(a, b), d) <==> BitAt(a, d) != BitAt(b, d)
    decreases d
  {
    hide Xor, Half, Odd;
    XorHalf(a, b);
    XorOdd(a, b);
    if d > 0 {
      XorBit(Half(a), Half(b), d - 1);
    }
  }

  /** Only the last n bits can be set. */
  predicate Fits(r: bv32, n: nat) {
    if n == 0 then r == 0 else Fits(Half(r), n - 1)
  }

  lemma {:induction false} FitsHasNoBit(r: bv32, n: nat, d: nat)
    requires n <= d && Fits(r, n)
    ensures !BitAt(r, d)
    decreases d
  {
    ZeroHasNoBit();
    hide Half, Odd;
    if d > 0 {
      FitsHasNoBit(Half(r), if n == 0 then 0 else n - 1, d - 1);
    }
  }

  lemma ZeroHasNoBit()
    ensures !Odd(0) && Half(0) == 0
  {}

  lemma ZeroOnly(r: bv32)
    ensures !Odd(r) && Half(r) == 0 ==> r == 0
  {}

  lemma {:induction false} NoBitsIsZero(r: bv32, n: nat)
    requires Fits(r, n) && forall d :: 0 <= d < n ==> !BitAt(r, d)
    ensures r == 0
    decreases n
  {
    ZeroOnly(r);
    hide Half, Odd;
    if n > 0 {
      forall d {:trigger BitAt(Half(r), d)} | 0 <= d < n - 1
        ensures !BitAt(Half(r), d)
      {
        assert !BitAt(r, d + 1);
      }
      NoBitsIsZero(Half(r), n - 1);
      assert !BitAt(r, 0);
    }
  }

  lemma FitsFour(r: bv32, n: nat)
    requires n >= 4
    ensures Fits(r, n) == Fits(DropFour(r), n - 4)
  {
    HalfFour(r);
    hide Half, DropFour;
    assert Fits(r, n) == Fits(Half(r), n - 1) == Fits(Half(Half(r)), n - 2) == Fits(Half(Half(Half(r))), n - 3);
  }

  lemma HalfFour(r: bv32)
    ensures Half(Half(Half(Half(r)))) == DropFour(r)
  {}

  lemma AlwaysFits(r: bv32, b: byte)
    ensures Fits(r, 32) && Fits(b as bv32, 8)
  {
    EightDigits(r, b);
    hide Fits, DropFour;
    FitsFour(r, 32);
    FitsFour(DropFour(r), 28);
    FitsFour(DropFour(DropFour(r)), 24);
    FitsFour(DropFour(DropFour(DropFour(r))), 20);
    FitsFour(DropFour(DropFour(DropFour(DropFour(r)))), 16);
    FitsFour(DropFour(DropFour(DropFour(DropFour(DropFour(r))))), 12);
    FitsFour(DropFour(DropFour(DropFour(DropFour(DropFour(DropFour(r)))))), 8);
    FitsFour(DropFour(DropFour(DropFour(DropFour(DropFour(DropFour(DropFour(r))))))), 4);
    FitsFour(b as bv32, 8);
    FitsFour(DropFour(b as bv32), 4);
    NothingFits();
  }

  lemma NothingFits()
    ensures Fits(0, 0)
  {}

  lemma EightDigits(r: bv32, b: byte)
    ensures DropFour(DropFour(DropFour(DropFour(DropFour(DropFour(DropFour(DropFour(r)))))))) == 0
    ensures DropFour(DropFour(b as bv32)) == 0
  {}

  lemma FourBitsAt(r: bv32, d: nat)
    ensures d >= 4 ==> BitAt(r, d) == BitAt(DropFour(r), d - 4)
    ensures d < 4 ==> BitAt(r, d) == Digit(r, d)
  {
    HalfFour(r);
    FourDigits(r);
    hide Half, Odd, DropFour, Digit;
    var r1, r2, r3 := Half(r), Half(Half(r)), Half(Half(Half(r)));
    if d >= 4 {
      assert BitAt(r, d) == BitAt(r1, d - 1) == BitAt(r2, d - 2) == BitAt(r3, d - 3);
    } else if d == 3 {
      assert BitAt(r, 3) == BitAt(r1, 2) == BitAt(r2, 1) == BitAt(r3, 0);
    } else if d == 2 {
      assert BitAt(r, 2) == BitAt(r1, 1) == BitAt(r2, 0);
    }
  }

  predicate Digit(r: bv32, d: nat)
    requires d < 4
  {
    if d == 0 then r & 1 != 0 else if d == 1 then r & 2 != 0 else if d == 2 then r & 4 != 0 else r & 8 != 0
  }

  lemma FourDigits(r: bv32)
    ensures Digit(r, 0) == Odd(r) && Digit(r, 1) == Odd(Half(r))
    ensures Digit(r, 2) == Odd(Half(Half(r))) && Digit(r, 3) == Odd(Half(Half(Half(r))))
  {
    hide BitAt, Fits;
    SecondDigit(r);
    ThirdDigit(r);
    FourthDigit(r);
    hide Half;
  }

  lemma SecondDigit(r: bv32)
    ensures Odd(Half(r)) <==> r & 2 != 0
  {}

  lemma ThirdDigit(r: bv32)
    ensures Odd(Half(Half(r))) <==> r & 4 != 0
  {}

  lemma FourthDigit(r: bv32)
    ensures Odd(Half(Half(Half(r)))) <==> r & 8 != 0
  {}

  lemma Dropped()
    ensures DropFour(0xEDB8_8320) == 0x0EDB_8832
    ensures DropFour(0x0EDB_8832) == 0x00ED_B883
    ensures DropFour(0x00ED_B883) == 0x000E_DB88
    ensures DropFour(0x000E_DB88) == 0x0000_EDB8
    ensures DropFour(0x0000_EDB8) == 0x0000_0EDB
    ensures DropFour(0x0000_0EDB) == 0x0000_00ED
    ensures DropFour(0x0000_00ED) == 0x0000_000E
  {}

  /** The constant of the code is the generator without x^32. */
  lemma PolynomialIsGenerator(e: nat)
    requires e < 32
    ensures e in Poly(POLYNOMIAL) <==> e in GENERATOR
  {
    hide BitAt, DropFour;
    Dropped();
    var d := 31 - e;
    FourBitsAt(POLYNOMIAL, d);
    if d >= 4 {
      FourBitsAt(0x0EDB_8832, d - 4);
    }
    if d >= 8 {
      FourBitsAt(0x00ED_B883, d - 8);
    }
    if d >= 12 {
      FourBitsAt(0x000E_DB88, d - 12);
    }
    if d >= 16 {
      FourBitsAt(0x0000_EDB8, d - 16);
    }
    if d >= 20 {
      FourBitsAt(0x0000_0EDB, d - 20);
    }
    if d >= 24 {
      FourBitsAt(0x0000_00ED, d - 24);
    }
    if d >= 28 {
      FourBitsAt(0x0000_000E, d - 28);
    }
  }

  // ----- one shift is one multiplication by x -----

  lemma ShiftIsXor(r: bv32)
    ensures Shift(r) == if Odd(r) then Xor(Half(r), POLYNOMIAL) else Half(r)
  {}

  lemma ShiftBit(r: bv32, e: nat)
    requires e < 32
    ensures e in Poly(Shift(r)) <==> (e > 0 && e - 1 in Poly(r)) != (31 in Poly(r) && e in GENERATOR)
  {
    ShiftIsXor(r);
    PolynomialIsGenerator(e);
    XorBit(Half(r), POLYNOMIAL, 31 - e);
    TopBitOfHalf(r);
    hide Shift, Xor, Half, Odd;
    assert BitAt(r, 0) == Odd(r);
    assert BitAt(r, 32 - e) == BitAt(Half(r), 31 - e);
  }

  lemma TopBitOfHalf(r: bv32)
    ensures !BitAt(Half(r), 31)
  {
    AlwaysFits(r, 0);
    hide Half, Odd;
    FitsHasNoBit(Half(r), 31, 31);
  }

  lemma PolyOfXor(a: bv32, b: bv32)
    ensures Poly(Xor(a, b)) == Plus(Poly(a), Poly(b))
  {
    hide Xor, BitAt;
    forall e: nat
      ensures e in Poly(Xor(a, b)) <==> e in Plus(Poly(a), Poly(b))
    {
      if e < 32 {
        XorBit(a, b, 31 - e);
      }
    }
  }

  lemma GeneratorDescends()
    ensures Descending(GENERATOR)
  {
    assert Descending([12, 11, 10, 8, 7, 5, 4, 2, 1, 0]) by {
      assert Descending([5, 4, 2, 1, 0]);
    }
  }

  lemma ProductOfOne(e: nat)
    ensures e in Product({0}) <==> e in GENERATOR
  {
    hide Sum;
    GeneratorDescends();
    SumOfOne(e, GENERATOR);
  }

  predicate Descending(s: seq<nat>) {
    |s| < 2 || (s[0] > s[1] && Descending(s[1..]))
  }

  lemma {:induction false} SumOfOne(e: nat, exponents: seq<nat>)
    requires Descending(exponents)
    ensures e in Sum({0}, exponents) <==> e in exponents
    ensures e in exponents ==> e <= exponents[0]
  {
    if exponents != [] {
      SumOfOne(e, exponents[1..]);
      assert exponents == [exponents[0]] + exponents[1..];
    }
  }

  lemma {:induction false} SumOfNothing(exponents: seq<nat>)
    ensures Sum({}, exponents) == {}
  {
    if exponents != [] {
      SumOfNothing(exponents[1..]);
    }
  }

  /** Multiplying by x and, if that gives x^32, subtracting the generator. */
  lemma PolyOfShift(r: bv32)
    ensures Raised(Poly(r), 1) == Plus(Product(if 31 in Poly(r) then {0} else {}), Poly(Shift(r)))
  {
    hide Shift, BitAt, Sum;
    SumOfNothing(GENERATOR);
    forall e: nat
      ensures e in Raised(Poly(r), 1) <==> e in Plus(Product(if 31 in Poly(r) then {0} else {}), Poly(Shift(r)))
    {
      hide Product;
      ProductOfOne(e);
      if e < 32 {
        ShiftBit(r, e);
      }
    }
  }

  // ----- the register is a remainder -----

  /** p divided by the generator is q, and r is left. */
  ghost predicate Leaves(p: set<nat>, q: set<nat>, r: bv32) {
    p == Plus(Product(q), Poly(r))
  }

  lemma RaisedOnce(p: set<nat>, n: nat)
    ensures Raised(p, n + 1) == Raised(Raised(p, n), 1)
  {}

  lemma RaisedPlus(p: set<nat>, q: set<nat>, n: nat)
    ensures Raised(Plus(p, q), n) == Plus(Raised(p, n), Raised(q, n))
  {}

  lemma PlusFour(a: set<nat>, b: set<nat>, c: set<nat>, d: set<nat>)
    ensures Plus(Plus(a, b), Plus(c, d)) == Plus(Plus(a, c), Plus(b, d))
  {}

  lemma PlusThree(a: set<nat>, b: set<nat>, c: set<nat>)
    ensures Plus(Plus(a, b), c) == Plus(a, Plus(b, c))
  {}

  lemma {:induction false} SumOfPlus(p: set<nat>, q: set<nat>, exponents: seq<nat>)
    ensures Sum(Plus(p, q), exponents) == Plus(Sum(p, exponents), Sum(q, exponents))
  {
    if exponents != [] {
      SumOfPlus(p, q, exponents[1..]);
      RaisedPlus(p, q, exponents[0]);
      PlusFour(Raised(p, exponents[0]), Raised(q, exponents[0]), Sum(p, exponents[1..]), Sum(q, exponents[1..]));
      hide Plus, Raised;
    } else {
      assert Plus({}, {}) == {};
    }
  }

  lemma {:induction false} SumOfRaised(p: set<nat>, exponents: seq<nat>)
    ensures Sum(Raised(p, 1), exponents) == Raised(Sum(p, exponents), 1)
  {
    if exponents != [] {
      SumOfRaised(p, exponents[1..]);
      RaisedPlus(Raised(p, exponents[0]), Sum(p, exponents[1..]), 1);
      assert Raised(Raised(p, 1), exponents[0]) == Raised(Raised(p, exponents[0]), 1);
    }
  }

  /** One shift. */
  lemma ShiftLeaves(p: set<nat>, q: set<nat>, r: bv32) returns (q': set<nat>)
    requires Leaves(p, q, r)
    ensures Leaves(Raised(p, 1), q', Shift(r))
  {
    hide Shift, BitAt, Sum, Poly;
    var t: set<nat> := if 31 in Poly(r) then {0} else {};
    q' := Plus(Raised(q, 1), t);
    RaisedPlus(Product(q), Poly(r), 1);
    SumOfRaised(q, GENERATOR);
    PolyOfShift(r);
    SumOfPlus(Raised(q, 1), t, GENERATOR);
    PlusThree(Product(Raised(q, 1)), Product(t), Poly(Shift(r)));
  }

  lemma {:induction false} ShiftsLeave(p: set<nat>, q: set<nat>, r: bv32, n: nat) returns (q': set<nat>)
    requires Leaves(p, q, r)
    ensures Leaves(Raised(p, n), q', Shifts(r, n))
  {
    hide Leaves, Shift;
    if n == 0 {
      q' := q;
      assert Raised(p, 0) == p;
    } else {
      q' := ShiftsLeave(p, q, r, n - 1);
      RaisedOnce(p, n - 1);
      q' := ShiftLeaves(Raised(p, n - 1), q', Shifts(r, n - 1));
    }
  }

  lemma XorLeaves(p: set<nat>, q: set<nat>, r: bv32, x: bv32)
    requires Leaves(p, q, r)
    ensures Leaves(Plus(p, Poly(x)), q, Xor(r, x))
  {
    hide Product, Poly, Xor;
    PolyOfXor(r, x);
    PlusThree(Product(q), Poly(r), Poly(x));
  }

  lemma ByteIsHigh(b: byte)
    ensures Poly(b as bv32) == Raised(BytePoly(b), 24)
  {
    AlwaysFits(0, b);
    hide Half, Odd, Fits;
    forall e: nat
      ensures e in Poly(b as bv32) <==> e in Raised(BytePoly(b), 24)
    {
      if e < 24 {
        FitsHasNoBit(b as bv32, 8, 31 - e);
      }
    }
  }

  /** The message behind 32 coefficients 1, followed by 32 zeros. */
  ghost function Dividend(s: str): set<nat> {
    Plus(Raised(ALL, 8 * |s|), Raised(Message(s), 32))
  }

  const ALL: set<nat> := set e: nat | e < 32

  lemma RaisedTwice(p: set<nat>, m: nat, n: nat)
    ensures Raised(Raised(p, m), n) == Raised(p, m + n)
  {}

  lemma DividendStep(s: str, b: byte)
    ensures Dividend(s + [b]) == Raised(Plus(Dividend(s), Raised(BytePoly(b), 24)), 8)
  {
    hide BytePoly, Raised, Plus;
    assert (s + [b])[..|s|] == s;
    var m, x, n := Message(s), BytePoly(b), 8 * |s|;
    var front := Raised(ALL, n);
    calc {
      Raised(Plus(Plus(front, Raised(m, 32)), Raised(x, 24)), 8);
    ==  { RaisedPlus(Plus(front, Raised(m, 32)), Raised(x, 24), 8); RaisedPlus(front, Raised(m, 32), 8); }
      Plus(Plus(Raised(front, 8), Raised(Raised(m, 32), 8)), Raised(Raised(x, 24), 8));
    ==  { RaisedTwice(ALL, n, 8); RaisedTwice(m, 32, 8); RaisedTwice(m, 8, 32); RaisedTwice(x, 24, 8); }
      Plus(Plus(Raised(ALL, n + 8), Raised(Raised(m, 8), 32)), Raised(x, 32));
    ==  { PlusThree(Raised(ALL, n + 8), Raised(Raised(m, 8), 32), Raised(x, 32)); RaisedPlus(Raised(m, 8), x, 32); }
      Plus(Raised(ALL, n + 8), Raised(Plus(Raised(m, 8), x), 32));
    }
  }

  lemma {:induction false} RegisterIsRemainder(s: str) returns (q: set<nat>)
    ensures Leaves(Dividend(s), q, Register(ONES, s))
  {
    hide Shift8, Xor, Shift, BitAt;
    if s == [] {
      q := {};
      SumOfNothing(GENERATOR);
      AllOnes();
    } else {
      var front, b := s[..|s| - 1], s[|s| - 1];
      var r := Register(ONES, front);
      hide Register, Leaves, Dividend;
      q := RegisterIsRemainder(front);
      XorLeaves(Dividend(front), q, r, b as bv32);
      ByteIsHigh(b);
      q := ShiftsLeave(Plus(Dividend(front), Poly(b as bv32)), q, Xor(r, b as bv32), 8);
      DividendStep(front, b);
      assert front + [b] == s;
      FeedIsXorThenShift(r, b);
      Shifts8(Xor(r, b as bv32));
      RegisterStep(s);
    }
  }

  lemma RegisterStep(s: str)
    requires s != []
    ensures Register(ONES, s) == Feed(Register(ONES, s[..|s| - 1]), s[|s| - 1])
  {}

  lemma AllOnes()
    ensures Poly(ONES) == ALL
  {
    DroppedOnes();
    hide BitAt, DropFour;
    forall e: nat | e < 32
      ensures e in Poly(ONES)
    {
      var d := 31 - e;
      FourBitsAt(ONES, d);
      if d >= 4 {
        FourBitsAt(0x0FFF_FFFF, d - 4);
      }
      if d >= 8 {
        FourBitsAt(0x00FF_FFFF, d - 8);
      }
      if d >= 12 {
        FourBitsAt(0x000F_FFFF, d - 12);
      }
      if d >= 16 {
        FourBitsAt(0x0000_FFFF, d - 16);
      }
      if d >= 20 {
        FourBitsAt(0x0000_0FFF, d - 20);
      }
      if d >= 24 {
        FourBitsAt(0x0000_00FF, d - 24);
      }
      if d >= 28 {
        FourBitsAt(0x0000_000F, d - 28);
      }
    }
  }

  lemma DroppedOnes()
    ensures DropFour(0xFFFF_FFFF) == 0x0FFF_FFFF
    ensures DropFour(0x0FFF_FFFF) == 0x00FF_FFFF
    ensures DropFour(0x00FF_FFFF) == 0x000F_FFFF
    ensures DropFour(0x000F_FFFF) == 0x0000_FFFF
    ensures DropFour(0x0000_FFFF) == 0x0000_0FFF
    ensures DropFour(0x0000_0FFF) == 0x0000_00FF
    ensures DropFour(0x0000_00FF) == 0x0000_000F
  {}

  // ----- remainders are unique -----

  lemma {:induction false} SumBounded(q: set<nat>, m: nat, exponents: seq<nat>)
    requires Descending(exponents) && forall e :: e in q ==> e <= m
    ensures forall e :: e in Sum(q, exponents) ==> exponents != [] && e <= m + exponents[0]
  {
    if exponents != [] {
      SumBounded(q, m, exponents[1..]);
    }
  }

  /** A product other than 0 has degree at least 32. */
  lemma HighestTerm(q: set<nat>, m: nat)
    requires m in q && forall e :: e in q ==> e <= m
    ensures m + 32 in Product(q)
  {
    hide Sum, Plus, Raised;
    GeneratorDescends();
    var rest := GENERATOR[1..];
    assert Descending(rest) && rest[0] == 26;
    SumBounded(q, m, rest);
    FirstTerm(q);
    assert (m + 32) - 32 == m;
  }

  lemma FirstTerm(q: set<nat>)
    ensures Product(q) == Plus(Raised(q, 32), Sum(q, GENERATOR[1..]))
  {}

  lemma {:induction false} Maximum(q: set<nat>) returns (m: nat)
    requires q != {}
    ensures m in q && forall e :: e in q ==> e <= m
    decreases |q|
  {
    m :| m in q;
    var rest := q - {m};
    assert forall e :: e in q ==> e == m || e in rest;
    if rest != {} {
      var n := Maximum(rest);
      m := if m < n then n else m;
    }
  }

  lemma RemainderIsUnique(q1: set<nat>, r1: bv32, q2: set<nat>, r2: bv32)
    requires Plus(Product(q1), Poly(r1)) == Plus(Product(q2), Poly(r2))
    ensures q1 == q2 && r1 == r2
  {
    hide BitAt, Sum, Xor;
    var q := Plus(q1, q2);
    SumOfPlus(q1, q2, GENERATOR);
    PolyOfXor(r1, r2);
    assert Product(q) == Poly(Xor(r1, r2));
    if q != {} {
      var m := Maximum(q);
      HighestTerm(q, m);
      assert false;
    }
    assert q1 == q2;
    SumOfNothing(GENERATOR);
    AlwaysFits(Xor(r1, r2), 0);
    forall d {:trigger BitAt(Xor(r1, r2), d)} | 0 <= d < 32
      ensures !BitAt(Xor(r1, r2), d)
    {
      assert 31 - d !in Poly(Xor(r1, r2));
    }
    NoBitsIsZero(Xor(r1, r2), 32);
    XorCancels(r1, r2);
  }

  // ----- the checksum -----

  /** A number is the checksum of s if and only if it is, inverted, the remainder of the message: the
      first 32 coefficients inverted, 32 zeros behind it, divided by the generator. */
  lemma ChecksumIsCrc32(s: str, c: bv32)
    ensures c == Checksum(s) <==> exists q :: Dividend(s) == Plus(Product(q), Plus(Poly(c), ALL))
  {
    hide Register, Product, Poly, Plus, Dividend, Xor;
    var r := Register(ONES, s);
    var q := RegisterIsRemainder(s);
    AllOnes();
    PolyOfXor(c, ONES);
    ChecksumIsXor(s);
    XorOnes(c);
    XorOnes(r);
    hide Checksum;
    if c == Checksum(s) {
      assert Dividend(s) == Plus(Product(q), Plus(Poly(c), ALL));
    }
    if q' :| Dividend(s) == Plus(Product(q'), Plus(Poly(c), ALL)) {
      RemainderIsUnique(q, r, q', Xor(c, ONES));
    }
  }

  lemma ChecksumIsXor(s: str)
    ensures Checksum(s) == Xor(Register(ONES, s), ONES)
  {
    hide Register;
  }

  lemma XorOnes(c: bv32)
    ensures Xor(Xor(c, ONES), ONES) == c
  {
    hide BitAt, Fits, Register, Shifts;
  }

  /** The digits from 1 to 9, whose CRC-32 is the usual check value. */
  const DIGITS: str := [0x31, 0x32, 0x33, 0x34, 0x35, 0x36, 0x37, 0x38, 0x39]

  lemma CheckValue()
    ensures Checksum(DIGITS) == 0xCBF4_3926
  {
    hide Feed;
    FeedDigits();
    Front(1);
    Front(2);
    Front(3);
    Front(4);
    Front(5);
    Front(6);
    Front(7);
    Front(8);
    Front(9);
    assert DIGITS[..9] == DIGITS;
  }

  lemma Front(k: nat)
    requires 0 < k <= 9
    ensures Register(ONES, DIGITS[..k]) == Feed(Register(ONES, DIGITS[..k - 1]), DIGITS[k - 1])
  {
    hide Feed;
    assert DIGITS[..k][..k - 1] == DIGITS[..k - 1];
  }

  lemma FeedDigits()
    ensures Feed(0xFFFF_FFFF, 0x31) == 0x7C23_1048
    ensures Feed(0x7C23_1048, 0x32) == 0xB0AC_BB32
    ensures Feed(0xB0AC_BB32, 0x33) == 0x77B7_9C2D
    ensures Feed(0x77B7_9C2D, 0x34) == 0x641C_1F5C
    ensures Feed(0x641C_1F5C, 0x35) == 0x340A_C5E3
    ensures Feed(0x340A_C5E3, 0x36) == 0xF68D_2C9E
    ensures Feed(0xF68D_2C9E, 0x37) == 0xAFFC_9660
    ensures Feed(0xAFFC_9660, 0x38) == 0x651F_2550
    ensures Feed(0x651F_2550, 0x39) == 0x340B_C6D9
  {}
}
