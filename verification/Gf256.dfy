/** GF(2^8) modulo x^8 + x^4 + x^3 + x + 1, element by element: the field that the bitsliced code works in. */
module Gf256 {
  /** A polynomial of degree below 8 over GF(2), by its coefficients. */
  datatype Elem = Elem(c0: bool, c1: bool, c2: bool, c3: bool, c4: bool, c5: bool, c6: bool, c7: bool)

  const ZERO: Elem := Elem(false, false, false, false, false, false, false, false)
  const ONE: Elem := Elem(true, false, false, false, false, false, false, false)

  /** Addition of polynomials over GF(2). */
  function Plus(a: Elem, b: Elem): Elem {
    Elem(a.c0 != b.c0, a.c1 != b.c1, a.c2 != b.c2, a.c3 != b.c3, a.c4 != b.c4, a.c5 != b.c5, a.c6 != b.c6, a.c7 != b.c7)
  }

  /** Multiplication by x, reduced. */
  function Xtime(a: Elem): Elem {
    Elem(a.c7, a.c0 != a.c7, a.c1, a.c2 != a.c7, a.c3 != a.c7, a.c4, a.c5, a.c6)
  }

  predicate Odd(b: Elem) {
    b.c0
  }

  function Half(b: Elem): Elem {
    Elem(b.c1, b.c2, b.c3, b.c4, b.c5, b.c6, b.c7, false)
  }

  function Select(b: bool, a: Elem): Elem {
    if b then a else ZERO
  }

  /** One more than the degree. */
  function Size(b: Elem): nat {
    if b.c7 then 8 else if b.c6 then 7 else if b.c5 then 6 else if b.c4 then 5
    else if b.c3 then 4 else if b.c2 then 3 else if b.c1 then 2 else if b.c0 then 1 else 0
  }

  lemma SizeFacts(b: Elem)
    ensures b == ZERO <==> Size(b) == 0
    ensures b != ZERO ==> Size(Half(b)) < Size(b)
  {}

  /** Russian peasant multiplication. */
  function Mul(a: Elem, b: Elem): Elem
    decreases Size(b)
  {
    SizeFacts(b);
    if b == ZERO then ZERO else Plus(Select(Odd(b), a), Mul(Xtime(a), Half(b)))
  }

  // ---- additive laws ---------------------------------------------------------------------

  lemma XtimeAdd(a: Elem, b: Elem)
    ensures Xtime(Plus(a, b)) == Plus(Xtime(a), Xtime(b))
  {}

  lemma Regroup(a: Elem, b: Elem, c: Elem, d: Elem)
    ensures Plus(Plus(a, b), Plus(c, d)) == Plus(Plus(a, c), Plus(b, d))
  {}

  lemma SelectAdd(b: bool, x: Elem, y: Elem)
    ensures Select(b, Plus(x, y)) == Plus(Select(b, x), Select(b, y))
    ensures Xtime(Select(b, x)) == Select(b, Xtime(x))
  {}

  lemma PlusZero(a: Elem)
    ensures Plus(a, ZERO) == a && Plus(ZERO, a) == a && Plus(a, a) == ZERO
  {}

  lemma PlusCommutes(a: Elem, b: Elem)
    ensures Plus(a, b) == Plus(b, a)
    ensures Plus(a, b) == ZERO <==> a == b
  {}

  lemma PlusAssociates(a: Elem, b: Elem, c: Elem)
    ensures Plus(Plus(a, b), c) == Plus(a, Plus(b, c))
  {}

  // ---- multiplicative laws ---------------------------------------------------------------

  /** Multiplying by ZERO on the left. */
  lemma {:induction false} ZeroLeft(b: Elem)
    ensures Mul(ZERO, b) == ZERO
    decreases Size(b)
  {
    if b != ZERO {
      SizeFacts(b);
      ZeroLeft(Half(b));
      assert Xtime(ZERO) == ZERO;
      PlusZero(ZERO);
    }
  }

  lemma ZeroRight(a: Elem)
    ensures Mul(a, ZERO) == ZERO
  {}

  /** Additive in the first factor. */
  lemma {:induction false} AddLeft(x: Elem, y: Elem, b: Elem)
    ensures Mul(Plus(x, y), b) == Plus(Mul(x, b), Mul(y, b))
    decreases Size(b)
  {
    if b == ZERO {
      PlusZero(ZERO);
    } else {
      SizeFacts(b);
      XtimeAdd(x, y);
      AddLeft(Xtime(x), Xtime(y), Half(b));
      SelectAdd(Odd(b), x, y);
      Regroup(Select(Odd(b), x), Select(Odd(b), y), Mul(Xtime(x), Half(b)), Mul(Xtime(y), Half(b)));
    }
  }

  lemma HalfAdd(b: Elem, c: Elem, a: Elem)
    ensures Half(Plus(b, c)) == Plus(Half(b), Half(c))
    ensures Select(Odd(Plus(b, c)), a) == Plus(Select(Odd(b), a), Select(Odd(c), a))
  {}

  /** The recursion also holds at ZERO. */
  lemma MulStep(a: Elem, b: Elem)
    ensures Mul(a, b) == Plus(Select(Odd(b), a), Mul(Xtime(a), Half(b)))
  {
    if b == ZERO {
      assert Half(b) == ZERO;
      PlusZero(ZERO);
    }
  }

  /** Additive in the second factor. */
  lemma {:induction false} AddRight(a: Elem, b: Elem, c: Elem)
    ensures Mul(a, Plus(b, c)) == Plus(Mul(a, b), Mul(a, c))
    decreases Size(b) + Size(c)
  {
    PlusZero(b);
    PlusZero(c);
    PlusZero(Mul(a, b));
    PlusZero(Mul(a, c));
    if b != ZERO && c != ZERO {
      SizeFacts(b);
      SizeFacts(c);
      AddRightStep(a, b, c);
      AddRight(Xtime(a), Half(b), Half(c));
      Regroup(Select(Odd(b), a), Select(Odd(c), a), Mul(Xtime(a), Half(b)), Mul(Xtime(a), Half(c)));
    }
  }

  lemma AddRightStep(a: Elem, b: Elem, c: Elem)
    ensures Mul(a, Plus(b, c))
         == Plus(Plus(Select(Odd(b), a), Select(Odd(c), a)), Mul(Xtime(a), Plus(Half(b), Half(c))))
  {
    HalfAdd(b, c, a);
    MulStep(a, Plus(b, c));
  }

  /** Multiplication by x moves out of the first factor. */
  lemma {:induction false} XtimeLeft(a: Elem, b: Elem)
    ensures Mul(Xtime(a), b) == Xtime(Mul(a, b))
    decreases Size(b)
  {
    if b == ZERO {
      assert Xtime(ZERO) == ZERO;
    } else {
      SizeFacts(b);
      XtimeLeft(Xtime(a), Half(b));
      SelectAdd(Odd(b), a, a);
      XtimeAdd(Select(Odd(b), a), Mul(Xtime(a), Half(b)));
    }
  }

  lemma LowBitSplit(b: Elem)
    ensures b == Plus(Select(Odd(b), ONE), Xtime(Half(b)))
  {}

  lemma {:induction false} OneLeft(b: Elem)
    ensures Mul(ONE, b) == b
    decreases Size(b)
  {
    if b != ZERO {
      SizeFacts(b);
      OneLeft(Half(b));
      XtimeLeft(ONE, Half(b));
      LowBitSplit(b);
    }
  }

  lemma SelectOne(s: bool, a: Elem)
    ensures Mul(Select(s, ONE), a) == Select(s, a)
  {
    ZeroLeft(a);
    OneLeft(a);
  }

  lemma {:induction false} MulCommutes(a: Elem, b: Elem)
    ensures Mul(a, b) == Mul(b, a)
    decreases Size(b)
  {
    if b == ZERO {
      ZeroLeft(a);
    } else {
      SizeFacts(b);
      MulCommutes(a, Half(b));
      XtimeLeft(a, Half(b));
      XtimeLeft(Half(b), a);
      LowBitSplit(b);
      SelectOne(Odd(b), a);
      AddLeft(Select(Odd(b), ONE), Xtime(Half(b)), a);
    }
  }

  /** Multiplication by x. */
  lemma ByX(a: Elem)
    ensures Mul(a, Elem(false, true, false, false, false, false, false, false)) == Xtime(a)
  {
    var x := Elem(false, true, false, false, false, false, false, false);
    assert Half(x) == ONE && Half(ONE) == ZERO;
    PlusZero(Xtime(a));
  }

  lemma XtimeRight(a: Elem, b: Elem)
    ensures Mul(a, Xtime(b)) == Xtime(Mul(a, b))
  {
    MulCommutes(a, Xtime(b));
    XtimeLeft(b, a);
    MulCommutes(b, a);
  }

  lemma SelectRight(c: Elem, s: bool, a: Elem)
    ensures Mul(c, Select(s, a)) == Select(s, Mul(c, a))
  {}

  lemma {:induction false} MulAssociates(c: Elem, a: Elem, b: Elem)
    ensures Mul(Mul(c, a), b) == Mul(c, Mul(a, b))
    decreases Size(b)
  {
    if b != ZERO {
      SizeFacts(b);
      AddRight(c, Select(Odd(b), a), Mul(Xtime(a), Half(b)));
      SelectRight(c, Odd(b), a);
      XtimeRight(c, a);
      MulAssociates(c, Xtime(a), Half(b));
    }
  }

  // ---- squares and inverses --------------------------------------------------------------

  /** Squaring spreads the coefficients to even degrees and reduces. */
  function Square(x: Elem): Elem {
    Elem((x.c0 != x.c4) != x.c6, (x.c4 != x.c6) != x.c7, x.c1 != x.c5, ((x.c4 != x.c5) != x.c6) != x.c7,
         (x.c2 != x.c4) != x.c7, x.c5 != x.c6, x.c3 != x.c5, x.c6 != x.c7)
  }

  lemma CrossTermsCancel(a: Elem, m: Elem, b: Elem)
    ensures Plus(Plus(a, m), Plus(m, b)) == Plus(a, b)
  {}

  /** Squaring is additive. */
  lemma SquareAdd(x: Elem, y: Elem)
    ensures Mul(Plus(x, y), Plus(x, y)) == Plus(Mul(x, x), Mul(y, y))
  {
    AddRight(Plus(x, y), x, y);
    AddLeft(x, y, x);
    AddLeft(x, y, y);
    MulCommutes(x, y);
    CrossTermsCancel(Mul(x, x), Mul(y, x), Mul(y, y));
  }

  lemma SquareXtime(x: Elem)
    ensures Mul(Xtime(x), Xtime(x)) == Xtime(Xtime(Mul(x, x)))
  {
    XtimeLeft(x, Xtime(x));
    XtimeRight(x, x);
  }

  lemma SpreadStep(x: Elem)
    ensures Square(x) == Plus(Select(Odd(x), ONE), Xtime(Xtime(Square(Half(x)))))
  {
    var h := Square(Half(x));
    var t := Xtime(h);
    assert t.c0 == h.c7 && t.c1 == (h.c0 != h.c7) && t.c7 == h.c6;
  }

  lemma {:induction false} SquareIs(x: Elem)
    ensures Mul(x, x) == Square(x)
    decreases Size(x)
  {
    if x == ZERO {
      assert Square(ZERO) == ZERO;
    } else {
      SizeFacts(x);
      SquareIs(Half(x));
      LowBitSplit(x);
      SquareAdd(Select(Odd(x), ONE), Xtime(Half(x)));
      SquareXtime(Half(x));
      SelectOne(Odd(x), Select(Odd(x), ONE));
      SpreadStep(x);
    }
  }

  /** Four squarings written out; four more undo them. */
  function FourthSquare(x: Elem): Elem {
    Elem(((x.c0 != x.c4) != x.c5) != x.c6, x.c1, (((x.c1 != x.c2) != x.c4) != x.c6) != x.c7,
         (((x.c1 != x.c3) != x.c4) != x.c6) != x.c7, (x.c1 != x.c5) != x.c6, (x.c2 != x.c3) != x.c7,
         (((x.c1 != x.c2) != x.c3) != x.c4) != x.c7, (x.c2 != x.c3) != x.c5)
  }

  lemma FourSquares(x: Elem)
    ensures Square(Square(Square(Square(x)))) == FourthSquare(x)
  {
    TwoSquares(x);
    TwoSquares(Square(Square(x)));
  }

  function SecondSquare(x: Elem): Elem {
    Elem(((((x.c0 != x.c2) != x.c3) != x.c5) != x.c6) != x.c7, (((x.c2 != x.c3) != x.c4) != x.c5) != x.c6,
         (x.c4 != x.c5) != x.c7, (x.c2 != x.c3) != x.c4, (((x.c1 != x.c2) != x.c4) != x.c5) != x.c6,
         x.c3 != x.c6, x.c4 != x.c7, ((x.c3 != x.c5) != x.c6) != x.c7)
  }

  lemma TwoSquares(x: Elem)
    ensures Square(Square(x)) == SecondSquare(x)
  {}

  lemma EightSquares(x: Elem)
    ensures FourthSquare(FourthSquare(x)) == x
  {}

  /** The only elements equal to their squares are 0 and 1. */
  lemma Idempotent(e: Elem)
    requires Square(e) == e
    ensures e == ZERO || e == ONE
  {}

  lemma SquareMul(a: Elem, b: Elem)
    ensures Square(Mul(a, b)) == Mul(Square(a), Square(b))
  {
    SquareIs(Mul(a, b));
    SquareIs(a);
    SquareIs(b);
    MulAssociates(a, b, Mul(a, b));
    MulCommutes(b, Mul(a, b));
    MulAssociates(a, b, b);
    MulAssociates(a, a, Mul(b, b));
  }

  lemma Swap(a: Elem, b: Elem, t: Elem)
    ensures Mul(a, Mul(b, t)) == Mul(b, Mul(a, t))
  {
    MulAssociates(a, b, t);
    MulAssociates(b, a, t);
    MulCommutes(a, b);
  }

  /** The product of seven successive squares of x: x^254. */
  function Conjugates(a1: Elem, a2: Elem, a3: Elem, a4: Elem, a5: Elem, a6: Elem, a7: Elem): Elem {
    Mul(a1, Mul(a2, Mul(a3, Mul(a4, Mul(a5, Mul(a6, a7))))))
  }

  /** gf256_inv's addition chain: x^254 by seven squarings and four products. */
  function Inverse(x: Elem): Elem {
    var y := Square(Square(x));
    var r8 := Square(y);
    var r25 := Mul(Square(r8), Mul(r8, x));
    var r50 := Square(r25);
    Mul(Mul(r50, Square(Square(r50))), y)
  }

  /** Squaring twice distributes too. */
  lemma TwiceSquareMul(a: Elem, b: Elem)
    ensures Square(Square(Mul(a, b))) == Mul(Square(Square(a)), Square(Square(b)))
  {
    SquareMul(a, b);
    SquareMul(Square(a), Square(b));
  }

  /** The chain multiplies the seven conjugates, in another order. */
  lemma InverseIsProduct(x: Elem, a1: Elem, a2: Elem, a3: Elem, a4: Elem, a5: Elem, a6: Elem, a7: Elem)
    requires a1 == Square(x) && a2 == Square(a1) && a3 == Square(a2) && a4 == Square(a3)
    requires a5 == Square(a4) && a6 == Square(a5) && a7 == Square(a6)
    ensures Inverse(x) == Mul(Mul(Mul(a5, Mul(a4, a1)), Mul(a7, Mul(a6, a3))), a2)
  {
    SquareMul(a4, Mul(a3, x));
    SquareMul(a3, x);
    TwiceSquareMul(a5, Mul(a4, a1));
    TwiceSquareMul(a4, a1);
  }

  lemma Reordered(a1: Elem, a2: Elem, a3: Elem, a4: Elem, a5: Elem, a6: Elem, a7: Elem)
    ensures Mul(Mul(Mul(a5, Mul(a4, a1)), Mul(a7, Mul(a6, a3))), a2) == Conjugates(a1, a2, a3, a4, a5, a6, a7)
  {
    var u, v := Mul(a5, Mul(a4, a1)), Mul(a7, Mul(a6, a3));
    MulCommutes(Mul(u, v), a2);
    FirstHalf(a1, a4, a5, v);
    LastHalf(a3, a6, a7);
    Swap(a2, a1, Mul(a4, Mul(a5, v)));
    MiddleFactor(a3, a4, a5, Mul(a6, a7));
  }

  lemma FirstHalf(a1: Elem, a4: Elem, a5: Elem, v: Elem)
    ensures Mul(Mul(a5, Mul(a4, a1)), v) == Mul(a1, Mul(a4, Mul(a5, v)))
  {
    MulAssociates(a5, Mul(a4, a1), v);
    MulCommutes(a4, a1);
    MulAssociates(a1, a4, v);
    Swap(a5, a1, Mul(a4, v));
    Swap(a5, a4, v);
  }

  lemma LastHalf(a3: Elem, a6: Elem, a7: Elem)
    ensures Mul(a7, Mul(a6, a3)) == Mul(a3, Mul(a6, a7))
  {
    MulCommutes(a6, a3);
    Swap(a7, a3, a6);
    MulCommutes(a7, a6);
  }

  lemma MiddleFactor(a3: Elem, a4: Elem, a5: Elem, t: Elem)
    ensures Mul(a4, Mul(a5, Mul(a3, t))) == Mul(a3, Mul(a4, Mul(a5, t)))
  {
    Swap(a5, a3, t);
    Swap(a4, a3, Mul(a5, t));
  }

  /** a * (a * t) = a^2 * t */
  lemma Fold(a: Elem, t: Elem)
    ensures Mul(a, Mul(a, t)) == Mul(Square(a), t)
  {
    MulAssociates(a, a, t);
    SquareIs(a);
  }

  /** x * x * x^254 = x^256 = x. */
  lemma Cascade(x: Elem, a1: Elem, a2: Elem, a3: Elem, a4: Elem, a5: Elem, a6: Elem, a7: Elem)
    requires a1 == Square(x) && a2 == Square(a1) && a3 == Square(a2) && a4 == Square(a3)
    requires a5 == Square(a4) && a6 == Square(a5) && a7 == Square(a6)
    ensures Mul(x, Mul(x, Conjugates(a1, a2, a3, a4, a5, a6, a7))) == x
  {
    var t6 := Mul(a6, a7);
    var t5 := Mul(a5, t6);
    var t4 := Mul(a4, t5);
    var t3 := Mul(a3, t4);
    var t2 := Mul(a2, t3);
    Fold(x, Mul(a1, t2));
    Fold(a1, t2);
    Fold(a2, t3);
    Fold(a3, t4);
    Fold(a4, t5);
    Fold(a5, t6);
    Fold(a6, a7);
    SquareIs(a7);
    FourSquares(x);
    FourSquares(a4);
    EightSquares(x);
  }

  /** x^255 is its own square. */
  lemma NormSquared(x: Elem, i: Elem)
    requires Mul(x, Mul(x, i)) == x
    ensures Square(Mul(x, i)) == Mul(x, i)
  {
    var e := Mul(x, i);
    SquareIs(e);
    MulAssociates(x, i, e);
    Swap(i, x, i);
    MulAssociates(x, e, i);
    MulCommutes(i, e);
    MulAssociates(x, e, i);
  }

  /** The chain inverts every non-zero element. */
  lemma InverseIs(x: Elem)
    requires x != ZERO
    ensures Mul(x, Inverse(x)) == ONE
  {
    var a1 := Square(x);
    var a2 := Square(a1);
    var a3 := Square(a2);
    var a4 := Square(a3);
    var a5 := Square(a4);
    var a6 := Square(a5);
    var a7 := Square(a6);
    InverseIsProduct(x, a1, a2, a3, a4, a5, a6, a7);
    Reordered(a1, a2, a3, a4, a5, a6, a7);
    Cascade(x, a1, a2, a3, a4, a5, a6, a7);
    NormIsOne(x, Inverse(x));
  }

  lemma NormIsOne(x: Elem, i: Elem)
    requires x != ZERO && Mul(x, Mul(x, i)) == x
    ensures Mul(x, i) == ONE
  {
    NormSquared(x, i);
    Idempotent(Mul(x, i));
  }

  /** No zero divisors. */
  lemma ZeroProduct(a: Elem, b: Elem)
    requires Mul(a, b) == ZERO
    ensures a == ZERO || b == ZERO
  {
    if a != ZERO {
      InverseIs(a);
      MulCommutes(a, Inverse(a));
      MulAssociates(Inverse(a), a, b);
      OneLeft(b);
    }
  }
}
