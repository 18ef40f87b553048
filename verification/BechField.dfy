/** The checksum of Bech32 as arithmetic over the field of 32 elements (BIP 173): a step multiplies a polynomial of six
    symbols by x modulo the published generator; a published string is what the encoder writes. */
module BechField {
  import opened Wrappers
  import opened Arith
  import opened Bits
  import opened BitSlice
  import opened Bech32
  import opened BechText

  /** An element of GF(2)[a] modulo a^5 + a^3 + 1, by its coefficients. */
  datatype Sym = Sym(c0: bool, c1: bool, c2: bool, c3: bool, c4: bool)

  const NOTHING: Sym := Sym(false, false, false, false, false)

  function SymOf(v: nat): Sym {
    Sym(Bit(v, 0), Bit(v, 1), Bit(v, 2), Bit(v, 3), Bit(v, 4))
  }

  function Sum(s: Sym, t: Sym): Sym {
    Sym(s.c0 != t.c0, s.c1 != t.c1, s.c2 != t.c2, s.c3 != t.c3, s.c4 != t.c4)
  }

  /** Multiplication by a. */
  function TimesA(s: Sym): Sym {
    Sym(s.c4, s.c0, s.c1, s.c2 != s.c4, s.c3)
  }

  function Part(b: bool, s: Sym): Sym {
    if b then s else NOTHING
  }

  function Product(s: Sym, t: Sym): Sym {
    var s1 := TimesA(s);
    var s2 := TimesA(s1);
    var s3 := TimesA(s2);
    var s4 := TimesA(s3);
    Sum(Part(t.c0, s), Sum(Part(t.c1, s1), Sum(Part(t.c2, s2), Sum(Part(t.c3, s3), Part(t.c4, s4)))))
  }

  /** The symbol that starts at bit l. */
  function SymAt(v: nat, l: nat): Sym {
    Sym(Bit(v, l), Bit(v, l + 1), Bit(v, l + 2), Bit(v, l + 3), Bit(v, l + 4))
  }

  /** The coefficients of the generator x^6 + {29}x^5 + {22}x^4 + {20}x^3 + {21}x^2 + {29}x + {18}, the constant one
      first. */
  function Coefficient(j: nat): Sym
    requires j < 6
  {
    SymOf([18, 29, 21, 20, 22, 29][j])
  }

  /** The six symbols of a state, the constant coefficient first. */
  predicate HasDigits(v: nat, d0: nat, d1: nat, d2: nat, d3: nat, d4: nat, d5: nat) {
    && SymAt(v, 0) == SymOf(d0) && SymAt(v, 5) == SymOf(d1) && SymAt(v, 10) == SymOf(d2)
    && SymAt(v, 15) == SymOf(d3) && SymAt(v, 20) == SymOf(d4) && SymAt(v, 25) == SymOf(d5)
  }

  // ---- bits ------------------------------------------------------------------------------

  lemma {:induction false} BitDivided(v: nat, k: nat, l: nat)
    ensures Pow(2, k) > 0 && Bit(v / Pow(2, k), l) == Bit(v, l + k)
  {
    PowPos(2, k);
    if k == 0 {
      assert Pow(2, 0) == 1;
    } else {
      PowPos(2, k - 1);
      BitDivided(v / 2, k - 1, l);
      DivDiv(v, 2, Pow(2, k - 1));
      assert Bit(v, l + k) == Bit(v / 2, l + k - 1);
    }
  }

  /** Bits of the state shifted up by one symbol, the top symbol dropped. */
  lemma ShiftedBit(v: nat, l: nat)
    requires l < 30
    ensures Bit((v % TWO25) * 32, l) == (l >= 5 && Bit(v, l - 5))
  {
    BechPowers();
    var w := (v % TWO25) * 32;
    if l < 5 {
      BitBelow(0, v % TWO25, 5, l);
      BitZero(l);
    } else {
      BitDivided(w, 5, l - 5);
      DivModUnique(w, 32, v % TWO25, 0);
      DivMod(v, TWO25);
      BitBelow(v % TWO25, v / TWO25, 25, l - 5);
    }
  }

  lemma ShiftedSymbol(v: nat, l: nat)
    requires l == 0 || 5 <= l <= 25
    ensures SymAt((v % TWO25) * 32, l) == if l == 0 then NOTHING else SymAt(v, l - 5)
  {
    hide Bit;
    ShiftedBit(v, l);
    ShiftedBit(v, l + 1);
    ShiftedBit(v, l + 2);
    ShiftedBit(v, l + 3);
    ShiftedBit(v, l + 4);
  }

  /** Exclusive or is the sum of the symbols. */
  lemma XorSymbol(u: nat, v: nat, l: nat)
    ensures SymAt(Xor(u, v), l) == Sum(SymAt(u, l), SymAt(v, l))
  {
    hide Xor, Bit;
    BitXor(u, v, l);
    BitXor(u, v, l + 1);
    BitXor(u, v, l + 2);
    BitXor(u, v, l + 3);
    BitXor(u, v, l + 4);
  }

  lemma PickSymbol(b: bool, g: nat, l: nat)
    ensures SymAt(Pick(b, g), l) == Part(b, SymAt(g, l))
  {
    hide Bit;
    BitZero(l);
    BitZero(l + 1);
    BitZero(l + 2);
    BitZero(l + 3);
    BitZero(l + 4);
  }

  function Combination(t: Sym, s0: Sym, s1: Sym, s2: Sym, s3: Sym, s4: Sym): Sym {
    Sum(Sum(Sum(Sum(Part(t.c0, s0), Part(t.c1, s1)), Part(t.c2, s2)), Part(t.c3, s3)), Part(t.c4, s4))
  }

  /** What the shifted out symbol adds to the symbol at l. */
  function Added(t: Sym, l: nat): Sym {
    Combination(t, SymAt(0x3b6a57b2, l), SymAt(0x26508e6d, l), SymAt(0x1ea119fa, l), SymAt(0x3d4233dd, l),
                SymAt(0x2a1462b3, l))
  }

  lemma GeneratorSymbol(b: nat, l: nat)
    ensures SymAt(Generator(b), l) == Added(SymOf(b), l)
  {
    hide Xor, Bit, Pick, SymAt, Sum, Part;
    var a0, a1, a2, a3, a4 := Pick(Bit(b, 0), 0x3b6a57b2), Pick(Bit(b, 1), 0x26508e6d), Pick(Bit(b, 2), 0x1ea119fa),
      Pick(Bit(b, 3), 0x3d4233dd), Pick(Bit(b, 4), 0x2a1462b3);
    XorSymbol(Xor(Xor(Xor(a0, a1), a2), a3), a4, l);
    XorSymbol(Xor(Xor(a0, a1), a2), a3, l);
    XorSymbol(Xor(a0, a1), a2, l);
    XorSymbol(a0, a1, l);
    PickSymbol(Bit(b, 0), 0x3b6a57b2, l);
    PickSymbol(Bit(b, 1), 0x26508e6d, l);
    PickSymbol(Bit(b, 2), 0x1ea119fa, l);
    PickSymbol(Bit(b, 3), 0x3d4233dd, l);
    PickSymbol(Bit(b, 4), 0x2a1462b3, l);
  }

  /** Symbol l / 5 of a state is its base-32 digit. */
  lemma Digit(v: nat, high: nat, d: nat, low: nat, l: nat)
    requires d < 32 && low < Pow(2, l) && v == (high * 32 + d) * Pow(2, l) + low
    ensures SymAt(v, l) == SymOf(d)
  {
    hide Bit;
    PowPos(2, l);
    DivModUnique(v, Pow(2, l), high * 32 + d, low);
    DigitBit(v, high, d, l, 0);
    DigitBit(v, high, d, l, 1);
    DigitBit(v, high, d, l, 2);
    DigitBit(v, high, d, l, 3);
    DigitBit(v, high, d, l, 4);
  }

  lemma DigitBit(v: nat, high: nat, d: nat, l: nat, i: nat)
    requires i < 5 && Pow(2, l) > 0 && v / Pow(2, l) == high * 32 + d
    ensures Bit(v, l + i) == Bit(d, i)
  {
    assert Pow(2, 5) == 32;
    BitDivided(v, l, i);
    BitBelow(d, high, 5, i);
  }

  /** The symbols of a state from its base-32 digits. */
  lemma Symbols30(v: nat, d0: nat, d1: nat, d2: nat, d3: nat, d4: nat, d5: nat)
    requires d0 < 32 && d1 < 32 && d2 < 32 && d3 < 32 && d4 < 32 && d5 < 32
    requires v == d0 + 32 * d1 + 0x400 * d2 + 0x8000 * d3 + 0x10_0000 * d4 + TWO25 * d5
    ensures HasDigits(v, d0, d1, d2, d3, d4, d5)
  {
    hide SymOf, SymAt, Pow;
    SymbolPowers();
    Digit(v, d1 + 32 * d2 + 0x400 * d3 + 0x8000 * d4 + 0x10_0000 * d5, d0, 0, 0);
    Digit(v, d2 + 32 * d3 + 0x400 * d4 + 0x8000 * d5, d1, d0, 5);
    Digit(v, d3 + 32 * d4 + 0x400 * d5, d2, d0 + 32 * d1, 10);
    Digit(v, d4 + 32 * d5, d3, d0 + 32 * d1 + 0x400 * d2, 15);
    Digit(v, d5, d4, d0 + 32 * d1 + 0x400 * d2 + 0x8000 * d3, 20);
    Digit(v, 0, d5, d0 + 32 * d1 + 0x400 * d2 + 0x8000 * d3 + 0x10_0000 * d4, 25);
  }

  lemma SymbolPowers()
    ensures Pow(2, 0) == 1 && Pow(2, 5) == 32 && Pow(2, 10) == 0x400 && Pow(2, 15) == 0x8000
    ensures Pow(2, 20) == 0x10_0000 && Pow(2, 25) == TWO25
  {
    BechPowers();
    PowAdd(2, 5, 5);
    PowAdd(2, 5, 10);
    PowAdd(2, 5, 15);
    assert Pow(2, 0) == 1;
  }

  lemma Constant0()
    ensures HasDigits(0x3b6a57b2, 18, 29, 21, 20, 22, 29)
  {
    Symbols30(0x3b6a57b2, 18, 29, 21, 20, 22, 29);
  }

  lemma Constant1()
    ensures HasDigits(0x26508e6d, 13, 19, 3, 1, 5, 19)
  {
    Symbols30(0x26508e6d, 13, 19, 3, 1, 5, 19);
  }

  lemma Constant2()
    ensures HasDigits(0x1ea119fa, 26, 15, 6, 2, 10, 15)
  {
    Symbols30(0x1ea119fa, 26, 15, 6, 2, 10, 15);
  }

  lemma Constant3()
    ensures HasDigits(0x3d4233dd, 29, 30, 12, 4, 20, 30)
  {
    Symbols30(0x3d4233dd, 29, 30, 12, 4, 20, 30);
  }

  lemma Constant4()
    ensures HasDigits(0x2a1462b3, 19, 21, 24, 8, 1, 21)
  {
    Symbols30(0x2a1462b3, 19, 21, 24, 8, 1, 21);
  }

  lemma SymbolTable()
    ensures SymOf(0) == Sym(false, false, false, false, false)
    ensures SymOf(1) == Sym(true, false, false, false, false)
    ensures SymOf(2) == Sym(false, true, false, false, false)
    ensures SymOf(3) == Sym(true, true, false, false, false)
    ensures SymOf(4) == Sym(false, false, true, false, false)
    ensures SymOf(5) == Sym(true, false, true, false, false)
    ensures SymOf(6) == Sym(false, true, true, false, false)
    ensures SymOf(8) == Sym(false, false, false, true, false)
    ensures SymOf(9) == Sym(true, false, false, true, false)
    ensures SymOf(10) == Sym(false, true, false, true, false)
    ensures SymOf(11) == Sym(true, true, false, true, false)
    ensures SymOf(12) == Sym(false, false, true, true, false)
    ensures SymOf(13) == Sym(true, false, true, true, false)
    ensures SymOf(15) == Sym(true, true, true, true, false)
    ensures SymOf(16) == Sym(false, false, false, false, true)
    ensures SymOf(18) == Sym(false, true, false, false, true)
    ensures SymOf(19) == Sym(true, true, false, false, true)
    ensures SymOf(20) == Sym(false, false, true, false, true)
    ensures SymOf(21) == Sym(true, false, true, false, true)
    ensures SymOf(22) == Sym(false, true, true, false, true)
    ensures SymOf(24) == Sym(false, false, false, true, true)
    ensures SymOf(25) == Sym(true, false, false, true, true)
    ensures SymOf(26) == Sym(false, true, false, true, true)
    ensures SymOf(27) == Sym(true, true, false, true, true)
    ensures SymOf(28) == Sym(false, false, true, true, true)
    ensures SymOf(29) == Sym(true, false, true, true, true)
    ensures SymOf(30) == Sym(false, true, true, true, true)
    ensures SymOf(31) == Sym(true, true, true, true, true)
  {}

  lemma SumAssociates(s: Sym, t: Sym, u: Sym)
    ensures Sum(Sum(s, t), u) == Sum(s, Sum(t, u))
  {}

  /** Combining powers of a times s by the bits of t is the product. */
  lemma Combined(s: Sym, s1: Sym, s2: Sym, s3: Sym, s4: Sym, t: Sym)
    requires s1 == TimesA(s) && s2 == TimesA(s1) && s3 == TimesA(s2) && s4 == TimesA(s3)
    ensures Combination(t, s, s1, s2, s3, s4) == Product(s, t)
  {
    hide Sum, Part, TimesA;
    var a, b, c, d, e := Part(t.c0, s), Part(t.c1, s1), Part(t.c2, s2), Part(t.c3, s3), Part(t.c4, s4);
    SumAssociates(Sum(Sum(a, b), c), d, e);
    SumAssociates(Sum(a, b), c, Sum(d, e));
    SumAssociates(a, b, Sum(c, Sum(d, e)));
  }

  lemma AddedIs(t: Sym, l: nat)
    requires SymAt(0x26508e6d, l) == TimesA(SymAt(0x3b6a57b2, l))
    requires SymAt(0x1ea119fa, l) == TimesA(SymAt(0x26508e6d, l))
    requires SymAt(0x3d4233dd, l) == TimesA(SymAt(0x1ea119fa, l))
    requires SymAt(0x2a1462b3, l) == TimesA(SymAt(0x3d4233dd, l))
    ensures Added(t, l) == Product(SymAt(0x3b6a57b2, l), t)
  {
    hide SymAt, Sum, Part, TimesA, Product;
    Combined(SymAt(0x3b6a57b2, l), SymAt(0x26508e6d, l), SymAt(0x1ea119fa, l), SymAt(0x3d4233dd, l),
             SymAt(0x2a1462b3, l), t);
  }

  /** The five constants are the generator polynomial times the powers of a. */
  lemma ConstantsScale(j: nat)
    requires j < 6
    ensures var l := 5 * j;
      && SymAt(0x3b6a57b2, l) == Coefficient(j) && SymAt(0x26508e6d, l) == TimesA(SymAt(0x3b6a57b2, l))
      && SymAt(0x1ea119fa, l) == TimesA(SymAt(0x26508e6d, l)) && SymAt(0x3d4233dd, l) == TimesA(SymAt(0x1ea119fa, l))
      && SymAt(0x2a1462b3, l) == TimesA(SymAt(0x3d4233dd, l))
  {
    hide SymAt, SymOf;
    Constant0();
    Constant1();
    Constant2();
    Constant3();
    Constant4();
    SymbolTable();
    assert j == 0 || j == 1 || j == 2 || j == 3 || j == 4 || j == 5;
  }

  /** What the shifted out symbol adds is its product with the generator. */
  lemma AddedIsProduct(t: Sym, j: nat)
    requires j < 6
    ensures Added(t, 5 * j) == Product(Coefficient(j), t)
  {
    hide SymAt, SymOf, Added, Product, TimesA, Coefficient;
    ConstantsScale(j);
    AddedIs(t, 5 * j);
  }

  lemma TopSymbol(v: nat)
    ensures SymOf(v / TWO25) == SymAt(v, 25)
  {
    hide Bit;
    BechPowers();
    BitDivided(v, 25, 0);
    BitDivided(v, 25, 1);
    BitDivided(v, 25, 2);
    BitDivided(v, 25, 3);
    BitDivided(v, 25, 4);
  }

  /** A symbol after a step, from the symbols before it. */
  lemma SymbolStep(v: nat, x: nat, l: nat)
    requires l == 0 || 5 <= l <= 25
    ensures SymAt(Xor(PolymodStep(v), x), l)
      == Sum(Sum(if l == 0 then NOTHING else SymAt(v, l - 5), Added(SymAt(v, 25), l)), SymAt(x, l))
  {
    hide Xor, Generator, Added, SymOf, SymAt, Sum;
    TopSymbol(v);
    GeneratorSymbol(v / TWO25, l);
    ShiftedSymbol(v, l);
    XorSymbol(PolymodStep(v), x, l);
    XorSymbol((v % TWO25) * 32, Generator(v / TWO25), l);
  }

  lemma NoHighBit(x: nat, l: nat)
    requires x < 32 && l >= 5
    ensures !Bit(x, l)
  {
    BechPowers();
    DivModUnique(x, 32, 0, x);
    BitDivided(x, 5, l - 5);
    BitZero(l - 5);
  }

  lemma NoHighBits(x: nat, l: nat)
    requires x < 32 && l >= 5
    ensures SymAt(x, l) == NOTHING
  {
    NoHighBit(x, l);
    NoHighBit(x, l + 1);
    NoHighBit(x, l + 2);
    NoHighBit(x, l + 3);
    NoHighBit(x, l + 4);
  }

  lemma LowSymbol(x: nat)
    ensures SymAt(x, 0) == SymOf(x)
  {}

  /** Feeding a symbol multiplies by x and adds the symbol, modulo the generator polynomial over the field: coefficient
      j becomes the one below it plus the top one times the generator's. */
  lemma StepIsProduct(v: nat, x: nat, j: nat)
    requires x < 32 && j < 6
    ensures SymAt(Xor(PolymodStep(v), x), 5 * j)
      == Sum(if j == 0 then SymOf(x) else SymAt(v, 5 * j - 5), Product(Coefficient(j), SymAt(v, 25)))
  {
    hide Xor, Bit, PolymodStep, SymAt, SymOf, Product, Added, Sum, Coefficient;
    var t := SymAt(v, 25);
    AddedIsProduct(t, j);
    if j == 0 {
      LowSymbol(x);
      SymbolStep(v, x, 0);
      LowestSymbol(Added(t, 0), SymOf(x));
    } else {
      HigherSymbol(v, x, 5 * j);
    }
  }

  /** The constant coefficient. */
  lemma LowestSymbol(s: Sym, x: Sym)
    ensures Sum(Sum(NOTHING, s), x) == Sum(x, s)
  {}

  lemma HigherSymbol(v: nat, x: nat, l: nat)
    requires x < 32 && 5 <= l <= 25
    ensures SymAt(Xor(PolymodStep(v), x), l) == Sum(SymAt(v, l - 5), Added(SymAt(v, 25), l))
  {
    hide Xor, PolymodStep, SymAt, Added;
    SymbolStep(v, x, l);
    NoHighBits(x, l);
    SumNothing(Sum(SymAt(v, l - 5), Added(SymAt(v, 25), l)));
  }

  lemma SumNothing(s: Sym)
    ensures Sum(s, NOTHING) == s
  {}

  // ---- the alphabet and a published string -----------------------------------------------------

  const ALPHABET: string := "qpzry9x8gf2tvdw0s3jn54khce6mua7l"

  /** The character of a symbol is the one at its place in the alphabet. */
  lemma AlphabetIs(v: nat)
    requires v < 32
    ensures |ALPHABET| == 32 && Charset(v) == ALPHABET[v] as int
  {}

  lemma NothingAdded(s: Sym, g: Sym)
    ensures Sum(s, Product(g, SymOf(0))) == s
  {
    hide Sum, Product, SymOf;
    SymbolTable();
    ProductNothing(g);
    SumNothing(s);
  }

  lemma ProductNothing(s: Sym)
    ensures Product(s, NOTHING) == NOTHING
  {}

  /** Without a top symbol the state only moves up. */
  lemma MovesUp(v: nat, x: nat, d0: nat, d1: nat, d2: nat, d3: nat, d4: nat)
    requires x < 32 && HasDigits(v, d0, d1, d2, d3, d4, 0)
    ensures HasDigits(Xor(PolymodStep(v), x), x, d0, d1, d2, d3, d4)
  {
    hide Xor, PolymodStep, SymAt, SymOf, Sum, Product, Coefficient;
    StepIsProduct(v, x, 0);
    StepIsProduct(v, x, 1);
    StepIsProduct(v, x, 2);
    StepIsProduct(v, x, 3);
    StepIsProduct(v, x, 4);
    StepIsProduct(v, x, 5);
    NothingAdded(SymOf(x), Coefficient(0));
    NothingAdded(SymOf(d0), Coefficient(1));
    NothingAdded(SymOf(d1), Coefficient(2));
    NothingAdded(SymOf(d2), Coefficient(3));
    NothingAdded(SymOf(d3), Coefficient(4));
    NothingAdded(SymOf(d4), Coefficient(5));
  }

  lemma FirstReduction(v: nat)
    requires HasDigits(v, 28, 10, 1, 0, 3, 1)
    ensures HasDigits(Xor(PolymodStep(v), 25), 11, 1, 31, 21, 22, 30)
  {
    hide Xor, PolymodStep, SymAt, SymOf;
    SymbolTable();
    StepIsProduct(v, 25, 0);
    StepIsProduct(v, 25, 1);
    StepIsProduct(v, 25, 2);
    StepIsProduct(v, 25, 3);
    StepIsProduct(v, 25, 4);
    StepIsProduct(v, 25, 5);
  }

  lemma SecondReduction(v: nat)
    requires HasDigits(v, 11, 1, 31, 21, 22, 30)
    ensures HasDigits(Xor(PolymodStep(v), 31), 6, 28, 16, 16, 15, 1)
  {
    hide Xor, PolymodStep, SymAt, SymOf;
    SymbolTable();
    StepIsProduct(v, 31, 0);
    StepIsProduct(v, 31, 1);
    StepIsProduct(v, 31, 2);
    StepIsProduct(v, 31, 3);
    StepIsProduct(v, 31, 4);
    StepIsProduct(v, 31, 5);
  }

  lemma ThirdReduction(v: nat)
    requires HasDigits(v, 6, 28, 16, 16, 15, 1)
    ensures HasDigits(Xor(PolymodStep(v), 20), 6, 27, 9, 4, 6, 18)
  {
    hide Xor, PolymodStep, SymAt, SymOf;
    SymbolTable();
    StepIsProduct(v, 20, 0);
    StepIsProduct(v, 20, 1);
    StepIsProduct(v, 20, 2);
    StepIsProduct(v, 20, 3);
    StepIsProduct(v, 20, 4);
    StepIsProduct(v, 20, 5);
  }

  lemma LastReduction(v: nat)
    requires HasDigits(v, 6, 27, 9, 4, 6, 18)
    ensures HasDigits(Xor(PolymodStep(v), 31), 1, 0, 0, 0, 0, 0)
  {
    hide Xor, PolymodStep, SymAt, SymOf;
    SymbolTable();
    StepIsProduct(v, 31, 0);
    StepIsProduct(v, 31, 1);
    StepIsProduct(v, 31, 2);
    StepIsProduct(v, 31, 3);
    StepIsProduct(v, 31, 4);
    StepIsProduct(v, 31, 5);
  }

  /** The nine symbols of the published string "a12uel5l": an a, a zero, and its checksum. */
  lemma PublishedState()
    ensures HasDigits(Polymod(1, [3, 0, 1, 10, 28, 25, 31, 20, 31]), 1, 0, 0, 0, 0, 0)
  {
    hide Xor, PolymodStep, HasDigits, Polymod;
    Symbols30(1, 1, 0, 0, 0, 0, 0);
    MovesUp(1, 3, 1, 0, 0, 0, 0);
    var v1 := Xor(PolymodStep(1), 3);
    MovesUp(v1, 0, 3, 1, 0, 0, 0);
    var v2 := Xor(PolymodStep(v1), 0);
    MovesUp(v2, 1, 0, 3, 1, 0, 0);
    var v3 := Xor(PolymodStep(v2), 1);
    MovesUp(v3, 10, 1, 0, 3, 1, 0);
    var v4 := Xor(PolymodStep(v3), 10);
    MovesUp(v4, 28, 10, 1, 0, 3, 1);
    var v5 := Xor(PolymodStep(v4), 28);
    FirstReduction(v5);
    var v6 := Xor(PolymodStep(v5), 25);
    SecondReduction(v6);
    var v7 := Xor(PolymodStep(v6), 31);
    ThirdReduction(v7);
    var v8 := Xor(PolymodStep(v7), 20);
    LastReduction(v8);
    var rest := [28, 25, 31, 20, 31];
    FourFed(1, 3, 0, 1, 10, rest);
    FourFed(v4, 28, 25, 31, 20, [31]);
    OneFed(v8, 31);
    assert [3, 0, 1, 10] + rest == [3, 0, 1, 10, 28, 25, 31, 20, 31];
    assert [28, 25, 31, 20] + [31] == rest;
  }

  lemma OneFed(chk: nat, a: nat)
    ensures Polymod(chk, [a]) == Xor(PolymodStep(chk), a)
  {
    hide Xor, PolymodStep;
    assert [a][1..] == [];
  }

  lemma Unfed(chk: nat, a: nat, rest: seq<nat>)
    ensures Polymod(chk, [a] + rest) == Polymod(Xor(PolymodStep(chk), a), rest)
  {
    hide Xor, PolymodStep;
    assert ([a] + rest)[1..] == rest;
  }

  lemma FourFed(chk: nat, a: nat, b: nat, c: nat, d: nat, rest: seq<nat>)
    ensures Polymod(chk, [a, b, c, d] + rest)
      == Polymod(Xor(PolymodStep(Xor(PolymodStep(Xor(PolymodStep(Xor(PolymodStep(chk), a)), b)), c)), d), rest)
  {
    hide Xor, PolymodStep, Polymod;
    var r3 := [d] + rest;
    var r2 := [c] + r3;
    var r1 := [b] + r2;
    assert [a, b, c, d] + rest == [a] + r1;
    Unfed(chk, a, r1);
    var v1 := Xor(PolymodStep(chk), a);
    Unfed(v1, b, r2);
    var v2 := Xor(PolymodStep(v1), b);
    Unfed(v2, c, r3);
    Unfed(Xor(PolymodStep(v2), c), d, rest);
  }

  /** Thirty bits are determined by their six symbols. */
  lemma DigitsDetermine(u: nat, v: nat, d0: nat, d1: nat, d2: nat, d3: nat, d4: nat, d5: nat)
    requires u < TWO30 && v < TWO30 && HasDigits(u, d0, d1, d2, d3, d4, d5) && HasDigits(v, d0, d1, d2, d3, d4, d5)
    ensures u == v
  {
    hide Bit, SymOf;
    BechPowers();
    forall l: nat | l < 30 ensures Bit(u, l) == Bit(v, l) {
      assert SymAt(u, 5 * (l / 5)) == SymAt(v, 5 * (l / 5));
      SymbolBit(u, v, 5 * (l / 5), l % 5);
    }
    BitsDetermine(u, v, 30);
  }

  lemma SymbolBit(u: nat, v: nat, l: nat, i: nat)
    requires SymAt(u, l) == SymAt(v, l) && i < 5
    ensures Bit(u, l + i) == Bit(v, l + i)
  {
    hide Bit;
  }

  lemma PublishedChecksum()
    ensures SymbolsOf(ChecksumOf([97], []), 6) == [10, 28, 25, 31, 20, 31]
  {
    hide Polymod, HasDigits, ChecksumOf, Xor;
    var sum := [10, 28, 25, 31, 20, 31];
    var all := [3, 0, 1, 10, 28, 25, 31, 20, 31];
    PublishedState();
    Symbols30(1, 1, 0, 0, 0, 0, 0);
    PolymodBound(1, all);
    DigitsDetermine(Polymod(1, all), 1, 1, 0, 0, 0, 0, 0);
    assert HrpValues([97]) + ([] + sum) == all;
    ChecksumDetermined([97], [], sum);
  }

  /** The encoder writes the shortest of the valid strings that BIP 173 lists, "a12uel5l". */
  lemma PublishedString()
    ensures Encode([97], []) == Some([97, 49, 50, 117, 101, 108, 53, 108])
  {
    hide Charset, CharsetRev, ChecksumOf, SymbolsOf, Encode;
    PublishedChecksum();
    SixCharacters();
    ShortEncoding([10, 28, 25, 31, 20, 31]);
    assert [97, 49] + [50, 117, 101, 108, 53, 108] == [97, 49, 50, 117, 101, 108, 53, 108];
  }

  lemma ShortEncoding(sum: seq<nat>)
    requires |sum| == 6 && Symbols(sum) && SymbolsOf(ChecksumOf([97], []), 6) == sum
    ensures Encode([97], []) == Some([97, 49] + Chars(sum))
  {
    hide ChecksumOf, Charset, CharsetRev, SymbolsOf;
    var data: seq<uint8> := [];
    assert ValidHrp([97]);
    assert data + sum == sum;
    assert [97] + [SEPARATOR] + Chars(sum) == [97, 49] + Chars(sum);
  }

  lemma SixCharacters()
    ensures Symbols([10, 28, 25, 31, 20, 31]) && Chars([10, 28, 25, 31, 20, 31]) == [50, 117, 101, 108, 53, 108]
  {}
}
