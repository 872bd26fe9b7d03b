/** What the operations of FIPS 180-2 on words compute: addition in numbers, selection and majority bit by bit. */
module WordLaws {
  import opened Memory
  import opened Fips180

  function CarryLeft(x: Word, y: Word, c: Word): Word { ((x & y) | (x & c) | (y & c)) << 1 }

  /** Addition modulo 2^32 is that done by hand, in binary: with nothing carried into the last digit, and into every other
      one the majority of the two digits and the carry to its right, each digit of the sum is the exclusive or of the two
      digits and the carry. */
  lemma AddIsByDigits(x: Word, y: Word, carry: Word)
    requires carry == CarryLeft(x, y, carry)
    ensures Add(x, y) == x ^ y ^ carry
  {}

  /** Any two words have such carries: they are found from right to left. */
  lemma CarriesExist(x: Word, y: Word) returns (carry: Word)
    ensures carry == CarryLeft(x, y, carry)
  {
    carry := CarriesAfter(x, y, 32);
    CarriesSettle(x, y, 32);
    AllOnes();
    NoDifference(carry, CarryLeft(x, y, carry));
  }

  function CarriesAfter(x: Word, y: Word, n: nat): Word {
    if n == 0 then 0 else CarryLeft(x, y, CarriesAfter(x, y, n - 1))
  }

  /** n ones. */
  function Ones(n: nat): Word {
    if n == 0 then 0 else (Ones(n - 1) << 1) | 1
  }

  predicate Agree(c: Word, d: Word, mask: Word) { (c ^ d) & mask == 0 }

  lemma {:induction false} CarriesSettle(x: Word, y: Word, n: nat)
    ensures Agree(CarriesAfter(x, y, n), CarryLeft(x, y, CarriesAfter(x, y, n)), Ones(n))
  {
    hide Agree, CarryLeft;
    var c := CarriesAfter(x, y, n);
    if n == 0 {
      NothingToAgreeOn(c, CarryLeft(x, y, c));
    } else {
      CarriesSettle(x, y, n - 1);
      OneMoreDigit(x, y, CarriesAfter(x, y, n - 1), c, Ones(n - 1));
    }
  }

  lemma NothingToAgreeOn(c: Word, d: Word)
    ensures Agree(c, d, 0)
  {}

  lemma OneMoreDigit(x: Word, y: Word, c: Word, d: Word, mask: Word)
    requires Agree(c, d, mask)
    ensures Agree(CarryLeft(x, y, c), CarryLeft(x, y, d), (mask << 1) | 1)
  {}

  lemma NoDifference(c: Word, d: Word)
    requires Agree(c, d, 0xFFFF_FFFF)
    ensures c == d
  {}

  lemma AllOnes()
    ensures Ones(32) == 0xFFFF_FFFF
  {
    assert Ones(8) == 0xFF;
    assert Ones(16) == 0xFFFF;
    assert Ones(24) == 0xFF_FFFF;
  }

  function Digit(x: Word): nat {
    if x & 1 == 1 then 1 else 0
  }

  function Half(x: Word): Word { x >> 1 }

  /** The number the last n binary digits of x stand for. */
  function Value(x: Word, n: nat): nat
    decreases n
  {
    if n == 0 then 0 else 2 * Value(Half(x), n - 1) + Digit(x)
  }

  /** The number a word stands for. */
  function Number(x: Word): nat {
    Value(x, 32)
  }

  function Parity(x: Word, y: Word, c: Word): Word { x ^ y ^ c }

  function Majority(x: Word, y: Word, c: Word): Word { (x & y) | (x & c) | (y & c) }

  /** Before each digit of c but the last there is the one of m that carries into it, as far as the mask goes. */
  predicate CarriedFrom(c: Word, m: Word, mask: Word) { (Half(c) ^ m) & Half(mask) == 0 }

  /** The last n digits of the mask are ones. */
  predicate Covers(mask: Word, n: nat)
    decreases n
  {
    n == 0 || (Digit(mask) == 1 && Covers(Half(mask), n - 1))
  }

  /** Adding the last n digits, with whatever is carried in from the right. */
  lemma {:induction false} DigitSum(x: Word, y: Word, c: Word, mask: Word, n: nat)
    requires CarriedFrom(c, Majority(x, y, c), mask) && Covers(mask, n)
    ensures Value(Parity(x, y, c), n) == (Value(x, n) + Value(y, n) + Digit(c)) % Pow2(n)
    decreases n
  {
    hide Half, Digit, Parity, Majority, CarriedFrom, Value;
    if n > 0 {
      var a, b := Value(Half(x), n - 1), Value(Half(y), n - 1);
      Halves(x, y, c, mask);
      DigitSum(Half(x), Half(y), Half(c), Half(mask), n - 1);
      SameCarry(x, y, c, mask, n, a + b);
      Combine(x, y, c, a, b, Pow2(n - 1));
      LastDigitOut(x, n);
      LastDigitOut(y, n);
      LastDigitOut(Parity(x, y, c), n);
    } else {
      NoDigits(0, Value(x, 0) + Value(y, 0) + Digit(c));
      NoValue(Parity(x, y, c));
    }
  }

  lemma LastDigitOut(x: Word, n: nat)
    requires n > 0
    ensures Value(x, n) == 2 * Value(Half(x), n - 1) + Digit(x)
  {}

  lemma NoValue(x: Word)
    ensures Value(x, 0) == 0
  {}

  /** What comes out of the last digits is what goes into the next; if there are no next ones, it does not matter. */
  lemma SameCarry(x: Word, y: Word, c: Word, mask: Word, n: nat, m: nat)
    requires n > 0 && CarriedFrom(c, Majority(x, y, c), mask) && Covers(mask, n)
    ensures (m + Digit(Half(c))) % Pow2(n - 1) == (m + Digit(Majority(x, y, c))) % Pow2(n - 1)
  {
    hide Half, Digit, Majority, CarriedFrom;
    if n > 1 {
      NextCarry(c, Majority(x, y, c), mask);
    } else {
      NoDigits(m + Digit(Half(c)), m + Digit(Majority(x, y, c)));
    }
  }

  lemma NoDigits(m: nat, k: nat)
    ensures m % Pow2(0) == 0 == k % Pow2(0)
  {}

  lemma Combine(x: Word, y: Word, c: Word, a: nat, b: nat, p: nat)
    requires p > 0
    ensures 2 * ((a + b + Digit(Majority(x, y, c))) % p) + Digit(Parity(x, y, c)) ==
              (2 * a + Digit(x) + (2 * b + Digit(y)) + Digit(c)) % (2 * p)
  {
    hide Digit, Majority, Parity;
    LastDigits(x, y, c);
    DoubleMod(a + b + Digit(Majority(x, y, c)), p, Digit(Parity(x, y, c)));
  }

  lemma AllCovered()
    ensures Covers(0xFFFF_FFFF, 32)
  {
    assert Covers(0x1, 1) && Covers(0x3, 2) && Covers(0x7, 3) && Covers(0xF, 4);
    assert Covers(0x1F, 5) && Covers(0x3F, 6) && Covers(0x7F, 7) && Covers(0xFF, 8);
    assert Covers(0x1FF, 9) && Covers(0x3FF, 10) && Covers(0x7FF, 11) && Covers(0xFFF, 12);
    assert Covers(0x1FFF, 13) && Covers(0x3FFF, 14) && Covers(0x7FFF, 15) && Covers(0xFFFF, 16);
    assert Covers(0x1FFFF, 17) && Covers(0x3FFFF, 18) && Covers(0x7FFFF, 19) && Covers(0xFFFFF, 20);
    assert Covers(0x1FFFFF, 21) && Covers(0x3FFFFF, 22) && Covers(0x7FFFFF, 23) && Covers(0xFFFFFF, 24);
    assert Covers(0x1FFFFFF, 25) && Covers(0x3FFFFFF, 26) && Covers(0x7FFFFFF, 27) && Covers(0xFFFFFFF, 28);
    assert Covers(0x1FFFFFFF, 29) && Covers(0x3FFFFFFF, 30) && Covers(0x7FFFFFFF, 31) && Covers(0xFFFFFFFF, 32);
  }

  /** Halving takes sums of digits and carries along. */
  lemma Halves(x: Word, y: Word, c: Word, mask: Word)
    requires CarriedFrom(c, Majority(x, y, c), mask)
    ensures Half(Parity(x, y, c)) == Parity(Half(x), Half(y), Half(c))
    ensures CarriedFrom(Half(c), Majority(Half(x), Half(y), Half(c)), Half(mask))
  {}

  lemma NextCarry(c: Word, m: Word, mask: Word)
    requires CarriedFrom(c, m, mask) && Digit(Half(mask)) == 1
    ensures Digit(Half(c)) == Digit(m)
  {}

  lemma LastDigits(x: Word, y: Word, c: Word)
    ensures Digit(x) + Digit(y) + Digit(c) == 2 * Digit(Majority(x, y, c)) + Digit(Parity(x, y, c))
    ensures Digit(Parity(x, y, c)) < 2
  {}

  lemma DoubleMod(m: nat, p: nat, d: nat)
    requires p > 0 && d < 2
    ensures 2 * (m % p) + d == (2 * m + d) % (2 * p)
  {
    var q, r := m / p, m % p;
    assert m == p * q + r;
    assert (2 * p) * q == 2 * (p * q);
    Quotient(2 * m + d, 2 * p, q, 2 * r + d);
  }

  /** Addition is that of numbers, reduced modulo 2^32. */
  lemma AddIsModular(x: Word, y: Word)
    ensures Number(Add(x, y)) == (Number(x) + Number(y)) % U32
  {
    hide Value, Pow2, Covers, Digit, Add, CarryLeft, CarriedFrom, Majority, Parity;
    var c := CarriesExist(x, y);
    AddIsByDigits(x, y, c);
    LeftIsCarried(x, y, c);
    AllCovered();
    DigitSum(x, y, c, 0xFFFF_FFFF, 32);
    PowerOf32();
  }

  lemma LeftIsCarried(x: Word, y: Word, c: Word)
    requires c == CarryLeft(x, y, c)
    ensures CarriedFrom(c, Majority(x, y, c), 0xFFFF_FFFF) && Digit(c) == 0 && Parity(x, y, c) == x ^ y ^ c
  {}

  lemma PowerOf32()
    ensures Pow2(32) == U32
  {
    assert Pow2(8) == 0x100;
    assert Pow2(16) == 0x1_0000;
    assert Pow2(24) == 0x100_0000;
  }

  /** Where x has a one, Ch takes the bit of y, elsewhere the bit of z. */
  lemma ChSelects(x: Word, y: Word, z: Word)
    ensures Ch(x, y, z) & x == y & x && Ch(x, y, z) & !x == z & !x
  {}

  /** Where two arguments agree, Maj has the bit they share ... */
  lemma MajIsMajority(x: Word, y: Word, z: Word)
    ensures Maj(x, y, z) & !(x ^ y) == x & !(x ^ y)
    ensures Maj(x, y, z) & !(y ^ z) == y & !(y ^ z)
    ensures Maj(x, y, z) & !(x ^ z) == z & !(x ^ z)
  {
    MajOfFirstTwo(x, y, z);
    MajOfLastTwo(x, y, z);
    MajOfOuterTwo(x, y, z);
  }

  lemma MajOfFirstTwo(x: Word, y: Word, z: Word)
    ensures Maj(x, y, z) & !(x ^ y) == x & !(x ^ y)
  {}

  lemma MajOfLastTwo(x: Word, y: Word, z: Word)
    ensures Maj(x, y, z) & !(y ^ z) == y & !(y ^ z)
  {}

  lemma MajOfOuterTwo(x: Word, y: Word, z: Word)
    ensures Maj(x, y, z) & !(x ^ z) == z & !(x ^ z)
  {}

  /** ... and in every place two of them agree. */
  lemma TwoAgree(x: Word, y: Word, z: Word)
    ensures !(x ^ y) | !(y ^ z) | !(x ^ z) == 0xFFFF_FFFF
  {}
}
