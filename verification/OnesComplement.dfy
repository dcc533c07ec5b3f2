/** The 18-bit ones-complement arithmetic of the address and index registers. */
module OnesComplement {
  import opened Arithmetic

  const MASK18 := 0x3FFFF
  const TWO18 := 0x40000
  const SIGN18 := 0x20000
  const TWO32 := 0x1_0000_0000

  type u18 = n: int | 0 <= n < TWO18
  type u32 = n: int | 0 <= n < TWO32

  function Complement(a: u18): u18 {
    MASK18 - a
  }

  /** The host's subtraction of unsigned 32-bit integers. */
  function Minus32(a: u32, b: u32): u32 {
    (a - b) % TWO32
  }

  predicate Overflowed(acc: u32) {
    acc / TWO18 % 2 != 0
  }

  /** The subtractive adder: subtract the complement, then take the end-around borrow. */
  function Add18(op1: u32, op2: u32): (sum: u18)
    ensures sum == Sum(op1 % TWO18, op2 % TWO18)
  {
    var acc := Minus32(op1 % TWO18, Complement(op2 % TWO18));
    if Overflowed(acc) then Minus32(acc, 1) % TWO18 else acc
  }

  function Subtract18(op1: u32, op2: u32): (difference: u18)
    ensures difference == Sum(op1 % TWO18, Complement(op2 % TWO18))
  {
    var acc := Minus32(op1 % TWO18, op2 % TWO18);
    if Overflowed(acc) then Minus32(acc, 1) % TWO18 else acc
  }

  /** Addition with end-around carry; two numbers that cancel give positive zero. */
  function Sum(a: u18, b: u18): u18 {
    if a + b < MASK18 then a + b else a + b - MASK18
  }

  lemma AddIs(a: u18, b: u18)
    ensures Add18(a, b) == Sum(a, b)
  {
    hide Add18;
    SmallRemainder(a, TWO18);
    SmallRemainder(b, TWO18);
  }

  /** The integer a register stands for; both zeros stand for 0. */
  function Value(a: u18): int {
    if a < SIGN18 then a else a - MASK18
  }

  /** `Add18` is addition modulo 2^18 - 1, and answers negative zero to two negative zeros only. */
  lemma AddMeaning(a: u18, b: u18)
    ensures (Add18(a, b) - (a + b)) % MASK18 == 0
    ensures Add18(a, b) == MASK18 <==> a == MASK18 && b == MASK18
    ensures -SIGN18 < Value(a) + Value(b) < SIGN18 ==> Value(Add18(a, b)) == Value(a) + Value(b)
    ensures Add18(a, Complement(a)) == 0
  {
    hide Add18;
  }

  lemma AddCommutes(a: u32, b: u32)
    ensures Add18(a, b) == Add18(b, a)
  {
  }

  lemma AddAssociates(a: u32, b: u32, c: u32)
    ensures Add18(Add18(a, b), c) == Add18(a, Add18(b, c))
  {
    hide Add18;
  }

  lemma SubtractAddsComplement(a: u32, b: u32)
    ensures Subtract18(a, b) == Add18(a, Complement(b % TWO18))
  {
    hide Add18, Subtract18;
  }

  /** Which sign the difference of the sign bits has, as the jumps compute it. */
  function SignDifference(bi: u18, bj: u18): int {
    bi / SIGN18 * SIGN18 - bj / SIGN18 * SIGN18
  }

  function Difference(bi: u18, bj: u18): u32 {
    var acc := Minus32(bi, bj);
    if Overflowed(acc) && acc % TWO18 != 0 then Minus32(acc, 1) else acc
  }

  predicate SignBit(acc: u32) {
    acc / SIGN18 % 2 != 0
  }

  /** GE Bi Bj: whether the jump is taken. */
  predicate JumpGE(bi: u18, bj: u18) {
    var signDiff := SignDifference(bi, bj);
    if signDiff > 0 then false
    else if signDiff == 0 then !SignBit(Difference(bi, bj))
    else true
  }

  /** LT Bi Bj: whether the jump is taken. */
  predicate JumpLT(bi: u18, bj: u18) {
    var signDiff := SignDifference(bi, bj);
    if signDiff < 0 then false
    else if signDiff == 0 then !(!SignBit(Difference(bi, bj)) || Difference(bi, bj) == 0)
    else true
  }

  /** Position in the order the jumps decide: by value, with -0 just below +0. */
  function Rank(a: u18): int {
    if a < SIGN18 then a else a - TWO18
  }

  /** GE and LT are exact opposites, and they decide the order of `Rank`. */
  lemma JumpsDecideRank(bi: u18, bj: u18)
    ensures JumpGE(bi, bj) <==> Rank(bi) >= Rank(bj)
    ensures JumpLT(bi, bj) <==> Rank(bi) < Rank(bj)
  {
  }

  /** That order extends the order of the values and is total: ranks are distinct. */
  lemma RankExtendsValue(a: u18, b: u18)
    ensures Value(a) < Value(b) ==> Rank(a) < Rank(b)
    ensures Rank(a) == Rank(b) <==> a == b
    ensures Rank(a) < Rank(b) && Value(a) == Value(b) <==> a == MASK18 && b == 0
  {
  }
}
