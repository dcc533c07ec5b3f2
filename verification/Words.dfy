/** 60-bit central memory words and their ten 6-bit characters. */
module Words {
  import opened Arithmetic

  const TWO24 := 0x100_0000
  const TWO30 := 0x4000_0000
  const TWO36 := 0x10_0000_0000
  const TWO48 := 0x1_0000_0000_0000
  const TWO60 := 0x1000_0000_0000_0000

  type Word = w: int | 0 <= w < TWO60
  type Char6 = c: int | 0 <= c < 64

  function Pow64(n: nat): (p: nat)
    ensures p > 0
  {
    if n == 0 then 1 else 64 * Pow64(n - 1)
  }

  /** The k-th character from the right: shift right by k characters, keep six bits. */
  function Digit(w: nat, k: nat): Char6 {
    if k == 0 then w % 64 else Digit(w / 64, k - 1)
  }

  /** `w` with its k-th character from the right cleared and `c` inserted. */
  function WithDigit(w: nat, k: nat, c: Char6): nat {
    if k == 0 then w - w % 64 + c else 64 * WithDigit(w / 64, k - 1, c) + w % 64
  }

  /** The character in position 0 (leftmost) to 9 of a word. */
  function GetChar(w: Word, pos: nat): Char6
    requires pos < 10
  {
    Digit(w, 9 - pos)
  }

  function PutChar(w: Word, pos: nat, c: Char6): Word
    requires pos < 10
  {
    WithDigitBounded(w, 9 - pos, c, 10);
    WithDigit(w, 9 - pos, c)
  }

  lemma {:induction false} WithDigitBounded(w: nat, k: nat, c: Char6, n: nat)
    requires k < n && w < Pow64(n)
    ensures WithDigit(w, k, c) < Pow64(n)
  {
    if k > 0 {
      WithDigitBounded(w / 64, k - 1, c, n - 1);
    }
  }

  lemma {:induction false} DigitOfWithDigit(w: nat, k: nat, c: Char6, j: nat)
    ensures Digit(WithDigit(w, k, c), j) == if j == k then c else Digit(w, j)
  {
    if k > 0 && j > 0 {
      DigitOfWithDigit(w / 64, k - 1, c, j - 1);
    }
  }

  /** Position 0 is the top six bits of a word, position 9 the lowest. */
  lemma CharacterBits(w: Word, pos: nat)
    requires pos < 10
    ensures GetChar(w, pos) == w / Pow64(9 - pos) % 64
  {
    DigitIs(w, 9 - pos);
  }

  lemma {:induction false} DigitIs(w: nat, k: nat)
    ensures Digit(w, k) == w / Pow64(k) % 64
  {
    if k > 0 {
      DigitIs(w / 64, k - 1);
      DivTwice(w, 64, Pow64(k - 1));
    }
  }

  /** Putting a character changes that position and no other. */
  lemma GetAfterPut(w: Word, pos: nat, c: Char6, q: nat)
    requires pos < 10 && q < 10
    ensures GetChar(PutChar(w, pos, c), q) == if q == pos then c else GetChar(w, q)
  {
    DigitOfWithDigit(w, 9 - pos, c, 9 - q);
  }

  /** A word is determined by its ten characters. */
  lemma {:induction false} DigitsDetermine(w: nat, v: nat, n: nat)
    requires w < Pow64(n) && v < Pow64(n)
    requires forall k | 0 <= k < n :: Digit(w, k) == Digit(v, k)
    ensures w == v
  {
    if n > 0 {
      assert Digit(w, 0) == Digit(v, 0);
      forall k | 0 <= k < n - 1
        ensures Digit(w / 64, k) == Digit(v / 64, k)
      {
        assert Digit(w, k + 1) == Digit(v, k + 1);
      }
      DigitsDetermine(w / 64, v / 64, n - 1);
    }
  }
}
