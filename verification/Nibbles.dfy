/** Bytes and 60-bit words as strings of four-bit digits. */
module Nibbles {
  import opened Sequences
  import opened Words

  type nibble = n: int | 0 <= n < 16

  function Pow16(n: nat): (r: nat)
    ensures r > 0
  {
    if n == 0 then 1 else 16 * Pow16(n - 1)
  }

  /** The number a string of digits stands for. */
  function Value(ns: seq<nibble>): nat {
    if ns == [] then 0 else 16 * Value(ns[..|ns| - 1]) + ns[|ns| - 1]
  }

  /** A number as n digits. */
  function Digits(v: nat, n: nat): (r: seq<nibble>)
    ensures |r| == n
  {
    if n == 0 then [] else Digits(v / 16, n - 1) + [v % 16]
  }

  lemma {:induction false} ValueOfDigits(v: nat, n: nat)
    requires v < Pow16(n)
    ensures Value(Digits(v, n)) == v
  {
    if n > 0 {
      ValueOfDigits(v / 16, n - 1);
      assert Digits(v, n)[..n - 1] == Digits(v / 16, n - 1);
    }
  }

  lemma {:induction false} DigitsOfValue(ns: seq<nibble>)
    ensures Digits(Value(ns), |ns|) == ns && Value(ns) < Pow16(|ns|)
  {
    if ns != [] {
      DigitsOfValue(ns[..|ns| - 1]);
    }
  }

  lemma Regroup(a: int, p: int)
    ensures a * (16 * p) == 16 * (a * p)
  {
  }

  lemma {:induction false} ValueFirst(ns: seq<nibble>)
    requires ns != []
    ensures Value(ns) == ns[0] * Pow16(|ns| - 1) + Value(ns[1..])
  {
    var n := |ns| - 1;
    if n > 0 {
      ValueFirst(ns[..n]);
      assert ns[..n][1..] == ns[1..][..n - 1];
      Regroup(ns[0], Pow16(n - 1));
    }
  }

  lemma FifteenDigits()
    ensures Pow16(15) == TWO60
  {
    assert Pow16(5) == 0x10_0000;
    assert Pow16(10) == 0x100_0000_0000;
  }

  /** Each byte is two digits. */
  function NibblesOf(bs: seq<byte>): (r: seq<nibble>)
    ensures |r| == 2 * |bs|
  {
    if bs == [] then [] else [bs[0] / 16, bs[0] % 16] + NibblesOf(bs[1..])
  }

  function BytesOf(ns: seq<nibble>): (r: seq<byte>)
    requires |ns| % 2 == 0
    ensures |r| == |ns| / 2
  {
    if ns == [] then [] else [16 * (ns[0] as int) + ns[1]] + BytesOf(ns[2..])
  }

  lemma {:induction false} NibblesOfBytesOf(ns: seq<nibble>)
    requires |ns| % 2 == 0
    ensures NibblesOf(BytesOf(ns)) == ns
  {
    if ns != [] {
      NibblesOfBytesOf(ns[2..]);
    }
  }

  lemma {:induction false} BytesOfNibblesOf(bs: seq<byte>)
    ensures BytesOf(NibblesOf(bs)) == bs
  {
    if bs != [] {
      BytesOfNibblesOf(bs[1..]);
      assert NibblesOf(bs)[2..] == NibblesOf(bs[1..]);
    }
  }

  lemma {:induction false} NibblesOfBoth(a: seq<byte>, b: seq<byte>)
    ensures NibblesOf(a + b) == NibblesOf(a) + NibblesOf(b)
  {
    if a == [] {
      assert a + b == b;
    } else {
      assert (a + b)[1..] == a[1..] + b;
      NibblesOfBoth(a[1..], b);
    }
  }

  /** A word is fifteen digits. */
  function NibblesOfWords(wl: seq<nat>): (r: seq<nibble>)
    ensures |r| == 15 * |wl|
  {
    if wl == [] then [] else Digits(wl[0], 15) + NibblesOfWords(wl[1..])
  }

  predicate AllWords(wl: seq<nat>) {
    forall i | 0 <= i < |wl| :: wl[i] < TWO60
  }

  lemma {:induction false} NibblesOfOneMore(wl: seq<nat>, w: nat)
    ensures NibblesOfWords(wl + [w]) == NibblesOfWords(wl) + Digits(w, 15)
  {
    if wl != [] {
      assert (wl + [w])[1..] == wl[1..] + [w];
      NibblesOfOneMore(wl[1..], w);
    }
  }

  /** The words in a string of digits; fewer than fifteen digits are left over. */
  function WordsOf(ns: seq<nibble>): (r: seq<nat>)
    ensures |r| == |ns| / 15
  {
    if |ns| < 15 then [] else [Value(ns[..15])] + WordsOf(ns[15..])
  }

  /** Digits that are words, and less than a word more, are those words. */
  lemma {:induction false} WordsOfNibbles(wl: seq<nat>, more: seq<nibble>)
    requires AllWords(wl) && |more| < 15
    ensures WordsOf(NibblesOfWords(wl) + more) == wl
  {
    if wl != [] {
      var rest := NibblesOfWords(wl[1..]) + more;
      var ns := NibblesOfWords(wl) + more;
      assert ns == Digits(wl[0], 15) + rest;
      FifteenDigits();
      ValueOfDigits(wl[0], 15);
      WordsOfNibbles(wl[1..], more);
    }
  }

  /** Eight bytes as one number, and back. */
  function Unpack(bs: seq<byte>): nat {
    if bs == [] then 0 else 256 * Unpack(bs[..|bs| - 1]) + bs[|bs| - 1]
  }

  function Pack(v: nat, n: nat): (r: seq<byte>)
    ensures |r| == n
  {
    if n == 0 then [] else Pack(v / 256, n - 1) + [v % 256]
  }

  lemma {:induction false} UnpackIsValue(bs: seq<byte>)
    ensures Unpack(bs) == Value(NibblesOf(bs))
  {
    if bs != [] {
      var n := |bs| - 1;
      UnpackIsValue(bs[..n]);
      assert bs == bs[..n] + [bs[n]];
      NibblesOfBoth(bs[..n], [bs[n]]);
      var ns := NibblesOf(bs);
      assert ns == NibblesOf(bs[..n]) + [bs[n] / 16, bs[n] % 16];
      assert ns[..2 * n + 1][..2 * n] == NibblesOf(bs[..n]);
    }
  }

  lemma {:induction false} PackIsDigits(v: nat, n: nat)
    ensures NibblesOf(Pack(v, n)) == Digits(v, 2 * n)
  {
    if n > 0 {
      PackIsDigits(v / 256, n - 1);
      NibblesOfBoth(Pack(v / 256, n - 1), [v % 256]);
      assert Digits(v, 2 * n) == Digits(v / 16 / 16, 2 * n - 2) + [v / 16 % 16] + [v % 16];
      assert v / 16 / 16 == v / 256 && v % 256 / 16 == v / 16 % 16 && v % 256 % 16 == v % 16;
    }
  }

  lemma TopDigit(c: nibble, w: nat, n: nat)
    requires w < Pow16(n)
    ensures Digits(c * Pow16(n) + w, n + 1) == [c] + Digits(w, n)
  {
    var ns := [c] + Digits(w, n);
    ValueOfDigits(w, n);
    ValueFirst(ns);
    DigitsOfValue(ns);
  }

  lemma LowDigits(w: nat, n: nat)
    requires n > 0
    ensures Digits(16 * w, n + 1) == Digits(w, n) + [0]
    ensures Digits(w, n)[n - 1] == w % 16
  {
  }
}
