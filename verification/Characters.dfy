/** The field length as a string of characters, and the character move on such strings. */
module Characters {
  import opened Arithmetic
  import opened Words

  /** The characters of the field that begins at word `ra` and is `fl` words long. */
  function FieldChars(mem: seq<Word>, ra: nat, fl: nat): (f: seq<Char6>)
    requires ra + fl <= |mem|
    ensures |f| == 10 * fl
  {
    seq(10 * fl, i requires 0 <= i < 10 * fl => GetChar(mem[ra + i / 10], i % 10))
  }

  lemma FieldCharAt(mem: seq<Word>, ra: nat, fl: nat, k: nat, pos: nat)
    requires ra + fl <= |mem| && k < fl && pos < 10
    ensures FieldChars(mem, ra, fl)[10 * k + pos] == GetChar(mem[ra + k], pos)
  {
  }

  /** Storing a character in a word of the field stores it in the string. */
  lemma PutFieldChar(mem: seq<Word>, ra: nat, fl: nat, k: nat, pos: nat, c: Char6)
    requires ra + fl <= |mem| && k < fl && pos < 10
    ensures FieldChars(mem[ra + k := PutChar(mem[ra + k], pos, c)], ra, fl)
            == FieldChars(mem, ra, fl)[10 * k + pos := c]
  {
    hide GetChar, PutChar;
    var mem' := mem[ra + k := PutChar(mem[ra + k], pos, c)];
    forall i | 0 <= i < 10 * fl
      ensures FieldChars(mem', ra, fl)[i] == FieldChars(mem, ra, fl)[10 * k + pos := c][i]
    {
      if i / 10 == k {
        GetAfterPut(mem[ra + k], pos, c, i % 10);
      }
    }
  }

  /** The string determines the words of the field. */
  lemma FieldDetermined(mem: seq<Word>, mem': seq<Word>, ra: nat, fl: nat, k: nat)
    requires ra + fl <= |mem| && ra + fl <= |mem'| && k < fl
    requires FieldChars(mem, ra, fl) == FieldChars(mem', ra, fl)
    ensures mem[ra + k] == mem'[ra + k]
  {
    var w, v := mem[ra + k], mem'[ra + k];
    forall j | 0 <= j < 10
      ensures Digit(w, j) == Digit(v, j)
    {
      FieldCharAt(mem, ra, fl, k, 9 - j);
      FieldCharAt(mem', ra, fl, k, 9 - j);
    }
    DigitsDetermine(w, v, 10);
  }

  /** Copies n characters from s to d one at a time, first to last. */
  function ForwardCopy(f: seq<Char6>, s: nat, d: nat, n: nat): (r: seq<Char6>)
    requires n == 0 || (s + n <= |f| && d + n <= |f|)
    ensures |r| == |f|
  {
    if n == 0 then f
    else
      var g := ForwardCopy(f, s, d, n - 1);
      g[d + n - 1 := g[s + n - 1]]
  }

  lemma CopyNothing(f: seq<Char6>, s: nat, d: nat)
    ensures ForwardCopy(f, s, d, 0) == f
  {
  }

  lemma CopyOneMore(f: seq<Char6>, s: nat, d: nat, n: nat)
    requires s + n < |f| && d + n < |f|
    ensures ForwardCopy(f, s, d, n + 1) == ForwardCopy(f, s, d, n)[d + n := ForwardCopy(f, s, d, n)[s + n]]
  {
  }

  /** How many characters can be moved before a range runs out of the string. */
  function Room(size: nat, s: nat, d: nat): nat {
    if size <= s || size <= d then 0 else if s < d then size - d else size - s
  }

  /** Only the destination changes. */
  lemma {:induction false} CopyKeepsRest(f: seq<Char6>, s: nat, d: nat, n: nat, i: nat)
    requires s + n <= |f| && d + n <= |f| && i < |f|
    requires i < d || d + n <= i
    ensures ForwardCopy(f, s, d, n)[i] == f[i]
  {
    if n > 0 {
      CopyKeepsRest(f, s, d, n - 1, i);
    }
  }

  /** Unless the destination begins inside the source, the move is a simultaneous copy. */
  lemma {:induction false} CopyBackwardsOverlap(f: seq<Char6>, s: nat, d: nat, n: nat)
    requires s + n <= |f| && d + n <= |f|
    requires d <= s || s + n <= d
    ensures ForwardCopy(f, s, d, n) == f[..d] + f[s..s + n] + f[d + n..]
  {
    if n > 0 {
      CopyBackwardsOverlap(f, s, d, n - 1);
      CopyKeepsRest(f, s, d, n - 1, s + n - 1);
      var g := ForwardCopy(f, s, d, n - 1);
      var copied := f[..d] + f[s..s + n] + f[d + n..];
      forall i | 0 <= i < |f|
        ensures g[d + n - 1 := g[s + n - 1]][i] == copied[i]
      {
        assert g[i] == (f[..d] + f[s..s + (n - 1)] + f[d + (n - 1)..])[i];
      }
    }
  }

  /** If it begins inside the source, the characters between them are repeated. */
  lemma {:induction false} CopyForwardsOverlap(f: seq<Char6>, s: nat, d: nat, n: nat, i: nat)
    requires s < d && d + n <= |f| && i < n
    ensures ForwardCopy(f, s, d, n)[d + i] == f[s + i % (d - s)]
  {
    if i < n - 1 {
      CopyForwardsOverlap(f, s, d, n - 1, i);
    } else if i < d - s {
      CopyKeepsRest(f, s, d, n - 1, s + i);
      SmallRemainder(i, d - s);
    } else {
      CopyForwardsOverlap(f, s, d, n - 1, i - (d - s));
      RemainderPeriod(i, d - s);
    }
  }

  /** A character's place in the collating order, unless the table does not reach that far. */
  datatype Place = At(n: int) | Beyond

  type Key = Char6 -> Place

  datatype Judgement = Less | Same | Greater | Unknown

  /** Characters that differ are told apart by their places. */
  function Judge(key: Key, a: Char6, b: Char6): Judgement {
    if a == b then Same
    else match (key(a), key(b))
      case (At(m), At(n)) => if m < n then Less else if m > n then Greater else Same
      case _ => Unknown
  }

  function JudgeAt(f: seq<Char6>, key: Key, s: nat, d: nat, i: nat): Judgement
    requires s + i < |f| && d + i < |f|
  {
    Judge(key, f[s + i], f[d + i])
  }

  /**
   The comparison from (s, d) with `left` characters to go: 0 if no difference is met, otherwise
   the number of characters from the difference to the end, negative if the first string is
   smaller there.
   */
  function Comparison(f: seq<Char6>, key: Key, s: nat, d: nat, left: nat): (c: int)
    ensures -(left as int) <= c <= left
    decreases left
  {
    if left == 0 || |f| <= s || |f| <= d then 0
    else match Judge(key, f[s], f[d])
      case Less => 0 - left
      case Greater => left
      case Same => Comparison(f, key, s + 1, d + 1, left - 1)
      case Unknown => 0
  }

  /** Whether the comparison leaves the string, or the table, before it meets a difference or the
      end. */
  predicate RunsOut(f: seq<Char6>, key: Key, s: nat, d: nat, left: nat)
    decreases left
  {
    && left > 0
    && (|f| <= s || |f| <= d || Judge(key, f[s], f[d]).Unknown?
        || (Judge(key, f[s], f[d]).Same? && RunsOut(f, key, s + 1, d + 1, left - 1)))
  }

  /** The result of a comparison, and whether it ran out. */
  function Verdict(f: seq<Char6>, key: Key, s: nat, d: nat, left: nat): (v: (int, bool))
    ensures -(left as int) <= v.0 <= left
  {
    (Comparison(f, key, s, d, left), RunsOut(f, key, s, d, left))
  }

  lemma VerdictStep(f: seq<Char6>, key: Key, s: nat, d: nat, left: nat)
    ensures Verdict(f, key, s, d, left) ==
              if left == 0 then (0, false)
              else if |f| <= s || |f| <= d then (0, true)
              else match Judge(key, f[s], f[d])
                case Less => (0 - left, false)
                case Greater => (left, false)
                case Same => Verdict(f, key, s + 1, d + 1, left - 1)
                case Unknown => (0, true)
  {
    hide Judge;
  }

  /** The first `end` characters are the same in the order. */
  ghost predicate SameFor(f: seq<Char6>, key: Key, s: nat, d: nat, end: int) {
    end > 0 ==> s + end <= |f| && d + end <= |f| && forall i | 0 <= i < end :: JudgeAt(f, key, s, d, i) == Same
  }

  lemma SameForOneMore(f: seq<Char6>, key: Key, s: nat, d: nat, end: nat)
    requires s < |f| && d < |f| && Judge(key, f[s], f[d]).Same? && SameFor(f, key, s + 1, d + 1, end)
    ensures SameFor(f, key, s, d, end + 1)
  {
    hide Judge;
    forall i | 0 <= i < end + 1
      ensures s + i < |f| && d + i < |f| && JudgeAt(f, key, s, d, i) == Same
    {
      if i > 0 {
        assert JudgeAt(f, key, s + 1, d + 1, i - 1) == Same;
      }
    }
  }

  /** Unless it runs out, 0 means equal in the order, and anything else points at the first
      difference and tells its direction. If it runs out the result is 0. */
  lemma {:induction false} ComparisonMeaning(f: seq<Char6>, key: Key, s: nat, d: nat, n: nat)
    ensures var c := Comparison(f, key, s, d, n);
            if RunsOut(f, key, s, d, n) then c == 0
            else if c == 0 then SameFor(f, key, s, d, n)
            else
              var first := n - (if c < 0 then 0 - c else c);
              && 0 <= first < n && s + first < |f| && d + first < |f|
              && SameFor(f, key, s, d, first)
              && JudgeAt(f, key, s, d, first) == if c < 0 then Less else Greater
    decreases n
  {
    hide Judge, SameFor, Comparison, RunsOut;
    VerdictStep(f, key, s, d, n);
    SameForNone(f, key, s, d);
    if n > 0 && s < |f| && d < |f| && Judge(key, f[s], f[d]).Same? {
      ComparisonMeaning(f, key, s + 1, d + 1, n - 1);
      var c := Comparison(f, key, s + 1, d + 1, n - 1);
      var end := if c == 0 then n - 1 else n - 1 - (if c < 0 then 0 - c else c);
      if !RunsOut(f, key, s + 1, d + 1, n - 1) {
        SameForOneMore(f, key, s, d, end);
      }
    }
  }

  lemma SameForNone(f: seq<Char6>, key: Key, s: nat, d: nat)
    ensures SameFor(f, key, s, d, 0)
  {
  }

  /** Within the string and the table it does not run out. */
  lemma {:induction false} InRangeNeverRunsOut(f: seq<Char6>, key: Key, s: nat, d: nat, n: nat)
    requires s + n <= |f| && d + n <= |f| && forall c :: key(c).At?
    ensures !RunsOut(f, key, s, d, n)
    decreases n
  {
    if n > 0 {
      InRangeNeverRunsOut(f, key, s + 1, d + 1, n - 1);
    }
  }
}
