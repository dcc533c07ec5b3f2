/**
 The floppy: sectors of 128 bytes in the image, each followed on the wire by a check word that
 is not in the image.
 */
module Floppy {

  const SECTOR := 128

  function RotateLeft(b: bv8): bv8 { (b << 1) | (b >> 7) }

  function RotateRight(b: bv8): bv8 { (b >> 1) | (b << 7) }

  function Xor(a: bv8, b: bv8): bv8 { a ^ b }

  /** The two halves of the check word. */
  datatype Check = Check(upper: bv8, lower: bv8)

  const CLEAR := Check(0, 0)

  function Add(c: Check, b: bv8): Check {
    Check(RotateLeft(Xor(c.upper, b)), RotateRight(Xor(c.lower, b)))
  }

  /** The check word after a sequence of bytes. */
  function AddAll(c: Check, bytes: seq<bv8>): Check
    decreases |bytes|
  {
    if bytes == [] then c else AddAll(Add(c, bytes[0]), bytes[1..])
  }

  function LeftBy(b: bv8, n: nat): bv8
    decreases n
  {
    if n == 0 then b else LeftBy(RotateLeft(b), n - 1)
  }

  function RightBy(b: bv8, n: nat): bv8
    decreases n
  {
    if n == 0 then b else RightBy(RotateRight(b), n - 1)
  }

  /** Each byte rotated by how far it is from the end, all combined. */
  function CombineLeft(bytes: seq<bv8>): bv8 {
    if bytes == [] then 0 else Xor(LeftBy(bytes[0], |bytes|), CombineLeft(bytes[1..]))
  }

  function CombineRight(bytes: seq<bv8>): bv8 {
    if bytes == [] then 0 else Xor(RightBy(bytes[0], |bytes|), CombineRight(bytes[1..]))
  }

  lemma RotateXor(a: bv8, b: bv8)
    ensures RotateLeft(Xor(a, b)) == Xor(RotateLeft(a), RotateLeft(b))
    ensures RotateRight(Xor(a, b)) == Xor(RotateRight(a), RotateRight(b))
  {
  }

  lemma XorAssociates(a: bv8, b: bv8, c: bv8)
    ensures Xor(a, Xor(b, c)) == Xor(Xor(a, b), c)
  {
  }

  lemma XorZero(a: bv8, b: bv8)
    ensures Xor(a, 0) == a && (Xor(a, b) == 0 <==> a == b)
  {
  }

  /** (a b)(c d) and (a c)(b d) combine to the same. */
  lemma XorSwap(a: bv8, b: bv8, c: bv8, d: bv8)
    ensures Xor(Xor(a, b), Xor(c, d)) == Xor(Xor(a, c), Xor(b, d))
  {
    XorAssociates(a, b, Xor(c, d));
    XorAssociates(b, c, d);
    XorCommutes(b, c);
    XorAssociates(c, b, d);
    XorAssociates(a, c, Xor(b, d));
    hide Xor;
  }

  lemma XorCommutes(a: bv8, b: bv8)
    ensures Xor(a, b) == Xor(b, a)
  {
  }

  lemma XorCancels(a: bv8, b: bv8, c: bv8)
    ensures Xor(a, b) == Xor(a, c) <==> b == c
  {
  }

  lemma XorSolve(a: bv8, b: bv8)
    ensures Xor(a, Xor(a, b)) == b
  {
  }

  lemma {:induction false} LeftByXor(a: bv8, b: bv8, n: nat)
    ensures LeftBy(Xor(a, b), n) == Xor(LeftBy(a, n), LeftBy(b, n))
    decreases n
  {
    hide RotateLeft, Xor;
    if n > 0 {
      RotateXor(a, b);
      LeftByXor(RotateLeft(a), RotateLeft(b), n - 1);
    }
  }

  lemma {:induction false} RightByXor(a: bv8, b: bv8, n: nat)
    ensures RightBy(Xor(a, b), n) == Xor(RightBy(a, n), RightBy(b, n))
    decreases n
  {
    hide RotateRight, Xor;
    if n > 0 {
      RotateXor(a, b);
      RightByXor(RotateRight(a), RotateRight(b), n - 1);
    }
  }

  /** The check word of a sequence, from any earlier check word, is given by rotations alone. */
  lemma {:induction false} CheckIsCombined(c: Check, bytes: seq<bv8>)
    ensures AddAll(c, bytes).upper == Xor(LeftBy(c.upper, |bytes|), CombineLeft(bytes))
    ensures AddAll(c, bytes).lower == Xor(RightBy(c.lower, |bytes|), CombineRight(bytes))
    decreases |bytes|
  {
    hide RotateLeft, RotateRight, Xor;
    if bytes == [] {
      XorZero(c.upper, 0);
      XorZero(c.lower, 0);
    } else {
      var n, b, rest := |bytes|, bytes[0], bytes[1..];
      CheckIsCombined(Add(c, b), rest);
      LeftByXor(c.upper, b, n);
      RightByXor(c.lower, b, n);
      XorAssociates(LeftBy(c.upper, n), LeftBy(b, n), CombineLeft(rest));
      XorAssociates(RightBy(c.lower, n), RightBy(b, n), CombineRight(rest));
    }
  }

  /** Byte by byte, where two sequences differ. */
  function Differences(a: seq<bv8>, b: seq<bv8>): (d: seq<bv8>)
    requires |a| == |b|
    ensures |d| == |a|
  {
    seq(|a|, i requires 0 <= i < |a| => Xor(a[i], b[i]))
  }

  lemma {:induction false} CombineDifferences(a: seq<bv8>, b: seq<bv8>)
    requires |a| == |b|
    ensures CombineLeft(Differences(a, b)) == Xor(CombineLeft(a), CombineLeft(b))
    ensures CombineRight(Differences(a, b)) == Xor(CombineRight(a), CombineRight(b))
  {
    hide RotateLeft, RotateRight, Xor;
    if a == [] {
      XorZero(0, 0);
    } else {
      var n := |a|;
      assert Differences(a, b)[1..] == Differences(a[1..], b[1..]);
      CombineDifferences(a[1..], b[1..]);
      LeftByXor(a[0], b[0], n);
      RightByXor(a[0], b[0], n);
      XorSwap(LeftBy(a[0], n), LeftBy(b[0], n), CombineLeft(a[1..]), CombineLeft(b[1..]));
      XorSwap(RightBy(a[0], n), RightBy(b[0], n), CombineRight(a[1..]), CombineRight(b[1..]));
    }
  }

  /** Sequences of one length have the same check word if and only if their differences combine
      to nothing in both halves, whatever the check word was before. */
  lemma SameCheckIff(c: Check, a: seq<bv8>, b: seq<bv8>)
    requires |a| == |b|
    ensures AddAll(c, a) == AddAll(c, b) <==>
            CombineLeft(Differences(a, b)) == 0 && CombineRight(Differences(a, b)) == 0
  {
    hide RotateLeft, RotateRight, AddAll, CombineLeft, CombineRight, LeftBy, RightBy, Xor, Differences;
    CheckIsCombined(c, a);
    CheckIsCombined(c, b);
    CombineDifferences(a, b);
    XorZero(CombineLeft(a), CombineLeft(b));
    XorZero(CombineRight(a), CombineRight(b));
    XorCancels(LeftBy(c.upper, |a|), CombineLeft(a), CombineLeft(b));
    XorCancels(RightBy(c.lower, |a|), CombineRight(a), CombineRight(b));
  }

  lemma RotateZero(a: bv8)
    ensures RotateLeft(a) == 0 <==> a == 0
    ensures RotateRight(a) == 0 <==> a == 0
  {
  }

  lemma {:induction false} LeftByZero(a: bv8, n: nat)
    ensures LeftBy(a, n) == 0 <==> a == 0
    ensures RightBy(a, n) == 0 <==> a == 0
    decreases n
  {
    hide RotateLeft, RotateRight;
    if n > 0 {
      RotateZero(a);
      LeftByZero(RotateLeft(a), n - 1);
      LeftByZero(RotateRight(a), n - 1);
    }
  }

  /** All bytes but one are zero. */
  lemma {:induction false} CombineSingle(d: seq<bv8>, i: nat)
    requires i < |d| && forall k | 0 <= k < |d| && k != i :: d[k] == 0
    ensures CombineLeft(d) == LeftBy(d[i], |d| - i)
    ensures CombineRight(d) == RightBy(d[i], |d| - i)
    decreases |d|
  {
    hide RotateLeft, RotateRight, Xor;
    if i > 0 {
      CombineSingle(d[1..], i - 1);
      LeftByZero(d[0], |d|);
      XorZero(0, CombineLeft(d[1..]));
      XorZeroFirst(CombineLeft(d[1..]));
      XorZeroFirst(CombineRight(d[1..]));
    } else {
      CombineZeros(d[1..]);
      XorZero(LeftBy(d[0], |d|), 0);
      XorZero(RightBy(d[0], |d|), 0);
    }
  }

  lemma XorZeroFirst(a: bv8)
    ensures Xor(0, a) == a
  {
  }

  lemma {:induction false} CombineZeros(d: seq<bv8>)
    requires forall k | 0 <= k < |d| :: d[k] == 0
    ensures CombineLeft(d) == 0 && CombineRight(d) == 0
  {
    hide RotateLeft, RotateRight, Xor;
    if d != [] {
      CombineZeros(d[1..]);
      LeftByZero(0, |d|);
      XorZeroFirst(0);
    }
  }

  lemma DifferenceAt(a: seq<bv8>, i: nat, b: bv8)
    requires i < |a|
    ensures var d := Differences(a, a[i := b]);
            d[i] == Xor(a[i], b) && forall k | 0 <= k < |d| && k != i :: d[k] == 0
  {
  }

  /** Changing one byte changes what is combined by the rotated difference. */
  lemma ChangeOne(a: seq<bv8>, i: nat, b: bv8)
    requires i < |a|
    ensures CombineLeft(a[i := b]) == Xor(CombineLeft(a), LeftBy(Xor(a[i], b), |a| - i))
    ensures CombineRight(a[i := b]) == Xor(CombineRight(a), RightBy(Xor(a[i], b), |a| - i))
  {
    hide RotateLeft, RotateRight, CombineLeft, CombineRight, LeftBy, RightBy, Xor, Differences;
    DifferenceAt(a, i, b);
    CombineSingle(Differences(a, a[i := b]), i);
    CombineDifferences(a, a[i := b]);
    XorSolve(CombineLeft(a), CombineLeft(a[i := b]));
    XorSolve(CombineRight(a), CombineRight(a[i := b]));
  }

  /** A change of one byte changes both halves of the check word. */
  lemma OneByteDetected(c: Check, a: seq<bv8>, i: nat, b: bv8)
    requires i < |a| && a[i] != b
    ensures AddAll(c, a[i := b]).upper != AddAll(c, a).upper
    ensures AddAll(c, a[i := b]).lower != AddAll(c, a).lower
  {
    hide RotateLeft, RotateRight, AddAll, CombineLeft, CombineRight, LeftBy, RightBy, Xor;
    var d := Xor(a[i], b);
    ChangeOne(a, i, b);
    XorZero(a[i], b);
    LeftByZero(d, |a| - i);
    XorZero(CombineLeft(a), 0);
    XorZero(CombineRight(a), 0);
    XorCancels(CombineLeft(a), LeftBy(d, |a| - i), 0);
    XorCancels(CombineRight(a), RightBy(d, |a| - i), 0);
    CheckIsCombined(c, a);
    CheckIsCombined(c, a[i := b]);
    XorCancels(LeftBy(c.upper, |a|), CombineLeft(a), CombineLeft(a[i := b]));
    XorCancels(RightBy(c.lower, |a|), CombineRight(a), CombineRight(a[i := b]));
  }

  /** Changes of two bytes go unnoticed if and only if the two differences, each rotated by its
      byte's distance from the end, are the same in both directions. */
  lemma TwoBytesUndetectedIff(c: Check, a: seq<bv8>, i: nat, j: nat, b: bv8, e: bv8)
    requires i < |a| && j < |a| && i != j
    ensures AddAll(c, a[i := b][j := e]) == AddAll(c, a) <==>
            var p, q := |a| - i, |a| - j;
            && LeftBy(Xor(a[i], b), p) == LeftBy(Xor(a[j], e), q)
            && RightBy(Xor(a[i], b), p) == RightBy(Xor(a[j], e), q)
  {
    hide RotateLeft, RotateRight, AddAll, CombineLeft, CombineRight, LeftBy, RightBy, Xor;
    var p, q := |a| - i, |a| - j;
    var changed := a[i := b][j := e];
    ChangeOne(a, i, b);
    ChangeOne(a[i := b], j, e);
    CheckIsCombined(c, a);
    CheckIsCombined(c, changed);
    XorCancels(LeftBy(c.upper, |a|), CombineLeft(a), CombineLeft(changed));
    XorCancels(RightBy(c.lower, |a|), CombineRight(a), CombineRight(changed));
    XorTwice(CombineLeft(a), LeftBy(Xor(a[i], b), p), LeftBy(Xor(a[j], e), q));
    XorTwice(CombineRight(a), RightBy(Xor(a[i], b), p), RightBy(Xor(a[j], e), q));
  }

  /** A byte rotated eight times is itself. */
  lemma EightRotations(b: bv8)
    ensures var l := RotateLeft; l(l(l(l(l(l(l(l(b)))))))) == b
    ensures var r := RotateRight; r(r(r(r(r(r(r(r(b)))))))) == b
  {
  }

  lemma SameEightOn(b: bv8, n: nat)
    ensures LeftBy(b, n + 8) == LeftBy(b, n) && RightBy(b, n + 8) == RightBy(b, n)
  {
    hide RotateLeft, RotateRight;
    EightRotations(b);
    var l, r := RotateLeft, RotateRight;
    LeftStep(b, n + 8);
    LeftStep(l(b), n + 7);
    LeftStep(l(l(b)), n + 6);
    LeftStep(l(l(l(b))), n + 5);
    LeftStep(l(l(l(l(b)))), n + 4);
    LeftStep(l(l(l(l(l(b))))), n + 3);
    LeftStep(l(l(l(l(l(l(b)))))), n + 2);
    LeftStep(l(l(l(l(l(l(l(b))))))), n + 1);
    RightStep(b, n + 8);
    RightStep(r(b), n + 7);
    RightStep(r(r(b)), n + 6);
    RightStep(r(r(r(b))), n + 5);
    RightStep(r(r(r(r(b)))), n + 4);
    RightStep(r(r(r(r(r(b))))), n + 3);
    RightStep(r(r(r(r(r(r(b)))))), n + 2);
    RightStep(r(r(r(r(r(r(r(b))))))), n + 1);
  }

  lemma LeftStep(b: bv8, n: nat)
    requires n > 0
    ensures LeftBy(b, n) == LeftBy(RotateLeft(b), n - 1)
  {
  }

  lemma RightStep(b: bv8, n: nat)
    requires n > 0
    ensures RightBy(b, n) == RightBy(RotateRight(b), n - 1)
  {
  }

  /** For instance, the same change of two bytes that lie eight bytes apart is never noticed. */
  lemma EightApartUndetected(c: Check, a: seq<bv8>, i: nat, x: bv8)
    requires i + 8 < |a|
    ensures AddAll(c, a[i := Xor(a[i], x)][i + 8 := Xor(a[i + 8], x)]) == AddAll(c, a)
  {
    hide RotateLeft, RotateRight, AddAll, CombineLeft, CombineRight, LeftBy, RightBy, Xor;
    TwoBytesUndetectedIff(c, a, i, i + 8, Xor(a[i], x), Xor(a[i + 8], x));
    XorSolve(a[i], x);
    XorSolve(a[i + 8], x);
    SameEightOn(x, |a| - (i + 8));
  }

  lemma XorTwice(a: bv8, b: bv8, c: bv8)
    ensures Xor(Xor(a, b), c) == a <==> b == c
  {
    XorAssociates(a, b, c);
    XorZero(a, a);
    XorCancels(a, Xor(b, c), 0);
    XorZero(b, c);
    hide Xor;
  }

  /** The state of a drive: where it is in the image, and how far in the sector. */
  datatype Drive = Drive(position: int, count: int, check: Check)

  /** Where the next byte read comes from. */
  predicate InImage(image: seq<bv8>, d: Drive) {
    d.count == 129 || d.count == 130 || 0 <= d.position < |image|
  }

  function ByteRead(image: seq<bv8>, d: Drive): bv8
    requires InImage(image, d)
  {
    if d.count == 129 then d.check.lower else if d.count == 130 then d.check.upper else image[d.position]
  }

  function AfterRead(image: seq<bv8>, d: Drive): Drive
    requires InImage(image, d)
  {
    if d.count == 129 then d.(count := 130)
    else if d.count == 130 then d.(count := 1, check := CLEAR)
    else Drive(d.position + 1, d.count + 1, Add(d.check, image[d.position]))
  }

  /** A byte to be written is stored, unless it is one of the two after a sector. */
  datatype Writer = Writer(image: seq<bv8>, position: int, count: int)

  predicate CanWrite(w: Writer) {
    w.count > 128 || 0 <= w.position < |w.image|
  }

  function AfterWrite(w: Writer, val: bv8): Writer
    requires CanWrite(w)
  {
    if w.count > 129 then w.(count := 1)
    else if w.count > 128 then w.(count := w.count + 1)
    else Writer(w.image[w.position := val], w.position + 1, w.count + 1)
  }

  class MtFile {
    const image: array<bv8>
    var position: int
    var rcnt: int
    var wcnt: int
    var chkSum: Check

    /** A drive at the start of an image. */
    constructor (content: seq<bv8>)
      ensures image[..] == content && fresh(image)
      ensures Reading() == Drive(0, 1, CLEAR) && Writing() == Writer(content, 0, 1)
    {
      image := new bv8[|content|](i requires 0 <= i < |content| => content[i]);
      position, rcnt, wcnt, chkSum := 0, 1, 1, CLEAR;
      new;
      assert image[..] == content;
    }

    function Reading(): Drive
      reads this`position, this`rcnt, this`chkSum
    {
      Drive(position, rcnt, chkSum)
    }

    function Writing(): Writer
      reads this`position, this`wcnt, image
    {
      Writer(image[..], position, wcnt)
    }

    method Seek(loc: int)
      modifies this`position, this`rcnt, this`wcnt
      ensures Reading() == Drive(loc, 1, old(chkSum)) && Writing() == Writer(image[..], loc, 1)
    {
      position := loc;
      rcnt, wcnt := 1, 1;
    }

    method ReadReset()
      modifies this`rcnt, this`chkSum
      ensures Reading() == Drive(old(position), 1, CLEAR)
    {
      rcnt := 1;
      chkSum := CLEAR;
    }

    method CalcCheck(b: bv8)
      modifies this`chkSum
      ensures chkSum == Add(old(chkSum), b)
    {
      hide RotateLeft, RotateRight, Xor, Leftward, Rightward;
      var cupper, clower := Xor(chkSum.upper, b), Xor(chkSum.lower, b);
      LeftwardRotates(cupper);
      RightwardRotates(clower);
      chkSum := Check(Leftward(cupper), Rightward(clower));
    }

    method ReadRam() returns (b: bv8)
      requires InImage(image[..], Reading())
      modifies this`position, this`rcnt, this`chkSum
      ensures b == ByteRead(image[..], old(Reading())) && Reading() == AfterRead(image[..], old(Reading()))
    {
      if rcnt == 129 {
        rcnt := rcnt + 1;
        return chkSum.lower;
      } else if rcnt == 130 {
        var ret := chkSum.upper;
        ReadReset();
        return ret;
      }
      b := image[position];
      position := position + 1;
      rcnt := rcnt + 1;
      CalcCheck(b);
    }

    method WriteByte(val: bv8)
      requires CanWrite(Writing())
      modifies this`position, this`wcnt, image
      ensures Writing() == AfterWrite(old(Writing()), val)
    {
      if wcnt > 129 {
        wcnt := 1;
        return;
      }
      if wcnt > 128 {
        wcnt := wcnt + 1;
        return;
      }
      image[position] := val;
      wcnt := wcnt + 1;
      position := position + 1;
    }
  }

  /** A shift to the left, where the bit that falls out of the byte comes back at the bottom. */
  function Leftward(c: bv8): bv8 {
    var x := (c as bv16) << 1;
    (if x & 0x100 > 0 then (x | 1) & 0xff else x) as bv8
  }

  function Rightward(c: bv8): bv8 {
    (c >> 1) | (if c & 1 == 1 then 0x80 else 0)
  }

  lemma LeftwardRotates(c: bv8)
    ensures Leftward(c) == RotateLeft(c)
  {
  }

  lemma RightwardRotates(c: bv8)
    ensures Rightward(c) == RotateRight(c)
  {
  }

  /** What n reads give, and where they leave the drive. */
  ghost predicate Readable(image: seq<bv8>, d: Drive, n: nat)
    decreases n
  {
    n > 0 ==> InImage(image, d) && Readable(image, AfterRead(image, d), n - 1)
  }

  ghost function Reads(image: seq<bv8>, d: Drive, n: nat): (r: seq<bv8>)
    requires Readable(image, d, n)
    ensures |r| == n
    decreases n
  {
    if n == 0 then [] else [ByteRead(image, d)] + Reads(image, AfterRead(image, d), n - 1)
  }

  ghost function AfterReads(image: seq<bv8>, d: Drive, n: nat): Drive
    requires Readable(image, d, n)
    decreases n
  {
    if n == 0 then d else AfterReads(image, AfterRead(image, d), n - 1)
  }

  /** A sector as it is read: its bytes, then the check word, low half first. */
  function OnTheWire(c: Check, data: seq<bv8>): seq<bv8> {
    var check := AddAll(c, data);
    data + [check.lower, check.upper]
  }

  lemma {:induction false} SectorReads(image: seq<bv8>, d: Drive)
    requires 1 <= d.count <= 129 && 0 <= d.position && d.position + (129 - d.count) <= |image|
    ensures var n := 129 - d.count;
            var data := image[d.position..d.position + n];
            && Readable(image, d, n + 2)
            && Reads(image, d, n + 2) == OnTheWire(d.check, data)
            && AfterReads(image, d, n + 2) == Drive(d.position + n, 1, CLEAR)
    decreases 129 - d.count
  {
    hide Add;
    var n := 129 - d.count;
    var data := image[d.position..d.position + n];
    if n == 0 {
      var e := AfterRead(image, d);
      assert Readable(image, e, 1);
      assert Reads(image, e, 1) == [ByteRead(image, e)];
    } else {
      var e := AfterRead(image, d);
      SectorReads(image, e);
      assert data[0] == image[d.position];
      assert data[1..] == image[e.position..e.position + (n - 1)];
    }
  }

  lemma {:induction false} ReadsOn(image: seq<bv8>, d: Drive, m: nat, n: nat)
    requires Readable(image, d, m) && Readable(image, AfterReads(image, d, m), n)
    ensures Readable(image, d, m + n)
    ensures Reads(image, d, m + n) == Reads(image, d, m) + Reads(image, AfterReads(image, d, m), n)
    ensures AfterReads(image, d, m + n) == AfterReads(image, AfterReads(image, d, m), n)
    decreases m
  {
    if m > 0 {
      ReadsOn(image, AfterRead(image, d), m - 1, n);
    }
  }

  /** k sectors as they are read. */
  function Sectors(image: seq<bv8>, position: int, k: nat): seq<bv8>
    requires 0 <= position && position + SECTOR * k <= |image|
    decreases k
  {
    if k == 0 then []
    else OnTheWire(CLEAR, image[position..position + SECTOR]) + Sectors(image, position + SECTOR, k - 1)
  }

  /** From a seek, and with the check word clear, reading gives sector after sector of the image,
      each with its check word. */
  lemma {:induction false} ReadsSectors(image: seq<bv8>, position: int, k: nat)
    requires 0 <= position && position + SECTOR * k <= |image|
    ensures var d := Drive(position, 1, CLEAR);
            var n := (SECTOR + 2) * k;
            && Readable(image, d, n) && Reads(image, d, n) == Sectors(image, position, k)
            && AfterReads(image, d, n) == Drive(position + SECTOR * k, 1, CLEAR)
    decreases k
  {
    hide Readable, Reads, AfterReads, OnTheWire;
    var d := Drive(position, 1, CLEAR);
    if k == 0 {
      NoReads(image, d);
    } else {
      SectorReads(image, d);
      ReadsSectors(image, position + SECTOR, k - 1);
      ReadsOn(image, d, SECTOR + 2, (SECTOR + 2) * (k - 1));
    }
  }

  lemma NoReads(image: seq<bv8>, d: Drive)
    ensures Readable(image, d, 0) && Reads(image, d, 0) == [] && AfterReads(image, d, 0) == d
  {
  }

  /** A seek leaves the check word as it was: the first sector then reads with the right check
      word if and only if the check word was clear. */
  lemma SeekCheckIff(c: Check, data: seq<bv8>)
    ensures OnTheWire(c, data) == OnTheWire(CLEAR, data) <==> c == CLEAR
  {
    hide AddAll, LeftBy, RightBy, CombineLeft, CombineRight, Xor;
    CheckIsCombined(c, data);
    CheckIsCombined(CLEAR, data);
    LeftByZero(c.upper, |data|);
    LeftByZero(c.lower, |data|);
    LeftByZero(0, |data|);
    XorCommutes(LeftBy(c.upper, |data|), CombineLeft(data));
    XorCommutes(0, CombineLeft(data));
    XorCancels(CombineLeft(data), LeftBy(c.upper, |data|), 0);
    XorCommutes(RightBy(c.lower, |data|), CombineRight(data));
    XorCommutes(0, CombineRight(data));
    XorCancels(CombineRight(data), RightBy(c.lower, |data|), 0);
    var a, b := OnTheWire(c, data), OnTheWire(CLEAR, data);
    assert a[|data|] == AddAll(c, data).lower && b[|data|] == AddAll(CLEAR, data).lower;
    assert a[|data| + 1] == AddAll(c, data).upper && b[|data| + 1] == AddAll(CLEAR, data).upper;
  }

  /** For instance, one byte, a 1, is read, and then a seek is made: the next sector has a wrong check
      word, whatever it holds. */
  lemma SeekAfterReading(image: seq<bv8>, data: seq<bv8>)
    requires image != [] && image[0] == 1
    ensures var d := AfterRead(image, Drive(0, 1, CLEAR));
            d.check == Check(2, 0x80) && OnTheWire(d.check, data) != OnTheWire(CLEAR, data)
  {
    var d := AfterRead(image, Drive(0, 1, CLEAR));
    assert d.check == Check(2, 0x80);
    hide OnTheWire;
    SeekCheckIff(d.check, data);
  }

  /** Where writing a sequence of bytes leads. */
  ghost predicate Writes(w: Writer, bytes: seq<bv8>, t: Writer)
    decreases |bytes|
  {
    if bytes == [] then w == t else CanWrite(w) && Writes(AfterWrite(w, bytes[0]), bytes[1..], t)
  }

  lemma {:induction false} WritesOn(w: Writer, a: seq<bv8>, t: Writer, b: seq<bv8>, u: Writer)
    requires Writes(w, a, t) && Writes(t, b, u)
    ensures Writes(w, a + b, u)
    decreases |a|
  {
    if a == [] {
      assert a + b == b;
    } else {
      assert (a + b)[1..] == a[1..] + b;
      WritesOn(AfterWrite(w, a[0]), a[1..], t, b, u);
    }
  }

  /** An image with some bytes replaced. */
  function Patched(image: seq<bv8>, position: int, data: seq<bv8>): (r: seq<bv8>)
    requires 0 <= position && position + |data| <= |image|
    ensures |r| == |image|
  {
    image[..position] + data + image[position + |data|..]
  }

  lemma CheckDropped(w: Writer, x: bv8, y: bv8)
    requires w.count == 129
    ensures Writes(w, [x, y], w.(count := 1))
  {
    var w1 := AfterWrite(w, x);
    assert [x, y][1..] == [y] && [y][1..] == [];
    assert Writes(w1, [y], w.(count := 1));
  }

  lemma PatchedFirst(image: seq<bv8>, position: int, data: seq<bv8>)
    requires data != [] && 0 <= position && position + |data| <= |image|
    ensures Patched(image[position := data[0]], position + 1, data[1..]) == Patched(image, position, data)
  {
  }

  lemma {:induction false} SectorWrites(w: Writer, data: seq<bv8>, x: bv8, y: bv8)
    requires 0 <= w.position && w.position + |data| <= |w.image| && 1 <= w.count && w.count + |data| == 129
    ensures Writes(w, data + [x, y], Writer(Patched(w.image, w.position, data), w.position + |data|, 1))
    decreases |data|
  {
    if data == [] {
      CheckDropped(w, x, y);
      assert data + [x, y] == [x, y];
      assert Patched(w.image, w.position, data) == w.image;
    } else {
      SectorWrites(AfterWrite(w, data[0]), data[1..], x, y);
      assert (data + [x, y])[1..] == data[1..] + [x, y];
      PatchedFirst(w.image, w.position, data);
      hide Patched;
    }
  }

  /** Writing what was read from one image copies the sectors, and nothing else, to another. */
  lemma {:induction false} CopiesSectors(image: seq<bv8>, position: int, k: nat, w: Writer)
    requires 0 <= position && position + SECTOR * k <= |image|
    requires 0 <= w.position && w.position + SECTOR * k <= |w.image| && w.count == 1
    ensures var data := image[position..position + SECTOR * k];
            Writes(w, Sectors(image, position, k),
                   Writer(Patched(w.image, w.position, data), w.position + SECTOR * k, 1))
    decreases k
  {
    hide AddAll, Writes;
    if k == 0 {
      assert Patched(w.image, w.position, image[position..position]) == w.image;
      NoWrites(w);
    } else {
      var first := image[position..position + SECTOR];
      var check := AddAll(CLEAR, first);
      SectorWrites(w, first, check.lower, check.upper);
      var w1 := Writer(Patched(w.image, w.position, first), w.position + SECTOR, 1);
      CopiesSectors(image, position + SECTOR, k - 1, w1);
      var rest := image[position + SECTOR..position + SECTOR * k];
      var w2 := Writer(Patched(w1.image, w1.position, rest), w1.position + SECTOR * (k - 1), 1);
      WritesOn(w, first + [check.lower, check.upper], w1, Sectors(image, position + SECTOR, k - 1), w2);
      PatchedTwice(w.image, w.position, first, rest);
      assert first + rest == image[position..position + SECTOR * k];
    }
  }

  lemma NoWrites(w: Writer)
    ensures Writes(w, [], w)
  {
  }

  lemma PatchedTwice(image: seq<bv8>, position: int, a: seq<bv8>, b: seq<bv8>)
    requires 0 <= position && position + |a| + |b| <= |image|
    ensures Patched(Patched(image, position, a), position + |a|, b) == Patched(image, position, a + b)
  {
  }
}
