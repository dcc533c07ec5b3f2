/** The exchange package: sixteen words that hold a program's registers. */
module Exchange {
  import opened Arithmetic
  import opened OnesComplement
  import opened Words

  const PACKAGE := 16

  /** The registers that an exchange saves and loads. */
  datatype Context = Context(regP: u18, regA: seq<u18>, regB: seq<u18>, regX: seq<Word>,
                             regRaCm: u18, regFlCm: u18, exitMode: nat, regRaEcs: nat, regFlEcs: nat, regMa: u18)
  {
    predicate WellFormed() {
      |regA| == 8 && |regB| == 8 && |regX| == 8
    }

    /** The values a processor's registers can hold after any exchange: B0 is zero, exit mode
        fits 24 bits, and the ECS bounds are 24-bit multiples of 64. */
    predicate Canonical() {
      && WellFormed()
      && regB[0] == 0
      && exitMode < TWO24
      && regRaEcs < TWO24 && regRaEcs % 64 == 0
      && regFlEcs < TWO24 && regFlEcs % 64 == 0
    }
  }

  function High18(w: Word): u18 { w / TWO36 % TWO18 }
  function High24(w: Word): nat { w / TWO36 % TWO24 }
  function Middle(w: Word): u18 { w / TWO18 % TWO18 }
  function Low(w: Word): u18 { w % TWO18 }

  /** The ECS bounds are kept without their six low bits. */
  function EcsMask(n: nat): nat {
    n % TWO24 - n % 64
  }

  function Fields(high: nat, middle: u18, low: u18): Word {
    high % TWO24 * TWO36 + middle * TWO18 + low
  }

  /** The registers a package loads. */
  function Unpack(pkg: seq<Word>): (c: Context)
    requires |pkg| == PACKAGE
    ensures c.Canonical()
  {
    Context(High18(pkg[0]),
            seq<u18>(8, k requires 0 <= k < 8 => Middle(pkg[k])),
            seq<u18>(8, k requires 0 <= k < 8 => if k == 0 then 0 else Low(pkg[k])),
            pkg[8..],
            High18(pkg[1]), High18(pkg[2]), High24(pkg[3]), EcsMask(High24(pkg[4])), EcsMask(High24(pkg[5])),
            High18(pkg[6]))
  }

  /** The package that saves a context. */
  function Pack(c: Context): (pkg: seq<Word>)
    requires c.WellFormed()
    ensures |pkg| == PACKAGE
  {
    [Fields(c.regP, c.regA[0], 0),
     Fields(c.regRaCm, c.regA[1], c.regB[1]),
     Fields(c.regFlCm, c.regA[2], c.regB[2]),
     Fields(c.exitMode, c.regA[3], c.regB[3]),
     Fields(c.regRaEcs, c.regA[4], c.regB[4]),
     Fields(c.regFlEcs, c.regA[5], c.regB[5]),
     Fields(c.regMa, c.regA[6], c.regB[6]),
     Fields(0, c.regA[7], c.regB[7])] + c.regX
  }

  /** What is left of word k of a package after it has been loaded and saved again. */
  function CanonicalWord(k: nat, w: Word): Word {
    if k == 0 then w / TWO18 % TWO36 * TWO18
    else if k == 1 || k == 2 || k == 6 then w % (TWO36 * TWO18)
    else if k == 4 || k == 5 then w - w / TWO36 % 64 * TWO36
    else if k == 7 then w % TWO36
    else w
  }

  lemma FieldsApart(high: nat, middle: u18, low: u18)
    requires high < TWO24
    ensures var w := Fields(high, middle, low);
            High24(w) == high && High18(w) == high % TWO18 && Middle(w) == middle && Low(w) == low
  {
    var w := Fields(high, middle, low);
    SmallRemainder(high, TWO24);
    DivIs(w, TWO36, high);
    DivIs(w, TWO18, high * TWO18 + middle);
    RemainderOf(w, TWO18, high * TWO18 + middle);
    RemainderOf(high * TWO18 + middle, TWO18, high);
    hide Fields;
  }

  /** Saving a canonical context and loading it again restores every register. */
  lemma UnpackPack(c: Context)
    requires c.Canonical()
    ensures Unpack(Pack(c)) == c
  {
    hide Fields, High18, High24, Middle, Low;
    var pkg := Pack(c);
    FieldsApart(c.regP, c.regA[0], 0);
    FieldsApart(c.regRaCm, c.regA[1], c.regB[1]);
    FieldsApart(c.regFlCm, c.regA[2], c.regB[2]);
    FieldsApart(c.exitMode, c.regA[3], c.regB[3]);
    FieldsApart(c.regRaEcs, c.regA[4], c.regB[4]);
    FieldsApart(c.regFlEcs, c.regA[5], c.regB[5]);
    FieldsApart(c.regMa, c.regA[6], c.regB[6]);
    FieldsApart(0, c.regA[7], c.regB[7]);
    assert Unpack(pkg).regA == c.regA;
    assert Unpack(pkg).regB == c.regB;
  }

  lemma WordCanonicalised(k: nat, w: Word)
    requires k < 8
    ensures CanonicalWord(k, w) == Fields(match k
                                           case 3 => High24(w)
                                           case 4 => EcsMask(High24(w))
                                           case 5 => EcsMask(High24(w))
                                           case 7 => 0
                                           case _ => High18(w),
                                         Middle(w), if k == 0 then 0 else Low(w))
  {
    hide High18, High24, Middle, Low, Fields, EcsMask, CanonicalWord;
    match k {
      case 0 => FirstWord(w);
      case 3 => ExitModeWord(w);
      case 4 => EcsWord(4, w);
      case 5 => EcsWord(5, w);
      case 7 => LastWord(w);
      case _ => BoundWord(k, w);
    }
  }

  lemma FirstWord(w: Word)
    ensures CanonicalWord(0, w) == Fields(High18(w), Middle(w), 0)
  {
    var q := w / TWO18;
    assert w / TWO36 == q / TWO18;
    assert q % TWO36 / TWO18 == q / TWO18 % TWO18;
    assert q % TWO36 % TWO18 == q % TWO18;
  }

  lemma BoundWord(k: nat, w: Word)
    requires k == 1 || k == 2 || k == 6
    ensures CanonicalWord(k, w) == Fields(High18(w), Middle(w), Low(w))
  {
    var q := w / TWO18;
    var h := q / TWO18;
    assert w / TWO36 == h;
    assert w == q * TWO18 + w % TWO18;
    assert q == h * TWO18 + q % TWO18;
    assert h == h / TWO18 * TWO18 + h % TWO18;
    RemainderOf(w, TWO36 * TWO18, h / TWO18);
    SmallRemainder(h % TWO18, TWO24);
  }

  lemma ExitModeWord(w: Word)
    ensures CanonicalWord(3, w) == Fields(High24(w), Middle(w), Low(w))
  {
    var q := w / TWO18;
    assert w / TWO36 == q / TWO18;
    assert w == q * TWO18 + w % TWO18;
    assert q == q / TWO18 * TWO18 + q % TWO18;
    SmallRemainder(q / TWO18, TWO24);
  }

  lemma EcsWord(k: nat, w: Word)
    requires k == 4 || k == 5
    ensures CanonicalWord(k, w) == Fields(EcsMask(High24(w)), Middle(w), Low(w))
  {
  }

  lemma LastWord(w: Word)
    ensures CanonicalWord(7, w) == Fields(0, Middle(w), Low(w))
  {
  }

  /** Loading a package and saving it again canonicalises its words. */
  lemma PackUnpack(pkg: seq<Word>, k: nat)
    requires |pkg| == PACKAGE && k < PACKAGE
    ensures Pack(Unpack(pkg))[k] == CanonicalWord(k, pkg[k])
  {
    hide Fields, High18, High24, Middle, Low, EcsMask, CanonicalWord;
    if k < 8 {
      WordCanonicalised(k, pkg[k]);
    } else {
      XWordKept(k, pkg[k]);
    }
  }

  lemma XWordKept(k: nat, w: Word)
    requires 8 <= k
    ensures CanonicalWord(k, w) == w
  {
  }

  /** Word k of a package at `addr`; the package wraps at the top of memory. */
  function Place(addr: nat, k: nat, size: nat): (i: nat)
    requires size > 0
    ensures i < size
  {
    (addr + k) % size
  }

  lemma PlaceIs(addr: nat, k: nat, size: nat)
    requires k < PACKAGE <= size
    ensures var a := addr % size; Place(addr, k, size) == if a + k < size then a + k else a + k - size
  {
    var q, a := addr / size, addr % size;
    assert addr == size * q + a;
    if a + k < size {
      RemainderOf(addr + k, size, q);
    } else {
      MulNext(q, size);
      RemainderOf(addr + k, size, q + 1);
    }
  }

  lemma PlacesDiffer(addr: nat, j: nat, k: nat, size: nat)
    requires j < k < PACKAGE <= size
    ensures Place(addr, j, size) != Place(addr, k, size)
  {
    hide Place;
    PlaceIs(addr, j, size);
    PlaceIs(addr, k, size);
  }

  function Package(mem: seq<Word>, addr: nat): (pkg: seq<Word>)
    requires |mem| > 0
    ensures |pkg| == PACKAGE
  {
    seq<Word>(PACKAGE, k requires 0 <= k => mem[Place(addr, k, |mem|)])
  }

  /** Memory after the first n words of `pkg` have been stored at `addr`. */
  function Stored(mem: seq<Word>, addr: nat, pkg: seq<Word>, n: nat): (mem': seq<Word>)
    requires |mem| > 0 && n <= |pkg|
    ensures |mem'| == |mem|
  {
    if n == 0 then mem else Stored(mem, addr, pkg, n - 1)[Place(addr, n - 1, |mem|) := pkg[n - 1]]
  }

  lemma {:induction false} StoredAt(mem: seq<Word>, addr: nat, pkg: seq<Word>, n: nat, k: nat)
    requires |mem| >= PACKAGE == |pkg| && k < n <= PACKAGE
    ensures Stored(mem, addr, pkg, n)[Place(addr, k, |mem|)] == pkg[k]
  {
    hide Place;
    if k < n - 1 {
      StoredAt(mem, addr, pkg, n - 1, k);
      PlacesDiffer(addr, k, n - 1, |mem|);
    }
  }

  /** Only the package words change. */
  lemma {:induction false} StoredElsewhere(mem: seq<Word>, addr: nat, pkg: seq<Word>, n: nat, i: nat)
    requires |mem| > 0 && n <= |pkg| == PACKAGE && i < |mem|
    requires forall k | 0 <= k < PACKAGE :: Place(addr, k, |mem|) != i
    ensures Stored(mem, addr, pkg, n)[i] == mem[i]
  {
    hide Place;
    if n > 0 {
      StoredElsewhere(mem, addr, pkg, n - 1, i);
    }
  }

  /** The exchange proper: the context in the package against the one in the processor. */
  function Swap(mem: seq<Word>, addr: nat, c: Context): (r: (seq<Word>, Context))
    requires |mem| > 0 && c.WellFormed()
    ensures |r.0| == |mem| && r.1.Canonical()
  {
    (Stored(mem, addr, Pack(c), PACKAGE), Unpack(Package(mem, addr)))
  }

  /** Where each register is loaded from. */
  predicate LoadedFrom(c: Context, w: seq<Word>)
    requires |w| == 16 && c.WellFormed()
  {
    && c.regP == w[0] / TWO36 % TWO18 && c.regRaCm == w[1] / TWO36 % TWO18 && c.regFlCm == w[2] / TWO36 % TWO18
    && c.exitMode == w[3] / TWO36 % TWO24
    && c.regRaEcs == w[4] / TWO36 % TWO24 / 64 * 64 && c.regFlEcs == w[5] / TWO36 % TWO24 / 64 * 64
    && c.regMa == w[6] / TWO36 % TWO18 && c.regB[0] == 0
    && forall k | 0 <= k < 8 ::
         && c.regA[k] == w[k] / TWO18 % TWO18 && (k > 0 ==> c.regB[k] == w[k] % TWO18) && c.regX[k] == w[8 + k]
  }

  lemma UnpackLoads(w: seq<Word>)
    requires |w| == 16
    ensures LoadedFrom(Unpack(w), w)
  {
    Masked(High24(w[4]));
    Masked(High24(w[5]));
    hide EcsMask;
  }

  lemma Masked(n: nat)
    requires n < TWO24
    ensures EcsMask(n) == n / 64 * 64
  {
  }

  /** Where each register is saved. */
  predicate SavedIn(c: Context, w: seq<Word>)
    requires |w| == 16 && c.WellFormed()
  {
    && w[0] / TWO36 == c.regP && w[1] / TWO36 == c.regRaCm && w[2] / TWO36 == c.regFlCm
    && w[3] / TWO36 == c.exitMode % TWO24
    && w[4] / TWO36 == c.regRaEcs % TWO24 && w[5] / TWO36 == c.regFlEcs % TWO24
    && w[6] / TWO36 == c.regMa && w[7] / TWO36 == 0 && w[0] % TWO18 == 0
    && forall k | 0 <= k < 8 ::
         && w[k] / TWO18 % TWO18 == c.regA[k] && (k > 0 ==> w[k] % TWO18 == c.regB[k]) && w[8 + k] == c.regX[k]
  }

  lemma PackSaves(c: Context)
    requires c.WellFormed()
    ensures SavedIn(c, Pack(c))
  {
    FieldsIn(c.regP, c.regA[0], 0);
    FieldsIn(c.regRaCm, c.regA[1], c.regB[1]);
    FieldsIn(c.regFlCm, c.regA[2], c.regB[2]);
    FieldsIn(c.exitMode, c.regA[3], c.regB[3]);
    FieldsIn(c.regRaEcs, c.regA[4], c.regB[4]);
    FieldsIn(c.regFlEcs, c.regA[5], c.regB[5]);
    FieldsIn(c.regMa, c.regA[6], c.regB[6]);
    FieldsIn(0, c.regA[7], c.regB[7]);
    hide Fields;
  }

  lemma FieldsIn(high: nat, middle: u18, low: u18)
    ensures var w := Fields(high, middle, low);
            && w / TWO36 == high % TWO24 && w / TWO18 % TWO18 == middle && w % TWO18 == low
            && (high < TWO18 ==> w / TWO36 == high)
  {
    FieldsApart(high % TWO24, middle, low);
    if high < TWO18 {
      SmallRemainder(high, TWO24);
    }
  }

  /** Memory after an exchange has the package at the sixteen places. */
  lemma SwapStores(mem: seq<Word>, addr: nat, c: Context)
    requires |mem| >= PACKAGE && c.WellFormed()
    ensures var mem' := Swap(mem, addr, c).0;
            forall k | 0 <= k < PACKAGE :: mem'[Place(addr, k, |mem|)] == Pack(c)[k]
  {
    hide Pack, Stored, Unpack, Place;
    PackageOfStored(mem, addr, Pack(c));
  }

  lemma PackageOfStored(mem: seq<Word>, addr: nat, pkg: seq<Word>)
    requires |mem| >= PACKAGE == |pkg|
    ensures Package(Stored(mem, addr, pkg, PACKAGE), addr) == pkg
  {
    hide Place;
    forall k | 0 <= k < PACKAGE
      ensures Package(Stored(mem, addr, pkg, PACKAGE), addr)[k] == pkg[k]
    {
      StoredAt(mem, addr, pkg, PACKAGE, k);
    }
  }

  /** Exchanging twice at one address restores a canonical context exactly and leaves the
      package as its canonicalised original, wherever the package lies. */
  lemma SwapTwice(mem: seq<Word>, addr: nat, c: Context)
    requires |mem| >= PACKAGE && c.Canonical()
    ensures var (mem1, c1) := Swap(mem, addr, c);
            var (mem2, c2) := Swap(mem1, addr, c1);
            && c2 == c
            && forall k | 0 <= k < PACKAGE ::
                 Package(mem2, addr)[k] == CanonicalWord(k, Package(mem, addr)[k])
  {
    hide Pack, Unpack, Package, Stored, CanonicalWord;
    var (mem1, c1) := Swap(mem, addr, c);
    PackageOfStored(mem, addr, Pack(c));
    UnpackPack(c);
    PackageOfStored(mem1, addr, Pack(c1));
    forall k | 0 <= k < PACKAGE
      ensures Pack(c1)[k] == CanonicalWord(k, Package(mem, addr)[k])
    {
      PackUnpack(Package(mem, addr), k);
    }
  }

  /** An exchange leaves all other words alone. */
  lemma SwapElsewhere(mem: seq<Word>, addr: nat, c: Context, i: nat)
    requires |mem| > 0 && c.WellFormed() && i < |mem|
    requires forall k | 0 <= k < PACKAGE :: Place(addr, k, |mem|) != i
    ensures Swap(mem, addr, c).0[i] == mem[i]
  {
    StoredElsewhere(mem, addr, Pack(c), PACKAGE, i);
  }
}
