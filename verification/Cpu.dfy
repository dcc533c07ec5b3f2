/** One central processor and the memories it reaches. */
module Cpu {
  import opened Arithmetic
  import opened OnesComplement
  import opened Words
  import opened Characters
  import opened FieldLength
  import opened ExtendedStorage
  import Exchange
  import Arbitration

  type Reg3 = n: int | 0 <= n < 8

  /** The shift, boolean, normalize and floating point units: from the opcode, the jk fields, X
      and B they compute a word for Xi and a value for Bj. */
  type ArithmeticUnit = (int, int, seq<Word>, seq<u18>) -> (Word, u18)

  function Pow2(n: nat): (p: nat)
    ensures p > 0
  {
    if n == 0 then 1 else 2 * Pow2(n - 1)
  }

  /** How many bits an instruction takes. */
  function ParcelLength(fm: nat, i: Reg3): nat {
    if fm == 1 then (if i < 4 then 30 else 15)
    else if 2 <= fm <= 7 then 30
    else if fm >= 40 && fm % 8 <= 2 then 30
    else 15
  }

  /** The instructions that take 30 bits: jumps, block transfers and exchanges, and those with a K. */
  lemma LongInstructions(fm: nat, i: Reg3)
    requires fm < 64
    ensures ParcelLength(fm, i) == 30 <==>
            || fm in {2, 3, 4, 5, 6, 7}
            || fm in {40, 41, 42, 48, 49, 50, 56, 57, 58}
            || (fm == 1 && i in {0, 1, 2, 3})
    ensures ParcelLength(fm, i) == 15 || ParcelLength(fm, i) == 30
  {
  }

  /** Places of a descriptor's two strings and their length, as the CMU decodes them. */
  datatype Descriptor = Descriptor(k1: nat, c1: nat, k2: nat, c2: nat, ll: nat) {
    function Source(): nat { 10 * k1 + c1 }
    function Destination(): nat { 10 * k2 + c2 }
    predicate CharactersExist() { c1 <= 9 && c2 <= 9 }

    /** With an impossible character position nothing is moved. */
    function Possible(): Descriptor { if CharactersExist() then this else this.(ll := 0) }
  }

  /** The length field is split: four bits at bit 26, and `high` more from bit 48. */
  function Decode(w: Word, high: nat): Descriptor
    requires high > 0
  {
    Descriptor(w / TWO30 % TWO18, w / 0x40_0000 % 16, w % TWO18, w / TWO18 % 16,
               w / 0x400_0000 % 16 + 16 * (w / TWO48 % high))
  }

  /** The word of a descriptor: K1 from bit 30 and C1 from bit 22, K2 from bit 0 and C2 from bit 18, the low
      four bits of the length from bit 26 and the others from bit 48, below bits that do not matter. */
  function DescriptorWord(t: Descriptor, high: nat, above: nat): nat {
    (above * high + t.ll / 16) * TWO48 + t.k1 * TWO30 + t.ll % 16 * 0x400_0000 + t.c1 * 0x40_0000
    + t.c2 * TWO18 + t.k2
  }

  /** The layout of descriptors: every one is decoded as the places and the length it was made from. */
  lemma DecodesFields(t: Descriptor, high: nat, above: nat)
    requires t.k1 < TWO18 && t.k2 < TWO18 && t.c1 < 16 && t.c2 < 16 && t.ll < 16 * high
    requires DescriptorWord(t, high, above) < TWO60
    ensures high > 0 && Decode(DescriptorWord(t, high, above), high) == t
  {
    var w := DescriptorWord(t, high, above);
    DivIs(w, TWO48, above * high + t.ll / 16);
    RemainderOf(above * high + t.ll / 16, high, above);
    LowFields(t, w, above * high + t.ll / 16);
  }

  lemma LowFields(t: Descriptor, w: Word, top: nat)
    requires t.k1 < TWO18 && t.k2 < TWO18 && t.c1 < 16 && t.c2 < 16
    requires w == top * TWO48 + t.k1 * TWO30 + t.ll % 16 * 0x400_0000 + t.c1 * 0x40_0000 + t.c2 * TWO18 + t.k2
    ensures w / TWO30 % TWO18 == t.k1 && w / 0x40_0000 % 16 == t.c1 && w % TWO18 == t.k2
    ensures w / TWO18 % 16 == t.c2 && w / 0x400_0000 % 16 == t.ll % 16
  {
    var a := top * TWO18 + t.k1;
    var b := a * 16 + t.ll % 16;
    var c := b * 16 + t.c1;
    var d := c * 16 + t.c2;
    DivIs(w, TWO30, a);
    RemainderOf(a, TWO18, top);
    DivIs(w, 0x400_0000, b);
    RemainderOf(b, 16, a);
    DivIs(w, 0x40_0000, c);
    RemainderOf(c, 16, b);
    DivIs(w, TWO18, d);
    RemainderOf(d, 16, c);
    RemainderOf(w, TWO18, d);
  }

  /** For instance, K1 = 1, C1 = 2, K2 = 9, C2 = 3 and L = 5: from character 12 to character 93. */
  lemma DecodesInstance()
    ensures var t := Decode(1 * TWO30 + 5 * 0x400_0000 + 2 * 0x40_0000 + 3 * TWO18 + 9, 8);
            t.Source() == 12 && t.Destination() == 93 && t.ll == 5
  {
    DecodesFields(Descriptor(1, 2, 9, 3, 5), 8, 0);
  }

  /** The order of an uncollated comparison. */
  const RAW: Key := c => At(c)

  /** The collating table gives each character's place: eight characters in each of its words. */
  function Collating(f: seq<Char6>, table: nat): Key {
    (c: Char6) =>
      var i: nat := 10 * (table + c / 8) + c % 8;
      if i < |f| then At(f[i]) else Beyond
  }

  /** What arbitration tells an XJ: whether its processor is in monitor mode, and whether the request
      is accepted. Without an answer the XJ is still waiting for one. */
  datatype Answer = Answer(inMonitor: bool, accepted: bool) | NoAnswer
  {
    predicate InMonitor() { Answer? && inMonitor }
    predicate Accepted() { Answer? && accepted }
  }

  /** An XJ's request: to leave monitor mode for an address, or to enter it at MA. */
  datatype Request = NoRequest | Request(addr: nat, mode: Arbitration.Mode)

  function Zeros18(): seq<u18> { seq(8, _ => 0) }

  /** Advances a character address by one. */
  method NextCharacter(k: nat, c: nat) returns (k': nat, c': nat)
    requires c <= 9
    ensures c' <= 9 && 10 * k' + c' == 10 * k + c + 1
  {
    k', c' := k, c + 1;
    if c' > 9 {
      c', k' := 0, k + 1;
    }
  }

  /**
   What a set instruction (50 to 77 octal) computes from its operands, told without the adder: an A or
   B register or the low bits of an X register, and K or Bk added to it, or Bk subtracted, with
   the carry taken around. The result is negative zero only if both operands are.
   */
  predicate Sets(op: nat, aj: u18, bj: u18, xj: Word, bk: u18, k: u18, value: u18) {
    var first := if op % 8 in {0, 4, 5} then aj else if op % 8 in {1, 6, 7} then bj else xj % TWO18;
    var second := if op % 8 <= 2 then k else if op % 8 in {5, 7} then MASK18 - bk else bk;
    IsSum(first, second, value)
  }

  predicate IsSum(a: u18, b: u18, sum: u18) {
    (sum - (a + b)) % MASK18 == 0 && (sum == MASK18 <==> a == MASK18 && b == MASK18)
  }

  lemma AddIsSum(a: u32, b: u18)
    ensures IsSum(a % TWO18, b, Add18(a, b)) && (a < TWO18 ==> IsSum(a, b, Add18(a, b)))
  {
    hide Add18;
    SmallRemainder(b, TWO18);
    if a < TWO18 {
      SmallRemainder(a, TWO18);
    }
  }

  lemma SubtractIsSum(a: u18, b: u18)
    ensures IsSum(a, MASK18 - b, Subtract18(a, b))
  {
    hide Add18, Subtract18;
    SubtractAddsComplement(a, b);
    SmallRemainder(b, TWO18);
    AddIsSum(a, MASK18 - b);
  }

  lemma LowBits(x: Word)
    ensures x % TWO32 % TWO18 == x % TWO18
  {
    assert x == x / TWO32 * TWO32 + x % TWO32;
  }

  class CpuContext {
    const cpMem: array<Word>
    const ecsMem: array<Word>
    var regX: seq<Word>
    var regA: seq<u18>
    var regB: seq<u18>
    var regP: u18
    var regRaCm: u18
    var regFlCm: u18
    var regRaEcs: nat
    var regFlEcs: nat
    var regMa: u18
    var exitMode: nat
    var exitCondition: nat
    var cpuStopped: bool
    var opWord: Word
    var opOffset: nat
    var opAddress: u18
    var opI: Reg3
    var opJ: Reg3
    var opK: Reg3
    var ecsFlagRegister: bv18
    const arith: ArithmeticUnit

    predicate Valid()
      reads this
    {
      && |regX| == 8 && |regA| == 8 && |regB| == 8
      && cpMem.Length > 0 && cpMem != ecsMem && ecsMem.Length <= ECS_FLAG_BIT
      && exitCondition < 256
    }

    /** A stopped processor with zeroed memories. */
    constructor (memory: nat, ecs: nat, unit: ArithmeticUnit)
      requires memory > 0 && ecs <= ECS_FLAG_BIT
      ensures Valid() && Ready() && cpuStopped
      ensures cpMem.Length == memory && ecsMem.Length == ecs && fresh(cpMem) && fresh(ecsMem)
      ensures Registers() == Exchange.Context(0, Zeros18(), Zeros18(), seq(8, _ => 0), 0, 0, 0, 0, 0, 0)
    {
      cpMem := new Word[memory](i => 0);
      ecsMem := new Word[ecs](i => 0);
      regX := seq(8, _ => 0);
      regA, regB := Zeros18(), Zeros18();
      regP, regRaCm, regFlCm, regRaEcs, regFlEcs, regMa := 0, 0, 0, 0, 0, 0;
      exitMode, exitCondition, cpuStopped := 0, 0, true;
      opWord, opOffset, opAddress, opI, opJ, opK := 0, 60, 0, 0, 0, 0;
      ecsFlagRegister, arith := 0, unit;
    }

    function Limits(): Bounds
      reads this`regRaCm, this`regFlCm, this`exitMode
    {
      Bounds(regRaCm, regFlCm, exitMode)
    }

    /** The program's field lies in memory, and its addresses do not carry around. */
    predicate Confined()
      reads this`regRaCm, this`regFlCm, this`exitMode
    {
      Limits().Confined(cpMem.Length)
    }

    /** The field is wholly backed by memory. */
    predicate Backed()
      reads this`regRaCm, this`regFlCm
    {
      regRaCm + regFlCm <= cpMem.Length && regRaCm + regFlCm < TWO18
    }

    function Field(): seq<Char6>
      requires Backed()
      reads this`regRaCm, this`regFlCm, cpMem
    {
      FieldChars(cpMem[..], regRaCm, regFlCm)
    }

    method FlError() returns (selected: bool)
      requires Valid()
      modifies this`regP, this`exitCondition, cpMem
      ensures var a := OutOfRange(old(cpMem[..]), Limits(), old(exitCondition), old(regP));
              cpMem[..] == a.mem && regP == a.regP && exitCondition == a.ec && selected == a.failed
      ensures exitCondition < 256
    {
      exitCondition := Noted(exitCondition);
      if exitMode / 0x1000 % 2 == 1 {
        if regRaCm < cpMem.Length {
          cpMem[regRaCm] := ExitWord(exitCondition, regP);
        }
        regP := 0;
        return true;
      }
      return false;
    }

    method ReadMem(address: u18) returns (failed: bool, data: Word)
      requires Valid()
      modifies this`regP, this`exitCondition, cpMem
      ensures var a := Reading(old(cpMem[..]), Limits(), old(exitCondition), old(regP), address);
              cpMem[..] == a.mem && regP == a.regP && exitCondition == a.ec && data == a.data && failed == a.failed
      ensures exitCondition < 256
    {
      var absAddr := Add18(address, regRaCm) % cpMem.Length;
      if address >= regFlCm {
        var selected := FlError();
        if selected {
          return true, cpMem[0];
        }
        absAddr := 0;
      }
      return false, cpMem[absAddr];
    }

    method WriteMem(address: u18, data: Word) returns (failed: bool)
      requires Valid()
      modifies this`regP, this`exitCondition, cpMem
      ensures var a := Writing(old(cpMem[..]), Limits(), old(exitCondition), old(regP), address, data);
              cpMem[..] == a.mem && regP == a.regP && exitCondition == a.ec && failed == a.failed
      ensures exitCondition < 256
    {
      var absAddr := Add18(address, regRaCm) % cpMem.Length;
      if address >= regFlCm {
        failed := FlError();
        return;
      }
      cpMem[absAddr] := data;
      return false;
    }

    /** Continue at `p`: fetch the word there. */
    method Goto(p: u18)
      requires Valid()
      modifies this`regP, this`exitCondition, this`cpuStopped, this`opWord, this`opOffset, cpMem
      ensures var a := Reading(old(cpMem[..]), Limits(), old(exitCondition), p, p);
              && cpMem[..] == a.mem && regP == a.regP && exitCondition == a.ec
              && opWord == a.data && cpuStopped == a.failed
      ensures opOffset == 60 && exitCondition < 256
      ensures Limits().Keeps(old(cpMem[..]), cpMem[..])
    {
      regP := p;
      cpuStopped, opWord := ReadMem(p);
      opOffset := 60;
    }

    method NextWord()
      requires Valid()
      modifies this`regP, this`exitCondition, this`cpuStopped, this`opWord, this`opOffset, cpMem
      ensures var p := (old(regP) + 1) % TWO18;
              var a := Reading(old(cpMem[..]), Limits(), old(exitCondition), p, p);
              && cpMem[..] == a.mem && regP == a.regP && exitCondition == a.ec
              && opWord == a.data && cpuStopped == a.failed
      ensures opOffset == 60 && exitCondition < 256
      ensures Limits().Keeps(old(cpMem[..]), cpMem[..])
    {
      Goto((regP + 1) % TWO18);
    }

    /** The CMU's own out-of-range action, which also stops the processor in exit mode. */
    method CmuError()
      requires Valid()
      modifies this`regP, this`exitCondition, this`cpuStopped, cpMem
      ensures var a := OutOfRange(old(cpMem[..]), Limits(), old(exitCondition), old(regP));
              && cpMem[..] == a.mem && regP == a.regP && exitCondition == a.ec
              && cpuStopped == (a.failed || old(cpuStopped))
      ensures exitCondition < 256
    {
      exitCondition := Noted(exitCondition);
      if exitMode / 0x1000 % 2 == 1 {
        if regRaCm < cpMem.Length {
          cpMem[regRaCm] := ExitWord(exitCondition, regP);
        }
        regP := 0;
        cpuStopped := true;
      }
    }

    method GetByte(address: nat, pos: nat) returns (failed: bool, byte: Char6)
      requires Valid() && pos < 10
      modifies this`regP, this`exitCondition, this`cpuStopped, cpMem
      ensures exitCondition < 256 && failed == (address >= regFlCm)
      ensures !failed ==>
                && (Backed() ==> byte == Field()[10 * address + pos]) && cpMem[..] == old(cpMem[..])
                && regP == old(regP) && exitCondition == old(exitCondition) && cpuStopped == old(cpuStopped)
      ensures failed ==>
                var a := OutOfRange(old(cpMem[..]), Limits(), old(exitCondition), old(regP));
                && cpMem[..] == a.mem && regP == a.regP && exitCondition == a.ec
                && cpuStopped == (a.failed || old(cpuStopped))
    {
      byte := 0;
      if address >= regFlCm {
        CmuError();
        return true, byte;
      }
      var location := Add18(regRaCm, address) % cpMem.Length;
      AddCommutes(regRaCm, address);
      if Backed() {
        AbsoluteInField(Limits(), address, cpMem.Length);
        FieldCharAt(cpMem[..], regRaCm, regFlCm, address, pos);
      }
      return false, GetChar(cpMem[location], pos);
    }

    method PutByte(address: nat, pos: nat, byte: Char6) returns (failed: bool)
      requires Valid() && pos < 10
      modifies this`regP, this`exitCondition, this`cpuStopped, cpMem
      ensures exitCondition < 256 && failed == (address >= regFlCm)
      ensures !failed ==>
                && (Backed() ==> Field() == old(Field())[10 * address + pos := byte])
                && (Backed() ==> OutsideSame(old(cpMem[..]), cpMem[..]))
                && regP == old(regP) && exitCondition == old(exitCondition) && cpuStopped == old(cpuStopped)
      ensures failed ==>
                var a := OutOfRange(old(cpMem[..]), Limits(), old(exitCondition), old(regP));
                && cpMem[..] == a.mem && regP == a.regP && exitCondition == a.ec
                && cpuStopped == (a.failed || old(cpuStopped))
    {
      if address >= regFlCm {
        CmuError();
        return true;
      }
      var location := Add18(regRaCm, address) % cpMem.Length;
      AddCommutes(regRaCm, address);
      ghost var before := cpMem[..];
      cpMem[location] := PutChar(cpMem[location], pos, byte);
      assert cpMem[..] == before[location := PutChar(before[location], pos, byte)];
      if Backed() {
        AbsoluteInField(Limits(), address, cpMem.Length);
        PutFieldChar(before, regRaCm, regFlCm, address, pos, byte);
      }
      return false;
    }

    /** Memory, P, exit condition and the stopped flag are as an access left them. */
    predicate LeftBy(a: Access)
      reads this, cpMem
    {
      cpMem[..] == a.mem && regP == a.regP && exitCondition == a.ec && cpuStopped == a.failed
    }

    /** Moves one character, unless an access fails. */
    method MoveByte(k1: nat, c1: nat, k2: nat, c2: nat) returns (failed: bool)
      requires Valid() && c1 < 10 && c2 < 10 && !cpuStopped
      modifies this`regP, this`exitCondition, this`cpuStopped, cpMem
      ensures exitCondition < 256 && failed == (k1 >= regFlCm || k2 >= regFlCm)
      ensures !failed ==>
                && (Backed() ==> Field() == old(Field())[10 * k2 + c2 := old(Field())[10 * k1 + c1]])
                && (Backed() ==> OutsideSame(old(cpMem[..]), cpMem[..]))
                && regP == old(regP) && exitCondition == old(exitCondition) && !cpuStopped
      ensures failed ==> LeftBy(OutOfRange(old(cpMem[..]), Limits(), old(exitCondition), old(regP)))
    {
      hide FieldChars, OutOfRange, Bounds.Absolute;
      ghost var before := cpMem[..];
      var byte;
      failed, byte := GetByte(k1, c1);
      if !failed {
        assert cpMem[..] == before;
        failed := PutByte(k2, c2, byte);
      }
    }

    /** Memory when j characters of a move have been moved, both addresses being in range so far. */
    ghost predicate MovedSoFar(before: seq<Word>, t: Descriptor, j: nat)
      reads this`regRaCm, this`regFlCm, this`exitMode, cpMem
    {
      && |before| == cpMem.Length && (regFlCm == 0 ==> cpMem[..] == before)
      && (Backed() ==>
            && OutsideSame(before, cpMem[..])
            && (j > 0 ==> t.Source() + j <= 10 * regFlCm && t.Destination() + j <= 10 * regFlCm)
            && Field() == ForwardCopy(FieldChars(before, regRaCm, regFlCm), t.Source(), t.Destination(), j))
    }

    lemma NothingMoved(before: seq<Word>, t: Descriptor)
      requires before == cpMem[..]
      ensures MovedSoFar(before, t, 0)
    {
      if Backed() {
        CopyNothing(Field(), t.Source(), t.Destination());
      }
    }

    /** One turn of the move. */
    method MoveTurn(t: Descriptor, k1: nat, c1: nat, k2: nat, c2: nat, ghost before: seq<Word>, ghost j: nat)
        returns (failed: bool)
      requires Valid() && c1 < 10 && c2 < 10 && !cpuStopped && MovedSoFar(before, t, j)
      requires 10 * k1 + c1 == t.Source() + j && 10 * k2 + c2 == t.Destination() + j
      modifies this`regP, this`exitCondition, this`cpuStopped, cpMem
      ensures exitCondition < 256 && failed == (k1 >= regFlCm || k2 >= regFlCm)
      ensures !failed ==>
                && MovedSoFar(before, t, j + 1)
                && regP == old(regP) && exitCondition == old(exitCondition) && !cpuStopped
      ensures failed ==> LeftBy(OutOfRange(old(cpMem[..]), Limits(), old(exitCondition), old(regP)))
    {
      hide FieldChars, OutOfRange, ForwardCopy, Bounds.Absolute, CpuContext.OutsideSame;
      ghost var middle := cpMem[..];
      failed := MoveByte(k1, c1, k2, c2);
      OutsideOfField(before, middle, cpMem[..]);
      if !failed && Backed() {
        CopyOneMore(FieldChars(before, regRaCm, regFlCm), t.Source(), t.Destination(), j);
      }
    }

    /** The character move. `moved` is the memory when the last character has been moved. */
    method CmuTransfer(t: Descriptor) returns (ghost moved: seq<Word>)
      requires Valid() && !cpuStopped && t.CharactersExist()
      modifies this`regP, this`exitCondition, this`cpuStopped, cpMem
      ensures exitCondition < 256
      ensures Confined() ==> Limits().Keeps(old(cpMem[..]), cpMem[..])
      ensures |moved| == cpMem.Length
      ensures Backed() ==>
                && HasMoved(old(cpMem[..]), moved, t)
                && LeftBy(if Moved(t) == t.ll then Access(moved, old(regP), old(exitCondition), 0, false)
                          else OutOfRange(moved, Limits(), old(exitCondition), old(regP)))
    {
      hide FieldChars, OutOfRange, ForwardCopy, Bounds.Absolute, CpuContext.Confined, CpuContext.OutsideSame,
           Bounds.Keeps, CpuContext.MovedSoFar, CpuContext.HasMoved, Room;
      var k1, c1, k2, c2, ll := t.k1, t.c1, t.k2, t.c2, t.ll;
      ghost var before, j := cpMem[..], 0;
      NothingMoved(before, t);
      while ll > 0
        invariant exitCondition == old(exitCondition) < 256 && regP == old(regP) && !cpuStopped
        invariant c1 <= 9 && c2 <= 9 && j + ll == t.ll
        invariant 10 * k1 + c1 == t.Source() + j && 10 * k2 + c2 == t.Destination() + j
        invariant MovedSoFar(before, t, j)
      {
        ll := ll - 1;
        moved := cpMem[..];
        MoveEnds(before, t, j);
        var failed := MoveTurn(t, k1, c1, k2, c2, before, j);
        if failed {
          EndKeeps(before, moved);
          return;
        }
        k1, c1 := NextCharacter(k1, c1);
        k2, c2 := NextCharacter(k2, c2);
        j := j + 1;
      }
      moved := cpMem[..];
      MoveEnds(before, t, j);
      EndKeeps(before, moved);
    }

    /** A move ends when all characters are moved or the next one is out of range. */
    lemma MoveEnds(before: seq<Word>, t: Descriptor, j: nat)
      requires MovedSoFar(before, t, j) && j <= t.ll
      ensures MovedInField(before, cpMem[..])
      ensures Backed() && (j == t.ll || t.Source() + j >= 10 * regFlCm || t.Destination() + j >= 10 * regFlCm) ==>
                Moved(t) == j && HasMoved(before, cpMem[..], t)
    {
      hide FieldChars, ForwardCopy;
    }

    /** What changed lies in the field, or the field is not backed by memory. */
    ghost predicate MovedInField(before: seq<Word>, moved: seq<Word>)
      reads this`regRaCm, this`regFlCm, this`exitMode
    {
      && |before| == |moved| == cpMem.Length
      && (regFlCm == 0 ==> before == moved) && (Backed() ==> OutsideSame(before, moved))
    }

    lemma EndKeeps(before: seq<Word>, moved: seq<Word>)
      requires MovedInField(before, moved) && Limits().Keeps(moved, cpMem[..])
      ensures Confined() ==> Limits().Keeps(before, cpMem[..])
    {
      OutsideOfField(before, moved, cpMem[..]);
    }

    ghost predicate OutsideSame(before: seq<Word>, after: seq<Word>)
      reads this`regRaCm, this`regFlCm, this`exitMode
    {
      && |before| == |after|
      && forall i | 0 <= i < |before| && !Limits().InField(i) :: before[i] == after[i]
    }

    /** Changes within the field, and then at most the exit word, keep what must be kept. */
    lemma OutsideOfField(before: seq<Word>, middle: seq<Word>, after: seq<Word>)
      requires |before| == |middle| == |after| == cpMem.Length
      ensures OutsideSame(before, before) && Limits().Keeps(after, after)
      ensures OutsideSame(before, middle) && OutsideSame(middle, after) ==> OutsideSame(before, after)
      ensures || (Backed() && OutsideSame(before, middle))
              || (!Backed() && regFlCm > 0) || (regFlCm == 0 && before == middle) ==>
                Confined() && Limits().Keeps(middle, after) ==> Limits().Keeps(before, after)
    {
    }

    /** How many characters of a move stay in range. */
    function Moved(t: Descriptor): (n: nat)
      reads this`regFlCm
      ensures n <= t.ll
    {
      var room := Room(10 * regFlCm, t.Source(), t.Destination());
      if t.ll < room then t.ll else room
    }

    /** Memory when the characters that stay in range have been moved. */
    ghost predicate HasMoved(before: seq<Word>, moved: seq<Word>, t: Descriptor)
      requires Backed() && |before| == |moved| == cpMem.Length
      reads this`regRaCm, this`regFlCm, this`exitMode
    {
      && FieldChars(moved, regRaCm, regFlCm)
         == ForwardCopy(FieldChars(before, regRaCm, regFlCm), t.Source(), t.Destination(), Moved(t))
      && OutsideSame(before, moved)
    }

    /** Going on with the next word, with a given memory and exit condition. */
    twostate predicate NextFetched(mem: seq<Word>, ec: nat)
      requires old(Valid()) && |mem| > 0 && ec < 256
      reads this, cpMem
    {
      var next := (old(regP) + 1) % TWO18;
      LeftBy(Reading(mem, Limits(), ec, next, next)) && opOffset == 60
    }

    /**
     What a move with descriptor `t` has done. With an impossible character position nothing is
     moved. In exit mode an address out of range stops the processor; otherwise the characters
     before it have been moved, X0 is cleared and execution goes on with the next word.
     */
    twostate predicate MoveDone(t: Descriptor, moved: seq<Word>)
      requires old(Valid()) && Backed() && cpMem.Length > 0
      reads this, cpMem
    {
      && |moved| == cpMem.Length
      && HasMoved(old(cpMem[..]), moved, t.Possible())
      && var bad := !t.CharactersExist() || Moved(t) < t.ll;
         if bad && Limits().ExitSelected() then
           LeftBy(OutOfRange(moved, Limits(), old(exitCondition), old(regP))) && regX == old(regX)
         else
           && NextFetched(moved, if bad then Noted(old(exitCondition)) else old(exitCondition))
           && regX == old(regX)[0 := 0]
    }

    method CmuMove(t: Descriptor) returns (ghost moved: seq<Word>)
      requires Valid() && !cpuStopped
      modifies this`regX, this`regP, this`exitCondition, this`cpuStopped, this`opWord, this`opOffset, cpMem
      ensures Valid()
      ensures Confined() ==> Limits().Keeps(old(cpMem[..]), cpMem[..])
      ensures opOffset == 60 || (cpuStopped && opOffset == old(opOffset))
      ensures Backed() ==> MoveDone(t, moved)
    {
      hide FieldChars, Room, OutOfRange, CpuContext.HasMoved, CpuContext.Moved, Bounds.Keeps, Reading;
      ghost var before := cpMem[..];
      KeepsNothing(Limits(), before);
      if t.c1 > 9 || t.c2 > 9 {
        CmuError();
        moved := before;
        if Backed() {
          ImpossibleMoves(t, before);
        }
        if cpuStopped {
          return;
        }
      } else {
        moved := CmuTransfer(t);
        if cpuStopped {
          return;
        }
      }
      regX := regX[0 := 0];
      ghost var middle := cpMem[..];
      NextWord();
      if Confined() {
        KeepsBoth(Limits(), before, middle, cpMem[..]);
      }
    }

    lemma ImpossibleMoves(t: Descriptor, mem: seq<Word>)
      requires !t.CharactersExist() && Backed() && |mem| == cpMem.Length
      ensures HasMoved(mem, mem, t.Possible())
    {
    }

    /** What the moves and compares have done, each with its descriptor. */
    twostate predicate MovedDirect(moved: seq<Word>)
      requires old(Valid()) && cpMem.Length > 0
      reads this, cpMem
    {
      Backed() ==> MoveDone(Decode(old(opWord), 8), moved)
    }

    twostate predicate MovedIndirect(moved: seq<Word>)
      requires old(Valid()) && cpMem.Length > 0
      reads this, cpMem
    {
      && opAddress == Add18(old(regB[opJ]), old(opWord) / TWO30 % TWO18)
      && var a := Reading(old(cpMem[..]), Limits(), old(exitCondition), old(regP), opAddress);
         if a.failed then LeftBy(a) && regX == old(regX)
         else Backed() && opAddress < regFlCm ==> MoveDone(Decode(a.data, 512), moved)
    }

    twostate predicate UncollatedCompared()
      requires old(Valid()) && cpMem.Length > 0
      reads this, cpMem
    {
      var t := Decode(old(opWord), 8);
      Backed() && old(Backed()) ==> CompareDone(old(Field()), t, RAW, !t.CharactersExist())
    }

    twostate predicate CollatedCompared()
      requires old(Valid()) && cpMem.Length > 0
      reads this, cpMem
    {
      var t, table := Decode(old(opWord), 8), old(regA[0]);
      Backed() && old(Backed()) ==>
        CompareDone(old(Field()), t, Collating(old(Field()), table), !t.CharactersExist() || table >= regFlCm)
    }

    method CmuMoveDirect() returns (ghost moved: seq<Word>)
      requires Valid() && !cpuStopped
      modifies this`regX, this`regP, this`exitCondition, this`cpuStopped, this`opWord, this`opOffset, cpMem
      ensures Valid()
      ensures Confined() ==> Limits().Keeps(old(cpMem[..]), cpMem[..])
      ensures opOffset == 60 || (cpuStopped && opOffset == old(opOffset))
      ensures MovedDirect(moved)
    {
      moved := CmuMove(Decode(opWord, 8));
    }

    /** The indirect move takes its descriptor from the word at Bj + K. If that word cannot be
        read in exit mode the instruction stops there. */
    method CmuMoveIndirect() returns (ghost moved: seq<Word>)
      requires Valid() && !cpuStopped
      modifies this`regX, this`regP, this`exitCondition, this`cpuStopped, this`opWord, this`opOffset,
               this`opAddress, cpMem
      ensures Valid()
      ensures Confined() ==> Limits().Keeps(old(cpMem[..]), cpMem[..])
      ensures opOffset == 60 || (cpuStopped && opOffset == old(opOffset))
      ensures MovedIndirect(moved)
    {
      hide FieldChars, Room, ForwardCopy;
      ghost var before := cpMem[..];
      opAddress := opWord / TWO30 % TWO18;
      opAddress := Add18(regB[opJ], opAddress);
      var descWord;
      cpuStopped, descWord := ReadMem(opAddress);
      if cpuStopped {
        moved := before;
        return;
      }
      assert cpMem[..] == before;
      moved := CmuMove(Decode(descWord, 512));
    }

    /** Fetches two characters, unless an access fails. */
    method GetBytes(k1: nat, c1: nat, k2: nat, c2: nat) returns (failed: bool, byte1: Char6, byte2: Char6)
      requires Valid() && c1 < 10 && c2 < 10 && !cpuStopped
      modifies this`regP, this`exitCondition, this`cpuStopped, cpMem
      ensures exitCondition < 256 && failed == (k1 >= regFlCm || k2 >= regFlCm)
      ensures !failed && Backed() ==> byte1 == Field()[10 * k1 + c1] && byte2 == Field()[10 * k2 + c2]
      ensures LeftBy(if failed then OutOfRange(old(cpMem[..]), Limits(), old(exitCondition), old(regP))
                     else Access(old(cpMem[..]), old(regP), old(exitCondition), 0, false))
    {
      hide FieldChars, OutOfRange, Bounds.Absolute;
      ghost var before := cpMem[..];
      byte2 := 0;
      failed, byte1 := GetByte(k1, c1);
      if !failed {
        assert cpMem[..] == before;
        failed, byte2 := GetByte(k2, c2);
      }
    }

    /** What a comparison of strings of `f` with descriptor `t` in the order of `key` has done: X0 tells the
        verdict, unless an address out of range has stopped the processor in exit mode. */
    twostate predicate CompareDone(f: seq<Char6>, t: Descriptor, key: Key, bad: bool)
      requires old(Valid()) && Backed() && cpMem.Length > 0 && t.ll < TWO18
      reads this, cpMem
    {
      var verdict := if bad then (0, true) else Verdict(f, key, t.Source(), t.Destination(), t.ll);
      var outOfRange := verdict.1;
      if outOfRange && Limits().ExitSelected() then
        && LeftBy(OutOfRange(old(cpMem[..]), Limits(), old(exitCondition), old(regP)))
        && regX == old(regX)
      else
        var next := (old(regP) + 1) % TWO18;
        && LeftBy(Reading(old(cpMem[..]), Limits(),
                          if outOfRange then Noted(old(exitCondition)) else old(exitCondition), next, next))
        && regX == old(regX)[0 := Ones(verdict.0)]
        && opOffset == 60
    }

    /** The field as a string, if memory backs it. */
    ghost function Chars(mem: seq<Word>): seq<Char6>
      requires |mem| == cpMem.Length
      reads this`regRaCm, this`regFlCm
    {
      if Backed() then FieldChars(mem, regRaCm, regFlCm) else []
    }

    lemma CharsAre(mem: seq<Word>)
      requires mem == cpMem[..]
      ensures Backed() ==> Chars(mem) == Field() && |Field()| == 10 * regFlCm
    {
    }

    /** What the comparison loops have left: memory kept, and the error if a string has run out. */
    twostate predicate Compared(verdict: (int, bool), result: Word)
      requires old(Valid()) && cpMem.Length > 0 && -TWO18 < verdict.0 < TWO18
      reads this, cpMem
    {
      && result == Ones(verdict.0)
      && LeftBy(if verdict.1 then OutOfRange(old(cpMem[..]), Limits(), old(exitCondition), old(regP))
                else Access(old(cpMem[..]), old(regP), old(exitCondition), 0, false))
    }

    /** The comparison loop without a collating table. */
    method CompareUncollated(t: Descriptor) returns (result: Word)
      requires Valid() && !cpuStopped && t.CharactersExist() && t.ll < TWO18
      modifies this`regP, this`exitCondition, this`cpuStopped, cpMem
      ensures Valid()
      ensures Limits().Keeps(old(cpMem[..]), cpMem[..])
      ensures !cpuStopped ==> cpMem[..] == old(cpMem[..]) && regP == old(regP)
      ensures Backed() ==> Compared(Verdict(old(Field()), RAW, t.Source(), t.Destination(), t.ll), result)
    {
      hide FieldChars, OutOfRange, Verdict, CpuContext.Chars;
      result := 0;
      ghost var before, f := cpMem[..], Chars(cpMem[..]);
      CharsAre(before);
      var k1, c1, k2, c2, ll := t.k1, t.c1, t.k2, t.c2, t.ll;
      while ll > 0
        invariant cpMem[..] == before && regP == old(regP) && exitCondition == old(exitCondition) && !cpuStopped
        invariant c1 <= 9 && c2 <= 9 && 0 <= ll <= t.ll
        invariant Backed() ==>
                    Verdict(f, RAW, 10 * k1 + c1, 10 * k2 + c2, ll)
                    == Verdict(f, RAW, t.Source(), t.Destination(), t.ll)
      {
        VerdictStep(f, RAW, 10 * k1 + c1, 10 * k2 + c2, ll);
        CharsAre(before);
        ll := ll - 1;
        var failed, byte1, byte2 := GetBytes(k1, c1, k2, c2);
        if failed {
          return;
        }
        if byte1 != byte2 {
          result := ll + 1;
          if byte1 < byte2 {
            result := TWO60 - 1 - result;
          }
          return;
        }
        k1, c1 := NextCharacter(k1, c1);
        k2, c2 := NextCharacter(k2, c2);
      }
      VerdictStep(f, RAW, 10 * k1 + c1, 10 * k2 + c2, 0);
    }

    /** Fetches two characters and, if they differ, their places in the collating order. */
    method GetCollated(k1: nat, c1: nat, k2: nat, c2: nat, table: nat)
      returns (failed: bool, byte1: Char6, byte2: Char6)
      requires Valid() && c1 < 10 && c2 < 10 && !cpuStopped
      modifies this`regP, this`exitCondition, this`cpuStopped, cpMem
      ensures exitCondition < 256
      ensures LeftBy(if failed then OutOfRange(old(cpMem[..]), Limits(), old(exitCondition), old(regP))
                     else Access(old(cpMem[..]), old(regP), old(exitCondition), 0, false))
      ensures k1 >= regFlCm || k2 >= regFlCm ==> failed
      ensures Backed() && k1 < regFlCm && k2 < regFlCm ==>
                match Judge(Collating(old(Field()), table), old(Field())[10 * k1 + c1], old(Field())[10 * k2 + c2])
                case Less => !failed && byte1 < byte2
                case Same => !failed && byte1 == byte2
                case Greater => !failed && byte1 > byte2
                case Unknown => failed
    {
      hide FieldChars, OutOfRange, Bounds.Absolute;
      ghost var before := cpMem[..];
      failed, byte1, byte2 := GetBytes(k1, c1, k2, c2);
      if !failed && byte1 != byte2 {
        assert cpMem[..] == before;
        failed, byte1, byte2 := GetBytes(table + byte1 / 8, byte1 % 8, table + byte2 / 8, byte2 % 8);
      }
    }

    /** The comparison loop with a collating table: characters that differ are looked up. */
    method CompareCollated(t: Descriptor, table: nat) returns (result: Word)
      requires Valid() && !cpuStopped && t.CharactersExist() && t.ll < TWO18
      modifies this`regP, this`exitCondition, this`cpuStopped, cpMem
      ensures Valid()
      ensures Limits().Keeps(old(cpMem[..]), cpMem[..])
      ensures !cpuStopped ==> cpMem[..] == old(cpMem[..]) && regP == old(regP)
      ensures Backed() ==>
                var key := Collating(old(Field()), table);
                Compared(Verdict(old(Field()), key, t.Source(), t.Destination(), t.ll), result)
    {
      hide FieldChars, OutOfRange, Verdict, CpuContext.Chars, Collating, Judge;
      result := 0;
      ghost var before, f := cpMem[..], Chars(cpMem[..]);
      ghost var key := Collating(f, table);
      CharsAre(before);
      var k1, c1, k2, c2, ll := t.k1, t.c1, t.k2, t.c2, t.ll;
      while ll > 0
        invariant cpMem[..] == before && regP == old(regP) && exitCondition == old(exitCondition) && !cpuStopped
        invariant c1 <= 9 && c2 <= 9 && 0 <= ll <= t.ll
        invariant Backed() ==>
                    Verdict(f, key, 10 * k1 + c1, 10 * k2 + c2, ll)
                    == Verdict(f, key, t.Source(), t.Destination(), t.ll)
      {
        VerdictStep(f, key, 10 * k1 + c1, 10 * k2 + c2, ll);
        CharsAre(before);
        ll := ll - 1;
        var failed, byte1, byte2 := GetCollated(k1, c1, k2, c2, table);
        if failed {
          return;
        }
        if byte1 != byte2 {
          result := ll + 1;
          if byte1 < byte2 {
            result := TWO60 - 1 - result;
          }
          return;
        }
        k1, c1 := NextCharacter(k1, c1);
        k2, c2 := NextCharacter(k2, c2);
      }
      VerdictStep(f, key, 10 * k1 + c1, 10 * k2 + c2, 0);
    }

    method CmuCompareUncollated()
      requires Valid() && !cpuStopped
      modifies this`regX, this`regP, this`exitCondition, this`cpuStopped, this`opWord, this`opOffset, cpMem
      ensures Valid()
      ensures Limits().Keeps(old(cpMem[..]), cpMem[..])
      ensures opOffset == 60 || (cpuStopped && opOffset == old(opOffset))
      ensures UncollatedCompared()
    {
      hide FieldChars, Verdict, Collating, Reading, Bounds.Keeps, OutOfRange;
      KeepsNothing(Limits(), cpMem[..]);
      ghost var before := cpMem[..];
      var t := Decode(opWord, 8);
      var result := 0;
      if t.c1 > 9 || t.c2 > 9 {
        CmuError();
      } else {
        result := CompareUncollated(t);
      }
      if cpuStopped {
        return;
      }
      assert cpMem[..] == before;
      regX := regX[0 := result];
      NextWord();
    }

    method CmuCompareCollated()
      requires Valid() && !cpuStopped
      modifies this`regX, this`regP, this`exitCondition, this`cpuStopped, this`opWord, this`opOffset, cpMem
      ensures Valid()
      ensures Limits().Keeps(old(cpMem[..]), cpMem[..])
      ensures opOffset == 60 || (cpuStopped && opOffset == old(opOffset))
      ensures CollatedCompared()
    {
      hide FieldChars, Verdict, Collating, Reading, Bounds.Keeps, OutOfRange;
      KeepsNothing(Limits(), cpMem[..]);
      ghost var before := cpMem[..];
      var t := Decode(opWord, 8);
      var collTable := regA[0];
      var result := 0;
      if t.c1 > 9 || t.c2 > 9 || collTable >= regFlCm || regRaCm + collTable >= cpMem.Length {
        CmuError();
      } else {
        result := CompareCollated(t, collTable);
      }
      if cpuStopped {
        return;
      }
      assert cpMem[..] == before;
      regX := regX[0 := result];
      NextWord();
    }

    function EcsState(): Ecs
      reads this`ecsFlagRegister, ecsMem
    {
      Ecs(ecsMem[..], ecsFlagRegister)
    }

    method EcsFlagRegister(ecsAddress: nat) returns (accepted: bool)
      modifies this`ecsFlagRegister
      ensures (accepted, ecsFlagRegister)
              == Flagged(old(ecsFlagRegister), FlagFunction(ecsAddress), FlagWord(ecsAddress))
      ensures !accepted ==> ecsFlagRegister == old(ecsFlagRegister)
      ensures FlagFunction(ecsAddress) == 4 || FlagFunction(ecsAddress) == 6 ==>
                (accepted <==> Common(old(ecsFlagRegister), FlagWord(ecsAddress)) == 0)
    {
      hide FlagWord, Common, Either, Without;
      var flagWord := FlagWord(ecsAddress);
      accepted := true;
      match FlagFunction(ecsAddress) {
        case 4 =>
          if Common(ecsFlagRegister, flagWord) != 0 {
            return false;
          }
          ecsFlagRegister := Either(ecsFlagRegister, flagWord);
        case 5 => ecsFlagRegister := Either(ecsFlagRegister, flagWord);
        case 6 =>
          if Common(ecsFlagRegister, flagWord) != 0 {
            return false;
          }
        case 7 => ecsFlagRegister := Without(ecsFlagRegister, flagWord);
        case _ =>
      }
    }

    /** Transfers one word between `data` and an absolute ECS address, or asks the flag register. */
    method EcsAccess(address: nat, data: Word, writeToEcs: bool) returns (failed: bool, data': Word)
      requires Valid()
      modifies this`ecsFlagRegister, ecsMem
      ensures writeToEcs || AddressesFlags(address) ==>
                (EcsState(), failed) == PutWord(old(EcsState()), address, data) && data' == data
      ensures !writeToEcs && !AddressesFlags(address) ==>
                && EcsState() == old(EcsState()) && data' == EcsWord(ecsMem[..], address)
                && failed == (address >= ecsMem.Length)
    {
      hide Flagged, FlagWord, FlagFunction;
      data' := data;
      if AddressesFlags(address) {
        var accepted := EcsFlagRegister(address);
        return !accepted, data';
      }
      if writeToEcs {
        if address >= ecsMem.Length {
          return true, data';
        }
        ghost var before := ecsMem[..];
        ecsMem[address] := data;
        assert ecsMem[..] == before[address := data];
      } else {
        if address >= ecsMem.Length {
          return true, 0;
        }
        data' := ecsMem[address];
      }
      return false, data';
    }

    /** One turn of the block read: words beyond the end of ECS are zeroed. */
    method EcsReadWord(cmAddress: nat, ecsAddress: nat) returns (errorExit: bool)
      requires Valid() && cmAddress < cpMem.Length
      modifies this`ecsFlagRegister, cpMem, ecsMem
      ensures errorExit == (ecsAddress >= ecsMem.Length) && EcsState() == old(EcsState())
      ensures cpMem[..] == old(cpMem[..])[cmAddress := EcsWord(old(ecsMem[..]), ecsAddress)]
    {
      ghost var before := cpMem[..];
      if ecsAddress >= ecsMem.Length {
        cpMem[cmAddress] := 0;
        errorExit := true;
      } else {
        var data;
        errorExit, data := EcsAccess(ecsAddress, cpMem[cmAddress], false);
        cpMem[cmAddress] := data;
      }
      assert cpMem[..] == before[cmAddress := EcsWord(old(ecsMem[..]), ecsAddress)];
    }

    /** The word of a block at relative address `k` is where the adder says. */
    lemma BlockAddressIs(k: u18)
      requires Backed() && k < regFlCm
      ensures Add18(regRaCm, k) == regRaCm + k
      ensures (regRaCm + k) % cpMem.Length == regRaCm + k < cpMem.Length
      ensures k + 1 < regFlCm ==> Add18(regRaCm + k, 1) == regRaCm + k + 1
    {
      hide Add18;
      AddIs(regRaCm, k);
      AddIs(regRaCm + k, 1);
      SmallRemainder(regRaCm + k, cpMem.Length);
    }

    /** The absolute address of the next word of a block at relative address k, if there is one. */
    predicate AtWord(cmAddress: u18, k: nat, left: nat)
      reads this`regRaCm, this`regFlCm
    {
      k + left <= regFlCm && (Backed() && left > 0 ==> cmAddress == regRaCm + k)
    }

    lemma FirstWord(cmStart: u18, wordCount: nat)
      requires cmStart + wordCount <= regFlCm
      ensures AtWord(Add18(regRaCm, cmStart), cmStart, wordCount)
    {
      hide Add18;
      if Backed() && wordCount > 0 {
        BlockAddressIs(cmStart);
      }
    }

    /** Where a turn of either loop takes its word, and where the next one is. */
    lemma TurnAddress(cmAddress: u18, k: nat, left: nat)
      requires AtWord(cmAddress, k, left) && left > 0 && cpMem.Length > 0
      ensures cmAddress % cpMem.Length <= cmAddress
      ensures AtWord(Add18(cmAddress % cpMem.Length, 1), k + 1, left - 1)
      ensures Backed() ==> cmAddress % cpMem.Length == regRaCm + k
    {
      hide Add18;
      RemainderLe(cmAddress, cpMem.Length);
      if Backed() {
        BlockAddressIs(k);
      }
    }

    /** Memory when `j` words of a block have been read. */
    ghost predicate HasRead(before: seq<Word>, ecs: seq<Word>, cmStart: nat, ecsStart: nat, j: nat)
      reads this`regRaCm, this`regFlCm, cpMem
    {
      && |before| == cpMem.Length && (j == 0 ==> cpMem[..] == before)
      && (Backed() && cmStart + j <= regFlCm ==>
            cpMem[..] == Blit(before, regRaCm + cmStart, EcsWords(ecs, ecsStart, j)))
    }

    /** One turn of the read loop. */
    method EcsReadTurn(cmAddress: u18, ecsAddress: nat, ghost before: seq<Word>, ghost cmStart: nat,
                       ghost j: nat, ghost left: nat)
        returns (errorExit: bool, next: u18)
      requires Valid() && left > 0 && j <= ecsAddress && AtWord(cmAddress, cmStart + j, left)
      requires HasRead(before, ecsMem[..], cmStart, ecsAddress - j, j)
      modifies this`ecsFlagRegister, cpMem, ecsMem
      ensures errorExit == (ecsAddress >= ecsMem.Length) && EcsState() == old(EcsState())
      ensures AtWord(next, cmStart + j + 1, left - 1)
      ensures HasRead(before, ecsMem[..], cmStart, ecsAddress - j, j + 1)
    {
      hide EcsWord, EcsWords, Blit, Add18, AtWord;
      TurnAddress(cmAddress, cmStart + j, left);
      var location := cmAddress % cpMem.Length;
      ghost var ecs := ecsMem[..];
      if Backed() {
        StaysBacked(cmAddress, cmStart + j, left);
        BlitOneMore(before, regRaCm + cmStart, ecs, ecsAddress - j, j);
      }
      errorExit := EcsReadWord(location, ecsAddress);
      assert ecsMem[..] == ecs;
      next := Add18(location, 1);
    }

    lemma StaysBacked(cmAddress: u18, k: nat, left: nat)
      requires AtWord(cmAddress, k, left)
      ensures k + left <= regFlCm
    {
    }

    /** The loop of a block read into central memory. */
    method EcsReadBlock(cmStart: u18, ecsStart: nat, wordCount: nat) returns (errorExit: bool)
      requires Valid() && cmStart + wordCount <= regFlCm
      modifies this`ecsFlagRegister, cpMem, ecsMem
      ensures EcsState() == old(EcsState())
      ensures errorExit <==> wordCount > 0 && ecsStart + wordCount > ecsMem.Length
      ensures Confined() ==> Limits().Keeps(old(cpMem[..]), cpMem[..])
      ensures Backed() ==>
                cpMem[..] == Blit(old(cpMem[..]), regRaCm + cmStart, EcsWords(old(ecsMem[..]), ecsStart, wordCount))
    {
      hide EcsWord, Blit, EcsWords, Add18, AtWord, CpuContext.Confined;
      FirstWord(cmStart, wordCount);
      var cmAddress: u18 := Add18(regRaCm, cmStart);
      errorExit := false;
      ghost var before, ecs := cpMem[..], EcsState();
      BlitNothing(before, regRaCm + cmStart, ecs.mem, ecsStart);
      var j := 0;
      while j < wordCount
        invariant 0 <= j <= wordCount && EcsState() == ecs
        invariant AtWord(cmAddress, cmStart + j, wordCount - j)
        invariant errorExit <==> j > 0 && ecsStart + j > ecsMem.Length
        invariant HasRead(before, ecsMem[..], cmStart, ecsStart, j)
      {
        errorExit, cmAddress := EcsReadTurn(cmAddress, ecsStart + j, before, cmStart, j, wordCount - j);
        j := j + 1;
      }
      ReadKeeps(before, ecs.mem, cmStart, ecsStart, wordCount);
    }

    lemma BlitNothing(mem: seq<Word>, start: nat, ecs: seq<Word>, address: nat)
      ensures Blit(mem, start, EcsWords(ecs, address, 0)) == mem
    {
    }

    /** A field that memory does not back and that is confined is empty or covers all of memory. */
    lemma ReadKeeps(before: seq<Word>, ecs: seq<Word>, cmStart: nat, ecsStart: nat, j: nat)
      requires HasRead(before, ecs, cmStart, ecsStart, j) && cmStart + j <= regFlCm
      ensures Confined() ==> Limits().Keeps(before, cpMem[..])
    {
      if Backed() {
        BlitKeeps(Limits(), before, regRaCm + cmStart, EcsWords(ecs, ecsStart, j));
      }
    }

    /** One turn of the write loop. */
    method EcsWriteTurn(cmAddress: u18, ecsAddress: nat, ghost k: nat, ghost left: nat)
        returns (errorExit: bool, next: u18)
      requires Valid() && left > 0 && AtWord(cmAddress, k, left)
      modifies this`ecsFlagRegister, ecsMem
      ensures !errorExit ==> AtWord(next, k + 1, left - 1)
      ensures Backed() ==>
                old(Written(k, ecsAddress, left))
                == if errorExit then (EcsState(), true) else Written(k + 1, ecsAddress + 1, left - 1)
    {
      hide PutWord, PutWords, Add18, AtWord;
      TurnAddress(cmAddress, k, left);
      StaysBacked(cmAddress, k, left);
      var location := cmAddress % cpMem.Length;
      if Backed() {
        WriteStep(k, ecsAddress, left);
      }
      var data;
      errorExit, data := EcsAccess(ecsAddress, cpMem[location], true);
      next := Add18(location, 1);
    }

    /** The loop of a block write to ECS: it breaks at the first word that fails. */
    method EcsWriteBlock(cmStart: u18, ecsStart: nat, wordCount: nat) returns (errorExit: bool)
      requires Valid() && cmStart + wordCount <= regFlCm
      modifies this`ecsFlagRegister, ecsMem
      ensures Backed() ==>
                var start := regRaCm + cmStart;
                (EcsState(), errorExit) == PutWords(old(EcsState()), ecsStart, cpMem[start..start + wordCount])
    {
      hide PutWord, PutWords, Add18, AtWord, CpuContext.Written;
      FirstWord(cmStart, wordCount);
      var cmAddress: u18 := Add18(regRaCm, cmStart);
      errorExit := false;
      ghost var result := Written(cmStart, ecsStart, wordCount);
      WriteResult(cmStart, ecsStart, wordCount);
      var j := 0;
      while j < wordCount
        invariant 0 <= j <= wordCount && !errorExit
        invariant AtWord(cmAddress, cmStart + j, wordCount - j)
        invariant Backed() ==> Written(cmStart + j, ecsStart + j, wordCount - j) == result
      {
        errorExit, cmAddress := EcsWriteTurn(cmAddress, ecsStart + j, cmStart + j, wordCount - j);
        if errorExit {
          break;
        }
        j := j + 1;
      }
      if !errorExit {
        WriteEnd(cmStart + j, ecsStart + j);
      }
    }

    lemma WriteResult(cmStart: nat, ecsStart: nat, wordCount: nat)
      requires cmStart + wordCount <= regFlCm
      ensures Backed() ==>
                var start := regRaCm + cmStart;
                Written(cmStart, ecsStart, wordCount) == PutWords(EcsState(), ecsStart, cpMem[start..start + wordCount])
    {
      if Backed() {
        var start := regRaCm + cmStart;
        assert cpMem[..][start..start + wordCount] == cpMem[start..start + wordCount];
      }
    }

    /** What writing a block from relative address k on leads to; of no meaning unless memory backs
        the field. */
    ghost function Written(k: nat, ecsAddress: nat, left: nat): (Ecs, bool)
      reads this`regRaCm, this`regFlCm, this`ecsFlagRegister, cpMem, ecsMem
    {
      if Backed() && k + left <= regFlCm then
        PutWords(EcsState(), ecsAddress, cpMem[..][regRaCm + k..regRaCm + k + left])
      else (Ecs([], 0), false)
    }

    lemma WriteStep(k: nat, ecsAddress: nat, left: nat)
      requires left > 0 && Backed() && k + left <= regFlCm
      ensures var (ecs, failed) := PutWord(EcsState(), ecsAddress, cpMem[regRaCm + k]);
              Written(k, ecsAddress, left) ==
                if failed then (ecs, true)
                else PutWords(ecs, ecsAddress + 1, cpMem[..][regRaCm + k + 1..regRaCm + k + left])
    {
      hide PutWord;
      var words := cpMem[..][regRaCm + k..regRaCm + k + left];
      assert words[1..] == cpMem[..][regRaCm + k + 1..regRaCm + k + left];
    }

    lemma WriteEnd(k: nat, ecsAddress: nat)
      requires k <= regFlCm
      ensures Backed() ==> Written(k, ecsAddress, 0) == (EcsState(), false)
    {
    }

    /** Nothing but X, ECS and the flag register may have changed. */
    twostate predicate Untouched()
      reads this, cpMem
    {
      cpMem[..] == old(cpMem[..]) && regP == old(regP) && exitCondition == old(exitCondition)
      && cpuStopped == old(cpuStopped) && opOffset == old(opOffset) && opWord == old(opWord)
    }

    /** Without ECS, or from a wrong parcel, the processor notes an address error and stops. */
    twostate predicate EcsMissing()
      requires old(Valid())
      reads this, cpMem, ecsMem
    {
      && EcsState() == old(EcsState()) && cpMem[..] == old(cpMem[..]) && opOffset == old(opOffset)
      && regP == 0 && cpuStopped && exitCondition == Noted(old(exitCondition))
    }

    /** RX and WX to or from an address that passes the checks, and go on with the next parcel. */
    twostate predicate WordDone(writeToEcs: bool, address: nat)
      requires old(Valid()) && Valid()
      reads this, cpMem, ecsMem
    {
      && Untouched()
      && if writeToEcs then
           EcsState() == PutWord(old(EcsState()), address, old(regX[opJ])).0 && regX == old(regX)
         else
           EcsState() == old(EcsState()) && regX == old(regX)[opJ := EcsWord(old(ecsMem[..]), address)]
    }

    /** What RX or WX has done. */
    twostate predicate RegisterMoved(writeToEcs: bool)
      requires old(Valid()) && Valid()
      reads this, cpMem, ecsMem
    {
      var address := old(regX[opK]) % TWO24;
      if ecsMem.Length == 0 then EcsMissing() && regX == old(regX)
      else if old(Ended(address, 1, true, 0)) then EcsEnded(address) && regX == old(regX)
      else WordDone(writeToEcs, address + regRaEcs)
    }

    /** RX and WX: one word between ECS and Xj, and on to the next parcel; a read past the end of
        ECS gives zero. */
    method EcsRegister(writeToEcs: bool)
      requires Valid()
      modifies this`regX, this`regP, this`exitCondition, this`cpuStopped, this`opWord, this`opOffset,
               this`ecsFlagRegister, cpMem, ecsMem
      ensures Valid() && Limits().Keeps(old(cpMem[..]), cpMem[..])
      ensures opOffset == 60 || opOffset == old(opOffset)
      ensures RegisterMoved(writeToEcs)
    {
      hide OutOfRange, Reading, PutWord, Ended;
      KeepsNothing(Limits(), cpMem[..]);
      if ecsMem.Length == 0 {
        exitCondition := Noted(exitCondition);
        regP, cpuStopped := 0, true;
        return;
      }
      var ecsAddress := regX[opK] % TWO24;
      var ended := EcsPrologue(ecsAddress, 1, true, 0);
      if ended {
        return;
      }
      ecsAddress := ecsAddress + regRaEcs;
      if ecsAddress >= ecsMem.Length && !writeToEcs {
        regX := regX[opJ := 0];
      } else {
        var failed, data := EcsAccess(ecsAddress, regX[opJ], writeToEcs);
        if ecsAddress < ecsMem.Length {
          BelowFlags(ecsAddress);
        }
        regX := regX[opJ := data];
      }
    }

    lemma BelowFlags(address: nat)
      requires Valid() && address < ecsMem.Length
      ensures !AddressesFlags(address)
    {
    }

    function BlockCount(): u18
      requires Valid()
      reads this
    {
      var count := Add18(regB[opJ], opAddress);
      if count == MASK18 then 0 else count
    }

    function BlockAddress(): nat
      requires Valid()
      reads this
    {
      regX[0] % TWO24
    }

    /** What a transfer of `count` words has done: the block is copied. Past the end of ECS a read
        yields zeros and a write ends at the first word that fails; both exit to the lower half of
        the instruction word. */
    twostate predicate BlockDone(writeToEcs: bool, cmAddress: nat, from: nat, count: nat)
      requires old(Valid()) && cmAddress + count <= regFlCm && Backed()
      reads this, cpMem, ecsMem
    {
      var start := regRaCm + cmAddress;
      if writeToEcs then
        var (ecs, failed) := PutWords(old(EcsState()), from, old(cpMem[..])[start..start + count]);
        EcsState() == ecs && if failed then Untouched() else NextFetched(old(cpMem[..]), old(exitCondition))
      else
        var mem := Blit(old(cpMem[..]), start, EcsWords(old(ecsMem[..]), from, count));
        && EcsState() == old(EcsState())
        && if count > 0 && from + count > ecsMem.Length then
             cpMem[..] == mem && regP == old(regP) && opOffset == old(opOffset) && cpuStopped == old(cpuStopped)
           else
             NextFetched(mem, old(exitCondition))
    }

    /** The transfer proper and the exit from the instruction. */
    method EcsBlock(writeToEcs: bool, cmAddress: u18, ecsAddress: nat, wordCount: nat)
      requires Valid() && cmAddress + wordCount <= regFlCm
      modifies this`regP, this`exitCondition, this`cpuStopped, this`opWord, this`opOffset,
               this`ecsFlagRegister, cpMem, ecsMem
      ensures Valid()
      ensures Backed() ==> BlockDone(writeToEcs, cmAddress, ecsAddress, wordCount)
      ensures Confined() ==> Limits().Keeps(old(cpMem[..]), cpMem[..])
      ensures opOffset == 60 || opOffset == old(opOffset)
    {
      hide Blit, EcsWords, PutWords, Bounds.Absolute, OutOfRange, Reading, Bounds.Keeps;
      KeepsNothing(Limits(), cpMem[..]);
      ghost var before := cpMem[..];
      var errorExit;
      if writeToEcs {
        errorExit := EcsWriteBlock(cmAddress, ecsAddress, wordCount);
      } else {
        errorExit := EcsReadBlock(cmAddress, ecsAddress, wordCount);
      }
      if !errorExit {
        ghost var middle := cpMem[..];
        NextWord();
        if Confined() {
          KeepsBoth(Limits(), before, middle, cpMem[..]);
        }
      }
    }

    /** What RE or WE has done. */
    twostate predicate BlockMoved(writeToEcs: bool)
      requires old(Valid()) && Valid()
      reads this, cpMem, ecsMem
    {
      var address, count := old(BlockAddress()), old(BlockCount());
      if ecsMem.Length == 0 || old(opOffset) != 30 then EcsMissing()
      else if old(Ended(address, count, false, regA[0])) then EcsEnded(address)
      else Backed() && old(regA[0]) + count <= regFlCm ==>
             BlockDone(writeToEcs, old(regA[0]), address + regRaEcs, count)
    }

    /** RE and WE: a block between ECS and central memory. The instruction must be in the upper
        half of its word; an error exits to the lower half, success goes on with the next word. */
    method EcsTransfer(writeToEcs: bool)
      requires Valid()
      modifies this`regP, this`exitCondition, this`cpuStopped, this`opWord, this`opOffset,
               this`ecsFlagRegister, cpMem, ecsMem
      ensures Valid()
      ensures BlockMoved(writeToEcs)
      ensures Confined() ==> Limits().Keeps(old(cpMem[..]), cpMem[..])
      ensures opOffset == 60 || opOffset == old(opOffset)
    {
      hide Reading, Blit, EcsWords, OutOfRange, PutWords, EcsEnded, Bounds.Keeps, Add18, CpuContext.Confined;
      KeepsNothing(Limits(), cpMem[..]);
      if ecsMem.Length == 0 || opOffset != 30 {
        exitCondition := Noted(exitCondition);
        regP, cpuStopped := 0, true;
        return;
      }
      var wordCount := Add18(regB[opJ], opAddress);
      var ecsAddress := regX[0] % TWO24;
      var cmAddress := regA[0];
      if wordCount == MASK18 {
        wordCount := 0;
      }
      var ended := EcsPrologue(ecsAddress, wordCount, false, cmAddress);
      if ended {
        return;
      }
      EcsBlock(writeToEcs, cmAddress, ecsAddress + regRaEcs, wordCount);
    }

    /** A transfer addresses the flag register, or its count or one of its ranges is not allowed. */
    predicate Ended(ecsAddress: nat, wordCount: u18, toReg: bool, cmAddress: u18)
      reads this`regFlEcs, this`regFlCm
    {
      || (AddressesFlags(ecsAddress) && AddressesFlags(regFlEcs))
      || wordCount >= SIGN18 || (!toReg && regFlCm < cmAddress + wordCount)
      || regFlEcs < ecsAddress + wordCount
    }

    /** An allowed transfer stays within the program's own ECS and central memory fields. */
    lemma AllowedStays(ecsAddress: nat, wordCount: u18, toReg: bool, cmAddress: u18, k: nat)
      requires !Ended(ecsAddress, wordCount, toReg, cmAddress) && k < wordCount
      ensures regRaEcs <= ecsAddress + regRaEcs + k < regRaEcs + regFlEcs
      ensures !toReg ==> Limits().InField(regRaCm + cmAddress + k)
    {
    }

    /** What such a transfer does instead: the flag register's answer, or the address error. */
    twostate predicate EcsEnded(ecsAddress: nat)
      requires old(Valid()) && Valid()
      reads this, cpMem, ecsMem
    {
      if AddressesFlags(ecsAddress) && AddressesFlags(regFlEcs) then
        var (accepted, flags) := Flagged(old(ecsFlagRegister), FlagFunction(ecsAddress), FlagWord(ecsAddress));
        && EcsState() == old(EcsState()).(flags := flags)
        && if accepted then NextFetched(old(cpMem[..]), old(exitCondition)) else Untouched()
      else
        && EcsState() == old(EcsState())
        && if Limits().ExitSelected() then
             && cpMem[..] == old(cpMem[..]) && opOffset == old(opOffset)
             && regP == 0 && cpuStopped && exitCondition == Noted(old(exitCondition))
           else NextFetched(old(cpMem[..]), Noted(old(exitCondition)))
    }

    /** The common checks: flag register access, word count, field lengths. */
    method EcsPrologue(ecsAddress: nat, wordCount: u18, toReg: bool, cmAddress: u18) returns (ended: bool)
      requires Valid()
      modifies this`regP, this`exitCondition, this`cpuStopped, this`opWord, this`opOffset,
               this`ecsFlagRegister, cpMem
      ensures Valid() && Limits().Keeps(old(cpMem[..]), cpMem[..])
      ensures opOffset == 60 || opOffset == old(opOffset)
      ensures ended <==> Ended(ecsAddress, wordCount, toReg, cmAddress)
      ensures if ended then EcsEnded(ecsAddress) else Untouched() && EcsState() == old(EcsState())
    {
      hide OutOfRange, Reading, Flagged, FlagWord, FlagFunction, Bounds.Keeps;
      KeepsNothing(Limits(), cpMem[..]);
      if AddressesFlags(ecsAddress) && AddressesFlags(regFlEcs) {
        var accepted := EcsFlagRegister(ecsAddress);
        if accepted {
          NextWord();
        }
        return true;
      }
      if wordCount >= SIGN18 || (!toReg && regFlCm < cmAddress + wordCount) || regFlEcs < ecsAddress + wordCount {
        exitCondition := Noted(exitCondition);
        if exitMode / 0x1000 % 2 == 1 {
          regP, cpuStopped := 0, true;
        } else {
          NextWord();
        }
        return true;
      }
      return false;
    }

    /** The value a set instruction (50 to 77 octal) computes from its operands. */
    function SetValue(op: nat): u18
      requires Valid()
      reads this
    {
      match op % 8
      case 0 => Add18(regA[opJ], opAddress)
      case 1 => Add18(regB[opJ], opAddress)
      case 2 => Add18(regX[opJ] % TWO32, opAddress)
      case 3 => Add18(regX[opJ] % TWO32, regB[opK])
      case 4 => Add18(regA[opJ], regB[opK])
      case 5 => Subtract18(regA[opJ], regB[opK])
      case 6 => Add18(regB[opJ], regB[opK])
      case _ => Subtract18(regB[opJ], regB[opK])
    }

    lemma SetValueSets(op: nat)
      requires Valid()
      ensures Sets(op, regA[opJ], regB[opJ], regX[opJ], regB[opK], opAddress, SetValue(op))
    {
      hide Add18, Subtract18, IsSum;
      var aj, bj, xj, bk := regA[opJ], regB[opJ], regX[opJ], regB[opK];
      match op % 8
      case 0 => AddIsSum(aj, opAddress);
      case 1 => AddIsSum(bj, opAddress);
      case 2 =>
        LowBits(xj);
        AddIsSum(xj % TWO32, opAddress);
      case 3 =>
        LowBits(xj);
        AddIsSum(xj % TWO32, bk);
      case 4 => AddIsSum(aj, bk);
      case 5 => SubtractIsSum(aj, bk);
      case 6 => AddIsSum(bj, bk);
      case _ => SubtractIsSum(bj, bk);
    }

    /** What SAi has done. */
    twostate predicate AddressSet(fm: nat)
      requires old(Valid()) && Valid()
      reads this, cpMem
    {
      var b, address := Limits(), old(SetValue(fm));
      && regA == old(regA)[opI := address]
      && Sets(fm, old(regA[opJ]), old(regB[opJ]), old(regX[opJ]), old(regB[opK]), old(opAddress), regA[opI])
      && if opI == 0 then
           Untouched() && regX == old(regX)
         else if opI <= 5 then
           var a := Reading(old(cpMem[..]), b, old(exitCondition), old(regP), address);
           LeftBy(a) && regX == old(regX)[opI := a.data]
         else
           && LeftBy(Writing(old(cpMem[..]), b, old(exitCondition), old(regP), address, old(regX[opI])))
           && regX == old(regX)
    }

    /** SAi: A1 to A5 load their X register, A6 and A7 store it. */
    method SetA(fm: nat)
      requires Valid() && !cpuStopped
      modifies this`regA, this`regX, this`regP, this`exitCondition, this`cpuStopped, cpMem
      ensures Valid() && AddressSet(fm)
      ensures Confined() ==> Limits().Keeps(old(cpMem[..]), cpMem[..])
    {
      hide Add18, Subtract18, OutOfRange, Bounds.Absolute, Sets;
      SetValueSets(fm);
      AccessKeeps(cpMem[..], Limits(), exitCondition, regP, SetValue(fm), regX[opI]);
      regA := regA[opI := SetValue(fm)];
      if opI == 0 {
        return;
      }
      if opI <= 5 {
        var data;
        cpuStopped, data := ReadMem(regA[opI]);
        regX := regX[opI := data];
      } else {
        cpuStopped := WriteMem(regA[opI], regX[opI]);
      }
    }

    predicate ConditionX(i: Reg3, x: Word) {
      match i
      case 0 => x == 0 || x == TWO60 - 1
      case 1 => x != 0 && x != TWO60 - 1
      case 2 => x < TWO60 / 2
      case 3 => x >= TWO60 / 2
      case 4 => x / TWO48 != 0x7FF && x / TWO48 != 0x800
      case 5 => x / TWO48 == 0x7FF || x / TWO48 == 0x800
      case 6 => x / TWO48 != 0x3FF && x / TWO48 != 0xC00
      case _ => x / TWO48 == 0x3FF || x / TWO48 == 0xC00
    }

    /**
     What the conditions on X mean: zero (either zero), negative (which negative zero is), out of range
     (an infinite exponent) and indefinite, the last two whatever the sign; and their opposites.
     */
    lemma ConditionsMean(x: Word)
      ensures ConditionX(0, x) <==> Value60(x) == 0
      ensures ConditionX(3, x) <==> Value60(x) < 0 || x == TWO60 - 1
      ensures ConditionX(5, x) <==> Magnitude(x) >= 0x7FF * TWO48
      ensures ConditionX(7, x) <==> 0x3FF * TWO48 <= Magnitude(x) < 0x400 * TWO48
      ensures ConditionX(1, x) == !ConditionX(0, x) && ConditionX(2, x) == !ConditionX(3, x)
      ensures ConditionX(4, x) == !ConditionX(5, x) && ConditionX(6, x) == !ConditionX(7, x)
    {
    }

    /** Whether a jump is taken: GE and LT by the rank of the B registers. */
    ghost predicate JumpTaken(fm: nat)
      requires Valid()
      reads this
    {
      match fm
      case 2 => true
      case 3 => ConditionX(opI, regX[opJ])
      case 4 => regB[opI] == regB[opJ]
      case 5 => regB[opI] != regB[opJ]
      case 6 => Rank(regB[opI]) >= Rank(regB[opJ])
      case _ => Rank(regB[opI]) < Rank(regB[opJ])
    }

    /** What a jump has done. */
    twostate predicate Jumped(fm: nat)
      requires old(Valid()) && cpMem.Length > 0
      reads this, cpMem
    {
      if old(JumpTaken(fm)) then
        var target := if fm == 2 then Sum(old(regB[opI]), old(opAddress)) else old(opAddress);
        var a := Reading(old(cpMem[..]), Limits(), old(exitCondition), target, target);
        LeftBy(a) && opWord == a.data && opOffset == 60
      else
        Untouched()
    }

    /** JP and the conditional jumps (02 to 07). */
    method Jump(fm: nat)
      requires Valid() && !cpuStopped && 2 <= fm <= 7
      modifies this`regP, this`exitCondition, this`cpuStopped, this`opWord, this`opOffset, cpMem
      ensures Valid() && Limits().Keeps(old(cpMem[..]), cpMem[..])
      ensures Jumped(fm) && (opOffset == 60 || opOffset == old(opOffset))
    {
      hide Add18, OutOfRange, Bounds.Absolute, Sum, JumpGE, JumpLT, Rank;
      JumpsDecideRank(regB[opI], regB[opJ]);
      AddIs(regB[opI], opAddress);
      var taken := match fm
        case 2 => true
        case 3 => ConditionX(opI, regX[opJ])
        case 4 => regB[opI] == regB[opJ]
        case 5 => regB[opI] != regB[opJ]
        case 6 => JumpGE(regB[opI], regB[opJ])
        case _ => JumpLT(regB[opI], regB[opJ]);
      if taken {
        Goto(if fm == 2 then Add18(regB[opI], opAddress) else opAddress);
      }
    }

    /** The word that RJ stores is EQ B0, B0, P + 1 in its upper half. */
    lemma ReturnWord(p: u18)
      ensures var w := 0x100 * TWO48 + (p + 1) % TWO18 * TWO30;
              w / TWO30 == EqualJump((p + 1) % TWO18) && w % TWO30 == 0
    {
    }

    /** What RJ has done. */
    twostate predicate ReturnJumped()
      requires old(Valid()) && cpMem.Length > 0
      reads this, cpMem
    {
      var word := 0x100 * TWO48 + (old(regP) + 1) % TWO18 * TWO30;
      var a := Writing(old(cpMem[..]), Limits(), old(exitCondition), old(regP), old(opAddress), word);
      && cpMem[..] == a.mem && exitCondition == a.ec && cpuStopped == a.failed
      && opOffset == 0 && regP == old(opAddress)
    }

    /** RJ: store the return jump at K and continue at K + 1. */
    method ReturnJump()
      requires Valid() && !cpuStopped
      modifies this`regP, this`exitCondition, this`cpuStopped, this`opOffset, cpMem
      ensures Valid() && ReturnJumped()
    {
      cpuStopped := WriteMem(opAddress, 0x100 * TWO48 + (regP + 1) % TWO18 * TWO30);
      regP := opAddress;
      opOffset := 0;
    }

    /** What an XJ asks for and where it leaves P. */
    twostate predicate Asked(answer: Answer, request: Request)
      requires old(Valid())
      reads this
    {
      && request.Request?
      && (answer.Answer? ==>
            request == if answer.inMonitor then Request(old(opAddress) + old(regB[opJ]), Arbitration.Leave)
                       else Request(0, Arbitration.EnterAtMa))
      && if answer.Accepted() then regP == (old(regP) + 1) % TWO18 && opOffset == 60
         else regP == old(regP) && opOffset == old(opOffset) + 30
    }

    /** XJ: set up the continuation point and ask for an exchange; unless that is accepted, point
        back at the XJ. */
    method ExchangeInstruction(answer: Answer) returns (request: Request)
      requires Valid() && opOffset <= 30
      modifies this`regP, this`opOffset
      ensures Valid()
      ensures Asked(answer, request)
    {
      request := Request(0, Arbitration.EnterAtMa);
      if answer.InMonitor() {
        request := Request(opAddress + regB[opJ], Arbitration.Leave);
      }
      var oldP, oldOffset := regP, opOffset;
      regP := (regP + 1) % TWO18;
      opOffset := 60;
      if !answer.Accepted() {
        regP := oldP;
        opOffset := oldOffset + 30;
      }
    }

    /** What an instruction that only computes has done. SX extends the sign, with either zero kept. */
    twostate predicate Computed(fm: nat)
      requires old(Valid()) && Valid()
      reads this
    {
      var value := if fm <= 55 then regB[opI] else regX[opI] % TWO18;
      && (fm >= 48 ==>
            Sets(fm, old(regA[opJ]), old(regB[opJ]), old(regX[opJ]), old(regB[opK]), old(opAddress), value))
      && if fm >= 56 then
           && regB == old(regB) && (forall k | 0 <= k < 8 && k != opI :: regX[k] == old(regX[k]))
           && Value60(regX[opI]) == Value(value) && (regX[opI] == 0 <==> value == 0)
         else if fm >= 48 then
           regB == old(regB)[opI := value] && regX == old(regX)
         else
           var (word, count) := arith(fm, 8 * opJ + opK, old(regX), old(regB));
           && regX == old(regX)[opI := word]
           && regB == if fm == 20 || fm == 21 || (fm == 22 && opJ != 0) then old(regB)[opJ := count] else old(regB)
    }

    /** Instructions that only compute: 10 to 47 except the CMU, 60 to 67 and 70 to 77. */
    method Compute(fm: nat)
      requires Valid()
      modifies this`regX, this`regB
      ensures Valid() && Computed(fm)
    {
      hide SetValue, Sets;
      SetValueSets(fm);
      if 48 <= fm <= 55 {
        regB := regB[opI := SetValue(fm)];
      } else if fm >= 56 {
        var value := SetValue(fm);
        regX := regX[opI := if value >= SIGN18 then value + (TWO60 - TWO18) else value];
      } else {
        var (word, count) := arith(fm, 8 * opJ + opK, regX, regB);
        regX := regX[opI := word];
        if fm == 20 || fm == 21 || (fm == 22 && opJ != 0) {
          regB := regB[opJ := count];
        }
      }
    }

    /** Between parcels: stopped, or at a parcel boundary of the current word. */
    predicate Ready()
      reads this
    {
      Valid() && (cpuStopped || opOffset == 60 || opOffset == 45 || opOffset == 30 || opOffset == 15)
    }

    /** What an instruction with opcode 01 has done. */
    twostate predicate Did01(answer: Answer, request: Request)
      requires old(Valid()) && Valid()
      reads this, cpMem, ecsMem
    {
      && (request.Request? <==> opI == 3)
      && (opI != 4 && opI != 5 && opI != 6 ==> regX == old(regX))
      && (opI == 0 || opI == 3 || opI >= 6 ==> EcsState() == old(EcsState()))
      && match opI
         case 0 => ReturnJumped()
         case 1 => BlockMoved(false)
         case 2 => BlockMoved(true)
         case 3 => Asked(answer, request) && cpMem[..] == old(cpMem[..]) && exitCondition == old(exitCondition)
         case 4 => RegisterMoved(false)
         case 5 => RegisterMoved(true)
         case 6 => Untouched() && regX == old(regX)[opJ := arith(1, 8 * opJ + opK, old(regX), old(regB)).0]
         case 7 => Untouched()
    }

    /** Opcodes 00 and 01, whose instructions transfer control or blocks. */
    method Execute01(answer: Answer) returns (request: Request)
      requires Valid() && !cpuStopped && (opI <= 3 ==> opOffset <= 30)
      modifies this`regX, this`regP, this`exitCondition, this`cpuStopped, this`opWord, this`opOffset,
               this`ecsFlagRegister, cpMem, ecsMem
      ensures Valid()
      ensures Confined() ==> Limits().Keeps(old(cpMem[..]), cpMem[..])
      ensures request.Request? ==> opOffset == if answer.Accepted() then 60 else old(opOffset) + 30
      ensures request.Request? ==> opWord == old(opWord) && !cpuStopped
      ensures request.NoRequest? ==> opOffset == 60 || opOffset == 0 || opOffset == old(opOffset)
      ensures Did01(answer, request)
    {
      hide OutOfRange, Bounds.Absolute, BlockDone, EcsEnded, EcsMissing, WordDone, Ended, RegisterMoved, BlockMoved;
      request := NoRequest;
      match opI {
        case 0 =>
          if Confined() {
            WritingKeeps(cpMem[..], Limits(), exitCondition, regP, opAddress,
                         0x100 * TWO48 + (regP + 1) % TWO18 * TWO30);
          }
          ReturnJump();
        case 1 => EcsTransfer(false);
        case 2 => EcsTransfer(true);
        case 3 => request := ExchangeInstruction(answer);
        case 4 => EcsRegister(false);
        case 5 => EcsRegister(true);
        case 6 =>
          var (word, _) := arith(1, 8 * opJ + opK, regX, regB);
          regX := regX[opJ := word];
        case 7 =>
      }
    }

    /** What an instruction with opcode 46 has done. */
    twostate predicate Did46(moved: seq<Word>)
      requires old(Valid()) && Valid()
      reads this, cpMem
    {
      if opI < 4 || old(opOffset) != 45 then Untouched() && regX == old(regX)
      else match opI
        case 4 => MovedIndirect(moved)
        case 5 => MovedDirect(moved)
        case 6 => CollatedCompared()
        case _ => UncollatedCompared()
    }

    /** Opcode 46: the CMU instructions, if in the first parcel; otherwise a pass. */
    method Execute46() returns (ghost moved: seq<Word>)
      requires Valid() && !cpuStopped
      modifies this`regX, this`regP, this`exitCondition, this`cpuStopped, this`opWord, this`opOffset,
               this`opAddress, cpMem
      ensures Valid()
      ensures Confined() ==> Limits().Keeps(old(cpMem[..]), cpMem[..])
      ensures opOffset == 60 || opOffset == old(opOffset)
      ensures Did46(moved)
    {
      hide OutOfRange, Reading, Bounds.Keeps, MovedDirect, MovedIndirect, CollatedCompared, UncollatedCompared;
      KeepsNothing(Limits(), cpMem[..]);
      moved := cpMem[..];
      if opI < 4 || opOffset != 45 {
        return;
      }
      match opI {
        case 4 => moved := CmuMoveIndirect();
        case 5 => moved := CmuMoveDirect();
        case 6 => CmuCompareCollated();
        case 7 => CmuCompareUncollated();
      }
    }

    /** What an instruction has done, by its opcode. */
    twostate predicate Did(fm: nat, answer: Answer, request: Request, moved: seq<Word>)
      requires old(Valid()) && Valid()
      reads this, cpMem, ecsMem
    {
      && (fm < 40 || fm >= 48 ==> regA == old(regA))
      && (fm < 8 || fm == 38 || 40 <= fm < 48 ==> regB == old(regB))
      && (fm == 0 || 2 <= fm < 8 ==> regX == old(regX))
      && (fm != 1 ==> EcsState() == old(EcsState()))
      && if fm == 0 then cpuStopped && cpMem[..] == old(cpMem[..]) && regP == old(regP)
         else if fm == 1 then Did01(answer, request)
         else if fm < 8 then Jumped(fm)
         else if fm == 38 then Did46(moved)
         else if 40 <= fm < 48 then AddressSet(fm)
         else Untouched() && Computed(fm)
    }

    /** Dispatch on the opcode. */
    method Execute(fm: nat, answer: Answer) returns (request: Request, ghost moved: seq<Word>)
      requires Valid() && !cpuStopped && fm < 64
      requires ParcelLength(fm, opI) == 30 ==> opOffset <= 30
      modifies this`regX, this`regA, this`regB, this`regP, this`exitCondition, this`cpuStopped, this`opWord,
               this`opOffset, this`opAddress, this`ecsFlagRegister, cpMem, ecsMem
      ensures Valid()
      ensures Confined() ==> Limits().Keeps(old(cpMem[..]), cpMem[..])
      ensures request.Request? ==> opOffset == if answer.Accepted() then 60 else old(opOffset) + 30
      ensures request.Request? ==> old(opOffset) <= 30 && opWord == old(opWord) && !cpuStopped
      ensures request.Request? <==> fm == 1 && opI == 3
      ensures request.NoRequest? ==> opOffset == 60 || opOffset == 0 || opOffset == old(opOffset)
      ensures Did(fm, answer, request, moved)
    {
      hide OutOfRange, Writing, Reading, Bounds.Keeps, Jumped, Did46, Computed, AddressSet;
      KeepsNothing(Limits(), cpMem[..]);
      request := NoRequest;
      moved := cpMem[..];
      if fm == 0 {
        cpuStopped := true;
      } else if fm == 1 {
        request := Execute01(answer);
      } else if fm <= 7 {
        Jump(fm);
      } else if fm == 38 {
        moved := Execute46();
      } else if 40 <= fm <= 47 {
        SetA(fm);
      } else {
        Compute(fm);
      }
    }

    /** Decode the next instruction: its fields make up the parcels that it takes from the word. A
        long instruction in the last parcel is invalid packing. */
    method DecodeParcel() returns (opFm: nat, valid: bool)
      requires Ready() && !cpuStopped
      modifies this`opOffset, this`opAddress, this`opI, this`opJ, this`opK
      ensures opFm < 64 && valid == (ParcelLength(opFm, opI) == 15 || old(opOffset) > 15)
      ensures opOffset == if valid then old(opOffset) - ParcelLength(opFm, opI) else old(opOffset)
      ensures valid && opFm == 1 && opI == 3 <==> old(AtXj())
      ensures old(AtXj()) ==> opOffset == old(opOffset) - 30
      ensures valid ==>
                if ParcelLength(opFm, opI) == 15 then
                  opAddress == 0 && opWord / Pow2(opOffset) % TWO15 == 512 * opFm + 64 * opI + 8 * opJ + opK
                else
                  opK == 0 && opWord / Pow2(opOffset) % TWO30 == (64 * opFm + 8 * opI + opJ) * TWO18 + opAddress
    {
      hide Pow2;
      ShortFields(opWord, opOffset);
      opFm := opWord / Pow2(opOffset - 6) % 64;
      opI := opWord / Pow2(opOffset - 9) % 8;
      opJ := opWord / Pow2(opOffset - 12) % 8;
      if ParcelLength(opFm, opI) == 15 {
        opK := opWord / Pow2(opOffset - 15) % 8;
        opAddress := 0;
        opOffset := opOffset - 15;
      } else {
        if opOffset == 15 {
          return opFm, false;
        }
        LongFields(opWord, opOffset);
        opK := 0;
        opAddress := opWord / Pow2(opOffset - 30) % TWO18;
        opOffset := opOffset - 30;
      }
      return opFm, true;
    }

    /** The next instruction is an XJ. */
    predicate AtXj()
      reads this`opWord, this`opOffset
    {
      opOffset >= 30 && opWord / Pow2(opOffset - 6) % 64 == 1 && opWord / Pow2(opOffset - 9) % 8 == 3
    }

    /** The processor as arbitration sees it. */
    function Seen(): Arbitration.Processor
      reads this`opWord, this`opOffset, this`cpuStopped, this`regMa
    {
      Arbitration.Processor(opOffset, cpuStopped, regMa, AtXj(), Arbitration.NoRequest)
    }

    /** After an instruction: fetch the next word if this one is used up. */
    method EndParcel() returns (done: bool)
      requires Valid()
      modifies this`regP, this`exitCondition, this`cpuStopped, this`opWord, this`opOffset, cpMem
      ensures Valid() && Limits().Keeps(old(cpMem[..]), cpMem[..])
      ensures done <==> cpuStopped || opOffset == 60
      ensures !cpuStopped ==> opOffset == if old(opOffset) == 0 then 60 else old(opOffset)
      ensures old(opOffset) != 0 ==> opWord == old(opWord) && cpuStopped == old(cpuStopped)
    {
      hide Reading, Bounds.Keeps;
      KeepsNothing(Limits(), cpMem[..]);
      if cpuStopped {
        if opOffset == 0 {
          regP := (regP + 1) % TWO18;
        }
        return true;
      }
      if opOffset == 0 {
        NextWord();
      }
      done := opOffset == 60 || cpuStopped;
    }

    /** Execute the decoded instruction, and fetch the next word when this one is used up. */
    method ExecuteDecoded(opFm: nat, answer: Answer) returns (done: bool, request: Request)
      requires Valid() && !cpuStopped && opFm < 64 && (ParcelLength(opFm, opI) == 30 ==> opOffset <= 30)
      requires opOffset == 45 || opOffset == 30 || opOffset == 15 || opOffset == 0
      modifies this`regX, this`regA, this`regB, this`regP, this`exitCondition, this`cpuStopped, this`opWord,
               this`opOffset, this`opAddress, this`ecsFlagRegister, cpMem, ecsMem
      ensures Ready()
      ensures Confined() ==> Limits().Keeps(old(cpMem[..]), cpMem[..])
      ensures done <==> cpuStopped || opOffset == 60
      ensures !done && request.NoRequest? ==> opOffset <= old(opOffset)
      ensures request.Request? <==> opFm == 1 && opI == 3
      ensures request.Request? ==>
                !cpuStopped && opOffset == if answer.Accepted() then 60 else old(opOffset) + 30
    {
      hide OutOfRange, Reading, Bounds.Keeps, ParcelLength;
      ghost var before := cpMem[..];
      regB := regB[0 := 0];
      ghost var moved;
      request, moved := Execute(opFm, answer);
      regB := regB[0 := 0];
      ghost var middle := cpMem[..];
      done := EndParcel();
      if Confined() {
        KeepsBoth(Limits(), before, middle, cpMem[..]);
      }
    }

    /**
     One turn of the step loop: decode the next instruction, execute it, and fetch the next word
     when this one is used up. The step goes on unless the processor stops or a new word begins.
     */
    method Parcel(answer: Answer) returns (done: bool, request: Request)
      requires Ready() && !cpuStopped
      modifies this`regX, this`regA, this`regB, this`regP, this`exitCondition, this`cpuStopped, this`opWord,
               this`opOffset, this`opAddress, this`opI, this`opJ, this`opK, this`ecsFlagRegister, cpMem, ecsMem
      ensures Ready()
      ensures Confined() ==> Limits().Keeps(old(cpMem[..]), cpMem[..])
      ensures done <==> cpuStopped || opOffset == 60
      ensures !done && request.NoRequest? ==> opOffset < old(opOffset)
      ensures request.Request? && answer.Accepted() ==> done
      ensures request.Request? <==> old(AtXj())
      ensures IsTurn(old(Seen()), answer, Seen())
    {
      hide OutOfRange, Reading, Bounds.Keeps, ParcelLength, Pow2, CpuContext.AtXj, IsTurn;
      ParcelLengths();
      KeepsNothing(Limits(), cpMem[..]);
      ghost var before, seen := cpMem[..], Seen();
      done, request := true, NoRequest;
      var opFm, valid := DecodeParcel();
      if !valid {
        cpuStopped := true;
        TurnIs(seen, answer, Seen());
        return;
      }
      done, request := ExecuteDecoded(opFm, answer);
      TurnIs(seen, answer, Seen());
    }

    /**
     One step: the rest of the current instruction word. Each XJ in it takes the next answer; a
     refused one that is not in the first parcel is tried again at once, so that the step can
     still be waiting when the answers given are used up.
     */
    method Step(answers: seq<Answer>) returns (exchange: bool, waiting: bool, ghost trail: Trail)
      requires Ready()
      modifies this`regX, this`regA, this`regB, this`regP, this`exitCondition, this`cpuStopped, this`opWord,
               this`opOffset, this`opAddress, this`opI, this`opJ, this`opK, this`ecsFlagRegister, cpMem, ecsMem
      ensures Ready()
      ensures Confined() ==> Limits().Keeps(old(cpMem[..]), cpMem[..])
      ensures !waiting ==> cpuStopped || opOffset == 60
      ensures trail.From(old(Seen()), Seen())
    {
      hide Bounds.Keeps, IsTurn;
      exchange, waiting := false, false;
      ghost var before := cpMem[..];
      KeepsNothing(Limits(), before);
      trail := Trail([Seen()], []);
      if cpuStopped {
        return;
      }
      var rest := answers;
      var done := false;
      while !done
        invariant Ready() && (!done ==> !cpuStopped) && (done ==> cpuStopped || opOffset == 60)
        invariant Confined() ==> Limits().Keeps(before, cpMem[..])
        invariant trail.From(old(Seen()), Seen())
        decreases !done, |rest|, opOffset
      {
        ghost var middle := cpMem[..];
        var request;
        var answer := if rest == [] then NoAnswer else rest[0];
        done, request := Parcel(answer);
        if Confined() {
          KeepsBoth(Limits(), before, middle, cpMem[..]);
        }
        trail := trail.Then(answer, Seen());
        if request.Request? {
          if rest == [] {
            waiting := true;
            return;
          }
          exchange := answer.Accepted();
          rest := rest[1..];
        }
      }
    }

    /**
     Field-length protection over a whole run: however many words a program executes, whatever
     they hold and however its XJs are answered, central memory outside its field changes at most
     at RA, the exit word. The run ends early where an exchange takes over.
     */
    method Run(answers: seq<seq<Answer>>)
      requires Ready() && Confined()
      modifies this`regX, this`regA, this`regB, this`regP, this`exitCondition, this`cpuStopped, this`opWord,
               this`opOffset, this`opAddress, this`opI, this`opJ, this`opK, this`ecsFlagRegister, cpMem, ecsMem
      ensures Ready()
      ensures forall i | 0 <= i < cpMem.Length && !(regRaCm <= i < regRaCm + regFlCm) && i != regRaCm ::
                cpMem[i] == old(cpMem[i])
    {
      ghost var before := cpMem[..];
      for n := 0 to |answers|
        invariant Ready()
        invariant Limits().Keeps(before, cpMem[..])
      {
        ghost var middle := cpMem[..];
        var exchange, waiting, _ := Step(answers[n]);
        if exchange || waiting {
          return;
        }
      }
    }

    /** The registers that an exchange saves. */
    function Registers(): Exchange.Context
      reads this
    {
      Exchange.Context(regP, regA, regB, regX, regRaCm, regFlCm, exitMode, regRaEcs, regFlEcs, regMa)
    }

    method LoadRegisters(c: Exchange.Context)
      requires c.WellFormed()
      modifies this`regP, this`regA, this`regB, this`regX, this`regRaCm, this`regFlCm, this`exitMode,
               this`regRaEcs, this`regFlEcs, this`regMa, this`exitCondition
      ensures Registers() == c && exitCondition == 0
      ensures |regX| == 8 && |regA| == 8 && |regB| == 8
    {
      regP, regA, regB, regX := c.regP, c.regA, c.regB, c.regX;
      regRaCm, regFlCm, exitMode := c.regRaCm, c.regFlCm, c.exitMode;
      regRaEcs, regFlEcs, regMa := c.regRaEcs, c.regFlEcs, c.regMa;
      exitCondition := 0;
    }

    method StorePackage(addr: nat, pkg: seq<Word>)
      requires cpMem.Length > 0 && |pkg| == Exchange.PACKAGE
      modifies cpMem
      ensures cpMem[..] == Exchange.Stored(old(cpMem[..]), addr, pkg, Exchange.PACKAGE)
    {
      for k := 0 to Exchange.PACKAGE
        invariant cpMem[..] == Exchange.Stored(old(cpMem[..]), addr, pkg, k)
      {
        cpMem[Exchange.Place(addr, k, cpMem.Length)] := pkg[k];
      }
    }

    /** Fetch the first word of a program; one that only idles is taken as stopped. */
    method StartProgram()
      requires Valid()
      modifies this`regP, this`exitCondition, this`cpuStopped, this`opWord, this`opOffset, cpMem
      ensures var a := Reading(old(cpMem[..]), Limits(), old(exitCondition), old(regP), old(regP));
              && cpMem[..] == a.mem && exitCondition == a.ec && regP == a.regP
              && opWord == (if a.failed then 0 else a.data) && opOffset == 60
              && cpuStopped == (a.failed || Idle(opWord, regP))
      ensures exitCondition < 256
    {
      hide Reading, AfterPasses;
      Goto(regP);
      if cpuStopped {
        opWord := 0;
      }
      var t := SkipPasses(opWord);
      if t / TWO30 == EQ_HERE + regP {
        cpuStopped := true;
      }
    }

    /** The registers hold what the sixteen words of `w` from `addr` on hold, each in its own place; P is 0
        when the first fetch has failed. */
    predicate LoadedFrom(w: seq<Word>, addr: nat)
      requires Valid() && w != []
      reads this
    {
      var n := |w|;
      && (regP == w[Exchange.Place(addr, 0, n)] / TWO36 % TWO18 || (cpuStopped && regP == 0))
      && regRaCm == w[Exchange.Place(addr, 1, n)] / TWO36 % TWO18
      && regFlCm == w[Exchange.Place(addr, 2, n)] / TWO36 % TWO18
      && exitMode == w[Exchange.Place(addr, 3, n)] / TWO36 % TWO24
      && regRaEcs == w[Exchange.Place(addr, 4, n)] / TWO36 % TWO24 / 64 * 64
      && regFlEcs == w[Exchange.Place(addr, 5, n)] / TWO36 % TWO24 / 64 * 64
      && regMa == w[Exchange.Place(addr, 6, n)] / TWO36 % TWO18
      && forall k | 0 <= k < 8 ::
           && regA[k] == w[Exchange.Place(addr, k, n)] / TWO18 % TWO18
           && regB[k] == (if k == 0 then 0 else w[Exchange.Place(addr, k, n)] % TWO18)
           && regX[k] == w[Exchange.Place(addr, 8 + k, n)]
    }

    lemma RegistersLoaded(w: seq<Word>, addr: nat, c: Exchange.Context)
      requires Valid() && w != [] && c == Exchange.Unpack(Exchange.Package(w, addr))
      requires Registers() == c.(regP := regP) && (regP == c.regP || (cpuStopped && regP == 0))
      ensures LoadedFrom(w, addr)
    {
      hide Exchange.Place;
      Exchange.UnpackLoads(Exchange.Package(w, addr));
      hide Exchange.Unpack;
    }

    /** The sixteen words of `w` from `addr` on hold what the registers hold, each in its own place. */
    predicate SavedIn(w: seq<Word>, addr: nat)
      requires Valid() && w != []
      reads this
    {
      var n := |w|;
      && w[Exchange.Place(addr, 0, n)] / TWO36 == regP
      && w[Exchange.Place(addr, 1, n)] / TWO36 == regRaCm
      && w[Exchange.Place(addr, 2, n)] / TWO36 == regFlCm
      && w[Exchange.Place(addr, 3, n)] / TWO36 == exitMode % TWO24
      && w[Exchange.Place(addr, 4, n)] / TWO36 == regRaEcs % TWO24
      && w[Exchange.Place(addr, 5, n)] / TWO36 == regFlEcs % TWO24
      && w[Exchange.Place(addr, 6, n)] / TWO36 == regMa
      && w[Exchange.Place(addr, 7, n)] / TWO36 == 0
      && forall k | 0 <= k < 8 ::
           && w[Exchange.Place(addr, k, n)] / TWO18 % TWO18 == regA[k]
           && w[Exchange.Place(addr, k, n)] % TWO18 == (if k == 0 then 0 else regB[k])
           && w[Exchange.Place(addr, 8 + k, n)] == regX[k]
    }

    lemma RegistersSaved(mem: seq<Word>, addr: nat)
      requires Valid() && |mem| >= 16
      ensures SavedIn(Exchange.Swap(mem, addr, Registers()).0, addr)
    {
      hide Exchange.Place;
      Exchange.SwapStores(mem, addr, Registers());
      Exchange.PackSaves(Registers());
      hide Exchange.Swap, Exchange.Pack;
    }

    /**
     The exchange jump: at a word boundary or when stopped, swap the registers with the package
     and start the new program by fetching its first word, unless that word is an idle loop.
     Otherwise it waits.
     */
    method ExchangeJump(exchangeTo: nat)
      requires Valid()
      modifies this, cpMem
      ensures if old(opOffset != 60 && !cpuStopped) then
                cpMem[..] == old(cpMem[..]) && Registers() == old(Registers())
                && opOffset == old(opOffset) && cpuStopped == old(cpuStopped)
              else
                var (mem, c) := Exchange.Swap(old(cpMem[..]), exchangeTo % TWO18, old(Registers()));
                var a := Reading(mem, Limits(), 0, c.regP, c.regP);
                && cpMem[..] == a.mem && exitCondition == a.ec && Registers() == c.(regP := a.regP)
                && opWord == (if a.failed then 0 else a.data) && opOffset == 60
                && cpuStopped == (a.failed || Idle(opWord, regP))
      ensures Valid()
      ensures old(opOffset == 60 || cpuStopped) ==> LoadedFrom(old(cpMem[..]), exchangeTo % TWO18)
      ensures cpMem.Length >= 16 ==>
                old(SavedIn(Exchange.Swap(cpMem[..], exchangeTo % TWO18, Registers()).0, exchangeTo % TWO18))
    {
      hide Exchange.Pack, AfterPasses, Exchange.Unpack, Exchange.Stored, Exchange.Package, OutOfRange,
           Bounds.Absolute, Reading, CpuContext.LoadedFrom, CpuContext.SavedIn;
      if cpMem.Length >= 16 {
        RegistersSaved(cpMem[..], exchangeTo % TWO18);
      }
      if opOffset != 60 && !cpuStopped {
        return;
      }
      var addr := exchangeTo % TWO18;
      var tmp := Registers();
      ghost var before := cpMem[..];
      var loaded := Exchange.Unpack(Exchange.Package(cpMem[..], addr));
      LoadRegisters(loaded);
      StorePackage(addr, Exchange.Pack(tmp));
      StartProgram();
      RegistersLoaded(before, addr, loaded);
    }
  }

  const TWO15 := 0x8000
  const TWO45 := 0x2000_0000_0000
  const TWO54 := 0x40_0000_0000_0000

  /** An EQ jump, with P in its address field. */
  const EQ_HERE := 0x400_0000

  /** The word without the Cxi instructions (47 octal) that it begins with, of which there can be four. */
  function AfterPasses(w: Word, n: nat): Word
    decreases n
  {
    if n == 0 || w / TWO54 != 39 then w else AfterPasses(w * TWO15 % TWO60, n - 1)
  }

  /** The first word of a program that only jumps to itself. */
  predicate Idle(w: Word, p: u18) {
    AfterPasses(w, 4) / TWO30 == EQ_HERE + p
  }

  /** The 30 bits of EQ B0, B0, P. */
  function EqualJump(p: u18): nat {
    (64 * 4 + 8 * 0 + 0) * TWO18 + p
  }

  type Parcel = n: int | 0 <= n < TWO15

  /** The word of four parcels. */
  function Join(a: Parcel, b: Parcel, c: Parcel, d: Parcel): Word {
    a * TWO45 + b * TWO30 + c * TWO15 + d
  }

  /** A Cxi instruction has opcode 47 octal. */
  predicate Pass(a: Parcel) { a / 512 == 39 }

  /** Told from the parcels: an idle word is an EQ to itself behind up to two Cxi instructions, or three of
      them and the upper half of an EQ whose lower half would be zero. */
  lemma IdleIff(a: Parcel, b: Parcel, c: Parcel, d: Parcel, p: u18)
    ensures Idle(Join(a, b, c, d), p) <==>
            || a * TWO15 + b == EqualJump(p)
            || (Pass(a) && b * TWO15 + c == EqualJump(p))
            || (Pass(a) && Pass(b) && c * TWO15 + d == EqualJump(p))
            || (Pass(a) && Pass(b) && Pass(c) && d * TWO15 == EqualJump(p))
  {
    PassOrJump(a, b, c, d, p);
    PassOrJump(b, c, d, 0, p);
    PassOrJump(c, d, 0, 0, p);
    PassOrJump(d, 0, 0, 0, p);
    hide Join, Pass, EqualJump, AfterPasses;
    var w, t, u, v := Join(a, b, c, d), Join(b, c, d, 0), Join(c, d, 0, 0), Join(d, 0, 0, 0);
    AfterOne(w, t, 4);
    AfterOne(t, u, 3);
    AfterOne(u, v, 2);
    AfterOne(v, Join(0, 0, 0, 0), 1);
    AfterNone(Join(0, 0, 0, 0));
    NoJump(p);
  }

  lemma PassOrJump(a: Parcel, b: Parcel, c: Parcel, d: Parcel, p: u18)
    ensures var w := Join(a, b, c, d);
            && w * TWO15 % TWO60 == Join(b, c, d, 0)
            && (w / TWO54 == 39 <==> Pass(a))
            && (w / TWO30 == EQ_HERE + p <==> a * TWO15 + b == EqualJump(p))
    ensures a * TWO15 + b == EqualJump(p) ==> !Pass(a)
  {
    var w := Join(a, b, c, d);
    RemainderOf(w * TWO15, TWO60, a);
    DivIs(w, TWO54, a / 512);
    DivIs(w, TWO30, a * TWO15 + b);
  }

  lemma AfterOne(w: Word, t: Word, n: nat)
    requires n > 0 && t == w * TWO15 % TWO60
    ensures AfterPasses(w, n) == if w / TWO54 != 39 then w else AfterPasses(t, n - 1)
  {
  }

  lemma AfterNone(w: Word)
    ensures AfterPasses(w, 0) == w
  {
  }

  lemma NoJump(p: u18)
    ensures Join(0, 0, 0, 0) / TWO30 != EQ_HERE + p
  {
  }

  method SkipPasses(w: Word) returns (t: Word)
    ensures t == AfterPasses(w, 4)
  {
    t := w;
    var k := 4;
    while t / TWO54 == 39
      invariant 0 <= k <= 4 && AfterPasses(t, k) == AfterPasses(w, 4) && ZeroBelow(t, 4 - k)
      decreases k
    {
      ShiftedPass(t, 4 - k);
      t := t * TWO15 % TWO60;
      k := k - 1;
    }
  }

  /** The last n parcels are zero. */
  predicate ZeroBelow(w: Word, n: nat) {
    match n
    case 0 => true
    case 1 => w % TWO15 == 0
    case 2 => w % TWO30 == 0
    case 3 => w % (TWO30 * TWO15) == 0
    case _ => w == 0
  }

  lemma ShiftedPass(w: Word, n: nat)
    requires ZeroBelow(w, n) && w / TWO54 == 39
    ensures n < 4 && ZeroBelow(w * TWO15 % TWO60, n + 1)
  {
  }

  /** Fifteen bits above a place are the fields of a short instruction. */
  lemma ShortFields(w: Word, offset: nat)
    requires offset >= 15
    ensures w / Pow2(offset - 15) % TWO15
            == 512 * (w / Pow2(offset - 6) % 64) + 64 * (w / Pow2(offset - 9) % 8)
               + 8 * (w / Pow2(offset - 12) % 8) + w / Pow2(offset - 15) % 8
  {
    Pow2Of18();
    hide Pow2;
    var q := w / Pow2(offset - 15);
    Shifted(w, offset - 15, 3, 8);
    Shifted(w, offset - 15, 6, 64);
    Shifted(w, offset - 15, 9, 512);
    FieldsOf15(q);
  }

  lemma LongFields(w: Word, offset: nat)
    requires offset >= 30
    ensures w / Pow2(offset - 30) % TWO30
            == (64 * (w / Pow2(offset - 6) % 64) + 8 * (w / Pow2(offset - 9) % 8) + w / Pow2(offset - 12) % 8) * TWO18
               + w / Pow2(offset - 30) % TWO18
  {
    Pow2Of18();
    hide Pow2;
    var q := w / Pow2(offset - 30);
    Shifted(w, offset - 30, 18, TWO18);
    Shifted(w, offset - 12, 3, 8);
    Shifted(w, offset - 12, 6, 64);
    assert offset - 12 + 3 == offset - 9 && offset - 12 + 6 == offset - 6;
    FieldsOf30(q);
  }

  lemma Pow2Of18()
    ensures Pow2(18) == TWO18 && Pow2(3) == 8 && Pow2(6) == 64 && Pow2(9) == 512
  {
  }

  lemma FieldsOf15(q: nat)
    ensures q % TWO15 == 512 * (q / 512 % 64) + 64 * (q / 64 % 8) + 8 * (q / 8 % 8) + q % 8
  {
    assert q / 64 == q / 8 / 8 && q / 512 == q / 64 / 8;
  }

  lemma FieldsOf30(q: nat)
    ensures var r := q / TWO18;
            q % TWO30 == (64 * (r / 64 % 64) + 8 * (r / 8 % 8) + r % 8) * TWO18 + q % TWO18
  {
    var r := q / TWO18;
    FieldsOf12(r);
    assert q == r * TWO18 + q % TWO18;
    assert r == r / 4096 * 4096 + r % 4096;
    RemainderOf(q, TWO30, r / 4096);
  }

  lemma FieldsOf12(r: nat)
    ensures r % 4096 == 64 * (r / 64 % 64) + 8 * (r / 8 % 8) + r % 8
  {
    assert r / 64 == r / 8 / 8;
  }

  lemma Shifted(w: nat, a: nat, b: nat, p: nat)
    requires p == Pow2(b)
    ensures w / Pow2(a + b) == w / Pow2(a) / p
  {
    Pow2Adds(a, b);
    DivTwice(w, Pow2(a), Pow2(b));
  }

  lemma {:induction false} Pow2Adds(a: nat, b: nat)
    ensures Pow2(a + b) == Pow2(a) * Pow2(b)
  {
    if b > 0 {
      Pow2Adds(a, b - 1);
      MulTwice(Pow2(a), Pow2(b - 1));
    }
  }

  /** One turn of the step loop is the arbitration's action or actions, whatever address an XJ gives.
      An XJ that has no answer has not gone through them. */
  ghost predicate IsTurn(p: Arbitration.Processor, answer: Answer, q: Arbitration.Processor) {
    answer.Answer? || !p.atXj ==>
      forall addr :: Arbitration.TurnOf(p, answer.InMonitor(), answer.Accepted(), addr, q)
  }

  lemma TurnIs(p: Arbitration.Processor, answer: Answer, q: Arbitration.Processor)
    requires !p.stopped && p.request.NoRequest? && q.request.NoRequest? && q.ma == p.ma
    requires p.atXj ==> q == p.(offset := if answer.Accepted() then 60 else p.offset, atXj := q.atXj)
    ensures IsTurn(p, answer, q)
  {
    hide Arbitration.TurnOf;
    var inMonitor, accepted := answer.InMonitor(), answer.Accepted();
    forall addr
      ensures Arbitration.TurnOf(p, inMonitor, accepted, addr, q)
    {
      if p.atXj {
        Arbitration.XjIsTurn(p, inMonitor, accepted, addr, q);
      } else {
        Arbitration.ExecuteIsTurn(p, inMonitor, accepted, addr, q);
      }
    }
  }

  /** The processor at each turn of a step, and the answer it had. */
  datatype Trail = Trail(seen: seq<Arbitration.Processor>, answers: seq<Answer>) {
    /** Each turn leads from one to the next. */
    ghost predicate From(p: Arbitration.Processor, q: Arbitration.Processor) {
      && |seen| == |answers| + 1 && seen[0] == p && seen[|answers|] == q
      && forall i | 0 <= i < |answers| :: IsTurn(seen[i], answers[i], seen[i + 1])
    }

    function Then(answer: Answer, q: Arbitration.Processor): Trail {
      Trail(seen + [q], answers + [answer])
    }
  }

  lemma ParcelLengths()
    ensures forall fm: nat, i: Reg3 {:trigger ParcelLength(fm, i)} ::
              ParcelLength(fm, i) == 15 || ParcelLength(fm, i) == 30
  {
  }

  /** Reading and writing through a confined field keep everything outside it. */
  lemma AccessKeeps(mem: seq<Word>, b: Bounds, ec: nat, p: u18, address: u18, data: Word)
    requires |mem| > 0 && ec < 256
    ensures b.Keeps(mem, Reading(mem, b, ec, p, address).mem)
    ensures b.Confined(|mem|) ==> b.Keeps(mem, Writing(mem, b, ec, p, address, data).mem)
  {
    if b.Confined(|mem|) {
      WritingKeeps(mem, b, ec, p, address, data);
    }
  }

  lemma WritingKeeps(mem: seq<Word>, b: Bounds, ec: nat, p: u18, address: u18, data: Word)
    requires |mem| > 0 && ec < 256 && b.Confined(|mem|)
    ensures b.Keeps(mem, Writing(mem, b, ec, p, address, data).mem)
  {
    hide Bounds.Absolute, OutOfRange;
    if address < b.fl {
      AbsoluteInField(b, address, |mem|);
    }
  }

  lemma KeepsNothing(b: Bounds, before: seq<Word>)
    ensures b.Keeps(before, before)
  {
  }

  lemma KeepsBoth(b: Bounds, before: seq<Word>, middle: seq<Word>, after: seq<Word>)
    requires b.Keeps(before, middle) && b.Keeps(middle, after)
    ensures b.Keeps(before, after)
  {
  }

  lemma BlitKeeps(b: Bounds, mem: seq<Word>, start: nat, words: seq<Word>)
    requires b.ra <= start && start + |words| <= b.ra + b.fl && start + |words| <= |mem|
    ensures b.Keeps(mem, Blit(mem, start, words))
  {
  }

  /** The integer a 60-bit ones-complement word stands for. */
  function Value60(w: Word): int {
    if w < TWO60 / 2 then w else w - (TWO60 - 1)
  }

  /** A word without its sign: a negative one is complemented. */
  function Magnitude(w: Word): nat {
    if w < TWO60 / 2 then w else TWO60 - 1 - w
  }

  /** The 60-bit ones-complement form of a small integer. */
  function Ones(n: int): Word
    requires -TWO18 < n < TWO18
  {
    if n < 0 then TWO60 - 1 + n else n
  }
}
