/** Field-length protection: what one access through RA and FL does, on values. */
module FieldLength {
  import opened OnesComplement
  import opened Words
  import opened Arithmetic

  /** The registers that bound a program's accesses. */
  datatype Bounds = Bounds(ra: u18, fl: u18, exitMode: nat) {
    /** Exit mode: stop on an address that is out of range. */
    predicate ExitSelected() {
      exitMode / 0x1000 % 2 == 1
    }

    /** Where an RA-relative address lands. The size of central memory is a power of two, so
        masking with size - 1 is the remainder. */
    function Absolute(address: u18, size: nat): (location: nat)
      requires size > 0
      ensures location < size
    {
      Add18(address, ra) % size
    }

    predicate InField(i: int) {
      ra <= i < ra + fl
    }

    /** The field lies in memory and the adder does not carry around within it; a field at 0
        covers whatever its addresses can wrap to, and an empty one has no addresses. */
    predicate Confined(size: nat) {
      fl == 0 || ra == 0 || (ra + fl <= size && ra + fl < TWO18)
    }

    /** Only the program's field and the exit word at RA differ. */
    ghost predicate Keeps(before: seq<Word>, after: seq<Word>) {
      && |before| == |after|
      && forall i | 0 <= i < |before| && !InField(i) && i != ra :: before[i] == after[i]
    }
  }

  /** The exit condition with the address-out-of-range bit (the lowest) set. */
  function Noted(ec: nat): nat {
    if ec % 2 == 1 then ec else ec + 1
  }

  /**
   The word stored at RA: exit condition from bit 48, P + 1 from bit 30. A P + 1 that overflows
   18 bits would set bit 48, which the noted condition has already set.
   */
  function ExitWord(ec: nat, p: u18): Word
    requires ec < 256
  {
    Noted(ec) * TWO48 + (p + 1) % TWO18 * TWO30
  }

  /** Only the lowest bit of the exit condition is set; the exit word has the condition on top, P + 1 below
      it, and a jump's lower half of zeros. */
  lemma ExitWordIs(ec: nat, p: u18)
    requires ec < 256
    ensures Noted(ec) % 2 == 1 && Noted(ec) / 2 == ec / 2
    ensures var w := ExitWord(ec, p);
            w / TWO48 == Noted(ec) && w / TWO30 % TWO18 == (p + 1) % TWO18 && w % TWO30 == 0
  {
  }

  function ExitStored(mem: seq<Word>, ra: nat, w: Word): seq<Word> {
    if ra < |mem| then mem[ra := w] else mem
  }

  /** What an access leaves behind: memory, P, the exit condition, and the word it yields. */
  datatype Access = Access(mem: seq<Word>, regP: u18, ec: nat, data: Word, failed: bool)

  /** The outcome of an access to an address that is out of range. */
  function OutOfRange(mem: seq<Word>, b: Bounds, ec: nat, p: u18): (a: Access)
    requires |mem| > 0 && ec < 256
    ensures b.Keeps(mem, a.mem)
    ensures a.failed <==> b.ExitSelected()
    ensures a.regP == if a.failed then 0 else p
    ensures a.ec == Noted(ec) < 256
    ensures !a.failed ==> a.mem == mem
  {
    if b.ExitSelected() then
      var mem' := ExitStored(mem, b.ra, ExitWord(ec, p));
      Access(mem', 0, Noted(ec), mem'[0], true)
    else
      Access(mem, p, Noted(ec), mem[0], false)
  }

  /** Reading: out of range without exit mode yields location 0. */
  function Reading(mem: seq<Word>, b: Bounds, ec: nat, p: u18, address: u18): (a: Access)
    requires |mem| > 0 && ec < 256
    ensures b.Keeps(mem, a.mem)
    ensures a.regP == if a.failed then 0 else p
  {
    if address >= b.fl then OutOfRange(mem, b, ec, p)
    else Access(mem, p, ec, mem[b.Absolute(address, |mem|)], false)
  }

  /** Writing: out of range without exit mode does nothing. */
  function Writing(mem: seq<Word>, b: Bounds, ec: nat, p: u18, address: u18, data: Word): (a: Access)
    requires |mem| > 0 && ec < 256
  {
    if address >= b.fl then OutOfRange(mem, b, ec, p)
    else Access(mem[b.Absolute(address, |mem|) := data], p, ec, data, false)
  }

  lemma AbsoluteIs(b: Bounds, address: u18, size: nat)
    requires size > 0
    ensures b.Absolute(address, size) == Sum(address, b.ra) % size
  {
    hide Add18, Sum;
    AddIs(address, b.ra);
  }

  /** A confined field's addresses are the words of the field, in order. */
  lemma AbsoluteInField(b: Bounds, address: u18, size: nat)
    requires size > 0 && b.Confined(size) && address < b.fl
    ensures b.ra + b.fl <= size ==> b.Absolute(address, size) == b.ra + address
    ensures b.InField(b.Absolute(address, size))
  {
    hide Bounds.Absolute;
    AbsoluteIs(b, address, size);
    if b.ra + b.fl <= size {
      SmallRemainder(b.ra + address, size);
    }
  }

  /** Confinement is exactly what protection needs: without it some address below FL lands
      outside the field. */
  lemma ConfinedExactly(b: Bounds, size: nat)
    requires size > 0
    ensures b.Confined(size) <==> forall address: u18 | address < b.fl :: b.InField(b.Absolute(address, size))
  {
    hide Bounds.Absolute;
    if b.Confined(size) {
      forall address: u18 | address < b.fl
        ensures b.InField(b.Absolute(address, size))
      {
        AbsoluteInField(b, address, size);
      }
    } else if b.ra + b.fl >= TWO18 {
      Escapes(b, MASK18 - b.ra, size);
    } else if b.ra >= size {
      AbsoluteIs(b, 0, size);
      assert !b.InField(b.Absolute(0, size));
    } else {
      AbsoluteIs(b, size - b.ra, size);
      RemainderOf(size, size, 1);
      assert !b.InField(b.Absolute(size - b.ra, size));
    }
  }

  lemma Escapes(b: Bounds, address: u18, size: nat)
    requires size > 0 && b.ra > 0 && b.ra + address == MASK18
    ensures !b.InField(b.Absolute(address, size))
  {
    AbsoluteIs(b, address, size);
    SmallRemainder(0, size);
  }

  /** For instance, with RA 770000 and FL 20000 octal the address 7777 lands at 0. */
  lemma CarriesAround()
    ensures var b := Bounds(0x3F000, 0x2000, 0);
            0xFFF < b.fl && b.Absolute(0xFFF, TWO18) == 0 && !b.InField(0)
  {
  }
}
