/**
 The Z80's block instructions. The repeated ones run in rounds inside one instruction; a cycle
 budget can stop them after any round, with the program counter put back so that the next call
 resumes them.
 */
module Z80Block {

  const SIZE := 0x1_0000

  /** Memory and the registers that the block instructions use. */
  datatype Machine = Machine(mem: seq<bv8>, a: bv8, f: bv8, bc: int, de: int, hl: int, r: int)

  /** Whether bytes are copied or compared, upwards or downwards. */
  datatype Block = Block(copying: bool, up: bool)
  {
    function Delta(): int { if up then 1 else -1 }
  }

  ghost predicate Valid(m: Machine) {
    |m.mem| == SIZE && 0 <= m.de < SIZE && 0 <= m.hl < SIZE && 0 <= m.r < 256
  }

  const SZC: bv8 := 0xc1
  const PARITY: bv8 := 0x04

  function Undocumented(n: bv8): bv8 {
    (n & 0x08) | ((n << 4) & 0x20)
  }

  /** The flags after a byte was copied: sign, zero and carry stay. */
  function CopyFlags(f: bv8, a: bv8, n: bv8, more: bool): bv8 {
    (f & SZC) | (if more then PARITY else 0) | Undocumented(n + a)
  }

  /** The flags after a byte was compared: only carry stays. */
  function CompareFlags(f: bv8, a: bv8, n: bv8, more: bool): bv8 {
    var z := a - n;
    var h := (a ^ n ^ z) & 0x10;
    h | Undocumented(z - (h >> 4)) | (z & 0x80) | (if z == 0 then 0x40 else 0) | (if more then PARITY else 0)
    | 0x02 | (f & 0x01)
  }

  /** The refresh count: seven bits, and one that is kept. */
  function Refreshed(r: int, n: int): int {
    r / 128 * 128 + (r % 128 + n) % 128
  }

  /** One round, or one instruction that does not repeat. */
  function Step(b: Block, m: Machine): (t: Machine)
    requires Valid(m)
    ensures Valid(t)
  {
    var n := m.mem[m.hl];
    var hl := (m.hl + b.Delta()) % SIZE;
    var t := m.(bc := m.bc - 1, hl := hl, r := Refreshed(m.r, 2));
    if b.copying then
      t.(mem := m.mem[m.de := n], de := (m.de + b.Delta()) % SIZE, f := CopyFlags(m.f, m.a, n, m.bc - 1 != 0))
    else t.(f := CompareFlags(m.f, m.a, n, m.bc - 1 != 0))
  }

  /** The round that starts here is the last: the count runs out, or the byte is found. */
  predicate Last(b: Block, m: Machine)
    requires Valid(m)
  {
    m.bc == 1 || (!b.copying && m.mem[m.hl] == m.a)
  }

  datatype Outcome = Outcome(machine: Machine, cycles: int, finished: bool)

  /** What one call does: rounds until the last one, or until the budget is used up. */
  function Chunk(b: Block, m: Machine, elapsed: int, number: int): (o: Outcome)
    requires Valid(m)
    ensures Valid(o.machine)
    decreases number - elapsed
  {
    var t := Step(b, m);
    if Last(b, m) then Outcome(t, elapsed + 16, true)
    else if elapsed + 21 < number then Chunk(b, t, elapsed + 21, number)
    else Outcome(t, elapsed + 21, false)
  }

  /** The sixteen-bit count register. */
  function Truncated(m: Machine): Machine { m.(bc := m.bc % SIZE) }

  /** All the rounds of an instruction that is never stopped. */
  function Whole(b: Block, m: Machine): (o: Outcome)
    requires Valid(m) && m.bc >= 1
    ensures Valid(o.machine) && o.finished
    decreases m.bc
  {
    var t := Step(b, m);
    if Last(b, m) then Outcome(t, 16, true)
    else
      var o := Whole(b, t);
      o.(cycles := o.cycles + 21)
  }

  class Z80 {
    const memory: array<bv8>
    var a: bv8
    var f: bv8
    var bc: int
    var de: int
    var hl: int
    var r: int
    var pc: int

    ghost function View(): Machine
      reads this, memory
    {
      Machine(memory[..], a, f, bc, de, hl, r)
    }

    constructor ()
      ensures WellFormed() && fresh(memory) && View() == Machine(seq(SIZE, _ => 0), 0, 0, 0, 0, 0, 0)
    {
      memory := new bv8[SIZE](i => 0);
      a, f, bc, de, hl, r, pc := 0, 0, 0, 0, 0, 0, 0;
      new;
      assert memory[..] == seq(SIZE, _ => 0);
    }

    ghost predicate WellFormed()
      reads this, memory
    {
      Valid(View()) && 0 <= bc < SIZE && 0 <= pc < SIZE
    }

    /** The opcodes at the program counter are those of a repeated block instruction. */
    ghost predicate At(b: Block)
      reads this`pc, memory
    {
      && memory.Length == SIZE && memory[pc % SIZE] == 0xed
      && memory[(pc + 1) % SIZE] == if b.copying then (if b.up then 0xb0 else 0xb8) else if b.up then 0xb1 else 0xb9
    }

    /** LDI and LDD. */
    method LdiLdd(up: bool) returns (elapsed: int)
      requires WellFormed()
      modifies this`f, this`bc, this`de, this`hl, this`r, this`pc, memory
      ensures WellFormed() && View() == Truncated(Step(Block(true, up), old(View())))
      ensures elapsed == 16 && pc == (old(pc) + 2) % SIZE
    {
      hide CopyFlags, Refreshed, Step, SameFlags;
      ghost var before := memory[..];
      RefreshedIs(r, 0);
      SameFlagsItself(f);
      CopyRound(Block(true, up), View(), hl, de, r, f, 0);
      var refresh := r % 128;
      elapsed, refresh := 8, refresh + 2;
      var n := memory[hl];
      elapsed := elapsed + 3;
      memory[de] := n;
      assert memory[..] == before[de := n];
      elapsed := elapsed + 3;
      bc := (bc - 1) % SIZE;
      f := CopyFlags(f, a, n, bc != 0);
      var d := if up then 1 else -1;
      de := (de + d) % SIZE;
      hl := (hl + d) % SIZE;
      elapsed := elapsed + 2;
      RefreshedIs(r, 2);
      r := r / 128 * 128 + refresh % 128;
      pc := (pc + 2) % SIZE;
    }

    /** CPI and CPD. */
    method CpiCpd(up: bool) returns (elapsed: int)
      requires WellFormed()
      modifies this`f, this`bc, this`hl, this`r, this`pc
      ensures WellFormed() && View() == Truncated(Step(Block(false, up), old(View())))
      ensures elapsed == 16 && pc == (old(pc) + 2) % SIZE
    {
      hide CompareFlags, Refreshed, Step, SameCarry;
      RefreshedIs(r, 0);
      SameCarryItself(f);
      CompareRound(Block(false, up), View(), hl, r, f, 0);
      var refresh := r % 128;
      elapsed, refresh := 8, refresh + 2;
      var n := memory[hl];
      elapsed := elapsed + 3;
      hl := (hl + if up then 1 else -1) % SIZE;
      bc := (bc - 1) % SIZE;
      f := CompareFlags(f, a, n, bc != 0);
      elapsed := elapsed + 5;
      RefreshedIs(r, 2);
      r := r / 128 * 128 + refresh % 128;
      pc := (pc + 2) % SIZE;
    }

    /** The rounds of LDIR or LDDR, on local copies of the registers. */
    method CopyRounds(up: bool, number: int)
        returns (elapsed: int, refresh: int, count: int, to: int, from: int, n: bv8, ghost now: Machine)
      requires Valid(View())
      modifies memory
      ensures Valid(now) && now == Machine(memory[..], a, CopyFlags(f, a, n, count != 0), count, to % SIZE, from % SIZE,
                                           Refreshed(r, refresh - r % 128))
      ensures Chunk(Block(true, up), old(View()), 0, number) == Outcome(now, elapsed, count == 0)
    {
      hide CopyFlags, Refreshed, Step, SameFlags, Chunk, Last;
      ghost var b, start, k := Block(true, up), View(), 0;
      now := start;
      elapsed, refresh := 8, r % 128 + 2;
      refresh := refresh - 2;
      elapsed := elapsed - 8;
      var d := if up then 1 else -1;
      count, to, from, n := bc, de, hl, 0;
      RefreshedIs(r, 0);
      SameFlagsItself(f);
      while true
        invariant Valid(now) && now.mem == memory[..] && now.a == a && now.bc == count
        invariant now.de == to % SIZE && now.hl == from % SIZE
        invariant refresh == r % 128 + k && now.r == Refreshed(r, k) && SameFlags(now.f, f)
        invariant Chunk(b, now, elapsed, number) == Chunk(b, start, 0, number)
        decreases number - elapsed
      {
        CopyRound(b, now, from, to, r, f, k);
        ChunkStep(b, now, elapsed, number);
        now := Step(b, now);
        refresh, k := refresh + 2, k + 2;
        n := memory[from % SIZE];
        memory[to % SIZE] := n;
        assert now.mem == memory[..];
        from := from + d;
        to := to + d;
        count := count - 1;
        if count != 0 {
          elapsed := elapsed + 21;
        } else {
          elapsed := elapsed + 16;
          break;
        }
        if elapsed < number {
          continue;
        }
        break;
      }
    }

    /** One call of LDIR or LDDR with a cycle budget. */
    method LdirLddr(up: bool, number: int) returns (elapsed: int)
      requires WellFormed() && At(Block(true, up))
      modifies this`f, this`bc, this`de, this`hl, this`r, this`pc, memory
      ensures WellFormed()
      ensures var o := Chunk(Block(true, up), old(View()), 0, number);
              && View() == Truncated(o.machine) && elapsed == o.cycles
              && pc == if o.finished then (old(pc) + 2) % SIZE else old(pc)
    {
      hide CopyFlags, Refreshed, Chunk;
      var next := pc + 2;
      var refresh, count, to, from, n;
      ghost var now;
      elapsed, refresh, count, to, from, n, now := CopyRounds(up, number);
      hl := from % SIZE;
      de := to % SIZE;
      bc := count % SIZE;
      f := CopyFlags(f, a, n, count != 0);
      if count != 0 {
        next := next - 2;
      }
      RefreshedIs(r, refresh - r % 128);
      r := r / 128 * 128 + refresh % 128;
      pc := next % SIZE;
    }

    /** The rounds of CPIR or CPDR. */
    method CompareRounds(up: bool, number: int)
        returns (elapsed: int, refresh: int, count: int, from: int, n: bv8, ghost now: Machine)
      requires Valid(View())
      ensures Valid(now) && now == Machine(memory[..], a, CompareFlags(f, a, n, count != 0), count, de, from % SIZE,
                                           Refreshed(r, refresh - r % 128))
      ensures Chunk(Block(false, up), View(), 0, number) == Outcome(now, elapsed, count == 0 || n == a)
    {
      hide CompareFlags, Refreshed, Step, SameCarry, Chunk, Last;
      ghost var b, start, k := Block(false, up), View(), 0;
      now := start;
      elapsed, refresh := 8, r % 128 + 2;
      refresh := refresh - 2;
      elapsed := elapsed - 8;
      var d := if up then 1 else -1;
      count, from, n := bc, hl, 0;
      RefreshedIs(r, 0);
      SameCarryItself(f);
      while true
        invariant Valid(now) && now == Machine(memory[..], a, now.f, count, de, from % SIZE, Refreshed(r, k))
        invariant refresh == r % 128 + k && SameCarry(now.f, f)
        invariant Chunk(b, now, elapsed, number) == Chunk(b, start, 0, number)
        decreases number - elapsed
      {
        CompareRound(b, now, from, r, f, k);
        ChunkStep(b, now, elapsed, number);
        now := Step(b, now);
        refresh, k := refresh + 2, k + 2;
        n := memory[from % SIZE];
        from := from + d;
        count := count - 1;
        if count != 0 && n != a {
          elapsed := elapsed + 21;
        } else {
          elapsed := elapsed + 16;
          break;
        }
        if elapsed < number {
          continue;
        }
        break;
      }
    }

    /** One call of CPIR or CPDR with a cycle budget. */
    method CpirCpdr(up: bool, number: int) returns (elapsed: int)
      requires WellFormed() && At(Block(false, up))
      modifies this`f, this`bc, this`hl, this`r, this`pc
      ensures WellFormed()
      ensures var o := Chunk(Block(false, up), old(View()), 0, number);
              && View() == Truncated(o.machine) && elapsed == o.cycles
              && pc == if o.finished then (old(pc) + 2) % SIZE else old(pc)
    {
      hide CompareFlags, Refreshed, Chunk;
      var next := pc + 2;
      var refresh, count, from, n;
      ghost var now;
      elapsed, refresh, count, from, n, now := CompareRounds(up, number);
      hl := from % SIZE;
      bc := count % SIZE;
      f := CompareFlags(f, a, n, count != 0);
      if count != 0 && n != a {
        next := next - 2;
      }
      RefreshedIs(r, refresh - r % 128);
      r := r / 128 * 128 + refresh % 128;
      pc := next % SIZE;
    }

    /** What the opcode behind an ED prefix selects, if it is a block instruction. */
    method Dispatch(number: int) returns (handled: bool, elapsed: int)
      requires WellFormed()
      modifies this`f, this`bc, this`de, this`hl, this`r, this`pc, memory
      ensures WellFormed()
      ensures var opcode := old(memory[(pc + 1) % SIZE]);
              && handled == (old(memory[pc]) == 0xed && opcode & 0xe6 == 0xa0)
              && (handled ==>
                    var b := Block(opcode & 0x01 == 0, opcode & 0x08 == 0);
                    if opcode & 0x10 == 0 then
                      View() == Truncated(Step(b, old(View()))) && elapsed == 16 && pc == (old(pc) + 2) % SIZE
                    else
                      var o := Chunk(b, old(View()), 0, number);
                      && View() == Truncated(o.machine) && elapsed == o.cycles
                      && pc == if o.finished then (old(pc) + 2) % SIZE else old(pc))
      ensures !handled ==> View() == old(View()) && pc == old(pc)
    {
      hide Step, Chunk;
      handled, elapsed := memory[pc] == 0xed, 0;
      if !handled {
        return;
      }
      match memory[(pc + 1) % SIZE] {
        case 0xa0 => elapsed := LdiLdd(true);
        case 0xa1 => elapsed := CpiCpd(true);
        case 0xa8 => elapsed := LdiLdd(false);
        case 0xa9 => elapsed := CpiCpd(false);
        case 0xb0 => elapsed := LdirLddr(true, number);
        case 0xb1 => elapsed := CpirCpdr(true, number);
        case 0xb8 => elapsed := LdirLddr(false, number);
        case 0xb9 => elapsed := CpirCpdr(false, number);
        case _ => handled := false;
      }
    }

    /** LDIR or LDDR called with one budget after another, until it is finished: the instruction is
        fetched again each time, and is still there unless the block overwrites it. */
    method ResumeCopy(up: bool, budgets: seq<int>) returns (cycles: int, finished: bool)
      requires WellFormed() && bc >= 1 && At(Block(true, up))
      requires Clear(Block(true, up), View(), pc) && Clear(Block(true, up), View(), (pc + 1) % SIZE)
      modifies this`f, this`bc, this`de, this`hl, this`r, this`pc, memory
      ensures WellFormed()
      ensures finished ==>
                var w := Whole(Block(true, up), old(View()));
                View() == Truncated(w.machine) && cycles == w.cycles && pc == (old(pc) + 2) % SIZE
      ensures |budgets| >= old(bc) ==> finished
    {
      hide Chunk, Whole, Clear;
      ghost var b, start := Block(true, up), View();
      cycles, finished := 0, false;
      var at := pc;
      for n := 0 to |budgets|
        invariant WellFormed() && bc >= 1 && At(b) && pc == at == old(pc) && n + bc <= old(bc)
        invariant Clear(b, View(), pc) && Clear(b, View(), (pc + 1) % SIZE)
        invariant Whole(b, start) == Whole(b, View()).(cycles := Whole(b, View()).cycles + cycles)
      {
        ghost var now := View();
        ChunkIsPart(b, now, 0, budgets[n]);
        InstructionKept(b, now, 0, budgets[n], pc);
        InstructionKept(b, now, 0, budgets[n], (pc + 1) % SIZE);
        ghost var o := Chunk(b, now, 0, budgets[n]);
        var elapsed := LdirLddr(up, budgets[n]);
        cycles := cycles + elapsed;
        if pc != at {
          return cycles, true;
        }
        assert View() == o.machine;
      }
    }

    /** The same of CPIR and CPDR, which overwrite nothing. */
    method ResumeCompare(up: bool, budgets: seq<int>) returns (cycles: int, finished: bool)
      requires WellFormed() && bc >= 1 && At(Block(false, up))
      modifies this`f, this`bc, this`hl, this`r, this`pc
      ensures WellFormed()
      ensures finished ==>
                var w := Whole(Block(false, up), old(View()));
                View() == Truncated(w.machine) && cycles == w.cycles && pc == (old(pc) + 2) % SIZE
      ensures |budgets| >= old(bc) ==> finished
    {
      hide Chunk, Whole;
      ghost var b, start := Block(false, up), View();
      cycles, finished := 0, false;
      var at := pc;
      for n := 0 to |budgets|
        invariant WellFormed() && bc >= 1 && At(b) && pc == at == old(pc) && n + bc <= old(bc)
        invariant Whole(b, start) == Whole(b, View()).(cycles := Whole(b, View()).cycles + cycles)
      {
        ghost var now := View();
        ChunkIsPart(b, now, 0, budgets[n]);
        ghost var o := Chunk(b, now, 0, budgets[n]);
        var elapsed := CpirCpdr(up, budgets[n]);
        cycles := cycles + elapsed;
        if pc != at {
          return cycles, true;
        }
        assert View() == o.machine;
      }
    }
  }

  lemma ChunkStep(b: Block, m: Machine, elapsed: int, number: int)
    requires Valid(m)
    ensures Chunk(b, m, elapsed, number) ==
              var t := Step(b, m);
              if m.bc == 1 || (!b.copying && m.mem[m.hl] == m.a) then Outcome(t, elapsed + 16, true)
              else if elapsed + 21 < number then Chunk(b, t, elapsed + 21, number)
              else Outcome(t, elapsed + 21, false)
  {
    hide Step;
  }

  /** A round on addresses and a refresh count that are not yet cut to their registers' widths. */
  lemma CopyRound(b: Block, m: Machine, from: int, to: int, r: int, f: bv8, k: int)
    requires b.copying && Valid(m) && m.de == to % SIZE && m.hl == from % SIZE
    requires 0 <= r < 256 && m.r == Refreshed(r, k) && SameFlags(m.f, f)
    ensures var t := Step(b, m);
            var n := m.mem[from % SIZE];
            && t.mem == m.mem[to % SIZE := n] && t.a == m.a && t.bc == m.bc - 1
            && t.hl == (from + b.Delta()) % SIZE && t.de == (to + b.Delta()) % SIZE
            && t.r == Refreshed(r, k + 2)
            && t.f == CopyFlags(f, m.a, n, m.bc - 1 != 0) && SameFlags(t.f, f)
  {
    hide CopyFlags, Refreshed, SameFlags;
    RefreshedAgain(r, k, 2);
    SameFlagsCopy(m.f, f, m.a, m.mem[m.hl], m.bc - 1 != 0);
  }

  lemma SameFlagsItself(f: bv8)
    ensures SameFlags(f, f)
  {
  }

  /** Later rounds compute the same flags from either. */
  predicate SameFlags(f: bv8, g: bv8) {
    f & SZC == g & SZC
  }

  lemma SameFlagsCopy(f: bv8, g: bv8, a: bv8, n: bv8, more: bool)
    requires SameFlags(f, g)
    ensures CopyFlags(f, a, n, more) == CopyFlags(g, a, n, more)
    ensures SameFlags(CopyFlags(f, a, n, more), g)
  {
  }

  lemma RefreshedIs(r: int, n: int)
    requires 0 <= r < 256
    ensures Refreshed(r, n) == r / 128 * 128 + (r % 128 + n) % 128
    ensures 0 <= Refreshed(r, n) < 256 && Refreshed(r, 0) == r
  {
  }

  lemma RefreshedAgain(r: int, n: int, k: int)
    requires 0 <= r < 256
    ensures Refreshed(Refreshed(r, n), k) == Refreshed(r, n + k)
  {
  }

  lemma CompareRound(b: Block, m: Machine, from: int, r: int, f: bv8, k: int)
    requires !b.copying && Valid(m) && m.hl == from % SIZE
    requires 0 <= r < 256 && m.r == Refreshed(r, k) && SameCarry(m.f, f)
    ensures var t := Step(b, m);
            var n := m.mem[from % SIZE];
            && t.mem == m.mem && t.a == m.a && t.bc == m.bc - 1 && t.de == m.de
            && t.hl == (from + b.Delta()) % SIZE && t.r == Refreshed(r, k + 2)
            && t.f == CompareFlags(f, m.a, n, m.bc - 1 != 0) && SameCarry(t.f, f)
  {
    hide CompareFlags, Refreshed, SameCarry;
    RefreshedAgain(r, k, 2);
    SameCarryCompare(m.f, f, m.a, m.mem[m.hl], m.bc - 1 != 0);
  }

  predicate SameCarry(f: bv8, g: bv8) {
    f & 0x01 == g & 0x01
  }

  lemma SameCarryItself(f: bv8)
    ensures SameCarry(f, f)
  {
  }

  lemma SameCarryCompare(f: bv8, g: bv8, a: bv8, n: bv8, more: bool)
    requires SameCarry(f, g)
    ensures CompareFlags(f, a, n, more) == CompareFlags(g, a, n, more)
    ensures SameCarry(CompareFlags(f, a, n, more), g)
  {
  }

  /** A call that finishes has done all the rounds; one that was stopped has left the others. */
  lemma {:induction false} ChunkIsPart(b: Block, m: Machine, elapsed: int, number: int)
    requires Valid(m) && m.bc >= 1
    ensures var o := Chunk(b, m, elapsed, number);
            var w := Whole(b, m);
            && (o.finished ==> o.machine == w.machine && o.cycles == elapsed + w.cycles)
            && (!o.finished ==>
                  && 1 <= o.machine.bc < m.bc && o.cycles >= number
                  && Whole(b, o.machine) == w.(cycles := w.cycles - (o.cycles - elapsed)))
    decreases m.bc
  {
    hide Step;
    var t := Step(b, m);
    StepCounts(b, m);
    if !Last(b, m) && elapsed + 21 < number {
      ChunkIsPart(b, t, elapsed + 21, number);
    }
  }

  lemma StepCounts(b: Block, m: Machine)
    requires Valid(m)
    ensures Step(b, m).bc == m.bc - 1
  {
  }

  /** Calls with one budget after another, until the instruction is finished. */
  function Calls(b: Block, m: Machine, budgets: seq<int>): (o: Outcome)
    requires Valid(m)
    ensures Valid(o.machine)
    decreases |budgets|
  {
    if budgets == [] then Outcome(m, 0, false)
    else
      var o := Chunk(b, m, 0, budgets[0]);
      var t := Truncated(o.machine);
      if o.finished then o.(machine := t)
      else
        var rest := Calls(b, t, budgets[1..]);
        rest.(cycles := o.cycles + rest.cycles)
  }

  /**
   However budgets stop it, the instruction leaves the same memory, registers, flags and refresh
   count, and takes as many cycles in all, as one call that is never stopped; and as many calls
   as the count are always enough.
   */
  lemma {:induction false} StoppingDoesNotMatter(b: Block, m: Machine, budgets: seq<int>)
    requires Valid(m) && 1 <= m.bc < SIZE
    ensures var o := Calls(b, m, budgets);
            && (o.finished ==> o == Whole(b, m).(machine := Truncated(Whole(b, m).machine)))
            && (|budgets| >= m.bc ==> o.finished)
    decreases |budgets|
  {
    hide Chunk, Whole;
    if budgets != [] {
      var o := Chunk(b, m, 0, budgets[0]);
      ChunkIsPart(b, m, 0, budgets[0]);
      if !o.finished {
        assert Truncated(o.machine) == o.machine;
        StoppingDoesNotMatter(b, o.machine, budgets[1..]);
      }
    }
  }

  /** The n-th address on from a given one. */
  function Onward(b: Block, from: int, n: int): (r: int)
    ensures 0 <= r < SIZE
  {
    (if b.up then from + n else from - n) % SIZE
  }

  /** None of the bytes that are still to be written is at address p. */
  ghost predicate Clear(b: Block, m: Machine, p: int) {
    b.copying ==> forall i | 0 <= i < m.bc :: Onward(b, m.de, i) != p
  }

  lemma StepClear(b: Block, m: Machine, p: int)
    requires Valid(m) && m.bc >= 1 && 0 <= p < SIZE && Clear(b, m, p)
    ensures Step(b, m).mem[p] == m.mem[p] && Clear(b, Step(b, m), p)
  {
    hide CopyFlags, CompareFlags, Refreshed;
    var t := Step(b, m);
    if b.copying {
      assert Onward(b, m.de, 0) == m.de;
      forall i | 0 <= i < t.bc
        ensures Onward(b, t.de, i) != p
      {
        OnwardNext(b, m.de, i);
      }
    }
  }

  lemma OnwardNext(b: Block, from: int, i: int)
    ensures Onward(b, (from + b.Delta()) % SIZE, i) == Onward(b, from, i + 1)
  {
  }

  /** The instruction is still there to be resumed if the block does not overwrite it. */
  lemma {:induction false} InstructionKept(b: Block, m: Machine, elapsed: int, number: int, p: int)
    requires Valid(m) && m.bc >= 1 && 0 <= p < SIZE && Clear(b, m, p)
    ensures var t := Chunk(b, m, elapsed, number).machine;
            t.mem[p] == m.mem[p] && Clear(b, t, p)
    decreases m.bc
  {
    hide Step, Clear;
    StepClear(b, m, p);
    StepCounts(b, m);
    var t := Step(b, m);
    if !Last(b, m) && elapsed + 21 < number {
      InstructionKept(b, t, elapsed + 21, number, p);
    }
  }

  /** So many single instructions, one after another. */
  function Singles(b: Block, m: Machine, n: nat): (t: Machine)
    requires Valid(m)
    ensures Valid(t)
    decreases n
  {
    if n == 0 then m else Singles(b, Truncated(Step(b, m)), n - 1)
  }

  /** LDIR and LDDR do what as many LDIs or LDDs as the count do, in more cycles. */
  lemma {:induction false} RepeatedCopyIsSingles(b: Block, m: Machine)
    requires b.copying && Valid(m) && 1 <= m.bc < SIZE
    ensures Whole(b, m).machine == Singles(b, m, m.bc)
    ensures Whole(b, m).cycles == 21 * m.bc - 5
    decreases m.bc
  {
    hide Step;
    StepCounts(b, m);
    var t := Step(b, m);
    assert Truncated(t) == t;
    if m.bc > 1 {
      RepeatedCopyIsSingles(b, t);
    }
  }

  /** When a copy is done the count is used up, which parity tells; sign, zero and carry are as before. */
  lemma {:induction false} CopyEnds(b: Block, m: Machine)
    requires b.copying && Valid(m) && m.bc >= 1
    ensures var t := Whole(b, m).machine;
            && t.bc == 0 && t.f & 0x04 == 0 && t.a == m.a
            && t.f & 0x80 == m.f & 0x80 && t.f & 0x40 == m.f & 0x40 && t.f & 0x01 == m.f & 0x01
    decreases m.bc
  {
    hide CopyFlags, CompareFlags, Refreshed;
    var t := Step(b, m);
    CopyFlagsMean(m.f, m.a, m.mem[m.hl], m.bc - 1 != 0);
    if m.bc > 1 {
      CopyEnds(b, t);
    }
  }

  /** How far on from one address another is. */
  function Ahead(b: Block, from: int, x: int): (n: int)
    ensures 0 <= n < SIZE
  {
    (if b.up then x - from else from - x) % SIZE
  }

  lemma AheadNext(b: Block, from: int, x: int)
    requires 0 <= from < SIZE && 0 <= x < SIZE
    ensures Ahead(b, (from + b.Delta()) % SIZE, x) == if Ahead(b, from, x) == 0 then SIZE - 1 else Ahead(b, from, x) - 1
    ensures Ahead(b, from, x) == 0 <==> x == from
  {
  }

  lemma SameDistance(from: int, to: int, d: int)
    ensures ((to + d) % SIZE - (from + d) % SIZE) % SIZE == (to - from) % SIZE
  {
    var i, j := (from + d) / SIZE, (to + d) / SIZE;
    assert (to + d) % SIZE - (from + d) % SIZE == to - from + SIZE * (i - j);
  }

  lemma AheadBoth(b: Block, from: int, to: int)
    ensures Ahead(b, (from + b.Delta()) % SIZE, (to + b.Delta()) % SIZE) == Ahead(b, from, to)
  {
    SameDistance(from, to, b.Delta());
    SameDistance(to, from, b.Delta());
  }

  lemma AheadOnward(b: Block, from: int, n: int)
    requires 0 <= n < SIZE
    ensures Ahead(b, from, Onward(b, from, n)) == n
    ensures 0 <= Onward(b, from, n) < SIZE
  {
  }

  lemma CopyStep(b: Block, m: Machine)
    requires b.copying && Valid(m)
    ensures var t := Step(b, m);
            && t.mem == m.mem[m.de := m.mem[m.hl]] && t.bc == m.bc - 1
            && t.hl == (m.hl + b.Delta()) % SIZE && t.de == (m.de + b.Delta()) % SIZE
  {
    hide CopyFlags, Refreshed;
  }

  /**
   The block as it was is copied, and nothing else changes, when no byte of it is overwritten
   before it is read.
   */
  lemma {:induction false} CopiesBlock(b: Block, m: Machine, x: int)
    requires b.copying && Valid(m) && 1 <= m.bc < SIZE && 0 <= x < SIZE
    requires Ahead(b, m.hl, m.de) == 0 || Ahead(b, m.hl, m.de) >= m.bc
    ensures Whole(b, m).machine.mem[x] ==
              if Ahead(b, m.de, x) < m.bc then m.mem[Onward(b, m.hl, Ahead(b, m.de, x))] else m.mem[x]
    decreases m.bc
  {
    hide Step, Ahead, Onward;
    CopyStep(b, m);
    var t := Step(b, m);
    var j := Ahead(b, m.de, x);
    AheadNext(b, m.de, x);
    AheadOnward(b, m.hl, 0);
    AheadNext(b, m.hl, Onward(b, m.hl, 0));
    if m.bc > 1 {
      AheadBoth(b, m.hl, m.de);
      CopiesBlock(b, t, x);
      if 0 < j < m.bc {
        OnwardNext(b, m.hl, j - 1);
        AheadOnward(b, m.hl, j);
      }
    }
  }

  lemma CompareStep(b: Block, m: Machine)
    requires !b.copying && Valid(m)
    ensures var t := Step(b, m);
            && t == m.(bc := m.bc - 1, hl := (m.hl + b.Delta()) % SIZE, f := t.f, r := Refreshed(m.r, 2))
            && (t.f & 0x40 != 0 <==> m.mem[m.hl] == m.a) && (t.f & PARITY != 0 <==> t.bc != 0)
            && t.f & 0x03 == 0x02 | (m.f & 0x01)
  {
    hide Refreshed;
    CompareFlagsMean(m.f, m.a, m.mem[m.hl], m.bc - 1 != 0);
    hide CompareFlags;
  }

  /** After a copy sign, zero and carry are as before, half carry and subtract are clear, parity tells whether
      the count is used up, and the two undocumented flags are bits 3 and 1 of the byte added to A. */
  lemma CopyFlagsMean(f: bv8, a: bv8, n: bv8, more: bool)
    ensures var g := CopyFlags(f, a, n, more);
            && g & 0x80 == f & 0x80 && g & 0x40 == f & 0x40 && g & 0x01 == f & 0x01
            && g & 0x10 == 0 && g & 0x02 == 0 && (g & 0x04 != 0 <==> more)
            && (g & 0x08 != 0 <==> (a + n) & 0x08 != 0) && (g & 0x20 != 0 <==> (a + n) & 0x02 != 0)
  {
  }

  /** After a comparison sign is that of A less the byte, half carry tells whether the low digit was borrowed
      from, and the two undocumented flags are bits 3 and 1 of the difference less half carry. */
  lemma CompareFlagsMore(f: bv8, a: bv8, n: bv8, more: bool)
    ensures var g := CompareFlags(f, a, n, more);
            var rest := if a & 0x0f < n & 0x0f then a - n - 1 else a - n;
            && (g & 0x80 != 0 <==> (a - n) & 0x80 != 0)
            && (g & 0x10 != 0 <==> a & 0x0f < n & 0x0f)
            && (g & 0x08 != 0 <==> rest & 0x08 != 0) && (g & 0x20 != 0 <==> rest & 0x02 != 0)
  {
  }

  lemma CompareFlagsMean(f: bv8, a: bv8, n: bv8, more: bool)
    ensures var g := CompareFlags(f, a, n, more);
            (g & 0x40 != 0 <==> n == a) && (g & PARITY != 0 <==> more) && g & 0x03 == 0x02 | (f & 0x01)
  {
    assert (a - n) & 0x80 & 0x40 == 0;
  }

  /**
   CPIR and CPDR stop just past the first byte equal to A, or past the block if there is none; the
   zero flag tells which, and parity whether bytes are left.
   */
  lemma {:induction false} StopsPastFirst(b: Block, m: Machine)
    requires !b.copying && Valid(m) && 1 <= m.bc < SIZE
    ensures var w := Whole(b, m);
            var t := w.machine;
            var k := m.bc - t.bc;
            && 1 <= k <= m.bc && t.hl == Onward(b, m.hl, k) && w.cycles == 21 * k - 5
            && t.mem == m.mem && t.a == m.a && t.de == m.de && t.f & 0x01 == m.f & 0x01
            && (forall i | 0 <= i < k - 1 :: m.mem[Onward(b, m.hl, i)] != m.a)
            && (k < m.bc ==> m.mem[Onward(b, m.hl, k - 1)] == m.a)
            && (t.f & 0x40 != 0 <==> m.mem[Onward(b, m.hl, k - 1)] == m.a)
            && (t.f & PARITY != 0 <==> t.bc != 0)
    decreases m.bc
  {
    hide Step, Onward, Refreshed;
    CompareStep(b, m);
    CarryBit(m.f, Step(b, m).f);
    var t := Step(b, m);
    AheadOnward(b, m.hl, 0);
    AheadNext(b, m.hl, Onward(b, m.hl, 0));
    OnwardNext(b, m.hl, 0);
    AheadOnward(b, t.hl, 0);
    AheadNext(b, t.hl, Onward(b, t.hl, 0));
    if !Last(b, m) {
      StopsPastFirst(b, t);
      var k := m.bc - Whole(b, m).machine.bc;
      OnwardNext(b, m.hl, k - 1);
      OnwardNext(b, m.hl, k - 2);
      forall i | 0 <= i < k - 1
        ensures m.mem[Onward(b, m.hl, i)] != m.a
      {
        if i > 0 {
          OnwardNext(b, m.hl, i - 1);
        }
      }
    }
  }

  lemma CarryBit(f: bv8, g: bv8)
    requires g & 0x03 == 0x02 | (f & 0x01)
    ensures g & 0x01 == f & 0x01
  {
  }

  /** How many rounds a budget allows. */
  function Allowed(budget: int): int {
    if budget <= 21 then 1 else (budget + 20) / 21
  }

  /** With a count of zero or less the count is never found to run out. */
  lemma {:induction false} NeverRunsOut(b: Block, m: Machine, elapsed: int, number: int)
    requires b.copying && Valid(m) && m.bc <= 0
    ensures var o := Chunk(b, m, elapsed, number);
            !o.finished && o.machine.bc == m.bc - Allowed(number - elapsed)
    decreases number - elapsed
  {
    hide Step;
    StepCounts(b, m);
    var t := Step(b, m);
    if elapsed + 21 < number {
      NeverRunsOut(b, t, elapsed + 21, number);
      assert Allowed(number - elapsed) == Allowed(number - elapsed - 21) + 1;
    }
  }

  /**
   A count register of zero should stand for 65536 rounds. It does if and only if the first call
   is stopped by its budget before that many; a larger budget copies more than was asked for.
   */
  lemma ZeroCountIff(b: Block, m: Machine, number: int)
    requires b.copying && Valid(m) && m.bc == 0
    ensures var o := Chunk(b, m, 0, number);
            var left := Truncated(o.machine).bc;
            && !o.finished
            && (left >= 1 && -o.machine.bc + left == SIZE <==> number <= 21 * (SIZE - 1))
  {
    hide Chunk;
    NeverRunsOut(b, m, 0, number);
    AllowedFew(number);
    CountLeft(Allowed(number));
  }

  /** A search with a count of zero or less goes on to the first byte equal to A, if there is one k
      bytes on, or until its budget is used up. */
  lemma {:induction false} SearchesOn(b: Block, m: Machine, elapsed: int, number: int, k: nat)
    requires !b.copying && Valid(m) && m.bc <= 0
    requires m.mem[Onward(b, m.hl, k)] == m.a
    ensures var o := Chunk(b, m, elapsed, number);
            var rounds := m.bc - o.machine.bc;
            1 <= rounds <= (if o.finished then k + 1 else k)
    decreases k
  {
    hide Step, Onward;
    CompareStep(b, m);
    var t := Step(b, m);
    AheadOnward(b, m.hl, 0);
    AheadNext(b, m.hl, Onward(b, m.hl, 0));
    if !Last(b, m) && elapsed + 21 < number {
      OnwardNext(b, m.hl, k - 1);
      SearchesOn(b, t, elapsed + 21, number, k - 1);
    }
  }

  /** If no byte is equal to A, only its budget stops it. */
  lemma {:induction false} SearchesInVain(b: Block, m: Machine, elapsed: int, number: int)
    requires !b.copying && Valid(m) && m.bc <= 0 && m.a !in m.mem
    ensures var o := Chunk(b, m, elapsed, number);
            !o.finished && o.machine.bc == m.bc - Allowed(number - elapsed)
    decreases number - elapsed
  {
    hide Step;
    CompareStep(b, m);
    assert m.mem[m.hl] in m.mem;
    if elapsed + 21 < number {
      SearchesInVain(b, Step(b, m), elapsed + 21, number);
      assert Allowed(number - elapsed) == Allowed(number - elapsed - 21) + 1;
    }
  }

  /**
   A search with a count register of zero does, or leaves to be done, 65536 rounds in all if and only
   if some byte of memory is equal to A, or the first call is stopped before that many rounds.
   */
  lemma ZeroSearchIff(b: Block, m: Machine, number: int)
    requires !b.copying && Valid(m) && m.bc == 0
    ensures var o := Chunk(b, m, 0, number);
            var left := Truncated(o.machine).bc;
            (o.finished || left >= 1) && -o.machine.bc + left == SIZE
            <==> m.a in m.mem || number <= 21 * (SIZE - 1)
  {
    hide Chunk;
    AllowedFew(number);
    if m.a in m.mem {
      var x :| 0 <= x < SIZE && m.mem[x] == m.a;
      var k := Ahead(b, m.hl, x);
      OnwardAhead(b, m.hl, x);
      SearchesOn(b, m, 0, number, k);
      CountLeft(-Chunk(b, m, 0, number).machine.bc);
    } else {
      SearchesInVain(b, m, 0, number);
      CountLeft(Allowed(number));
    }
  }

  lemma OnwardAhead(b: Block, from: int, x: int)
    requires 0 <= from < SIZE && 0 <= x < SIZE
    ensures Onward(b, from, Ahead(b, from, x)) == x
  {
  }

  /** The terminal's budget, for example, is far beyond that. */
  lemma ZeroCountOverruns(b: Block, m: Machine)
    requires b.copying && Valid(m) && m.bc == 0
    ensures !Chunk(b, m, 0, 500_000_000).finished && -Chunk(b, m, 0, 500_000_000).machine.bc > SIZE
  {
    hide Chunk;
    NeverRunsOut(b, m, 0, 500_000_000);
  }

  lemma AllowedFew(number: int)
    ensures Allowed(number) >= 1
    ensures Allowed(number) < SIZE <==> number <= 21 * (SIZE - 1)
  {
  }

  lemma CountLeft(rounds: int)
    requires rounds >= 1
    ensures -rounds % SIZE >= 1 && rounds + -rounds % SIZE == SIZE <==> rounds < SIZE
    ensures rounds == SIZE ==> -rounds % SIZE == 0
  {
    if rounds < SIZE {
      assert -rounds + SIZE == (-rounds + SIZE) % SIZE;
    }
  }
}
