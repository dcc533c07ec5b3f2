/** Extended core storage and its flag register, on values. */
module ExtendedStorage {
  import opened Arithmetic
  import opened OnesComplement
  import opened Words

  /** The bit of an ECS address that selects the flag register. */
  const ECS_FLAG_BIT := 0x80_0000

  predicate AddressesFlags(address: nat) {
    address / ECS_FLAG_BIT % 2 == 1
  }

  /** What an address asks of the flag register, and of which of its flags. */
  function FlagFunction(address: nat): nat {
    address / 0x20_0000 % 8
  }

  function FlagWord(address: nat): bv18 {
    (address % TWO18) as bv18
  }

  /**
   The layout of an address that is for the flag register: its function in bits 21 to 23, of which the
   highest says that it is one, and its flags in the low 18 bits.
   */
  lemma FlagAddress(above: nat, code: nat, between: nat, flags: nat)
    requires code < 8 && flags < TWO18 && between < 8
    ensures var address := above * TWO24 + code * 0x20_0000 + between * TWO18 + flags;
            && FlagFunction(address) == code && FlagWord(address) == flags as bv18
            && (AddressesFlags(address) <==> code >= 4)
  {
    var address := above * TWO24 + code * 0x20_0000 + between * TWO18 + flags;
    DivIs(address, 0x20_0000, above * 8 + code);
    RemainderOf(address, TWO18, (above * 8 + code) * 8 + between);
    DivIs(address, ECS_FLAG_BIT, above * 2 + code / 4);
  }

  function Common(a: bv18, b: bv18): bv18 { a & b }
  function Either(a: bv18, b: bv18): bv18 { a | b }
  function Without(a: bv18, b: bv18): bv18 { a & !b }

  /** The flag register's functions: select, set, test and clear. A select or a test that finds
      one of its flags set is refused. */
  function Flagged(register: bv18, flagFunction: nat, flagWord: bv18): (bool, bv18) {
    match flagFunction
    case 4 => if Common(register, flagWord) != 0 then (false, register) else (true, Either(register, flagWord))
    case 5 => (true, Either(register, flagWord))
    case 6 => (Common(register, flagWord) == 0, register)
    case 7 => (true, Without(register, flagWord))
    case _ => (true, register)
  }

  predicate IsFlag(flag: bv18) {
    || flag == 0x1 || flag == 0x2 || flag == 0x4 || flag == 0x8 || flag == 0x10 || flag == 0x20
    || flag == 0x40 || flag == 0x80 || flag == 0x100 || flag == 0x200 || flag == 0x400 || flag == 0x800
    || flag == 0x1000 || flag == 0x2000 || flag == 0x4000 || flag == 0x8000 || flag == 0x1_0000 || flag == 0x2_0000
  }

  predicate Has(register: bv18, flag: bv18) {
    Common(register, flag) != 0
  }

  lemma WholeFlag(a: bv18, flag: bv18)
    requires IsFlag(flag)
    ensures (Common(a, flag) == 0 || Common(a, flag) == flag) && flag != 0
  {
  }

  lemma EitherFlag(a: bv18, b: bv18, flag: bv18)
    ensures Common(a, flag) == 0 ==> Common(Either(a, b), flag) == Common(b, flag)
    ensures Common(a, flag) == flag ==> Common(Either(a, b), flag) == flag
  {
  }

  lemma WithoutFlag(a: bv18, b: bv18, flag: bv18)
    ensures Common(b, flag) == 0 ==> Common(Without(a, b), flag) == Common(a, flag)
    ensures Common(b, flag) == flag ==> Common(Without(a, b), flag) == 0
  {
  }

  lemma NoCommonFlag(a: bv18, b: bv18, flag: bv18)
    requires Common(a, b) == 0 && Common(a, flag) == flag && Common(b, flag) == flag
    ensures flag == 0
  {
  }

  lemma FlagsCombine(a: bv18, b: bv18, flag: bv18)
    requires IsFlag(flag)
    ensures Has(Either(a, b), flag) <==> Has(a, flag) || Has(b, flag)
    ensures Has(Without(a, b), flag) <==> Has(a, flag) && !Has(b, flag)
    ensures Common(a, b) == 0 ==> !(Has(a, flag) && Has(b, flag))
  {
    hide Common, Either, Without, IsFlag;
    WholeFlag(a, flag);
    WholeFlag(b, flag);
    EitherFlag(a, b, flag);
    WithoutFlag(a, b, flag);
    if Common(a, b) == 0 && Common(a, flag) == flag && Common(b, flag) == flag {
      NoCommonFlag(a, b, flag);
    }
  }

  /** Flag by flag: a select or a test is accepted if no flag asked for is set; accepted, a select or a set
      adds the flags asked for, a clear takes them away, and nothing else changes any. */
  lemma FlagByFlag(register: bv18, code: nat, flags: bv18, flag: bv18)
    requires code < 8 && IsFlag(flag)
    ensures var (accepted, after) := Flagged(register, code, flags);
            && (Has(after, flag) <==>
                  if code == 5 || (code == 4 && accepted) then Has(register, flag) || Has(flags, flag)
                  else if code == 7 then Has(register, flag) && !Has(flags, flag)
                  else Has(register, flag))
            && (accepted && (code == 4 || code == 6) ==> !(Has(register, flag) && Has(flags, flag)))
            && (!accepted ==> (code == 4 || code == 6) && Has(register, flags))
  {
    hide Has, Common, Either, Without, IsFlag;
    FlagsCombine(register, flags, flag);
    HasIs(register, flags);
  }

  lemma HasIs(a: bv18, b: bv18)
    ensures Common(a, b) != 0 <==> Has(a, b)
  {
  }

  lemma EitherHas(register: bv18, flags: bv18, others: bv18)
    requires Common(others, flags) != 0
    ensures Common(Either(register, flags), others) != 0
  {
  }

  lemma WithoutAdded(register: bv18, flags: bv18)
    requires Common(register, flags) == 0
    ensures Without(Either(register, flags), flags) == register
  {
  }

  /** A flag that has been selected cannot be selected again until it is cleared, which leaves
      the register as it was. */
  lemma SelectExcludes(register: bv18, flags: bv18, others: bv18)
    requires Flagged(register, 4, flags).0
    ensures var held := Flagged(register, 4, flags).1;
            && (Common(others, flags) != 0 ==> Flagged(held, 4, others) == (false, held) && !Flagged(held, 6, others).0)
            && Flagged(held, 7, flags) == (true, register)
  {
    hide Common, Either, Without;
    WithoutAdded(register, flags);
    if Common(others, flags) != 0 {
      EitherHas(register, flags, others);
    }
  }

  datatype Ecs = Ecs(mem: seq<Word>, flags: bv18)

  /** Writing one word to an absolute address, and whether that fails. */
  function PutWord(e: Ecs, address: nat, w: Word): (Ecs, bool) {
    if AddressesFlags(address) then
      var (accepted, flags) := Flagged(e.flags, FlagFunction(address), FlagWord(address));
      (e.(flags := flags), !accepted)
    else if address < |e.mem| then (e.(mem := e.mem[address := w]), false)
    else (e, true)
  }

  /** Writing words one after another until one fails. */
  function PutWords(e: Ecs, start: nat, words: seq<Word>): (Ecs, bool)
    decreases |words|
  {
    if words == [] then (e, false)
    else
      var (e', failed) := PutWord(e, start, words[0]);
      if failed then (e', true) else PutWords(e', start + 1, words[1..])
  }

  /** How many words of a block lie within ECS. */
  function Fitting(size: nat, start: nat, count: nat): nat {
    if start + count <= size then count else if start <= size then size - start else 0
  }

  /** A write does not get to the addresses of the flag register: its first word beyond ECS, if it
      has one, has an address without their bit. */
  predicate StaysInEcs(size: nat, start: nat, count: nat) {
    start + count <= size || !AddressesFlags(if start <= size then size else start)
  }

  /** Such a write stores the words that fit and nothing else, and fails if there are others. */
  lemma {:induction false} PutWordsFit(e: Ecs, start: nat, words: seq<Word>)
    requires |e.mem| <= ECS_FLAG_BIT && StaysInEcs(|e.mem|, start, |words|)
    ensures var n := Fitting(|e.mem|, start, |words|);
            PutWords(e, start, words) == (e.(mem := Blit(e.mem, start, words[..n])), n < |words|)
    decreases |words|
  {
    var n := Fitting(|e.mem|, start, |words|);
    if words == [] || start >= |e.mem| {
      assert words[..n] == [];
    } else {
      var e' := e.(mem := e.mem[start := words[0]]);
      assert !AddressesFlags(start);
      PutWordsFit(e', start + 1, words[1..]);
      BlitFirst(e.mem, start, words[..n]);
      assert words[..n][1..] == words[1..][..n - 1];
    }
  }

  function EcsWord(ecs: seq<Word>, address: nat): Word {
    if address < |ecs| then ecs[address] else 0
  }

  /** The words a block read fetches: beyond the end of ECS they are zero. */
  function EcsWords(ecs: seq<Word>, address: nat, count: nat): (words: seq<Word>)
    ensures |words| == count
  {
    seq<Word>(count, i requires 0 <= i => EcsWord(ecs, address + i))
  }

  /** `mem` with `words` stored from `start` on. */
  function Blit(mem: seq<Word>, start: nat, words: seq<Word>): (r: seq<Word>)
    requires words == [] || start + |words| <= |mem|
    ensures |r| == |mem|
  {
    if words == [] then mem else mem[..start] + words + mem[start + |words|..]
  }

  lemma BlitFirst(mem: seq<Word>, start: nat, words: seq<Word>)
    requires words != [] && start + |words| <= |mem|
    ensures Blit(mem[start := words[0]], start + 1, words[1..]) == Blit(mem, start, words)
  {
  }

  lemma BlitOneMore(mem: seq<Word>, start: nat, ecs: seq<Word>, address: nat, j: nat)
    requires start + j < |mem|
    ensures Blit(mem, start, EcsWords(ecs, address, j + 1))
            == Blit(mem, start, EcsWords(ecs, address, j))[start + j := EcsWord(ecs, address + j)]
  {
  }
}
