/** Indexes into a circular buffer. */
module Rings {
  import opened Arithmetic

  function NextIndex(i: int, size: int): int {
    if i + 1 == size then 0 else i + 1
  }

  lemma NextIndexIs(n: nat, size: nat)
    requires size > 0
    ensures NextIndex(n % size, size) == (n + 1) % size
  {
    var q := n / size;
    assert n == q * size + n % size;
    if n % size + 1 == size {
      assert n + 1 == (q + 1) * size;
      RemainderOf(n + 1, size, q + 1);
    } else {
      RemainderOf(n + 1, size, q);
    }
  }
}
