/** 32-bit machine words, and results that may be missing. */
module Machine {

  datatype Option<T> = None | Some(value: T)

  /** 2 to the 32: the size of the address space, and the modulus of word arithmetic. */
  const MEM: nat := 0x1_0000_0000

  const PAGE: nat := 4096

  type Word = x: nat | x < MEM

  /** 32-bit addition. */
  function Add(a: Word, k: Word): Word {
    if a + k < MEM then a + k else a + k - MEM
  }

  /** What a 32-bit counter holds after n increments. */
  function Wrap(n: nat): Word {
    n % MEM
  }

  lemma WrapAdd(n: nat, k: nat)
    ensures Wrap(Wrap(n) + k) == Wrap(n + k)
    ensures Add(Wrap(n), 1) == Wrap(n + 1)
    ensures n < MEM ==> Wrap(n) == n
  {
  }

  /** 32-bit subtraction. */
  function Sub(a: Word, k: Word): Word {
    if a >= k then a - k else a + MEM - k
  }
}
