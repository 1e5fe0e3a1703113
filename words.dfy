/**
 * Arithmetic on `size_t` / `std::uint64_t` counters, which wrap modulo 2^64.
 * The message reference count (`std::atomic<size_t>`) and the console callback
 * counter (`std::uint64_t`) both use it.
 */
module Words {

  const WORD_MODULUS: nat := 0x1_0000_0000_0000_0000

  /** A value a 64-bit unsigned counter can hold. */
  type Word = x: int | 0 <= x < WORD_MODULUS

  /** `++x` on a 64-bit unsigned counter. */
  function Inc(x: Word): (r: Word)
    ensures x + 1 < WORD_MODULUS ==> r == x + 1
    ensures x + 1 == WORD_MODULUS ==> r == 0
  {
    if x + 1 == WORD_MODULUS then 0 else x + 1
  }

  /** `--x` on a 64-bit unsigned counter: decrementing zero wraps to the largest value. */
  function Dec(x: Word): (r: Word)
    ensures x > 0 ==> r == x - 1
    ensures x == 0 ==> r == WORD_MODULUS - 1
  {
    if x == 0 then WORD_MODULUS - 1 else x - 1
  }

  /** The counter after `k` increments starting from `x`. */
  function AddWrapped(x: Word, k: nat): Word
  {
    if k == 0 then x else Inc(AddWrapped(x, k - 1))
  }

  /** The counter after `k` decrements starting from `x`. */
  function SubWrapped(x: Word, k: nat): Word
  {
    if k == 0 then x else Dec(SubWrapped(x, k - 1))
  }

  /** `k` increments add `k` modulo 2^64. */
  lemma {:induction false} AddWrappedIsModular(x: Word, k: nat)
    ensures AddWrapped(x, k) == (x + k) % WORD_MODULUS
  {
    if k > 0 {
      AddWrappedIsModular(x, k - 1);
    }
  }

  /** `k` decrements subtract `k` modulo 2^64. */
  lemma {:induction false} SubWrappedIsModular(x: Word, k: nat)
    ensures SubWrapped(x, k) == (x - k) % WORD_MODULUS
  {
    if k > 0 {
      SubWrappedIsModular(x, k - 1);
    }
  }

  lemma IncIsAddOne(x: Word, k: nat)
    ensures Inc(AddWrapped(x, k)) == AddWrapped(x, k + 1)
  {
  }

  lemma DecIsSubOne(x: Word, k: nat)
    ensures Dec(SubWrapped(x, k)) == SubWrapped(x, k + 1)
  {
  }

  lemma DecUndoesInc(x: Word)
    ensures Dec(Inc(x)) == x
  {
  }

  lemma {:induction false} AddWrappedTwice(x: Word, a: nat, b: nat)
    ensures AddWrapped(AddWrapped(x, a), b) == AddWrapped(x, a + b)
  {
    if b > 0 {
      AddWrappedTwice(x, a, b - 1);
    }
  }
}
