/** Alignment arithmetic shared by the snapshot format and its size checks:
    every record of the auth-table file is padded up to a multiple of 8 bytes. */
module Padding {

  /** Raise `n` to the next multiple of 8 (unchanged when it already is one). */
  function Next8(n: nat): (r: nat)
    ensures r % 8 == 0
    ensures n <= r < n + 8
    ensures r == n <==> n % 8 == 0
  {
    if n % 8 != 0 then n + (8 - n % 8) else n
  }

  /** The number of zero bytes appended after `n` bytes of record. */
  function PadLen(n: nat): (p: nat)
    ensures p < 8
    ensures (n + p) % 8 == 0
    ensures p == 0 <==> n % 8 == 0
  {
    Next8(n) - n
  }

  /** Next8 of a multiple of 8 is that multiple, so Next8 is idempotent. */
  lemma Next8Idempotent(n: nat)
    ensures Next8(Next8(n)) == Next8(n)
  {
  }

  /** Next8 is the least multiple of 8 that is at least n. */
  lemma Next8Least(n: nat, m: nat)
    requires m % 8 == 0 && n <= m
    ensures Next8(n) <= m
  {
  }

  /** Next8 is monotone. */
  lemma Next8Monotone(a: nat, b: nat)
    requires a <= b
    ensures Next8(a) <= Next8(b)
  {
    Next8Least(a, Next8(b));
  }

  /** Adding a multiple of 8 commutes with Next8, which is why the offsets of
      consecutive records stay aligned. */
  lemma Next8Shift(k: nat, n: nat)
    requires k % 8 == 0
    ensures Next8(k + n) == k + Next8(n)
  {
    assert (k + n) % 8 == n % 8;
  }
}
