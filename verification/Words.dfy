/** Machine integers of the kernel: unsigned values of a fixed width. */
module Words {
  const TWO_TO_THE_16: int := 0x1_0000
  const TWO_TO_THE_32: int := 0x1_0000_0000

  type u16 = x: int | 0 <= x < TWO_TO_THE_16
  type u32 = x: int | 0 <= x < TWO_TO_THE_32

  /** What a kernel function does: it returns, or a failed assertion halts the machine. */
  datatype Outcome<+T> = Panic | Return(value: T)

  /** 32-bit addition, which wraps. */
  function Add32(x: u32, y: int): u32 {
    (x + y) % TWO_TO_THE_32
  }

  /** What a 32-bit counter shows after counting `n` things. */
  function Wrap32(n: nat): u32 {
    n % TWO_TO_THE_32
  }

  lemma CountMoved(used: u32, n: nat)
    ensures Wrap32(Add32(used, -1) + (n + 1)) == Wrap32(used + n)
    ensures n > 0 ==> Wrap32(Add32(used, 1) + (n - 1)) == Wrap32(used + n)
  {
  }

  lemma WrappedSum(x: nat, y: u32)
    requires x < TWO_TO_THE_32
    ensures Wrap32(x + y) == if x + y < TWO_TO_THE_32 then x + y else x + y - TWO_TO_THE_32
  {
  }

  lemma CountUp(n: nat)
    ensures Add32(Wrap32(n), 1) == Wrap32(n + 1)
  {
  }

  lemma CountDown(n: nat)
    requires n > 0
    ensures Add32(Wrap32(n), -1) == Wrap32(n - 1)
  {
  }

  lemma CountBoth(used: u32, total: u32, n: nat)
    requires Wrap32(used + n) == total
    ensures Wrap32(Add32(used, 1) + n) == Add32(total, 1)
    ensures Add32(Add32(used, 1), -1) == used
  {
  }

  lemma CountFrom(start: u32, n: nat)
    ensures Add32(Wrap32(start + n), 1) == Wrap32(start + (n + 1))
    ensures Wrap32(start + 0) == start
  {
  }
}
