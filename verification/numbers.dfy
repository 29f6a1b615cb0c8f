/** The two pieces of JavaScript number arithmetic the todo store relies on:
    `Math.max(...ids)`, which yields `-Infinity` for no arguments, and
    `Math.ceil(n / k)` on a non-negative count and a positive page size. */
module Numbers {

  /** An integer extended with the `-Infinity` that `Math.max()` returns
      when it is given no arguments. */
  datatype ExtInt = NegInfinity | Finite(n: int)

  /** `x + 1` on an extended integer: `-Infinity + 1` stays `-Infinity`. */
  function Succ(x: ExtInt): ExtInt
  {
    match x
    case NegInfinity => NegInfinity
    case Finite(n) => Finite(n + 1)
  }

  /** `Math.max(...xs)`: the largest element, or `-Infinity` for none. */
  function Max(xs: seq<int>): (m: ExtInt)
    ensures m.NegInfinity? <==> |xs| == 0
    ensures m.Finite? ==> m.n in xs
    ensures m.Finite? ==> forall x :: x in xs ==> x <= m.n
  {
    if |xs| == 0 then NegInfinity
    else
      assert xs == [xs[0]] + xs[1..];
      match Max(xs[1..])
      case NegInfinity => Finite(xs[0])
      case Finite(rest) => Finite(if xs[0] < rest then rest else xs[0])
  }

  /** `Math.ceil(n / k)`: the least number of pages of `k` entries that
      hold `n` entries. */
  function CeilDiv(n: nat, k: int): (q: nat)
    requires k >= 1
    ensures q * k >= n
    ensures n > 0 ==> (q - 1) * k < n
    ensures q == 0 <==> n == 0
  {
    (n + k - 1) / k
  }
}
