/** Normalisation of the blur extent `smooth_outline` to an odd kernel size. */
module Smoothing {

  /** Odd in Python's sense: `k % 2 == 1`. Python's `%` floors and Dafny's is Euclidean; for divisor 2 they agree. */
  predicate IsOdd(k: int) {
    k % 2 == 1
  }

  /** An odd value is kept, an even one is raised by one: the smallest odd integer not below the input. */
  function OddKernel(s: int): (r: int)
    ensures IsOdd(r) && s <= r
    ensures forall k :: IsOdd(k) && s <= k ==> r <= k
  {
    if s % 2 == 1 then s else s + 1
  }

  /** Normalisation keeps exactly the odd inputs, moves every other input up by one, and is idempotent. */
  lemma OddKernelFacts(s: int)
    ensures OddKernel(s) == s <==> IsOdd(s)
    ensures !IsOdd(s) ==> OddKernel(s) == s + 1
    ensures OddKernel(OddKernel(s)) == OddKernel(s)
  {
  }

  /** Examples: 0 becomes 1, 4 becomes 5, and 0 and 1 give the same kernel. */
  lemma OddKernelExamples()
    ensures OddKernel(0) == 1 && OddKernel(1) == 1 && OddKernel(4) == 5 && OddKernel(5) == 5
  {
  }
}
