/** The flags of memory requests. */
module MemoryFlags {

  /** (gfp_flags & GFP_KERNEL) == GFP_KERNEL, with GFP_KERNEL the second bit. */
  predicate HasKernel(gfpFlags: nat) { gfpFlags / 2 % 2 == 1 }

  /** Which requests those are: the other flags do not matter, and neither flag alone of them is enough. */
  lemma KernelFlag(gfpFlags: nat)
    ensures HasKernel(2) && !HasKernel(0) && !HasKernel(1) && !HasKernel(4)
    ensures HasKernel(gfpFlags + 4) == HasKernel(gfpFlags)
    ensures gfpFlags % 2 == 0 ==> HasKernel(gfpFlags + 1) == HasKernel(gfpFlags)
    ensures gfpFlags / 2 % 2 == 0 ==> HasKernel(gfpFlags + 2) && !HasKernel(gfpFlags)
  {
  }
}
