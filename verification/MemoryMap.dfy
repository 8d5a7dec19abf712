/** The fixed layout of the kernel's address space (shared/shared_data/src/constants.rs). */
module MemoryMap {
  const KERNEL_CODE_BASE := 0xFFFF_FFFF_CAFE_0000
  const TRAMPOLINE_ADDR := 0xFFFF_FFFF_CAFC_8000

  /** Physical memory is visible linearly from this virtual address on. */
  const WINDOW_BASE := 0xFFFF_FEFF_C000_0000
  const WINDOW_SIZE := 0x100_0000_0000

  /** Dynamic virtual allocations start here, with a guard gap after each. */
  const VMEM_BASE := WINDOW_BASE - (0x100_0000_0000 + GUARD)
  const GUARD := 0x8000

  predicate InWindow(x: int) { WINDOW_BASE <= x < WINDOW_BASE + WINDOW_SIZE }

  /** The constants are those that the source computes, and the regions do not overlap. */
  lemma RegionsInOrder()
    ensures TRAMPOLINE_ADDR == KERNEL_CODE_BASE - (GUARD + 0x1_0000) && TRAMPOLINE_ADDR % 0x1000 == 0
    ensures WINDOW_BASE == (TRAMPOLINE_ADDR - (WINDOW_SIZE + GUARD)) / 0x4000_0000 * 0x4000_0000
    ensures VMEM_BASE < WINDOW_BASE && WINDOW_BASE + WINDOW_SIZE <= TRAMPOLINE_ADDR < KERNEL_CODE_BASE
  {
  }
}
