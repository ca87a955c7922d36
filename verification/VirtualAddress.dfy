/** Address arithmetic and the kernel's virtual memory layout (kernel/common/va.h).
    Masks and shifts by constants are written as division and remainder by the same power of two. */
module VirtualAddress {
  import opened Arithmetic

  const PAGE_SIZE: nat := 0x1000

  /** Lower and upper bound of the hole between the two canonical halves of the 48-bit address space. */
  const LOW_HALF_END: nat := 0x8000_0000_0000
  const HIGH_HALF: nat := 0xffff_8000_0000_0000

  predicate IsPageAligned(address: nat) {
    address % PAGE_SIZE == 0
  }

  function SizeToPages(size: nat): (pages: nat)
    // The least number of pages that holds size bytes.
    ensures pages * PAGE_SIZE >= size
    ensures pages > 0 ==> (pages - 1) * PAGE_SIZE < size
  {
    size / PAGE_SIZE + (if size % PAGE_SIZE != 0 then 1 else 0)
  }

  datatype Region = Region(base: nat, size: nat) {
    function End(): nat { base + size }

    function PageCount(): nat { SizeToPages(size) }

    predicate Contains(address: nat) { base <= address < base + size }
  }

  const KERNEL_IMAGE := Region(0xffff_ffff_8000_0000, 0x100_0000)
  const KERNEL_PT := Region(KERNEL_IMAGE.End(), 0x100_0000)
  const DEVICES := Region(KERNEL_PT.End(), 0x100_0000)
  const FRAME_BUFFER := Region(DEVICES.End(), 0x400_0000)
  const KERNEL_POOL := Region(FRAME_BUFFER.End(), 0x10_0000)
  const UEFI := Region(KERNEL_POOL.End(), 0x1000_0000)
  const BACK_BUFFER := Region(UEFI.End(), 0x400_0000)

  const REGIONS: seq<Region> := [KERNEL_IMAGE, KERNEL_PT, DEVICES, FRAME_BUFFER, KERNEL_POOL, UEFI, BACK_BUFFER]

  /** The addresses covered by the seven kernel regions together. */
  const KVA_BASE: nat := 0xffff_ffff_8000_0000
  const KVA_END: nat := 0xffff_ffff_9b10_0000

  predicate InKva(address: nat) {
    KVA_BASE <= address < KVA_END
  }

  /** The address occurs in the 48-bit canonical address space. */
  predicate Canonical(address: nat) {
    address < LOW_HALF_END || HIGH_HALF <= address < WORD
  }

  /** [base, base + count pages) lies in one canonical half. */
  predicate CanonicalRange(base: nat, count: nat) {
    base + count * PAGE_SIZE <= LOW_HALF_END || (HIGH_HALF <= base && base + count * PAGE_SIZE <= WORD)
  }

  predicate InRange(address: nat, base: nat, count: nat) {
    base <= address < base + count * PAGE_SIZE
  }

  /** The regions fill the kernel window and are disjoint. */
  lemma RegionsTileKva(address: nat)
    ensures InKva(address) <==>
            KERNEL_IMAGE.Contains(address) || KERNEL_PT.Contains(address) || DEVICES.Contains(address) ||
            FRAME_BUFFER.Contains(address) || KERNEL_POOL.Contains(address) || UEFI.Contains(address) ||
            BACK_BUFFER.Contains(address)
    ensures KVA_BASE == KERNEL_IMAGE.base && BACK_BUFFER.End() == KVA_END
    ensures forall r, s | r in REGIONS && s in REGIONS && r != s :: !(r.Contains(address) && s.Contains(address))
  {
  }
}
