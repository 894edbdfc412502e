/** Sections of guest memory, as the memory listener hands them to vhost. */
module VhostSection {

  const TWO64 := 0x1_0000_0000_0000_0000

  type U64 = n: nat | n < TWO64

  /** A RAM memory region: its host address and the page size of its block, a power of two. */
  datatype MemoryRegion = MemoryRegion(id: nat, hostBase: nat, page: nat)

  /** A section: its region, guest address, offset inside the region, and size. */
  datatype Section = Section(mr: MemoryRegion, gpa: U64, off: nat, size: nat)
}
