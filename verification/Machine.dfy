/**
 Constants and number types of the 32-bit target, shared by every layer.
 A frame and a 4 KB page have 0x1000 bytes, a 4 MB page 0x40_0000.
 */
module Machine {
  type Byte = x: int | 0 <= x < 0x100
  type Word = x: int | 0 <= x < 0x1_0000_0000

  /** Virtual address at which physical memory 0..8MB is visible (SYSTEM_ADDR_BASE). */
  const SYSTEM_BASE: int := 0xC000_0000

  /** Virtual and physical start of the frame records (FRAMES_START_VADDR, FRAMES_START_PADDR). */
  const META_VADDR: int := 0xC080_0000
  const META_PADDR: int := 0x0080_0000

  /** First byte of the kernel data segment: 0xc08000000 narrowed to 32 bits. */
  const HEAP_BASE: int := 0x0800_0000

  /** Smallest number of pages that holds `bytes` bytes. */
  function PagesFor(bytes: int): (r: int)
    requires 0 <= bytes
    ensures 0 <= r && bytes <= r * 0x1000 < bytes + 0x1000
  {
    bytes / 0x1000 + if bytes % 0x1000 > 0 then 1 else 0
  }
}
