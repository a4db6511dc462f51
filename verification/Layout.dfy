/** The memory map and the constants of the bootloader. */
module Layout {

  const PAGE_SIZE: nat := 0x4000
  const BLOCK_SIZE: nat := 16
  const BLOCKS: nat := 0x400  // blocks in a page
  const PACKET_SIZE: nat := 64
  const BOOTLOADER_SIZE: nat := 2 * PAGE_SIZE
  const TWO_TO_THE_32: nat := 0x1_0000_0000

  newtype byte = x: int | 0 <= x < 256

  const ERASED: byte := 0xFF
  const BOOTLOADER_MAGIC: nat := 0x424F_4F54

  // struct bootloader_info, packed
  const START_ADDRESS_FIELD: nat := 8
  const LENGTH_FIELD: nat := 12
  const CHECKSUM_FIELD: nat := 16
  const INFO_SIZE: nat := 32

  /** Where things live, in whole pages and words. The numbers stay abstract: every statement of the
      project holds for every page-aligned, disjoint layout inside a 32-bit address space. */
  datatype MemoryMap = MemoryMap(bootloaderPage: nat, appPage: nat, endPage: nat, infoWord: nat)
  {
    predicate Sound() {
      && PAGE_SIZE * bootloaderPage + BOOTLOADER_SIZE <= PAGE_SIZE * appPage < PAGE_SIZE * endPage <= 0xFFFF_0000
      && 4 * infoWord + INFO_SIZE <= PAGE_SIZE
    }
  }

  type SoundMap = m: MemoryMap | m.Sound() witness MemoryMap(0x4000, 0x4002, 0x40C0, 0x60)

  const MAP: SoundMap
  const BOOTLOADER_START: nat := PAGE_SIZE * MAP.bootloaderPage
  const APP_START: nat := PAGE_SIZE * MAP.appPage
  const FLASH_END: nat := PAGE_SIZE * MAP.endPage
  const INFO_OFFSET: nat := 4 * MAP.infoWord

  /** The first byte after the embedded header: a shorter stream carries no complete header. */
  const MINIMUM_SIZE: nat := INFO_OFFSET + INFO_SIZE
  const CHECKSUM_OFFSET: nat := INFO_OFFSET + CHECKSUM_FIELD

  // ---------- Pages ----------

  /** Where the `k`-th page begins, counting from address zero. */
  function PageStart(k: nat): nat {
    PAGE_SIZE * k
  }

  ghost predicate Aligned(n: nat) {
    exists k: nat :: n == PageStart(k)
  }

  /** The page boundaries are zero and those a page beyond another. */
  lemma AlignedStep(n: nat)
    ensures Aligned(0)
    ensures Aligned(n + PAGE_SIZE) <==> Aligned(n)
  {
    assert PageStart(0) == 0;
    if Aligned(n) {
      var k: nat :| n == PageStart(k);
      assert n + PAGE_SIZE == PageStart(k + 1);
    }
    if Aligned(n + PAGE_SIZE) {
      var k: nat :| n + PAGE_SIZE == PageStart(k);
      assert n == PageStart(k - 1);
    }
  }

  /** The page an address belongs to (`address & ~(PAGE_SIZE - 1)`). */
  function PageOf(address: nat): (page: nat)
    ensures page <= address < page + PAGE_SIZE
    ensures Aligned(page)
  {
    AlignedStep(if address < PAGE_SIZE then 0 else PageOf(address - PAGE_SIZE));
    if address < PAGE_SIZE then 0 else PageOf(address - PAGE_SIZE) + PAGE_SIZE
  }

  /** The first page boundary at or after `n`. */
  function PageEnd(n: nat): (end: nat)
    ensures n <= end < n + PAGE_SIZE
    ensures Aligned(end)
  {
    PageOf(n + PAGE_SIZE - 1)
  }

  lemma {:induction false} PageOfMasks(address: nat)
    ensures PageOf(address) == address - address % PAGE_SIZE
  {
    if address >= PAGE_SIZE {
      PageOfMasks(address - PAGE_SIZE);
    }
  }

  lemma PageOfAligned(n: nat)
    requires Aligned(n)
    ensures PageOf(n) == n
  {
    PageOfWithin(n, 0);
  }

  lemma PageOfWithin(n: nat, offset: nat)
    requires Aligned(n) && offset < PAGE_SIZE
    ensures PageOf(n + offset) == n
  {
    var page := PageOf(n + offset);
    if page < n {
      AlignedGap(page, n);
    } else if n < page {
      AlignedGap(n, page);
    }
  }

  lemma AlignedSum(a: nat, b: nat)
    requires Aligned(a) && Aligned(b)
    ensures Aligned(a + b)
  {
    var i: nat, j: nat :| a == PageStart(i) && b == PageStart(j);
    assert a + b == PageStart(i + j);
  }

  /** Distinct page boundaries are at least a page apart. */
  lemma AlignedGap(a: nat, b: nat)
    requires Aligned(a) && Aligned(b) && a < b
    ensures a + PAGE_SIZE <= b
  {
    var i: nat, j: nat :| a == PageStart(i) && b == PageStart(j);
    assert i < j;
  }

  lemma MultipleAligned(k: nat)
    ensures Aligned(PAGE_SIZE * k)
  {
    assert PAGE_SIZE * k == PageStart(k);
  }

  lemma StartsAligned()
    ensures Aligned(BOOTLOADER_START) && Aligned(APP_START) && Aligned(FLASH_END)
  {
    MultipleAligned(MAP.bootloaderPage);
    MultipleAligned(MAP.appPage);
    MultipleAligned(MAP.endPage);
  }

  /** Addition of the C type uint32_t, for operands of that type. */
  function Add32(x: nat, y: nat): nat {
    if x + y < TWO_TO_THE_32 then x + y else x + y - TWO_TO_THE_32
  }
}
