/** Page-table geometry (core/common/vmm.h): 39-bit addresses, 4 KB pages, 14-bit L2 index. */
module Geometry {
  import opened Results

  const PAGE_SIZE: nat := 4096
  const ADDRESS_SPACE_SIZE: nat := 0x80_0000_0000
  const TOTAL_PAGES: nat := 0x800_0000
  const L1_ENTRIES: nat := 8192
  const L2_ENTRIES: nat := 16384
  const L2_CAPACITY: nat := 256

  const PERM_NONE: nat := 0
  const PERM_R: nat := 1
  const PERM_W: nat := 2
  const PERM_RW: nat := 3
  const PERM_RX: nat := 5
  const PERM_ALL: nat := 7

  function Vpn(gva: nat): nat {
    gva / PAGE_SIZE
  }

  function PageOffset(gva: nat): nat {
    gva % PAGE_SIZE
  }

  function Slot(vpn: nat): nat {
    vpn / L2_ENTRIES
  }

  function Index(vpn: nat): nat {
    vpn % L2_ENTRIES
  }

  predicate PageAligned(value: nat) {
    value % PAGE_SIZE == 0
  }

  predicate ValidPageRange(gva: nat, size: nat) {
    PageAligned(gva) && PageAligned(size) && size > 0 &&
    gva < ADDRESS_SPACE_SIZE && size <= ADDRESS_SPACE_SIZE - gva
  }

  predicate ValidByteRange(gva: nat, size: nat) {
    size > 0 && gva < ADDRESS_SPACE_SIZE && size <= ADDRESS_SPACE_SIZE - gva
  }

  /** `(have & want) == want` on the three permission bits. */
  predicate PermsCover(have: nat, want: nat) {
    && (want % 2 == 1 ==> have % 2 == 1)
    && (want / 2 % 2 == 1 ==> have / 2 % 2 == 1)
    && (want / 4 % 2 == 1 ==> have / 4 % 2 == 1)
  }
}
