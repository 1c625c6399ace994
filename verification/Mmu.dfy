/** How the processor uses page tables (IA-32, section 3.7 of its system programming guide; the
    kernel sets the write-protect bit of CR0 in threads/start.S): the meaning that the entries
    written by userprog/pagedir.c have for the hardware. */
module Mmu {
  type Word = x: int | 0 <= x < 0x1_0000_0000 witness 0

  /** The pages that hold directories and tables, by their kernel virtual addresses, which are
      3 GB above the physical ones. */
  type Tables = map<Word, seq<Word>>

  /** What comes of an access to a virtual address: a fault, or a byte of memory, which the kernel
      may read, the user may read if user is set, and each may then write if writable is. */
  datatype Access = Fault | Byte(physical: int, user: bool, writable: bool)

  predicate UserReads(a: Access) {
    a.Byte? && a.user
  }

  predicate UserWrites(a: Access) {
    a.Byte? && a.user && a.writable
  }

  /** Entry i of the page at an address. */
  function WordAt(tables: Tables, page: int, i: int): Word {
    if 0 <= page < 0x1_0000_0000 && page in tables && 0 <= i < |tables[page]| then tables[page][i] else 0
  }

  /** The walk through directory d and the page table in its entry. Bit 0 of an entry says that
      it is present; bit 1 allows writes, and bit 2 users, if it is set in both entries. */
  function Walk(tables: Tables, d: Word, va: Word): Access {
    var pde := WordAt(tables, d, va / 4194304);
    var pte := WordAt(tables, pde - pde % 4096 + 0xc000_0000, va / 4096 % 1024);
    if pde % 2 == 0 || pte % 2 == 0 then Fault
    else Byte(pte - pte % 4096 + va % 4096, pde / 4 % 2 == 1 && pte / 4 % 2 == 1, pde / 2 % 2 == 1 && pte / 2 % 2 == 1)
  }
}
