/**
 The memory of a new process: process_map_memory (src/kernel/task/process.c:116-150).
 */
module ProcessMemory {
  import opened Status
  import opened Paging
  import opened AddressSpaces

  const PROGRAM_BASE_VIRT_ADDR: nat := 0x40_0000
  const PROGRAM_STACK_TOP_VIRT_ADDR: nat := 0x400_0000
  const PROGRAM_STACK_SIZE: nat := 4096

  /** The fields of struct process that matter here. `memory` and `stack` are kernel
      addresses that kzalloc has returned. */
  class Process {
    var memory: nat
    var memorySize: nat
    var stack: nat
    var pageDirectory: Handle?

    constructor (memory: nat, memorySize: nat, stack: nat)
      ensures this.memory == memory && this.memorySize == memorySize && this.stack == stack && pageDirectory == null
    {
      this.memory, this.memorySize, this.stack, pageDirectory := memory, memorySize, stack, null;
    }
  }

  /** A page-aligned block of memory inside the kernel's window. */
  predicate InWindow(a: nat, size: nat) {
    a % PAGE_SIZE == 0 && KERNEL_VIRTUAL_BASE <= a < KERNEL_VIRTUAL_BASE + LARGE_PAGE_SIZE
    && a + size <= KERNEL_VIRTUAL_BASE + LARGE_PAGE_SIZE
  }

  /** The kernel maps every page of its window. */
  ghost predicate WindowMapped(kernelView: seq<Entry>) {
    && |kernelView| == PAGES
    && forall p | KERNEL_SLOT * ENTRIES <= p < (KERNEL_SLOT + 1) * ENTRIES :: Present(kernelView[p])
  }

  /** The slots of the program's code and stack. */
  const FIRST_PROGRAM_SLOT: nat := 1
  const END_PROGRAM_SLOT: nat := 17

  /** `size` bytes are the same physical bytes at `here` in one view and at `there` in another. */
  ghost predicate SameBytes(view: seq<Entry>, here: nat, other: seq<Entry>, there: nat, size: nat) {
    forall a | here <= a < here + size ::
      Translate(view, a).Some? && Translate(view, a) == Translate(other, there + (a - here))
  }

  lemma ShownTwice(view: seq<Entry>, here: nat, other: seq<Entry>, there: nat, phys: nat, size: nat)
    requires Shows(view, here, phys, size) && Shows(other, there, phys, size)
    ensures SameBytes(view, here, other, there, size)
  {
    forall a | here <= a < here + size
      ensures Translate(view, a) == Translate(other, there + (a - here))
    {
      assert Translate(other, there + (a - here)) == Some(phys + (a - here));
    }
  }

  /** The kernel's own view of its window. */
  lemma KernelShows(m: Machine, a: nat, size: nat)
    requires m.WindowOk() && m.current == m.kernel && m.Good(m.kernel) && InWindow(a, size)
    requires WindowMapped(m.kernel.View())
    ensures Shows(m.kernel.View(), a, a - KERNEL_VIRTUAL_BASE, size)
  {
    forall b | a <= b < a + size
      ensures Translate(m.kernel.View(), b) == Some(b - KERNEL_VIRTUAL_BASE)
    {
      assert KERNEL_SLOT * ENTRIES <= b / PAGE_SIZE < (KERNEL_SLOT + 1) * ENTRIES;
      m.KernelAgrees(m.kernel, b);
      m.WindowIsLinear(b);
    }
  }

  lemma {:induction false} KernelNeedsNoCopy(m: Machine, n: nat)
    requires n <= RECURSIVE_SLOT
    ensures CopiesNeeded(m, m.kernel, n) == 0
  {
    if n > 0 {
      KernelNeedsNoCopy(m, n - 1);
    }
  }

  /** The slots lo to hi - 1 hold no table. */
  ghost predicate Vacant(h: Handle, lo: nat, hi: nat)
    requires lo <= hi <= ENTRIES
    reads h
  {
    forall d | lo <= d < hi :: h.tables[d] == null
  }

  /** A kernel's block of memory, shown to a process at `virt`: what process_map_memory does
      for the code and again for the stack. */
  method MapBlock(m: Machine, directory: Handle, virt: nat, block: nat, size: nat, ghost lo: nat, ghost hi: nat, ghost space: set<Handle>)
    returns (res: int)
    requires Isolated(m, space) && directory in space && directory != m.kernel
    requires InWindow(block, size) && WindowMapped(m.kernel.View())
    requires virt == lo * LARGE_PAGE_SIZE && lo < hi <= RECURSIVE_SLOT && virt + size <= hi * LARGE_PAGE_SIZE
    requires Vacant(directory, lo, hi) && hi - lo <= |m.free|
    modifies m`ram, m`free, directory`tables, directory.directory
    ensures Isolated(m, space) && res == 0 && |m.free| >= |old(m.free)| - (hi - lo)
    ensures forall g | g in space && g != directory :: g.View() == old(g.View())
    ensures directory.View() == Mapped(old(directory.View()), virt / PAGE_SIZE,
              (block - KERNEL_VIRTUAL_BASE) / PAGE_SIZE, Align(size) / PAGE_SIZE, 7)
    ensures Shows(directory.View(), virt, block - KERNEL_VIRTUAL_BASE, size)
    ensures forall d | 0 <= d < ENTRIES && !(lo <= d < hi) :: directory.tables[d] == old(directory.tables[d])
  {
    hide Mapped, Handle.View, Isolated, Shows, WindowMapped, Translate, Align, FirstSlot, EndSlot, Machine.PagesToMap;
    KernelOf(m, space);
    m.WindowIsLinear(block);
    var begin := m.VirtualToPhysical(m.current, block);
    var end := Align(begin + size);
    ghost var count := Align(size) / PAGE_SIZE;
    BlockPages(virt, begin, size, lo, hi);
    assert m.TablesIn(directory, lo, EndSlot(virt, count)) == {};
    ghost var view := directory.View();
    var flags := PAGING_WRITABLE_PAGE + PAGING_ACCESS_FROM_ALL + PAGING_PRESENT;
    res := MapInto(m, directory, virt, begin, end, flags, space);
    MappedShows(view, virt, begin, count, flags, size);
  }

  lemma KernelOf(m: Machine, space: set<Handle>)
    requires Isolated(m, space)
    ensures m.WindowOk() && m.current == m.kernel && m.Good(m.kernel) && m.kernel in space
  {}

  /** The pages of an aligned block, and the slots they lie in. */
  lemma BlockPages(virt: nat, begin: nat, size: nat, lo: nat, hi: nat)
    requires virt == lo * LARGE_PAGE_SIZE && lo < hi <= RECURSIVE_SLOT && virt + size <= hi * LARGE_PAGE_SIZE
    requires begin % PAGE_SIZE == 0
    ensures var count := Align(size) / PAGE_SIZE;
            && Machine.PagesToMap(virt, begin, Align(begin + size)) == count
            && size <= count * PAGE_SIZE && virt + count * PAGE_SIZE <= hi * LARGE_PAGE_SIZE
            && FirstSlot(virt) == lo <= EndSlot(virt, count) <= hi
    ensures virt % PAGE_SIZE == 0 && Align(begin + size) == begin + Align(size) && Align(size) % PAGE_SIZE == 0
  {
    hide *;
    WholePages(lo);
    WholePages(hi - lo);
    AlignUp(size);
    AlignShift(begin, size);
    AlignBelow(size, (hi - lo) * LARGE_PAGE_SIZE);
    var count := Align(size) / PAGE_SIZE;
    assert Align(size) == count * PAGE_SIZE;
    SlotsWithin(virt, count, lo, hi);
    PagesOf(virt, begin, count);
  }

  lemma WholePages(n: nat)
    ensures n * LARGE_PAGE_SIZE % PAGE_SIZE == 0
  {}

  lemma PagesOf(virt: nat, begin: nat, count: nat)
    requires virt % PAGE_SIZE == 0 && begin % PAGE_SIZE == 0
    ensures Machine.PagesToMap(virt, begin, begin + count * PAGE_SIZE) == count
  {}

  /** The least page boundary from an address on. */
  lemma AlignUp(a: nat)
    ensures Align(a) % PAGE_SIZE == 0 && a <= Align(a) < a + PAGE_SIZE
  {}

  lemma AlignShift(begin: nat, a: nat)
    requires begin % PAGE_SIZE == 0
    ensures Align(begin + a) == begin + Align(a) && Align(begin + a) % PAGE_SIZE == 0
  {}

  lemma AlignBelow(a: nat, b: nat)
    requires a <= b && b % PAGE_SIZE == 0
    ensures Align(a) <= b
  {}

  lemma SlotsWithin(virt: nat, count: nat, lo: nat, hi: nat)
    requires virt == lo * LARGE_PAGE_SIZE && lo < hi <= RECURSIVE_SLOT && virt + count * PAGE_SIZE <= hi * LARGE_PAGE_SIZE
    ensures FirstSlot(virt) == lo <= EndSlot(virt, count) <= hi
  {}

  /** What paging_init leaves behind, a process can be built on. MapMemory keeps it so. */
  lemma ReadyAfterInit(m: Machine)
    requires m.Sound(m.kernel) && m.current == m.kernel
    requires IsInitialView(m.kernel.View()) && m.OnlyInitialTables()
    ensures Isolated(m, {m.kernel}) && WindowMapped(m.kernel.View())
    ensures Vacant(m.kernel, FIRST_PROGRAM_SLOT, END_PROGRAM_SLOT)
  {
    var view := m.kernel.View();
    forall p | KERNEL_SLOT * ENTRIES <= p < (KERNEL_SLOT + 1) * ENTRIES
      ensures Present(view[p])
    {
      assert view[p] == InitialEntry(p);
    }
  }

  /** The kernel's view with the pages of a program and of its stack. */
  ghost function ProcessView(kernelView: seq<Entry>, code: nat, size: nat, stack: nat): seq<Entry> {
    Mapped(Mapped(kernelView, PROGRAM_BASE_VIRT_ADDR / PAGE_SIZE, code / PAGE_SIZE, Align(size) / PAGE_SIZE, 7),
           PROGRAM_STACK_TOP_VIRT_ADDR / PAGE_SIZE, stack / PAGE_SIZE, 1, 7)
  }

  lemma AlignedStack()
    ensures Align(PROGRAM_STACK_SIZE) == PROGRAM_STACK_SIZE
  {}

  /** process_map_memory, against the functions that specify it. Neither mapping can be refused
      here: the blocks are aligned and not reversed. */
  method MapBoth(m: Machine, process: Process, ghost space: set<Handle>) returns (res: int)
    requires Isolated(m, space) && |m.free| > END_PROGRAM_SLOT - FIRST_PROGRAM_SLOT
    requires InWindow(process.memory, process.memorySize) && InWindow(process.stack, PROGRAM_STACK_SIZE)
    requires PROGRAM_BASE_VIRT_ADDR + process.memorySize <= PROGRAM_STACK_TOP_VIRT_ADDR
    requires WindowMapped(m.kernel.View()) && Vacant(m.kernel, FIRST_PROGRAM_SLOT, END_PROGRAM_SLOT)
    modifies m`ram, m`free, process`pageDirectory
    ensures res == 0 && process.pageDirectory != null && fresh(process.pageDirectory)
    ensures Isolated(m, space + {process.pageDirectory})
    ensures forall g | g in space :: g.View() == old(g.View())
    ensures |m.free| >= |old(m.free)| - 1 - (END_PROGRAM_SLOT - FIRST_PROGRAM_SLOT)
    ensures WindowMapped(m.kernel.View()) && Vacant(m.kernel, FIRST_PROGRAM_SLOT, END_PROGRAM_SLOT)
    ensures process.pageDirectory.View() ==
              ProcessView(m.kernel.View(), process.memory - KERNEL_VIRTUAL_BASE, process.memorySize, process.stack - KERNEL_VIRTUAL_BASE)
    ensures SameBytes(process.pageDirectory.View(), PROGRAM_BASE_VIRT_ADDR, m.kernel.View(), process.memory, process.memorySize)
    ensures SameBytes(process.pageDirectory.View(), PROGRAM_STACK_TOP_VIRT_ADDR, m.kernel.View(), process.stack, PROGRAM_STACK_SIZE)
  {
    hide Mapped, Handle.View, Isolated, Shows, WindowMapped, Translate, SameBytes, Align;
    AlignedStack();
    KernelOf(m, space);
    KernelNeedsNoCopy(m, RECURSIVE_SLOT);
    var directory := CloneInto(m, m.kernel, space);
    process.pageDirectory := directory;
    ghost var all := space + {directory};
    ghost var stackSlot := END_PROGRAM_SLOT - 1;

    res := MapBlock(m, directory, PROGRAM_BASE_VIRT_ADDR, process.memory, process.memorySize, FIRST_PROGRAM_SLOT, stackSlot, all);
    ghost var view := directory.View();
    res := MapBlock(m, directory, PROGRAM_STACK_TOP_VIRT_ADDR, process.stack, PROGRAM_STACK_SIZE, stackSlot, END_PROGRAM_SLOT, all);

    ghost var code, stack := process.memory - KERNEL_VIRTUAL_BASE, process.stack - KERNEL_VIRTUAL_BASE;
    StillShows(view, PROGRAM_BASE_VIRT_ADDR, code, process.memorySize, PROGRAM_STACK_TOP_VIRT_ADDR / PAGE_SIZE, stack / PAGE_SIZE, 1, 7);
    KernelOf(m, all);
    KernelShows(m, process.memory, process.memorySize);
    KernelShows(m, process.stack, PROGRAM_STACK_SIZE);
    ShownTwice(directory.View(), PROGRAM_BASE_VIRT_ADDR, m.kernel.View(), process.memory, code, process.memorySize);
    ShownTwice(directory.View(), PROGRAM_STACK_TOP_VIRT_ADDR, m.kernel.View(), process.stack, stack, PROGRAM_STACK_SIZE);
  }

  /** The view of a new process, page by page and address by address. */
  lemma ProcessPages(view: seq<Entry>, kernelView: seq<Entry>, memory: nat, size: nat, stack: nat)
    requires |kernelView| == PAGES && InWindow(memory, size) && InWindow(stack, PROGRAM_STACK_SIZE)
    requires PROGRAM_BASE_VIRT_ADDR + size <= PROGRAM_STACK_TOP_VIRT_ADDR
    requires view == ProcessView(kernelView, memory - KERNEL_VIRTUAL_BASE, size, stack - KERNEL_VIRTUAL_BASE)
    requires SameBytes(view, PROGRAM_BASE_VIRT_ADDR, kernelView, memory, size)
    requires SameBytes(view, PROGRAM_STACK_TOP_VIRT_ADDR, kernelView, stack, PROGRAM_STACK_SIZE)
    ensures var codePages := (size + 4095) / 4096;
            && |view| == PAGES
            && (forall p | 0x400 <= p < 0x400 + codePages ::
                  p < PAGES && view[p] == Entry((memory - 0xC000_0000) / 4096 + (p - 0x400), 7))
            && view[0x4000] == Entry((stack - 0xC000_0000) / 4096, 7)
            && (forall p | 0 <= p < PAGES && !(0x400 <= p < 0x400 + codePages) && p != 0x4000 :: view[p] == kernelView[p])
    ensures forall a | 0x40_0000 <= a < 0x40_0000 + size ::
              Translate(view, a).Some? && Translate(view, a) == Translate(kernelView, memory + (a - 0x40_0000))
    ensures forall a | 0x400_0000 <= a < 0x400_1000 ::
              Translate(view, a).Some? && Translate(view, a) == Translate(kernelView, stack + (a - 0x400_0000))
  {
    hide Translate;
    AlignBelow(size, PROGRAM_STACK_TOP_VIRT_ADDR - PROGRAM_BASE_VIRT_ADDR);
  }

  /** process_map_memory. In the process's directory the program's code and stack addresses
      lead to the same bytes as the kernel's addresses of that memory do, every other page is
      the kernel's, and no translation of the kernel or of another process changes. */
  method MapMemory(m: Machine, process: Process, ghost space: set<Handle>) returns (res: int)
    requires Isolated(m, space) && |m.free| > END_PROGRAM_SLOT - FIRST_PROGRAM_SLOT
    requires InWindow(process.memory, process.memorySize) && InWindow(process.stack, PROGRAM_STACK_SIZE)
    requires PROGRAM_BASE_VIRT_ADDR + process.memorySize <= PROGRAM_STACK_TOP_VIRT_ADDR
    requires WindowMapped(m.kernel.View()) && Vacant(m.kernel, FIRST_PROGRAM_SLOT, END_PROGRAM_SLOT)
    modifies m`ram, m`free, process`pageDirectory
    ensures res == 0 && process.pageDirectory != null && fresh(process.pageDirectory)
    ensures Isolated(m, space + {process.pageDirectory})
    ensures forall g | g in space :: g.View() == old(g.View())
    ensures |m.free| >= |old(m.free)| - 1 - (END_PROGRAM_SLOT - FIRST_PROGRAM_SLOT)
    ensures WindowMapped(m.kernel.View()) && Vacant(m.kernel, FIRST_PROGRAM_SLOT, END_PROGRAM_SLOT)
    ensures SameBytes(process.pageDirectory.View(), PROGRAM_BASE_VIRT_ADDR, m.kernel.View(), process.memory, process.memorySize)
    ensures SameBytes(process.pageDirectory.View(), PROGRAM_STACK_TOP_VIRT_ADDR, m.kernel.View(), process.stack, PROGRAM_STACK_SIZE)
    ensures var view, codePages := process.pageDirectory.View(), (process.memorySize + 4095) / 4096;
            && (forall p | 0x400 <= p < 0x400 + codePages ::
                  p < PAGES && view[p] == Entry((process.memory - 0xC000_0000) / 4096 + (p - 0x400), 7))
            && view[0x4000] == Entry((process.stack - 0xC000_0000) / 4096, 7)
            && (forall p | 0 <= p < PAGES && !(0x400 <= p < 0x400 + codePages) && p != 0x4000 ::
                  view[p] == m.kernel.View()[p])
    ensures forall a | 0x40_0000 <= a < 0x40_0000 + process.memorySize ::
              && Translate(process.pageDirectory.View(), a).Some?
              && Translate(process.pageDirectory.View(), a) == Translate(m.kernel.View(), process.memory + (a - 0x40_0000))
    ensures forall a | 0x400_0000 <= a < 0x400_1000 ::
              && Translate(process.pageDirectory.View(), a).Some?
              && Translate(process.pageDirectory.View(), a) == Translate(m.kernel.View(), process.stack + (a - 0x400_0000))
  {
    hide *;
    KernelOf(m, space);
    res := MapBoth(m, process, space);
    ProcessPages(process.pageDirectory.View(), m.kernel.View(), process.memory, process.memorySize, process.stack);
  }
}
