/**
 Two-level paging: src/memory/paging.c. A directory is held twice, as the words the
 processor walks and as kernel pointers to its tables; tables may be shared.

 A word is a 20-bit frame number with 12 flag bits, the bit-fields of struct
 page_table_entry. For a page-aligned address and flags below 0x1000, `address | flags` is
 Entry(address / 4096, flags); OrIsEntry proves it on 32-bit words.
 */
module Paging {
  import opened Status

  const PAGE_SIZE: nat := 4096
  const ENTRIES: nat := 1024
  const LARGE_PAGE_SIZE: nat := 0x40_0000
  const ADDRESS_SPACE: nat := 0x1_0000_0000
  const KERNEL_VIRTUAL_BASE: nat := 0xC000_0000
  const KERNEL_SLOT: nat := 768
  const RECURSIVE_SLOT: nat := 1023
  const RECURSIVE_BASE: nat := 0xFFC0_0000

  const PAGING_PRESENT: nat := 1
  const PAGING_WRITABLE_PAGE: nat := 2
  const PAGING_ACCESS_FROM_ALL: nat := 4

  /** The pages below the recursive slot, by page number. */
  const PAGES: nat := RECURSIVE_SLOT * ENTRIES

  datatype Entry = Entry(frame: nat, flags: nat)

  const NoEntry := Entry(0, 0)

  predicate Present(e: Entry) { e.flags % 2 == 1 }

  /** PAGE_ENTRY_PSE_BIT. */
  predicate LargePage(e: Entry) { e.flags / 0x80 % 2 == 1 }

  /** Flags of an ordinary present page. */
  predicate PageFlags(flags: nat) {
    flags < PAGE_SIZE && flags % 2 == 1 && flags / 0x80 % 2 == 0
  }

  lemma OrIsEntry(address: bv32, flags: bv32)
    requires address & 0xFFF == 0 && flags & 0xFFFF_F000 == 0
    ensures (address | flags) & 0xFFFF_F000 == address && (address | flags) & 0xFFF == flags
  {}

  function DirectoryIndex(a: nat): nat { a / LARGE_PAGE_SIZE }

  function TableIndex(a: nat): nat { a / PAGE_SIZE % ENTRIES }

  type Words = s: seq<Entry> | |s| == ENTRIES witness seq(ENTRIES, _ => NoEntry)

  /** A page of kernel memory that holds a directory or a table. Its physical frame is fixed;
      the kernel sees it in the window at KERNEL_VIRTUAL_BASE. */
  class Page {
    const frame: nat
    var words: Words

    constructor (frame: nat)
      ensures this.frame == frame && words == seq(ENTRIES, _ => NoEntry)
    {
      this.frame := frame;
      words := seq(ENTRIES, _ => NoEntry);
    }

    function VirtualAddress(): nat {
      KERNEL_VIRTUAL_BASE + frame * PAGE_SIZE
    }
  }

  /** BOOT_PAGE_DIRECTORY (src/kernel/kernel.asm): large pages, present and writable. */
  function BootWords(): Words {
    seq(ENTRIES, i => if i == 0 || i == KERNEL_SLOT then Entry(0, 0x83) else NoEntry)
  }

  type Tables = s: seq<Page?> | |s| == ENTRIES witness seq(ENTRIES, _ => null)

  /** struct page_directory_handle: `tables` is directory_virtual. */
  class Handle {
    var directory: Page
    var tables: Tables

    constructor (directory: Page)
      ensures this.directory == directory && tables == seq(ENTRIES, _ => null)
    {
      this.directory := directory;
      tables := seq(ENTRIES, _ => null);
    }

    /** The word for a page; no word where there is no table. */
    ghost function Lookup(page: nat): Entry
      requires page < PAGES
      reads this, tables
    {
      var table := tables[page / ENTRIES];
      if table == null then NoEntry else table.words[page % ENTRIES]
    }

    /** All translations below the recursive slot. */
    ghost function View(): (v: seq<Entry>)
      reads this, tables
      ensures |v| == PAGES
    {
      seq(PAGES, page requires 0 <= page < PAGES reads this, tables => Lookup(page))
    }
  }

  /** What a view makes of an address. */
  ghost function Translate(view: seq<Entry>, a: nat): Option<nat> {
    var page := a / PAGE_SIZE;
    if page < |view| && Present(view[page]) then Some(view[page].frame * PAGE_SIZE + a % PAGE_SIZE) else None
  }

  /** The processor's walk (Intel SDM Vol. 3A, section 4.3, 32-Bit Paging) through the words
      held by physical memory; `pse` is CR4.PSE. */
  ghost function HardwareWalk(memory: map<nat, Words>, cr3: nat, pse: bool, a: nat): Option<nat>
    requires a < ADDRESS_SPACE
  {
    if cr3 !in memory then None
    else
      var pde := memory[cr3][DirectoryIndex(a)];
      if !Present(pde) then None
      else if pse && LargePage(pde) then
        Some(pde.frame / ENTRIES * LARGE_PAGE_SIZE + a % LARGE_PAGE_SIZE)
      else if pde.frame !in memory then None
      else
        var pte := memory[pde.frame][TableIndex(a)];
        if Present(pte) then Some(pte.frame * PAGE_SIZE + a % PAGE_SIZE) else None
  }

  /** A view with n pages from v on mapped to the frames from f on. */
  ghost function Mapped(view: seq<Entry>, v: nat, f: nat, n: nat, flags: nat): (r: seq<Entry>)
    ensures |r| == |view|
  {
    seq(|view|, p requires 0 <= p < |view| => if v <= p < v + n then Entry(f + (p - v), flags) else view[p])
  }

  lemma MappedAt(view: seq<Entry>, v: nat, f: nat, n: nat, flags: nat)
    ensures forall p | 0 <= p < |view| && !(v <= p < v + n) :: Mapped(view, v, f, n, flags)[p] == view[p]
    ensures forall p | 0 <= p < |view| && v <= p < v + n :: Mapped(view, v, f, n, flags)[p] == Entry(f + (p - v), flags)
  {}

  /** From `from` on, a view shows the `size` bytes that lie at physical address `phys`. */
  ghost predicate Shows(view: seq<Entry>, from: nat, phys: nat, size: nat) {
    forall a | from <= a < from + size :: Translate(view, a) == Some(phys + (a - from))
  }

  /** Mapped pages translate to the frames they were mapped to. */
  lemma MappedShows(view: seq<Entry>, virt: nat, phys: nat, count: nat, flags: nat, size: nat)
    requires |view| == PAGES && virt % PAGE_SIZE == 0 && phys % PAGE_SIZE == 0 && flags % 2 == 1
    requires virt + count * PAGE_SIZE <= RECURSIVE_BASE && size <= count * PAGE_SIZE
    ensures Shows(Mapped(view, virt / PAGE_SIZE, phys / PAGE_SIZE, count, flags), virt, phys, size)
  {
    var v, f := virt / PAGE_SIZE, phys / PAGE_SIZE;
    forall a | virt <= a < virt + size
      ensures Translate(Mapped(view, v, f, count, flags), a) == Some(phys + (a - virt))
    {
      assert a / PAGE_SIZE == v + (a - virt) / PAGE_SIZE && a % PAGE_SIZE == (a - virt) % PAGE_SIZE;
    }
  }

  /** Mapping pages elsewhere keeps what a view shows. */
  lemma StillShows(view: seq<Entry>, from: nat, phys: nat, size: nat, v: nat, f: nat, count: nat, flags: nat)
    requires Shows(view, from, phys, size)
    requires from + size <= v * PAGE_SIZE || (v + count) * PAGE_SIZE <= from
    ensures Shows(Mapped(view, v, f, count, flags), from, phys, size)
  {
    forall a | from <= a < from + size
      ensures Translate(Mapped(view, v, f, count, flags), a) == Some(phys + (a - from))
    {
      assert Translate(view, a) == Some(phys + (a - from));
    }
  }

  /** The first 4 MiB at 0 and at KERNEL_VIRTUAL_BASE, and nothing else. */
  ghost predicate IsInitialView(view: seq<Entry>) {
    && |view| == PAGES
    && forall p | 0 <= p < PAGES :: view[p] == InitialEntry(p)
  }

  function InitialEntry(p: nat): Entry {
    if p < ENTRIES then Entry(p, 3)
    else if KERNEL_SLOT * ENTRIES <= p < (KERNEL_SLOT + 1) * ENTRIES then Entry(p - KERNEL_SLOT * ENTRIES, 3)
    else NoEntry
  }

  /** It translates as the boot directory's two large pages do. */
  lemma SameAsBoot(frame: nat, view: seq<Entry>, a: nat)
    requires IsInitialView(view) && a < RECURSIVE_BASE
    ensures Translate(view, a) == HardwareWalk(map[frame := BootWords()], frame, true, a)
    ensures a < LARGE_PAGE_SIZE ==> Translate(view, a) == Some(a)
    ensures KERNEL_VIRTUAL_BASE <= a < KERNEL_VIRTUAL_BASE + LARGE_PAGE_SIZE ==> Translate(view, a) == Some(a - KERNEL_VIRTUAL_BASE)
    ensures 0x40_0000 <= a < 0xC000_0000 || 0xC040_0000 <= a ==> Translate(view, a) == None
  {
    var d := DirectoryIndex(a);
    assert BootWords()[d] == if d == 0 || d == KERNEL_SLOT then Entry(0, 0x83) else NoEntry;
    assert view[a / PAGE_SIZE] == InitialEntry(a / PAGE_SIZE);
  }

  lemma InitialMapping(view: seq<Entry>)
    requires view == Mapped(Mapped(seq(PAGES, _ => NoEntry), 0, 0, ENTRIES, 3), KERNEL_SLOT * ENTRIES, 0, ENTRIES, 3)
    ensures IsInitialView(view)
  {}

  /** paging_align_address. */
  function Align(a: nat): nat {
    PAGE_SIZE * ((a + (PAGE_SIZE - 1)) / PAGE_SIZE)
  }

  ghost predicate InRam(ram: map<nat, Page>, p: Page) {
    p.frame in ram && ram[p.frame] == p
  }

  /** Slot i is empty on both sides, or its word names the frame of its table. */
  ghost predicate SlotOk(ram: map<nat, Page>, h: Handle, i: nat)
    requires i < ENTRIES
    reads h, h.directory
  {
    var word, table := h.directory.words[i], h.tables[i];
    if table == null then word == NoEntry
    else InRam(ram, table) && word.frame == table.frame && PageFlags(word.flags)
  }

  /** The two sides of a directory agree, its tables are distinct pages, and its last slot is
      the directory itself. */
  ghost predicate Consistent(ram: map<nat, Page>, h: Handle)
    reads h, h.directory
  {
    && InRam(ram, h.directory)
    && h.tables[RECURSIVE_SLOT] == h.directory
    && (forall i | 0 <= i < ENTRIES :: SlotOk(ram, h, i))
    && (forall i, j | 0 <= i < j < ENTRIES :: h.tables[i] != null ==> h.tables[i] != h.tables[j])
  }

  /** More memory in use leaves a directory consistent. */
  lemma MoreRam(ram: map<nat, Page>, ram': map<nat, Page>, h: Handle)
    requires Consistent(ram, h) && forall f | f in ram :: f in ram' && ram'[f] == ram[f]
    ensures Consistent(ram', h)
  {
    forall i | 0 <= i < ENTRIES
      ensures SlotOk(ram', h, i)
    {
      assert SlotOk(ram, h, i);
    }
  }

  /** What a mapping is compared with: the state before it. */
  datatype Before = Before(ram: map<nat, Page>, tables: Tables, view: seq<Entry>, window: Page?, free: nat)

  class Machine {
    var ram: map<nat, Page>
    var free: seq<nat>
    var kernel: Handle
    var current: Handle
    var cr3: nat
    var pse: bool

    /** paging_init, on top of the boot directory: two large pages map the first 4 MiB at 0
        and at KERNEL_VIRTUAL_BASE. The new directory maps the same addresses to the same
        places, now page by page. */
    constructor PagingInit(boot: Page, free: seq<nat>)
      requires boot.words == BootWords() && boot.frame < ENTRIES && boot.frame !in free
      requires |free| >= 3 && (forall i | 0 <= i < |free| :: free[i] < ENTRIES)
      requires forall i, j | 0 <= i < j < |free| :: free[i] != free[j]
      ensures fresh(kernel) && fresh(kernel.directory) && current == kernel && cr3 == kernel.directory.frame && !pse
      ensures Sound(kernel)
      ensures IsInitialView(kernel.View()) && OnlyInitialTables() && |this.free| >= |free| - 3
      ensures forall a | 0 <= a < RECURSIVE_BASE ::
                HardwareWalk(Memory(), cr3, pse, a) == HardwareWalk(map[boot.frame := boot.words], boot.frame, true, a)
      ensures forall a | 0 <= a < 0xFFC0_0000 ::
                && (a < 0x40_0000 ==> HardwareWalk(Memory(), cr3, pse, a) == Some(a))
                && (0xC000_0000 <= a < 0xC040_0000 ==> HardwareWalk(Memory(), cr3, pse, a) == Some(a - 0xC000_0000))
                && (0x40_0000 <= a < 0xC000_0000 || 0xC040_0000 <= a ==> HardwareWalk(Memory(), cr3, pse, a) == None)
    {
      hide HardwareWalk, Translate, IsInitialView, Handle.View, Handle.Lookup, Consistent;
      var bootHandle := new Handle(boot);
      ram, cr3, pse := map[boot.frame := boot], boot.frame, true;
      this.free := free;
      kernel, current := bootHandle, bootHandle;
      new;
      EmptyKernelDirectory();
      MapFirstMegabytes();
      SwitchToKernel();
      InitialWalk(boot.frame);
    }

    /** The processor translates as it did through the boot directory. */
    lemma InitialWalk(bootFrame: nat)
      requires MemoryOk() && Good(kernel) && IsInitialView(kernel.View())
      ensures forall a | 0 <= a < RECURSIVE_BASE ::
                HardwareWalk(Memory(), kernel.directory.frame, pse, a)
                == HardwareWalk(map[bootFrame := BootWords()], bootFrame, true, a)
      ensures forall a | 0 <= a < 0xFFC0_0000 ::
                && (a < 0x40_0000 ==> HardwareWalk(Memory(), kernel.directory.frame, pse, a) == Some(a))
                && (0xC000_0000 <= a < 0xC040_0000 ==> HardwareWalk(Memory(), kernel.directory.frame, pse, a) == Some(a - 0xC000_0000))
                && (0x40_0000 <= a < 0xC000_0000 || 0xC040_0000 <= a ==> HardwareWalk(Memory(), kernel.directory.frame, pse, a) == None)
    {
      hide HardwareWalk, Translate, IsInitialView, Handle.View, Consistent;
      forall a | 0 <= a < RECURSIVE_BASE
        ensures HardwareWalk(Memory(), kernel.directory.frame, pse, a)
                == HardwareWalk(map[bootFrame := BootWords()], bootFrame, true, a)
        ensures
          && (a < 0x40_0000 ==> HardwareWalk(Memory(), kernel.directory.frame, pse, a) == Some(a))
          && (0xC000_0000 <= a < 0xC040_0000 ==> HardwareWalk(Memory(), kernel.directory.frame, pse, a) == Some(a - 0xC000_0000))
          && (0x40_0000 <= a < 0xC000_0000 || 0xC040_0000 <= a ==> HardwareWalk(Memory(), kernel.directory.frame, pse, a) == None)
      {
        HardwareAgrees(kernel, a);
        SameAsBoot(bootFrame, kernel.View(), a);
      }
    }

    /** paging_init: a directory whose last slot is itself. */
    method EmptyKernelDirectory()
      requires MemoryOk() && WindowOk() && free != []
      modifies this`ram, this`free, this`kernel
      ensures MemoryOk() && Good(kernel) && free == old(free)[1..]
      ensures fresh(kernel) && fresh(kernel.directory)
      ensures forall i | 0 <= i < RECURSIVE_SLOT :: kernel.tables[i] == null
    {
      var directory := AllocatePage();
      kernel := new Handle(directory);
      WindowIsLinear(directory.VirtualAddress());
      directory.words := directory.words[RECURSIVE_SLOT :=
        Entry(VirtualToPhysical(current, directory.VirtualAddress()) / PAGE_SIZE, PAGING_WRITABLE_PAGE + PAGING_PRESENT)];
      kernel.tables := kernel.tables[RECURSIVE_SLOT := kernel.directory];
      assert forall i | 0 <= i < ENTRIES :: SlotOk(ram, kernel, i);
    }

    /** paging_init: the first 4 MiB, identically and in the window. */
    method MapFirstMegabytes()
      requires Sound(kernel) && |free| >= 2
      requires forall i | 0 <= i < RECURSIVE_SLOT :: kernel.tables[i] == null
      requires current != kernel && current.directory != kernel.directory && WindowPage() != kernel.directory
      modifies this`ram, this`free, kernel`tables, kernel.directory
      ensures Sound(kernel) && IsInitialView(kernel.View()) && OnlyInitialTables() && |free| >= |old(free)| - 2
    {
      hide Mapped, Handle.View, Handle.Lookup, Consistent, WindowOk, MemoryOk, IsInitialView;
      EmptyView(kernel);
      assert TablesIn(kernel, 0, 1) == {};
      ghost var was := BeforeMapping(kernel);
      var _, news := MapFromTo(kernel, 0, 0, LARGE_PAGE_SIZE, PAGING_WRITABLE_PAGE + PAGING_PRESENT);
      assert PagesToMap(0, 0, LARGE_PAGE_SIZE) == ENTRIES && EndSlot(0, ENTRIES) == 1;
      assert Progress(kernel, was, news, 0, 0, ENTRIES, ENTRIES);
      forall i | 0 < i < RECURSIVE_SLOT
        ensures kernel.tables[i] == null
      {
        assert KeepsTable(kernel, i, was.tables[i], FirstSlot(0) <= i < EndSlot(0, ENTRIES), news);
      }
      ghost var between := kernel.tables;
      assert TablesIn(kernel, KERNEL_SLOT, KERNEL_SLOT + 1) == {};
      var _, more := MapFromTo(kernel, KERNEL_VIRTUAL_BASE, 0, LARGE_PAGE_SIZE, PAGING_WRITABLE_PAGE + PAGING_PRESENT);
      InitialMapping(kernel.View());
      forall i | 0 < i < RECURSIVE_SLOT && i != KERNEL_SLOT
        ensures kernel.tables[i] == null
      {
        assert KeepsTable(kernel, i, between[i], i == KERNEL_SLOT, more);
      }
    }

    lemma EmptyView(h: Handle)
      requires forall i | 0 <= i < RECURSIVE_SLOT :: h.tables[i] == null
      ensures h.View() == seq(PAGES, _ => NoEntry)
    {}

    /** No table below the recursive slot but those of the first 4 MiB. */
    ghost predicate OnlyInitialTables()
      reads this, kernel
    {
      forall i | 0 < i < RECURSIVE_SLOT && i != KERNEL_SLOT :: kernel.tables[i] == null
    }

    /** paging_init: CR3, large pages off, and the new directory becomes the current one. */
    method SwitchToKernel()
      requires MemoryOk() && Good(kernel) && IsInitialView(kernel.View())
      modifies this`cr3, this`pse, this`current
      ensures current == kernel && cr3 == kernel.directory.frame && !pse
      ensures Sound(kernel)
    {
      InitialWindow(kernel);
      cr3 := kernel.directory.words[RECURSIVE_SLOT].frame;
      pse := false;
      current := kernel;
      forall i | 0 <= i < ENTRIES
        ensures SlotOk(ram, kernel, i)
      {
        assert old(SlotOk(ram, kernel, i));
      }
    }

    /** The view paging_init builds maps the kernel's window. */
    lemma InitialWindow(h: Handle)
      requires Good(h) && IsInitialView(h.View())
      ensures h.directory.words[RECURSIVE_SLOT].frame == h.directory.frame
      ensures !LargePage(h.directory.words[KERNEL_SLOT])
      ensures var table := h.tables[KERNEL_SLOT];
              table != null && forall t | 0 <= t < ENTRIES :: table.words[t].frame == t
    {
      assert SlotOk(ram, h, RECURSIVE_SLOT) && SlotOk(ram, h, KERNEL_SLOT);
      assert h.View()[KERNEL_SLOT * ENTRIES] == h.Lookup(KERNEL_SLOT * ENTRIES) == Entry(0, 3);
      forall t | 0 <= t < ENTRIES
        ensures h.tables[KERNEL_SLOT] != null && h.tables[KERNEL_SLOT].words[t].frame == t
      {
        assert h.View()[KERNEL_SLOT * ENTRIES + t] == h.Lookup(KERNEL_SLOT * ENTRIES + t);
      }
    }

    // ---------- invariants ----------

    /** Pages are found under their own frames, in the part of memory the window shows; the
        frames kzalloc has left are others. */
    ghost predicate MemoryOk()
      reads this
    {
      && (forall f | f in ram :: ram[f].frame == f < ENTRIES)
      && (forall i | 0 <= i < |free| :: free[i] < ENTRIES && free[i] !in ram)
      && (forall i, j | 0 <= i < j < |free| :: free[i] != free[j])
    }

    ghost predicate Holds(p: Page)
      reads this
    {
      InRam(ram, p)
    }

    ghost function Memory(): map<nat, Words>
      reads this, ram.Values
    {
      map f | f in ram :: ram[f].words
    }

    ghost predicate Good(h: Handle)
      reads this, h, h.directory
    {
      Consistent(ram, h)
    }

    /** The invariants under which h can be mapped into. */
    ghost predicate Sound(h: Handle)
      reads this, h, h.directory, current, current.directory, current.tables
    {
      MemoryOk() && Good(h) && WindowOk()
    }

    ghost predicate KeepsPages(old_ram: map<nat, Page>)
      reads this
    {
      forall f | f in old_ram :: f in ram && ram[f] == old_ram[f]
    }

    /** The page that maps the kernel's window in the current directory. */
    ghost function WindowPage(): Page?
      reads this, current, current.directory
    {
      if LargePage(current.directory.words[KERNEL_SLOT]) then current.directory else current.tables[KERNEL_SLOT]
    }

    /** The current directory maps the window linearly, by one large page or by a table. */
    ghost predicate WindowOk()
      reads this, current, current.directory, current.tables
    {
      var word := current.directory.words[KERNEL_SLOT];
      if LargePage(word) then word.frame == 0 && pse
      else
        var table := current.tables[KERNEL_SLOT];
        table != null && forall t | 0 <= t < ENTRIES :: table.words[t].frame == t
    }

    // ---------- translations ----------

    /** virtual_to_physical_addr. */
    function VirtualToPhysical(h: Handle, a: nat): nat
      requires a < ADDRESS_SPACE
      requires LargePage(h.directory.words[DirectoryIndex(a)]) ==> pse
      requires !LargePage(h.directory.words[DirectoryIndex(a)]) ==> h.tables[DirectoryIndex(a)] != null
      reads this, h, h.directory, h.tables
    {
      var pde := h.directory.words[DirectoryIndex(a)];
      if LargePage(pde) then pde.frame * PAGE_SIZE + a % LARGE_PAGE_SIZE
      else h.tables[DirectoryIndex(a)].words[TableIndex(a)].frame * PAGE_SIZE + a % PAGE_SIZE
    }

    /** The processor, walking from the directory's own frame, translates every address
        below the recursive slot as the kernel's pointers do. */
    lemma HardwareAgrees(h: Handle, a: nat)
      requires MemoryOk() && Good(h) && a < RECURSIVE_BASE
      ensures HardwareWalk(Memory(), h.directory.frame, pse, a) == Translate(h.View(), a)
    {
      var page := a / PAGE_SIZE;
      assert page / ENTRIES == DirectoryIndex(a) && page % ENTRIES == TableIndex(a);
      assert SlotOk(ram, h, DirectoryIndex(a));
      assert h.View()[page] == h.Lookup(page);
    }

    /** The recursive slot shows table i at RECURSIVE_BASE + 4096 * i. */
    lemma RecursiveSlot(h: Handle, i: nat, offset: nat)
      requires MemoryOk() && Good(h) && i < ENTRIES && offset < PAGE_SIZE
      ensures var a := RECURSIVE_BASE + PAGE_SIZE * i + offset;
              HardwareWalk(Memory(), h.directory.frame, pse, a)
              == if h.tables[i] == null then None else Some(h.tables[i].frame * PAGE_SIZE + offset)
    {
      var a := RECURSIVE_BASE + PAGE_SIZE * i + offset;
      assert DirectoryIndex(a) == RECURSIVE_SLOT && TableIndex(a) == i && a % PAGE_SIZE == offset;
      assert SlotOk(ram, h, RECURSIVE_SLOT) && SlotOk(ram, h, i);
    }

    /** Where an address is mapped, virtual_to_physical_addr gives its translation. */
    lemma KernelAgrees(h: Handle, a: nat)
      requires Good(h) && a < RECURSIVE_BASE && Translate(h.View(), a).Some?
      ensures !LargePage(h.directory.words[DirectoryIndex(a)]) && h.tables[DirectoryIndex(a)] != null
      ensures Translate(h.View(), a) == Some(VirtualToPhysical(h, a))
    {
      var page := a / PAGE_SIZE;
      assert page / ENTRIES == DirectoryIndex(a) && page % ENTRIES == TableIndex(a);
      assert SlotOk(ram, h, DirectoryIndex(a));
      assert h.View()[page] == h.Lookup(page);
    }

    lemma WindowIsLinear(a: nat)
      requires WindowOk() && KERNEL_VIRTUAL_BASE <= a < KERNEL_VIRTUAL_BASE + LARGE_PAGE_SIZE
      ensures DirectoryIndex(a) == KERNEL_SLOT
      ensures LargePage(current.directory.words[KERNEL_SLOT]) ==> pse
      ensures VirtualToPhysical(current, a) == a - KERNEL_VIRTUAL_BASE
    {}

    // ---------- changing directories ----------

    /** kzalloc(PAGING_PAGE_SIZE), with memory left. */
    method AllocatePage() returns (p: Page)
      requires MemoryOk() && free != []
      modifies this`ram, this`free
      ensures fresh(p) && p.words == seq(ENTRIES, _ => NoEntry)
      ensures MemoryOk() && Holds(p) && p.frame !in old(ram)
      ensures ram == old(ram)[p.frame := p] && free == old(free)[1..]
    {
      p := new Page(free[0]);
      ram := ram[free[0] := p];
      free := free[1..];
    }

    /** No page of h that changes when slot d is mapped in is the current directory's too,
        except that h may have the table that shows the window. */
    ghost predicate Apart(h: Handle, d: nat)
      requires d < ENTRIES
      reads this, current, current.directory, h
    {
      && WindowPage() != h.directory
      && (current != h ==> current.directory != h.directory)
      && (LargePage(current.directory.words[KERNEL_SLOT]) ==> h.tables[d] != current.directory)
    }

    /** Mapping virt to phys in slot d leaves the window as it is: the slot's table does not
        show the window, or the page is mapped to where the window shows it. */
    ghost predicate SparesWindow(h: Handle, d: nat, virt: nat, phys: nat)
      requires d < ENTRIES
      reads this, current, current.directory, h
    {
      && Apart(h, d)
      && (h.tables[d] != null && WindowPage() == h.tables[d] ==> virt / PAGE_SIZE == phys / PAGE_SIZE + d * ENTRIES)
    }

    /** paging_map_page. Mapping a page of the kernel's window elsewhere is possible; it is
        what makes the window wrong. */
    method MapPage(h: Handle, virt: nat, phys: nat, flags: nat) returns (res: int)
      requires Sound(h)
      requires virt < RECURSIVE_BASE && phys < ADDRESS_SPACE && PageFlags(flags)
      requires Apart(h, DirectoryIndex(virt))
      requires h.tables[DirectoryIndex(virt)] == null ==> free != []
      modifies this`ram, this`free, h`tables, h.directory
      modifies if h.tables[DirectoryIndex(virt)] == null then {} else {h.tables[DirectoryIndex(virt)]}
      ensures res == if virt % PAGE_SIZE == 0 && phys % PAGE_SIZE == 0 then 0 else -EINVAL
      ensures MemoryOk() && Good(h) && WindowPage() == old(WindowPage())
      ensures WindowOk() <==> res != 0 || old(SparesWindow(h, DirectoryIndex(virt), virt, phys))
      ensures h.View() == if res == 0 then Mapped(old(h.View()), virt / PAGE_SIZE, phys / PAGE_SIZE, 1, flags) else old(h.View())
      ensures KeepsPages(old(ram))
      ensures forall i | 0 <= i < ENTRIES :: i != DirectoryIndex(virt) || old(h.tables[i]) != null ==> h.tables[i] == old(h.tables[i])
      ensures res == 0 ==> h.tables[DirectoryIndex(virt)] != null
      ensures old(h.tables[DirectoryIndex(virt)]) == null && res == 0 ==> fresh(h.tables[DirectoryIndex(virt)])
      ensures forall s, a, b | 0 <= s < ENTRIES && old(SparesWindow(h, s, a, b)) :: SparesWindow(h, s, a, b)
      ensures |free| == |old(free)| - if res == 0 && old(h.tables[DirectoryIndex(virt)]) == null then 1 else 0
      ensures forall p | 0 <= p < PAGES && !(res == 0 && p == virt / 4096) :: h.View()[p] == old(h.View()[p])
      ensures res == 0 ==> h.View()[virt / 4096] == Entry(phys / 4096, flags)
      ensures res == 0 ==>
                var d, t := virt / 0x40_0000, virt / 4096 % 1024;
                && h.directory == old(h.directory)
                && h.tables[d].words == (if old(h.tables[d]) == null then seq(1024, _ => NoEntry) else old(h.tables[d].words))
                                        [t := Entry(phys / 4096, flags)]
                && h.directory.words == if old(h.tables[d]) == null
                                        then old(h.directory.words)[d := Entry(h.tables[d].frame, flags)]
                                        else old(h.directory.words)
    {
      hide Handle.View, Mapped, MemoryOk, Good, WindowOk, WindowPage;
      MappedAt(h.View(), virt / PAGE_SIZE, phys / PAGE_SIZE, 1, flags);
      if virt % PAGE_SIZE != 0 || phys % PAGE_SIZE != 0 {
        return -EINVAL;
      }
      var d, t := DirectoryIndex(virt), TableIndex(virt);
      if h.tables[d] == null {
        InstallTable(h, d, flags);
      }
      assert virt / PAGE_SIZE == d * ENTRIES + t;
      WriteEntry(h, d, t, phys / PAGE_SIZE, flags);
      return 0;
    }

    /** The second half of paging_map_page: one word of the table of slot d. */
    method WriteEntry(h: Handle, d: nat, t: nat, frame: nat, flags: nat)
      requires Sound(h) && d < RECURSIVE_SLOT && t < ENTRIES && PageFlags(flags)
      requires h.tables[d] != null && Apart(h, d)
      modifies h.tables[d]
      ensures MemoryOk() && Good(h) && WindowPage() == old(WindowPage())
      ensures WindowOk() <==> WindowPage() != h.tables[d] || frame == t
      ensures h.View() == Mapped(old(h.View()), d * ENTRIES + t, frame, 1, flags)
      ensures h.tables[d].words == old(h.tables[d].words)[t := Entry(frame, flags)]
      ensures h.directory.words == old(h.directory.words)
      ensures LargePage(current.directory.words[KERNEL_SLOT]) == old(LargePage(current.directory.words[KERNEL_SLOT]))
    {
      assert h.tables[d] != h.tables[RECURSIVE_SLOT];
      var table := h.tables[d];
      table.words := table.words[t := Entry(frame, flags)];
      assert table.words[t].frame == frame;
      forall i | 0 <= i < ENTRIES
        ensures SlotOk(ram, h, i)
      {
        assert old(SlotOk(ram, h, i));
      }
      forall p | 0 <= p < PAGES
        ensures h.Lookup(p) == if p == d * ENTRIES + t then Entry(frame, flags) else old(h.Lookup(p))
      {
        assert p == d * ENTRIES + t <==> p / ENTRIES == d && p % ENTRIES == t;
      }
    }

    /** The first half of paging_map_page: a new, empty table for an empty slot. */
    method InstallTable(h: Handle, d: nat, flags: nat)
      requires Sound(h) && free != []
      requires d < RECURSIVE_SLOT && h.tables[d] == null && PageFlags(flags)
      requires Apart(h, d)
      modifies this`ram, this`free, h`tables, h.directory
      ensures Sound(h) && WindowPage() == old(WindowPage())
      ensures h.tables[d] != null && fresh(h.tables[d]) && h.tables[d].words == seq(ENTRIES, _ => NoEntry)
      ensures h.tables == old(h.tables)[d := h.tables[d]]
      ensures h.directory.words == old(h.directory.words)[d := Entry(h.tables[d].frame, flags)]
      ensures ram == old(ram)[h.tables[d].frame := h.tables[d]] && h.tables[d].frame !in old(ram)
      ensures free == old(free)[1..] && h.View() == old(h.View())
      ensures WindowPage() != h.tables[d]
      ensures LargePage(current.directory.words[KERNEL_SLOT]) == old(LargePage(current.directory.words[KERNEL_SLOT]))
    {
      var page := AllocatePage();
      h.tables := h.tables[d := page];
      WindowIsLinear(page.VirtualAddress());
      var tablePhys := VirtualToPhysical(current, page.VirtualAddress());
      h.directory.words := h.directory.words[d := Entry(tablePhys / PAGE_SIZE, flags)];
      assert SlotOk(ram, h, d);
      forall i | 0 <= i < ENTRIES
        ensures SlotOk(ram, h, i)
      {
        assert old(SlotOk(ram, h, i));
      }
      assert forall p | 0 <= p < PAGES :: h.Lookup(p) == old(h.Lookup(p));
    }

    /** The tables a handle has in slots lo to hi - 1. */
    ghost function TablesIn(h: Handle, lo: nat, hi: nat): (r: set<Page>)
      requires lo <= hi <= ENTRIES
      reads h
    {
      set i | lo <= i < hi && h.tables[i] != null :: h.tables[i]
    }

    /** How many of the slots lo to hi - 1 have no table. */
    static ghost function EmptySlots(tables: Tables, lo: nat, hi: nat): (n: nat)
      requires lo <= hi <= ENTRIES
      ensures n <= hi - lo
    {
      if lo == hi then 0 else EmptySlots(tables, lo, hi - 1) + if tables[hi - 1] == null then 1 else 0
    }

    lemma {:induction false} EmptySlotsGrow(tables: Tables, lo: nat, mid: nat, hi: nat)
      requires lo <= mid <= hi <= ENTRIES
      ensures EmptySlots(tables, lo, mid) <= EmptySlots(tables, lo, hi)
    {
      if mid < hi {
        EmptySlotsGrow(tables, lo, mid, hi - 1);
      }
    }

    /** How a handle stands when i of `count` pages have been mapped; `news` are the tables
        added meanwhile, one for each slot reached that had none. */
    ghost predicate Progress(h: Handle, was: Before, news: set<Page>, virt: nat, phys: nat, i: nat, count: int)
      requires virt < ADDRESS_SPACE && (count > 0 ==> virt + count * PAGE_SIZE <= RECURSIVE_BASE)
      requires if count > 0 then i <= count else i == 0
      reads this, h, h.directory, h.tables, current, current.directory, current.tables
    {
      && Sound(h) && WindowPage() == was.window
      && (forall d | FirstSlot(virt) <= d < EndSlot(virt, count) :: SparesWindow(h, d, virt, phys))
      && KeepsPages(was.ram)
      && (forall s | 0 <= s < ENTRIES :: KeepsTable(h, s, was.tables[s], FirstSlot(virt) <= s < EndSlot(virt, i), news))
      && (forall s | FirstSlot(virt) <= s < EndSlot(virt, i) :: h.tables[s] != null)
      && |free| == was.free - EmptySlots(was.tables, FirstSlot(virt), EndSlot(virt, i))
    }

    /** One iteration of paging_map_range. */
    method MapNext(h: Handle, virt: nat, phys: nat, flags: nat, i: nat, ghost count: nat, ghost was: Before, ghost news: set<Page>)
      returns (ghost news': set<Page>)
      requires virt < ADDRESS_SPACE && virt + count * PAGE_SIZE <= RECURSIVE_BASE && phys + count * PAGE_SIZE <= ADDRESS_SPACE
      requires i < count && PageFlags(flags) && virt % PAGE_SIZE == 0 && phys % PAGE_SIZE == 0
      requires Progress(h, was, news, virt, phys, i, count)
      requires EmptySlots(was.tables, FirstSlot(virt), EndSlot(virt, count)) <= was.free
      modifies this`ram, this`free, h`tables, h.directory
      modifies if h.tables[DirectoryIndex(virt + i * PAGE_SIZE)] == null then {} else {h.tables[DirectoryIndex(virt + i * PAGE_SIZE)]}
      ensures Progress(h, was, news', virt, phys, i + 1, count)
      ensures h.View() == Mapped(old(h.View()), virt / PAGE_SIZE + i, phys / PAGE_SIZE + i, 1, flags)
      ensures news <= news' && fresh(news' - news)
    {
      hide Mapped, Handle.View, Handle.Lookup, WindowOk, MemoryOk, Good, WindowPage, SparesWindow, Apart, DirectoryIndex, FirstSlot, EndSlot, PageFlags, EmptySlots;
      SlotsInOrder(virt, i, count);
      FramesInOrder(phys, i);
      ghost var d := DirectoryIndex(virt + i * PAGE_SIZE);
      ghost var tables, ram', free' := h.tables, ram, |free|;
      SparesNext(h, d, virt, phys, i);
      assert KeepsTable(h, d, was.tables[d], FirstSlot(virt) <= d < EndSlot(virt, i), news);
      NextSlot(was.tables, tables, virt, i, count);
      var _ := MapPage(h, virt + i * PAGE_SIZE, phys + i * PAGE_SIZE, flags);
      news' := news;
      if tables[d] == null {
        ghost var table: Page := h.tables[d];
        news' := news + {table};
      }
      assert KeepsPages(was.ram);
      ProgressStep(h, was, news, news', tables, free', virt, phys, i, count);
    }

    lemma EmptyRange(virt: nat, count: int)
      requires virt < ADDRESS_SPACE && (count > 0 ==> virt + count * PAGE_SIZE <= RECURSIVE_BASE)
      ensures EndSlot(virt, 0) == FirstSlot(virt) <= EndSlot(virt, count) <= ENTRIES
      ensures count <= 0 ==> EndSlot(virt, count) == FirstSlot(virt)
      ensures forall tables: Tables :: EmptySlots(tables, FirstSlot(virt), FirstSlot(virt)) == 0
    {}

    /** The next page is spared as the range is. */
    lemma SparesNext(h: Handle, d: nat, virt: nat, phys: nat, i: nat)
      requires d < ENTRIES && SparesWindow(h, d, virt, phys)
      ensures Apart(h, d) && SparesWindow(h, d, virt + i * PAGE_SIZE, phys + i * PAGE_SIZE)
    {
      FramesInOrder(virt, i);
      FramesInOrder(phys, i);
    }

    /** The slot of the next page: reached already, or the first one not reached. */
    lemma NextSlot(was: Tables, tables: Tables, virt: nat, i: nat, count: nat)
      requires i < count && virt + count * PAGE_SIZE <= RECURSIVE_BASE
      requires var d := DirectoryIndex(virt + i * PAGE_SIZE);
               d < ENTRIES && (d >= EndSlot(virt, i) ==> tables[d] == was[d])
      requires forall s | FirstSlot(virt) <= s < EndSlot(virt, i) :: tables[s] != null
      ensures var d := DirectoryIndex(virt + i * PAGE_SIZE);
              && EmptySlots(was, FirstSlot(virt), EndSlot(virt, i + 1))
                 == EmptySlots(was, FirstSlot(virt), EndSlot(virt, i)) + (if tables[d] == null then 1 else 0)
              && EmptySlots(was, FirstSlot(virt), EndSlot(virt, i + 1)) <= EmptySlots(was, FirstSlot(virt), EndSlot(virt, count))
    {
      SlotsInOrder(virt, i, count);
      EmptySlotsGrow(was, FirstSlot(virt), EndSlot(virt, i + 1), EndSlot(virt, count));
    }

    /** What one more page mapped in slot d means for the progress. */
    lemma ProgressStep(h: Handle, was: Before, news: set<Page>, news': set<Page>, tables: Tables, free': nat, virt: nat, phys: nat, i: nat, count: nat)
      requires virt < ADDRESS_SPACE && virt + count * PAGE_SIZE <= RECURSIVE_BASE && i < count
      requires Sound(h) && WindowPage() == was.window && KeepsPages(was.ram) && news <= news'
      requires forall d | FirstSlot(virt) <= d < EndSlot(virt, count) :: SparesWindow(h, d, virt, phys)
      requires forall s | 0 <= s < ENTRIES :: tables[s] == was.tables[s]
                 || (was.tables[s] == null && FirstSlot(virt) <= s < EndSlot(virt, i) && tables[s] in news)
      requires forall s | FirstSlot(virt) <= s < EndSlot(virt, i) :: tables[s] != null
      requires free' == was.free - EmptySlots(was.tables, FirstSlot(virt), EndSlot(virt, i))
      requires var d := DirectoryIndex(virt + i * PAGE_SIZE);
               && h.tables == tables[d := h.tables[d]] && h.tables[d] != null
               && (if tables[d] == null then h.tables[d] in news' && |free| == free' - 1
                   else h.tables[d] == tables[d] && |free| == free')
      ensures Progress(h, was, news', virt, phys, i + 1, count)
    {
      hide Sound, WindowPage, SparesWindow, EmptySlots, DirectoryIndex, FirstSlot, EndSlot;
      SlotsInOrder(virt, i, count);
      NextSlot(was.tables, tables, virt, i, count);
    }

    /** paging_map_range: `count` pages from virt on, mapped to the frames from phys on. Any
        number of tables may be crossed or added. Both addresses stay aligned, so once the
        test at the start has passed no page is refused. */
    method MapRange(h: Handle, virt: nat, phys: nat, count: int, flags: nat) returns (res: int, ghost news: set<Page>)
      requires Sound(h) && PageFlags(flags) && virt < ADDRESS_SPACE
      requires count > 0 ==> virt + count * PAGE_SIZE <= RECURSIVE_BASE && phys + count * PAGE_SIZE <= ADDRESS_SPACE
      requires forall d | FirstSlot(virt) <= d < EndSlot(virt, count) :: SparesWindow(h, d, virt, phys)
      requires EmptySlots(h.tables, FirstSlot(virt), EndSlot(virt, count)) <= |free|
      modifies this`ram, this`free, h`tables, h.directory, TablesIn(h, FirstSlot(virt), EndSlot(virt, count))
      ensures res == if virt % PAGE_SIZE == 0 && phys % PAGE_SIZE == 0 then 0 else -EINVAL
      ensures h.View() == Mapped(old(h.View()), virt / PAGE_SIZE, phys / PAGE_SIZE, if res == 0 && count > 0 then count else 0, flags)
      ensures Progress(h, old(BeforeMapping(h)), news, virt, phys, if res == 0 && count > 0 then count else 0, count)
      ensures var v, n := virt / 4096, if res == 0 && count > 0 then count else 0;
              && (forall p | 0 <= p < PAGES && !(v <= p < v + n) :: h.View()[p] == old(h.View()[p]))
              && (forall p | 0 <= p < PAGES && v <= p < v + n :: h.View()[p] == Entry(phys / 4096 + (p - v), flags))
      ensures fresh(news)
    {
      hide Handle.View, Handle.Lookup, Mapped, Sound, SparesWindow, WindowPage, EmptySlots, EndSlot, FirstSlot, DirectoryIndex;
      EmptyRange(virt, count);
      MappedAt(h.View(), virt / PAGE_SIZE, phys / PAGE_SIZE, 0, flags);
      if count > 0 {
        MappedAt(h.View(), virt / PAGE_SIZE, phys / PAGE_SIZE, count, flags);
      }
      ghost var was := BeforeMapping(h);
      news := {};
      MappedMore(was.view, virt / PAGE_SIZE, phys / PAGE_SIZE, 0, flags);
      if virt % PAGE_SIZE != 0 || phys % PAGE_SIZE != 0 {
        return -EINVAL, {};
      }
      var i := 0;
      while i < count
        invariant 0 <= i && (count > 0 ==> i <= count) && (count <= 0 ==> i == 0)
        invariant Progress(h, was, news, virt, phys, i, count)
        invariant h.View() == Mapped(was.view, virt / PAGE_SIZE, phys / PAGE_SIZE, i, flags)
        invariant fresh(news)
      {
        SlotsInOrder(virt, i, count);
        MappedMore(was.view, virt / PAGE_SIZE, phys / PAGE_SIZE, i, flags);
        ghost var d := DirectoryIndex(virt + i * PAGE_SIZE);
        assert KeepsTable(h, d, was.tables[d], FirstSlot(virt) <= d < EndSlot(virt, i), news);
        news := MapNext(h, virt, phys, flags, i, count, was, news);
        i := i + 1;
      }
      return 0, news;
    }

    ghost function BeforeMapping(h: Handle): Before
      reads this, h, h.tables, current, current.directory
    {
      Before(ram, h.tables, h.View(), WindowPage(), |free|)
    }

    /** How many pages paging_map_from_to maps; it refuses unaligned or reversed ranges. */
    static function PagesToMap(virt: nat, begin: nat, end: nat): nat {
      if virt % PAGE_SIZE == 0 && begin % PAGE_SIZE == 0 && end % PAGE_SIZE == 0 && begin <= end
      then (end - begin) / PAGE_SIZE else 0
    }

    /** paging_map_from_to. */
    method MapFromTo(h: Handle, virt: nat, begin: nat, end: nat, flags: nat) returns (res: int, ghost news: set<Page>)
      requires Sound(h) && PageFlags(flags) && virt < ADDRESS_SPACE && end <= ADDRESS_SPACE
      requires PagesToMap(virt, begin, end) > 0 ==> virt + PagesToMap(virt, begin, end) * PAGE_SIZE <= RECURSIVE_BASE
      requires forall d | FirstSlot(virt) <= d < EndSlot(virt, PagesToMap(virt, begin, end)) :: SparesWindow(h, d, virt, begin)
      requires EmptySlots(h.tables, FirstSlot(virt), EndSlot(virt, PagesToMap(virt, begin, end))) <= |free|
      modifies this`ram, this`free, h`tables, h.directory
      modifies TablesIn(h, FirstSlot(virt), EndSlot(virt, PagesToMap(virt, begin, end)))
      ensures res == if virt % PAGE_SIZE == 0 && begin % PAGE_SIZE == 0 && end % PAGE_SIZE == 0 && begin <= end then 0 else -EINVAL
      ensures h.View() == Mapped(old(h.View()), virt / PAGE_SIZE, begin / PAGE_SIZE, PagesToMap(virt, begin, end), flags)
      ensures Progress(h, old(BeforeMapping(h)), news, virt, begin, PagesToMap(virt, begin, end), PagesToMap(virt, begin, end))
      ensures var v, n := virt / 4096, if res == 0 then (end - begin) / 4096 else 0;
              && (forall p | 0 <= p < PAGES && !(v <= p < v + n) :: h.View()[p] == old(h.View()[p]))
              && (forall p | 0 <= p < PAGES && v <= p < v + n :: h.View()[p] == Entry(begin / 4096 + (p - v), flags))
      ensures fresh(news)
    {
      news := {};
      MappedMore(h.View(), virt / PAGE_SIZE, begin / PAGE_SIZE, 0, flags);
      if virt % PAGE_SIZE != 0 || begin % PAGE_SIZE != 0 {
        return -EINVAL, {};
      }
      if end % PAGE_SIZE != 0 {
        return -EINVAL, {};
      }
      if end < begin {
        return -EINVAL, {};
      }
      var totalPages := (end - begin) / PAGE_SIZE;
      res, news := MapRange(h, virt, begin, totalPages, flags);
    }

    /** The next page lies in the last slot reached or in the slot after it. */
    lemma SlotsInOrder(virt: nat, i: nat, count: nat)
      requires i < count && virt + count * PAGE_SIZE <= RECURSIVE_BASE
      ensures FirstSlot(virt) <= DirectoryIndex(virt + i * PAGE_SIZE) < EndSlot(virt, count)
      ensures EndSlot(virt, i + 1) == DirectoryIndex(virt + i * PAGE_SIZE) + 1
      ensures EndSlot(virt, i) <= EndSlot(virt, i + 1) <= EndSlot(virt, i) + 1
      ensures (virt + i * PAGE_SIZE) / PAGE_SIZE == virt / PAGE_SIZE + i
      ensures virt % PAGE_SIZE == 0 ==> (virt + i * PAGE_SIZE) % PAGE_SIZE == 0
    {}

    lemma FramesInOrder(phys: nat, i: nat)
      ensures (phys + i * PAGE_SIZE) / PAGE_SIZE == phys / PAGE_SIZE + i
      ensures phys % PAGE_SIZE == 0 ==> (phys + i * PAGE_SIZE) % PAGE_SIZE == 0
    {}

    lemma MappedMore(view: seq<Entry>, v: nat, f: nat, i: nat, flags: nat)
      ensures Mapped(Mapped(view, v, f, i, flags), v + i, f + i, 1, flags) == Mapped(view, v, f, i + 1, flags)
      ensures Mapped(view, v, f, 0, flags) == view
    {}

    /** Slot i still has its table, or has got a new one if it lies in the range. */
    ghost predicate KeepsTable(h: Handle, i: nat, was: Page?, inRange: bool, news: set<Page>)
      requires i < ENTRIES
      reads h
    {
      h.tables[i] == was || (was == null && inRange && h.tables[i] in news)
    }
  }

  /** The slots that `count` pages from virt on lie in. */
  function FirstSlot(virt: nat): nat {
    DirectoryIndex(virt)
  }

  function EndSlot(virt: nat, count: int): (s: nat)
    requires count > 0 ==> virt + count * PAGE_SIZE <= RECURSIVE_BASE
    ensures count > 0 ==> DirectoryIndex(virt) < s <= RECURSIVE_SLOT
  {
    if count <= 0 then DirectoryIndex(virt) else DirectoryIndex(virt + (count - 1) * PAGE_SIZE) + 1
  }
}
