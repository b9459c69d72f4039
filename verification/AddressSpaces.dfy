/**
 Many directories over one memory: paging_clone_directory (src/memory/paging.c:188-218) and
 what mapping in one address space means for the others.
 */
module AddressSpaces {
  import opened Status
  import opened Paging

  /** Slot i of a clone: empty where the source is empty, the kernel's table where the words
      agree, and a fresh copy of the source's table anywhere else. */
  ghost predicate SlotCloned(m: Machine, source: Handle, copy: Handle, copies: set<Page>, i: nat)
    requires i < RECURSIVE_SLOT
    reads m, m.kernel, m.kernel.directory, source, source.directory, source.tables, copy, copy.directory, copy.tables
  {
    var word := source.directory.words[i];
    if word == NoEntry then
      copy.tables[i] == null && copy.directory.words[i] == NoEntry
    else if m.kernel.directory.words[i] == word then
      copy.tables[i] == m.kernel.tables[i] && copy.directory.words[i] == word
    else
      && copy.tables[i] != null && copy.tables[i] in copies && m.Holds(copy.tables[i])
      && copy.directory.words[i] == Entry(copy.tables[i].frame, word.flags)
      && source.tables[i] != null && copy.tables[i].words == source.tables[i].words
  }

  predicate NeedsCopy(m: Machine, source: Handle, i: nat)
    requires i < RECURSIVE_SLOT
    reads m`kernel, m.kernel, m.kernel.directory, source, source.directory
  {
    source.directory.words[i] != NoEntry && m.kernel.directory.words[i] != source.directory.words[i]
  }

  /** How many of the first n slots have to be copied. */
  ghost function CopiesNeeded(m: Machine, source: Handle, n: nat): nat
    requires n <= RECURSIVE_SLOT
    reads m`kernel, m.kernel, m.kernel.directory, source, source.directory
  {
    if n == 0 then 0 else CopiesNeeded(m, source, n - 1) + if NeedsCopy(m, source, n - 1) then 1 else 0
  }

  /** The clone under construction is no part of the directories it is made from. */
  ghost predicate Apart(m: Machine, source: Handle, copy: Handle)
    reads m, m.kernel, m.current, source, copy
  {
    && copy !in {source, m.kernel, m.current}
    && copy.directory !in {source.directory, m.kernel.directory, m.current.directory}
    && copy.directory !in source.tables && copy.directory !in m.kernel.tables && copy.directory !in m.current.tables
  }

  ghost predicate Working(m: Machine, source: Handle)
    reads m, m.kernel, m.kernel.directory, m.current, m.current.directory, m.current.tables, source, source.directory
  {
    m.MemoryOk() && m.WindowOk() && m.Good(source) && m.Good(m.kernel)
  }

  /** One iteration of paging_clone_directory. */
  method CloneSlot(m: Machine, source: Handle, copy: Handle, i: nat, ghost copies: set<Page>) returns (ghost copies': set<Page>)
    requires Working(m, source) && Apart(m, source, copy) && i < RECURSIVE_SLOT
    requires copy.tables[i] == null && copy.directory.words[i] == NoEntry
    requires NeedsCopy(m, source, i) ==> m.free != []
    modifies m`ram, m`free, copy`tables, copy.directory
    ensures Working(m, source) && m.KeepsPages(old(m.ram))
    ensures copy.tables == old(copy.tables)[i := copy.tables[i]]
    ensures copy.directory.words == old(copy.directory.words)[i := copy.directory.words[i]]
    ensures SlotCloned(m, source, copy, copies', i)
    ensures copies <= copies' && fresh(copies' - copies)
    ensures |m.free| == |old(m.free)| - if NeedsCopy(m, source, i) then 1 else 0
    ensures NeedsCopy(m, source, i) ==> copy.tables[i] != null && fresh(copy.tables[i])
  {
    copies' := copies;
    var word := source.directory.words[i];
    assert SlotOk(m.ram, source, i) && SlotOk(m.ram, m.kernel, i);
    if word == NoEntry {
      return;
    }
    if m.kernel.directory.words[i] == word {
      copy.directory.words := copy.directory.words[i := m.kernel.directory.words[i]];
      copy.tables := copy.tables[i := m.kernel.tables[i]];
      return;
    }
    var page := CopyTable(m, source, source.tables[i]);
    var phys := m.VirtualToPhysical(m.current, page.VirtualAddress());
    copy.tables := copy.tables[i := page];
    copy.directory.words := copy.directory.words[i := Entry(phys / PAGE_SIZE, word.flags)];
    copies' := copies + {page};
  }

  /** A fresh copy of a table, where the window shows it. */
  method CopyTable(m: Machine, source: Handle, table: Page) returns (page: Page)
    requires Working(m, source) && m.free != []
    modifies m`ram, m`free
    ensures fresh(page) && page.words == table.words && m.Holds(page)
    ensures Working(m, source) && m.KeepsPages(old(m.ram)) && m.free == old(m.free)[1..]
    ensures DirectoryIndex(page.VirtualAddress()) == KERNEL_SLOT && page.VirtualAddress() < ADDRESS_SPACE
    ensures !LargePage(m.current.directory.words[KERNEL_SLOT]) ==> m.current.tables[KERNEL_SLOT] != null
    ensures LargePage(m.current.directory.words[KERNEL_SLOT]) ==> m.pse
    ensures m.VirtualToPhysical(m.current, page.VirtualAddress()) == page.frame * PAGE_SIZE
  {
    ghost var ram := m.ram;
    page := m.AllocatePage();
    MoreRam(ram, m.ram, source);
    MoreRam(ram, m.ram, m.kernel);
    page.words := table.words;
    m.WindowIsLinear(page.VirtualAddress());
  }

  /** The clone after i iterations. */
  ghost predicate ClonedUpTo(m: Machine, source: Handle, copy: Handle, copies: set<Page>, i: nat)
    requires i <= RECURSIVE_SLOT
    reads m, m.kernel, m.kernel.directory, source, source.directory, source.tables, copy, copy.directory, copy.tables
  {
    && (forall j | 0 <= j < i :: SlotCloned(m, source, copy, copies, j))
    && (forall j | i <= j < ENTRIES :: copy.tables[j] == null && copy.directory.words[j] == NoEntry)
    && (forall j, k | 0 <= j < k < i :: copy.tables[j] != null ==> copy.tables[j] != copy.tables[k])
  }

  lemma {:induction false} CopiesGrow(m: Machine, source: Handle, i: nat, n: nat)
    requires i <= n <= RECURSIVE_SLOT
    ensures CopiesNeeded(m, source, i) <= CopiesNeeded(m, source, n)
  {
    if i < n {
      CopiesGrow(m, source, i, n - 1);
    }
  }

  /** The iteration keeps what the earlier ones have done. */
  method CloneNext(m: Machine, source: Handle, copy: Handle, i: nat, ghost copies: set<Page>) returns (ghost copies': set<Page>)
    requires Working(m, source) && Apart(m, source, copy) && i < RECURSIVE_SLOT
    requires ClonedUpTo(m, source, copy, copies, i) && copies !! KernelTables(m) && copy.directory !in copies
    requires NeedsCopy(m, source, i) ==> m.free != []
    requires m.Holds(copy.directory)
    modifies m`ram, m`free, copy`tables, copy.directory
    ensures Working(m, source) && Apart(m, source, copy) && m.KeepsPages(old(m.ram))
    ensures ClonedUpTo(m, source, copy, copies', i + 1) && copies' !! KernelTables(m) && copy.directory !in copies'
    ensures copies <= copies' && fresh(copies' - copies) && m.Holds(copy.directory)
    ensures |m.free| == |old(m.free)| - if NeedsCopy(m, source, i) then 1 else 0
  {
    ghost var tables, words := copy.tables, copy.directory.words;
    copies' := CloneSlot(m, source, copy, i, copies);
    forall j | 0 <= j < i
      ensures SlotCloned(m, source, copy, copies', j)
    {
      assert old(SlotCloned(m, source, copy, copies, j));
    }
    forall j | 0 <= j < i && copy.tables[j] != null
      ensures copy.tables[j] != copy.tables[i]
    {
      assert old(SlotCloned(m, source, copy, copies, j));
      assert tables[j] in copies || tables[j] == m.kernel.tables[j];
    }
  }

  ghost function KernelTables(m: Machine): set<Page>
    reads m`kernel, m.kernel
  {
    set i | 0 <= i < ENTRIES && m.kernel.tables[i] != null :: m.kernel.tables[i]
  }

  /** The last slot of a clone shows the clone itself. */
  method SealClone(m: Machine, source: Handle, copy: Handle, ghost copies: set<Page>)
    requires Working(m, source) && Apart(m, source, copy) && m.Holds(copy.directory)
    requires ClonedUpTo(m, source, copy, copies, RECURSIVE_SLOT) && copy.directory !in copies
    modifies copy`tables, copy.directory
    ensures Working(m, source) && m.Good(copy)
    ensures copy.tables[1023] == copy.directory && copy.directory.words[1023] == Entry(copy.directory.frame, 3)
    ensures forall i | 0 <= i < RECURSIVE_SLOT :: SlotCloned(m, source, copy, copies, i)
  {
    copy.tables := copy.tables[RECURSIVE_SLOT := copy.directory];
    m.WindowIsLinear(copy.directory.VirtualAddress());
    var phys := m.VirtualToPhysical(m.current, copy.directory.VirtualAddress());
    copy.directory.words := copy.directory.words[RECURSIVE_SLOT := Entry(phys / PAGE_SIZE, PAGING_WRITABLE_PAGE + PAGING_PRESENT)];
    forall i | 0 <= i < RECURSIVE_SLOT
      ensures SlotCloned(m, source, copy, copies, i) && SlotOk(m.ram, copy, i) && copy.tables[i] != copy.directory
    {
      assert old(SlotCloned(m, source, copy, copies, i));
      assert SlotOk(m.ram, source, i) && SlotOk(m.ram, m.kernel, i);
    }
  }

  /** A clone translates as its source does. */
  lemma CloneTranslates(m: Machine, source: Handle, copy: Handle, copies: set<Page>)
    requires m.Good(source) && m.Good(m.kernel)
    requires forall i | 0 <= i < RECURSIVE_SLOT :: SlotCloned(m, source, copy, copies, i)
    ensures copy.View() == source.View()
  {
    forall p | 0 <= p < PAGES
      ensures copy.Lookup(p) == source.Lookup(p)
    {
      var i := p / ENTRIES;
      assert SlotCloned(m, source, copy, copies, i);
      assert SlotOk(m.ram, source, i) && SlotOk(m.ram, m.kernel, i);
    }
  }

  /** An empty clone. */
  method StartClone(m: Machine, source: Handle) returns (copy: Handle)
    requires Working(m, source) && m.free != []
    modifies m`ram, m`free
    ensures fresh(copy) && fresh(copy.directory) && m.Holds(copy.directory)
    ensures Working(m, source) && Apart(m, source, copy) && m.KeepsPages(old(m.ram)) && m.free == old(m.free)[1..]
    ensures ClonedUpTo(m, source, copy, {}, 0)
  {
    ghost var ram := m.ram;
    var directory := m.AllocatePage();
    MoreRam(ram, m.ram, source);
    MoreRam(ram, m.ram, m.kernel);
    copy := new Handle(directory);
  }

  /** paging_clone_directory. The clone translates every address below the recursive slot as
      the source does; it shares exactly the tables on which the source's word is the
      kernel's, and everything else in it is new. */
  method CloneDirectory(m: Machine, source: Handle) returns (copy: Handle, ghost copies: set<Page>)
    requires Working(m, source)
    requires CopiesNeeded(m, source, RECURSIVE_SLOT) < |m.free|
    modifies m`ram, m`free
    ensures fresh(copy) && fresh(copy.directory) && fresh(copies) && copy.directory !in copies
    ensures Working(m, source) && m.KeepsPages(old(m.ram)) && m.Good(copy)
    ensures forall i | 0 <= i < RECURSIVE_SLOT :: SlotCloned(m, source, copy, copies, i)
    ensures copy.View() == source.View()
    ensures |m.free| == |old(m.free)| - 1 - CopiesNeeded(m, source, RECURSIVE_SLOT)
    ensures forall i | 0 <= i < 1023 && source.directory.words[i] == Entry(0, 0) ::
              copy.tables[i] == null && copy.directory.words[i] == Entry(0, 0)
    ensures forall i | 0 <= i < 1023 && source.directory.words[i] == m.kernel.directory.words[i] != Entry(0, 0) ::
              copy.tables[i] == m.kernel.tables[i] && copy.directory.words[i] == source.directory.words[i]
    ensures forall i | 0 <= i < 1023 && source.directory.words[i] !in {m.kernel.directory.words[i], Entry(0, 0)} ::
              && copy.tables[i] != null && fresh(copy.tables[i])
              && source.tables[i] != null && copy.tables[i].words == source.tables[i].words
              && copy.directory.words[i] == Entry(copy.tables[i].frame, source.directory.words[i].flags)
    ensures copy.tables[1023] == copy.directory && copy.directory.words[1023] == Entry(copy.directory.frame, 3)
  {
    hide SlotCloned, ClonedUpTo, Working, Apart, Handle.View, Machine.Holds, Machine.Good;
    copy := StartClone(m, source);
    copies := {};
    var i := 0;
    while i < RECURSIVE_SLOT
      invariant 0 <= i <= RECURSIVE_SLOT && fresh(copy.directory) && m.Holds(copy.directory)
      invariant fresh(copies) && copy.directory !in copies && copies !! KernelTables(m)
      invariant Working(m, source) && Apart(m, source, copy) && m.KeepsPages(old(m.ram))
      invariant ClonedUpTo(m, source, copy, copies, i)
      invariant |m.free| == |old(m.free)| - 1 - CopiesNeeded(m, source, i)
    {
      CopiesGrow(m, source, i + 1, RECURSIVE_SLOT);
      copies := CloneNext(m, source, copy, i, copies);
      i := i + 1;
    }
    SealClone(m, source, copy, copies);
    CloneTranslates(m, source, copy, copies);
    ClonedSlots(m, source, copy, copies);
  }

  lemma ClonedSlots(m: Machine, source: Handle, copy: Handle, copies: set<Page>)
    requires forall i | 0 <= i < RECURSIVE_SLOT :: SlotCloned(m, source, copy, copies, i)
    ensures forall i | 0 <= i < 1023 && source.directory.words[i] == Entry(0, 0) ::
              copy.tables[i] == null && copy.directory.words[i] == Entry(0, 0)
    ensures forall i | 0 <= i < 1023 && source.directory.words[i] == m.kernel.directory.words[i] != Entry(0, 0) ::
              copy.tables[i] == m.kernel.tables[i] && copy.directory.words[i] == source.directory.words[i]
    ensures forall i | 0 <= i < 1023 && source.directory.words[i] !in {m.kernel.directory.words[i], Entry(0, 0)} ::
              && copy.tables[i] != null && copy.tables[i] in copies
              && source.tables[i] != null && copy.tables[i].words == source.tables[i].words
              && copy.directory.words[i] == Entry(copy.tables[i].frame, source.directory.words[i].flags)
  {
    forall i | 0 <= i < RECURSIVE_SLOT
      ensures source.directory.words[i] == Entry(0, 0) ==> copy.tables[i] == null && copy.directory.words[i] == Entry(0, 0)
      ensures source.directory.words[i] == m.kernel.directory.words[i] != Entry(0, 0) ==>
                copy.tables[i] == m.kernel.tables[i] && copy.directory.words[i] == source.directory.words[i]
      ensures source.directory.words[i] !in {m.kernel.directory.words[i], Entry(0, 0)} ==>
                && copy.tables[i] != null && copy.tables[i] in copies
                && source.tables[i] != null && copy.tables[i].words == source.tables[i].words
                && copy.directory.words[i] == Entry(copy.tables[i].frame, source.directory.words[i].flags)
    {
      assert SlotCloned(m, source, copy, copies, i);
    }
  }

  // ---------- many address spaces ----------

  /** Two directories have nothing in common but kernel tables, each in its own slot. */
  ghost predicate Separate(m: Machine, g: Handle, h: Handle)
    reads m`kernel, m.kernel, g, h
  {
    && g.directory != h.directory
    && (forall i | 0 <= i < RECURSIVE_SLOT :: g.tables[i] != h.directory && h.tables[i] != g.directory)
    && (forall i, j | 0 <= i < RECURSIVE_SLOT && 0 <= j < RECURSIVE_SLOT ::
          g.tables[i] != null && g.tables[i] == h.tables[j] ==> i == j && g.tables[i] == m.kernel.tables[i])
  }

  /** The address spaces of a running system: the kernel's own, which is current, and others
      that share nothing with it or among themselves but kernel tables. */
  ghost predicate Isolated(m: Machine, space: set<Handle>)
    reads m, m.current, m.current.directory, m.current.tables, space, set h | h in space :: h.directory
  {
    && m.MemoryOk() && m.WindowOk() && m.current == m.kernel && m.kernel in space
    && (forall h | h in space :: m.Good(h))
    && (forall g, h | g in space && h in space && g != h :: Separate(m, g, h))
  }

  /** A clone joins the others. */
  method CloneInto(m: Machine, source: Handle, ghost space: set<Handle>) returns (copy: Handle)
    requires Isolated(m, space) && source in space
    requires CopiesNeeded(m, source, RECURSIVE_SLOT) < |m.free|
    modifies m`ram, m`free
    ensures fresh(copy) && fresh(copy.directory) && Isolated(m, space + {copy})
    ensures copy.View() == source.View()
    ensures forall i | 0 <= i < RECURSIVE_SLOT :: copy.tables[i] == null <==> source.tables[i] == null
    ensures |m.free| == |old(m.free)| - 1 - CopiesNeeded(m, source, RECURSIVE_SLOT)
  {
    ghost var ram := m.ram;
    ghost var copies;
    copy, copies := CloneDirectory(m, source);
    forall h | h in space
      ensures m.Good(h) && Separate(m, copy, h) && Separate(m, h, copy)
    {
      MoreRam(ram, m.ram, h);
      CloneIsSeparate(m, source, copy, copies, h);
    }
    forall i | 0 <= i < RECURSIVE_SLOT
      ensures copy.tables[i] == null <==> source.tables[i] == null
    {
      assert SlotCloned(m, source, copy, copies, i);
      assert SlotOk(m.ram, source, i) && SlotOk(m.ram, m.kernel, i);
    }
  }

  lemma CloneIsSeparate(m: Machine, source: Handle, copy: Handle, copies: set<Page>, h: Handle)
    requires m.Good(h) && m.Good(m.kernel) && m.Good(source) && m.Good(copy)
    requires h != m.kernel ==> Separate(m, m.kernel, h)
    requires forall i | 0 <= i < RECURSIVE_SLOT :: SlotCloned(m, source, copy, copies, i)
    requires copies !! KernelTables(m)
    requires forall i | 0 <= i < ENTRIES :: h.tables[i] != null ==> h.tables[i] !in copies && h.tables[i] != copy.directory
    requires forall i | 0 <= i < ENTRIES :: m.kernel.tables[i] != h.directory || i == RECURSIVE_SLOT
    requires h.directory !in copies
    ensures Separate(m, copy, h) && Separate(m, h, copy)
  {
    forall i | 0 <= i < RECURSIVE_SLOT
      ensures copy.tables[i] == null || copy.tables[i] in copies || copy.tables[i] == m.kernel.tables[i]
      ensures copy.tables[i] != h.directory
    {
      assert SlotCloned(m, source, copy, copies, i);
    }
    assert h.tables[RECURSIVE_SLOT] == h.directory;
  }

  /** The slots a mapping goes through hold no table of the kernel's. */
  ghost predicate Unshared(m: Machine, h: Handle, lo: nat, hi: nat)
    requires lo <= hi <= ENTRIES
    reads m`kernel, m.kernel, h
  {
    forall d | lo <= d < hi :: h.tables[d] == null || h.tables[d] != m.kernel.tables[d]
  }

  lemma UnsharedSparesWindow(m: Machine, space: set<Handle>, h: Handle, d: nat)
    requires Isolated(m, space) && h in space && d < RECURSIVE_SLOT
    requires h.tables[d] == null || h.tables[d] != m.kernel.tables[d]
    ensures forall virt, phys :: m.SparesWindow(h, d, virt, phys)
  {
    assert m.Good(m.current) && SlotOk(m.ram, m.current, KERNEL_SLOT);
    assert h != m.kernel ==> Separate(m, m.kernel, h) && Separate(m, h, m.kernel);
  }

  /** Tables in unshared slots belong to no other address space. */
  lemma UnsharedIsPrivate(m: Machine, space: set<Handle>, g: Handle, h: Handle, lo: nat, hi: nat)
    requires Isolated(m, space) && g in space && h in space && g != h
    requires lo <= hi <= RECURSIVE_SLOT && Unshared(m, h, lo, hi)
    ensures forall j | 0 <= j < ENTRIES && g.tables[j] != null ::
              g.tables[j] != h.directory && g.tables[j] !in m.TablesIn(h, lo, hi)
    ensures g.directory != h.directory && g.directory !in m.TablesIn(h, lo, hi)
  {
    assert Separate(m, g, h) && Separate(m, h, g);
    assert m.Good(g);
  }

  lemma SlotBounds(virt: nat, count: nat)
    requires virt < ADDRESS_SPACE && (count > 0 ==> virt + count * PAGE_SIZE <= RECURSIVE_BASE)
    ensures FirstSlot(virt) <= EndSlot(virt, count) <= RECURSIVE_SLOT
  {}

  /** Mapping in one address space, outside the slots it shares with the kernel, changes no
      translation in any other, the kernel's included. */
  method MapInto(m: Machine, h: Handle, virt: nat, begin: nat, end: nat, flags: nat, ghost space: set<Handle>) returns (res: int)
    requires Isolated(m, space) && h in space && PageFlags(flags) && virt < ADDRESS_SPACE && end <= ADDRESS_SPACE
    requires Machine.PagesToMap(virt, begin, end) > 0 ==>
               virt + Machine.PagesToMap(virt, begin, end) * PAGE_SIZE <= RECURSIVE_BASE
    requires Unshared(m, h, FirstSlot(virt), EndSlot(virt, Machine.PagesToMap(virt, begin, end)))
    requires Machine.EmptySlots(h.tables, FirstSlot(virt), EndSlot(virt, Machine.PagesToMap(virt, begin, end))) <= |m.free|
    modifies m`ram, m`free, h`tables, h.directory
    modifies m.TablesIn(h, FirstSlot(virt), EndSlot(virt, Machine.PagesToMap(virt, begin, end)))
    ensures Isolated(m, space)
    ensures res == if virt % PAGE_SIZE == 0 && begin % PAGE_SIZE == 0 && end % PAGE_SIZE == 0 && begin <= end then 0 else -EINVAL
    ensures h.View() == Mapped(old(h.View()), virt / PAGE_SIZE, begin / PAGE_SIZE, Machine.PagesToMap(virt, begin, end), flags)
    ensures var v, n := virt / 4096, if res == 0 then (end - begin) / 4096 else 0;
            && (forall p | 0 <= p < PAGES && !(v <= p < v + n) :: h.View()[p] == old(h.View()[p]))
            && (forall p | 0 <= p < PAGES && v <= p < v + n :: h.View()[p] == Entry(begin / 4096 + (p - v), flags))
    ensures forall g | g in space && g != h :: g.View() == old(g.View())
    ensures |m.free| == |old(m.free)|
                        - Machine.EmptySlots(old(h.tables), FirstSlot(virt), EndSlot(virt, Machine.PagesToMap(virt, begin, end)))
    ensures forall i | 0 <= i < ENTRIES :: !(FirstSlot(virt) <= i < EndSlot(virt, Machine.PagesToMap(virt, begin, end))) ==> h.tables[i] == old(h.tables[i])
  {
    hide Mapped, Handle.View, Handle.Lookup, Machine.SparesWindow, Machine.WindowPage, Machine.MemoryOk, Machine.WindowOk;
    hide FirstSlot, EndSlot, Machine.EmptySlots, Machine.PagesToMap, Consistent;
    ghost var count := Machine.PagesToMap(virt, begin, end);
    ghost var lo, hi := FirstSlot(virt), EndSlot(virt, count);
    SlotBounds(virt, count);
    ghost var was := m.BeforeMapping(h);
    forall d | lo <= d < hi
      ensures m.SparesWindow(h, d, virt, begin)
    {
      UnsharedSparesWindow(m, space, h, d);
    }
    forall g | g in space && g != h
      ensures forall j | 0 <= j < ENTRIES && g.tables[j] != null ::
              g.tables[j] != h.directory && g.tables[j] !in m.TablesIn(h, lo, hi)
      ensures g.directory != h.directory && g.directory !in m.TablesIn(h, lo, hi)
    {
      UnsharedIsPrivate(m, space, g, h, lo, hi);
    }
    ghost var news;
    res, news := m.MapFromTo(h, virt, begin, end, flags);
    forall i | 0 <= i < ENTRIES
      ensures h.tables[i] == was.tables[i] || (lo <= i < hi && was.tables[i] == null && h.tables[i] in news)
    {
      assert m.KeepsTable(h, i, was.tables[i], lo <= i < hi, news);
    }
    forall g | g in space && g != h
      ensures m.Good(g) && Separate(m, g, h) && Separate(m, h, g)
    {
      MoreRam(was.ram, m.ram, g);
      assert old(Separate(m, g, h)) && old(Separate(m, h, g));
    }
  }
}
