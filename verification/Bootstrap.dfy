/** The two page-table builders run before the allocators: the loader's
    temporary tables and the kernel's recursive ones. */
module Bootstrap {
  import opened Common
  import opened Paging

  /** The loader's tables: low memory at its own address and again at
      KERNEL_VIRT_BASE, then the table area right after it. The other 1021
      directory entries hold whatever the memory held. */
  ghost predicate LoaderTables(mem: Memory, dir: int) {
    && Load(mem, dir) == Mapped(dir + PAGE_SIZE)
    && Load(mem, dir + 768 * 4) == Mapped(dir + PAGE_SIZE)
    && Load(mem, dir + 769 * 4) == Mapped(dir + 2 * PAGE_SIZE)
    && LinearTable(mem, dir + PAGE_SIZE, 0, 1024)
    && LinearTable(mem, dir + 2 * PAGE_SIZE, TABLE_AREA, 1024)
  }

  /** The first n entries of a table map consecutive pages from `start` on. */
  ghost predicate LinearTable(mem: Memory, table: int, start: int, n: int) {
    forall j :: 0 <= j < n ==> Slot(mem, table, j) == Mapped(start + PAGE_SIZE * j)
  }

  lemma LinearTableKept(mem: Memory, mem': Memory, table: int, start: int, n: int)
    requires LinearTable(mem, table, start, n)
    requires forall a :: table <= a < table + 4 * n ==> Load(mem', a) == Load(mem, a)
    ensures LinearTable(mem', table, start, n)
  {
    forall j | 0 <= j < n
      ensures Slot(mem', table, j) == Mapped(start + PAGE_SIZE * j)
    {
      assert Slot(mem, table, j) == Mapped(start + PAGE_SIZE * j);
    }
  }

  function Slot(mem: Memory, table: int, j: int): Word {
    Load(mem, table + 4 * j)
  }

  /** Where the loader's three pages may lie: page aligned, below the area. */
  ghost predicate LoaderPlaced(dir: int) {
    0 <= dir && dir % PAGE_SIZE == 0 && dir + 3 * PAGE_SIZE <= TABLE_AREA
  }

  /** Pages whose directory entry the loader never wrote. */
  ghost function UnsetPages(): set<int> {
    set p | 0 <= p < 0x10_0000 && p / 1024 != 0 && p / 1024 != 768 && p / 1024 != 769
  }

  lemma LoaderTranslates(mem: Memory, dir: int, va: Word)
    requires LoaderTables(mem, dir) && LoaderPlaced(dir)
    ensures va < TABLE_AREA ==> Walk(mem, dir, va) == At(va)
    ensures KERNEL_VIRT_BASE <= va < KERNEL_VIRT_BASE + TABLE_AREA_END ==>
              Walk(mem, dir, va) == At(va - KERNEL_VIRT_BASE)
  {
    PageArithmetic(va);
    var i, j := va / 0x40_0000, va / PAGE_SIZE % 1024;
    MappedEntry(dir + PAGE_SIZE);
    MappedEntry(dir + 2 * PAGE_SIZE);
    if i == 0 || i == 768 {
      MappedEntry(PAGE_SIZE * j);
      assert Slot(mem, dir + PAGE_SIZE, j) == Mapped(PAGE_SIZE * j);
    } else if i == 769 {
      MappedEntry(TABLE_AREA + PAGE_SIZE * j);
      assert Slot(mem, dir + 2 * PAGE_SIZE, j) == Mapped(TABLE_AREA + PAGE_SIZE * j);
    }
  }

  /** Filling the table area leaves the loader's own translations alone. */
  lemma LoaderSurvives(mem: Memory, dir: int, a: int, w: Word)
    requires LoaderTables(mem, dir) && LoaderPlaced(dir) && TABLE_AREA <= a
    ensures LoaderTables(mem[a := w], dir)
    ensures forall p :: 0 <= p < 0x10_0000 && p !in UnsetPages() ==>
              Walk(mem[a := w], dir, p * PAGE_SIZE) == Walk(mem, dir, p * PAGE_SIZE)
  {
    var mem' := mem[a := w];
    LinearTableKept(mem, mem', dir + PAGE_SIZE, 0, 1024);
    LinearTableKept(mem, mem', dir + 2 * PAGE_SIZE, TABLE_AREA, 1024);
    forall p | 0 <= p < 0x10_0000 && p !in UnsetPages()
      ensures Walk(mem', dir, p * PAGE_SIZE) == Walk(mem, dir, p * PAGE_SIZE)
    {
      var va: Word := p * PAGE_SIZE;
      assert va / 0x40_0000 == p / 1024;
      LoaderTranslates(mem, dir, va);
      LoaderTranslates(mem', dir, va);
    }
  }

  /** One table-filling loop of the loader: 1024 entries from address esi on. */
  method FillTable(cpu: Processor, table: int, start: int) returns (next: int)
    requires 0 <= start && start + 0x40_0000 <= 0x8000_0000
    modifies cpu`mem
    ensures next == start + 0x40_0000
    ensures LinearTable(cpu.mem, table, start, 1024)
    ensures forall a :: !(table <= a < table + PAGE_SIZE) ==> Load(cpu.mem, a) == Load(old(cpu.mem), a)
  {
    var esi, edi, ecx := start, table, 0;
    while true
      invariant 0 <= ecx < 1024 && esi == start + PAGE_SIZE * ecx && edi == table + 4 * ecx
      invariant LinearTable(cpu.mem, table, start, ecx)
      invariant forall a :: !(table <= a < table + PAGE_SIZE) ==> Load(cpu.mem, a) == Load(old(cpu.mem), a)
      decreases 1024 - ecx
    {
      LinearTableKept(cpu.mem, cpu.mem[edi := Mapped(esi)], table, start, ecx);
      cpu.mem := cpu.mem[edi := Mapped(esi)];
      edi, esi, ecx := edi + 4, esi + PAGE_SIZE, ecx + 1;
      if ecx >= 1024 { break; }
    }
    next := esi;
  }

  /** The paging part of the loader's 32-bit entry; the stores are physical, for
      paging is still off. dir, dir + 0x1000 and dir + 0x2000 are the loader's
      directory and its two tables. */
  method LoaderSetup(cpu: Processor, dir: int)
    requires LoaderPlaced(dir)
    modifies cpu
    ensures LoaderTables(cpu.mem, dir) && cpu.cr3 == dir && cpu.Coherent(UnsetPages())
    ensures forall a :: !(dir <= a < dir + 3 * PAGE_SIZE) ==> Load(cpu.mem, a) == Load(old(cpu.mem), a)
    ensures forall va: Word :: va < TABLE_AREA ==> Walk(cpu.mem, cpu.cr3, va) == At(va)
    ensures forall va: Word :: KERNEL_VIRT_BASE <= va < KERNEL_VIRT_BASE + TABLE_AREA_END ==>
              Walk(cpu.mem, cpu.cr3, va) == At(va - KERNEL_VIRT_BASE)
  {
    var esi := FillTable(cpu, dir + PAGE_SIZE, 0);
    ghost var lowDone := cpu.mem;
    esi := FillTable(cpu, dir + 2 * PAGE_SIZE, esi);
    LinearTableKept(lowDone, cpu.mem, dir + PAGE_SIZE, 0, 1024);
    ghost var filled := cpu.mem;
    cpu.mem := cpu.mem[dir := Mapped(dir + PAGE_SIZE)];
    cpu.mem := cpu.mem[dir + 768 * 4 := Mapped(dir + PAGE_SIZE)];
    cpu.mem := cpu.mem[dir + 769 * 4 := Mapped(dir + 2 * PAGE_SIZE)];
    LinearTableKept(filled, cpu.mem, dir + PAGE_SIZE, 0, 1024);
    LinearTableKept(filled, cpu.mem, dir + 2 * PAGE_SIZE, TABLE_AREA, 1024);
    cpu.SwitchDirectory(dir);
    forall va: Word
      ensures va < TABLE_AREA ==> Walk(cpu.mem, cpu.cr3, va) == At(va)
      ensures KERNEL_VIRT_BASE <= va < KERNEL_VIRT_BASE + TABLE_AREA_END ==>
                Walk(cpu.mem, cpu.cr3, va) == At(va - KERNEL_VIRT_BASE)
    {
      LoaderTranslates(cpu.mem, dir, va);
    }
  }

  /** How many pages the do-while loop over the kernel image maps. */
  function ImagePages(kend: Word): (n: int)
    requires KERNEL_VIRT_BASE <= kend
    ensures n >= 1
    ensures kend - KERNEL_VIRT_BASE <= n * PAGE_SIZE
    ensures n > 1 ==> (n - 1) * PAGE_SIZE < kend - KERNEL_VIRT_BASE
  {
    var bytes := kend - KERNEL_VIRT_BASE;
    if bytes == 0 then 1 else (bytes + PAGE_SIZE - 1) / PAGE_SIZE
  }

  /** What the kernel's tables say: the directory is recursive, the image pages
      are mapped, and every other entry is the word `before` held there. */
  ghost predicate KernelTables(before: Memory, mem: Memory, kend: Word)
    requires KERNEL_VIRT_BASE <= kend
  {
    && Recursive(mem)
    && (forall p :: 0 <= p < ImagePages(kend) ==> Pte(mem, 0xC_0000 + p) == Mapped(PAGE_SIZE * p))
    && (forall q :: 0 <= q < 0xF_FC00 && !(0xC_0000 <= q < 0xC_0000 + ImagePages(kend)) ==>
          Pte(mem, q) == Pte(before, q))
  }

  /** One store of a builder loop, through the loader's tables. */
  method StoreEntryAt(cpu: Processor, dir: int, edi: Word, entry: Word)
    requires LoaderTables(cpu.mem, dir) && LoaderPlaced(dir)
    requires cpu.cr3 == dir && cpu.Coherent(UnsetPages())
    requires KERNEL_VIRT_BASE + TABLE_AREA <= edi < KERNEL_VIRT_BASE + TABLE_AREA_END
    modifies cpu`mem, cpu`tlb
    ensures cpu.mem == old(cpu.mem)[edi - KERNEL_VIRT_BASE := entry]
    ensures LoaderTables(cpu.mem, dir) && cpu.Coherent(UnsetPages())
  {
    LoaderTranslates(cpu.mem, dir, edi);
    assert PageOf(edi) / 1024 == 769;
    LoaderSurvives(cpu.mem, dir, edi - KERNEL_VIRT_BASE, entry);
    cpu.Write(edi, entry, UnsetPages());
  }

  const IMAGE_TABLE := TABLE_AREA + 768 * PAGE_SIZE

  /** The state in which both builder loops run. */
  ghost predicate OnLoaderTables(mem: Memory, cr3: int, dir: int) {
    LoaderTables(mem, dir) && LoaderPlaced(dir) && cr3 == dir
  }

  /** First loop: one entry for every page of the kernel image. */
  method MapImage(cpu: Processor, dir: int, kend: Word)
    requires OnLoaderTables(cpu.mem, cpu.cr3, dir) && cpu.Coherent(UnsetPages())
    requires KERNEL_VIRT_BASE <= kend <= KERNEL_VIRT_BASE + TABLE_AREA
    modifies cpu`mem, cpu`tlb
    ensures OnLoaderTables(cpu.mem, cpu.cr3, dir) && cpu.Coherent(UnsetPages())
    ensures LinearTable(cpu.mem, IMAGE_TABLE, 0, ImagePages(kend))
    ensures forall a :: !(IMAGE_TABLE <= a < IMAGE_TABLE + 4 * ImagePages(kend)) ==>
              Load(cpu.mem, a) == Load(old(cpu.mem), a)
  {
    var esi, edi := 0, KERNEL_VIRT_BASE + IMAGE_TABLE;
    ghost var p := 0;
    while true
      invariant 0 <= p < ImagePages(kend) && esi == PAGE_SIZE * p
      invariant edi == KERNEL_VIRT_BASE + IMAGE_TABLE + 4 * p
      invariant OnLoaderTables(cpu.mem, cpu.cr3, dir) && cpu.Coherent(UnsetPages())
      invariant LinearTable(cpu.mem, IMAGE_TABLE, 0, p)
      invariant forall a :: !(IMAGE_TABLE <= a < IMAGE_TABLE + 4 * p) ==>
                  Load(cpu.mem, a) == Load(old(cpu.mem), a)
      decreases ImagePages(kend) - p
    {
      LinearTableKept(cpu.mem, cpu.mem[edi - KERNEL_VIRT_BASE := Mapped(esi)], IMAGE_TABLE, 0, p);
      StoreEntryAt(cpu, dir, edi, Mapped(esi));
      edi, esi, p := edi + 4, esi + PAGE_SIZE, p + 1;
      if !(esi < kend - KERNEL_VIRT_BASE) { break; }
    }
    assert p == ImagePages(kend);
  }

  /** Second loop: directory entry i names table i, so entry 1023 names the
      directory itself. */
  method MapTables(cpu: Processor, dir: int)
    requires OnLoaderTables(cpu.mem, cpu.cr3, dir) && cpu.Coherent(UnsetPages())
    modifies cpu`mem, cpu`tlb
    ensures Recursive(cpu.mem)
    ensures forall a :: !(PAGE_DIR <= a < PAGE_DIR + PAGE_SIZE) ==> Load(cpu.mem, a) == Load(old(cpu.mem), a)
  {
    var esi, edi, ecx := TABLE_AREA, KERNEL_VIRT_BASE + PAGE_DIR, 0;
    while true
      invariant 0 <= ecx < 1024 && esi == TABLE_AREA + PAGE_SIZE * ecx
      invariant edi == KERNEL_VIRT_BASE + PAGE_DIR + 4 * ecx
      invariant OnLoaderTables(cpu.mem, cpu.cr3, dir) && cpu.Coherent(UnsetPages())
      invariant LinearTable(cpu.mem, PAGE_DIR, TABLE_AREA, ecx)
      invariant forall a :: !(PAGE_DIR <= a < PAGE_DIR + 4 * ecx) ==> Load(cpu.mem, a) == Load(old(cpu.mem), a)
      decreases 1024 - ecx
    {
      LinearTableKept(cpu.mem, cpu.mem[edi - KERNEL_VIRT_BASE := Mapped(esi)], PAGE_DIR, TABLE_AREA, ecx);
      StoreEntryAt(cpu, dir, edi, Mapped(esi));
      edi, esi, ecx := edi + 4, esi + PAGE_SIZE, ecx + 1;
      if ecx >= 1024 { break; }
    }
    assert forall i :: 0 <= i < 1024 ==> Pde(cpu.mem, i) == Slot(cpu.mem, PAGE_DIR, i);
  }

  /** `mm_bootstrap`. Every store goes through a virtual address that only the
      loader's tables make reach the table area. */
  method MmBootstrap(cpu: Processor, dir: int, kend: Word)
    requires OnLoaderTables(cpu.mem, cpu.cr3, dir) && cpu.Coherent(UnsetPages())
    requires KERNEL_VIRT_BASE <= kend <= KERNEL_VIRT_BASE + TABLE_AREA   // the kernel is assumed below 4 MiB
    modifies cpu
    ensures cpu.cr3 == PAGE_DIR && cpu.Coherent({})
    ensures KernelTables(old(cpu.mem), cpu.mem, kend)
    ensures forall a :: !(TABLE_AREA <= a < TABLE_AREA_END) ==> Load(cpu.mem, a) == Load(old(cpu.mem), a)
    ensures forall va: Word :: KERNEL_VIRT_BASE <= va < kend ==>
              && Walk(old(cpu.mem), old(cpu.cr3), va) == At(va - KERNEL_VIRT_BASE)
              && Walk(cpu.mem, cpu.cr3, va) == At(va - KERNEL_VIRT_BASE)
  {
    ghost var before := cpu.mem;
    MapImage(cpu, dir, kend);
    ghost var image := cpu.mem;
    MapTables(cpu, dir);
    LinearTableKept(image, cpu.mem, IMAGE_TABLE, 0, ImagePages(kend));
    cpu.SwitchDirectory(PAGE_DIR);
    assert KernelTables(before, cpu.mem, kend) by {
      forall p | 0 <= p < ImagePages(kend)
        ensures Pte(cpu.mem, 0xC_0000 + p) == Mapped(PAGE_SIZE * p)
      {
        assert Slot(cpu.mem, IMAGE_TABLE, p) == Mapped(0 + PAGE_SIZE * p);
      }
      assert forall q :: 0 <= q < 0xF_FC00 && !(0xC_0000 <= q < 0xC_0000 + ImagePages(kend)) ==>
          Load(cpu.mem, TABLE_AREA + 4 * q) == Load(before, TABLE_AREA + 4 * q);
    }
    forall va: Word | KERNEL_VIRT_BASE <= va < kend
      ensures Walk(before, dir, va) == At(va - KERNEL_VIRT_BASE)
      ensures Walk(cpu.mem, cpu.cr3, va) == At(va - KERNEL_VIRT_BASE)
    {
      LoaderTranslates(before, dir, va);
      KernelTablesMeaning(before, cpu.mem, kend, va);
    }
  }

  /** The whole of what the new tables mean: the window shows the table array,
      the image sits where it did, and any other page is mapped just as the word the
      RAM held at its place in the table area happens to say. */
  lemma KernelTablesMeaning(before: Memory, mem: Memory, kend: Word, va: Word)
    requires KERNEL_VIRT_BASE <= kend <= KERNEL_VIRT_BASE + TABLE_AREA
    requires KernelTables(before, mem, kend)
    ensures Walk(mem, PAGE_DIR, WindowAddr(PageOf(va))) == At(TABLE_AREA + 4 * PageOf(va))
    ensures 0xC_0000 <= PageOf(va) < 0xC_0000 + ImagePages(kend) ==>
              Walk(mem, PAGE_DIR, va) == At(va - KERNEL_VIRT_BASE)
    ensures va >= MM_KERNEL_PTE_BASE ==>
              Walk(mem, PAGE_DIR, va) == At(TABLE_AREA + (va - MM_KERNEL_PTE_BASE))
    ensures va < MM_KERNEL_PTE_BASE && !(0xC_0000 <= PageOf(va) < 0xC_0000 + ImagePages(kend)) ==>
              Walk(mem, PAGE_DIR, va) == ThroughEntry(Pte(before, PageOf(va)), va % PAGE_SIZE)
  {
    WindowReachesTables(mem, PageOf(va));
    FlatWalk(mem, va);
    if 0xC_0000 <= PageOf(va) < 0xC_0000 + ImagePages(kend) { ImageEntry(before, mem, kend, va); }
    if va >= MM_KERNEL_PTE_BASE { WindowEntry(mem, va); }
    hide Walk, WindowAddr, ThroughEntry, Recursive;
  }

  lemma ImageEntry(before: Memory, mem: Memory, kend: Word, va: Word)
    requires KERNEL_VIRT_BASE <= kend <= KERNEL_VIRT_BASE + TABLE_AREA && KernelTables(before, mem, kend)
    requires 0xC_0000 <= PageOf(va) < 0xC_0000 + ImagePages(kend)
    ensures ThroughEntry(Pte(mem, PageOf(va)), va % PAGE_SIZE) == At(va - KERNEL_VIRT_BASE)
  {
    var q := PageOf(va) - 0xC_0000;
    assert Pte(mem, 0xC_0000 + q) == Mapped(PAGE_SIZE * q);
    MappedEntry(PAGE_SIZE * q);
  }

  lemma WindowEntry(mem: Memory, va: Word)
    requires Recursive(mem) && va >= MM_KERNEL_PTE_BASE
    ensures ThroughEntry(Pte(mem, PageOf(va)), va % PAGE_SIZE) == At(TABLE_AREA + (va - MM_KERNEL_PTE_BASE))
  {
    var i := PageOf(va) - 0xF_FC00;
    assert Pte(mem, PageOf(va)) == Pde(mem, i);
    TableFrame(i);
  }
}
