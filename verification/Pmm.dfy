/** The physical page allocator as it runs: every header is reached through the
    one temporary virtual page, whose table entry is itself written through the
    recursive window. */
module Pmm {
  import opened Common
  import opened Paging
  import opened PmmSpec
  import opened Bootstrap

  /** Memory with the temporary entry read as clear. */
  function Sans(mem: Memory): Memory {
    mem[TEMP_SLOT := 0]
  }

  lemma SansStore(mem: Memory, a: int, w: Word)
    ensures a != TEMP_SLOT ==> Sans(mem[a := w]) == Sans(mem)[a := w]
    ensures Sans(mem[TEMP_SLOT := w]) == Sans(mem)
  {
  }

  /** With the temporary entry clear, reading it as clear changes nothing. */
  lemma SansWalks(mem: Memory)
    requires Load(mem, TEMP_SLOT) == 0
    ensures forall cr3: int, va: Word :: Walk(Sans(mem), cr3, va) == Walk(mem, cr3, va)
    ensures Recursive(mem) <==> Recursive(Sans(mem))
  {
    SameMemoryWalks(Sans(mem), mem);
    assert forall i :: 0 <= i < 1024 ==> Pde(Sans(mem), i) == Pde(mem, i);
  }

  /** Code that stores page addresses never touches the tables through the window. */
  predicate Storable(pa: int) {
    0 <= pa < LIMIT && pa % PAGE_SIZE == 0 && !(TABLE_AREA <= pa < TABLE_AREA_END)
  }

  /** `and reg, -PAGE_SIZE` and its rounding-up companion. */
  function AlignDown(x: Word): Word {
    x - x % PAGE_SIZE
  }

  function AlignUp(x: Word): Word {
    AlignDown((x + PAGE_SIZE - 1) % LIMIT)
  }

  /** The ranges `pmm_init` puts on the list, most recent first. */
  function InitBlocks(image: Word, highMem: Word): seq<Block> {
    var start := AlignUp(image);
    var high := Block(0x800, (AlignDown(highMem) - 0x80_0000) % LIMIT / PAGE_SIZE);
    if start < TABLE_AREA - PAGE_SIZE then [high, Block(start / PAGE_SIZE, (TABLE_AREA - start) / PAGE_SIZE)]
    else [high]
  }

  /** The pages those ranges hold: past the image up to the table area, and from
      8 MiB to the end of memory. */
  function InitPages(image: Word, highMem: Word): set<int> {
    FreePages(InitBlocks(image, highMem))
  }

  /** Exactly when `pmm_init` leaves a usable allocator: memory must reach past
      8 MiB by a page at least, and by less than 2 GiB. */
  lemma InitGoodIff(image: Word, highMem: Word)
    requires 0 < image <= TABLE_AREA
    ensures Separate(InitBlocks(image, highMem)) && Manageable(InitPages(image, highMem))
       <==> 0x80_1000 <= highMem < 0x8080_0000
    ensures forall p :: p in InitPages(image, highMem) ==>
              image <= p * PAGE_SIZE < TABLE_AREA || p >= 0x800
  {
    var blocks := InitBlocks(image, highMem);
    var high := blocks[0];
    assert AlignUp(image) >= image;
    assert forall b :: b in blocks ==> b == blocks[0] || (|blocks| > 1 && b == blocks[1]);
    HighCountIff(highMem);
  }

  /** Exactly which pages `pmm_init` manages: those from the image's end to 4 MiB, if
      two pages at least are left there, and those from 8 MiB to the end of memory. */
  lemma InitPagesExact(image: Word, highMem: Word, p: int)
    requires 0 < image <= TABLE_AREA && 0x80_1000 <= highMem < 0x8080_0000
    ensures p in InitPages(image, highMem)
            <==> || (image <= 0x3F_E000 && image <= p * 0x1000 < 0x40_0000)
                 || (0x800 <= p && (p + 1) * 0x1000 <= highMem)
  {
    var blocks := InitBlocks(image, highMem);
    var high, start := blocks[0], AlignUp(image);
    HighPages(highMem, p);
    LowPages(image, p);
    assert p in FreePages(blocks) <==> exists b :: b in blocks && p in Pages(b);
    assert high in blocks && (|blocks| > 1 ==> blocks[1] in blocks);
    assert forall b :: b in blocks ==> b == high || (|blocks| > 1 && b == blocks[1]);
    assert forall b: Block :: p in Pages(b) <==> Holds(b, p);
    hide AlignUp, AlignDown;
  }

  lemma HighPages(highMem: Word, p: int)
    requires 0x80_1000 <= highMem < 0x8080_0000
    ensures Holds(Block(0x800, (AlignDown(highMem) - 0x80_0000) % LIMIT / PAGE_SIZE), p)
            <==> 0x800 <= p && (p + 1) * 0x1000 <= highMem
  {
    var q := highMem / PAGE_SIZE;
    assert AlignDown(highMem) == q * PAGE_SIZE;
    assert (AlignDown(highMem) - 0x80_0000) % LIMIT == (q - 0x800) * PAGE_SIZE;
  }

  lemma LowPages(image: Word, p: int)
    requires 0 < image <= TABLE_AREA
    ensures var start := AlignUp(image);
            && (start < TABLE_AREA - PAGE_SIZE <==> image <= 0x3F_E000)
            && start <= TABLE_AREA
            && (Holds(Block(start / PAGE_SIZE, (TABLE_AREA - start) / PAGE_SIZE), p)
                <==> image <= p * 0x1000 < 0x40_0000)
  {
    var q := (image + PAGE_SIZE - 1) / PAGE_SIZE;
    assert AlignUp(image) == q * PAGE_SIZE;
    assert AlignUp(image) / PAGE_SIZE == q;
    assert (TABLE_AREA - AlignUp(image)) / PAGE_SIZE == 0x400 - q;
  }

  lemma HighCountIff(highMem: Word)
    ensures var n := (AlignDown(highMem) - 0x80_0000) % LIMIT / PAGE_SIZE;
            0 < n < 0x8_0000 <==> 0x80_1000 <= highMem < 0x8080_0000
  {
    var aligned := AlignDown(highMem);
    assert aligned % PAGE_SIZE == 0;
    if aligned < 0x80_0000 {
      assert (aligned - 0x80_0000) % LIMIT == aligned - 0x80_0000 + LIMIT;
    }
  }

  class Allocator {
    const cpu: Processor
    var head: Word              // pPmmFreeListHead
    ghost var free: seq<Block>
    ghost var live: set<int>
    ghost var managed: set<int>

    /** Paging is on, recursive, and the cache agrees with the tables. */
    ghost predicate Ready()
      reads cpu
    {
      cpu.cr3 == PAGE_DIR && Recursive(cpu.mem) && cpu.Coherent({})
    }

    ghost function Now(): World
      reads this, cpu
    {
      World(Sans(cpu.mem), head, free, live)
    }

    ghost predicate Valid()
      reads this, cpu
    {
      Ready() && Load(cpu.mem, TEMP_SLOT) == 0 && Inv(Now(), managed)
    }

    /** The temporary page shows the physical page at pa. */
    ghost predicate Shows(pa: int)
      reads cpu
    {
      && Walk(cpu.mem, PAGE_DIR, PMM_VIRT_TEMP) == At(pa)
      && Walk(cpu.mem, PAGE_DIR, PMM_VIRT_TEMP + 4) == At(pa + 4)
    }

    constructor (cpu: Processor)
      requires cpu.cr3 == PAGE_DIR && Recursive(cpu.mem) && cpu.Coherent({})
      ensures this.cpu == cpu && Ready() && head == 0 && free == []
    {
      this.cpu, head := cpu, 0;
      free, live, managed := [], {}, {};
    }

    /** Store one entry for the temporary page and flush it. */
    method SetTemp(entry: Word)
      requires Ready()
      modifies cpu`mem, cpu`tlb
      ensures Ready() && Sans(cpu.mem) == Sans(old(cpu.mem)) && Load(cpu.mem, TEMP_SLOT) == entry
      ensures forall va: Word :: PageOf(va) != TEMP_PAGE ==>
                Walk(cpu.mem, PAGE_DIR, va) == Walk(old(cpu.mem), PAGE_DIR, va)
      ensures forall va: Word :: PageOf(va) == TEMP_PAGE ==>
                Walk(cpu.mem, PAGE_DIR, va) == ThroughEntry(entry, va % PAGE_SIZE)
    {
      WindowReachesTables(cpu.mem, TEMP_PAGE);
      StoreEntry(cpu.mem, TEMP_PAGE, entry);
      SansStore(cpu.mem, TEMP_SLOT, entry);
      cpu.Write(WindowAddr(TEMP_PAGE), entry, {});
      cpu.Invalidate(PMM_VIRT_TEMP);
      forall p | p in cpu.tlb
        ensures 0 <= p < 0x10_0000 && Walk(cpu.mem, cpu.cr3, p * PAGE_SIZE) == At(cpu.tlb[p])
      {
        assert PageOf(p * PAGE_SIZE) == p;
        assert p != TEMP_PAGE;
      }
    }

    /** `_pmm_map_temp_page` */
    method MapTempPage(pa: Word)
      requires Ready() && pa % PAGE_SIZE == 0
      modifies cpu`mem, cpu`tlb
      ensures Ready() && Shows(pa) && Sans(cpu.mem) == Sans(old(cpu.mem))
    {
      MappedEntry(pa);
      SetTemp(pa + 3);
      assert PageOf(PMM_VIRT_TEMP) == TEMP_PAGE && PageOf(PMM_VIRT_TEMP + 4) == TEMP_PAGE;
    }

    /** `_pmm_unmap_temp_page` */
    method UnmapTempPage()
      requires Ready()
      modifies cpu`mem, cpu`tlb
      ensures Ready() && Sans(cpu.mem) == Sans(old(cpu.mem)) && Load(cpu.mem, TEMP_SLOT) == 0
      ensures Walk(cpu.mem, PAGE_DIR, PMM_VIRT_TEMP) == Fault
    {
      SetTemp(0);
      assert PageOf(PMM_VIRT_TEMP) == TEMP_PAGE;
    }

    /** A header word read through the temporary page is the physical one. */
    method Peek(offset: Word, ghost pa: int) returns (w: Word)
      requires Ready() && Shows(pa) && (offset == 0 || offset == 4) && Storable(pa)
      modifies cpu`tlb
      ensures Ready() && Shows(pa) && w == Load(Sans(cpu.mem), pa + offset)
    {
      w := cpu.Read(PMM_VIRT_TEMP + offset, {});
    }

    /** A header word written through the temporary page is the physical one. */
    method Poke(offset: Word, w: Word, ghost pa: int)
      requires Ready() && Shows(pa) && (offset == 0 || offset == 4) && Storable(pa)
      modifies cpu`mem, cpu`tlb
      ensures Sans(cpu.mem) == Sans(old(cpu.mem))[pa + offset := w] && Ready() && Shows(pa)
    {
      hide Walk, Recursive, Sans;
      StoreOutsideTables(cpu.mem, pa + offset, w);
      SansStore(cpu.mem, pa + offset, w);
      cpu.Write(PMM_VIRT_TEMP + offset, w, {});
    }

    /** `_pmm_init_region` */
    method InitRegion(start: Word, end: Word)
      requires Ready() && Storable(start)
      modifies this`head, cpu`mem, cpu`tlb
      ensures Ready() && Load(cpu.mem, TEMP_SLOT) == 0 && head == start
      ensures Sans(cpu.mem) == Sans(old(cpu.mem))[start := (end - start) % LIMIT][start + 4 := old(head)]
    {
      hide Ready, Shows, Sans;
      MapTempPage(start);
      Poke(0, (end - start) % LIMIT, start);
      Overwrite(Sans(cpu.mem), start + 4, 0, head);
      Poke(4, 0, start);
      if head != 0 {
        Poke(4, head, start);
      }
      head := start;
      UnmapTempPage();
    }

    /** The list `pmm_init` builds: the remainder of the first 4 MiB unless it is
        one page or less, then everything from 8 MiB on. */
    method InitRegions(kend: Word, highMem: Word)
      requires Ready() && head == 0
      requires KERNEL_VIRT_BASE < kend <= KERNEL_VIRT_BASE + TABLE_AREA
      modifies this`head, cpu`mem, cpu`tlb
      ensures Ready() && Load(cpu.mem, TEMP_SLOT) == 0
      ensures head == 0x80_0000
      ensures InitWords(Sans(cpu.mem), kend - KERNEL_VIRT_BASE, highMem)
    {
      hide Ready;
      var eax := AlignUp(kend - KERNEL_VIRT_BASE);
      var edx: Word := (TABLE_AREA - eax) % LIMIT;
      if Signed(edx) > 0 && Signed(edx) > PAGE_SIZE {
        InitRegion(eax, TABLE_AREA);
      }
      edx := AlignDown(highMem);
      InitRegion(0x80_0000, edx);
    }

    /** `pmm_init` */
    method Init(kend: Word, highMem: Word)
      requires Ready() && head == 0 && free == []
      requires KERNEL_VIRT_BASE < kend <= KERNEL_VIRT_BASE + TABLE_AREA
      modifies this, cpu`mem, cpu`tlb
      ensures Ready() && free == InitBlocks(kend - KERNEL_VIRT_BASE, highMem) && live == {}
      ensures 0x80_1000 <= highMem < 0x8080_0000 ==>
                Valid() && managed == InitPages(kend - KERNEL_VIRT_BASE, highMem)
      ensures head == 0x80_0000 && InitWords(Sans(cpu.mem), kend - KERNEL_VIRT_BASE, highMem)
    {
      ghost var image: Word := kend - KERNEL_VIRT_BASE;
      InitRegions(kend, highMem);
      free, live, managed := InitBlocks(image, highMem), {}, InitPages(image, highMem);
      if 0x80_1000 <= highMem < 0x8080_0000 {
        InitGoodIff(image, highMem);
        SansWalks(cpu.mem);
        InitChain(Sans(cpu.mem), image, highMem);
      }
    }

    /** `pmm_alloc`, for every 32-bit request. */
    method Alloc(eax: Word) returns (addr: Word, err: int)
      requires Valid()
      modifies this`head, this`free, this`live, cpu`mem, cpu`tlb
      ensures Ready()
      ensures Outcome(Sans(cpu.mem), head, addr, err) == RawAlloc(Sans(old(cpu.mem)), old(head), old(free), eax)
      ensures eax < 0x8_0000 ==> Valid() && Now() == DoAlloc(old(Now()), eax)
      ensures eax < 0x8_0000 ==> forall va: Word :: Walk(cpu.mem, PAGE_DIR, va) == Walk(old(cpu.mem), PAGE_DIR, va)
    {
      ghost var w := Now();
      addr, err := Search(eax);
      if eax < 0x8_0000 {
        AllocKeepsInv(w, eax, managed);
        RawIsPlain(w.mem, w.head, w.free, eax);
        free, live := DoAlloc(w, eax).free, DoAlloc(w, eax).live;
        SansWalks(old(cpu.mem));
        SansWalks(cpu.mem);
      }
    }

    /** The loop of `pmm_alloc`: walk the list through the temporary page, stop
        at the first block the signed test accepts, take its tail. */
    method Search(eax: Word) returns (addr: Word, err: int)
      requires Valid()
      modifies this`head, cpu`mem, cpu`tlb
      ensures Ready() && Load(cpu.mem, TEMP_SLOT) == 0
      ensures Outcome(Sans(cpu.mem), head, addr, err) == RawAlloc(Sans(old(cpu.mem)), old(head), free, eax)
    {
      hide Ready, Shows, Taken, ByteSize, FirstAccepted;
      ghost var mem0 := Sans(cpu.mem);
      var edi := ByteSize(eax);
      var ebx: Word, esi: Word := 0, head;
      ghost var k := 0;
      while true
        invariant k <= |free| && esi == Addr(free, k) && ebx == Addr(free, k - 1)
        invariant forall i :: 0 <= i < k ==> !Accepts(free[i], edi)
        invariant Ready() && Sans(cpu.mem) == mem0 && Load(cpu.mem, TEMP_SLOT) == 0 && head == old(head)
        decreases |free| - k
      {
        BlockFacts(free, live, managed, k);
        if esi == 0 {
          FirstAcceptedIs(free, edi, k);
          return 0, ENOMEM;
        }
        assert Header(mem0, free, k);
        MapTempPage(esi);
        var size := Peek(0, esi);
        if Signed(size) >= Signed(edi) {
          var rest: Word := (size - edi) % LIMIT;
          FirstAcceptedIs(free, edi, k);
          Take(rest, ebx, esi, k);
          return (esi + rest) % LIMIT, 0;
        }
        ebx := esi;
        esi := Peek(4, esi);
        UnmapTempPage();
        k := k + 1;
      }
    }

    /** `pmm_alloc` once block k is found and mapped. */
    method Take(rest: Word, ebx: Word, esi: Word, ghost k: nat)
      requires Ready() && Shows(esi) && Storable(esi) && Storable(ebx)
      requires k < |free| && esi == Addr(free, k) && ebx == Addr(free, k - 1)
      requires Load(Sans(cpu.mem), esi + 4) == Addr(free, k + 1)
      requires k > 0 ==> ebx != 0
      requires forall i :: 0 <= i < |free| ==> free[i].page * PAGE_SIZE < LIMIT
      modifies this`head, cpu`mem, cpu`tlb
      ensures Ready() && Load(cpu.mem, TEMP_SLOT) == 0
      ensures Outcome(Sans(cpu.mem), head, (esi + rest) % LIMIT, 0)
           == Taken(Sans(old(cpu.mem)), old(head), free, k, rest)
    {
      hide Ready, Shows;
      Poke(0, rest, esi);
      if rest == 0 {
        var edi := Peek(4, esi);
        if ebx == 0 {
          head := edi;
        } else {
          UnmapTempPage();
          MapTempPage(ebx);
          Poke(4, edi, ebx);
        }
      }
      UnmapTempPage();
    }

    /** The stores of `pmm_free`. */
    method Push(start: Word, size: Word)
      requires Ready() && Storable(start)
      modifies this`head, cpu`mem, cpu`tlb
      ensures Ready() && Load(cpu.mem, TEMP_SLOT) == 0 && head == start
      ensures Sans(cpu.mem) == Sans(old(cpu.mem))[start + 4 := old(head)][start := size]
    {
      MapTempPage(start);
      Poke(4, head, start);
      Poke(0, size, start);
      head := start;
      UnmapTempPage();
    }

    /** `pmm_free` of pages the caller holds. */
    method Free(start: Word, count: Word)
      requires Valid() && start % PAGE_SIZE == 0
      requires Returnable(Now(), Block(start / PAGE_SIZE, count))
      modifies this`head, this`free, this`live, cpu`mem, cpu`tlb
      ensures Valid() && Now() == DoFree(old(Now()), Block(start / PAGE_SIZE, count))
      ensures forall va: Word :: Walk(cpu.mem, PAGE_DIR, va) == Walk(old(cpu.mem), PAGE_DIR, va)
    {
      ghost var w, b := Now(), Block(start / PAGE_SIZE, count);
      FreeKeepsInv(w, b, managed);
      SansWalks(cpu.mem);
      assert b.page in Pages(b);
      Push(start, ByteSize(count));
      free, live := [b] + free, live - Pages(b);
      SansWalks(cpu.mem);
    }

    /** A client store of an aligned word of a page it holds leaves the allocator valid. */
    method ClientStore(a: int, v: Word)
      requires Valid() && 0 <= a && a % 4 == 0 && a / PAGE_SIZE in live
      modifies cpu`mem
      ensures Valid() && Now() == DoWrite(old(Now()), a, v)
    {
      SansWalks(cpu.mem);
      WriteKeepsInv(Now(), a, v, managed);
      SansStore(cpu.mem, a, v);
      StoreOutsideTables(cpu.mem, a, v);
      assert !(TABLE_AREA <= a / PAGE_SIZE * PAGE_SIZE < TABLE_AREA_END);
      cpu.mem := cpu.mem[a := v];
    }
  }

  lemma FirstAcceptedIs(free: seq<Block>, need: Word, k: nat)
    requires forall i :: 0 <= i < |free| ==> free[i].count * PAGE_SIZE < LIMIT
    requires k <= |free| && forall i :: 0 <= i < k ==> !Accepts(free[i], need)
    requires k < |free| ==> Accepts(free[k], need)
    ensures FirstAccepted(free, need) == k
  {
  }

  /** What block k and its neighbours are known to satisfy. */
  lemma BlockFacts(free: seq<Block>, live: set<int>, managed: set<int>, k: nat)
    requires Separate(free) && Partition(free, live, managed) && Manageable(managed) && k <= |free|
    ensures forall i :: 0 <= i < |free| ==> free[i].count * PAGE_SIZE < LIMIT && free[i].page * PAGE_SIZE < LIMIT
    ensures k < |free| ==> Storable(Addr(free, k)) && Addr(free, k) != 0
    ensures 0 < k <= |free| ==> Storable(Addr(free, k - 1)) && Addr(free, k - 1) != 0
    ensures 0 < k < |free| ==> Addr(free, k - 1) != Addr(free, k)
  {
    if k < |free| { HeaderPage(free, k); }
    if k > 0 { HeaderPage(free, k - 1); }
    if 0 < k < |free| { HeadersDiffer(free, k - 1, k); }
  }

  /** The header words `pmm_init` stores. */
  ghost predicate InitWords(mem: Memory, image: Word, highMem: Word) {
    var start := AlignUp(image);
    && Load(mem, 0x80_0000) == (AlignDown(highMem) - 0x80_0000) % LIMIT
    && if start < TABLE_AREA - PAGE_SIZE
       then Load(mem, 0x80_0004) == start && Load(mem, start) == TABLE_AREA - start && Load(mem, start + 4) == 0
       else Load(mem, 0x80_0004) == 0
  }

  lemma WholePages(x: int)
    requires x % PAGE_SIZE == 0
    ensures x / PAGE_SIZE * PAGE_SIZE == x
  {
  }

  /** They spell the list. */
  lemma InitChain(mem: Memory, image: Word, highMem: Word)
    requires 0 < image <= TABLE_AREA && 0x80_1000 <= highMem < 0x8080_0000
    requires InitWords(mem, image, highMem)
    ensures Chain(mem, 0x80_0000, InitBlocks(image, highMem))
  {
    var free := InitBlocks(image, highMem);
    var start := AlignUp(image);
    WholePages(AlignDown(highMem) - 0x80_0000);
    WholePages(start);
    WholePages(TABLE_AREA - start);
    hide AlignDown, AlignUp, Load;
    assert Header(mem, free, 0);
    if |free| == 2 {
      assert Header(mem, free, 1);
    }
  }

  /** After `pmm_init`, no run ever hands out or frees a page of the kernel image
      or of the page tables. */
  lemma KernelNeverHandedOut(worlds: seq<World>, ops: seq<Op>, image: Word, highMem: Word, k: nat, p: int)
    requires 0 < image <= TABLE_AREA && IsRun(worlds, ops) && k < |worlds|
    requires Inv(worlds[0], InitPages(image, highMem))
    requires p in FreePages(worlds[k].free) || p in worlds[k].live
    ensures image <= p * PAGE_SIZE && !(TABLE_AREA <= p * PAGE_SIZE < TABLE_AREA_END)
  {
    RunKeepsInv(worlds, ops, InitPages(image, highMem), k);
    InitGoodIff(image, highMem);
    assert p in InitPages(image, highMem);
  }

  /** From the loader's entry to the first allocation: both page-table builders,
      then `pmm_init`. */
  method Boot(cpu: Processor, dir: int, kend: Word, highMem: Word) returns (a: Allocator)
    requires LoaderPlaced(dir)
    requires KERNEL_VIRT_BASE < kend <= KERNEL_VIRT_BASE + TABLE_AREA
    modifies cpu
    ensures fresh(a) && a.cpu == cpu && a.Ready()
    ensures 0x80_1000 <= highMem < 0x8080_0000 ==>
              a.Valid() && a.managed == InitPages(kend - KERNEL_VIRT_BASE, highMem) && a.live == {}
  {
    LoaderSetup(cpu, dir);
    MmBootstrap(cpu, dir, kend);
    a := new Allocator(cpu);
    a.Init(kend, highMem);
  }
}
