/** Physical memory seen as aligned 32-bit words, and the two-level page walk
    of an x86 processor in 4 KiB mode. */
module Paging {
  import opened Common

  /** Physical memory. A key is the byte address of an aligned word; a word that
      was never written reads as zero, so every memory content has a map. */
  type Memory = map<int, Word>

  function Load(mem: Memory, a: int): Word {
    if a in mem then mem[a] else 0
  }

  /** Two memories that no load can tell apart. */
  ghost predicate SameMemory(m1: Memory, m2: Memory) {
    forall a :: Load(m1, a) == Load(m2, a)
  }

  datatype Translation = Fault | At(pa: int)

  const PAGE_SIZE := 0x1000
  const KERNEL_VIRT_BASE := 0xC000_0000
  const TABLE_AREA := 0x40_0000                              // first page table
  const TABLE_AREA_END := 0x80_0000
  const PAGE_DIR := TABLE_AREA + 1023 * PAGE_SIZE            // the last table is the directory
  const MM_KERNEL_PTE_BASE := 0xFFC0_0000                    // where the tables appear

  function PageOf(va: Word): (p: int)
    ensures 0 <= p < 0x10_0000
    ensures p * PAGE_SIZE <= va < p * PAGE_SIZE + PAGE_SIZE
  {
    va / PAGE_SIZE
  }

  function Frame(entry: Word): Word {
    entry - entry % PAGE_SIZE
  }

  predicate Present(entry: Word) {
    entry % 2 == 1
  }

  predicate Writable(entry: Word) {
    entry / 2 % 2 == 1
  }

  /** `or edx, (PTE_P or PTE_W)` applied to a page-aligned address. */
  function Mapped(frame: int): int {
    frame + 3
  }

  lemma MappedEntry(frame: int)
    requires 0 <= frame <= 0xFFFF_F000 && frame % PAGE_SIZE == 0
    ensures Present(Mapped(frame)) && Writable(Mapped(frame)) && Frame(Mapped(frame)) == frame
  {
    var k := frame / PAGE_SIZE;
    assert Mapped(frame) == PAGE_SIZE * k + 3;
    assert Mapped(frame) == 2 * (2048 * k + 1) + 1;
  }

  function ThroughEntry(pte: Word, offset: int): Translation {
    if Present(pte) then At(Frame(pte) + offset) else Fault
  }

  /** The processor's walk: directory entry, then table entry, then offset. */
  function Walk(mem: Memory, cr3: int, va: Word): Translation {
    var pde := Load(mem, cr3 + va / 0x40_0000 * 4);
    if !Present(pde) then Fault
    else ThroughEntry(Load(mem, Frame(pde) + va / PAGE_SIZE % 1024 * 4), va % PAGE_SIZE)
  }

  /** An address is translated exactly if both entries on its way are present. */
  lemma WalkFaultsIff(mem: Memory, cr3: int, va: Word)
    ensures var pde := Load(mem, cr3 + va / 0x40_0000 * 4);
            Walk(mem, cr3, va) == Fault
            <==> pde % 2 == 0 || Load(mem, pde / 0x1000 * 0x1000 + va / 0x1000 % 1024 * 4) % 2 == 0
  {
  }

  /** Directory entry number i of the directory at TABLE_AREA's last page. */
  function Pde(mem: Memory, i: int): Word {
    Load(mem, PAGE_DIR + 4 * i)
  }

  /** The table entry of virtual page p, if the tables lie one after the other. */
  function Pte(mem: Memory, p: int): Word {
    Load(mem, TABLE_AREA + 4 * p)
  }

  /** The directory names every table of the area, itself included. */
  ghost predicate Recursive(mem: Memory) {
    forall i :: 0 <= i < 1024 ==> Pde(mem, i) == Mapped(TABLE_AREA + PAGE_SIZE * i)
  }

  lemma PageArithmetic(va: Word)
    ensures va / PAGE_SIZE == va / 0x40_0000 * 1024 + va / PAGE_SIZE % 1024
    ensures 0 <= va / 0x40_0000 < 1024
  {
    assert va / 0x40_0000 == va / PAGE_SIZE / 1024;
  }

  /** A page and every address inside it are walked through the same entries. */
  lemma WalkByPage(mem: Memory, cr3: int, va: Word)
    ensures match Walk(mem, cr3, PageOf(va) * PAGE_SIZE)
            case At(f) => Walk(mem, cr3, va) == At(f + va % PAGE_SIZE)
            case Fault => Walk(mem, cr3, va) == Fault
  {
    var base := PageOf(va) * PAGE_SIZE;
    PageArithmetic(va);
    PageArithmetic(base);
    assert base / PAGE_SIZE == va / PAGE_SIZE;
    assert base / 0x40_0000 == va / 0x40_0000;
  }

  /** With a recursive directory the two-level walk is one lookup in a flat array. */
  lemma FlatWalk(mem: Memory, va: Word)
    requires Recursive(mem)
    ensures Walk(mem, PAGE_DIR, va) == ThroughEntry(Pte(mem, PageOf(va)), va % PAGE_SIZE)
  {
    PageArithmetic(va);
    var i, j := va / 0x40_0000, va / PAGE_SIZE % 1024;
    TableFrame(i);
    assert Load(mem, PAGE_DIR + i * 4) == Pde(mem, i) == Mapped(TABLE_AREA + PAGE_SIZE * i);
    assert TABLE_AREA + PAGE_SIZE * i + j * 4 == TABLE_AREA + 4 * PageOf(va);
  }

  lemma TableFrame(i: int)
    requires 0 <= i < 1024
    ensures var entry := Mapped(TABLE_AREA + PAGE_SIZE * i);
            Present(entry) && Frame(entry) == TABLE_AREA + PAGE_SIZE * i
  {
    MappedEntry(PAGE_SIZE * (1024 + i));
  }

  /** The address at which the entry of page p can be read and written. */
  function WindowAddr(p: int): (a: int)
    requires 0 <= p < 0x10_0000
    ensures MM_KERNEL_PTE_BASE <= a < 0x1_0000_0000
  {
    MM_KERNEL_PTE_BASE + p * 4
  }

  /** The recursive window is the page-table array: address 0xFFC00000 + 4 p
      reaches exactly the entry that translates page p. */
  lemma WindowReachesTables(mem: Memory, p: int)
    requires Recursive(mem) && 0 <= p < 0x10_0000
    ensures Walk(mem, PAGE_DIR, WindowAddr(p)) == At(TABLE_AREA + 4 * p)
  {
    var va: Word := WindowAddr(p);
    FlatWalk(mem, va);
    var q := PageOf(va);
    assert q == 0xF_FC00 + p / 1024;
    assert Pte(mem, q) == Pde(mem, p / 1024);
    assert va % PAGE_SIZE == p % 1024 * 4;
  }

  /** A store outside the table area changes no translation. */
  lemma StoreOutsideTables(mem: Memory, a: int, w: Word)
    requires Recursive(mem) && !(TABLE_AREA <= a < TABLE_AREA_END)
    ensures Recursive(mem[a := w])
    ensures forall va: Word :: Walk(mem[a := w], PAGE_DIR, va) == Walk(mem, PAGE_DIR, va)
  {
    var mem' := mem[a := w];
    assert forall i :: 0 <= i < 1024 ==> Pde(mem', i) == Pde(mem, i);
    forall va: Word
      ensures Walk(mem', PAGE_DIR, va) == Walk(mem, PAGE_DIR, va)
    {
      FlatWalk(mem, va);
      FlatWalk(mem', va);
    }
  }

  /** A store to the entry of page p, not itself a directory entry, changes the
      translation of page p alone. */
  lemma StoreEntry(mem: Memory, p: int, w: Word)
    requires Recursive(mem) && 0 <= p < 0xF_FC00
    ensures Recursive(mem[TABLE_AREA + 4 * p := w])
    ensures forall va: Word :: PageOf(va) != p ==>
              Walk(mem[TABLE_AREA + 4 * p := w], PAGE_DIR, va) == Walk(mem, PAGE_DIR, va)
    ensures forall va: Word :: PageOf(va) == p ==>
              Walk(mem[TABLE_AREA + 4 * p := w], PAGE_DIR, va) == ThroughEntry(w, va % PAGE_SIZE)
  {
    var mem' := mem[TABLE_AREA + 4 * p := w];
    assert forall i :: 0 <= i < 1024 ==> Pde(mem', i) == Pde(mem, i);
    forall va: Word
      ensures if PageOf(va) == p then Walk(mem', PAGE_DIR, va) == ThroughEntry(w, va % PAGE_SIZE)
              else Walk(mem', PAGE_DIR, va) == Walk(mem, PAGE_DIR, va)
    {
      FlatWalk(mem, va);
      FlatWalk(mem', va);
    }
  }

  /** Memories that agree on every load walk alike. */
  lemma SameMemoryWalks(m1: Memory, m2: Memory)
    requires SameMemory(m1, m2)
    ensures forall cr3: int, va: Word :: Walk(m1, cr3, va) == Walk(m2, cr3, va)
  {
  }

  /** A processor with a translation cache. Real caches may fill at any moment
      with any entry the walk yields, and keep a stale one until told otherwise. */
  class Processor {
    var mem: Memory
    var cr3: int
    var tlb: map<int, int>   // virtual page -> frame

    /** Every cached entry outside `stale` agrees with the walk. */
    ghost predicate Coherent(stale: set<int>)
      reads this
    {
      forall p :: p in tlb && p !in stale ==>
        0 <= p < 0x10_0000 && Walk(mem, cr3, p * PAGE_SIZE) == At(tlb[p])
    }

    constructor (mem: Memory)
      ensures this.mem == mem && tlb == map[]
    {
      this.mem, cr3, tlb := mem, 0, map[];
    }

    /** The cache may pick up the translation of any page at any time. */
    method Prefetch(ghost stale: set<int>)
      requires Coherent(stale)
      modifies this`tlb
      ensures Coherent(stale)
    {
      var p: int :| 0 <= p < 0x10_0000;
      var t := Walk(mem, cr3, p * PAGE_SIZE);
      if t.At? {
        tlb := tlb[p := t.pa];
      }
    }

    method Translate(va: Word, ghost stale: set<int>) returns (pa: int)
      requires Coherent(stale) && PageOf(va) !in stale
      requires Walk(mem, cr3, va).At?
      modifies this`tlb
      ensures Coherent(stale)
      ensures At(pa) == Walk(mem, cr3, va)
    {
      Prefetch(stale);
      WalkByPage(mem, cr3, va);
      if PageOf(va) in tlb {
        pa := tlb[PageOf(va)] + va % PAGE_SIZE;
      } else {
        pa := Walk(mem, cr3, va).pa;
        tlb := tlb[PageOf(va) := pa - va % PAGE_SIZE];
      }
    }

    method Read(va: Word, ghost stale: set<int>) returns (w: Word)
      requires Coherent(stale) && PageOf(va) !in stale
      requires Walk(mem, cr3, va).At?
      modifies this`tlb
      ensures Coherent(stale)
      ensures w == Load(mem, Walk(mem, cr3, va).pa)
    {
      var pa := Translate(va, stale);
      w := Load(mem, pa);
    }

    /** A store goes to the word the walk names; the cache is coherent with the
        memory before the store, which is all a processor promises. */
    method Write(va: Word, w: Word, ghost stale: set<int>)
      requires Coherent(stale) && PageOf(va) !in stale
      requires Walk(mem, cr3, va).At?
      modifies this`mem, this`tlb
      ensures mem == old(mem)[old(Walk(mem, cr3, va)).pa := w]
      ensures forall p :: p in tlb && p !in stale ==>
                0 <= p < 0x10_0000 && Walk(old(mem), cr3, p * PAGE_SIZE) == At(tlb[p])
    {
      var pa := Translate(va, stale);
      mem := mem[pa := w];
    }

    /** `invlpg`: forget one page. */
    method Invalidate(va: Word)
      modifies this`tlb
      ensures tlb == old(tlb) - {PageOf(va)}
    {
      tlb := tlb - {PageOf(va)};
    }

    /** `mov cr3, eax`: switch directory and forget every page. */
    method SwitchDirectory(dir: int)
      modifies this`cr3, this`tlb
      ensures cr3 == dir && Coherent({})
    {
      cr3, tlb := dir, map[];
    }
  }
}
