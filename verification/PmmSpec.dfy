/** What the physical page allocator does, as functions on values: the intrusive
    free list in memory, first fit with tail carving, and whole runs. */
module PmmSpec {
  import opened Common
  import opened Paging

  const ENOMEM := 20
  const PMM_VIRT_TEMP: Word := 0xD000_0000
  const TEMP_PAGE := 0xD_0000
  const TEMP_SLOT := TABLE_AREA + 4 * TEMP_PAGE     // entry of the temporary window

  /** A free range, in pages. */
  datatype Block = Block(page: nat, count: nat)

  /** A free list is a sequence of ranges; its i-th header lies at Addr(free, i). */
  function Addr(free: seq<Block>, i: int): int {
    if 0 <= i < |free| then free[i].page * PAGE_SIZE else 0
  }

  ghost predicate Header(mem: Memory, free: seq<Block>, i: int)
    requires 0 <= i < |free|
  {
    && Load(mem, Addr(free, i)) == free[i].count * PAGE_SIZE
    && Load(mem, Addr(free, i) + 4) == Addr(free, i + 1)
  }

  /** The words in memory spell out the list. */
  ghost predicate Chain(mem: Memory, head: int, free: seq<Block>) {
    && head == Addr(free, 0)
    && forall i :: 0 <= i < |free| ==> Header(mem, free, i)
  }

  predicate Holds(b: Block, p: int) {
    b.page <= p < b.page + b.count
  }

  function Pages(b: Block): set<int> {
    set p: int | b.page <= p < b.page + b.count && Holds(b, p)
  }

  function FreePages(free: seq<Block>): set<int> {
    set b, p | b in free && p in Pages(b) :: p
  }

  predicate Apart(a: Block, b: Block) {
    a.page + a.count <= b.page || b.page + b.count <= a.page
  }

  /** Ranges are non-empty, below 2 GiB each, clear of page 0, pairwise disjoint. */
  ghost predicate Separate(free: seq<Block>) {
    && (forall i :: 0 <= i < |free| ==>
          0 < free[i].count < 0x8_0000 && 0 < free[i].page && free[i].page + free[i].count < 0x10_0000)
    && (forall i, j :: 0 <= i < j < |free| ==> Apart(free[i], free[j]))
  }

  /** Pages an allocator may own: never page 0, never the page-table area. */
  ghost predicate Manageable(managed: set<int>) {
    forall p :: p in managed ==> 0 < p < 0xF_FFFF && !(TABLE_AREA <= p * PAGE_SIZE < TABLE_AREA_END)
  }

  /** Free and outstanding pages split the managed ones. */
  ghost predicate Partition(free: seq<Block>, live: set<int>, managed: set<int>) {
    FreePages(free) !! live && FreePages(free) + live == managed
  }

  /** Everything one call can see: memory (the temporary entry read as clear),
      list head, the list it spells and the pages handed out. */
  datatype World = World(mem: Memory, head: int, free: seq<Block>, live: set<int>)

  ghost predicate Inv(w: World, managed: set<int>) {
    && Separate(w.free) && Chain(w.mem, w.head, w.free)
    && Partition(w.free, w.live, managed) && Manageable(managed)
    && Recursive(w.mem) && Load(w.mem, TEMP_SLOT) == 0
  }

  // ----- first fit -----

  function FirstFit(free: seq<Block>, n: nat): (k: nat)
    ensures k <= |free|
    ensures k < |free| ==> free[k].count >= n
    ensures forall i :: 0 <= i < k ==> free[i].count < n
  {
    if free == [] || free[0].count >= n then 0 else 1 + FirstFit(free[1..], n)
  }

  /** The list once the tail of block k has been taken. */
  function CarveAt(free: seq<Block>, k: nat, n: nat): seq<Block>
    requires k < |free| && n <= free[k].count
  {
    if n == free[k].count then free[..k] + free[k + 1..]
    else free[k := Block(free[k].page, free[k].count - n)]
  }

  /** What first fit takes: the last n pages of the block it stops at. */
  function TailAt(free: seq<Block>, k: nat, n: nat): Block
    requires k < |free| && n <= free[k].count
  {
    Block(free[k].page + free[k].count - n, n)
  }

  // ----- the code's own test -----

  /** `shl edi, 12` on a 32-bit register. */
  function ByteSize(n: Word): Word {
    n * PAGE_SIZE % LIMIT
  }

  /** `sub eax, edi` followed by `jge`. */
  predicate Accepts(b: Block, need: Word)
    requires b.count * PAGE_SIZE < LIMIT
  {
    Signed(b.count * PAGE_SIZE) >= Signed(need)
  }

  function FirstAccepted(free: seq<Block>, need: Word): (k: nat)
    requires forall i :: 0 <= i < |free| ==> free[i].count * PAGE_SIZE < LIMIT
    ensures k <= |free|
    ensures k < |free| ==> Accepts(free[k], need)
    ensures forall i :: 0 <= i < k ==> !Accepts(free[i], need)
  {
    if free == [] || Accepts(free[0], need) then 0 else 1 + FirstAccepted(free[1..], need)
  }

  datatype Outcome = Outcome(mem: Memory, head: int, addr: Word, err: int)

  /** What `pmm_alloc` leaves behind for any 32-bit request whatsoever. */
  function RawAlloc(mem: Memory, head: int, free: seq<Block>, n: Word): Outcome
    requires forall i :: 0 <= i < |free| ==> free[i].count * PAGE_SIZE < LIMIT && free[i].page * PAGE_SIZE < LIMIT
  {
    var k := FirstAccepted(free, ByteSize(n));
    if k == |free| then Outcome(mem, head, 0, ENOMEM)
    else Taken(mem, head, free, k, (free[k].count * PAGE_SIZE - ByteSize(n)) % LIMIT)
  }

  /** Block k is left with `rest` bytes: its new size is stored, and a block of
      size 0 is unlinked from its predecessor or from the head. */
  function Taken(mem: Memory, head: int, free: seq<Block>, k: nat, rest: Word): Outcome
    requires k < |free| && forall i :: 0 <= i < |free| ==> free[i].page * PAGE_SIZE < LIMIT
  {
    var addr: Word := (Addr(free, k) + rest) % LIMIT;
    var carved := mem[Addr(free, k) := rest];
    if rest != 0 then Outcome(carved, head, addr, 0)
    else if k == 0 then Outcome(carved, Addr(free, 1), addr, 0)
    else Outcome(carved[Addr(free, k - 1) + 4 := Addr(free, k + 1)], head, addr, 0)
  }

  lemma SmallSizes(count: nat, n: Word)
    requires count < 0x8_0000 && n < 0x8_0000
    ensures ByteSize(n) == n * PAGE_SIZE < 0x8000_0000 && count * PAGE_SIZE < 0x8000_0000
  {
  }

  /** On requests below 2 GiB the signed test is the size test. */
  lemma AcceptedIsFit(free: seq<Block>, n: Word)
    requires Separate(free) && n < 0x8_0000
    ensures FirstAccepted(free, ByteSize(n)) == FirstFit(free, n)
  {
    var k, f := FirstAccepted(free, ByteSize(n)), FirstFit(free, n);
    forall i | 0 <= i < |free|
      ensures Accepts(free[i], ByteSize(n)) <==> free[i].count >= n
    {
      SmallSizes(free[i].count, n);
    }
  }

  /** Only the low 20 bits of a request survive the shift. */
  lemma ByteSizeWraps(n: Word)
    ensures ByteSize(n) == n % 0x10_0000 * PAGE_SIZE == ByteSize(n % 0x10_0000)
  {
    var q := n / 0x10_0000;
    assert n * PAGE_SIZE == q * LIMIT + n % 0x10_0000 * PAGE_SIZE;
  }

  /** Exactly when `pmm_alloc` answers as first fit should: the request is below
      2^19 pages, the list is empty, or what the shift leaves of the request is
      below 2^19 and more than any block has. */
  lemma AllocMeetsFirstFitIff(mem: Memory, head: int, free: seq<Block>, n: Word)
    requires Separate(free)
    ensures (RawAlloc(mem, head, free, n).err == ENOMEM <==> FirstFit(free, n) == |free|)
       <==> || n < 0x8_0000 || free == []
            || (n % 0x10_0000 < 0x8_0000 && forall i :: 0 <= i < |free| ==> free[i].count < n % 0x10_0000)
  {
    if n < 0x8_0000 {
      AcceptedIsFit(free, n);
    } else {
      ByteSizeWraps(n);
      var m: Word := n % 0x10_0000;
      forall i | 0 <= i < |free|
        ensures Accepts(free[i], ByteSize(n)) <==> m >= 0x8_0000 || free[i].count >= m
      {
        if m < 0x8_0000 { SmallSizes(free[i].count, m); }
      }
    }
  }

  /** A request of 2^19 pages is granted by a single free page, and the header
      then claims more than two gibibytes. */
  lemma HugeRequestGranted(mem: Memory)
    ensures var free := [Block(0x800, 1)];
            && Separate(free)
            && FirstFit(free, 0x8_0000) == |free|
            && RawAlloc(mem, 0x80_0000, free, 0x8_0000).err == 0
            && Load(RawAlloc(mem, 0x80_0000, free, 0x8_0000).mem, 0x80_0000) == 0x8000_1000
  {
    var free := [Block(0x800, 1)];
    assert ByteSize(0x8_0000) == 0x8000_0000;
    assert Accepts(free[0], 0x8000_0000);
    assert FirstAccepted(free, 0x8000_0000) == 0;
    assert FirstFit(free[1..], 0x8_0000) == 0;
  }

  // ----- steps -----

  /** First fit with tail carving in plain arithmetic: shrink block k in place,
      or unlink it when nothing of it is left. */
  function PlainAlloc(mem: Memory, head: int, free: seq<Block>, k: nat, n: nat): Outcome
    requires k < |free| && n <= free[k].count && free[k].page + free[k].count < 0x10_0000
    requires k + 1 < |free| ==> free[k + 1].page < 0x10_0000
  {
    var left := free[k].count - n;
    var carved := mem[Addr(free, k) := left * PAGE_SIZE];
    var taken := (free[k].page + left) * PAGE_SIZE;
    if left != 0 then Outcome(carved, head, taken, 0)
    else if k == 0 then Outcome(carved, Addr(free, 1), taken, 0)
    else Outcome(carved[Addr(free, k - 1) + 4 := Addr(free, k + 1)], head, taken, 0)
  }

  /** Below 2 GiB the register arithmetic computes exactly that. */
  lemma RawIsPlain(mem: Memory, head: int, free: seq<Block>, n: Word)
    requires Separate(free) && n < 0x8_0000
    ensures var k := FirstFit(free, n);
            RawAlloc(mem, head, free, n)
            == if k == |free| then Outcome(mem, head, 0, ENOMEM) else PlainAlloc(mem, head, free, k, n)
  {
    hide FirstAccepted, FirstFit;
    AcceptedIsFit(free, n);
    var k := FirstFit(free, n);
    if k < |free| {
      RegisterArithmetic(free[k], n);
      TakenIsPlain(mem, head, free, k, n);
    }
  }

  lemma TakenIsPlain(mem: Memory, head: int, free: seq<Block>, k: nat, n: nat)
    requires k < |free| && n <= free[k].count && free[k].page + free[k].count < 0x10_0000
    requires forall i :: 0 <= i < |free| ==> free[i].page < 0x10_0000
    ensures Taken(mem, head, free, k, (free[k].count - n) * PAGE_SIZE) == PlainAlloc(mem, head, free, k, n)
  {
  }

  lemma RegisterArithmetic(b: Block, n: Word)
    requires n <= b.count < 0x8_0000 && b.page + b.count < 0x10_0000
    ensures ByteSize(n) == n * PAGE_SIZE
    ensures (b.count * PAGE_SIZE - ByteSize(n)) % LIMIT == (b.count - n) * PAGE_SIZE
    ensures (b.page * PAGE_SIZE + (b.count - n) * PAGE_SIZE) % LIMIT == (b.page + b.count - n) * PAGE_SIZE
  {
  }

  ghost function DoAlloc(w: World, n: nat): World
    requires Separate(w.free)
  {
    var k := FirstFit(w.free, n);
    if k == |w.free| then w
    else
      var o := PlainAlloc(w.mem, w.head, w.free, k, n);
      World(o.mem, o.head, CarveAt(w.free, k, n), w.live + Pages(TailAt(w.free, k, n)))
  }

  ghost function DoFree(w: World, b: Block): World
    requires 0 <= w.head < LIMIT && b.count * PAGE_SIZE < LIMIT
  {
    World(w.mem[b.page * PAGE_SIZE + 4 := w.head][b.page * PAGE_SIZE := b.count * PAGE_SIZE],
          b.page * PAGE_SIZE, [b] + w.free, w.live - Pages(b))
  }

  ghost function DoWrite(w: World, a: int, v: Word): World {
    w.(mem := w.mem[a := v])
  }

  /** What a caller may give back: pages it holds, at least one. */
  ghost predicate Returnable(w: World, b: Block) {
    0 < b.count < 0x8_0000 && 0 < b.page && b.page + b.count < 0x10_0000 && Pages(b) <= w.live
  }

  // ----- each step keeps the invariant -----

  lemma HeaderPage(free: seq<Block>, i: int)
    requires Separate(free) && 0 <= i < |free|
    ensures free[i].page in Pages(free[i]) && free[i].page in FreePages(free)
  {
    assert free[i] in free;
    assert free[i].page in Pages(free[i]);
  }

  lemma HeadersDiffer(free: seq<Block>, i: int, j: int)
    requires Separate(free) && 0 <= i < |free| && 0 <= j < |free| && i != j
    ensures free[i].page != free[j].page
    ensures Addr(free, i) != Addr(free, j) && Addr(free, i) + 4 != Addr(free, j) && Addr(free, i) != Addr(free, j) + 4
  {
    if i < j {
      assert Apart(free[i], free[j]);
    } else {
      assert Apart(free[j], free[i]);
    }
  }

  /** Writing a word outside every free page leaves the list alone. */
  lemma WriteKeepsChain(mem: Memory, head: int, free: seq<Block>, a: int, v: Word)
    requires Separate(free) && Chain(mem, head, free)
    requires forall i :: 0 <= i < |free| ==> a != Addr(free, i) && a != Addr(free, i) + 4
    ensures Chain(mem[a := v], head, free)
  {
    var mem' := mem[a := v];
    forall i | 0 <= i < |free|
      ensures Header(mem', free, i)
    {
      assert Header(mem, free, i);
    }
  }

  lemma FreePagesConcat(a: seq<Block>, b: seq<Block>)
    ensures FreePages(a + b) == FreePages(a) + FreePages(b)
  {
    assert forall x :: x in a + b <==> x in a || x in b;
  }

  lemma FreePagesOne(b: Block)
    ensures FreePages([b]) == Pages(b)
  {
    assert forall x :: x in [b] <==> x == b;
  }

  /** The pages of a list, seen from position k. */
  lemma PagesAround(free: seq<Block>, k: nat)
    requires k < |free|
    ensures FreePages(free) == FreePages(free[..k]) + Pages(free[k]) + FreePages(free[k + 1..])
    ensures Separate(free) ==> FreePages(free[..k]) !! Pages(free[k]) && FreePages(free[k + 1..]) !! Pages(free[k])
  {
    var a, b := free[..k], free[k + 1..];
    assert free == a + ([free[k]] + b);
    FreePagesConcat(a, [free[k]] + b);
    FreePagesConcat([free[k]], b);
    FreePagesOne(free[k]);
    if Separate(free) {
      forall x | x in a
        ensures Apart(x, free[k])
      {
        var i :| 0 <= i < k && a[i] == x;
        assert Apart(free[i], free[k]);
      }
      forall x | x in b
        ensures Apart(free[k], x)
      {
        var i :| 0 <= i < |b| && b[i] == x;
        assert Apart(free[k], free[k + 1 + i]);
      }
    }
  }

  lemma CarveSeparate(free: seq<Block>, k: nat, n: nat)
    requires Separate(free) && k < |free| && n <= free[k].count
    ensures Separate(CarveAt(free, k, n))
  {
    var left := CarveAt(free, k, n);
    assert free[k] in free;
    if n == free[k].count {
      assert forall i :: 0 <= i < |left| ==> left[i] == free[if i < k then i else i + 1];
      assert forall b :: b in left ==> b in free;
    } else {
      assert forall b :: b in left ==> b == left[k] || b in free;
      forall i, j | 0 <= i < j < |left|
        ensures Apart(left[i], left[j])
      {
        assert Apart(free[i], free[j]);
      }
    }
  }

  /** Carving block k keeps the ranges separate and takes exactly its tail. */
  lemma CarvePages(free: seq<Block>, k: nat, n: nat)
    requires Separate(free) && k < |free| && n <= free[k].count
    ensures Separate(CarveAt(free, k, n))
    ensures FreePages(CarveAt(free, k, n)) !! Pages(TailAt(free, k, n))
    ensures FreePages(CarveAt(free, k, n)) + Pages(TailAt(free, k, n)) == FreePages(free)
  {
    CarveSeparate(free, k, n);
    PagesAround(free, k);
    var a, b := free[..k], free[k + 1..];
    var tail := TailAt(free, k, n);
    if n == free[k].count {
      FreePagesConcat(a, b);
      assert tail == free[k];
    } else {
      var kept := Block(free[k].page, free[k].count - n);
      assert CarveAt(free, k, n) == a + ([kept] + b);
      FreePagesConcat(a, [kept] + b);
      FreePagesConcat([kept], b);
      FreePagesOne(kept);
      assert Pages(free[k]) == Pages(kept) + Pages(tail);
      assert Pages(kept) !! Pages(tail);
    }
  }

  /** After a carve the words in memory spell the carved list. */
  lemma ShrinkChain(mem: Memory, head: int, free: seq<Block>, k: nat, n: nat)
    requires Separate(free) && Chain(mem, head, free) && k < |free| && n < free[k].count
    ensures Chain(mem[Addr(free, k) := (free[k].count - n) * PAGE_SIZE], head, CarveAt(free, k, n))
  {
    var mem' := mem[Addr(free, k) := (free[k].count - n) * PAGE_SIZE];
    var left := CarveAt(free, k, n);
    forall i | 0 <= i < |left|
      ensures Header(mem', left, i)
    {
      assert Header(mem, free, i);
      if i != k { HeadersDiffer(free, i, k); }
    }
  }

  lemma UnlinkHead(mem: Memory, head: int, free: seq<Block>)
    requires Separate(free) && Chain(mem, head, free) && free != []
    ensures Chain(mem[Addr(free, 0) := 0], Addr(free, 1), free[1..])
  {
    var mem' := mem[Addr(free, 0) := 0];
    forall i | 0 <= i < |free| - 1
      ensures Header(mem', free[1..], i)
    {
      assert Header(mem, free, i + 1);
      HeadersDiffer(free, i + 1, 0);
    }
  }

  lemma UnlinkInner(mem: Memory, head: int, free: seq<Block>, k: nat)
    requires Separate(free) && Chain(mem, head, free) && 0 < k < |free|
    requires k + 1 < |free| ==> free[k + 1].page < 0x10_0000
    ensures Chain(mem[Addr(free, k) := 0][Addr(free, k - 1) + 4 := Addr(free, k + 1)], head,
                  free[..k] + free[k + 1..])
  {
    var left := free[..k] + free[k + 1..];
    var mem' := mem[Addr(free, k) := 0][Addr(free, k - 1) + 4 := Addr(free, k + 1)];
    assert left[0] == free[0];
    forall i | 0 <= i < |left|
      ensures Header(mem', left, i)
    {
      RemovedAt(free, k, i);
      RemovedAt(free, k, i + 1);
      UnlinkWords(mem, free, k, if i < k then i else i + 1);
    }
  }

  lemma RemovedAt(free: seq<Block>, k: nat, i: nat)
    requires k < |free|
    ensures var left := free[..k] + free[k + 1..];
            && Addr(left, i) == Addr(free, if i < k then i else i + 1)
            && (i < |left| ==> left[i] == free[if i < k then i else i + 1])
  {
  }

  /** The two words of header j once its neighbour k is unlinked. */
  lemma UnlinkWords(mem: Memory, free: seq<Block>, k: nat, j: nat)
    requires Separate(free) && 0 < k < |free| && j < |free| && j != k && Header(mem, free, j)
    requires k + 1 < |free| ==> free[k + 1].page < 0x10_0000
    ensures var mem' := mem[Addr(free, k) := 0][Addr(free, k - 1) + 4 := Addr(free, k + 1)];
            && Load(mem', Addr(free, j)) == free[j].count * PAGE_SIZE
            && Load(mem', Addr(free, j) + 4) == Addr(free, if j == k - 1 then k + 1 else j + 1)
  {
    HeadersDiffer(free, j, k);
    if j != k - 1 { HeadersDiffer(free, j, k - 1); }
  }

  lemma AllocChain(mem: Memory, head: int, free: seq<Block>, k: nat, n: nat)
    requires Separate(free) && Chain(mem, head, free) && k < |free| && n <= free[k].count
    ensures var o := PlainAlloc(mem, head, free, k, n);
            Chain(o.mem, o.head, CarveAt(free, k, n))
  {
    if n < free[k].count {
      ShrinkChain(mem, head, free, k, n);
    } else if k == 0 {
      UnlinkHead(mem, head, free);
      assert CarveAt(free, 0, n) == free[1..];
    } else {
      UnlinkInner(mem, head, free, k);
    }
  }

  /** The words an allocation writes are the size of the block it cuts and, if it
      unlinks it, the link of the block before; no translation hangs on them. */
  lemma AllocStores(mem: Memory, head: int, free: seq<Block>, k: nat, n: nat, managed: set<int>)
    requires Separate(free) && Recursive(mem) && Manageable(managed) && FreePages(free) <= managed
    requires k < |free| && n <= free[k].count
    ensures var m := PlainAlloc(mem, head, free, k, n).mem;
            && Recursive(m) && Load(m, TEMP_SLOT) == Load(mem, TEMP_SLOT)
            && (forall va: Word :: Walk(m, PAGE_DIR, va) == Walk(mem, PAGE_DIR, va))
            && (forall a :: a / PAGE_SIZE !in FreePages(free) ==> Load(m, a) == Load(mem, a))
            && (forall a :: a != Addr(free, k) && !(n == free[k].count && k > 0 && a == Addr(free, k - 1) + 4) ==>
                  Load(m, a) == Load(mem, a))
  {
    HeaderPage(free, k);
    var left := free[k].count - n;
    StoreInManaged(mem, free[k].page, 0, left * PAGE_SIZE, managed);
    if left == 0 && k > 0 {
      HeaderPage(free, k - 1);
      StoreInManaged(mem[Addr(free, k) := 0], free[k - 1].page, 4, Addr(free, k + 1), managed);
    }
  }

  /** An allocation of less than 2^19 pages. */
  lemma AllocKeepsInv(w: World, n: nat, managed: set<int>)
    requires Inv(w, managed) && n < 0x8_0000
    ensures Inv(DoAlloc(w, n), managed)
    ensures forall va: Word :: Walk(DoAlloc(w, n).mem, PAGE_DIR, va) == Walk(w.mem, PAGE_DIR, va)
  {
    var k := FirstFit(w.free, n);
    if k < |w.free| {
      AllocStores(w.mem, w.head, w.free, k, n, managed);
      CarvePages(w.free, k, n);
      AllocChain(w.mem, w.head, w.free, k, n);
    }
  }

  // ----- requests from 2^19 pages on -----

  /** Exactly when `pmm_alloc` leaves a usable list, for every 32-bit request: its
      memory spells disjoint ranges within the pages that were free unless what the
      shift leaves of the request is negative as a signed number of bytes, and a
      first block is there to grow. */
  lemma RawKeepsListIff(mem: Memory, head: int, free: seq<Block>, n: Word)
    requires Separate(free) && Chain(mem, head, free)
    ensures var o := RawAlloc(mem, head, free, n);
            (exists f :: Chain(o.mem, o.head, f) && Separate(f) && FreePages(f) <= FreePages(free))
            <==> free == [] || n % 0x10_0000 < 0x8_0000
  {
    var o := RawAlloc(mem, head, free, n);
    if n % 0x10_0000 < 0x8_0000 {
      WrappedKeepsList(mem, head, free, n);
    } else if free == [] {
      assert Chain(o.mem, o.head, free);
    } else {
      forall f | Chain(o.mem, o.head, f) && Separate(f)
        ensures !(FreePages(f) <= FreePages(free))
      {
        GrownBreaks(mem, head, free, n, f);
      }
    }
  }

  lemma WrappedKeepsList(mem: Memory, head: int, free: seq<Block>, n: Word)
    requires Separate(free) && Chain(mem, head, free) && n % 0x10_0000 < 0x8_0000
    ensures var o := RawAlloc(mem, head, free, n);
            exists f :: Chain(o.mem, o.head, f) && Separate(f) && FreePages(f) <= FreePages(free)
  {
    hide FirstFit, FirstAccepted, PlainAlloc, ByteSize, Chain, Separate, FreePages;
    var m: Word := n % 0x10_0000;
    ByteSizeWraps(n);
    RawIsPlain(mem, head, free, m);
    var k := FirstFit(free, m);
    if k < |free| {
      AllocChain(mem, head, free, k, m);
      CarvePages(free, k, m);
    }
  }

  /** What the first block becomes when the signed test lets everything through:
      it grows, and nothing else changes. */
  lemma FirstGrows(mem: Memory, head: int, free: seq<Block>, n: Word) returns (grown: nat)
    requires Separate(free) && free != [] && n % 0x10_0000 >= 0x8_0000
    ensures free[0].count < grown < 0x10_0000
    ensures var o := RawAlloc(mem, head, free, n);
            o.head == head && o.mem == mem[Addr(free, 0) := grown * PAGE_SIZE]
  {
    ByteSizeWraps(n);
    var m: Word := n % 0x10_0000;
    grown := free[0].count - m + 0x10_0000;
    assert Accepts(free[0], ByteSize(n));
    assert FirstAccepted(free, ByteSize(n)) == 0;
    assert (free[0].count * PAGE_SIZE - ByteSize(n)) % LIMIT == grown * PAGE_SIZE;
  }

  lemma HeaderOf(mem: Memory, head: int, free: seq<Block>, i: nat)
    requires Chain(mem, head, free) && i < |free|
    ensures Header(mem, free, i)
  {
  }

  lemma HeadOf(mem: Memory, head: int, free: seq<Block>)
    requires Chain(mem, head, free)
    ensures head == Addr(free, 0)
  {
  }

  /** A list spelled after only the first size changed is the same list but for it. */
  lemma {:induction false} SameButFirst(mem: Memory, head: int, free: seq<Block>, size: Word, f: seq<Block>, i: nat)
    requires Separate(free) && Chain(mem, head, free) && free != []
    requires Separate(f) && Chain(mem[Addr(free, 0) := size], head, f)
    requires i <= |free|
    ensures Addr(f, i) == Addr(free, i) && i <= |f| && (i < |free| <==> i < |f|)
    ensures i < |free| ==> f[i].page == free[i].page && (i > 0 ==> f[i] == free[i])
  {
    hide Chain;
    var mem' := mem[Addr(free, 0) := size];
    HeadOf(mem, head, free);
    HeadOf(mem', head, f);
    if i > 0 {
      SameButFirst(mem, head, free, size, f, i - 1);
      HeaderOf(mem, head, free, i - 1);
      HeaderOf(mem', head, f, i - 1);
      if i > 1 { HeadersDiffer(free, 0, i - 1); }
    }
    if i < |free| {
      HeaderOf(mem, head, free, i);
      if i > 0 { HeadersDiffer(free, 0, i); }
    }
    if i < |f| { HeaderOf(mem', head, f, i); }
  }

  /** No list within the old free pages has a first block that much longer. */
  lemma GrownBreaks(mem: Memory, head: int, free: seq<Block>, n: Word, f: seq<Block>)
    requires Separate(free) && Chain(mem, head, free) && free != [] && n % 0x10_0000 >= 0x8_0000
    requires var o := RawAlloc(mem, head, free, n); Chain(o.mem, o.head, f)
    requires Separate(f)
    ensures !(FreePages(f) <= FreePages(free))
  {
    var grown := FirstGrows(mem, head, free, n);
    SameButFirst(mem, head, free, grown * PAGE_SIZE, f, 0);
    assert Header(mem[Addr(free, 0) := grown * PAGE_SIZE], f, 0);
    var p := free[0].page + free[0].count;
    assert Holds(f[0], p) && p in Pages(f[0]) && f[0] in f;
    assert p in FreePages(f);
    forall b | b in free
      ensures p !in Pages(b)
    {
      var j :| 0 <= j < |free| && free[j] == b;
      if j > 0 {
        SameButFirst(mem, head, free, grown * PAGE_SIZE, f, j);
        assert Apart(f[0], f[j]);
      }
    }
  }

  /** A word of a managed page is no page-table entry. */
  lemma StoreInManaged(mem: Memory, page: int, offset: int, v: Word, managed: set<int>)
    requires Recursive(mem) && Manageable(managed) && page in managed && 0 <= offset < PAGE_SIZE
    ensures Recursive(mem[page * PAGE_SIZE + offset := v])
    ensures Load(mem[page * PAGE_SIZE + offset := v], TEMP_SLOT) == Load(mem, TEMP_SLOT)
    ensures forall va: Word :: Walk(mem[page * PAGE_SIZE + offset := v], PAGE_DIR, va) == Walk(mem, PAGE_DIR, va)
  {
    StoreOutsideTables(mem, page * PAGE_SIZE + offset, v);
  }

  /** Pages held by callers overlap no free range. */
  lemma ReturnedApart(free: seq<Block>, live: set<int>, b: Block)
    requires Separate(free) && FreePages(free) !! live
    requires 0 < b.count < 0x8_0000 && 0 < b.page && b.page + b.count < 0x10_0000 && Pages(b) <= live
    ensures Separate([b] + free)
    ensures forall i :: 0 <= i < |free| ==> free[i].page != b.page
  {
    assert b.page in Pages(b);
    forall i | 0 <= i < |free|
      ensures Apart(b, free[i]) && free[i].page != b.page
    {
      HeaderPage(free, i);
      var c := free[i];
      var p := if b.page < c.page then c.page else b.page;
      assert p in Pages(c) ==> p in FreePages(free);
      assert p !in Pages(b) || p !in Pages(c);
    }
    var both := [b] + free;
    assert forall i :: 0 < i < |both| ==> both[i] == free[i - 1];
    assert forall x :: x in both <==> x == b || x in free;
  }

  lemma PushChain(mem: Memory, head: Word, free: seq<Block>, b: Block)
    requires Separate(free) && Chain(mem, head, free) && b.count * PAGE_SIZE < LIMIT
    requires forall i :: 0 <= i < |free| ==> free[i].page != b.page
    ensures var base := b.page * PAGE_SIZE;
            Chain(mem[base + 4 := head][base := b.count * PAGE_SIZE], base, [b] + free)
  {
    var base := b.page * PAGE_SIZE;
    var mem' := mem[base + 4 := head][base := b.count * PAGE_SIZE];
    WriteKeepsChain(mem, head, free, base + 4, head);
    WriteKeepsChain(mem[base + 4 := head], head, free, base, b.count * PAGE_SIZE);
    var both := [b] + free;
    assert forall i :: 0 < i <= |both| ==> Addr(both, i) == Addr(free, i - 1);
    forall i | 0 <= i < |both|
      ensures Header(mem', both, i)
    {
      if i > 0 { assert Header(mem', free, i - 1); }
    }
  }

  lemma FreeKeepsInv(w: World, b: Block, managed: set<int>)
    requires Inv(w, managed) && Returnable(w, b)
    ensures 0 <= w.head < LIMIT && Inv(DoFree(w, b), managed)
    ensures forall va: Word :: Walk(DoFree(w, b).mem, PAGE_DIR, va) == Walk(w.mem, PAGE_DIR, va)
  {
    assert b.page in Pages(b);
    ReturnedApart(w.free, w.live, b);
    PushChain(w.mem, w.head, w.free, b);
    StoreInManaged(w.mem, b.page, 4, w.head, managed);
    StoreInManaged(w.mem[b.page * PAGE_SIZE + 4 := w.head], b.page, 0, b.count * PAGE_SIZE, managed);
    FreePagesConcat([b], w.free);
    FreePagesOne(b);
  }

  /** A client store of an aligned word. */
  lemma WriteKeepsInv(w: World, a: int, v: Word, managed: set<int>)
    requires Inv(w, managed) && 0 <= a && a % 4 == 0 && a / PAGE_SIZE in w.live
    ensures Inv(DoWrite(w, a, v), managed)
    ensures forall va: Word :: Walk(DoWrite(w, a, v).mem, PAGE_DIR, va) == Walk(w.mem, PAGE_DIR, va)
  {
    forall i | 0 <= i < |w.free|
      ensures a != Addr(w.free, i) && a != Addr(w.free, i) + 4
    {
      HeaderPage(w.free, i);
    }
    WriteKeepsChain(w.mem, w.head, w.free, a, v);
    StoreInManaged(w.mem, a / PAGE_SIZE, a % PAGE_SIZE, v, managed);
  }

  // ----- whole runs -----

  datatype Op = Alloc(n: nat) | Release(b: Block) | Client(a: int, v: Word)

  /** Allocations are unrestricted below 2^19 pages; clients return pages they
      hold and write only aligned words of pages they hold. */
  ghost predicate Legal(w: World, op: Op) {
    match op
    case Alloc(n) => n < 0x8_0000
    case Release(b) => Returnable(w, b) && 0 <= w.head < LIMIT
    case Client(a, _) => 0 <= a && a % 4 == 0 && a / PAGE_SIZE in w.live
  }

  ghost function Step(w: World, op: Op): World
    requires Separate(w.free) && Legal(w, op)
  {
    match op
    case Alloc(n) => DoAlloc(w, n)
    case Release(b) => DoFree(w, b)
    case Client(a, v) => DoWrite(w, a, v)
  }

  lemma StepKeepsInv(w: World, op: Op, managed: set<int>)
    requires Inv(w, managed) && Legal(w, op)
    ensures Inv(Step(w, op), managed)
    ensures forall va: Word :: Walk(Step(w, op).mem, PAGE_DIR, va) == Walk(w.mem, PAGE_DIR, va)
  {
    match op
    case Alloc(n) => AllocKeepsInv(w, n, managed);
    case Release(b) => FreeKeepsInv(w, b, managed);
    case Client(a, v) => WriteKeepsInv(w, a, v, managed);
  }

  /** A run is a list of worlds, each a legal step after the one before. */
  ghost predicate IsRun(worlds: seq<World>, ops: seq<Op>) {
    && |worlds| == |ops| + 1
    && forall i :: 0 <= i < |ops| ==>
         Separate(worlds[i].free) && Legal(worlds[i], ops[i]) && worlds[i + 1] == Step(worlds[i], ops[i])
  }

  /** In every run the list stays well formed in memory, free and outstanding
      pages split the managed ones, and no translation changes. */
  lemma {:induction false} RunKeepsInv(worlds: seq<World>, ops: seq<Op>, managed: set<int>, k: nat)
    requires IsRun(worlds, ops) && Inv(worlds[0], managed) && k < |worlds|
    ensures Inv(worlds[k], managed)
    ensures forall va: Word :: Walk(worlds[k].mem, PAGE_DIR, va) == Walk(worlds[0].mem, PAGE_DIR, va)
  {
    if k > 0 {
      RunKeepsInv(worlds, ops, managed, k - 1);
      StepKeepsInv(worlds[k - 1], ops[k - 1], managed);
    }
  }

  /** A page handed out was free, and nobody else holds any part of it. */
  lemma AllocIsFresh(w: World, n: nat, managed: set<int>)
    requires Inv(w, managed)
    ensures var k := FirstFit(w.free, n);
            k < |w.free| ==>
              var t := Pages(TailAt(w.free, k, n));
              t <= FreePages(w.free) && t !! w.live && |DoAlloc(w, n).live| == |w.live| + n
  {
    var k := FirstFit(w.free, n);
    if k < |w.free| {
      CarvePages(w.free, k, n);
      var t := TailAt(w.free, k, n);
      CountPages(t);
      assert |w.live + Pages(t)| == |w.live| + |Pages(t)|;
    }
  }

  /** Page p lies in the n pages from address addr on. */
  predicate InRange(p: int, addr: int, n: nat) {
    addr <= p * PAGE_SIZE < addr + n * PAGE_SIZE
  }

  /** The pages handed out are the n pages at the address returned. */
  lemma AllocAddress(mem: Memory, head: int, free: seq<Block>, n: nat)
    requires Separate(free) && FirstFit(free, n) < |free|
    ensures n < LIMIT
    ensures var o := RawAlloc(mem, head, free, n);
            && o.err == 0 && o.addr == TailAt(free, FirstFit(free, n), n).page * PAGE_SIZE
            && (forall p :: p in Pages(TailAt(free, FirstFit(free, n), n)) <==> InRange(p, o.addr, n))
  {
    hide FirstFit, FirstAccepted;
    RawIsPlain(mem, head, free, n);
    var t := TailAt(free, FirstFit(free, n), n);
    hide RawAlloc, TailAt;
    forall p
      ensures p in Pages(t) <==> InRange(p, t.page * PAGE_SIZE, t.count)
    {
    }
  }

  lemma {:induction false} CountPages(b: Block)
    ensures |Pages(b)| == b.count
    decreases b.count
  {
    if b.count == 0 {
      assert Pages(b) == {};
    } else {
      var rest := Block(b.page, b.count - 1);
      CountPages(rest);
      assert Pages(b) == Pages(rest) + {b.page + b.count - 1};
    }
  }

  lemma HeldWordStep(w: World, op: Op, managed: set<int>, a: int)
    requires Inv(w, managed) && Legal(w, op) && 0 <= a && a % 4 == 0
    requires a / PAGE_SIZE in w.live && a / PAGE_SIZE in Step(w, op).live
    requires !(op.Client? && op.a == a)
    ensures Load(Step(w, op).mem, a) == Load(w.mem, a)
  {
    match op
    case Alloc(n) =>
      var k := FirstFit(w.free, n);
      if k < |w.free| {
        AllocStores(w.mem, w.head, w.free, k, n, managed);
      }
    case Release(b) =>
      assert b.page in Pages(b);
    case Client(_, _) =>
  }

  /** The allocator never touches a page somebody holds: over a whole run, a word
      of a page held throughout changes only by client writes to that word. */
  lemma {:induction false} HeldWordsKept(worlds: seq<World>, ops: seq<Op>, managed: set<int>, a: int, k: nat)
    requires IsRun(worlds, ops) && Inv(worlds[0], managed) && k < |worlds| && 0 <= a && a % 4 == 0
    requires forall i :: 0 <= i <= k ==> a / PAGE_SIZE in worlds[i].live
    requires forall i :: 0 <= i < k ==> !(ops[i].Client? && ops[i].a == a)
    ensures Load(worlds[k].mem, a) == Load(worlds[0].mem, a)
  {
    if k > 0 {
      HeldWordsKept(worlds, ops, managed, a, k - 1);
      RunKeepsInv(worlds, ops, managed, k - 1);
      assert worlds[k] == Step(worlds[k - 1], ops[k - 1]);
      HeldWordStep(worlds[k - 1], ops[k - 1], managed, a);
    }
  }

  /** Giving n pages back and asking for n again returns the same pages and the
      same list, head and holdings; in memory only the header's two words differ. */
  lemma FreeThenAlloc(w: World, b: Block)
    requires Separate(w.free) && FreePages(w.free) !! w.live && Returnable(w, b)
    requires w.head == Addr(w.free, 0) && 0 <= w.head < LIMIT
    ensures Separate(DoFree(w, b).free)
    ensures FirstFit(DoFree(w, b).free, b.count) == 0 && TailAt([b] + w.free, 0, b.count) == b
    ensures DoAlloc(DoFree(w, b), b.count)
         == World(DoFree(w, b).mem[b.page * PAGE_SIZE := 0], w.head, w.free, w.live)
  {
    hide FreePages, FirstFit, CarveAt, PlainAlloc;
    ReturnedApart(w.free, w.live, b);
    PopFront(DoFree(w, b), b, w.free);
    assert w.live - Pages(b) + Pages(b) == w.live;
    assert Addr([b] + w.free, 1) == Addr(w.free, 0);
  }

  /** Asking for exactly the first block unlinks it. */
  lemma PopFront(w: World, b: Block, rest: seq<Block>)
    requires Separate(w.free) && w.free == [b] + rest
    ensures FirstFit(w.free, b.count) == 0
    ensures var w' := DoAlloc(w, b.count);
            && w' == World(w.mem[b.page * PAGE_SIZE := 0], Addr(w.free, 1), rest, w.live + Pages(b))
  {
    assert w.free[0] == b && w.free[0] in w.free;
    assert CarveAt(w.free, 0, b.count) == rest;
  }

  /** The other order keeps the pages but not the list: the carved piece comes
      back as a block of its own unless it was the head, taken whole. */
  lemma AllocThenFree(w: World, n: nat, managed: set<int>)
    requires Inv(w, managed) && 0 < n && FirstFit(w.free, n) < |w.free|
    ensures var k := FirstFit(w.free, n);
            var w1 := DoAlloc(w, n);
            var t := TailAt(w.free, k, n);
            && 0 <= w1.head < LIMIT && t.count * PAGE_SIZE < LIMIT
            && var w2 := DoFree(w1, t);
               && FreePages(w2.free) == FreePages(w.free) && w2.live == w.live
               && |w2.free| == |w.free| + (if n == w.free[k].count then 0 else 1)
               && (w2.free == w.free <==> k == 0 && n == w.free[0].count)
  {
    var k := FirstFit(w.free, n);
    var w1 := DoAlloc(w, n);
    var t := TailAt(w.free, k, n);
    CarvePages(w.free, k, n);
    AllocKeepsInv(w, n, managed);
    var w2 := DoFree(w1, t);
    FreePagesConcat([t], w1.free);
    FreePagesOne(t);
    if n == w.free[k].count {
      if k == 0 {
        assert w2.free == w.free;
      } else {
        HeadersDiffer(w.free, 0, k);
        assert w2.free[0] == t == w.free[k];
      }
    }
  }
}
