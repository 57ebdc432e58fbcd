/** Inputs on which the arena allocator as written fails, each reached from bootstrap. */
module VmemCases {
  import opened Common
  import opened VmemSize
  import opened VmemTiles
  import opened VmemSpec
  import opened VmemRuns
  import opened VmemAlloc
  import opened Vmem

  const QUANTUM := 0x1000

  /** An arena of one span, all of it free, right after bootstrap. */
  function Lone(base: int, size: int): State {
    AddSpan(Booted(QUANTUM), base, size)
  }

  lemma LoneFacts(base: int, size: int)
    requires 0 < size < LIMIT && 0 <= base && base + size <= LIMIT
    ensures var st := Lone(base, size);
            && Inv(st) && Conserved(st) && SpansApart(Values(st.segs, st.queue))
            && FreeListsExact(st) && SizesFit(st)
            && Inv(Booted(QUANTUM)) && Legal(Booted(QUANTUM), Add(base, size))
            && (forall id :: IsFree(st, id) <==> id == 62)
            && st.queue == [63, 62] && |st.pool| == 62 && st.pool[0] == 61 && st.pool[1] == 60 && st.quantum == QUANTUM
            && Desc(st.segs, 62) == Seg(Free, base, size) && Desc(st.segs, 63) == Seg(StaticSpan, base, size)
  {
    BootedInv(QUANTUM);
    AddKeeps(Booted(QUANTUM), base, size);
    var pool := Countdown(VMEM_STATIC_SEG_COUNT);
    assert pool[0] == 63 && pool[1] == 62 && pool[2] == 61 && pool[3] == 60;
    assert [] + [63, 62] == [63, 62];
  }

  /** 2 GiB are free and best fit reports that 4 KiB are not. */
  lemma LargeSegmentMissed()
    ensures var st := Lone(0, 0x8000_0000);
            && IsFree(st, 62) && Desc(st.segs, 62).size > 0x1000
            && Inv(st) && Search(st, 0x1000, false) == None
  {
    LoneFacts(0, 0x8000_0000);
    hide Lone;
    SearchExact(Lone(0, 0x8000_0000), 0x1000, false);
  }

  /** Instant fit finds 4 KiB in a free segment of 2 GiB and 4 KiB; the 2 GiB left over
      are not worth keeping to the signed test and are handed out too. */
  lemma LargeRestHandedOut()
    ensures var st := Lone(0, 0x8000_1000);
            && Inv(st)
            && var (st', result) := XAlloc(st, 0x1000, true, false);
               result == Some(0) && Seg(Allocated, 0, 0x8000_1000) in Held(st')
  {
    LoneFacts(0, 0x8000_1000);
    hide Lone, Finish, Inv, FreeListsExact, SizesFit, Conserved, Held, XAlloc, SpansApart, Legal, Booted, IsFree, Desc;
    LargeAlloc(Lone(0, 0x8000_1000));
  }

  lemma LargeAlloc(st: State)
    requires Inv(st) && FreeListsExact(st) && SizesFit(st) && st.quantum == QUANTUM
    requires (forall id :: IsFree(st, id) <==> id == 62) && Desc(st.segs, 62) == Seg(Free, 0, 0x8000_1000)
    requires |st.pool| == 62 && st.pool[0] == 61 && st.pool[1] == 60
    ensures var (st', result) := XAlloc(st, 0x1000, true, false);
            result == Some(0) && Seg(Allocated, 0, 0x8000_1000) in Held(st')
  {
    hide Search, Finish, Held, FreeListsExact, SizesFit;
    LargeFound(st);
    SpareFromPool(st);
    assert IsFree(st, 62);
    CutBlocks(st.(pool := st.pool[2..], count := st.count - 2), 62, 0, 0x1000, 61, 60);
  }

  lemma LargeFound(st: State)
    requires Inv(st) && FreeListsExact(st) && SizesFit(st)
    requires (forall id :: IsFree(st, id) <==> id == 62) && Desc(st.segs, 62).size == 0x8000_1000
    ensures Search(st, 0x1000, true) == Some(62)
  {
    hide Search, Inv, FreeListsExact, SizesFit, IsFree, Desc;
    HalfClass(0x8000_1000);
    ClassOf(0x1000, 12);
    InstantSearchExact(st, 0x1000);
    SearchExact(st, 0x1000, true);
  }

  /** 14 KiB are free in one piece, 12 KiB are asked for under instant fit: the
      design finds them, the code as written never ends. */
  lemma InstantMissSpins(rounds: nat)
    ensures var st := Lone(0, 0x3800);
            && Inv(st) && SearchAsWritten(st, 0x3000, true, rounds) == None
            && Search(st, 0x3000, true) == Some(62)
  {
    LoneFacts(0, 0x3800);
    hide Lone, Search, SearchAsWritten, PowerTest, Inv, FreeListsExact, SizesFit, Conserved;
    var st := Lone(0, 0x3800);
    SpinClasses();
    hide Bsr, InstantStart, Class;
    AsWrittenEndsIff(st, 0x3000, rounds);
    SearchExact(st, 0x3000, true);
  }

  lemma SpinClasses()
    ensures Class(0x3800) == 13 && InstantStart(0x3000) == 14
  {
    ClassOf(0x3000, 13);
    ClassOf(0x3800, 13);
    PowerTestIff(0x3000);
  }

  /** A number between two powers of two is in the class of the lower one. */
  lemma ClassOf(n: nat, c: nat)
    requires 0 < Pow2(c) <= n < Pow2(c + 1)
    ensures Bsr(n) == c
  {
    ClassBrackets(n);
    if Bsr(n) < c { Pow2Monotone(Bsr(n) + 1, c); }
    if Bsr(n) > c { Pow2Monotone(c + 1, Bsr(n)); }
  }

  /** 4 KiB cut as written from 16 KiB: the free lists are wrong afterwards. */
  lemma SplitListsBlock()
    ensures var st := Lone(0, 0x4000);
            var taken := st.(pool := st.pool[2..], count := st.count - 2);
            && 62 in taken.queue && Cuttable(taken, 62, 0, 0x1000)
            && FreeListsExact(taken) && !FreeListsExact(Finish(taken, 62, 0, 0x1000, 61, 60, true))
  {
    LoneFacts(0, 0x4000);
    var st := Lone(0, 0x4000);
    var taken := st.(pool := st.pool[2..], count := st.count - 2);
    SpareFromPool(st);
    SameHomes(st, taken);
    hide Lone;
    AsWrittenListsIff(taken, 62, 0, 0x1000, 61, 60);
  }

  // ----- the lost descriptor -----

  /** All spans of the arena end at or below b. */
  ghost predicate Below(st: State, b: int) {
    forall d :: d in Spans(st) ==> d.End() <= b
  }

  /** Adding spans while an odd number of descriptors is left ends with one lost. */
  lemma {:induction false} AddUntilLost(st: State, b: nat) returns (ops: seq<Op>)
    requires Inv(st) && Below(st, b) && |st.pool| % 2 == 1 && b + 0x1000 * |st.pool| <= LIMIT
    ensures LegalRun(st, ops) && !NeverOneLeft(st, ops) && !Conserved(Final(st, ops))
    decreases |st.pool|
  {
    hide Inv, Conserved, AddSpan;
    var op := Add(b, 0x1000);
    assert Legal(st, op) by {
      forall d | d in Values(st.segs, st.queue) && d.IsSpan()
        ensures Disjoint(d, Seg(StaticSpan, b, 0x1000))
      {
        assert d in Spans(st);
      }
    }
    var st' := Step(st, op).0;
    if |st.pool| == 1 {
      LeakOne(st, b, 0x1000);
      ops := [op];
      assert ops[1..] == [];
    } else {
      OneMoreSpan(st, b);
      var rest := AddUntilLost(st', b + 0x1000);
      ops := [op] + rest;
      assert ops[1..] == rest;
    }
  }

  lemma OneMoreSpan(st: State, b: nat)
    requires Inv(st) && Below(st, b) && |st.pool| >= 2
    ensures var st' := AddSpan(st, b, 0x1000);
            Below(st', b + 0x1000) && |st'.pool| == |st.pool| - 2
  {
    AddValues(st, b, 0x1000);
    var st' := AddSpan(st, b, 0x1000);
    forall d | d in Spans(st')
      ensures d.End() <= b + 0x1000
    {
      assert d in Spans(st) || d == Seg(StaticSpan, b, 0x1000);
    }
  }

  /** A failing end is the failing end of every run that leads to it. */
  lemma Before(st: State, op: Op, rest: seq<Op>)
    requires Inv(st) && Legal(st, op)
    requires LegalRun(Step(st, op).0, rest)
    requires !NeverOneLeft(Step(st, op).0, rest) && !Conserved(Final(Step(st, op).0, rest))
    ensures LegalRun(st, [op] + rest) && !NeverOneLeft(st, [op] + rest) && !Conserved(Final(st, [op] + rest))
  {
    hide Inv, Legal, Step, Conserved;
    assert ([op] + rest)[1..] == rest;
  }

  /** One span, one allocation that splits it, then spans until the pool is empty:
      a run from bootstrap that loses a descriptor. */
  lemma LeakReached() returns (ops: seq<Op>)
    ensures Inv(Booted(QUANTUM)) && LegalRun(Booted(QUANTUM), ops)
    ensures !NeverOneLeft(Booted(QUANTUM), ops) && !Conserved(Final(Booted(QUANTUM), ops))
  {
    hide Inv, Conserved, AddSpan, XAlloc, LegalRun, NeverOneLeft, Final, Booted, Below;
    LoneFacts(0, 0x4000);
    var split := Alloc(0x1000, false, true);
    SplitTakesOne();
    var rest := AddUntilLost(Step(Lone(0, 0x4000), split).0, 0x4000);
    Before(Lone(0, 0x4000), split, rest);
    Before(Booted(QUANTUM), Add(0, 0x4000), [split] + rest);
    ops := [Add(0, 0x4000)] + ([split] + rest);
  }

  lemma SplitTakesOne()
    ensures Inv(Lone(0, 0x4000))
    ensures var st := Lone(0, 0x4000);
            var st' := Step(st, Alloc(0x1000, false, true)).0;
            Inv(st') && |st'.pool| == 61 && Below(st', 0x4000)
  {
    LoneFacts(0, 0x4000);
    AllocAlone();
    hide Lone, Finish, Search, Inv, FreeListsExact, Held, Conserved, XAlloc, SpansApart, WorthKeeping, IsFree, Desc,
      Values, Spans, SizesFit, Legal, Booted;
    var st := Lone(0, 0x4000);
    XAllocKeeps(st, 0x1000, false, true);
    SplitPool(st);
    LoneSpans();
  }

  lemma SplitPool(st: State)
    requires 62 in st.queue && |st.pool| == 62 && Desc(st.segs, 62) == Seg(Free, 0, 0x4000) && st.quantum == QUANTUM
    ensures |Finish(st.(pool := st.pool[2..], count := st.count - 2), 62, 0, 0x1000, 61, 60, false).pool| == 61
  {
    hide Finish, Desc, WorthKeeping;
    RestKept();
    PoolShrinks(st.(pool := st.pool[2..], count := st.count - 2), 62, 0, 0x1000, 61, 60);
  }

  lemma LoneSpans()
    ensures Below(Lone(0, 0x4000), 0x4000)
  {
    LoneFacts(0, 0x4000);
    hide Lone, Inv, FreeListsExact, SizesFit, Conserved, SpansApart, Legal, IsFree, Booted;
    OneSpan(Lone(0, 0x4000), 0x4000);
  }

  lemma OneSpan(st: State, end: int)
    ensures st.queue == [63, 62] && Desc(st.segs, 63).End() <= end && !Desc(st.segs, 62).IsSpan() ==> Below(st, end)
  {
    hide Desc;
    if st.queue == [63, 62] {
      assert Values(st.segs, st.queue) == [Desc(st.segs, 63), Desc(st.segs, 62)];
    }
  }

  lemma RestKept()
    ensures WorthKeeping(0x3000, QUANTUM)
  {
  }

  lemma AllocAlone()
    ensures var st := Lone(0, 0x4000);
            && Inv(st) && 62 in st.queue && |st.pool| >= 2
            && XAlloc(st, 0x1000, false, true)
               == (Finish(st.(pool := st.pool[2..], count := st.count - 2), 62, 0, 0x1000, 61, 60, false), Some(0))
  {
    LoneFacts(0, 0x4000);
    hide Lone, Search, Finish, Inv, FreeListsExact, SizesFit, Conserved;
    SearchExact(Lone(0, 0x4000), 0x1000, false);
  }
}
