/** The arena allocator as it runs, on one arena and the descriptor pool. */
module Vmem {
  import opened Common
  import opened VmemSize
  import opened VmemTiles
  import opened VmemSpec
  import opened VmemRuns
  import opened VmemAlloc

  /** Descriptors n-1 down to 0: the pool after n of them were pushed. */
  function Countdown(n: nat): (s: seq<int>)
    ensures |s| == n
    ensures forall i :: 0 <= i < n ==> s[i] == n - 1 - i
  {
    seq(n, i requires 0 <= i < n => n - 1 - i)
  }

  /** After `vmem_bootstrap`, an arena of that quantum with no span. */
  function Booted(quantum: int): State {
    State(map[], [], seq(VMEM_FREELISTS_N, _ => []), Countdown(VMEM_STATIC_SEG_COUNT), VMEM_STATIC_SEG_COUNT, quantum)
  }

  lemma BootedInv(quantum: int)
    requires 0 <= quantum < LIMIT
    ensures var st := Booted(quantum); Inv(st) && Conserved(st) && SpansApart(Values(st.segs, st.queue))
  {
    var st := Booted(quantum);
    forall id | 0 <= id < VMEM_STATIC_SEG_COUNT
      ensures id in st.pool
    {
      assert st.pool[VMEM_STATIC_SEG_COUNT - 1 - id] == id;
    }
    assert FreeListsExact(st);
  }

  /** From bootstrap on, over every run of spans added and blocks allocated: the
      segments tile the spans and the free lists are exact, the ranges handed out lie
      in spans and never overlap, and the 64 descriptors are all there exactly if no
      span was added with one descriptor left. */
  lemma ArenaRuns(quantum: int, ops: seq<Op>)
    requires 0 <= quantum < LIMIT && Inv(Booted(quantum)) && LegalRun(Booted(quantum), ops)
    ensures var st := Final(Booted(quantum), ops);
            Tiled(Values(st.segs, st.queue), 0, 0) && FreeListsExact(st)
    ensures var out := Issued(Booted(quantum), ops);
            forall i, j :: 0 <= i < j < |out| ==> Disjoint(out[i], out[j])
    ensures var st, out := Final(Booted(quantum), ops), Issued(Booted(quantum), ops);
            forall i :: 0 <= i < |out| ==> InSpan(Values(st.segs, st.queue), out[i])
    ensures Conserved(Final(Booted(quantum), ops)) <==> NeverOneLeft(Booted(quantum), ops)
  {
    var st := Booted(quantum);
    BootedInv(quantum);
    hide Booted, LegalRun, Issued, Disjoint, Conserved, NeverOneLeft, Final, InSpan;
    var out := Issued(st, ops);
    forall i, j | 0 <= i < j < |out|
      ensures Disjoint(out[i], out[j])
    {
      RunDisjoint(st, ops, i, j);
    }
    forall i | 0 <= i < |out|
      ensures InSpan(Values(Final(st, ops).segs, Final(st, ops).queue), out[i])
    {
      RunInSpans(st, ops, i);
    }
    RunConserves(st, ops);
  }

  /** x put just before s. */
  function Inserted(q: seq<int>, s: int, x: int): seq<int>
    requires s in q
  {
    q[..IndexOf(q, s)] + [x] + q[IndexOf(q, s)..]
  }

  class Arena {
    var segs: map<int, Seg>
    var queue: seq<int>
    var lists: seq<seq<int>>
    var pool: seq<int>       // pVmemFreeSegHead
    var count: int           // iVmemFreeSegCount
    var quantum: int

    ghost function Now(): State
      reads this
    {
      State(segs, queue, lists, pool, count, quantum)
    }

    constructor ()
      ensures Now() == State(map[], [], seq(VMEM_FREELISTS_N, _ => []), [], 0, 0)
    {
      segs, queue, lists := map[], [], seq(VMEM_FREELISTS_N, _ => []);
      pool, count, quantum := [], 0, 0;
    }

    /** `_vmem_segfree` */
    method SegFree(id: int)
      modifies this`pool, this`count
      ensures pool == [id] + old(pool) && count == old(count) + 1
    {
      pool := [id] + pool;
      count := count + 1;
    }

    /** `_vmem_segalloc` */
    method SegAlloc() returns (r: Option<int>)
      modifies this`pool, this`count
      ensures old(pool) == [] ==> r == None && pool == [] && count == old(count)
      ensures old(pool) != [] ==> r == Some(old(pool)[0]) && pool == old(pool)[1..] && count == old(count) - 1
    {
      if pool == [] { return None; }
      r := Some(pool[0]);
      pool, count := pool[1..], count - 1;
    }

    /** `vmem_bootstrap`, then an arena with no span: every descriptor is in the
        pool, and the invariant holds. */
    method Bootstrap()
      requires Now() == State(map[], [], seq(VMEM_FREELISTS_N, _ => []), [], 0, 0)
      modifies this`pool, this`count
      ensures Now() == Booted(0)
      ensures Inv(Now()) && Conserved(Now()) && SpansApart(Values(segs, queue))
    {
      var ebx := 0;
      while true
        invariant 0 <= ebx < VMEM_STATIC_SEG_COUNT && pool == Countdown(ebx) && count == ebx
        decreases VMEM_STATIC_SEG_COUNT - ebx
      {
        SegFree(ebx);
        assert pool == Countdown(ebx + 1);
        ebx := ebx + 1;
        if ebx >= VMEM_STATIC_SEG_COUNT { break; }
      }
      assert pool == Countdown(VMEM_STATIC_SEG_COUNT);
      BootedInv(0);
    }

    /** `_vmem_add_to_freelist` */
    method AddToFreelist(id: int)
      modifies this`lists
      ensures lists == Enlist(old(lists), Class(Desc(segs, id).size), id)
    {
      var size := Desc(segs, id).size;
      var c := if size > 0 then ListFromSize(size) else 0;
      if size > 0 { ClassBrackets(size); }
      lists := if c < |lists| then lists[c := [id] + lists[c]] else lists;
    }

    /** `_vmem_add`; its two error exits are the code's own. */
    method Add(base: int, size: int)
      requires size > 0
      modifies this
      ensures Now() == AddSpan(old(Now()), base, size)
    {
      var span := SegAlloc();
      if span.None? { return; }
      segs := segs[span.value := Seg(StaticSpan, base, size)];
      var free := SegAlloc();
      if free.None? { return; }
      segs := segs[free.value := Seg(Free, base, size)];
      queue := queue + [span.value];
      queue := queue + [free.value];
      assert queue == old(queue) + [span.value, free.value];
      AddToFreelist(free.value);
    }

    /** `vmem_create` on zeroed fields: the initial span only for an arena of its
        own (no source) that has a size. */
    method Create(base: int, size: int, quantum: int, source: int)
      requires size >= 0
      modifies this
      ensures old(Now()) == Booted(0) ==>
                Now() == if source == 0 && size != 0 then AddSpan(Booted(quantum), base, size) else Booted(quantum)
      ensures var empty := old(Now()).(queue := [], lists := seq(VMEM_FREELISTS_N, _ => []), quantum := quantum);
              Now() == if source == 0 && size != 0 then AddSpan(empty, base, size) else empty
    {
      queue, lists := [], seq(VMEM_FREELISTS_N, _ => []);
      this.quantum := quantum;
      if source == 0 && size != 0 {
        Add(base, size);
      }
    }

    /** The nodes of one list, in order, up to the first strictly larger one. */
    method ScanList(l: seq<int>, n: nat) returns (r: Option<int>)
      ensures r == FirstLarger(segs, l, n)
    {
      var j := 0;
      assert l[0..] == l;
      while j < |l|
        invariant j <= |l| && FirstLarger(segs, l, n) == FirstLarger(segs, l[j..], n)
      {
        assert l[j..][0] == l[j] && l[j..][1..] == l[j + 1..];
        if !(Signed(n) >= Signed(Desc(segs, l[j]).size)) { return Some(l[j]); }
        j := j + 1;
      }
      r := None;
    }

    /** The two strategies of `vmem_xalloc`, with the flag change taking effect;
        the measure is (strategy, lists left). */
    method Find(n: nat, instant: bool) returns (r: Option<int>)
      requires 0 < n < LIMIT && |lists| == VMEM_FREELISTS_N
      ensures r == Search(Now(), n, instant)
    {
      ClassBrackets(n);
      ClassInTable(n);
      var quick := instant;
      while true
        invariant quick ==> instant
        invariant instant && !quick ==> InstantFit(lists, n).None?
        decreases quick
      {
        var list: nat := ListFromSize(n);
        if quick {
          if !PowerTest(n) { list := list + 1; }
          while list < |lists|
            invariant InstantStart(n) <= list <= |lists|
            invariant var k := FirstNonEmpty(lists, list);
                      InstantFit(lists, n) == if k == |lists| then None else Some(lists[k][0])
          {
            if lists[list] != [] { return Some(lists[list][0]); }
            list := list + 1;
          }
          quick := false;
        } else {
          while list < |lists|
            invariant list <= |lists| && BestFit(segs, lists, n, Bsr(n)) == BestFit(segs, lists, n, list)
          {
            var larger := ScanList(lists[list], n);
            if larger.Some? { return larger; }
            list := list + 1;
          }
          return None;
        }
      }
    }

    /** Put descriptor `id` into the queue just before `s`. */
    method InsertBefore(s: int, id: int)
      requires s in queue
      modifies this`queue
      ensures queue == Inserted(old(queue), s, id)
    {
      var k := IndexOf(queue, s);
      queue := queue[..k] + [id] + queue[k..];
    }

    /** The `.found` part of `vmem_xalloc`: unlink the segment, split off what lies
        before the block and what lies after it, return unused descriptors. */
    method Carve(s: int, start: int, n: nat, l: int, r: int)
      requires Cuttable(Now(), s, start, n) && Spare(Now(), l, r)
      modifies this
      ensures Now() == Finish(old(Now()), s, start, n, l, r, false)
    {
      hide Class, Enlist, Unlist, Desc, Finish, LeftSplit, RightSplit, Inserted;
      ghost var st := Now();
      SplitKeepsMember(st.(lists := Unlist(lists, Class(Desc(segs, s).size), s)), s, start, l);
      lists := Unlist(lists, Class(Desc(segs, s).size), s);
      var keepLeft, keepRight := true, true;
      if Desc(segs, s).base != start {
        SplitLeft(s, start, l);
        keepLeft := false;
      }
      var block := s;
      if Desc(segs, s).size != n && Signed(Desc(segs, s).size - n) > Signed(Decremented(quantum)) {
        SplitRight(s, n, r);
        block, keepRight := r, false;
      }
      segs := segs[block := Desc(segs, block).(kind := Allocated)];
      if keepLeft { SegFree(l); }
      if keepRight { SegFree(r); }
      CarveIsFinish(st, s, start, n, l, r);
      assert Now() == CarveSteps(st, s, start, n, l, r);
    }

    method SplitLeft(s: int, start: int, l: int)
      requires s in queue && s != l
      modifies this`segs, this`lists, this`queue
      ensures Now() == LeftSplit(old(Now()), s, start, l)
    {
      var d := Desc(segs, s);
      segs := segs[l := Seg(Free, d.base, start - d.base)];
      segs := segs[s := Seg(d.kind, start, d.size - (start - d.base))];
      AddToFreelist(l);
      InsertBefore(s, l);
    }

    /** By design the remainder, which keeps its descriptor, goes on a free list. */
    method SplitRight(s: int, n: nat, r: int)
      requires s in queue && s != r
      modifies this`segs, this`lists, this`queue
      ensures Now() == RightSplit(old(Now()), s, n, r)
    {
      hide IndexOf, Enlist, Class;
      var d := Desc(segs, s);
      segs := segs[s := Seg(d.kind, d.base + n, d.size - n)];
      segs := segs[r := Seg(Desc(segs, r).kind, d.base, n)];
      AddToFreelist(s);
      InsertBefore(s, r);
    }

    /** `vmem_xalloc` without placement constraints, as `vmem_alloc` calls it. */
    method XAllocate(n: nat, instant: bool, best: bool) returns (r: Option<int>)
      requires Inv(Now()) && 0 < n < LIMIT
      modifies this
      ensures (Now(), r) == XAlloc(old(Now()), n, instant, best)
      ensures Inv(Now())
    {
      hide Finish, InstantFit, BestFit, Tiled, ListedAt;
      ghost var st := Now();
      XAllocKeeps(st, n, instant, best);
      SearchExact(st, n, instant);
      var left := SegAlloc();
      if left.None? { return None; }
      var right := SegAlloc();
      if right.None? {
        SegFree(left.value);
        assert [st.pool[0]] + st.pool[1..] == st.pool;
        return None;
      }
      assert st.pool[1..][1..] == st.pool[2..];
      var found := None;
      if instant || best {
        found := Find(n, instant);
      }
      if found.None? {
        SegFree(left.value);
        SegFree(right.value);
        assert pool == [st.pool[1], st.pool[0]] + st.pool[2..];
        return None;
      }
      var s := found.value;
      var start := Desc(segs, s).base;     // `_vmem_segfit` accepts every segment at its base
      TakenCuttable(st, n, s, instant);
      Carve(s, start, n, left.value, right.value);
      r := Some(start);
    }
  }

  /** What SplitLeft does to the state. */
  function LeftSplit(st: State, s: int, start: int, l: int): State
    requires s in st.queue
  {
    var d := Desc(st.segs, s);
    var segs := st.segs[l := Seg(Free, d.base, start - d.base)][s := Seg(d.kind, start, d.size - (start - d.base))];
    st.(segs := segs, lists := Enlist(st.lists, Class(Desc(segs, l).size), l),
        queue := Inserted(st.queue, s, l))
  }

  function RightSplit(st: State, s: int, n: nat, r: int): State
    requires s in st.queue
  {
    var d := Desc(st.segs, s);
    var segs1 := st.segs[s := Seg(d.kind, d.base + n, d.size - n)];
    var segs := segs1[r := Seg(Desc(segs1, r).kind, d.base, n)];
    st.(segs := segs, lists := Enlist(st.lists, Class(Desc(segs, s).size), s),
        queue := Inserted(st.queue, s, r))
  }

  lemma SplitKeepsMember(st: State, s: int, start: int, l: int)
    requires s in st.queue
    ensures s in LeftSplit(st, s, start, l).queue
  {
    assert Inserted(st.queue, s, l)[IndexOf(st.queue, s) + 1] == s;
  }

  /** The steps of Carve, one after the other. */
  function CarveSteps(st: State, s: int, start: int, n: nat, l: int, r: int): State
    requires s in st.queue
  {
    var st1 := st.(lists := Unlist(st.lists, Class(Desc(st.segs, s).size), s));
    SplitKeepsMember(st1, s, start, l);
    var left := Desc(st.segs, s).base != start;
    var st2 := if left then LeftSplit(st1, s, start, l) else st1;
    var size := Desc(st2.segs, s).size;
    var right := size != n && Signed(size - n) > Signed(Decremented(st2.quantum));
    var st3 := if right then RightSplit(st2, s, n, r) else st2;
    var block := if right then r else s;
    var st4 := st3.(segs := st3.segs[block := Desc(st3.segs, block).(kind := Allocated)]);
    var st5 := if left then st4 else st4.(pool := [l] + st4.pool, count := st4.count + 1);
    if right then st5 else st5.(pool := [r] + st5.pool, count := st5.count + 1)
  }

  lemma InsertOne(q: seq<int>, s: int, x: int)
    requires s in q
    ensures Inserted(q, s, x) == q[..IndexOf(q, s)] + [x, s] + q[IndexOf(q, s) + 1..]
    ensures q == q[..IndexOf(q, s)] + [s] + q[IndexOf(q, s) + 1..]
  {
    hide IndexOf;
    var k := IndexOf(q, s);
    assert q[k..] == [s] + q[k + 1..];
  }

  lemma {:induction false} InsertTwice(q: seq<int>, s: int, l: int, r: int)
    requires s in q && l != s
    ensures s in Inserted(q, s, l)
    ensures Inserted(Inserted(q, s, l), s, r) == q[..IndexOf(q, s)] + [l, r, s] + q[IndexOf(q, s) + 1..]
  {
    hide IndexOf;
    var k := IndexOf(q, s);
    var q1 := q[..k] + [l] + q[k..];
    assert q1[k + 1] == s;
    FirstIndex(q1, s, k + 1);
    assert q1[..k + 1] == q[..k] + [l];
    assert q1[k + 1..] == [s] + q[k + 1..];
  }

  lemma FirstIndex(q: seq<int>, s: int, i: nat)
    requires i < |q| && q[i] == s && forall j :: 0 <= j < i ==> q[j] != s
    ensures IndexOf(q, s) == i
  {
    hide IndexOf;
    var k := IndexOf(q, s);
    assert k <= i && i <= k;
  }

  lemma CarveQueue(st: State, s: int, start: int, n: nat, l: int, r: int)
    requires Cuttable(st, s, start, n) && Spare(st, l, r)
    ensures CarveSteps(st, s, start, n, l, r).queue == Finish(st, s, start, n, l, r, false).queue
  {
    hide Enlist, Unlist, Class, CutLists, CutSegs, IndexOf, Inserted, PieceIds, Returned;
    SplitKeepsMember(st, s, start, l);
    var cut := CutOf(Desc(st.segs, s), start, n, st.quantum);
    QueueCut(st.queue, s, l, r, cut);
    assert CarveSteps(st, s, start, n, l, r).queue
        == var q1 := if cut.left then Inserted(st.queue, s, l) else st.queue;
           if cut.right then Inserted(q1, s, r) else q1;
  }

  /** Inserting before s, once or twice, puts the pieces' descriptors in order. */
  lemma QueueCut(q: seq<int>, s: int, l: int, r: int, cut: Cut)
    requires s in q && l != s
    ensures cut.left ==> s in Inserted(q, s, l)
    ensures (var q1 := if cut.left then Inserted(q, s, l) else q;
             if cut.right then Inserted(q1, s, r) else q1)
         == q[..IndexOf(q, s)] + PieceIds(s, l, r, cut) + q[IndexOf(q, s) + 1..]
  {
    hide IndexOf, Inserted;
    InsertTwice(q, s, l, r);
    InsertOne(q, s, l);
    InsertOne(q, s, r);
    assert PieceIds(s, l, r, cut)
        == if cut.left then (if cut.right then [l, r, s] else [l, s]) else (if cut.right then [r, s] else [s]);
  }

  lemma CarveSegs(st: State, s: int, start: int, n: nat, l: int, r: int)
    requires Cuttable(st, s, start, n) && Spare(st, l, r)
    ensures CarveSteps(st, s, start, n, l, r).segs == Finish(st, s, start, n, l, r, false).segs
  {
    hide Enlist, Unlist, Class, CutLists, IndexOf, PieceIds, Returned;
    var d := Desc(st.segs, s);
    var m := LeftSegs(st.segs, d, l, start, CutOf(d, start, n, st.quantum).left);
    var mid, rest := Seg(Free, start, d.End() - start), Seg(Free, start + n, d.End() - start - n);
    Overwrite(m, s, mid, rest);
    Overwrite(m, s, mid, Seg(Allocated, start, d.End() - start));
    Overwrite(m[s := rest], r, Seg(Desc(m, r).kind, start, n), Seg(Allocated, start, n));
  }

  lemma CarveOthers(st: State, s: int, start: int, n: nat, l: int, r: int)
    requires Cuttable(st, s, start, n) && Spare(st, l, r)
    ensures var a, b := CarveSteps(st, s, start, n, l, r), Finish(st, s, start, n, l, r, false);
            a.lists == b.lists && a.pool == b.pool && a.count == b.count && a.quantum == b.quantum
  {
    hide Enlist, Unlist, Class, IndexOf, PieceIds;
  }

  /** Step by step or all at once, the cut is the same. */
  lemma CarveIsFinish(st: State, s: int, start: int, n: nat, l: int, r: int)
    requires Cuttable(st, s, start, n) && Spare(st, l, r)
    ensures CarveSteps(st, s, start, n, l, r) == Finish(st, s, start, n, l, r, false)
  {
    hide CarveSteps, Finish;
    CarveQueue(st, s, start, n, l, r);
    CarveSegs(st, s, start, n, l, r);
    CarveOthers(st, s, start, n, l, r);
  }

  lemma TakenCuttable(st: State, n: nat, s: int, instant: bool)
    requires Inv(st) && 0 < n < LIMIT && |st.pool| >= 2
    requires Search(st, n, instant) == Some(s)
    ensures var taken := st.(pool := st.pool[2..], count := st.count - 2);
            Cuttable(taken, s, Desc(st.segs, s).base, n) && Spare(taken, st.pool[0], st.pool[1])
  {
    SearchExact(st, n, instant);
    SpareFromPool(st);
  }
}
