/** Searching, allocating and adding spans, and every run of them. */
module VmemAlloc {
  import opened Common
  import opened VmemSize
  import opened VmemTiles
  import opened VmemSpec
  import opened VmemRuns

  // ----- the search -----

  ghost predicate IsFree(st: State, id: int) {
    id in st.queue && Desc(st.segs, id).kind.Free?
  }

  lemma FreeIsListed(st: State, id: int)
    requires FreeListsExact(st) && SizesFit(st) && IsFree(st, id)
    ensures var c := Class(Desc(st.segs, id).size);
            c < VMEM_FREELISTS_N && id in st.lists[c]
  {
    ClassFits(Desc(st.segs, id).size);
    assert ListedAt(st.lists, id, Home(st, id));
  }

  /** Instant fit finds a large enough segment without comparing sizes, and misses
      exactly when no free segment is in its classes. */
  lemma InstantFitExact(st: State, n: nat)
    requires FreeListsExact(st) && SizesFit(st) && n > 0
    ensures match InstantFit(st.lists, n)
            case Some(s) => IsFree(st, s) && Desc(st.segs, s).size >= n
            case None => forall id :: IsFree(st, id) ==> Class(Desc(st.segs, id).size) < InstantStart(n)
  {
    var from := if InstantStart(n) < |st.lists| then InstantStart(n) else |st.lists|;
    var k := FirstNonEmpty(st.lists, from);
    if k < |st.lists| {
      var s := st.lists[k][0];
      ListedHome(st, k, s);
      InstantLarge(n, k, Desc(st.segs, s).size);
    } else {
      forall id | IsFree(st, id)
        ensures Class(Desc(st.segs, id).size) < InstantStart(n)
      {
        FreeIsListed(st, id);
      }
    }
  }

  lemma {:induction false} FirstLargerExact(segs: map<int, Seg>, l: seq<int>, n: nat)
    ensures match FirstLarger(segs, l, n)
            case Some(s) => s in l && Signed(n) < Signed(Desc(segs, s).size)
            case None => forall id :: id in l ==> Signed(Desc(segs, id).size) <= Signed(n)
    decreases l
  {
    if l != [] {
      FirstLargerExact(segs, l[1..], n);
      assert forall id :: id in l <==> id == l[0] || id in l[1..];
    }
  }

  /** Best fit finds a segment that is larger as a signed word whenever one is
      listed from class i on, and misses only when none is. */
  lemma {:induction false} BestFitExact(segs: map<int, Seg>, lists: seq<seq<int>>, n: nat, i: nat)
    requires i <= |lists|
    ensures match BestFit(segs, lists, n, i)
            case Some(s) => Signed(n) < Signed(Desc(segs, s).size) && exists j :: i <= j < |lists| && s in lists[j]
            case None => forall j, id :: i <= j < |lists| && id in lists[j] ==> Signed(Desc(segs, id).size) <= Signed(n)
    decreases |lists| - i
  {
    if i < |lists| {
      FirstLargerExact(segs, lists[i], n);
      BestFitExact(segs, lists, n, i + 1);
    }
  }

  /** Sizes best fit can see for n: strictly larger, and not beyond 2^31 unless the
      request is. */
  predicate Visible(n: nat, size: int) {
    n < size && (size < 0x8000_0000 || n >= 0x8000_0000)
  }

  /** Within the lists best fit looks at, the signed test is just that. */
  lemma SignedSees(n: nat, size: nat)
    requires 0 < n < LIMIT && 0 < size < LIMIT && Bsr(size) >= Bsr(n)
    ensures Signed(n) < Signed(size) <==> Visible(n, size)
  {
    HalfClass(n);
    HalfClass(size);
  }

  lemma HalfClass(n: nat)
    requires 0 < n < LIMIT
    ensures Bsr(n) <= 31 && (n >= 0x8000_0000 <==> Bsr(n) == 31)
  {
    ClassBrackets(n);
    ClassInTable(n);
    WordRange();
    assert Pow2(31) == 0x8000_0000;
    if Bsr(n) < 31 { Pow2Monotone(Bsr(n) + 1, 31); }
  }

  /** The whole search returns a free segment that is large enough; it misses
      exactly when best fit sees no free segment and, under instant fit, none is in
      the instant classes either. */
  lemma SearchExact(st: State, n: nat, instant: bool)
    requires FreeListsExact(st) && SizesFit(st) && 0 < n < LIMIT
    ensures Search(st, n, instant).Some? ==>
              IsFree(st, Search(st, n, instant).value) && Desc(st.segs, Search(st, n, instant).value).size >= n
    ensures Search(st, n, instant).None? <==>
              forall id :: IsFree(st, id) ==>
                !Visible(n, Desc(st.segs, id).size) && (instant ==> Class(Desc(st.segs, id).size) < InstantStart(n))
  {
    hide InstantFit, BestFit;
    InstantFitExact(st, n);
    ClassInTable(n);
    BestFitExact(st.segs, st.lists, n, Bsr(n));
    if !(instant && InstantFit(st.lists, n).Some?) {
      match BestFit(st.segs, st.lists, n, Bsr(n))
      case Some(s) =>
        var j :| Bsr(n) <= j < |st.lists| && s in st.lists[j];
        ListedHome(st, j, s);
        SignedSees(n, Desc(st.segs, s).size);
      case None =>
        forall id | IsFree(st, id)
          ensures !Visible(n, Desc(st.segs, id).size)
        {
          BestMissBound(st, n, id);
        }
    } else {
      var s := InstantFit(st.lists, n).value;
      InstantClass(st, n, s);
    }
  }

  /** Best fit keeps its word, that it finds a strictly larger segment whenever one
      is free, exactly if the request is of 2^31 or more, or a larger segment below
      2^31 is free, or none from 2^31 on is. */
  lemma BestFitMeantIff(st: State, n: nat)
    requires FreeListsExact(st) && SizesFit(st) && 0 < n < LIMIT
    ensures (Search(st, n, false).Some? <==> exists id :: IsFree(st, id) && Desc(st.segs, id).size > n)
            <==> || n >= 0x8000_0000
                 || (exists id :: IsFree(st, id) && n < Desc(st.segs, id).size < 0x8000_0000)
                 || (forall id :: IsFree(st, id) ==> Desc(st.segs, id).size < 0x8000_0000)
  {
    hide Search, IsFree, Desc, FreeListsExact, SizesFit;
    SearchExact(st, n, false);
  }

  /** Instant fit is not touched by this: with its fallback it misses exactly when
      no free segment is larger and none is in the instant classes. */
  lemma InstantSearchExact(st: State, n: nat)
    requires FreeListsExact(st) && SizesFit(st) && 0 < n < LIMIT
    ensures Search(st, n, true).None? <==>
              forall id :: IsFree(st, id) ==>
                Desc(st.segs, id).size <= n && Class(Desc(st.segs, id).size) < InstantStart(n)
  {
    SearchExact(st, n, true);
    forall id | IsFree(st, id) && Class(Desc(st.segs, id).size) < InstantStart(n)
      ensures Visible(n, Desc(st.segs, id).size) <==> Desc(st.segs, id).size > n
    {
      HalfClass(n);
      HalfClass(Desc(st.segs, id).size);
      PowerTestIff(n);
    }
  }

  lemma BestMissBound(st: State, n: nat, id: int)
    requires FreeListsExact(st) && SizesFit(st) && 0 < n < LIMIT && IsFree(st, id)
    requires forall j, x :: Bsr(n) <= j < |st.lists| && x in st.lists[j] ==> Signed(Desc(st.segs, x).size) <= Signed(n)
    ensures !Visible(n, Desc(st.segs, id).size)
  {
    FreeIsListed(st, id);
    if Desc(st.segs, id).size > n {
      ClassMonotone(n, Desc(st.segs, id).size);
      SignedSees(n, Desc(st.segs, id).size);
    }
  }

  lemma InstantClass(st: State, n: nat, s: int)
    requires FreeListsExact(st) && SizesFit(st) && n > 0 && InstantFit(st.lists, n) == Some(s)
    ensures Class(Desc(st.segs, s).size) >= InstantStart(n)
  {
    var from := if InstantStart(n) < |st.lists| then InstantStart(n) else |st.lists|;
    ListedHome(st, FirstNonEmpty(st.lists, from), s);
  }

  /** The search as written: clearing the instant-fit flag is computed and thrown
      away, so a miss starts over with the flag still set. */
  function SearchAsWritten(st: State, n: nat, instant: bool, rounds: nat): Option<Option<int>>
    requires 0 < n && |st.lists| == VMEM_FREELISTS_N
    decreases rounds
  {
    if !instant then Some(Search(st, n, false))
    else if InstantFit(st.lists, n).Some? then Some(InstantFit(st.lists, n))
    else if rounds == 0 then None
    else SearchAsWritten(st, n, instant, rounds - 1)
  }

  /** As written an instant-fit search ends, in any number of rounds, exactly when
      some free segment is in the instant classes; then it agrees with the design. */
  lemma {:induction false} AsWrittenEndsIff(st: State, n: nat, rounds: nat)
    requires FreeListsExact(st) && SizesFit(st) && 0 < n < LIMIT
    ensures SearchAsWritten(st, n, true, rounds).Some? <==>
              exists id :: IsFree(st, id) && Class(Desc(st.segs, id).size) >= InstantStart(n)
    ensures SearchAsWritten(st, n, true, rounds).Some? ==>
              SearchAsWritten(st, n, true, rounds) == Some(Search(st, n, true))
    decreases rounds
  {
    InstantFitExact(st, n);
    if InstantFit(st.lists, n).Some? {
      InstantClass(st, n, InstantFit(st.lists, n).value);
    } else if rounds > 0 {
      AsWrittenEndsIff(st, n, rounds - 1);
    }
  }

  /** Which segment best fit finds: the first one visible, the lists taken from the
      request's own class upward and each list from its head. */
  ghost predicate FirstVisible(st: State, n: nat, s: int, j: nat, p: nat)
    requires 0 < n
  {
    && Bsr(n) <= j < |st.lists| && p < |st.lists[j]| && st.lists[j][p] == s
    && Visible(n, Desc(st.segs, s).size)
    && (forall i, id :: Bsr(n) <= i < j && id in st.lists[i] ==> !Visible(n, Desc(st.segs, id).size))
    && (forall q :: 0 <= q < p ==> !Visible(n, Desc(st.segs, st.lists[j][q]).size))
  }

  lemma {:induction false} FirstLargerFirst(segs: map<int, Seg>, l: seq<int>, n: nat) returns (p: nat)
    requires FirstLarger(segs, l, n).Some?
    ensures p < |l| && FirstLarger(segs, l, n) == Some(l[p]) && Signed(n) < Signed(Desc(segs, l[p]).size)
    ensures forall q :: 0 <= q < p ==> Signed(Desc(segs, l[q]).size) <= Signed(n)
    decreases l
  {
    if Signed(n) < Signed(Desc(segs, l[0]).size) {
      p := 0;
    } else {
      var p' := FirstLargerFirst(segs, l[1..], n);
      p := p' + 1;
      assert forall q :: 0 < q < |l| ==> l[q] == l[1..][q - 1];
    }
  }

  lemma {:induction false} BestFitFirst(segs: map<int, Seg>, lists: seq<seq<int>>, n: nat, i: nat)
    returns (j: nat, p: nat)
    requires i <= |lists| && BestFit(segs, lists, n, i).Some?
    ensures i <= j < |lists| && p < |lists[j]| && BestFit(segs, lists, n, i) == Some(lists[j][p])
    ensures Signed(n) < Signed(Desc(segs, lists[j][p]).size)
    ensures forall k, id :: i <= k < j && id in lists[k] ==> Signed(Desc(segs, id).size) <= Signed(n)
    ensures forall q :: 0 <= q < p ==> Signed(Desc(segs, lists[j][q]).size) <= Signed(n)
    decreases |lists| - i
  {
    if FirstLarger(segs, lists[i], n).Some? {
      j := i;
      p := FirstLargerFirst(segs, lists[i], n);
    } else {
      FirstLargerExact(segs, lists[i], n);
      j, p := BestFitFirst(segs, lists, n, i + 1);
    }
  }

  /** Best fit by itself, and which segment it takes. */
  lemma BestFitTakes(st: State, n: nat) returns (j: nat, p: nat)
    requires FreeListsExact(st) && SizesFit(st) && 0 < n < LIMIT && Search(st, n, false).Some?
    ensures FirstVisible(st, n, Search(st, n, false).value, j, p)
  {
    ClassInTable(n);
    j, p := BestFitFirst(st.segs, st.lists, n, Bsr(n));
    hide Bsr, BestFit;
    forall i, id | Bsr(n) <= i < |st.lists| && id in st.lists[i]
      ensures Signed(n) < Signed(Desc(st.segs, id).size) <==> Visible(n, Desc(st.segs, id).size)
    {
      ListedSees(st, n, i, id);
    }
  }

  lemma ListedSees(st: State, n: nat, i: nat, id: int)
    requires FreeListsExact(st) && SizesFit(st) && 0 < n < LIMIT && Bsr(n) <= i < |st.lists| && id in st.lists[i]
    ensures Signed(n) < Signed(Desc(st.segs, id).size) <==> Visible(n, Desc(st.segs, id).size)
  {
    ListedHome(st, i, id);
    SignedSees(n, Desc(st.segs, id).size);
  }

  /** Which segment instant fit takes: the head of the first list in its classes that
      is not empty; if there is none, the search is best fit's. */
  lemma InstantTakes(st: State, n: nat)
    requires |st.lists| == VMEM_FREELISTS_N && 0 < n < LIMIT
    ensures match InstantFit(st.lists, n)
            case Some(s) =>
              && Search(st, n, true) == Some(s)
              && exists k :: InstantStart(n) <= k < |st.lists| && st.lists[k] != [] && st.lists[k][0] == s
                   && forall i :: InstantStart(n) <= i < k ==> st.lists[i] == []
            case None =>
              && Search(st, n, true) == Search(st, n, false)
              && forall i :: InstantStart(n) <= i < |st.lists| ==> st.lists[i] == []
  {
    hide BestFit, Bsr, InstantStart;
    var from := if InstantStart(n) < |st.lists| then InstantStart(n) else |st.lists|;
    var k := FirstNonEmpty(st.lists, from);
    if k < |st.lists| {
      assert InstantStart(n) <= k && st.lists[k] != [] && st.lists[k][0] == InstantFit(st.lists, n).value;
    }
  }

  // ----- vmem_xalloc -----

  /** Two descriptors are taken first; whatever is not used goes back. */
  ghost function XAlloc(st: State, n: nat, instant: bool, best: bool): (State, Option<int>)
    requires Inv(st) && 0 < n < LIMIT
  {
    SearchExact(st, n, instant);
    if |st.pool| < 2 then (st, None)
    else
      var l, r, rest := st.pool[0], st.pool[1], st.pool[2..];
      var found := if instant || best then Search(st, n, instant) else None;
      match found
      case None => (st.(pool := [r, l] + rest), None)
      case Some(s) =>
        var taken := st.(pool := rest, count := st.count - 2);
        (Finish(taken, s, Desc(st.segs, s).base, n, l, r, false), Some(Desc(st.segs, s).base))
  }

  /** When an allocation succeeds: two descriptors are left, a strategy is asked for,
      and some free segment is visible to best fit or in the instant classes. */
  lemma XAllocSucceedsIff(st: State, n: nat, instant: bool, best: bool)
    requires Inv(st) && 0 < n < LIMIT
    ensures XAlloc(st, n, instant, best).1.Some?
            <==> && |st.pool| >= 2 && (instant || best)
                 && exists id :: IsFree(st, id)
                      && (Visible(n, Desc(st.segs, id).size)
                          || (instant && Class(Desc(st.segs, id).size) >= InstantStart(n)))
  {
    hide Search, Finish, Tiled;
    SearchExact(st, n, instant);
  }

  /** And what it answers: the base of the segment searched for, from which at least n
      bytes are out afterwards, exactly n if the rest is worth keeping. */
  lemma XAllocTakes(st: State, n: nat, instant: bool, best: bool)
    requires Inv(st) && 0 < n < LIMIT && |st.pool| >= 2 && (instant || best) && Search(st, n, instant).Some?
    ensures var s := Search(st, n, instant).value;
            var d := Desc(st.segs, s);
            var (st', result) := XAlloc(st, n, instant, best);
            && result == Some(d.base)
            && Held(st')
               == Held(st) + {Seg(Allocated, d.base, if WorthKeeping(d.size - n, st.quantum) then n else d.size)}
  {
    hide Search, Finish, Tiled, WorthKeeping, Held;
    SearchExact(st, n, instant);
    SpareFromPool(st);
    var s := Search(st, n, instant).value;
    var d := Desc(st.segs, s);
    var taken := st.(pool := st.pool[2..], count := st.count - 2);
    CutBlocks(taken, s, d.base, n, st.pool[0], st.pool[1]);
    SameHeld(st, taken);
    assert d.End() - d.base - n == d.size - n;
  }

  lemma SameHeld(st: State, st': State)
    requires st'.segs == st.segs && st'.queue == st.queue
    ensures Held(st') == Held(st)
  {
  }

  lemma SpareFromPool(st: State)
    requires DescriptorsSound(st) && |st.pool| >= 2
    ensures var taken := st.(pool := st.pool[2..], count := st.count - 2);
            Spare(taken, st.pool[0], st.pool[1]) && DescriptorsSound(taken)
    ensures forall id :: id in st.pool <==> id in st.pool[2..] || id == st.pool[0] || id == st.pool[1]
  {
    var l, r, rest := st.pool[0], st.pool[1], st.pool[2..];
    assert st.pool == [l, r] + rest;
    assert l in st.pool && r in st.pool;
    assert forall i :: 0 <= i < |rest| ==> rest[i] == st.pool[i + 2];
    assert forall id :: id in rest ==> id in st.pool;
  }

  /** A failed call only reorders the pool. */
  lemma FailureKeeps(st: State)
    requires Inv(st) && |st.pool| >= 2
    ensures var st' := st.(pool := [st.pool[1], st.pool[0]] + st.pool[2..]);
            Inv(st') && (Conserved(st') <==> Conserved(st)) && Held(st') == Held(st)
  {
    hide Tiled;
    SpareFromPool(st);
    var st' := st.(pool := [st.pool[1], st.pool[0]] + st.pool[2..]);
    NoDupCons(st.pool[2..], st.pool[0]);
    NoDupCons([st.pool[0]] + st.pool[2..], st.pool[1]);
    assert [st.pool[1]] + ([st.pool[0]] + st.pool[2..]) == st'.pool;
    assert forall id :: id in st'.pool <==> id in st.pool;
    SameHomes(st, st');
  }

  /** The free lists depend on queue, contents and lists only. */
  lemma SameHomes(st: State, st': State)
    requires FreeListsExact(st) && st'.lists == st.lists && st'.queue == st.queue
    requires forall id :: id in st.queue ==> Desc(st'.segs, id) == Desc(st.segs, id)
    ensures FreeListsExact(st')
  {
    forall id
      ensures ListedAt(st'.lists, id, Home(st', id))
    {
      assert Home(st', id) == Home(st, id);
    }
  }

  /** One allocation: the invariant survives, the pool loses exactly as many
      descriptors as the queue gains segments, none is lost, and on success the block
      is new, overlaps no other and lies in a span. */
  lemma XAllocKeeps(st: State, n: nat, instant: bool, best: bool)
    requires Inv(st) && 0 < n < LIMIT
    ensures var (st', result) := XAlloc(st, n, instant, best);
            && Inv(st') && (Conserved(st) ==> Conserved(st'))
            && |st'.pool| + |st'.queue| == |st.pool| + |st.queue|
            && match result
               case None => Held(st') == Held(st) && st'.queue == st.queue && st'.segs == st.segs
               case Some(base) => exists b :: IssuedBlock(st, st', base, n, b)
  {
    hide Finish, Search, IssuedBlock, Held, Conserved, Tiled, ListedAt, SizesFit;
    SearchExact(st, n, instant);
    var (st', result) := XAlloc(st, n, instant, best);
    if |st.pool| >= 2 {
      if result.None? {
        FailureKeeps(st);
      } else {
        SuccessKeeps(st, n, Search(st, n, instant).value);
      }
    }
  }

  /** What a successful allocation of n bytes at base means. */
  ghost predicate IssuedBlock(st: State, st': State, base: int, n: int, b: Seg) {
    && b.kind.Allocated? && b.base == base && n <= b.size
    && Held(st') == Held(st) + {b}
    && Spans(st') == Spans(st)
    && (SpansApart(Values(st.segs, st.queue)) ==>
          && SpansApart(Values(st'.segs, st'.queue))
          && (forall x :: x in Held(st) ==> Disjoint(x, b))
          && InSpan(Values(st.segs, st.queue), b))
  }

  ghost function Spans(st: State): set<Seg> {
    SpanSet(Values(st.segs, st.queue))
  }

  ghost function SpanSet(q: seq<Seg>): set<Seg> {
    set d | d in q && d.IsSpan()
  }

  ghost predicate InSpan(q: seq<Seg>, b: Seg) {
    exists span :: span in q && span.IsSpan() && Within(b, span)
  }

  predicate Within(b: Seg, span: Seg) {
    span.base <= b.base && b.End() <= span.End()
  }

  lemma SuccessKeeps(st: State, n: nat, s: int)
    requires Inv(st) && 0 < n < LIMIT && |st.pool| >= 2 && IsFree(st, s) && Desc(st.segs, s).size >= n
    ensures var taken := st.(pool := st.pool[2..], count := st.count - 2);
            var base := Desc(st.segs, s).base;
            var st' := Finish(taken, s, base, n, st.pool[0], st.pool[1], false);
            && Inv(st') && (Conserved(st) ==> Conserved(st'))
            && |st'.pool| + |st'.queue| == |st.pool| + |st.queue|
            && IssuedBlock(st, st', base, n, BlockOf(Desc(st.segs, s), base, n, st.quantum))
  {
    hide Tiled, Finish;
    var l, r := st.pool[0], st.pool[1];
    var taken := st.(pool := st.pool[2..], count := st.count - 2);
    var d := Desc(st.segs, s);
    var base := d.base;
    SpareFromPool(st);
    SameHomes(st, taken);
    CutKeepsInv(taken, s, base, n, l, r);
    CutBlocks(taken, s, base, n, l, r);
    FinishDescriptors(taken, s, base, n, l, r, false);
    PoolShrinks(taken, s, base, n, l, r);
    var b := BlockOf(d, base, n, st.quantum);
    CutSpans(taken, s, base, n, l, r);
    if SpansApart(Values(st.segs, st.queue)) {
      var span := FreeApart(Values(st.segs, st.queue), IndexOf(st.queue, s), b);
      assert Within(b, span);
    }
  }

  /** The net use of descriptors is the number of segments split off. */
  lemma PoolShrinks(st: State, s: int, start: int, n: int, l: int, r: int)
    requires s in st.queue
    ensures var cut := CutOf(Desc(st.segs, s), start, n, st.quantum);
            |Finish(st, s, start, n, l, r, false).pool|
            == |st.pool| + 2 - (if cut.left then 1 else 0) - (if cut.right then 1 else 0)
    ensures |Finish(st, s, start, n, l, r, false).pool| + |Finish(st, s, start, n, l, r, false).queue|
            == |st.pool| + 2 + |st.queue|
  {
    hide CutSegs, CutLists, IndexOf, CutOf, Returned, PieceIds, Class, Desc;
    CutLengths(st.pool, s, l, r, CutOf(Desc(st.segs, s), start, n, st.quantum));
    var k := IndexOf(st.queue, s);
    assert |st.queue[..k]| + 1 + |st.queue[k + 1..]| == |st.queue|;
  }

  lemma CutLengths(pool: seq<int>, s: int, l: int, r: int, cut: Cut)
    ensures |Returned(pool, l, r, cut)| == |pool| + 2 - (if cut.left then 1 else 0) - (if cut.right then 1 else 0)
    ensures |PieceIds(s, l, r, cut)| == 1 + (if cut.left then 1 else 0) + (if cut.right then 1 else 0)
  {
  }

  lemma CutSpans(st: State, s: int, start: int, n: int, l: int, r: int)
    requires NoDup(st.queue) && Cuttable(st, s, start, n) && Spare(st, l, r)
    ensures var st' := Finish(st, s, start, n, l, r, false);
            && Spans(st') == Spans(st)
            && (SpansApart(Values(st.segs, st.queue)) ==> SpansApart(Values(st'.segs, st'.queue)))
  {
    hide Finish, Desc;
    var v, k, d := Values(st.segs, st.queue), IndexOf(st.queue, s), Desc(st.segs, s);
    FinishValues(st, s, start, n, l, r, false);
    var pieces := Pieces(d, start, n, CutOf(d, start, n, st.quantum));
    SpanSetReplace(v, k, pieces);
    if SpansApart(v) { SpansReplace(v, k, pieces); }
  }

  lemma SpanSetReplace(v: seq<Seg>, k: nat, pieces: seq<Seg>)
    requires k < |v| && !v[k].IsSpan() && forall i :: 0 <= i < |pieces| ==> !pieces[i].IsSpan()
    ensures SpanSet(v[..k] + pieces + v[k + 1..]) == SpanSet(v)
  {
    var w := v[..k] + pieces + v[k + 1..];
    assert v == v[..k] + [v[k]] + v[k + 1..];
    forall d
      ensures d in SpanSet(w) <==> d in SpanSet(v)
    {
      assert d in w <==> d in v[..k] || d in pieces || d in v[k + 1..];
      assert d in v <==> d in v[..k] || d == v[k] || d in v[k + 1..];
    }
  }

  lemma SpansReplace(v: seq<Seg>, k: nat, pieces: seq<Seg>)
    requires SpansApart(v) && k < |v| && forall i :: 0 <= i < |pieces| ==> !pieces[i].IsSpan()
    ensures SpansApart(v[..k] + pieces + v[k + 1..])
  {
    var w, m := v[..k] + pieces + v[k + 1..], |pieces|;
    forall x | k <= x < k + m
      ensures !w[x].IsSpan()
    {
      assert w[x] == pieces[x - k];
    }
    forall i | 0 <= i < |w| && w[i].IsSpan()
      ensures 0 <= w[i].base && w[i].End() <= LIMIT
    {
      assert w[i] == v[if i < k then i else i - m + 1];
    }
    forall i, j | 0 <= i < j < |w| && w[i].IsSpan() && w[j].IsSpan()
      ensures Disjoint(w[i], w[j])
    {
      var i' := if i < k then i else i - m + 1;
      var j' := if j < k then j else j - m + 1;
      assert w[i] == v[i'] && w[j] == v[j'];
    }
  }

  // ----- vmem_add -----

  /** A span descriptor and a free segment over it; with an empty pool nothing
      happens, with one descriptor left that one is taken and lost. */
  function AddSpan(st: State, base: int, size: int): State {
    if |st.pool| == 0 then st
    else
      var span := st.pool[0];
      var segs := st.segs[span := Seg(StaticSpan, base, size)];
      if |st.pool| == 1 then st.(segs := segs, pool := [], count := st.count - 1)
      else
        var free := st.pool[1];
        State(segs[free := Seg(Free, base, size)], st.queue + [span, free],
              Enlist(st.lists, Class(size), free), st.pool[2..], st.count - 2, st.quantum)
  }

  lemma AddHome(st: State, base: int, size: int, id: int)
    requires DescriptorsSound(st) && |st.pool| >= 2
    ensures Home(AddSpan(st, base, size), id) == if id == st.pool[1] then Class(size) else Home(st, id)
  {
    SpareFromPool(st);
    assert id in st.queue + [st.pool[0], st.pool[1]] <==> id in st.queue || id == st.pool[0] || id == st.pool[1];
  }

  lemma AddLists(st: State, base: int, size: int)
    requires FreeListsExact(st) && DescriptorsSound(st) && |st.pool| >= 2 && 0 < size < LIMIT
    ensures FreeListsExact(AddSpan(st, base, size))
  {
    SpareFromPool(st);
    ClassFits(size);
    var st' := AddSpan(st, base, size);
    assert st.pool[1] in st.pool;
    forall id
      ensures ListedAt(st'.lists, id, Home(st', id))
    {
      hide ListedAt, Home, Enlist, Class;
      AddHome(st, base, size, id);
      NotInQueue(st, st.pool[1]);
      EnlistAt(st.lists, Class(size), st.pool[1], id, Home(st, id));
    }
    NotInQueue(st, st.pool[1]);
    assert ListedAt(st.lists, st.pool[1], Home(st, st.pool[1]));
    NoDupEdits(st.lists, Class(size), st.pool[1]);
  }

  lemma NotInQueue(st: State, id: int)
    requires id !in st.queue
    ensures Home(st, id) == -1
  {
  }

  lemma AddKeeps(st: State, base: int, size: int)
    requires Inv(st) && 0 < size < LIMIT
    ensures Inv(AddSpan(st, base, size))
    ensures Held(AddSpan(st, base, size)) == Held(st)
    ensures var st' := AddSpan(st, base, size);
            Values(st'.segs, st'.queue) == Values(st.segs, st.queue)
              + if |st.pool| >= 2 then [Seg(StaticSpan, base, size), Seg(Free, base, size)] else []
    ensures Conserved(st) ==> (Conserved(AddSpan(st, base, size)) <==> |st.pool| != 1)
    ensures SpansApart(Values(st.segs, st.queue)) && SpanClear(st, base, size) ==>
              SpansApart(Values(AddSpan(st, base, size).segs, AddSpan(st, base, size).queue))
  {
    if |st.pool| == 1 {
      LeakOne(st, base, size);
    } else if |st.pool| >= 2 {
      AddTwo(st, base, size);
      AddValues(st, base, size);
    }
  }

  /** The caller's part: a new span does not wrap and overlaps no earlier one. */
  ghost predicate SpanClear(st: State, base: int, size: int) {
    && 0 <= base && base + size <= LIMIT
    && forall d :: d in Values(st.segs, st.queue) && d.IsSpan() ==> Disjoint(d, Seg(StaticSpan, base, size))
  }

  lemma LeakOne(st: State, base: int, size: int)
    requires Inv(st) && |st.pool| == 1
    ensures var st' := AddSpan(st, base, size);
            Inv(st') && Values(st'.segs, st'.queue) == Values(st.segs, st.queue) && !Conserved(st')
  {
    var st' := AddSpan(st, base, size);
    var p := st.pool[0];
    assert p in st.pool;
    ValuesSame(st.segs, st'.segs, st.queue);
    SameHomes(st, st');
  }

  lemma AddValues(st: State, base: int, size: int)
    requires DescriptorsSound(st) && |st.pool| >= 2
    ensures var st' := AddSpan(st, base, size);
            Values(st'.segs, st'.queue)
            == Values(st.segs, st.queue) + [Seg(StaticSpan, base, size), Seg(Free, base, size)]
  {
    SpareFromPool(st);
    var st' := AddSpan(st, base, size);
    ValuesSame(st.segs, st'.segs, st.queue);
    ValuesConcat(st'.segs, st.queue, [st.pool[0], st.pool[1]]);
  }

  lemma AddDescriptors(st: State, base: int, size: int)
    requires DescriptorsSound(st) && |st.pool| >= 2
    ensures var st' := AddSpan(st, base, size);
            DescriptorsSound(st') && (Conserved(st) ==> Conserved(st'))
  {
    SpareFromPool(st);
    var st' := AddSpan(st, base, size);
    var two := [st.pool[0], st.pool[1]];
    assert st.queue + [] == st.queue;
    NoDupJoin(st.queue, two, []);
    assert st.queue + two + [] == st'.queue;
    assert forall id :: id in st'.queue <==> id in st.queue || id == two[0] || id == two[1];
  }

  lemma AddTwo(st: State, base: int, size: int)
    requires Inv(st) && |st.pool| >= 2 && 0 < size < LIMIT
    ensures var st' := AddSpan(st, base, size);
            && Inv(st') && Held(st') == Held(st) && (Conserved(st) ==> Conserved(st'))
            && (SpansApart(Values(st.segs, st.queue)) && SpanClear(st, base, size) ==>
                  SpansApart(Values(st'.segs, st'.queue)))
  {
    hide FreeListsExact;
    var st' := AddSpan(st, base, size);
    var span, free := Seg(StaticSpan, base, size), Seg(Free, base, size);
    AddValues(st, base, size);
    AddDescriptors(st, base, size);
    AddLists(st, base, size);
    TiledAppend(Values(st.segs, st.queue), span, free, 0, 0);
    BlocksConcat(Values(st.segs, st.queue), [span, free]);
    AddSizes(st, base, size);
  }

  lemma AddSizes(st: State, base: int, size: int)
    requires SizesFit(st) && DescriptorsSound(st) && |st.pool| >= 2 && 0 < size < LIMIT
    ensures SizesFit(AddSpan(st, base, size))
  {
    SpareFromPool(st);
  }

  // ----- whole runs -----

  datatype Op = Add(base: int, size: int) | Alloc(n: nat, instant: bool, best: bool)

  ghost predicate Legal(st: State, op: Op) {
    match op
    case Add(base, size) => 0 < size < LIMIT && SpanClear(st, base, size)
    case Alloc(n, _, _) => 0 < n < LIMIT
  }

  /** One call: the state after it and what it handed out. */
  ghost function Step(st: State, op: Op): (r: (State, Option<Seg>))
    requires Inv(st) && Legal(st, op)
    ensures Inv(r.0)
  {
    match op
    case Add(base, size) =>
      AddKeeps(st, base, size);
      (AddSpan(st, base, size), None)
    case Alloc(n, instant, best) =>
      XAllocKeeps(st, n, instant, best);
      var (st', result) := XAlloc(st, n, instant, best);
      (st', if result.Some? then Some(Seg(Allocated, result.value, n)) else None)
  }

  ghost predicate LegalRun(st: State, ops: seq<Op>)
    requires Inv(st)
    decreases |ops|
  {
    ops == [] || (Legal(st, ops[0]) && LegalRun(Step(st, ops[0]).0, ops[1..]))
  }

  ghost function Final(st: State, ops: seq<Op>): (r: State)
    requires Inv(st) && LegalRun(st, ops)
    ensures Inv(r)
    decreases |ops|
  {
    if ops == [] then st else Final(Step(st, ops[0]).0, ops[1..])
  }

  /** The address ranges handed out along a run, in order. */
  ghost function Issued(st: State, ops: seq<Op>): seq<Seg>
    requires Inv(st) && LegalRun(st, ops)
    decreases |ops|
  {
    if ops == [] then [] else Prepend(Step(st, ops[0]).1, Issued(Step(st, ops[0]).0, ops[1..]))
  }

  function Prepend(out: Option<Seg>, rest: seq<Seg>): (r: seq<Seg>)
    ensures out.Some? ==> |r| == |rest| + 1 && r[0] == out.value && forall i :: 0 < i < |r| ==> r[i] == rest[i - 1]
    ensures out.None? ==> r == rest
  {
    if out.Some? then [out.value] + rest else rest
  }

  /** One call keeps the spans apart and every block out; what it hands out is
      clear of all of those and lies inside one that is out afterwards. */
  lemma StepIssues(st: State, op: Op)
    requires Inv(st) && Legal(st, op) && SpansApart(Values(st.segs, st.queue))
    ensures var (st', out) := Step(st, op);
            && SpansApart(Values(st'.segs, st'.queue)) && Held(st) <= Held(st')
            && (out.Some? ==> Safe(st, st', out.value))
  {
    match op
    case Add(base, size) =>
      AddKeeps(st, base, size);
    case Alloc(n, instant, best) =>
      hide XAlloc, Inv, SpansApart, Held, Values, Safe;
      XAllocKeeps(st, n, instant, best);
      var (st', result) := XAlloc(st, n, instant, best);
      if result.Some? {
        var b :| IssuedBlock(st, st', result.value, n, b);
        IssuedIsSafe(st, st', result.value, n, b);
      }
  }

  /** A range handed out: clear of every earlier block, part of a block that is
      out from then on, and inside a span. */
  ghost predicate Safe(st: State, st': State, range: Seg) {
    && (forall x :: x in Held(st) ==> Disjoint(x, range))
    && (exists b :: b in Held(st') && Within(range, b))
    && InSpan(Values(st.segs, st.queue), range)
  }

  lemma IssuedIsSafe(st: State, st': State, base: int, n: nat, b: Seg)
    ensures IssuedBlock(st, st', base, n, b) && SpansApart(Values(st.segs, st.queue)) ==>
              Safe(st, st', Seg(Allocated, base, n)) && SpansApart(Values(st'.segs, st'.queue)) && Held(st) <= Held(st')
  {
    hide SpansApart, Held, Values, InSpan;
    if IssuedBlock(st, st', base, n, b) && SpansApart(Values(st.segs, st.queue)) {
      var range := Seg(Allocated, base, n);
      assert Within(range, b) && b in Held(st');
      InSpanPart(Values(st.segs, st.queue), range, b);
    }
  }

  lemma InSpanPart(q: seq<Seg>, range: Seg, b: Seg)
    requires InSpan(q, b) && Within(range, b)
    ensures InSpan(q, range)
  {
    var span :| span in q && span.IsSpan() && Within(b, span);
    assert Within(range, span);
  }

  lemma {:induction false} LaterAvoid(st: State, ops: seq<Op>, b: Seg, i: nat)
    requires Inv(st) && LegalRun(st, ops) && SpansApart(Values(st.segs, st.queue))
    requires b in Held(st) && i < |Issued(st, ops)|
    ensures Disjoint(b, Issued(st, ops)[i])
    decreases |ops|
  {
    hide Held, SpansApart, Disjoint, Within, Prepend, Step, Inv;
    StepIssues(st, ops[0]);
    var (st', out) := Step(st, ops[0]);
    assert Issued(st, ops) == Prepend(out, Issued(st', ops[1..]));
    if out.None? {
      LaterAvoid(st', ops[1..], b, i);
    } else if i > 0 {
      LaterAvoid(st', ops[1..], b, i - 1);
    }
  }

  lemma WithinDisjoint(a: Seg, b: Seg, c: Seg)
    requires Within(a, b) && Disjoint(b, c)
    ensures Disjoint(a, c)
  {
  }

  /** Over any run the ranges handed out are pairwise disjoint. */
  lemma {:induction false} RunDisjoint(st: State, ops: seq<Op>, i: nat, j: nat)
    requires Inv(st) && LegalRun(st, ops) && SpansApart(Values(st.segs, st.queue))
    requires i < j < |Issued(st, ops)|
    ensures Disjoint(Issued(st, ops)[i], Issued(st, ops)[j])
    decreases |ops|
  {
    hide Held, SpansApart, Disjoint, Within, Prepend, Step, Inv;
    StepIssues(st, ops[0]);
    var (st', out) := Step(st, ops[0]);
    assert Issued(st, ops) == Prepend(out, Issued(st', ops[1..]));
    if out.None? {
      RunDisjoint(st', ops[1..], i, j);
    } else if i > 0 {
      RunDisjoint(st', ops[1..], i - 1, j - 1);
    } else {
      var b :| b in Held(st') && Within(out.value, b);
      LaterAvoid(st', ops[1..], b, j - 1);
      WithinDisjoint(out.value, b, Issued(st, ops)[j]);
    }
  }

  /** Spans once added stay, and what is handed out lies in one. */
  lemma SpansStay(st: State, op: Op)
    requires Inv(st) && Legal(st, op) && SpansApart(Values(st.segs, st.queue))
    ensures Spans(st) <= Spans(Step(st, op).0)
    ensures Step(st, op).1.Some? ==> InSpan(Values(st.segs, st.queue), Step(st, op).1.value)
  {
    StepIssues(st, op);
    match op
    case Add(base, size) =>
      if |st.pool| == 1 {
        LeakOne(st, base, size);
      } else if |st.pool| >= 2 {
        AddValues(st, base, size);
      }
    case Alloc(n, instant, best) =>
      hide XAlloc, Inv, SpansApart, Held;
      XAllocKeeps(st, n, instant, best);
  }

  lemma {:induction false} FinalSpans(st: State, ops: seq<Op>)
    requires Inv(st) && LegalRun(st, ops) && SpansApart(Values(st.segs, st.queue))
    ensures Spans(st) <= Spans(Final(st, ops))
    ensures var st' := Final(st, ops); SpansApart(Values(st'.segs, st'.queue))
    decreases |ops|
  {
    if ops != [] {
      hide Spans, SpansApart, Step, Held, Safe;
      StepIssues(st, ops[0]);
      SpansStay(st, ops[0]);
      FinalSpans(Step(st, ops[0]).0, ops[1..]);
    }
  }

  /** Over any run every range handed out lies in a span of the arena. */
  lemma {:induction false} RunInSpans(st: State, ops: seq<Op>, i: nat)
    requires Inv(st) && LegalRun(st, ops) && SpansApart(Values(st.segs, st.queue)) && i < |Issued(st, ops)|
    ensures var st' := Final(st, ops); InSpan(Values(st'.segs, st'.queue), Issued(st, ops)[i])
    decreases |ops|
  {
    hide SpansApart, Step, Held, Safe, Prepend;
    StepIssues(st, ops[0]);
    SpansStay(st, ops[0]);
    var (st', out) := Step(st, ops[0]);
    assert Issued(st, ops) == Prepend(out, Issued(st', ops[1..]));
    if out.Some? && i == 0 {
      FinalSpans(st, ops);
      var span :| span in Values(st.segs, st.queue) && span.IsSpan() && Within(out.value, span);
      assert span in Spans(Final(st, ops));
    } else {
      RunInSpans(st', ops[1..], if out.Some? then i - 1 else i);
    }
  }

  /** Descriptors are conserved along a run in which no span is added while just
      one descriptor is left. */
  ghost predicate NeverOneLeft(st: State, ops: seq<Op>)
    requires Inv(st) && LegalRun(st, ops)
    decreases |ops|
  {
    ops == [] || (!(ops[0].Add? && |st.pool| == 1) && NeverOneLeft(Step(st, ops[0]).0, ops[1..]))
  }

  lemma {:induction false} RunConserves(st: State, ops: seq<Op>)
    requires Inv(st) && LegalRun(st, ops) && Conserved(st)
    ensures NeverOneLeft(st, ops) <==> Conserved(Final(st, ops))
    decreases |ops|
  {
    if ops != [] {
      hide Conserved;
      var st' := Step(st, ops[0]).0;
      StepConserves(st, ops[0]);
      if Conserved(st') {
        RunConserves(st', ops[1..]);
      } else {
        LostStaysLost(st', ops[1..]);
      }
    }
  }

  /** A descriptor in neither queue nor pool never comes back. */
  lemma StepFindsNone(st: State, op: Op, id: int)
    requires Inv(st) && Legal(st, op) && id !in st.queue && id !in st.pool
    ensures id !in Step(st, op).0.queue && id !in Step(st, op).0.pool
  {
    if |st.pool| >= 2 {
      SpareFromPool(st);
      match op
      case Add(base, size) =>
        assert id !in [st.pool[0], st.pool[1]];
      case Alloc(n, instant, best) =>
        hide Finish, Search, CutOf;
        SearchExact(st, n, instant);
        var (st', result) := XAlloc(st, n, instant, best);
        if result.Some? {
          var s := Search(st, n, instant).value;
          var taken := st.(pool := st.pool[2..], count := st.count - 2);
          FinishMembers(taken, s, Desc(st.segs, s).base, n, st.pool[0], st.pool[1], false, id);
        }
    }
  }

  lemma {:induction false} LostStaysLost(st: State, ops: seq<Op>)
    requires Inv(st) && LegalRun(st, ops) && !Conserved(st)
    ensures !Conserved(Final(st, ops))
    decreases |ops|
  {
    if ops != [] {
      var id :| 0 <= id < VMEM_STATIC_SEG_COUNT && id !in st.queue && id !in st.pool;
      StepFindsNone(st, ops[0], id);
      LostStaysLost(Step(st, ops[0]).0, ops[1..]);
    }
  }

  lemma StepConserves(st: State, op: Op)
    requires Inv(st) && Legal(st, op) && Conserved(st)
    ensures Conserved(Step(st, op).0) <==> !(op.Add? && |st.pool| == 1)
  {
    match op
    case Add(base, size) => AddKeeps(st, base, size);
    case Alloc(n, instant, best) => XAllocKeeps(st, n, instant, best);
  }
}
