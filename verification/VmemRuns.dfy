/** The arena allocator over whole runs: adding spans and allocating keep the
    tiling, the free lists and the descriptors, and blocks never overlap. */
module VmemRuns {
  import opened Common
  import opened VmemSize
  import opened VmemTiles
  import opened VmemSpec

  // ----- the free lists after a cut -----

  lemma ListedHome(st: State, i: int, id: int)
    requires FreeListsExact(st) && 0 <= i < |st.lists| && id in st.lists[i]
    ensures id in st.queue && Desc(st.segs, id).kind.Free? && Class(Desc(st.segs, id).size) == i
  {
    assert ListedAt(st.lists, id, Home(st, id));
  }

  lemma ClassFits(size: int)
    requires 0 <= size < LIMIT
    ensures Class(size) < VMEM_FREELISTS_N
  {
    if size > 0 { ClassInTable(size); }
  }

  /** Where a descriptor is listed after the design's cut. */
  lemma CutListedAt(st: State, s: int, start: int, n: int, l: int, r: int, id: int)
    requires FreeListsExact(st) && Cuttable(st, s, start, n) && Spare(st, l, r)
    ensures var cut := CutOf(Desc(st.segs, s), start, n, st.quantum);
            var d := Desc(st.segs, s);
            ListedAt(Finish(st, s, start, n, l, r, false).lists, id,
              if id == s then (if cut.right then Class(d.End() - start - n) else -1)
              else if id == l && cut.left then Class(start - d.base)
              else Home(st, id))
  {
    hide ListedAt, Enlist, Unlist, Class;
    var d := Desc(st.segs, s);
    var cut := CutOf(d, start, n, st.quantum);
    ClassFits(d.size);
    ClassFits(start - d.base);
    ClassFits(d.End() - start - n);
    UnlistAt(st.lists, Class(d.size), s, id, Home(st, id));
    var lists1 := Unlist(st.lists, Class(d.size), s);
    var home1 := if id == s then -1 else Home(st, id);
    LengthKept(st.lists, Class(d.size), s);
    var lists2 := if cut.left then Enlist(lists1, Class(start - d.base), l) else lists1;
    var home2 := if cut.left && id == l then Class(start - d.base) else home1;
    if cut.left {
      EnlistAt(lists1, Class(start - d.base), l, id, home1);
      LengthKept(lists1, Class(start - d.base), l);
    }
    if cut.right {
      EnlistAt(lists2, Class(d.End() - start - n), s, id, home2);
    }
  }

  lemma LengthKept(lists: seq<seq<int>>, c: nat, id: int)
    ensures |Unlist(lists, c, id)| == |lists| == |Enlist(lists, c, id)|
  {
  }

  lemma HomeAfter(st: State, s: int, start: int, n: int, l: int, r: int, id: int)
    requires Cuttable(st, s, start, n) && Spare(st, l, r)
    ensures var cut := CutOf(Desc(st.segs, s), start, n, st.quantum);
            var d := Desc(st.segs, s);
            Home(Finish(st, s, start, n, l, r, false), id)
            == if id == s then (if cut.right then Class(d.End() - start - n) else -1)
               else if id == l && cut.left then Class(start - d.base)
               else Home(st, id)
  {
    hide CutSegs, Desc, Class;
    var cut := CutOf(Desc(st.segs, s), start, n, st.quantum);
    FinishMembers(st, s, start, n, l, r, false, id);
    PieceDescs(st.segs, s, l, r, start, n, cut, id);
  }

  lemma CutNoDup(st: State, s: int, start: int, n: int, l: int, r: int)
    requires FreeListsExact(st) && Cuttable(st, s, start, n) && Spare(st, l, r)
    ensures AllNoDup(Finish(st, s, start, n, l, r, false).lists)
  {
    hide Class;
    var d := Desc(st.segs, s);
    var cut := CutOf(d, start, n, st.quantum);
    ClassFits(d.size);
    ClassFits(start - d.base);
    ClassFits(d.End() - start - n);
    var lists1 := Unlist(st.lists, Class(d.size), s);
    NoDupEdits(st.lists, Class(d.size), s);
    UnlistAt(st.lists, Class(d.size), s, s, Home(st, s));
    UnlistAt(st.lists, Class(d.size), s, l, Home(st, l));
    var lists2 := if cut.left then Enlist(lists1, Class(start - d.base), l) else lists1;
    if cut.left {
      NoDupEdits(lists1, Class(start - d.base), l);
      EnlistAt(lists1, Class(start - d.base), l, s, -1);
    }
    if cut.right {
      NoDupEdits(lists2, Class(d.End() - start - n), s);
    }
  }

  lemma CutFreeLists(st: State, s: int, start: int, n: int, l: int, r: int)
    requires FreeListsExact(st) && Cuttable(st, s, start, n) && Spare(st, l, r)
    ensures FreeListsExact(Finish(st, s, start, n, l, r, false))
  {
    hide ListedAt, Home;
    CutNoDup(st, s, start, n, l, r);
    var st' := Finish(st, s, start, n, l, r, false);
    forall id
      ensures ListedAt(st'.lists, id, Home(st', id))
    {
      CutListedAt(st, s, start, n, l, r, id);
      HomeAfter(st, s, start, n, l, r, id);
    }
    assert |st'.lists| == |st.lists|;
  }

  /** As written, a right split puts the block handed out on a free list and the
      remainder on none: the lists stay exact only if nothing is split off. */
  lemma AsWrittenListsIff(st: State, s: int, start: int, n: int, l: int, r: int)
    requires FreeListsExact(st) && Cuttable(st, s, start, n) && Spare(st, l, r)
    ensures FreeListsExact(Finish(st, s, start, n, l, r, true))
            <==> !CutOf(Desc(st.segs, s), start, n, st.quantum).right
    ensures CutOf(Desc(st.segs, s), start, n, st.quantum).right ==>
              Class(n) < VMEM_FREELISTS_N && r in Finish(st, s, start, n, l, r, true).lists[Class(n)]
              && Desc(Finish(st, s, start, n, l, r, true).segs, r) == Seg(Allocated, start, n)
  {
    var cut := CutOf(Desc(st.segs, s), start, n, st.quantum);
    var st' := Finish(st, s, start, n, l, r, true);
    if cut.right {
      ClassFits(n);
      PieceDescs(st.segs, s, l, r, start, n, cut, r);
      assert !ListedAt(st'.lists, r, Home(st', r)) by {
        assert r in st'.lists[Class(n)];
      }
    } else {
      CutFreeLists(st, s, start, n, l, r);
      assert st' == Finish(st, s, start, n, l, r, false);
    }
  }

  /** And that block is the very next one found: instant fit for the same size, if a
      power of two, answers with what has just been handed out. */
  lemma HeldIsFoundNext(st: State, s: int, start: int, n: int, l: int, r: int)
    requires FreeListsExact(st) && Cuttable(st, s, start, n) && Spare(st, l, r)
    requires CutOf(Desc(st.segs, s), start, n, st.quantum).right && PowerTest(n)
    ensures var st' := Finish(st, s, start, n, l, r, true);
            InstantFit(st'.lists, n) == Some(r) && Desc(st'.segs, r) == Seg(Allocated, start, n)
  {
    AsWrittenListsIff(st, s, start, n, l, r);
    ClassFits(n);
    var c := Class(n);
    var d := Desc(st.segs, s);
    var cut := CutOf(d, start, n, st.quantum);
    assert InstantStart(n) == c;
    FrontOfCut(st.lists, d, s, l, start, cut, r, c);
    hide Finish;
  }

  lemma FrontOfCut(lists: seq<seq<int>>, d: Seg, s: int, l: int, start: int, cut: Cut, r: int, c: nat)
    requires cut.right && c < |lists|
    ensures var lists' := CutLists(lists, d, s, l, start, cut, r, c);
            |lists'| == |lists| && |lists'[c]| > 0 && lists'[c][0] == r
  {
  }

  // ----- a cut as a whole -----

  lemma CutSizeAt(st: State, s: int, start: int, n: int, l: int, r: int, id: int)
    requires SizesFit(st) && Cuttable(st, s, start, n) && Spare(st, l, r)
    requires id in Finish(st, s, start, n, l, r, false).queue
    ensures 0 < Desc(Finish(st, s, start, n, l, r, false).segs, id).size < LIMIT
  {
    hide CutSegs, Desc;
    FinishMembers(st, s, start, n, l, r, false, id);
    PieceDescs(st.segs, s, l, r, start, n, CutOf(Desc(st.segs, s), start, n, st.quantum), id);
  }

  lemma CutSizes(st: State, s: int, start: int, n: int, l: int, r: int)
    requires SizesFit(st) && Cuttable(st, s, start, n) && Spare(st, l, r)
    ensures SizesFit(Finish(st, s, start, n, l, r, false))
  {
    hide Finish, Desc;
    forall id | id in Finish(st, s, start, n, l, r, false).queue
      ensures 0 < Desc(Finish(st, s, start, n, l, r, false).segs, id).size < LIMIT
    {
      CutSizeAt(st, s, start, n, l, r, id);
    }
  }

  lemma CutTiled(st: State, s: int, start: int, n: int, l: int, r: int)
    requires Tiled(Values(st.segs, st.queue), 0, 0) && NoDup(st.queue)
    requires Cuttable(st, s, start, n) && Spare(st, l, r)
    ensures var st' := Finish(st, s, start, n, l, r, false);
            Tiled(Values(st'.segs, st'.queue), 0, 0)
  {
    var v, k, d := Values(st.segs, st.queue), IndexOf(st.queue, s), Desc(st.segs, s);
    FinishValues(st, s, start, n, l, r, false);
    PiecesFill(d, start, n, st.quantum);
    TiledReplace(v, k, Pieces(d, start, n, CutOf(d, start, n, st.quantum)), 0, 0);
  }

  lemma CutKeepsInv(st: State, s: int, start: int, n: int, l: int, r: int)
    requires Inv(st) && Cuttable(st, s, start, n) && Spare(st, l, r)
    ensures Inv(Finish(st, s, start, n, l, r, false))
  {
    hide Tiled, FreeListsExact, SizesFit;
    CutTiled(st, s, start, n, l, r);
    CutFreeLists(st, s, start, n, l, r);
    CutSizes(st, s, start, n, l, r);
    FinishDescriptors(st, s, start, n, l, r, false);
  }

  /** The blocks handed out so far. */
  ghost function Blocks(q: seq<Seg>): set<Seg> {
    set d | d in q && d.kind.Allocated?
  }

  ghost function Held(st: State): set<Seg> {
    Blocks(Values(st.segs, st.queue))
  }

  lemma BlocksConcat(a: seq<Seg>, b: seq<Seg>)
    ensures Blocks(a + b) == Blocks(a) + Blocks(b)
  {
    assert forall d :: d in a + b <==> d in a || d in b;
  }

  /** The block a cut hands out. */
  function BlockOf(d: Seg, start: int, n: int, quantum: int): Seg {
    Seg(Allocated, start, if CutOf(d, start, n, quantum).right then n else d.End() - start)
  }

  lemma PieceBlocks(d: Seg, start: int, n: int, quantum: int)
    ensures Blocks(Pieces(d, start, n, CutOf(d, start, n, quantum))) == {BlockOf(d, start, n, quantum)}
  {
    var cut := CutOf(d, start, n, quantum);
    var block := if cut.right then [Seg(Allocated, start, n), Seg(Free, start + n, d.End() - start - n)]
                 else [Seg(Allocated, start, d.End() - start)];
    var left := if cut.left then [Seg(Free, d.base, start - d.base)] else [];
    BlocksConcat(left, block);
  }

  lemma BlocksReplace(v: seq<Seg>, k: nat, pieces: seq<Seg>)
    requires k < |v| && !v[k].kind.Allocated?
    ensures Blocks(v[..k] + pieces + v[k + 1..]) == Blocks(v) + Blocks(pieces)
  {
    BlocksConcat(v[..k] + pieces, v[k + 1..]);
    BlocksConcat(v[..k], pieces);
    assert v == v[..k] + ([v[k]] + v[k + 1..]);
    BlocksConcat(v[..k], [v[k]] + v[k + 1..]);
    BlocksConcat([v[k]], v[k + 1..]);
    assert Blocks([v[k]]) == {};
  }

  /** A cut hands out exactly one more block and disturbs none. */
  lemma CutBlocks(st: State, s: int, start: int, n: int, l: int, r: int)
    requires NoDup(st.queue) && Cuttable(st, s, start, n) && Spare(st, l, r)
    ensures Held(Finish(st, s, start, n, l, r, false)) == Held(st) + {BlockOf(Desc(st.segs, s), start, n, st.quantum)}
  {
    hide Finish, Pieces, CutOf, Desc, Blocks, BlockOf;
    var v, k, d := Values(st.segs, st.queue), IndexOf(st.queue, s), Desc(st.segs, s);
    var pieces := Pieces(d, start, n, CutOf(d, start, n, st.quantum));
    FinishValues(st, s, start, n, l, r, false);
    PieceBlocks(d, start, n, st.quantum);
    BlocksReplace(v, k, pieces);
  }

  /** Within one arena whose spans do not overlap, what lies inside a free segment
      overlaps no block already out, and lies inside a span. */
  lemma FreeApart(v: seq<Seg>, k: nat, b: Seg) returns (span: Seg)
    requires Tiled(v, 0, 0) && SpansApart(v) && k < |v| && v[k].kind.Free?
    requires v[k].base <= b.base && b.End() <= v[k].End()
    ensures forall x :: x in Blocks(v) ==> Disjoint(x, b)
    ensures span in v && span.IsSpan() && span.base <= b.base && b.End() <= span.End()
  {
    forall x | x in Blocks(v)
      ensures Disjoint(x, b)
    {
      var j :| 0 <= j < |v| && v[j] == x;
      BlockApart(v, k, j);
    }
    var m := TileWhere(v, 0, 0, k);
    TiledSizes(v, 0, 0, k);
    span := v[m];
  }

  lemma BlockApart(v: seq<Seg>, k: nat, j: nat)
    requires Tiled(v, 0, 0) && SpansApart(v) && k < |v| && j < |v| && v[k].kind.Free? && v[j].kind.Allocated?
    ensures Disjoint(v[j], v[k])
  {
    if j < k {
      TilesApart(v, 0, 0, j, k);
    } else {
      TilesApart(v, 0, 0, k, j);
    }
  }
}
