/** One arena and the pool of segment descriptors, as values: the segment queue,
    the 32 free lists, and what adding a span and allocating do to them. */
module VmemSpec {
  import opened Common
  import opened VmemSize
  import opened VmemTiles

  const VMEM_STATIC_SEG_COUNT := 64

  /** Descriptors are numbered 0 to 63; `segs` is their contents, `queue` the
      arena's segments in address order, `pool` the unused descriptors. */
  datatype State = State(segs: map<int, Seg>, queue: seq<int>, lists: seq<seq<int>>,
                         pool: seq<int>, count: int, quantum: int)

  function Desc(segs: map<int, Seg>, id: int): Seg {
    if id in segs then segs[id] else Seg(Allocated, 0, 0)
  }

  function Values(segs: map<int, Seg>, queue: seq<int>): (q: seq<Seg>)
    ensures |q| == |queue|
    ensures forall i :: 0 <= i < |queue| ==> q[i] == Desc(segs, queue[i])
  {
    seq(|queue|, i requires 0 <= i < |queue| => Desc(segs, queue[i]))
  }

  ghost predicate NoDup(s: seq<int>) {
    forall i, j :: 0 <= i < j < |s| ==> s[i] != s[j]
  }

  function Class(size: int): nat {
    if size > 0 then Bsr(size) else 0
  }

  /** The free list a descriptor should be on, -1 for none. */
  function Home(st: State, id: int): int {
    var d := Desc(st.segs, id);
    if id in st.queue && d.kind.Free? then Class(d.size) else -1
  }

  /** A descriptor is on list `home` and on no other. */
  ghost predicate ListedAt(lists: seq<seq<int>>, id: int, home: int) {
    forall i :: 0 <= i < |lists| ==> (id in lists[i] <==> i == home)
  }

  /** Free list i holds exactly the free segments of class i, each once. */
  ghost predicate FreeListsExact(st: State) {
    && |st.lists| == VMEM_FREELISTS_N
    && AllNoDup(st.lists)
    && (forall id :: ListedAt(st.lists, id, Home(st, id)))
  }

  ghost predicate SizesFit(st: State) {
    forall id :: id in st.queue ==> 0 < Desc(st.segs, id).size < LIMIT
  }

  /** No descriptor is used twice; the counter is the pool's length. */
  ghost predicate DescriptorsSound(st: State) {
    && NoDup(st.queue) && NoDup(st.pool)
    && (forall id :: id in st.queue || id in st.pool ==> 0 <= id < VMEM_STATIC_SEG_COUNT)
    && (forall id :: !(id in st.queue && id in st.pool))
    && st.count == |st.pool|
  }

  /** Every descriptor is accounted for. */
  ghost predicate Conserved(st: State) {
    forall id :: 0 <= id < VMEM_STATIC_SEG_COUNT ==> id in st.queue || id in st.pool
  }

  ghost predicate Inv(st: State) {
    && Tiled(Values(st.segs, st.queue), 0, 0)
    && FreeListsExact(st) && SizesFit(st) && DescriptorsSound(st)
    && 0 <= st.quantum < LIMIT
  }

  // ----- free-list and pool operations -----

  function Enlist(lists: seq<seq<int>>, c: nat, id: int): seq<seq<int>> {
    if c < |lists| then lists[c := [id] + lists[c]] else lists
  }

  function Drop(l: seq<int>, id: int): seq<int> {
    if l == [] then [] else if l[0] == id then l[1..] else [l[0]] + Drop(l[1..], id)
  }

  function Unlist(lists: seq<seq<int>>, c: nat, id: int): seq<seq<int>> {
    if c < |lists| then lists[c := Drop(lists[c], id)] else lists
  }

  function IndexOf(s: seq<int>, id: int): (k: nat)
    requires id in s
    ensures k < |s| && s[k] == id && forall i :: 0 <= i < k ==> s[i] != id
  {
    if s[0] == id then 0 else 1 + IndexOf(s[1..], id)
  }

  lemma {:induction false} DropMembers(l: seq<int>, id: int, x: int)
    requires NoDup(l)
    ensures NoDup(Drop(l, id))
    ensures x in Drop(l, id) <==> x in l && x != id
    decreases l
  {
    if l != [] {
      assert forall i :: 0 <= i < |l[1..]| ==> l[1..][i] == l[i + 1];
      DropMembers(l[1..], id, x);
      DropMembers(l[1..], id, l[0]);
      if l[0] == id {
        assert id !in l[1..];
      }
    }
  }

  lemma UnlistAt(lists: seq<seq<int>>, c: nat, id: int, x: int, home: int)
    requires c < |lists| && NoDup(lists[c])
    requires ListedAt(lists, x, home) && (x == id ==> home == c)
    ensures ListedAt(Unlist(lists, c, id), x, if x == id then -1 else home)
  {
    DropMembers(lists[c], id, x);
  }

  lemma EnlistAt(lists: seq<seq<int>>, c: nat, id: int, x: int, home: int)
    requires c < |lists| && ListedAt(lists, x, home) && (x == id ==> home == -1)
    ensures ListedAt(Enlist(lists, c, id), x, if x == id then c else home)
  {
    assert forall y :: y in [id] + lists[c] <==> y == id || y in lists[c];
  }

  ghost predicate AllNoDup(lists: seq<seq<int>>) {
    forall i :: 0 <= i < |lists| ==> NoDup(lists[i])
  }

  lemma NoDupEdits(lists: seq<seq<int>>, c: nat, id: int)
    requires c < |lists| && AllNoDup(lists)
    ensures AllNoDup(Unlist(lists, c, id))
    ensures id !in lists[c] ==> AllNoDup(Enlist(lists, c, id))
  {
    DropMembers(lists[c], id, id);
    if id !in lists[c] {
      NoDupCons(lists[c], id);
    }
  }

  lemma NoDupCons(s: seq<int>, id: int)
    requires NoDup(s) && id !in s
    ensures NoDup([id] + s)
  {
    var t := [id] + s;
    assert forall i :: 0 < i < |t| ==> t[i] == s[i - 1];
  }

  // ----- searching -----

  function FirstNonEmpty(lists: seq<seq<int>>, i: nat): (k: nat)
    requires i <= |lists|
    ensures i <= k <= |lists|
    ensures k < |lists| ==> lists[k] != []
    ensures forall j :: i <= j < k ==> lists[j] == []
    decreases |lists| - i
  {
    if i == |lists| || lists[i] != [] then i else FirstNonEmpty(lists, i + 1)
  }

  /** Instant fit: the head of the first non-empty list from the start class on. */
  function InstantFit(lists: seq<seq<int>>, n: nat): Option<int>
    requires n > 0
  {
    var k := FirstNonEmpty(lists, if InstantStart(n) < |lists| then InstantStart(n) else |lists|);
    if k == |lists| then None else Some(lists[k][0])
  }

  /** Best fit: the first segment of one list that is strictly larger, the sizes
      being compared as signed words. */
  function FirstLarger(segs: map<int, Seg>, l: seq<int>, n: nat): Option<int> {
    if l == [] then None
    else if Signed(n) < Signed(Desc(segs, l[0]).size) then Some(l[0])
    else FirstLarger(segs, l[1..], n)
  }

  function BestFit(segs: map<int, Seg>, lists: seq<seq<int>>, n: nat, i: nat): Option<int>
    requires i <= |lists|
    decreases |lists| - i
  {
    if i == |lists| then None
    else
      var r := FirstLarger(segs, lists[i], n);
      if r.Some? then r else BestFit(segs, lists, n, i + 1)
  }

  /** Instant fit falls back to best fit once. */
  function Search(st: State, n: nat, instant: bool): Option<int>
    requires 0 < n && |st.lists| == VMEM_FREELISTS_N
  {
    var quick := if instant then InstantFit(st.lists, n) else None;
    if quick.Some? then quick
    else BestFit(st.segs, st.lists, n, if Bsr(n) < |st.lists| then Bsr(n) else |st.lists|)
  }

  // ----- allocation -----

  /** The segments that replace the one found: a free left part if the start was
      moved, the allocated block, and a free right part if it is worth keeping. */
  datatype Cut = Cut(left: bool, right: bool)

  function CutOf(d: Seg, start: int, n: int, quantum: int): Cut {
    Cut(d.base != start, WorthKeeping(d.End() - start - n, quantum))
  }

  /** `dec` on a word. */
  function Decremented(w: int): int {
    if w == 0 then LIMIT - 1 else w - 1
  }

  /** The code's test of what is left over, on words and signed. */
  predicate WorthKeeping(rest: int, quantum: int) {
    rest != 0 && Signed(rest) > Signed(Decremented(quantum))
  }

  /** It is the test meant, at least a quantum, exactly if the rest and the quantum
      are on the same side of 2^31. */
  lemma WorthKeepingIff(rest: int, quantum: int)
    requires 0 <= rest < LIMIT && 0 <= quantum < LIMIT
    ensures (WorthKeeping(rest, quantum) <==> rest > 0 && rest >= quantum)
            <==> rest == 0 || (rest < 0x8000_0000 <==> quantum <= 0x8000_0000)
  {
  }

  function Pieces(d: Seg, start: int, n: int, cut: Cut): seq<Seg> {
    (if cut.left then [Seg(Free, d.base, start - d.base)] else []) +
    (if cut.right then [Seg(Allocated, start, n), Seg(Free, start + n, d.End() - start - n)]
     else [Seg(Allocated, start, d.End() - start)])
  }

  /** Descriptors of the pieces, in order: l on the left, then r for the block
      and s for the rest, or s for the block. */
  function PieceIds(s: int, l: int, r: int, cut: Cut): seq<int> {
    (if cut.left then [l] else []) + (if cut.right then [r, s] else [s])
  }

  function LeftSegs(segs: map<int, Seg>, d: Seg, l: int, start: int, left: bool): map<int, Seg> {
    if left then segs[l := Seg(Free, d.base, start - d.base)] else segs
  }

  function RightSegs(segs: map<int, Seg>, d: Seg, s: int, r: int, start: int, n: int, right: bool): map<int, Seg> {
    if right then segs[s := Seg(Free, start + n, d.End() - start - n)][r := Seg(Allocated, start, n)]
    else segs[s := Seg(Allocated, start, d.End() - start)]
  }

  function CutSegs(segs: map<int, Seg>, s: int, l: int, r: int, start: int, n: int, cut: Cut): map<int, Seg> {
    var d := Desc(segs, s);
    RightSegs(LeftSegs(segs, d, l, start, cut.left), d, s, r, start, n, cut.right)
  }

  /** The free lists after the cut; `listed` under class c is what a right split
      puts back. */
  function CutLists(lists: seq<seq<int>>, d: Seg, s: int, l: int, start: int, cut: Cut, listed: int,
                    c: nat): seq<seq<int>>
  {
    var lists1 := Unlist(lists, Class(d.size), s);
    var lists2 := if cut.left then Enlist(lists1, Class(start - d.base), l) else lists1;
    if cut.right then Enlist(lists2, c, listed) else lists2
  }

  /** What can be cut: the block lies inside a listed free segment. */
  ghost predicate Cuttable(st: State, s: int, start: int, n: int) {
    var d := Desc(st.segs, s);
    s in st.queue && d.kind.Free? && 0 < d.size < LIMIT && 0 < n && d.base <= start && start + n <= d.End()
  }

  /** Two descriptors taken from the pool for one allocation. */
  ghost predicate Spare(st: State, l: int, r: int) {
    && l != r && 0 <= l < VMEM_STATIC_SEG_COUNT && 0 <= r < VMEM_STATIC_SEG_COUNT
    && l !in st.queue && r !in st.queue && l !in st.pool && r !in st.pool
  }

  function Returned(pool: seq<int>, l: int, r: int, cut: Cut): seq<int> {
    var pool1 := if cut.left then pool else [l] + pool;
    if cut.right then pool1 else [r] + pool1
  }

  /** Allocation once segment s is found, the block starting at start. By design
      a right split lists the remainder; as written it lists the block itself. */
  function Finish(st: State, s: int, start: int, n: int, l: int, r: int, blockListed: bool): State
    requires s in st.queue
  {
    hide CutSegs, CutLists, CutOf, Returned, PieceIds, IndexOf;
    var d := Desc(st.segs, s);
    var cut := CutOf(d, start, n, st.quantum);
    var k := IndexOf(st.queue, s);
    State(CutSegs(st.segs, s, l, r, start, n, cut),
          st.queue[..k] + PieceIds(s, l, r, cut) + st.queue[k + 1..],
          if blockListed then CutLists(st.lists, d, s, l, start, cut, r, Class(n))
          else CutLists(st.lists, d, s, l, start, cut, s, Class(d.End() - start - n)),
          Returned(st.pool, l, r, cut),
          st.count + (if cut.left then 0 else 1) + (if cut.right then 0 else 1),
          st.quantum)
  }

  // ----- what a cut keeps -----

  lemma PiecesFill(d: Seg, start: int, n: int, quantum: int)
    requires 0 < n && d.base <= start && start + n <= d.End()
    ensures Fill(Pieces(d, start, n, CutOf(d, start, n, quantum)), d.base, d.End())
  {
    var cut := CutOf(d, start, n, quantum);
    var block := if cut.right then [Seg(Allocated, start, n), Seg(Free, start + n, d.End() - start - n)]
                 else [Seg(Allocated, start, d.End() - start)];
    assert block[1..] == if cut.right then [Seg(Free, start + n, d.End() - start - n)] else [];
    assert cut.right ==> block[1..][1..] == [];
    assert Fill(block, start, d.End());
    if cut.left {
      assert Pieces(d, start, n, cut)[1..] == block;
    } else {
      assert Pieces(d, start, n, cut) == block;
    }
  }

  lemma ValuesConcat(segs: map<int, Seg>, a: seq<int>, b: seq<int>)
    ensures Values(segs, a + b) == Values(segs, a) + Values(segs, b)
  {
  }

  lemma ValuesSame(segs: map<int, Seg>, segs': map<int, Seg>, q: seq<int>)
    requires forall id :: id in q ==> Desc(segs', id) == Desc(segs, id)
    ensures Values(segs', q) == Values(segs, q)
  {
    assert forall i :: 0 <= i < |q| ==> q[i] in q;
  }

  lemma RightDescs(segs: map<int, Seg>, d: Seg, s: int, r: int, start: int, n: int, right: bool, id: int)
    requires s != r
    ensures Desc(RightSegs(segs, d, s, r, start, n, right), id)
            == if id == r && right then Seg(Allocated, start, n)
               else if id != s then Desc(segs, id)
               else if right then Seg(Free, start + n, d.End() - start - n)
               else Seg(Allocated, start, d.End() - start)
  {
  }

  lemma LeftDescs(segs: map<int, Seg>, d: Seg, l: int, start: int, left: bool, id: int)
    ensures Desc(LeftSegs(segs, d, l, start, left), id)
            == if id == l && left then Seg(Free, d.base, start - d.base) else Desc(segs, id)
  {
  }

  /** The contents of every descriptor after a cut. */
  lemma PieceDescs(segs: map<int, Seg>, s: int, l: int, r: int, start: int, n: int, cut: Cut, id: int)
    requires s != l && s != r && l != r
    ensures var d := Desc(segs, s);
            Desc(CutSegs(segs, s, l, r, start, n, cut), id)
            == if id == l && cut.left then Seg(Free, d.base, start - d.base)
               else if id == r && cut.right then Seg(Allocated, start, n)
               else if id != s then Desc(segs, id)
               else if cut.right then Seg(Free, start + n, d.End() - start - n)
               else Seg(Allocated, start, d.End() - start)
  {
    hide RightSegs, LeftSegs, Desc;
    var d := Desc(segs, s);
    LeftDescs(segs, d, l, start, cut.left, id);
    RightDescs(LeftSegs(segs, d, l, start, cut.left), d, s, r, start, n, cut.right, id);
  }

  lemma PieceValues(segs: map<int, Seg>, s: int, l: int, r: int, start: int, n: int, cut: Cut)
    requires s != l && s != r && l != r
    ensures Values(CutSegs(segs, s, l, r, start, n, cut), PieceIds(s, l, r, cut))
         == Pieces(Desc(segs, s), start, n, cut)
  {
    hide CutSegs, Desc;
    PieceDescs(segs, s, l, r, start, n, cut, l);
    PieceDescs(segs, s, l, r, start, n, cut, r);
    PieceDescs(segs, s, l, r, start, n, cut, s);
    var segs' := CutSegs(segs, s, l, r, start, n, cut);
    ValuesConcat(segs', if cut.left then [l] else [], if cut.right then [r, s] else [s]);
    if cut.right {
      assert Values(segs', [r, s]) == [Desc(segs', r), Desc(segs', s)];
    } else {
      assert Values(segs', [s]) == [Desc(segs', s)];
    }
    if cut.left {
      assert Values(segs', [l]) == [Desc(segs', l)];
    }
  }

  /** Replacing the k-th of a queue by other descriptors, the rest unchanged. */
  lemma ValuesReplace(segs: map<int, Seg>, segs': map<int, Seg>, q: seq<int>, k: nat, ids: seq<int>)
    requires k < |q|
    requires forall id :: id in q[..k] || id in q[k + 1..] ==> Desc(segs', id) == Desc(segs, id)
    ensures var v := Values(segs, q);
            Values(segs', q[..k] + ids + q[k + 1..]) == v[..k] + Values(segs', ids) + v[k + 1..]
  {
    hide Desc;
    var front, back := q[..k], q[k + 1..];
    ValuesConcat(segs', front + ids, back);
    ValuesConcat(segs', front, ids);
    ValuesSame(segs, segs', front);
    ValuesSame(segs, segs', back);
    assert Values(segs, front) == Values(segs, q)[..k];
    assert Values(segs, back) == Values(segs, q)[k + 1..];
  }

  /** The queue's values change only where the segment found stood. */
  lemma FinishValues(st: State, s: int, start: int, n: int, l: int, r: int, b: bool)
    requires s in st.queue && Spare(st, l, r) && NoDup(st.queue)
    ensures var st' := Finish(st, s, start, n, l, r, b);
            var v := Values(st.segs, st.queue);
            var k := IndexOf(st.queue, s);
            var d := Desc(st.segs, s);
            Values(st'.segs, st'.queue) == v[..k] + Pieces(d, start, n, CutOf(d, start, n, st.quantum)) + v[k + 1..]
  {
    hide CutSegs, Pieces, CutLists, IndexOf, Values, Desc, Returned;
    var k := IndexOf(st.queue, s);
    var cut := CutOf(Desc(st.segs, s), start, n, st.quantum);
    var ids := PieceIds(s, l, r, cut);
    var segs' := CutSegs(st.segs, s, l, r, start, n, cut);
    var front, back := st.queue[..k], st.queue[k + 1..];
    NoDupSplit(st.queue, k);
    PieceValues(st.segs, s, l, r, start, n, cut);
    forall id | id in front || id in back
      ensures Desc(segs', id) == Desc(st.segs, id)
    {
      PieceDescs(st.segs, s, l, r, start, n, cut, id);
    }
    ValuesReplace(st.segs, segs', st.queue, k, ids);
  }

  lemma FinishMembers(st: State, s: int, start: int, n: int, l: int, r: int, b: bool, id: int)
    requires s in st.queue
    ensures var cut := CutOf(Desc(st.segs, s), start, n, st.quantum);
            var st' := Finish(st, s, start, n, l, r, b);
            && (id in st'.queue <==> id in st.queue || (cut.left && id == l) || (cut.right && id == r))
            && (id in st'.pool <==> id in st.pool || (!cut.left && id == l) || (!cut.right && id == r))
  {
    hide CutSegs, CutLists, CutOf, IndexOf, Desc, Class;
    var k := IndexOf(st.queue, s);
    var cut := CutOf(Desc(st.segs, s), start, n, st.quantum);
    var ids := PieceIds(s, l, r, cut);
    assert st.queue == st.queue[..k] + [s] + st.queue[k + 1..];
    assert id in ids <==> id == s || (cut.left && id == l) || (cut.right && id == r);
  }

  lemma FinishQueueNoDup(st: State, s: int, start: int, n: int, l: int, r: int, b: bool)
    requires s in st.queue && Spare(st, l, r) && NoDup(st.queue)
    ensures NoDup(Finish(st, s, start, n, l, r, b).queue)
  {
    var cut := CutOf(Desc(st.segs, s), start, n, st.quantum);
    var k := IndexOf(st.queue, s);
    var front, back := st.queue[..k], st.queue[k + 1..];
    NoDupSplit(st.queue, k);
    NoDupJoin(front, PieceIds(s, l, r, cut), back);
  }

  lemma ReturnedNoDup(pool: seq<int>, l: int, r: int, cut: Cut)
    requires NoDup(pool) && l !in pool && r !in pool && l != r
    ensures NoDup(Returned(pool, l, r, cut))
    ensures |Returned(pool, l, r, cut)| == |pool| + (if cut.left then 0 else 1) + (if cut.right then 0 else 1)
  {
    var pool1 := if cut.left then pool else [l] + pool;
    NoDupCons(pool, l);
    if !cut.right { NoDupCons(pool1, r); }
  }

  /** Whatever way an allocation ends, its two descriptors end up in the queue or
      back in the pool, and nowhere twice. */
  lemma FinishDescriptors(st: State, s: int, start: int, n: int, l: int, r: int, b: bool)
    requires s in st.queue && Spare(st, l, r) && DescriptorsSound(st)
    ensures DescriptorsSound(Finish(st, s, start, n, l, r, b))
    ensures var st' := Finish(st, s, start, n, l, r, b);
            forall id :: id in st'.queue || id in st'.pool <==> id in st.queue || id in st.pool || id == l || id == r
  {
    hide Finish, NoDup;
    var st' := Finish(st, s, start, n, l, r, b);
    forall id
      ensures id in st'.queue || id in st'.pool <==> id in st.queue || id in st.pool || id == l || id == r
      ensures !(id in st'.queue && id in st'.pool)
    {
      FinishMembers(st, s, start, n, l, r, b, id);
    }
    FinishQueueNoDup(st, s, start, n, l, r, b);
    FinishPool(st, s, start, n, l, r, b);
  }

  lemma FinishPool(st: State, s: int, start: int, n: int, l: int, r: int, b: bool)
    requires s in st.queue && Spare(st, l, r) && NoDup(st.pool) && st.count == |st.pool|
    ensures var st' := Finish(st, s, start, n, l, r, b);
            NoDup(st'.pool) && st'.count == |st'.pool|
  {
    ReturnedNoDup(st.pool, l, r, CutOf(Desc(st.segs, s), start, n, st.quantum));
  }

  lemma NoDupSplit(q: seq<int>, k: nat)
    requires NoDup(q) && k < |q|
    ensures NoDup(q[..k] + q[k + 1..])
    ensures q[k] !in q[..k] && q[k] !in q[k + 1..]
  {
    var t := q[..k] + q[k + 1..];
    assert forall i :: 0 <= i < |t| ==> t[i] == q[if i < k then i else i + 1];
  }

  lemma NoDupJoin(front: seq<int>, mid: seq<int>, back: seq<int>)
    requires NoDup(front + back) && NoDup(mid)
    requires forall x :: x in mid ==> x !in front && x !in back
    ensures NoDup(front + mid + back)
  {
    var t := front + mid + back;
    var f, m := |front|, |mid|;
    forall i, j | 0 <= i < j < |t|
      ensures t[i] != t[j]
    {
      var inMid := (x: int) => f <= x < f + m;
      if inMid(i) && inMid(j) {
        assert mid[i - f] != mid[j - f];
      } else if !inMid(i) && !inMid(j) {
        var i' := if i < f then i else i - m;
        var j' := if j < f then j else j - m;
        assert (front + back)[i'] != (front + back)[j'];
      } else {
        var x := if inMid(i) then t[i] else t[j];
        assert x in mid;
      }
    }
  }
}
