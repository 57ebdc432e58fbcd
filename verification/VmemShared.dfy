/** Any number of arenas on the one descriptor pool: what a call on one leaves of the
    others, and every descriptor's whereabouts over whole runs. */
module VmemShared {
  import opened Common
  import opened VmemSize
  import opened VmemTiles
  import opened VmemSpec
  import opened VmemRuns
  import opened VmemAlloc
  import opened Vmem

  /** What belongs to one arena; descriptors and pool belong to all. */
  datatype Own = Own(queue: seq<int>, lists: seq<seq<int>>, quantum: int)
  datatype World = World(segs: map<int, Seg>, arenas: seq<Own>, pool: seq<int>, count: int)

  /** What a call on arena a works on. */
  function View(w: World, a: nat): State
    requires a < |w.arenas|
  {
    var o := w.arenas[a];
    State(w.segs, o.queue, o.lists, w.pool, w.count, o.quantum)
  }

  function Put(w: World, a: nat, st: State): World
    requires a < |w.arenas|
  {
    World(st.segs, w.arenas[a := Own(st.queue, st.lists, st.quantum)], st.pool, st.count)
  }

  ghost predicate ArenaSound(st: State) {
    Inv(st) && SpansApart(Values(st.segs, st.queue))
  }

  predicate Apart(s: seq<int>, t: seq<int>) {
    forall i, j :: 0 <= i < |s| && 0 <= j < |t| ==> s[i] != t[j]
  }

  ghost predicate PoolSound(pool: seq<int>, count: int) {
    NoDup(pool) && (forall i :: 0 <= i < |pool| ==> 0 <= pool[i] < VMEM_STATIC_SEG_COUNT) && count == |pool|
  }

  /** Every arena is sound, and no descriptor is in two queues. */
  ghost predicate Sound(w: World) {
    && PoolSound(w.pool, w.count)
    && (forall a: nat :: a < |w.arenas| ==> ArenaSound(View(w, a)))
    && (forall a: nat, b: nat :: a < |w.arenas| && b < |w.arenas| && a != b ==>
          Apart(w.arenas[a].queue, w.arenas[b].queue))
  }

  /** `vmem_create` without a span, or a call on an arena. */
  datatype Call = Create(quantum: int) | On(arena: nat, op: Op)

  ghost predicate Allowed(w: World, c: Call) {
    match c
    case Create(q) => 0 <= q < LIMIT
    case On(a, op) => a < |w.arenas| && Legal(View(w, a), op)
  }

  function Fresh(q: int): Own {
    Own([], seq(VMEM_FREELISTS_N, _ => []), q)
  }

  /** The world after a call, and what it handed out. */
  ghost function Do(w: World, c: Call): (World, Option<Seg>)
    requires Sound(w) && Allowed(w, c)
  {
    match c
    case Create(q) => (w.(arenas := w.arenas + [Fresh(q)]), None)
    case On(a, op) => var (st, out) := Step(View(w, a), op); (Put(w, a, st), out)
  }

  // ----- what one call can touch -----

  lemma ApartMembers(s: seq<int>, t: seq<int>)
    ensures Apart(s, t) <==> forall id :: !(id in s && id in t)
  {
    if Apart(s, t) {
      forall id | id in s
        ensures id !in t
      {
        var i :| 0 <= i < |s| && s[i] == id;
      }
    } else {
      var i, j :| 0 <= i < |s| && 0 <= j < |t| && s[i] == t[j];
      assert s[i] in s && s[i] in t;
    }
  }

  /** Descriptors an arena neither has nor can take keep their contents. */
  lemma StepLeaves(st: State, op: Op, id: int)
    requires Inv(st) && Legal(st, op) && id !in st.queue && id !in st.pool
    ensures Desc(Step(st, op).0.segs, id) == Desc(st.segs, id)
  {
    if |st.pool| >= 1 {
      assert st.pool[0] in st.pool && (|st.pool| > 1 ==> st.pool[1] in st.pool);
      match op
      case Add(base, size) =>
      case Alloc(n, instant, best) =>
        AllocLeaves(st, n, instant, best, id);
    }
  }

  lemma AllocLeaves(st: State, n: nat, instant: bool, best: bool, id: int)
    requires Inv(st) && 0 < n < LIMIT && id !in st.queue && id !in st.pool
    ensures Desc(XAlloc(st, n, instant, best).0.segs, id) == Desc(st.segs, id)
  {
    hide Search, CutSegs, Desc, CutLists, IndexOf, Inv, FreeListsExact, SizesFit;
    assert FreeListsExact(st) && SizesFit(st) by { InvParts(st); }
    SearchExact(st, n, instant);
    if |st.pool| >= 2 && XAlloc(st, n, instant, best).1.Some? {
      InvParts(st);
      SpareFromPool(st);
      var s := Search(st, n, instant).value;
      var start := Desc(st.segs, s).base;
      PieceDescs(st.segs, s, st.pool[0], st.pool[1], start, n, CutOf(Desc(st.segs, s), start, n, st.quantum), id);
    }
  }

  lemma InvParts(st: State)
    requires Inv(st)
    ensures FreeListsExact(st) && SizesFit(st) && DescriptorsSound(st)
  {
  }

  /** A call loses no descriptor its arena has or could take, but the last one when a
      span is added. */
  lemma StepKeepsIds(st: State, op: Op, id: int)
    requires Inv(st) && Legal(st, op) && (id in st.queue || id in st.pool)
    ensures var st' := Step(st, op).0;
            id in st'.queue || id in st'.pool || (op.Add? && |st.pool| == 1 && id == st.pool[0])
  {
    match op
    case Add(base, size) =>
      if |st.pool| >= 2 {
        SpareFromPool(st);
        var st' := AddSpan(st, base, size);
        assert st'.queue == st.queue + [st.pool[0], st.pool[1]];
      }
    case Alloc(n, instant, best) =>
      AllocKeepsIds(st, n, instant, best, id);
  }

  lemma AllocKeepsIds(st: State, n: nat, instant: bool, best: bool, id: int)
    requires Inv(st) && 0 < n < LIMIT && (id in st.queue || id in st.pool)
    ensures var st' := XAlloc(st, n, instant, best).0; id in st'.queue || id in st'.pool
  {
    hide Search, Finish, Inv, FreeListsExact, SizesFit;
    InvParts(st);
    SearchExact(st, n, instant);
    if |st.pool| >= 2 {
      SpareFromPool(st);
      var l, r := st.pool[0], st.pool[1];
      if XAlloc(st, n, instant, best).1.Some? {
        var s := Search(st, n, instant).value;
        var taken := st.(pool := st.pool[2..], count := st.count - 2);
        FinishMembers(taken, s, Desc(st.segs, s).base, n, l, r, false, id);
      } else {
        assert st.pool[2..] == ([r, l] + st.pool[2..])[2..];
        assert forall x :: x in st.pool ==> x in [r, l] + st.pool[2..];
      }
    }
  }

  lemma LastOneLost(st: State, op: Op)
    requires Inv(st) && Legal(st, op) && op.Add? && |st.pool| == 1
    ensures var st' := Step(st, op).0; st'.queue == st.queue && st'.pool == [] && st.pool[0] !in st.queue
  {
    assert st.pool[0] in st.pool;
  }

  /** An arena whose queue a call does not touch is what it was. */
  lemma OthersStay(old': State, new': State, q: Own)
    requires ArenaSound(State(old'.segs, q.queue, q.lists, old'.pool, old'.count, q.quantum))
    requires PoolSound(new'.pool, new'.count) && Apart(q.queue, new'.pool)
    requires forall id :: id in q.queue ==> Desc(new'.segs, id) == Desc(old'.segs, id)
    ensures ArenaSound(State(new'.segs, q.queue, q.lists, new'.pool, new'.count, q.quantum))
    ensures Values(new'.segs, q.queue) == Values(old'.segs, q.queue)
  {
    hide Tiled, SpansApart;
    ValuesSame(old'.segs, new'.segs, q.queue);
    SameHomes(State(old'.segs, q.queue, q.lists, old'.pool, old'.count, q.quantum),
              State(new'.segs, q.queue, q.lists, new'.pool, new'.count, q.quantum));
    ApartMembers(q.queue, new'.pool);
  }

  lemma ArenaParts(w: World, a: nat)
    requires Sound(w) && a < |w.arenas|
    ensures ArenaSound(View(w, a)) && Inv(View(w, a)) && SpansApart(Values(w.segs, w.arenas[a].queue))
  {
    assert ArenaSound(View(w, a));
  }

  lemma NotTaken(w: World, a: nat, b: nat, id: int)
    requires Sound(w) && a < |w.arenas| && b < |w.arenas| && a != b && id in w.arenas[b].queue
    ensures id !in w.arenas[a].queue && id !in w.pool
  {
    ApartMembers(w.arenas[a].queue, w.arenas[b].queue);
    ArenaParts(w, b);
    InvParts(View(w, b));
  }

  /** After a call on arena a every other arena is as before, and apart from it. */
  lemma OtherArena(w: World, a: nat, op: Op, b: nat)
    requires Sound(w) && Allowed(w, On(a, op)) && b < |w.arenas| && a != b
    ensures var st' := Step(View(w, a), op).0;
            && ArenaSound(State(st'.segs, w.arenas[b].queue, w.arenas[b].lists,
                                st'.pool, st'.count, w.arenas[b].quantum))
            && Values(st'.segs, w.arenas[b].queue) == Values(w.segs, w.arenas[b].queue)
            && Apart(w.arenas[b].queue, st'.queue) && Apart(st'.queue, w.arenas[b].queue)
  {
    ArenaParts(w, a);
    ArenaParts(w, b);
    var st, q := View(w, a), w.arenas[b];
    var st' := Step(st, op).0;
    InvParts(st');
    hide ArenaSound, Inv, Sound, Step, Legal, FreeListsExact, SizesFit;
    forall id | id in q.queue
      ensures Desc(st'.segs, id) == Desc(st.segs, id) && id !in st'.queue && id !in st'.pool
    {
      NotTaken(w, a, b, id);
      StepLeaves(st, op, id);
      StepFindsNone(st, op, id);
    }
    ApartMembers(q.queue, st'.queue);
    ApartMembers(st'.queue, q.queue);
    ApartMembers(q.queue, st'.pool);
    PoolOf(st');
    OthersStay(st, st', q);
  }

  lemma PoolOf(st: State)
    requires DescriptorsSound(st)
    ensures PoolSound(st.pool, st.count)
  {
    assert forall i :: 0 <= i < |st.pool| ==> st.pool[i] in st.pool;
  }

  /** Every call keeps every arena sound and the queues apart. */
  lemma DoKeeps(w: World, c: Call)
    requires Sound(w) && Allowed(w, c)
    ensures Sound(Do(w, c).0)
  {
    match c
    case Create(q) => CreateKeeps(w, q);
    case On(a, op) => OnKeeps(w, a, op);
  }

  lemma CreateKeeps(w: World, q: int)
    requires Sound(w) && 0 <= q < LIMIT
    ensures Sound(w.(arenas := w.arenas + [Fresh(q)]))
  {
    var w' := w.(arenas := w.arenas + [Fresh(q)]);
    var n := |w.arenas|;
    forall a: nat | a < n + 1
      ensures ArenaSound(View(w', a))
    {
      if a < n {
        ArenaParts(w, a);
        assert View(w', a) == View(w, a);
      } else {
        FreshSound(w, q);
      }
    }
    forall a: nat, b: nat | a < n + 1 && b < n + 1 && a != b
      ensures Apart(w'.arenas[a].queue, w'.arenas[b].queue)
    {
    }
  }

  lemma FreshSound(w: World, q: int)
    requires PoolSound(w.pool, w.count) && 0 <= q < LIMIT
    ensures ArenaSound(State(w.segs, [], seq(VMEM_FREELISTS_N, _ => []), w.pool, w.count, q))
  {
    var st := State(w.segs, [], seq(VMEM_FREELISTS_N, _ => []), w.pool, w.count, q);
    assert FreeListsExact(st);
    assert DescriptorsSound(st);
  }

  lemma OnKeeps(w: World, a: nat, op: Op)
    requires Sound(w) && Allowed(w, On(a, op))
    ensures Sound(Do(w, On(a, op)).0)
  {
    ArenaParts(w, a);
    var st := View(w, a);
    StepIssues(st, op);
    var st' := Step(st, op).0;
    InvParts(st');
    PoolOf(st');
    var w' := Put(w, a, st');
    assert View(w', a) == st';
    assert ArenaSound(st');
    hide ArenaSound, Inv, Step, Legal, Apart, Values, SpansApart;
    forall b: nat | b < |w.arenas| && b != a
      ensures ArenaSound(View(w', b)) && Apart(w.arenas[b].queue, st'.queue) && Apart(st'.queue, w.arenas[b].queue)
    {
      OtherArena(w, a, op, b);
    }
  }

  // ----- whole runs -----

  /** `vmem_bootstrap`: no arena yet. */
  function Boot(): World {
    World(map[], [], Countdown(VMEM_STATIC_SEG_COUNT), VMEM_STATIC_SEG_COUNT)
  }

  lemma BootSound()
    ensures Sound(Boot()) && AllKept(Boot())
  {
    BootedInv(0);
    PoolOf(Booted(0));
    assert forall id :: 0 <= id < VMEM_STATIC_SEG_COUNT ==> id in Booted(0).pool;
  }

  ghost predicate AllowedRun(w: World, cs: seq<Call>)
    requires Sound(w)
    decreases |cs|
  {
    cs == [] || (Allowed(w, cs[0]) && (DoKeeps(w, cs[0]); AllowedRun(Do(w, cs[0]).0, cs[1..])))
  }

  ghost function Last(w: World, cs: seq<Call>): (r: World)
    requires Sound(w) && AllowedRun(w, cs)
    ensures Sound(r)
    decreases |cs|
  {
    if cs == [] then w
    else
      DoKeeps(w, cs[0]);
      Last(Do(w, cs[0]).0, cs[1..])
  }

  /** The ranges arena a handed out along a run, in order. */
  ghost function IssuedBy(w: World, cs: seq<Call>, a: nat): seq<Seg>
    requires Sound(w) && AllowedRun(w, cs)
    decreases |cs|
  {
    if cs == [] then []
    else
      DoKeeps(w, cs[0]);
      var (w', out) := Do(w, cs[0]);
      Prepend(if cs[0].On? && cs[0].arena == a then out else None, IssuedBy(w', cs[1..], a))
  }

  /** The blocks arena a has out. */
  ghost function HeldBy(w: World, a: nat): set<Seg> {
    if a < |w.arenas| then Held(View(w, a)) else {}
  }

  /** What arena a hands out is clear of all it has out, and stays so. */
  lemma DoIssues(w: World, c: Call, a: nat)
    requires Sound(w) && Allowed(w, c)
    ensures var (w', out) := Do(w, c);
            && HeldBy(w, a) <= HeldBy(w', a)
            && (c.On? && c.arena == a && out.Some? ==>
                  && (forall x :: x in HeldBy(w, a) ==> Disjoint(x, out.value))
                  && exists b :: b in HeldBy(w', a) && Within(out.value, b))
  {
    match c
    case Create(q) =>
      if a < |w.arenas| { assert View(Do(w, c).0, a) == View(w, a); }
    case On(x, op) =>
      if x == a {
        ArenaParts(w, a);
        StepIssues(View(w, a), op);
        assert View(Do(w, c).0, a) == Step(View(w, a), op).0;
      } else if a < |w.arenas| {
        OtherArena(w, x, op, a);
      }
  }

  lemma {:induction false} LaterApart(w: World, cs: seq<Call>, a: nat, b: Seg, i: nat)
    requires Sound(w) && AllowedRun(w, cs) && b in HeldBy(w, a) && i < |IssuedBy(w, cs, a)|
    ensures Disjoint(b, IssuedBy(w, cs, a)[i])
    decreases |cs|
  {
    hide Sound, HeldBy, Do, Disjoint, Within, Prepend;
    DoKeeps(w, cs[0]);
    DoIssues(w, cs[0], a);
    var (w', out) := Do(w, cs[0]);
    var mine := if cs[0].On? && cs[0].arena == a then out else None;
    assert IssuedBy(w, cs, a) == Prepend(mine, IssuedBy(w', cs[1..], a));
    if mine.None? {
      LaterApart(w', cs[1..], a, b, i);
    } else if i > 0 {
      LaterApart(w', cs[1..], a, b, i - 1);
    }
  }

  lemma {:induction false} IssuedApart(w: World, cs: seq<Call>, a: nat, i: nat, j: nat)
    requires Sound(w) && AllowedRun(w, cs) && i < j < |IssuedBy(w, cs, a)|
    ensures Disjoint(IssuedBy(w, cs, a)[i], IssuedBy(w, cs, a)[j])
    decreases |cs|
  {
    hide Sound, HeldBy, Do, Disjoint, Within, Prepend;
    DoKeeps(w, cs[0]);
    DoIssues(w, cs[0], a);
    var (w', out) := Do(w, cs[0]);
    var mine := if cs[0].On? && cs[0].arena == a then out else None;
    assert IssuedBy(w, cs, a) == Prepend(mine, IssuedBy(w', cs[1..], a));
    if mine.None? {
      IssuedApart(w', cs[1..], a, i, j);
    } else if i > 0 {
      IssuedApart(w', cs[1..], a, i - 1, j - 1);
    } else {
      var b :| b in HeldBy(w', a) && Within(mine.value, b);
      LaterApart(w', cs[1..], a, b, j - 1);
      WithinDisjoint(mine.value, b, IssuedBy(w, cs, a)[j]);
    }
  }

  // ----- descriptors -----

  ghost predicate Somewhere(w: World, id: int) {
    id in w.pool || exists a :: 0 <= a < |w.arenas| && id in w.arenas[a].queue
  }

  /** Every descriptor is in the pool or in an arena. */
  ghost predicate AllKept(w: World) {
    forall id :: 0 <= id < VMEM_STATIC_SEG_COUNT ==> Somewhere(w, id)
  }

  predicate TakesLast(w: World, c: Call) {
    c.On? && c.op.Add? && |w.pool| == 1
  }

  /** No call brings a descriptor back, and only a span added with one left loses it. */
  lemma DoMoves(w: World, c: Call, id: int)
    requires Sound(w) && Allowed(w, c)
    ensures Somewhere(Do(w, c).0, id) <==> Somewhere(w, id) && !(TakesLast(w, c) && id == w.pool[0])
  {
    match c
    case Create(q) =>
      var more := w.arenas + [Fresh(q)];
      assert forall a :: 0 <= a < |w.arenas| ==> more[a] == w.arenas[a];
    case On(a, op) =>
      OnMoves(w, a, op, id);
  }

  lemma OnMoves(w: World, a: nat, op: Op, id: int)
    requires Sound(w) && Allowed(w, On(a, op))
    ensures var c := On(a, op);
            Somewhere(Do(w, c).0, id) <==> Somewhere(w, id) && !(TakesLast(w, c) && id == w.pool[0])
  {
    ArenaParts(w, a);
    var st := View(w, a);
    var st' := Step(st, op).0;
    var w' := Put(w, a, st');
    var here, here' := id in st.queue || id in st.pool, id in st'.queue || id in st'.pool;
    if here { StepKeepsIds(st, op, id); } else { StepFindsNone(st, op, id); }
    var takes := op.Add? && |st.pool| == 1;
    if takes { LastOneLost(st, op); }
    if InOther(w, a, id) {
      var b :| 0 <= b < |w.arenas| && b != a && id in w.arenas[b].queue;
      NotTaken(w, a, b, id);
    }
    SomewhereSplit(w, a, id);
    SomewhereSplit(w', a, id);
    OthersSame(w, a, st', id);
    hide Step, Sound, Inv, Legal, ArenaSound, Somewhere, InOther;
  }

  ghost predicate InOther(w: World, a: nat, id: int) {
    exists b :: 0 <= b < |w.arenas| && b != a && id in w.arenas[b].queue
  }

  lemma SomewhereSplit(w: World, a: nat, id: int)
    requires a < |w.arenas|
    ensures Somewhere(w, id) <==> id in w.pool || id in w.arenas[a].queue || InOther(w, a, id)
  {
  }

  lemma OthersSame(w: World, a: nat, st: State, id: int)
    requires a < |w.arenas|
    ensures InOther(Put(w, a, st), a, id) <==> InOther(w, a, id)
    ensures Put(w, a, st).pool == st.pool && Put(w, a, st).arenas[a].queue == st.queue
  {
    var w' := Put(w, a, st);
    assert forall b :: 0 <= b < |w.arenas| && b != a ==> w'.arenas[b] == w.arenas[b];
  }

  ghost predicate NeverLastTaken(w: World, cs: seq<Call>)
    requires Sound(w) && AllowedRun(w, cs)
    decreases |cs|
  {
    cs == [] || (!TakesLast(w, cs[0]) && (DoKeeps(w, cs[0]); NeverLastTaken(Do(w, cs[0]).0, cs[1..])))
  }

  lemma {:induction false} RunLoses(w: World, cs: seq<Call>, id: int)
    requires Sound(w) && AllowedRun(w, cs) && !Somewhere(w, id)
    ensures !Somewhere(Last(w, cs), id)
    decreases |cs|
  {
    if cs != [] {
      hide Sound, Do, Somewhere;
      DoKeeps(w, cs[0]);
      DoMoves(w, cs[0], id);
      RunLoses(Do(w, cs[0]).0, cs[1..], id);
    }
  }

  lemma {:induction false} RunKeepsAll(w: World, cs: seq<Call>)
    requires Sound(w) && AllowedRun(w, cs) && AllKept(w)
    ensures NeverLastTaken(w, cs) <==> AllKept(Last(w, cs))
    decreases |cs|
  {
    if cs != [] {
      hide Do, Somewhere;
      DoKeeps(w, cs[0]);
      var w' := Do(w, cs[0]).0;
      forall id | 0 <= id < VMEM_STATIC_SEG_COUNT
        ensures Somewhere(w', id) <==> !(TakesLast(w, cs[0]) && id == w.pool[0])
      {
        DoMoves(w, cs[0], id);
      }
      if TakesLast(w, cs[0]) {
        assert 0 <= w.pool[0] < VMEM_STATIC_SEG_COUNT;
        RunLoses(w', cs[1..], w.pool[0]);
      } else {
        RunKeepsAll(w', cs[1..]);
      }
    }
  }

  /** From bootstrap on, over every run that creates arenas and calls them in any order:
      each arena's segments tile its spans and its free lists are exact, no descriptor is
      in two places, what an arena hands out never overlaps, and all 64 descriptors are
      somewhere exactly if no span was ever added with one left. */
  lemma SharedRuns(cs: seq<Call>)
    requires Sound(Boot()) && AllowedRun(Boot(), cs)
    ensures var w := Last(Boot(), cs);
            && (forall a: nat :: a < |w.arenas| ==>
                  && Tiled(Values(w.segs, w.arenas[a].queue), 0, 0) && FreeListsExact(View(w, a))
                  && NoDup(w.arenas[a].queue) && Apart(w.arenas[a].queue, w.pool))
            && (forall a: nat, b: nat :: a < |w.arenas| && b < |w.arenas| && a != b ==>
                  Apart(w.arenas[a].queue, w.arenas[b].queue))
            && NoDup(w.pool) && w.count == |w.pool|
            && (AllKept(w) <==> NeverLastTaken(Boot(), cs))
    ensures forall a: nat, i, j :: 0 <= i < j < |IssuedBy(Boot(), cs, a)| ==>
              Disjoint(IssuedBy(Boot(), cs, a)[i], IssuedBy(Boot(), cs, a)[j])
  {
    BootSound();
    var w0 := Boot();
    var w := Last(w0, cs);
    RunKeepsAll(w0, cs);
    forall a: nat | a < |w.arenas|
      ensures Tiled(Values(w.segs, w.arenas[a].queue), 0, 0) && FreeListsExact(View(w, a))
      ensures NoDup(w.arenas[a].queue) && Apart(w.arenas[a].queue, w.pool)
    {
      ArenaParts(w, a);
      ApartMembers(w.arenas[a].queue, w.pool);
    }
    hide Sound, AllowedRun, Disjoint, AllKept, Boot;
    forall a: nat, i, j | 0 <= i < j < |IssuedBy(w0, cs, a)|
      ensures Disjoint(IssuedBy(w0, cs, a)[i], IssuedBy(w0, cs, a)[j])
    {
      IssuedApart(w0, cs, a, i, j);
    }
  }
}
