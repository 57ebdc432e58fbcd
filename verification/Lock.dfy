/** The kernel's spin lock under any number of CPUs and any interleaving, with the
    block layer's read call, which holds it around a driver routine, as the client.
    Each step is one instruction that touches memory or branches. */
module Lock {
  /** Where a CPU is. The request it was called with goes along; edx is the register
      the exchange swaps with the lock word. */
  datatype Place =
    | Idle
    | Acquire(req: nat)              // mov edx, 1
    | Exchange(req: nat, edx: int)   // xchg edx, [eax]
    | Test(req: nat, edx: int)       // or edx, edx; jnz
    | Entered(req: nat)              // device number looked up
    | Complain                       // error path: message
    | Begin(req: nat)                // stand-in for the driver routine: reads shared data ...
    | Finish(req: nat, copy: seq<nat>)  // ... and writes it back changed
    | Release                        // xor edx, edx
    | Swap(edx: int)                 // xchg [eax], edx

  /** The lock word, some shared data (as the list of requests whose work is in it) and
      the CPUs. A request is valid if its device number is below `devices`. */
  datatype State = State(word: int, shared: seq<nat>, cpus: seq<Place>)

  /** Who moves next, and the request it brings if it is idle. */
  datatype Turn = Turn(cpu: nat, req: nat)

  /** What CPU t.cpu does next. */
  function Step(devices: nat, s: State, t: Turn): State {
    if t.cpu >= |s.cpus| then s else
    var i := t.cpu;
    match s.cpus[i]
    case Idle => s.(cpus := s.cpus[i := Acquire(t.req)])
    case Acquire(r) => s.(cpus := s.cpus[i := Exchange(r, 1)])
    case Exchange(r, edx) => s.(word := edx, cpus := s.cpus[i := Test(r, s.word)])
    case Test(r, edx) => s.(cpus := s.cpus[i := if edx != 0 then Acquire(r) else Entered(r)])
    case Entered(r) => s.(cpus := s.cpus[i := if r < devices then Begin(r) else Complain])
    case Complain => s.(cpus := s.cpus[i := Release])
    case Begin(r) => s.(cpus := s.cpus[i := Finish(r, s.shared)])
    case Finish(r, copy) => s.(shared := copy + [r], cpus := s.cpus[i := Release])
    case Release => s.(cpus := s.cpus[i := Swap(0)])
    case Swap(edx) => s.(word := edx, cpus := s.cpus[i := Idle])
  }

  function Run(devices: nat, s: State, turns: seq<Turn>): State
    decreases |turns|
  {
    if turns == [] then s else Run(devices, Step(devices, s, turns[0]), turns[1..])
  }

  /** The requests whose driver routine finished, in that order. */
  function Served(devices: nat, s: State, turns: seq<Turn>): seq<nat>
    decreases |turns|
  {
    if turns == [] then []
    else
      var i := turns[0].cpu;
      var rest := Served(devices, Step(devices, s, turns[0]), turns[1..]);
      if i < |s.cpus| && s.cpus[i].Finish? then [s.cpus[i].req] + rest else rest
  }

  function Start(n: nat): State {
    State(0, [], seq(n, _ => Idle))
  }

  // ----- safety -----

  /** Between a completed `lock_acquire` and the exchange of its `lock_release`. */
  predicate Inside(p: Place) {
    p.Entered? || p.Complain? || p.Begin? || p.Finish? || p.Release? || p.Swap?
  }

  /** Inside, or about to see that the exchange brought a zero. */
  predicate Holds(p: Place) {
    Inside(p) || (p.Test? && p.edx == 0)
  }

  predicate HoldsAt(s: State, i: nat) {
    i < |s.cpus| && Holds(s.cpus[i])
  }

  /** Registers and copies a CPU carries are what the last instruction left. */
  predicate PlaceGood(p: Place, shared: seq<nat>) {
    match p
    case Exchange(_, edx) => edx == 1
    case Swap(edx) => edx == 0
    case Finish(_, copy) => copy == shared
    case _ => true
  }

  ghost predicate Inv(s: State) {
    && (s.word == 0 || s.word == 1)
    && (s.word == 0 <==> forall i :: 0 <= i < |s.cpus| ==> !HoldsAt(s, i))
    && (forall i, j :: HoldsAt(s, i) && HoldsAt(s, j) ==> i == j)
    && (forall i :: 0 <= i < |s.cpus| ==> PlaceGood(s.cpus[i], s.shared))
  }

  lemma StartInv(n: nat)
    ensures Inv(Start(n))
  {
    assert forall i :: 0 <= i < n ==> !HoldsAt(Start(n), i);
  }

  /** A CPU other than the one that moved stands where it stood. */
  lemma OthersStay(devices: nat, s: State, t: Turn, j: nat)
    requires j != t.cpu
    ensures |Step(devices, s, t).cpus| == |s.cpus|
    ensures HoldsAt(Step(devices, s, t), j) == HoldsAt(s, j)
    ensures j < |s.cpus| ==> Step(devices, s, t).cpus[j] == s.cpus[j]
  {
  }

  /** Every step of every CPU keeps the invariant. */
  lemma StepKeepsInv(devices: nat, s: State, t: Turn)
    requires Inv(s)
    ensures Inv(Step(devices, s, t))
  {
    if t.cpu < |s.cpus| {
      var s' := Step(devices, s, t);
      var i := t.cpu;
      forall j: nat | j != i ensures HoldsAt(s', j) == HoldsAt(s, j) && (j < |s.cpus| ==> s'.cpus[j] == s.cpus[j]) {
        OthersStay(devices, s, t, j);
      }
      assert PlaceGood(s.cpus[i], s.shared) && PlaceGood(s'.cpus[i], s'.shared);
      forall j | 0 <= j < |s.cpus| ensures PlaceGood(s'.cpus[j], s'.shared) {
        assert PlaceGood(s.cpus[j], s.shared);
        assert HoldsAt(s, j) == Holds(s.cpus[j]) && HoldsAt(s, i) == Holds(s.cpus[i]);
      }
      assert HoldsAt(s, i) == Holds(s.cpus[i]) && HoldsAt(s', i) == Holds(s'.cpus[i]);
      if s.word != 0 {
        var h :| 0 <= h < |s.cpus| && HoldsAt(s, h);
        assert HoldsAt(s', h) || h == i;
      }
    }
  }

  lemma {:induction false} RunKeepsInv(devices: nat, s: State, turns: seq<Turn>)
    requires Inv(s)
    ensures Inv(Run(devices, s, turns))
    decreases |turns|
  {
    if turns != [] {
      StepKeepsInv(devices, s, turns[0]);
      RunKeepsInv(devices, Step(devices, s, turns[0]), turns[1..]);
    }
  }

  /** Over every run from the start at most one CPU is inside, and the word is zero
      exactly if no exchange that brought a zero is still without its release. */
  lemma MutualExclusion(devices: nat, n: nat, turns: seq<Turn>)
    ensures var s := Run(devices, Start(n), turns);
            && (forall i, j :: 0 <= i < |s.cpus| && 0 <= j < |s.cpus| ==>
                  Inside(s.cpus[i]) && Inside(s.cpus[j]) ==> i == j)
            && (s.word == 0 <==> forall i :: 0 <= i < |s.cpus| ==> !Holds(s.cpus[i]))
  {
    StartInv(n);
    RunKeepsInv(devices, Start(n), turns);
    var s := Run(devices, Start(n), turns);
    assert forall i :: 0 <= i < |s.cpus| ==> HoldsAt(s, i) == Holds(s.cpus[i]);
  }

  /** What the lock is for, on a stand-in for the driver routine: although it reads
      the shared data in one step and writes it in another, the data ends up holding
      the work of every finished request in order. */
  lemma {:induction false} NothingLost(devices: nat, s: State, turns: seq<Turn>)
    requires Inv(s)
    ensures Run(devices, s, turns).shared == s.shared + Served(devices, s, turns)
    decreases |turns|
  {
    if turns != [] {
      var t := turns[0];
      StepKeepsInv(devices, s, t);
      NothingLost(devices, Step(devices, s, t), turns[1..]);
      if t.cpu < |s.cpus| {
        assert PlaceGood(s.cpus[t.cpu], s.shared);
      }
    }
  }

  /** Only valid requests reach a driver. */
  lemma {:induction false} ServedValid(devices: nat, s: State, turns: seq<Turn>)
    requires forall i :: 0 <= i < |s.cpus| ==> Checked(devices, s.cpus[i])
    ensures forall k :: 0 <= k < |Served(devices, s, turns)| ==> Served(devices, s, turns)[k] < devices
    decreases |turns|
  {
    if turns != [] {
      var t := turns[0];
      var s' := Step(devices, s, t);
      forall i | 0 <= i < |s'.cpus| ensures Checked(devices, s'.cpus[i]) {
        assert Checked(devices, s.cpus[i]);
      }
      ServedValid(devices, s', turns[1..]);
      if t.cpu < |s.cpus| {
        assert Checked(devices, s.cpus[t.cpu]);
      }
    }
  }

  predicate Checked(devices: nat, p: Place) {
    p.Begin? || p.Finish? ==> p.req < devices
  }

  // ----- progress -----

  /** The turns CPU i still needs to leave, on its own. */
  function Left(devices: nat, p: Place): nat {
    match p
    case Test(r, _) => if r < devices then 6 else 5
    case Entered(r) => if r < devices then 5 else 4
    case Begin(_) => 4
    case Complain => 3
    case Finish(_, _) => 3
    case Release => 2
    case Swap(_) => 1
    case _ => 0
  }

  function Alone(i: nat, n: nat): seq<Turn> {
    seq(n, _ => Turn(i, 0))
  }

  lemma RunAlone(devices: nat, s: State, i: nat, n: nat)
    requires n > 0
    ensures Run(devices, s, Alone(i, n)) == Run(devices, Step(devices, s, Turn(i, 0)), Alone(i, n - 1))
  {
    assert Alone(i, n)[1..] == Alone(i, n - 1);
  }

  /** Both ways through the client give the lock back: whoever holds it, running on,
      is idle after `Left` steps and the word is zero again. */
  lemma {:induction false} HolderReleases(devices: nat, s: State, i: nat)
    requires Inv(s) && HoldsAt(s, i)
    ensures var s' := Run(devices, s, Alone(i, Left(devices, s.cpus[i])));
            s'.word == 0 && s'.cpus == s.cpus[i := Idle]
    decreases Left(devices, s.cpus[i])
  {
    var p := s.cpus[i];
    var t := Turn(i, 0);
    var s1 := Step(devices, s, t);
    RunAlone(devices, s, i, Left(devices, p));
    assert PlaceGood(p, s.shared);
    if p.Swap? {
      assert Alone(i, 0) == [];
    } else {
      StepKeepsInv(devices, s, t);
      assert Left(devices, s1.cpus[i]) == Left(devices, p) - 1;
      HolderReleases(devices, s1, i);
      assert s1.cpus[i := Idle] == s.cpus[i := Idle];
    }
  }

  /** What the work of a holder comes to, run on: its request if that is for a device that
      exists, nothing otherwise. */
  lemma {:induction false} HolderServes(devices: nat, s: State, i: nat)
    requires Inv(s) && i < |s.cpus| && s.cpus[i].Entered?
    ensures var s' := Run(devices, s, Alone(i, Left(devices, s.cpus[i])));
            s'.shared == if s.cpus[i].req < devices then s.shared + [s.cpus[i].req] else s.shared
  {
    var r := s.cpus[i].req;
    var n := Left(devices, s.cpus[i]);
    NothingLost(devices, s, Alone(i, n));
    ServedAlone(devices, s, i);
  }

  lemma {:induction false} ServedAlone(devices: nat, s: State, i: nat)
    requires i < |s.cpus| && (s.cpus[i].Entered? || s.cpus[i].Begin? || s.cpus[i].Finish? || s.cpus[i].Complain?
                              || s.cpus[i].Release? || s.cpus[i].Swap?)
    ensures var p := s.cpus[i];
            Served(devices, s, Alone(i, Left(devices, p)))
            == if p.Begin? || p.Finish? || (p.Entered? && p.req < devices) then [p.req] else []
    decreases Left(devices, s.cpus[i])
  {
    var n := Left(devices, s.cpus[i]);
    var t := Turn(i, 0);
    assert Alone(i, n)[0] == t && Alone(i, n)[1..] == Alone(i, n - 1);
    if !s.cpus[i].Swap? {
      var s1 := Step(devices, s, t);
      assert Left(devices, s1.cpus[i]) == n - 1;
      ServedAlone(devices, s1, i);
    } else {
      assert Alone(i, 0) == [];
    }
  }

  lemma {:induction false} RunConcat(devices: nat, s: State, a: seq<Turn>, b: seq<Turn>)
    ensures Run(devices, s, a + b) == Run(devices, Run(devices, s, a), b)
    decreases |a|
  {
    if a == [] {
      assert a + b == b;
    } else {
      assert (a + b)[1..] == a[1..] + b;
      RunConcat(devices, Step(devices, s, a[0]), a[1..], b);
    }
  }

  /** With the word zero a CPU that wants the lock has it at most four steps later. */
  lemma {:induction false} EntersAlone(devices: nat, s: State, i: nat, r: nat) returns (turns: seq<Turn>)
    requires Inv(s) && s.word == 0 && i < |s.cpus|
    requires s.cpus[i] in {Acquire(r), Exchange(r, 1)} || (s.cpus[i].Test? && s.cpus[i].req == r)
    ensures Run(devices, s, turns).cpus == s.cpus[i := Entered(r)]
    decreases if s.cpus[i].Test? then 2 else if s.cpus[i].Acquire? then 1 else 0
  {
    assert !HoldsAt(s, i);
    var t := Turn(i, 0);
    var s1 := Step(devices, s, t);
    if s.cpus[i].Exchange? {
      turns := [t, t];
      assert [t, t][1..] == [t] && [t][1..] == [];
      assert Run(devices, s1, [t]) == Step(devices, s1, t);
    } else {
      StepKeepsInv(devices, s, t);
      var rest := EntersAlone(devices, s1, i, r);
      turns := [t] + rest;
      assert turns[1..] == rest;
    }
    assert s1.cpus[i := Entered(r)] == s.cpus[i := Entered(r)];
  }

  /** No deadlock: from every state a run reaches, every CPU that wants the lock can
      still come to hold it. */
  lemma CanEnter(devices: nat, s: State, i: nat) returns (turns: seq<Turn>)
    requires Inv(s) && i < |s.cpus| && (s.cpus[i].Acquire? || s.cpus[i].Exchange? || s.cpus[i].Test?)
    ensures var s' := Run(devices, s, turns);
            |s'.cpus| == |s.cpus| && s'.cpus[i] == Entered(s.cpus[i].req)
  {
    assert PlaceGood(s.cpus[i], s.shared);
    if HoldsAt(s, i) {
      turns := [Turn(i, 0)];
      assert turns[1..] == [];
      assert Run(devices, s, turns) == Step(devices, s, turns[0]);
    } else if s.word == 0 {
      turns := EntersAlone(devices, s, i, s.cpus[i].req);
    } else {
      var h :| 0 <= h < |s.cpus| && HoldsAt(s, h);
      var first := Alone(h, Left(devices, s.cpus[h]));
      HolderReleases(devices, s, h);
      RunKeepsInv(devices, s, first);
      var rest := EntersAlone(devices, Run(devices, s, first), i, s.cpus[i].req);
      RunConcat(devices, s, first, rest);
      turns := first + rest;
    }
  }

  // ----- no fairness -----

  /** One round in which CPU 1 is served while CPU 0 spins past the lock. */
  function Overtaken(r: nat): seq<Turn> {
    var a, b := Turn(0, r), Turn(1, r);
    [b, b, b] + [a, a, a] + [b, b, b, b, b, b]
  }

  lemma OneRound(devices: nat, r0: nat, r: nat, done: seq<nat>)
    requires r < devices
    ensures Run(devices, State(0, done, [Acquire(r0), Idle]), Overtaken(r)) == State(0, done + [r], [Acquire(r0), Idle])
  {
    var a, b := Turn(0, r), Turn(1, r);
    var s := State(0, done, [Acquire(r0), Idle]);
    var s1 := State(1, done, [Acquire(r0), Test(r, 0)]);
    Three(devices, s, b);
    Three(devices, s1, a);
    assert Run(devices, s, [b, b, b]) == s1;
    assert Run(devices, s1, [a, a, a]) == s1;
    RunConcat(devices, s, [b, b, b], [a, a, a]);
    Three(devices, s1, b);
    var s2 := State(1, done, [Acquire(r0), Finish(r, done)]);
    assert Run(devices, s1, [b, b, b]) == s2;
    Three(devices, s2, b);
    assert [b, b, b, b, b, b] == [b, b, b] + [b, b, b];
    RunConcat(devices, s1, [b, b, b], [b, b, b]);
    RunConcat(devices, s, [b, b, b] + [a, a, a], [b, b, b, b, b, b]);
  }

  lemma Three(devices: nat, s: State, t: Turn)
    ensures Run(devices, s, [t, t, t]) == Step(devices, Step(devices, Step(devices, s, t), t), t)
  {
    assert [t, t, t][1..] == [t, t] && [t, t][1..] == [t] && [t][1..] == [];
    var s2 := Step(devices, Step(devices, s, t), t);
    assert Run(devices, s2, [t]) == Step(devices, s2, t);
  }

  /** The lock is not fair: however many requests CPU 1 brings, there is a run in
      which all are served while CPU 0 keeps trying and does not get in. */
  lemma {:induction false} CanStarve(devices: nat, r0: nat, reqs: seq<nat>, done: seq<nat>) returns (turns: seq<Turn>)
    requires forall k :: 0 <= k < |reqs| ==> reqs[k] < devices
    ensures Run(devices, State(0, done, [Acquire(r0), Idle]), turns) == State(0, done + reqs, [Acquire(r0), Idle])
    ensures |turns| == 12 * |reqs|
    decreases |reqs|
  {
    if reqs == [] {
      turns := [];
      assert done + reqs == done;
    } else {
      var round := Overtaken(reqs[0]);
      OneRound(devices, r0, reqs[0], done);
      var rest := CanStarve(devices, r0, reqs[1..], done + [reqs[0]]);
      RunConcat(devices, State(0, done, [Acquire(r0), Idle]), round, rest);
      assert done + [reqs[0]] + reqs[1..] == done + reqs;
      turns := round + rest;
    }
  }
}
