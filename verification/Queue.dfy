/** The intrusive doubly linked lists of the kernel, word by word in memory.
    An element's address is its `next` word; its `prev` word is 4 bytes on and
    should hold the address of the slot that points at the element. */
module Queue {
  import opened Common
  import opened Paging

  /** The slot through which element i is reached: the head, or the `next` word
      of the element before. */
  function Slot(head: int, s: seq<int>, i: int): int {
    if 0 < i <= |s| then s[i - 1] else head
  }

  function Next(s: seq<int>, i: int): int {
    if 0 <= i < |s| then s[i] else 0
  }

  /** Addresses that can carry a list: elements of two words, clear of one
      another and of the head, none at 0. */
  ghost predicate Placed(head: int, s: seq<int>) {
    && 0 < head < 0x1_0000_0000
    && (forall i :: 0 <= i < |s| ==> ClearAt(head, s, i))
    && (forall i, j :: 0 <= i < j < |s| ==> ApartAt(s, i, j))
  }

  predicate ClearAt(head: int, s: seq<int>, i: int)
    requires 0 <= i < |s|
  {
    Clear(head, s[i])
  }

  predicate ApartAt(s: seq<int>, i: int, j: int)
    requires 0 <= i < |s| && 0 <= j < |s|
  {
    TwoWordsApart(s[i], s[j])
  }

  predicate Clear(head: int, e: int) {
    0 < e < 0xFFFF_FFFC && (head + 4 <= e || e + 8 <= head)
  }

  predicate TwoWordsApart(a: int, b: int) {
    a + 8 <= b || b + 8 <= a
  }

  /** Following `next` from the head meets exactly s. */
  ghost predicate Forward(mem: Memory, head: int, s: seq<int>) {
    forall i :: 0 <= i <= |s| ==> ForwardAt(mem, head, s, i)
  }

  predicate ForwardAt(mem: Memory, head: int, s: seq<int>, i: int) {
    Load(mem, Slot(head, s, i)) == Next(s, i)
  }

  /** Each `prev` names the slot that points to its element. */
  ghost predicate Backward(mem: Memory, head: int, s: seq<int>, first: nat) {
    forall i :: first <= i < |s| ==> BackwardAt(mem, head, s, i)
  }

  predicate BackwardAt(mem: Memory, head: int, s: seq<int>, i: int)
    requires 0 <= i < |s|
  {
    Load(mem, s[i] + 4) == Slot(head, s, i)
  }

  /** A list as the removal code expects it. */
  ghost predicate Linked(mem: Memory, head: int, s: seq<int>) {
    Placed(head, s) && Forward(mem, head, s) && Backward(mem, head, s, 0)
  }

  /** A list as the insertion code leaves it: the first element's `prev` is the
      element itself. */
  ghost predicate LinkedAsWritten(mem: Memory, head: int, s: seq<int>) {
    && Placed(head, s) && Forward(mem, head, s) && Backward(mem, head, s, 1)
    && (s != [] ==> Load(mem, s[0] + 4) == s[0])
  }

  // ----- the operations -----

  /** `list_insert_head`; `prev` is the word stored for the new element. */
  function Inserted(mem: Memory, head: int, e: Word, prev: Word): Memory {
    var first := Load(mem, head);
    var m1 := mem[e := first];
    var m2 := if first != 0 then m1[first + 4 := e] else m1;
    m2[head := e][e + 4 := prev]
  }

  /** `list_remove` */
  function Removed(mem: Memory, e: int): Memory {
    var slot, next := Load(mem, e + 4), Load(mem, e);
    var m1 := if next != 0 then mem[next + 4 := slot] else mem;
    m1[slot := next]
  }

  function Without(s: seq<int>, k: nat): seq<int>
    requires k < |s|
  {
    s[..k] + s[k + 1..]
  }

  class Lists {
    var mem: Memory

    /** `list_insert_head` as it stands, on a list s as it leaves them: the element
        is in front, and no word is written but the head, the element's two and the
        `prev` of the one that was first. */
    method InsertHead(eax: Word, edx: Word, ghost s: seq<int>)
      requires LinkedAsWritten(mem, eax, s)
      requires Clear(eax, edx) && forall i :: 0 <= i < |s| ==> TwoWordsApart(edx, s[i])
      modifies this
      ensures LinkedAsWritten(mem, eax, [edx] + s)
      ensures forall a :: a != eax && a != edx && a != edx + 4 && !(s != [] && a == s[0] + 4) ==>
                Load(mem, a) == Load(old(mem), a)
    {
      InsertAsWritten(mem, eax, s, edx);
      assert ForwardAt(mem, eax, s, 0);
      var ecx: int := Load(mem, eax);
      mem := mem[edx := ecx];
      if ecx != 0 {
        mem := mem[ecx + 4 := edx];
      }
      mem := mem[eax := edx];
      mem := mem[edx + 4 := edx];
    }

    /** `list_remove` of the k-th element: gone if it was not the first, and if it
        was, nothing has happened. */
    method Remove(eax: Word, ghost head: int, ghost s: seq<int>, ghost k: nat)
      requires LinkedAsWritten(mem, head, s) && k < |s| && eax == s[k]
      modifies this
      ensures k != 0 ==> LinkedAsWritten(mem, head, Without(s, k))
      ensures k == 0 ==> LinkedAsWritten(mem, head, s) && SameMemory(mem, old(mem))
      ensures forall a :: a != Slot(head, s, k) && !(k + 1 < |s| && a == s[k + 1] + 4) ==>
                Load(mem, a) == Load(old(mem), a)
    {
      RemoveAsWrittenIff(mem, head, s, k);
      RemoveWords(mem, head, s, k);
      if k == 0 { SameLinked(mem, Removed(mem, eax), head, s); }
      var ecx := Load(mem, eax + 4);
      var edx: int := Load(mem, eax);
      if edx != 0 {
        mem := mem[edx + 4 := ecx];
      }
      mem := mem[ecx := edx];
    }

    /** `list_map` with a callback that leaves the links alone: every element is
        visited once, in order. */
    method Map(eax: Word, ghost s: seq<int>) returns (visited: seq<int>)
      requires Placed(eax, s) && Forward(mem, eax, s)
      ensures visited == s
    {
      visited := [];
      assert forall i :: 0 <= i < |s| ==> ClearAt(eax, s, i);
      var edi := Load(mem, eax);
      assert ForwardAt(mem, eax, s, 0);
      while edi != 0
        invariant |visited| <= |s| && visited == s[..|visited|]
        invariant edi == Next(s, |visited|)
        decreases |s| - |visited|
      {
        ghost var i := |visited|;
        visited := visited + [edi];
        edi := Load(mem, edi);
        assert ForwardAt(mem, eax, s, i + 1);
      }
      assert |visited| == |s| by {
        assert forall i :: 0 <= i < |s| ==> ClearAt(eax, s, i) && Next(s, i) != 0;
      }
    }
  }

  // ----- what they do to a list -----

  lemma Distinct(head: int, s: seq<int>, i: int, j: int)
    requires Placed(head, s) && 0 <= i < |s| && 0 <= j < |s| && i != j
    ensures TwoWordsApart(s[i], s[j])
  {
    assert if i < j then ApartAt(s, i, j) else ApartAt(s, j, i);
  }

  /** A slot is no other slot, and no `prev` word. */
  lemma SlotsDiffer(head: int, s: seq<int>, i: int, j: int)
    requires Placed(head, s) && 0 <= i <= |s| && 0 <= j <= |s|
    ensures i != j ==> Slot(head, s, i) != Slot(head, s, j)
    ensures j < |s| ==> Slot(head, s, i) != s[j] + 4 && s[j] != 0
  {
    if i > 0 { assert ClearAt(head, s, i - 1); }
    if j > 0 { assert ClearAt(head, s, j - 1); }
    if j < |s| { assert ClearAt(head, s, j); }
    if i > 0 && j > 0 && i != j { Distinct(head, s, i - 1, j - 1); }
    if i > 0 && j < |s| && i - 1 != j { Distinct(head, s, i - 1, j); }
  }

  lemma PlacedCons(head: int, s: seq<int>, e: int)
    requires Placed(head, s) && Clear(head, e)
    requires forall i :: 0 <= i < |s| ==> TwoWordsApart(e, s[i])
    ensures Placed(head, [e] + s)
  {
    var t := [e] + s;
    forall i | 0 <= i < |t|
      ensures ClearAt(head, t, i)
    {
      if i > 0 { assert ClearAt(head, s, i - 1); }
    }
    forall i, j | 0 <= i < j < |t|
      ensures ApartAt(t, i, j)
    {
      if i > 0 { assert ApartAt(s, i - 1, j - 1); }
    }
  }

  /** Insertion puts the element in front, whichever `prev` it is given, and the
      element displaced from the front gets its right `prev`. */
  lemma InsertPrepends(mem: Memory, head: Word, s: seq<int>, e: Word, prev: Word)
    requires Placed(head, s) && Forward(mem, head, s) && Backward(mem, head, s, 1)
    requires Clear(head, e) && forall i :: 0 <= i < |s| ==> TwoWordsApart(e, s[i])
    ensures var mem' := Inserted(mem, head, e, prev);
            var t := [e] + s;
            Placed(head, t) && Forward(mem', head, t) && Backward(mem', head, t, 1) && Load(mem', e + 4) == prev
  {
    var mem' := Inserted(mem, head, e, prev);
    var t := [e] + s;
    PlacedCons(head, s, e);
    assert ForwardAt(mem, head, s, 0);
    forall i | 0 <= i <= |t|
      ensures ForwardAt(mem', head, t, i)
    {
      InsertForwardAt(mem, head, s, e, prev, i);
    }
    forall i | 1 <= i < |t|
      ensures BackwardAt(mem', head, t, i)
    {
      InsertBackwardAt(mem, head, s, e, prev, i);
    }
  }

  lemma InsertForwardAt(mem: Memory, head: Word, s: seq<int>, e: Word, prev: Word, i: nat)
    requires Placed(head, [e] + s) && ForwardAt(mem, head, s, 0)
    requires i <= |s| + 1 && (i > 1 ==> ForwardAt(mem, head, s, i - 1))
    ensures ForwardAt(Inserted(mem, head, e, prev), head, [e] + s, i)
  {
    var t := [e] + s;
    SlotsDiffer(head, t, i, 0);
    if |s| > 0 { SlotsDiffer(head, t, i, 1); }
    if i != 1 { SlotsDiffer(head, t, i, 1); }
  }

  lemma InsertBackwardAt(mem: Memory, head: Word, s: seq<int>, e: Word, prev: Word, i: nat)
    requires Placed(head, [e] + s) && ForwardAt(mem, head, s, 0)
    requires 1 <= i <= |s| && (i > 1 ==> BackwardAt(mem, head, s, i - 1))
    ensures BackwardAt(Inserted(mem, head, e, prev), head, [e] + s, i)
  {
    var t := [e] + s;
    assert t[1] == s[0] && t[i] == s[i - 1];
    SlotsDiffer(head, t, 0, i);
    SlotsDiffer(head, t, 1, i);
    SlotsDiffer(head, t, 0, 1);
    Distinct(head, t, i, 0);
    if i > 1 { Distinct(head, t, i, 1); }
  }

  /** With the head as `prev`, insertion keeps the list the removal code needs. */
  lemma InsertByDesign(mem: Memory, head: Word, s: seq<int>, e: Word)
    requires Linked(mem, head, s)
    requires Clear(head, e) && forall i :: 0 <= i < |s| ==> TwoWordsApart(e, s[i])
    ensures Linked(Inserted(mem, head, e, head), head, [e] + s)
  {
    InsertPrepends(mem, head, s, e, head);
  }

  lemma InsertAsWritten(mem: Memory, head: Word, s: seq<int>, e: Word)
    requires LinkedAsWritten(mem, head, s)
    requires Clear(head, e) && forall i :: 0 <= i < |s| ==> TwoWordsApart(e, s[i])
    ensures LinkedAsWritten(Inserted(mem, head, e, e), head, [e] + s)
  {
    InsertPrepends(mem, head, s, e, e);
  }

  /** The words removal writes. */
  lemma RemoveWords(mem: Memory, head: int, s: seq<int>, k: nat)
    requires LinkedAsWritten(mem, head, s) && k < |s|
    ensures forall a :: a != Slot(head, s, k) && !(k + 1 < |s| && a == s[k + 1] + 4) ==>
              Load(Removed(mem, s[k]), a) == Load(mem, a)
  {
    assert ForwardAt(mem, head, s, k + 1);
    if k > 0 {
      assert BackwardAt(mem, head, s, k);
    } else {
      RemoveAsWrittenIff(mem, head, s, 0);
    }
  }

  lemma SameLinked(m1: Memory, m2: Memory, head: int, s: seq<int>)
    requires LinkedAsWritten(m1, head, s) && SameMemory(m2, m1)
    ensures LinkedAsWritten(m2, head, s)
  {
    forall i | 0 <= i <= |s|
      ensures ForwardAt(m2, head, s, i)
    {
      assert ForwardAt(m1, head, s, i);
    }
    forall i | 1 <= i < |s|
      ensures BackwardAt(m2, head, s, i)
    {
      assert BackwardAt(m1, head, s, i);
    }
  }

  lemma WithoutAt(head: int, s: seq<int>, k: nat, i: nat)
    requires k < |s|
    ensures i <= k ==> Slot(head, Without(s, k), i) == Slot(head, s, i)
    ensures k < i < |s| ==> Slot(head, Without(s, k), i) == Slot(head, s, i + 1)
    ensures Next(Without(s, k), i) == Next(s, if i < k then i else i + 1)
  {
  }

  lemma PlacedWithout(head: int, s: seq<int>, k: nat)
    requires Placed(head, s) && k < |s|
    ensures Placed(head, Without(s, k))
  {
    var t := Without(s, k);
    assert forall i :: 0 <= i < |t| ==> t[i] == s[if i < k then i else i + 1];
    forall i | 0 <= i < |t|
      ensures ClearAt(head, t, i)
    {
      assert ClearAt(head, s, if i < k then i else i + 1);
    }
    forall i, j | 0 <= i < j < |t|
      ensures ApartAt(t, i, j)
    {
      assert ApartAt(s, if i < k then i else i + 1, if j < k then j else j + 1);
    }
  }

  lemma RemoveForwardAt(mem: Memory, head: int, s: seq<int>, k: nat, i: nat)
    requires Placed(head, s) && k < |s| && i <= |s| - 1
    requires BackwardAt(mem, head, s, k) && ForwardAt(mem, head, s, k + 1)
    requires ForwardAt(mem, head, s, if i <= k then i else i + 1)
    ensures ForwardAt(Removed(mem, s[k]), head, Without(s, k), i)
  {
    WithoutAt(head, s, k, i);
    var j := if i <= k then i else i + 1;
    SlotsDiffer(head, s, j, k);
    if k + 1 < |s| { SlotsDiffer(head, s, j, k + 1); }
  }

  lemma RemoveBackwardAt(mem: Memory, head: int, s: seq<int>, k: nat, i: nat)
    requires Placed(head, s) && k < |s| && i < |s| - 1
    requires BackwardAt(mem, head, s, k) && ForwardAt(mem, head, s, k + 1)
    requires BackwardAt(mem, head, s, if i < k then i else i + 1)
    ensures BackwardAt(Removed(mem, s[k]), head, Without(s, k), i)
  {
    WithoutAt(head, s, k, i);
    var j := if i < k then i else i + 1;
    SlotsDiffer(head, s, k, j);
    if k + 1 < |s| {
      SlotsDiffer(head, s, k, k + 1);
      if j != k + 1 { Distinct(head, s, j, k + 1); }
    }
  }

  /** Removal of an element whose `prev` names its slot takes out that element
      and nothing else, from the front, the middle or the end. */
  lemma RemoveDeletes(mem: Memory, head: int, s: seq<int>, k: nat, first: nat)
    requires Placed(head, s) && Forward(mem, head, s) && Backward(mem, head, s, first)
    requires first <= k < |s| && first <= 1
    ensures var mem' := Removed(mem, s[k]);
            var t := Without(s, k);
            && Placed(head, t) && Forward(mem', head, t) && Backward(mem', head, t, first)
            && (first == 1 ==> Load(mem', s[0] + 4) == Load(mem, s[0] + 4) && t[0] == s[0])
  {
    PlacedWithout(head, s, k);
    var t := Without(s, k);
    forall i | 0 <= i <= |t|
      ensures ForwardAt(Removed(mem, s[k]), head, t, i)
    {
      RemoveForwardAt(mem, head, s, k, i);
    }
    forall i | first <= i < |t|
      ensures BackwardAt(Removed(mem, s[k]), head, t, i)
    {
      RemoveBackwardAt(mem, head, s, k, i);
    }
    if first == 1 {
      assert BackwardAt(mem, head, s, k) && ForwardAt(mem, head, s, k + 1);
      SlotsDiffer(head, s, k, 0);
      if k + 1 < |s| { Distinct(head, s, 0, k + 1); }
    }
  }

  /** By design, any member can be removed. */
  lemma RemoveByDesign(mem: Memory, head: int, s: seq<int>, k: nat)
    requires Linked(mem, head, s) && k < |s|
    ensures Linked(Removed(mem, s[k]), head, Without(s, k))
  {
    RemoveDeletes(mem, head, s, k, 0);
  }

  /** As written, removing an element takes it out exactly when it is not the
      first; the first stays where it was and the memory does not change. */
  lemma RemoveAsWrittenIff(mem: Memory, head: int, s: seq<int>, k: nat)
    requires LinkedAsWritten(mem, head, s) && k < |s|
    ensures Forward(Removed(mem, s[k]), head, Without(s, k)) <==> k != 0
    ensures k != 0 ==> LinkedAsWritten(Removed(mem, s[k]), head, Without(s, k))
    ensures k == 0 ==> SameMemory(Removed(mem, s[0]), mem)
  {
    if k != 0 {
      RemoveDeletes(mem, head, s, k, 1);
    } else {
      assert ForwardAt(mem, head, s, 1) && ForwardAt(mem, head, s, 0);
      assert |s| > 1 ==> BackwardAt(mem, head, s, 1);
      var mem', t := Removed(mem, s[0]), Without(s, 0);
      assert SameMemory(mem', mem);
      assert !ForwardAt(mem', head, t, 0) by {
        SlotsDiffer(head, s, 0, 0);
        if |s| > 1 { Distinct(head, s, 0, 1); }
      }
    }
  }

  /** A list of one element, as insertion leaves it, from which the element cannot
      be removed. */
  lemma LoneStays()
    ensures var mem := Inserted(map[], 0x1000, 0x2000, 0x2000);
            && LinkedAsWritten(mem, 0x1000, [0x2000])
            && Load(Removed(mem, 0x2000), 0x1000) == 0x2000
            && !Forward(Removed(mem, 0x2000), 0x1000, Without([0x2000], 0))
  {
    InsertAsWritten(map[], 0x1000, [], 0x2000);
    assert [0x2000] + [] == [0x2000];
    var mem := Inserted(map[], 0x1000, 0x2000, 0x2000);
    RemoveAsWrittenIff(mem, 0x1000, [0x2000], 0);
    FirstTakenTwice(mem, 0x1000, [0x2000]);
  }

  /** What that does to a pool kept on such a list: taking its first element
      twice yields the same element twice. */
  lemma FirstTakenTwice(mem: Memory, head: int, s: seq<int>)
    requires LinkedAsWritten(mem, head, s) && s != []
    ensures Load(mem, head) == s[0]
    ensures Load(Removed(mem, Load(mem, head)), head) == s[0]
  {
    assert ForwardAt(mem, head, s, 0);
    RemoveAsWrittenIff(mem, head, s, 0);
  }
}
