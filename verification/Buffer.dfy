/** The growing byte buffer of fas2sym. */
module GrowBuffer {
  import opened Bytes

  /** The doubling loop: from 0 the first step goes to 32. */
  function Grow(cap: nat, need: nat): nat
    decreases need - cap
  {
    if cap >= need then cap else Grow(if cap == 0 then 32 else cap * 2, need)
  }

  /** Growth stops at the first capacity that is enough. */
  lemma {:induction false} GrowBound(cap: nat, need: nat)
    ensures Grow(cap, need) >= need && Grow(cap, need) >= cap
    ensures Grow(cap, need) == cap || Grow(cap, need) == 32 || Grow(cap, need) < 2 * need
    decreases need - cap
  {
    if cap < need {
      GrowBound(if cap == 0 then 32 else cap * 2, need);
    }
  }

  function Pow2(k: nat): nat {
    if k == 0 then 1 else 2 * Pow2(k - 1)
  }

  /** Growth doubles: k times from the old capacity, or from 32 if there was none, and
      one time less would not have been enough. */
  lemma {:induction false} GrowDoubles(cap: nat, need: nat) returns (k: nat)
    requires cap < need
    ensures if cap == 0 then Grow(cap, need) == 32 * Pow2(k) else Grow(cap, need) == cap * Pow2(k) && k > 0
    ensures k > 0 ==> Grow(cap, need) / 2 < need
    decreases need - cap
  {
    var next := if cap == 0 then 32 else cap * 2;
    if next >= need {
      k := if cap == 0 then 0 else 1;
      assert Pow2(0) == 1 && Pow2(1) == 2;
    } else {
      var k' := GrowDoubles(next, need);
      k := if cap == 0 then k' else k' + 1;
      assert cap != 0 ==> cap * 2 * Pow2(k') == cap * (2 * Pow2(k'));
    }
  }

  class Buffer {
    var cap: nat
    var cnt: nat
    var data: array?<byte>

    ghost predicate Valid()
      reads this, data
    {
      cnt <= cap && (if data == null then cap == 0 else data.Length == cap)
    }

    ghost function Contents(): (s: seq<byte>)
      requires Valid()
      reads this, data
      ensures |s| == cnt
    {
      if data == null then [] else data[..cnt]
    }

    constructor ()
      ensures Valid() && Contents() == [] && data == null
    {
      cap, cnt, data := 0, 0, null;
    }

    /** `buffer_put`: grow by reallocation, then append. */
    method Put(bytes: seq<byte>) returns (index: nat)
      requires Valid()
      modifies this, data
      ensures Valid() && Contents() == old(Contents()) + bytes && index == old(cnt)
      ensures cap == Grow(old(cap), old(cnt) + |bytes|)
      ensures data == old(data) || fresh(data)
    {
      hide Grow;
      index := cnt;
      Reserve(cnt + |bytes|);
      ghost var kept := Contents();
      if data != null {
        forall i | 0 <= i < |bytes| {
          data[cnt + i] := bytes[i];
        }
        assert data[..cnt] == kept;
        assert data[cnt..cnt + |bytes|] == bytes;
      }
      cnt := cnt + |bytes|;
    }

    /** The growing loop of `buffer_put`. */
    method Reserve(need: nat)
      requires Valid()
      modifies this`cap, this`data
      ensures Valid() && cap >= need && cap == Grow(old(cap), need)
      ensures Contents() == old(Contents())
      ensures data == old(data) || fresh(data)
    {
      while cap < need
        invariant Valid() && Contents() == old(Contents())
        invariant Grow(cap, need) == Grow(old(cap), need)
        invariant data == old(data) || fresh(data)
        decreases need - cap
      {
        Reallocate(if cap == 0 then 32 else cap * 2);
      }
    }

    /** `realloc` to a larger size. */
    method Reallocate(size: nat)
      requires Valid() && size > cap
      modifies this`cap, this`data
      ensures Valid() && cap == size && Contents() == old(Contents()) && fresh(data)
    {
      ghost var kept := Contents();
      var bigger := new byte[size];
      if data != null {
        forall i | 0 <= i < data.Length {
          bigger[i] := data[i];
        }
      }
      cap, data := size, bigger;
      assert Contents() == kept;
    }

    /** An in-place change of one byte. */
    method Set(i: nat, b: byte)
      requires Valid() && i < cnt
      modifies data
      ensures Valid() && Contents() == old(Contents())[i := b]
    {
      data[i] := b;
    }
  }
}
