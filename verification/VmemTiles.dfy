/** The address-ordered segment queue of an arena, as a sequence of values: span
    markers, each followed by the segments that tile it. */
module VmemTiles {
  import opened Common

  datatype Kind = Allocated | Free | Span | StaticSpan

  datatype Seg = Seg(kind: Kind, base: int, size: int) {
    predicate IsSpan() {
      kind.Span? || kind.StaticSpan?
    }

    function End(): int {
      base + size
    }
  }

  /** Inside a span, the next segment starts at pos and the span ends at end; a
      new span may begin only where the old one is full. No gap, no overlap. */
  ghost predicate Tiled(q: seq<Seg>, pos: int, end: int) {
    if q == [] then pos == end
    else
      && q[0].size > 0
      && if q[0].IsSpan() then pos == end && Tiled(q[1..], q[0].base, q[0].End())
         else q[0].base == pos && q[0].End() <= end && Tiled(q[1..], q[0].End(), end)
  }

  predicate Disjoint(a: Seg, b: Seg) {
    a.End() <= b.base || b.End() <= a.base
  }

  /** Spans lie in the 32-bit addresses and different ones do not overlap: what
      whoever adds them must see to. */
  ghost predicate SpansApart(q: seq<Seg>) {
    && (forall i :: 0 <= i < |q| && q[i].IsSpan() ==> 0 <= q[i].base && q[i].End() <= LIMIT)
    && forall i, j :: 0 <= i < j < |q| && q[i].IsSpan() && q[j].IsSpan() ==> Disjoint(q[i], q[j])
  }

  /** A segment lies inside the span it follows. */
  ghost predicate Inside(q: seq<Seg>, j: int, k: int)
    requires 0 <= k <= j < |q|
  {
    q[k].IsSpan() && q[k].base <= q[j].base && q[j].End() <= q[k].End()
  }

  /** Every segment is in what is left of the current span, or inside a later one. */
  lemma {:induction false} TileWhere(q: seq<Seg>, pos: int, end: int, j: nat) returns (k: int)
    requires Tiled(q, pos, end) && j < |q| && !q[j].IsSpan()
    ensures -1 <= k < j
    ensures if k < 0 then pos <= q[j].base && q[j].End() <= end else Inside(q, j, k)
    decreases |q|
  {
    k := -1;
    if j > 0 {
      if q[0].IsSpan() {
        var m := TileWhere(q[1..], q[0].base, q[0].End(), j - 1);
        k := m + 1;
      } else {
        var m := TileWhere(q[1..], q[0].End(), end, j - 1);
        k := if m < 0 then -1 else m + 1;
      }
    }
  }

  /** Two segments never overlap, provided the spans do not. */
  lemma {:induction false} TilesApart(q: seq<Seg>, pos: int, end: int, i: nat, j: nat)
    requires Tiled(q, pos, end) && SpansApart(q) && i < j < |q| && !q[i].IsSpan() && !q[j].IsSpan()
    requires forall m :: 0 <= m < |q| && q[m].IsSpan() && pos < end ==> end <= q[m].base || q[m].End() <= pos
    ensures Disjoint(q[i], q[j])
    decreases |q|
  {
    var rest := q[1..];
    assert forall m :: 0 <= m < |rest| ==> rest[m] == q[m + 1];
    if i > 0 {
      if q[0].IsSpan() {
        TilesApart(rest, q[0].base, q[0].End(), i - 1, j - 1);
      } else {
        TilesApart(rest, q[0].End(), end, i - 1, j - 1);
      }
    } else {
      var k := TileWhere(rest, q[0].End(), end, j - 1);
      if k >= 0 {
        assert q[k + 1].IsSpan();
      }
    }
  }

  /** Pieces that exactly fill one segment's place. */
  ghost predicate Fill(pieces: seq<Seg>, pos: int, end: int) {
    if pieces == [] then pos == end
    else pieces[0].size > 0 && !pieces[0].IsSpan() && pieces[0].base == pos && Fill(pieces[1..], pieces[0].End(), end)
  }

  lemma {:induction false} FillThen(pieces: seq<Seg>, rest: seq<Seg>, pos: int, mid: int, end: int)
    requires Fill(pieces, pos, mid) && mid <= end && Tiled(rest, mid, end)
    ensures Tiled(pieces + rest, pos, end)
    decreases |pieces|
  {
    if pieces == [] {
      assert pieces + rest == rest;
    } else {
      FillEnd(pieces[1..], pieces[0].End(), mid);
      FillThen(pieces[1..], rest, pieces[0].End(), mid, end);
      assert (pieces + rest)[1..] == pieces[1..] + rest;
    }
  }

  lemma {:induction false} FillEnd(pieces: seq<Seg>, pos: int, end: int)
    requires Fill(pieces, pos, end)
    ensures pos <= end
    decreases |pieces|
  {
    if pieces != [] {
      FillEnd(pieces[1..], pieces[0].End(), end);
    }
  }

  /** Replacing a segment by pieces that fill its place keeps the tiling. */
  lemma {:induction false} TiledReplace(q: seq<Seg>, k: nat, pieces: seq<Seg>, pos: int, end: int)
    requires Tiled(q, pos, end) && k < |q| && !q[k].IsSpan()
    requires Fill(pieces, q[k].base, q[k].End())
    ensures Tiled(q[..k] + pieces + q[k + 1..], pos, end)
    decreases k
  {
    var q' := q[..k] + pieces + q[k + 1..];
    if k == 0 {
      FillThen(pieces, q[1..], pos, q[0].End(), end);
      assert q' == pieces + q[1..];
    } else {
      var rest := q[1..];
      assert q'[0] == q[0];
      assert q'[1..] == rest[..k - 1] + pieces + rest[k..];
      if q[0].IsSpan() {
        TiledReplace(rest, k - 1, pieces, q[0].base, q[0].End());
      } else {
        TiledReplace(rest, k - 1, pieces, q[0].End(), end);
      }
    }
  }

  /** A new span, tiled by one free segment, can be appended. */
  lemma {:induction false} TiledAppend(q: seq<Seg>, span: Seg, free: Seg, pos: int, end: int)
    requires Tiled(q, pos, end) && span.IsSpan() && span.size > 0
    requires !free.IsSpan() && free.base == span.base && free.size == span.size
    ensures Tiled(q + [span, free], pos, end)
    decreases |q|
  {
    if q == [] {
      assert q + [span, free] == [span, free];
      assert [span, free][1..] == [free] && [free][1..] == [];
    } else {
      assert (q + [span, free])[1..] == q[1..] + [span, free];
      if q[0].IsSpan() {
        TiledAppend(q[1..], span, free, q[0].base, q[0].End());
      } else {
        TiledAppend(q[1..], span, free, q[0].End(), end);
      }
    }
  }

  /** Every segment has a size. */
  lemma {:induction false} TiledSizes(q: seq<Seg>, pos: int, end: int, j: nat)
    requires Tiled(q, pos, end) && j < |q|
    ensures q[j].size > 0
    decreases |q|
  {
    if j > 0 {
      if q[0].IsSpan() {
        TiledSizes(q[1..], q[0].base, q[0].End(), j - 1);
      } else {
        TiledSizes(q[1..], q[0].End(), end, j - 1);
      }
    }
  }
}
