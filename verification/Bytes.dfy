/** Little-endian words and C strings in byte sequences. */
module Bytes {
  import opened Common

  type byte = x: int | 0 <= x < 256

  function Low32(x: int): Word {
    x % LIMIT
  }

  function Le32(x: Word): (s: seq<byte>)
    ensures |s| == 4
  {
    [x % 256, x / 256 % 256, x / 0x1_0000 % 256, x / 0x100_0000]
  }

  function Get16(s: seq<byte>, off: nat): int
    requires off + 2 <= |s|
  {
    s[off] as int + 256 * s[off + 1] as int
  }

  function Get32(s: seq<byte>, off: nat): Word
    requires off + 4 <= |s|
  {
    s[off] as int + 256 * s[off + 1] as int + 0x1_0000 * s[off + 2] as int + 0x100_0000 * s[off + 3] as int
  }

  /** Two half words stored one after the other are one little-endian word. */
  function Halves(lo: int, hi: int): Word
    requires 0 <= lo < 0x1_0000 && 0 <= hi < 0x1_0000
  {
    lo + 0x1_0000 * hi
  }

  function Words(ws: seq<Word>): (s: seq<byte>)
    ensures |s| == 4 * |ws|
  {
    if ws == [] then [] else Le32(ws[0]) + Words(ws[1..])
  }

  lemma Le32Inverse(x: Word)
    ensures Get32(Le32(x), 0) == x
    ensures Get16(Le32(x), 0) == x % 0x1_0000 && Get16(Le32(x), 2) == x / 0x1_0000
  {
    assert x / 256 / 256 == x / 0x1_0000 && x / 0x1_0000 / 256 == x / 0x100_0000;
  }

  /** `piece` lies in s at offset off. */
  ghost predicate Lies(s: seq<byte>, off: nat, piece: seq<byte>) {
    off + |piece| <= |s| && s[off..off + |piece|] == piece
  }

  /** The last piece of a concatenation, and one that already lay in its front. */
  lemma LiesLast(a: seq<byte>, piece: seq<byte>)
    ensures Lies(a + piece, |a|, piece)
  {
  }

  lemma LiesFront(a: seq<byte>, off: nat, piece: seq<byte>, b: seq<byte>)
    requires Lies(a, off, piece)
    ensures Lies(a + b, off, piece)
  {
    assert (a + b)[off..off + |piece|] == a[off..off + |piece|];
  }

  /** A piece of a piece. */
  lemma LiesTrans(s: seq<byte>, off: nat, piece: seq<byte>, inner: nat, part: seq<byte>)
    requires Lies(s, off, piece) && Lies(piece, inner, part)
    ensures Lies(s, off + inner, part)
  {
    forall j | 0 <= j < |part|
      ensures s[off + inner + j] == part[j]
    {
      assert s[off..off + |piece|][inner + j] == s[off + inner + j];
      assert piece[inner..inner + |part|][j] == part[j];
    }
  }

  /** Word number i of an encoding can be read back wherever the encoding lies. */
  lemma {:induction false} WordAt(s: seq<byte>, off: nat, ws: seq<Word>, i: nat)
    requires Lies(s, off, Words(ws)) && i < |ws|
    ensures off + 4 * i + 4 <= |s|
    ensures Get32(s, off + 4 * i) == ws[i]
    ensures Get16(s, off + 4 * i) == ws[i] % 0x1_0000
    ensures Get16(s, off + 4 * i + 2) == ws[i] / 0x1_0000
  {
    WordsLies(ws, i);
    LiesTrans(s, off, Words(ws), 4 * i, Le32(ws[i]));
    Le32Inverse(ws[i]);
    var w := s[off + 4 * i..off + 4 * i + 4];
    assert w == Le32(ws[i]);
    assert forall j :: 0 <= j < 4 ==> s[off + 4 * i + j] == w[j];
  }

  lemma {:induction false} WordsLies(ws: seq<Word>, i: nat)
    requires i < |ws|
    ensures Lies(Words(ws), 4 * i, Le32(ws[i]))
  {
    if i > 0 {
      WordsLies(ws[1..], i - 1);
      LiesLast(Le32(ws[0]), Words(ws[1..]));
      LiesTrans(Words(ws), 4, Words(ws[1..]), 4 * (i - 1), Le32(ws[i]));
    }
  }

  lemma {:induction false} WordsConcat(a: seq<Word>, b: seq<Word>)
    ensures Words(a + b) == Words(a) + Words(b)
  {
    if a == [] {
      assert a + b == b;
    } else {
      assert (a + b)[1..] == a[1..] + b;
      WordsConcat(a[1..], b);
    }
  }

  // ----- C strings -----

  /** The bytes from off up to, and without, the first NUL. */
  function CStr(s: seq<byte>, off: nat): (r: seq<byte>)
    ensures 0 !in r
    decreases |s| - off
  {
    if off >= |s| || s[off] == 0 then [] else [s[off]] + CStr(s, off + 1)
  }

  /** A NUL lies at or after off. */
  ghost predicate Terminated(s: seq<byte>, off: nat) {
    exists k :: off <= k < |s| && s[k] == 0
  }

  /** What CStr means: off + |r| is the first NUL. */
  lemma {:induction false} CStrIs(s: seq<byte>, off: nat)
    requires Terminated(s, off)
    ensures var r := CStr(s, off);
            off + |r| < |s| && s[off + |r|] == 0 && s[off..off + |r|] == r
    decreases |s| - off
  {
    if s[off] != 0 {
      CStrIs(s, off + 1);
      var r := CStr(s, off + 1);
      assert s[off..off + 1 + |r|] == [s[off]] + s[off + 1..off + 1 + |r|];
    }
  }

  /** A string followed by its NUL is read back where it was put. */
  lemma {:induction false} CStrOf(a: seq<byte>, r: seq<byte>, b: seq<byte>)
    requires 0 !in r
    ensures CStr(a + r + [0] + b, |a|) == r
    decreases |r|
  {
    var s := a + r + [0] + b;
    if r != [] {
      assert s == (a + [r[0]]) + r[1..] + [0] + b;
      CStrOf(a + [r[0]], r[1..], b);
      assert r[0] in r;
    }
  }

  /** Appending bytes changes no terminated string. */
  lemma {:induction false} CStrStable(s: seq<byte>, t: seq<byte>, off: nat)
    requires Terminated(s, off)
    ensures Terminated(s + t, off) && CStr(s + t, off) == CStr(s, off)
    decreases |s| - off
  {
    var k :| off <= k < |s| && s[k] == 0;
    assert (s + t)[k] == 0;
    if s[off] != 0 {
      CStrStable(s, t, off + 1);
    }
  }

  /** Where a sequence ends in NUL every offset inside it is terminated. */
  lemma EndsTerminated(s: seq<byte>, off: nat)
    requires off < |s| && s[|s| - 1] == 0
    ensures Terminated(s, off)
  {
  }

  /** A bounded copy closed by NUL reads like the bounded bytes themselves. */
  lemma {:induction false} CStrCut(p: seq<byte>, s: seq<byte>, off: nat)
    requires off <= |p| < |s| && s[..|p|] == p && s[|p|] == 0
    ensures CStr(s, off) == CStr(p, off)
    decreases |p| - off
  {
    if off < |p| {
      assert s[..|p|][off] == s[off];
      if p[off] != 0 {
        CStrCut(p, s, off + 1);
      }
    }
  }
}
