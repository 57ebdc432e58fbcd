/** The hexadecimal printers of the kernel log and of the boot loader: the same loop,
    which rotates the number's top digit to the bottom eight times. */
module Hex {
  import opened Common
  import opened Bytes

  type Nibble = x: int | 0 <= x < 16

  /** `rol edi, 4` */
  function Rol4(x: Word): Word {
    x * 0x10 % 0x1_0000_0000 + x / 0x1000_0000
  }

  /** The value of a row of digits, highest first. */
  function Value(ns: seq<Nibble>): nat
    decreases |ns|
  {
    if ns == [] then 0 else Value(ns[..|ns| - 1]) * 16 + ns[|ns| - 1]
  }

  function Nibbles(x: nat, k: nat): (ns: seq<Nibble>)
    ensures |ns| == k
  {
    if k == 0 then [] else Nibbles(x / 16, k - 1) + [x % 16]
  }

  function Pow16(k: nat): (p: nat)
    ensures p > 0
  {
    if k == 0 then 1 else 16 * Pow16(k - 1)
  }

  lemma {:induction false} NibblesValue(x: nat, k: nat)
    requires x < Pow16(k)
    ensures Value(Nibbles(x, k)) == x
  {
    if k > 0 {
      NibblesValue(x / 16, k - 1);
      assert Nibbles(x, k)[..k - 1] == Nibbles(x / 16, k - 1);
    }
  }

  lemma {:induction false} ValueBound(ns: seq<Nibble>)
    ensures Value(ns) < Pow16(|ns|)
    decreases |ns|
  {
    if ns != [] {
      ValueBound(ns[..|ns| - 1]);
    }
  }

  lemma {:induction false} ValueFront(d: Nibble, ns: seq<Nibble>)
    ensures Value([d] + ns) == d * Pow16(|ns|) + Value(ns)
    decreases |ns|
  {
    var s := [d] + ns;
    if ns == [] {
      assert s[..0] == [];
    } else {
      assert s[..|s| - 1] == [d] + ns[..|ns| - 1];
      ValueFront(d, ns[..|ns| - 1]);
      Times16(d, Pow16(|ns| - 1));
    }
  }

  lemma Times16(d: int, p: int)
    ensures d * (16 * p) == d * p * 16
  {
  }

  lemma Pow16Seven()
    ensures Pow16(7) == 0x1000_0000 && Pow16(8) == 0x1_0000_0000
  {
    assert Pow16(4) == 0x1_0000;
  }

  /** Rotating the register rotates its digits. */
  lemma RolRotates(ns: seq<Nibble>)
    requires |ns| == 8
    ensures Value(ns) < 0x1_0000_0000
    ensures Rol4(Value(ns)) == Value(ns[1..] + [ns[0]])
  {
    hide Value, Pow16, Rol4;
    var d, low := ns[0], ns[1..];
    Pow16Seven();
    ValueBound(low);
    assert ns == [d] + low;
    ValueFront(d, low);
    ValueSnoc(low, d);
    RolParts(d, Value(low));
  }

  lemma RolParts(d: Nibble, low: nat)
    requires low < 0x1000_0000
    ensures d * 0x1000_0000 + low < 0x1_0000_0000
    ensures Rol4(d * 0x1000_0000 + low) == low * 16 + d
  {
    var x := d * 0x1000_0000 + low;
    assert x * 0x10 == d * 0x1_0000_0000 + low * 16;
    TopDigit(d, low);
    LowDigits(d, low * 16);
  }

  lemma TopDigit(d: Nibble, low: nat)
    requires low < 0x1000_0000
    ensures (d * 0x1000_0000 + low) / 0x1000_0000 == d
  {
  }

  lemma LowDigits(d: Nibble, rest: nat)
    requires rest < 0x1_0000_0000
    ensures (d * 0x1_0000_0000 + rest) % 0x1_0000_0000 == rest
  {
  }

  function Symbol(d: Nibble): byte {
    if d < 10 then 0x30 + d else 0x41 + (d - 10)
  }

  /** The symbols are "0123456789ABCDEF". */
  lemma SymbolTable(d: Nibble)
    ensures Symbol(d) == [0x30, 0x31, 0x32, 0x33, 0x34, 0x35, 0x36, 0x37, 0x38, 0x39,
                          0x41, 0x42, 0x43, 0x44, 0x45, 0x46][d]
  {
  }

  /** The digit a symbol stands for, in either case of letter. */
  function Digit(c: byte): (d: int)
    ensures d == -1 || 0 <= d < 16
  {
    if 0x30 <= c <= 0x39 then c - 0x30
    else if 0x41 <= c <= 0x46 then c - 0x41 + 10
    else if 0x61 <= c <= 0x66 then c - 0x61 + 10
    else -1
  }

  /** A reader of hexadecimal: digits taken from the front of s. */
  function ParseHex(acc: nat, s: seq<byte>): nat
    decreases |s|
  {
    if s == [] || Digit(s[0]) == -1 then acc else ParseHex(acc * 16 + Digit(s[0]), s[1..])
  }

  function Symbols(ns: seq<Nibble>): (s: seq<byte>)
    ensures |s| == |ns| && forall i :: 0 <= i < |ns| ==> s[i] == Symbol(ns[i])
  {
    seq(|ns|, i requires 0 <= i < |ns| => Symbol(ns[i]))
  }

  lemma DigitOfSymbol(d: Nibble)
    ensures Digit(Symbol(d)) == d
  {
  }

  lemma ValueSnoc(a: seq<Nibble>, d: Nibble)
    ensures Value(a + [d]) == Value(a) * 16 + d
  {
    assert (a + [d])[..|a|] == a;
  }

  lemma ParseStep(acc: nat, d: Nibble, ns: seq<Nibble>)
    ensures ParseHex(acc, Symbols([d] + ns)) == ParseHex(acc * 16 + d, Symbols(ns))
  {
    var s := Symbols([d] + ns);
    DigitOfSymbol(d);
    assert s[0] == Symbol(d);
    assert s[1..] == Symbols(ns);
  }

  lemma {:induction false} ParseSymbols(a: seq<Nibble>, b: seq<Nibble>)
    ensures ParseHex(Value(a), Symbols(b)) == Value(a + b)
    decreases |b|
  {
    hide Value, ParseHex;
    if b == [] {
      assert a + b == a;
      ParseNothing(Value(a));
    } else {
      ParseStep(Value(a), b[0], b[1..]);
      ValueSnoc(a, b[0]);
      ParseSymbols(a + [b[0]], b[1..]);
      assert [b[0]] + b[1..] == b;
      assert a + [b[0]] + b[1..] == a + b;
    }
  }

  lemma ParseNothing(acc: nat)
    ensures ParseHex(acc, Symbols([])) == acc
  {
  }

  const PREFIX: seq<byte> := [0x30, 0x78]

  /** What the printers emit: a prefix, then all eight digits, or a single zero. */
  function HexText(x: Word): seq<byte> {
    PREFIX + (if x == 0 then [0x30] else Symbols(Nibbles(x, 8)))
  }

  /** Parsing what follows the prefix gives the number back. */
  lemma ParseHexText(x: Word)
    ensures HexText(x)[..2] == PREFIX && ParseHex(0, HexText(x)[2..]) == x
  {
    var t := HexText(x)[2..];
    if x == 0 {
      assert t == [0x30] && t[1..] == [];
    } else {
      Pow16Seven();
      NibblesValue(x, 8);
      assert t == Symbols(Nibbles(x, 8));
      ParseSymbols([], Nibbles(x, 8));
      assert [] + Nibbles(x, 8) == Nibbles(x, 8);
    }
  }

  /** The digit loop: eight rotations leave the number as it was and its digits,
      highest first, in the buffer. */
  method FillDigits(number: Word, buffer: array<byte>) returns (edi: Word)
    requires buffer.Length == 9
    modifies buffer
    ensures edi == number
    ensures buffer[..8] == Symbols(Nibbles(number, 8)) && buffer[8] == old(buffer[8])
  {
    edi := number;
    ghost var ns := Nibbles(number, 8);
    Pow16Seven();
    NibblesValue(number, 8);
    hide Nibbles, Value, Pow16, Rol4, Symbol, Turned, Symbols;
    var cl := 0;
    TurnedEnds(ns);
    while cl != 8
      invariant 0 <= cl <= 8
      invariant edi == Value(Turned(ns, cl))
      invariant forall i :: 0 <= i < cl ==> buffer[i] == Symbol(ns[i])
      invariant buffer[8] == old(buffer[8])
    {
      OneTurn(ns, cl);
      edi := Rol4(edi);
      buffer[cl] := Symbol(edi % 16);
      cl := cl + 1;
    }
    SymbolsAre(buffer[..8], ns);
  }

  lemma SymbolsAre(s: seq<byte>, ns: seq<Nibble>)
    requires |s| == |ns| && forall i :: 0 <= i < |ns| ==> s[i] == Symbol(ns[i])
    ensures s == Symbols(ns)
  {
  }

  /** The digits after k turns. */
  function Turned(ns: seq<Nibble>, k: nat): seq<Nibble>
    requires k <= |ns|
  {
    ns[k..] + ns[..k]
  }

  lemma TurnedEnds(ns: seq<Nibble>)
    ensures Turned(ns, 0) == ns && Turned(ns, |ns|) == ns
  {
  }

  /** The register before and after turn cl, as its digits. */
  lemma OneTurn(ns: seq<Nibble>, cl: nat)
    requires |ns| == 8 && cl < 8
    ensures Value(Turned(ns, cl)) < LIMIT
    ensures Rol4(Value(Turned(ns, cl))) == Value(Turned(ns, cl + 1))
    ensures Value(Turned(ns, cl + 1)) % 16 == ns[cl]
  {
    hide Value, Rol4;
    var was := Turned(ns, cl);
    RolRotates(was);
    assert was[1..] + [was[0]] == Turned(ns, cl + 1);
    ValueLast(was[1..] + [was[0]]);
  }

  lemma ValueLast(ns: seq<Nibble>)
    requires ns != []
    ensures Value(ns) % 16 == ns[|ns| - 1]
  {
  }

  /** `_klog_print_hex` and `bios_log_hex`. The buffer's last byte becomes the zero
      that ends the text. */
  method PrintHex(number: Word, buffer: array<byte>) returns (out: seq<byte>)
    requires buffer.Length == 9
    modifies buffer
    ensures out == HexText(number)
  {
    out := PREFIX;
    if number == 0 {
      out := out + [0x30];
    } else {
      var _ := FillDigits(number, buffer);
      buffer[8] := 0;
      SymbolsEnd(Nibbles(number, 8));
      assert buffer[..] == [] + buffer[..8] + [0] + [];
      CStrOf([], buffer[..8], []);
      out := out + CStr(buffer[..], 0);
    }
  }

  lemma SymbolsEnd(ns: seq<Nibble>)
    ensures 0 !in Symbols(ns)
  {
  }
}
