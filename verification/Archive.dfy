/** The archive walker shared by ar and ranlib: 60-byte member headers, names in
    the header or in front of the data, members padded to even length. */
module Archive {
  import opened Bytes
  import opened Decimal

  const HEADER := 60
  const NAME_BUFFER := 255
  const SPACE: byte := 0x20
  const NEWLINE: byte := 0x0A
  const BACKQUOTE: byte := 0x60

  // ----- number fields -----

  predicate IsSpace(c: byte) {
    c == SPACE || 9 <= c <= 13
  }

  function SkipSpaces(s: seq<byte>): seq<byte>
    decreases |s|
  {
    if s != [] && IsSpace(s[0]) then SkipSpaces(s[1..]) else s
  }

  /** `strtol` and `atoi` in base 10: spaces, a sign, digits. */
  function ParseInt(s: seq<byte>): int {
    var t := SkipSpaces(s);
    if t != [] && t[0] == 0x2D then 0 - ParseDigits(0, t[1..])
    else if t != [] && t[0] == 0x2B then ParseDigits(0, t[1..])
    else ParseDigits(0, t)
  }

  /** A numeral and at least one space after it, or nothing, parses to its number. */
  lemma ParseField(n: nat, t: seq<byte>)
    requires t == [] || t[0] == SPACE
    ensures ParseInt(Digits(n) + t) == n
  {
    var s := Digits(n) + t;
    assert s[0] == Digits(n)[0] && IsDigit(s[0]);
    ParsePrinted(n, t);
  }

  function Spaces(n: nat): (s: seq<byte>)
    ensures |s| == n && forall i :: 0 <= i < n ==> s[i] == SPACE
  {
    seq(n, _ => SPACE)
  }

  // ----- reading one header -----

  /** What the walk sees of a member: where its header is, the size left to skip,
      and the name buffer as the C code fills it. */
  datatype Outcome = End | Error | Undefined | Member(offset: nat, size: int, name: seq<byte>, pos: nat)

  /** The name in the header: 16 bytes copied, spaces at their end replaced. */
  function Trimmed(name: seq<byte>, k: nat): seq<byte>
    requires k < |name|
    decreases k
  {
    if name[k] != SPACE then name
    else if k == 0 then name[0 := 0]
    else Trimmed(name[k := 0], k - 1)
  }

  function AllSpaces(s: seq<byte>): bool {
    forall i :: 0 <= i < |s| ==> s[i] == SPACE
  }

  /** `archive_get_entry_hdr` on file f at pos, over the old name buffer. Where the
      C code would leave the buffer the outcome is Undefined. */
  function GetEntry(f: seq<byte>, pos: nat, buf: seq<byte>): Outcome
    requires |buf| == NAME_BUFFER
  {
    var left := if pos < |f| then |f| - pos else 0;
    if left == 0 then End
    else if left < HEADER then Error
    else
      var h := f[pos..pos + HEADER];
      if h[58..60] != [BACKQUOTE, NEWLINE] then Error
      else
        var size := ParseInt(h[48..58]);
        if h[..3] == [0x23, 0x31, 0x2F] then
          var res := ParseInt(h[3..]);
          if !(0 <= res < NAME_BUFFER) then Undefined
          else
            var got := if left - HEADER < res then left - HEADER else res;
            var name := f[pos + HEADER..pos + HEADER + got] + buf[got..];
            Member(pos, size - res, name[res := 0], pos + HEADER + got)
        else if AllSpaces(h[..16]) then Undefined
        else Member(pos, size, Trimmed(h[..16] + buf[16..], 15), pos + HEADER)
  }

  /** `archive_skip_entry`: past the rest of the member and a padding byte; a seek
      to before the file fails and moves nothing. */
  function Skip(pos: nat, size: int): nat {
    var to := pos + size + (if size % 2 != 0 then 1 else 0);
    if to < 0 then pos else to
  }

  const LOCAL: seq<byte> := [0x23, 0x31, 0x2F]

  /** Bytes from..to of s are spaces. */
  predicate SpacesIn(s: seq<byte>, from: nat, to: nat)
    requires to <= |s|
  {
    forall j :: from <= j < to ==> s[j] == 0x20
  }

  lemma {:induction false} SpacesCut(f: seq<byte>, pos: nat, h: seq<byte>, from: nat, to: nat)
    requires pos + |h| <= |f| && f[pos..pos + |h|] == h && from <= to <= |h|
    ensures SpacesIn(h, from, to) <==> SpacesIn(f, pos + from, pos + to)
  {
    assert forall j :: 0 <= j < |h| ==> h[j] == f[pos + j];
    if SpacesIn(h, from, to) {
      forall j | pos + from <= j < pos + to
        ensures f[j] == 0x20
      {
        assert h[j - pos] == f[j];
      }
    }
  }

  /** What a read answers on any bytes: the end where none are left, an error where fewer
      than 60 are or the header does not close with 0x60 0x0A; and it leaves the name
      buffer where an extended name would be 255 bytes or more, or negative, or where the
      16 bytes of a header name are all spaces. */
  lemma {:induction false} EntryOutcome(f: seq<byte>, pos: nat, buf: seq<byte>)
    requires |buf| == NAME_BUFFER
    ensures var e := GetEntry(f, pos, buf);
            && (e.End? <==> |f| <= pos)
            && (e.Error? <==> pos < |f| && (|f| < pos + 60 || f[pos + 58] != 0x60 || f[pos + 59] != 0x0A))
            && (e.Undefined? <==>
                  && pos + 60 <= |f| && f[pos + 58] == 0x60 && f[pos + 59] == 0x0A
                  && if f[pos..pos + 3] == LOCAL then !(0 <= ParseInt(f[pos + 3..pos + 60]) < 255)
                     else SpacesIn(f, pos, pos + 16))
  {
    hide ParseInt, Trimmed;
    if pos + 60 <= |f| {
      var h := f[pos..pos + 60];
      HeaderSlices(f, pos);
      SpacesCut(f, pos, h, 0, 16);
      assert AllSpaces(h[..16]) <==> SpacesIn(h, 0, 16);
    }
  }

  /** And what it finds of a member with an extended name: the number in bytes 48 to 57
      of the header less the length of the name, and after the header the name, as much
      of it as there is, closed by a NUL at its length. */
  lemma {:induction false} ExtendedFields(f: seq<byte>, pos: nat, buf: seq<byte>)
    requires |buf| == NAME_BUFFER && GetEntry(f, pos, buf).Member?
    requires pos + 60 <= |f| && f[pos..pos + 3] == LOCAL
    ensures var e := GetEntry(f, pos, buf);
            var n := ParseInt(f[pos + 3..pos + 60]);
            var got := if pos + 60 + n <= |f| then n else |f| - pos - 60;
            && 0 <= n < 255 && e.size == ParseInt(f[pos + 48..pos + 58]) - n && e.pos == pos + 60 + got
            && |e.name| == 255 && e.name[..got] == f[pos + 60..pos + 60 + got] && e.name[n] == 0
  {
    hide ParseInt, Trimmed, AllSpaces;
    HeaderSlices(f, pos);
    var n, left := ParseInt(f[pos + 3..pos + 60]), |f| - pos - 60;
    var got := if left < n then left else n;
    FrontKept(f[pos + 60..pos + 60 + got], buf[got..], n);
  }

  /** The parts of a header are parts of the file. */
  lemma HeaderSlices(f: seq<byte>, pos: nat)
    requires pos + 60 <= |f|
    ensures var h := f[pos..pos + 60];
            && h[..3] == f[pos..pos + 3] && h[3..] == f[pos + 3..pos + 60] && h[48..58] == f[pos + 48..pos + 58]
            && h[58..60] == [f[pos + 58], f[pos + 59]]
  {
    var h := f[pos..pos + 60];
    LiesPart(f, pos, h, 0, 3);
    LiesPart(f, pos, h, 3, 60);
    LiesPart(f, pos, h, 48, 58);
    LiesPart(f, pos, h, 58, 60);
  }

  lemma FrontKept(a: seq<byte>, b: seq<byte>, n: nat)
    requires |a| <= n < |a| + |b|
    ensures (a + b)[n := 0][..|a|] == a && (a + b)[n := 0][n] == 0
  {
  }

  /** Of any other member: the number, and the header's first 16 bytes with the spaces at
      their end replaced. */
  lemma {:induction false} HeaderFields(f: seq<byte>, pos: nat, buf: seq<byte>)
    requires |buf| == NAME_BUFFER && GetEntry(f, pos, buf).Member?
    requires pos + 60 <= |f| && f[pos..pos + 3] != LOCAL
    ensures var e := GetEntry(f, pos, buf);
            && e.size == ParseInt(f[pos + 48..pos + 58]) && e.pos == pos + 60 && |e.name| == 255
            && forall i :: 0 <= i < 16 ==> e.name[i] == if SpacesIn(f, pos + i, pos + 16) then 0 else f[pos + i]
  {
    hide ParseInt, Trimmed, AllSpaces, SpacesIn;
    HeaderSlices(f, pos);
    var h := f[pos..pos + 60];
    var name := h[..16] + buf[16..];
    TrimmedKeeps(name, 15);
    forall i | 0 <= i < 16
      ensures Trimmed(name, 15)[i] == if SpacesIn(f, pos + i, pos + 16) then 0 else f[pos + i]
    {
      TrimmedIs(name, 15, i);
      SpacesCut(f, pos, h, i, 16);
      FrontSpaces(h, buf, i);
    }
  }

  lemma FrontSpaces(h: seq<byte>, buf: seq<byte>, i: nat)
    requires |h| == 60 && |buf| == NAME_BUFFER && i < 16
    ensures var name := h[..16] + buf[16..];
            name[i] == h[i] && (SpacesIn(name, i, 16) <==> SpacesIn(h, i, 16))
  {
    var name := h[..16] + buf[16..];
    assert forall j :: i <= j < 16 ==> name[j] == h[j];
  }

  /** Trimming, byte by byte. */
  lemma {:induction false} TrimmedIs(name: seq<byte>, k: nat, i: nat)
    requires k < |name| && i <= k
    ensures |Trimmed(name, k)| == |name|
    ensures Trimmed(name, k)[i] == if SpacesIn(name, i, k + 1) then 0 else name[i]
    decreases k
  {
    if name[k] == SPACE && k > 0 {
      var name' := name[k := 0];
      if i < k {
        TrimmedIs(name', k - 1, i);
        SpacesStep(name, k, i);
      } else {
        TrimmedKeeps(name', k - 1);
      }
    }
  }

  lemma {:induction false} SpacesStep(name: seq<byte>, k: nat, i: nat)
    requires i < k < |name|
    ensures SpacesIn(name, i, k + 1) <==> name[k] == 0x20 && SpacesIn(name[k := 0], i, k)
  {
    var name' := name[k := 0];
    assert forall j :: i <= j < k ==> name'[j] == name[j];
  }

  /** Spaces before a number are passed over. */
  lemma {:induction false} ParsePadded(k: nat, s: seq<byte>)
    requires s == [] || !IsSpace(s[0])
    ensures ParseInt(Spaces(k) + s) == ParseInt(s)
  {
    Skipped(k, s);
  }

  lemma {:induction false} Skipped(k: nat, s: seq<byte>)
    requires s == [] || !IsSpace(s[0])
    ensures SkipSpaces(Spaces(k) + s) == s == SkipSpaces(s)
  {
    var t := Spaces(k) + s;
    if k == 0 {
      assert t == s;
    } else {
      assert t[0] == SPACE && t[1..] == Spaces(k - 1) + s;
      Skipped(k - 1, s);
    }
  }

  /** Signs, as `strtol` reads them. */
  lemma {:induction false} ParseSigned(n: nat, t: seq<byte>)
    requires t == [] || !IsDigit(t[0])
    ensures ParseInt([0x2D] + Digits(n) + t) + n == 0 && ParseInt([0x2B] + Digits(n) + t) == n
  {
    ParsePrinted(n, t);
    var minus, plus := [0x2D] + Digits(n) + t, [0x2B] + Digits(n) + t;
    assert minus[1..] == Digits(n) + t && plus[1..] == Digits(n) + t;
  }

  /** Of a size that is not negative, the skip is the least even number that covers it. */
  lemma {:induction false} SkipEven(pos: nat, size: nat)
    ensures var k := Skip(pos, size) - pos; size <= k < size + 2 && k % 2 == 0
  {
  }

  /** A read entry moves on by a header at least, and so does the whole step when
      its size is not negative: the walk ends. */
  lemma EntryAdvances(f: seq<byte>, pos: nat, buf: seq<byte>)
    requires |buf| == NAME_BUFFER && GetEntry(f, pos, buf).Member?
    ensures var e := GetEntry(f, pos, buf);
            pos + HEADER <= e.pos <= |f| && e.offset == pos && |e.name| == NAME_BUFFER
    ensures var e := GetEntry(f, pos, buf);
            e.size >= 0 ==> Skip(e.pos, e.size) >= pos + HEADER
  {
    if f[pos..pos + HEADER][..3] != [0x23, 0x31, 0x2F] {
      TrimmedKeeps(f[pos..pos + HEADER][..16] + buf[16..], 15);
    }
  }

  lemma {:induction false} TrimmedKeeps(name: seq<byte>, k: nat)
    requires k < |name|
    ensures |Trimmed(name, k)| == |name|
    ensures forall i :: k < i < |name| ==> Trimmed(name, k)[i] == name[i]
    decreases k
  {
    if name[k] == SPACE && k > 0 {
      TrimmedKeeps(name[k := 0], k - 1);
    }
  }

  // ----- writing one member -----

  /** A member to store: the header's 32 bytes of date, owner and mode are free. */
  datatype Item = Item(name: seq<byte>, data: seq<byte>, meta: seq<byte>, extended: bool) {
    /** Length of what follows the header. */
    function Body(): nat {
      |data| + (if extended then |name| else 0)
    }
  }

  ghost predicate Storable(m: Item) {
    && |m.meta| == 32 && m.Body() < Pow10(10)
    && m.name != [] && 0 !in m.name
    && if m.extended then |m.name| < NAME_BUFFER
       else |m.name| <= 16 && m.name[|m.name| - 1] != SPACE && !([0x23, 0x31, 0x2F] <= m.name)
  }

  function NameField(m: Item): seq<byte> {
    var text := if m.extended then [0x23, 0x31, 0x2F] + Digits(|m.name|) else m.name;
    if |text| <= 16 then text + Spaces(16 - |text|) else text[..16]
  }

  function SizeField(m: Item): seq<byte> {
    var text := Digits(m.Body());
    if |text| <= 10 then text + Spaces(10 - |text|) else text[..10]
  }

  function Header(m: Item): seq<byte> {
    NameField(m) + m.meta + SizeField(m) + [BACKQUOTE, NEWLINE]
  }

  /** Header, name if extended, data, and a newline up to an even length. */
  function Stored(m: Item): seq<byte> {
    Header(m) + (if m.extended then m.name else []) + m.data + (if m.Body() % 2 != 0 then [NEWLINE] else [])
  }

  lemma FieldSizes(m: Item)
    requires Storable(m)
    ensures |NameField(m)| == 16 && |SizeField(m)| == 10 && |Header(m)| == HEADER
    ensures m.extended ==> |Digits(|m.name|)| <= 3
    ensures |Digits(m.Body())| <= 10
  {
    DigitCount(m.Body(), 10);
    if m.extended {
      assert Pow10(3) == 1000;
      DigitCount(|m.name|, 3);
    }
  }

  /** The fields of a stored header, cut out again. */
  lemma HeaderCuts(m: Item)
    requires Storable(m)
    ensures var h := Header(m);
            |h| == HEADER && h[..16] == NameField(m) && h[48..58] == SizeField(m) && h[58..60] == [BACKQUOTE, NEWLINE]
    ensures ParseInt(Header(m)[48..58]) == m.Body()
  {
    FieldSizes(m);
    var h := Header(m);
    assert h[48..58] == SizeField(m);
    ParseField(m.Body(), Spaces(10 - |Digits(m.Body())|));
  }

  lemma ExtendedName(m: Item)
    requires Storable(m) && m.extended
    ensures var h := Header(m);
            |h| == HEADER && h[..3] == [0x23, 0x31, 0x2F] && ParseInt(h[3..]) == |m.name|
  {
    hide ParseInt, SizeField, Digits;
    FieldSizes(m);
    var h, d := Header(m), Digits(|m.name|);
    ExtendedField(m);
    hide NameField, Spaces;
    var tail := Spaces(13 - |d|) + (m.meta + SizeField(m) + [BACKQUOTE, NEWLINE]);
    Regrouped([0x23, 0x31, 0x2F], d, Spaces(13 - |d|), m.meta, SizeField(m), [BACKQUOTE, NEWLINE]);
    CutThree(h, [0x23, 0x31, 0x2F], d + tail);
    ParseField(|m.name|, tail);
  }

  lemma ExtendedField(m: Item)
    requires Storable(m) && m.extended && |Digits(|m.name|)| <= 3
    ensures NameField(m) == [0x23, 0x31, 0x2F] + Digits(|m.name|) + Spaces(13 - |Digits(|m.name|)|)
  {
    hide Digits;
  }

  lemma Regrouped(a: seq<byte>, b: seq<byte>, c: seq<byte>, d: seq<byte>, e: seq<byte>, g: seq<byte>)
    ensures a + b + c + d + e + g == a + (b + (c + (d + e + g)))
  {
  }

  lemma CutThree(h: seq<byte>, a: seq<byte>, rest: seq<byte>)
    requires |a| == 3 && h == a + rest
    ensures h[..3] == a && h[3..] == rest
  {
  }

  lemma ShortName(m: Item)
    requires Storable(m) && !m.extended
    ensures var h := Header(m);
            && |h| == HEADER && h[..16] == m.name + Spaces(16 - |m.name|)
            && h[..3] != [0x23, 0x31, 0x2F] && !AllSpaces(h[..16])
  {
    FieldSizes(m);
    var h := Header(m);
    assert h[..16] == NameField(m);
    assert h[..16][|m.name| - 1] == m.name[|m.name| - 1];
    assert h[..3] == NameField(m)[..3];
    if |m.name| >= 3 {
      assert h[..3] == m.name[..3];
    } else {
      assert h[..3][2] == SPACE;
    }
  }

  /** Trimming stops at the last byte that is no space. */
  lemma {:induction false} TrimsTo(name: seq<byte>, k: nat, n: nat)
    requires 0 < n <= k + 1 <= |name| && name[n - 1] != SPACE
    requires forall i :: n <= i <= k ==> name[i] == SPACE
    ensures Trimmed(name, k) == name[..n] + seq(k + 1 - n, _ => 0) + name[k + 1..]
    decreases k
  {
    if k + 1 > n {
      var name' := name[k := 0];
      TrimsTo(name', k - 1, n);
      assert name'[..n] == name[..n];
      assert name'[k..] == [0] + name[k + 1..];
      assert seq(k - n, _ => 0 as byte) + [0] == seq(k + 1 - n, _ => 0 as byte);
    } else {
      assert seq(0, _ => 0 as byte) == [];
      assert name == name[..n] + name[n..];
    }
  }

  /** The header and the name after it, where a stored member lies. */
  lemma StoredCuts(f: seq<byte>, pos: nat, m: Item)
    requires Storable(m) && Lies(f, pos, Stored(m))
    ensures pos + HEADER + m.Body() <= |f| && f[pos..pos + HEADER] == Header(m)
    ensures m.extended ==> f[pos + HEADER..pos + HEADER + |m.name|] == m.name
  {
    hide Digits, NameField, SizeField;
    var st := Stored(m);
    assert |Header(m)| == HEADER by { FieldSizes(m); }
    var name := if m.extended then m.name else [];
    CutFront(Header(m), name, m.data, if m.Body() % 2 != 0 then [NEWLINE] else []);
    hide Stored, Header, Lies;
    LiesPart(f, pos, st, 0, HEADER);
    LiesPart(f, pos, st, HEADER, HEADER + |name|);
  }

  lemma CutFront(h: seq<byte>, name: seq<byte>, data: seq<byte>, pad: seq<byte>)
    ensures var st := h + name + data + pad;
            st[..|h|] == h && st[|h|..|h| + |name|] == name && |st| == |h| + |name| + |data| + |pad|
  {
    assert h + name + data + pad == h + (name + (data + pad));
  }

  lemma LiesPart(f: seq<byte>, pos: nat, st: seq<byte>, a: nat, b: nat)
    requires Lies(f, pos, st) && a <= b <= |st|
    ensures pos + b <= |f| && f[pos + a..pos + b] == st[a..b]
  {
    var g := f[pos..pos + |st|];
    assert g == st;
    assert |g[a..b]| == b - a;
    var x, y := f[pos + a..pos + b], g[a..b];
    forall i | 0 <= i < b - a ensures x[i] == y[i] {
      assert y[i] == g[a + i];
    }
    assert x == y;
  }

  /** What the walk reads back of a stored member. */
  lemma ReadStored(f: seq<byte>, pos: nat, m: Item, buf: seq<byte>)
    requires Storable(m) && Lies(f, pos, Stored(m)) && |buf| == NAME_BUFFER
    ensures var e := GetEntry(f, pos, buf);
            && e.Member? && e.offset == pos && e.size == |m.data|
            && e.pos == pos + HEADER + (if m.extended then |m.name| else 0)
            && e.name == if m.extended then (m.name + buf[|m.name|..])[|m.name| := 0]
                         else m.name + seq(16 - |m.name|, _ => 0) + buf[16..]
  {
    hide Digits, NameField, SizeField, Header, Stored, ParseInt, Lies, Trimmed;
    StoredCuts(f, pos, m);
    HeaderCuts(m);
    var h := Header(m);
    if m.extended {
      ExtendedName(m);
    } else {
      ShortName(m);
      var name := h[..16] + buf[16..];
      assert name[..|m.name|] == m.name && name[16..] == buf[16..];
      TrimsTo(name, 15, |m.name|);
    }
  }

  /** The name read back is the stored one exactly if it was extended, or shorter
      than the 16 bytes of the field, or the old buffer happened to end it there. */
  lemma NameRightIff(f: seq<byte>, pos: nat, m: Item, buf: seq<byte>)
    requires Storable(m) && Lies(f, pos, Stored(m)) && |buf| == NAME_BUFFER
    ensures GetEntry(f, pos, buf).Member?
    ensures CStr(GetEntry(f, pos, buf).name, 0) == m.name <==> m.extended || |m.name| < 16 || buf[16] == 0
  {
    hide Digits, Stored, GetEntry, Lies;
    ReadStored(f, pos, m, buf);
    var name := GetEntry(f, pos, buf).name;
    if m.extended || |m.name| < 16 {
      assert name == [] + m.name + [0] + name[|m.name| + 1..];
      CStrOf([], m.name, name[|m.name| + 1..]);
    } else {
      assert name == m.name + buf[16..];
      CStrFrom(m.name, buf[16..]);
      if buf[16] != 0 {
        assert |CStr(buf[16..], 0)| > 0;
        assert |CStr(name, 0)| > 16;
      }
    }
  }

  /** A string that runs past a piece goes on in what follows it. */
  lemma CStrFrom(a: seq<byte>, b: seq<byte>)
    requires 0 !in a
    ensures CStr(a + b, 0) == a + CStr(b, 0)
  {
    CStrAcross(a, b, 0);
    assert a[0..] == a;
  }

  lemma {:induction false} CStrAcross(a: seq<byte>, b: seq<byte>, i: nat)
    requires 0 !in a && i <= |a|
    ensures CStr(a + b, i) == a[i..] + CStr(b, 0)
    decreases |a| - i
  {
    if i < |a| {
      assert (a + b)[i] == a[i] && a[i] in a;
      CStrAcross(a, b, i + 1);
      assert a[i..] == [a[i]] + a[i + 1..];
    } else {
      CStrDrop(a, b, 0);
      assert a[i..] == [];
    }
  }

  lemma {:induction false} CStrDrop(a: seq<byte>, b: seq<byte>, i: nat)
    requires i <= |b|
    ensures CStr(a + b, |a| + i) == CStr(b, i)
    decreases |b| - i
  {
    if i < |b| && b[i] != 0 {
      CStrDrop(a, b, i + 1);
    }
  }

  /** Skipping lands on the next member exactly if no odd-length name preceded the
      data: the code pads by the data's parity, the format by the body's. */
  lemma SkipRightIff(f: seq<byte>, pos: nat, m: Item, buf: seq<byte>)
    requires Storable(m) && Lies(f, pos, Stored(m)) && |buf| == NAME_BUFFER
    ensures var e := GetEntry(f, pos, buf);
            e.Member? && (Skip(e.pos, e.size) == pos + |Stored(m)| <==> !m.extended || |m.name| % 2 == 0)
  {
    hide Digits, GetEntry, Lies, NameField, SizeField, Header;
    ReadStored(f, pos, m, buf);
    FieldSizes(m);
    Parity(|m.data|, |m.name|);
  }

  const META: seq<byte> := seq(32, _ => SPACE)

  /** An empty member with a one-letter extended name: the walk ends up on the
      padding byte instead of past it. */
  lemma OddNameMisread(buf: seq<byte>)
    requires |buf| == NAME_BUFFER
    ensures var m := Item([0x61], [], META, true);
            var e := GetEntry(Stored(m), 0, buf);
            Storable(m) && e.Member? && Skip(e.pos, e.size) == |Stored(m)| - 1
  {
    var m := Item([0x61], [], META, true);
    SmallStorable(m);
    FieldSizes(m);
    hide GetEntry, Header;
    ReadStored(Stored(m), 0, m, buf);
  }

  lemma SmallStorable(m: Item)
    requires |m.data| + |m.name| < 100 && m.meta == META && m.name != [] && 0 !in m.name
    requires m.extended || (|m.name| <= 16 && m.name[|m.name| - 1] != SPACE && m.name[0] != 0x23)
    ensures Storable(m) && Lies(Stored(m), 0, Stored(m))
  {
    assert Pow10(2) == 100 && Pow10(4) == 10000 && Pow10(10) > 100;
  }

  /** A name of sixteen letters read after a longer one. */
  lemma LongNameMisread()
    ensures var m := Item(seq(16, _ => 0x61), [], META, false);
            var e := GetEntry(Stored(m), 0, seq(NAME_BUFFER, _ => 0x78));
            Storable(m) && e.Member? && CStr(e.name, 0) != m.name
  {
    var m := Item(seq(16, _ => 0x61), [], META, false);
    SmallStorable(m);
    NameRightIff(Stored(m), 0, m, seq(NAME_BUFFER, _ => 0x78));
  }

  lemma Parity(a: int, b: int)
    ensures (a + b) % 2 == 0 <==> a % 2 == b % 2
  {}

  // ----- whole archives -----

  /** Members the code reads back faithfully. */
  ghost predicate Plain(m: Item) {
    Storable(m) && (if m.extended then |m.name| % 2 == 0 else |m.name| < 16)
  }

  function StoredAll(items: seq<Item>): seq<byte>
    decreases |items|
  {
    if items == [] then [] else Stored(items[0]) + StoredAll(items[1..])
  }

  /** What ranlib's loop reports of a member. */
  datatype Listing = Listing(name: seq<byte>, size: int, offset: nat)

  /** Header, report, skip, until the end of the file or a broken header. A negative
      size may take the position back to the header or before it; the walk is
      followed up to there. */
  function Walk(f: seq<byte>, pos: nat, buf: seq<byte>): seq<Listing>
    requires |buf| == NAME_BUFFER
    decreases if pos < |f| then |f| - pos else 0
  {
    var e := GetEntry(f, pos, buf);
    if !e.Member? || Skip(e.pos, e.size) <= pos then []
    else
      EntryAdvances(f, pos, buf);
      [Listing(CStr(e.name, 0), e.size, e.offset)] + Walk(f, Skip(e.pos, e.size), e.name)
  }

  lemma WalkStep(f: seq<byte>, pos: nat, buf: seq<byte>)
    requires |buf| == NAME_BUFFER
    ensures var e := GetEntry(f, pos, buf);
            && (e.Member? ==> pos + HEADER <= e.pos <= |f| && |e.name| == NAME_BUFFER)
            && Walk(f, pos, buf) ==
               if !e.Member? || Skip(e.pos, e.size) <= pos then []
               else [Listing(CStr(e.name, 0), e.size, e.offset)] + Walk(f, Skip(e.pos, e.size), e.name)
  {
    if GetEntry(f, pos, buf).Member? { EntryAdvances(f, pos, buf); }
  }

  function Listings(items: seq<Item>, pos: nat): seq<Listing>
    decreases |items|
  {
    if items == [] then []
    else [Listing(items[0].name, |items[0].data|, pos)] + Listings(items[1..], pos + |Stored(items[0])|)
  }

  /** One member of a stored archive, read and skipped. */
  lemma WalkMember(f: seq<byte>, pos: nat, m: Item, buf: seq<byte>)
    requires |buf| == NAME_BUFFER && Plain(m) && Lies(f, pos, Stored(m))
    ensures |Stored(m)| > 0
    ensures var e := GetEntry(f, pos, buf);
            && e.Member? && |e.name| == NAME_BUFFER
            && Walk(f, pos, buf)
               == [Listing(m.name, |m.data|, pos)] + Walk(f, pos + |Stored(m)|, e.name)
  {
    hide GetEntry, Lies, CStr, Walk, NameField, SizeField, Header;
    ReadStored(f, pos, m, buf);
    NameRightIff(f, pos, m, buf);
    SkipRightIff(f, pos, m, buf);
    WalkStep(f, pos, buf);
    FieldSizes(m);
  }

  /** A sequence cut into a piece and the rest. */
  lemma PieceLies(f: seq<byte>, pos: nat, piece: seq<byte>, rest: seq<byte>)
    requires pos <= |f| && f[pos..] == piece + rest
    ensures Lies(f, pos, piece) && pos + |piece| <= |f| && f[pos + |piece|..] == rest
  {
    assert f[pos..pos + |piece|] == f[pos..][..|piece|] == piece;
    assert f[pos + |piece|..] == f[pos..][|piece|..] == rest;
  }

  /** Walking a stored archive reports exactly its members, in order, with their
      names, data sizes and positions, whatever the name buffer held before. */
  lemma {:induction false} WalkStored(f: seq<byte>, pos: nat, items: seq<Item>, buf: seq<byte>)
    requires |buf| == NAME_BUFFER && pos <= |f| && f[pos..] == StoredAll(items)
    requires forall i :: 0 <= i < |items| ==> Plain(items[i])
    ensures Walk(f, pos, buf) == Listings(items, pos)
    decreases |items|
  {
    hide GetEntry, Stored, Lies, Plain;
    if items == [] {
      WalkStep(f, pos, buf);
      EndsThere(f, pos, buf);
    } else {
      hide Walk;
      PieceLies(f, pos, Stored(items[0]), StoredAll(items[1..]));
      WalkMember(f, pos, items[0], buf);
      WalkStored(f, pos + |Stored(items[0])|, items[1..], GetEntry(f, pos, buf).name);
    }
  }

  lemma EndsThere(f: seq<byte>, pos: nat, buf: seq<byte>)
    requires |buf| == NAME_BUFFER && pos <= |f| && f[pos..] == []
    ensures GetEntry(f, pos, buf) == End
  {
    assert |f[pos..]| == |f| - pos;
  }

  // ----- the code -----

  class Reader {
    const f: seq<byte>
    var pos: nat
    const name: array<byte>      // entry_hdr->name, reused from entry to entry

    constructor (f: seq<byte>)
      ensures this.f == f && pos == 8 && name.Length == NAME_BUFFER && fresh(name)
    {
      this.f, pos, name := f, 8, new byte[NAME_BUFFER];
    }

    /** `read_data`: as many bytes as asked for, or as many as there are. */
    method ReadData(size: nat) returns (bytes: seq<byte>)
      modifies this`pos
      ensures var left := if old(pos) < |f| then |f| - old(pos) else 0;
              var n := if left < size then left else size;
              && pos == old(pos) + n
              && (n > 0 ==> old(pos) + n <= |f| && bytes == f[old(pos)..old(pos) + n]) && (n == 0 ==> bytes == [])
    {
      var left := if pos < |f| then |f| - pos else 0;
      var n := if left < size then left else size;
      bytes := if n == 0 then [] else f[pos..pos + n];
      pos := pos + n;
    }

    /** Bytes copied to the front of the name buffer. */
    method CopyName(bytes: seq<byte>)
      requires |bytes| <= name.Length
      modifies name
      ensures name[..] == bytes + old(name[..])[|bytes|..]
    {
      forall i | 0 <= i < |bytes| {
        name[i] := bytes[i];
      }
    }

    /** The loop that takes the spaces off the end of a 16-byte name. */
    method TrimName()
      requires name.Length == NAME_BUFFER && !AllSpaces(name[..16])
      modifies name
      ensures name[..] == Trimmed(old(name[..]), 15)
    {
      var tmp := 15;
      ghost var w :| 0 <= w < 16 && name[..16][w] != SPACE;
      while name[tmp] == SPACE
        invariant 0 <= w <= tmp <= 15 && name[w] != SPACE
        invariant Trimmed(name[..], tmp) == Trimmed(old(name[..]), 15)
        decreases tmp
      {
        ghost var was := name[..];
        name[tmp] := 0;
        assert name[..] == was[tmp := 0];
        tmp := tmp - 1;
      }
    }

    /** `archive_get_entry_hdr` */
    method GetEntryHdr() returns (e: Outcome)
      requires name.Length == NAME_BUFFER
      modifies this`pos, name
      ensures e == GetEntry(f, old(pos), old(name[..]))
      ensures e.Member? ==> pos == e.pos && name[..] == e.name
    {
      hide ParseInt, Trimmed;
      ghost var buf := name[..];
      var offset := pos;
      var hdr := ReadData(HEADER);
      if |hdr| != HEADER {
        return if |hdr| == 0 then End else Error;
      }
      if hdr[58..60] != [BACKQUOTE, NEWLINE] { return Error; }
      var size := ParseInt(hdr[48..58]);
      if hdr[..3] == [0x23, 0x31, 0x2F] {
        var res := ParseInt(hdr[3..]);
        if !(0 <= res < NAME_BUFFER) { return Undefined; }
        var got := ReadData(res);
        CopyName(got);
        name[res] := 0;
        assert name[..] == (got + buf[|got|..])[res := 0];
        size := size - res;
      } else {
        if AllSpaces(hdr[..16]) { return Undefined; }
        CopyName(hdr[..16]);
        assert name[..16] == hdr[..16];
        TrimName();
      }
      e := Member(offset, size, name[..], pos);
    }

    /** ranlib's loop over the archive. */
    method WalkAll() returns (out: seq<Listing>)
      requires name.Length == NAME_BUFFER
      modifies this`pos, name
      ensures out == Walk(f, old(pos), old(name[..]))
    {
      hide GetEntry, Walk, CStr, Skip, AllSpaces;
      out := [];
      ghost var all := Walk(f, pos, name[..]);
      assert [] + all == all;
      while true
        invariant name.Length == NAME_BUFFER && out + Walk(f, pos, name[..]) == all
        decreases if pos < |f| then |f| - pos else 0
      {
        var start := pos;
        WalkStep(f, pos, name[..]);
        var e := GetEntryHdr();
        if !e.Member? || Skip(e.pos, e.size) <= start {
          assert out + [] == out;
          return;
        }
        pos := Skip(pos, e.size);
        var one := Listing(CStr(e.name, 0), e.size, e.offset);
        Prepended(out, one, Walk(f, pos, e.name));
        out := out + [one];
      }
    }
  }

  lemma Prepended(out: seq<Listing>, one: Listing, rest: seq<Listing>)
    ensures out + ([one] + rest) == out + [one] + rest
  {
  }
}
