/** What fas2sym should produce, stated on the FAS tables alone, and what its
    export loop builds. */
module FasSpec {
  import opened Common
  import opened Bytes
  import opened ElfSpec

  const FAS_SYM_DEF := 1
  const FAS_SYM_ASM_TIME := 2
  const HIGH_BIT := 0x8000_0000

  datatype FasSym = FasSym(value: nat, flags: nat, size: byte, nameOff: Word)

  /** The tables loaded from a FAS file. */
  datatype Fas = Fas(strtab: seq<byte>, psrc: seq<byte>, syms: seq<FasSym>, inputName: nat)

  /** Defined, and not a symbol of assembly time only. */
  predicate Exported(s: FasSym) {
    s.flags / FAS_SYM_DEF % 2 == 1 && s.flags / FAS_SYM_ASM_TIME % 2 == 0
  }

  /** A name the C code can read without leaving its table. */
  ghost predicate NameReadable(fas: Fas, off: Word) {
    || off == 0
    || (off >= HIGH_BIT && Terminated(fas.strtab, off - HIGH_BIT))
    || (off < HIGH_BIT && off < |fas.psrc| && off + 1 + fas.psrc[off] as int <= |fas.psrc|)
  }

  ghost predicate Readable(fas: Fas) {
    && Terminated(fas.strtab, fas.inputName)
    && forall i :: 0 <= i < |fas.syms| && Exported(fas.syms[i]) ==> NameReadable(fas, fas.syms[i].nameOff)
  }

  /** The name a symbol should have: none, a C string of the string table, or a
      counted string of the preprocessed source read as a C string. */
  function Name(fas: Fas, off: Word): (r: seq<byte>)
    requires NameReadable(fas, off)
    ensures 0 !in r
  {
    if off == 0 then []
    else if off >= HIGH_BIT then CStr(fas.strtab, off - HIGH_BIT)
    else CStr(fas.psrc[off + 1..off + 1 + fas.psrc[off] as int], 0)
  }

  // ----- the intended symbol list -----

  const NULL_RSYM := RSym([], 0, 0, 0, 0)

  /** The null symbol, the file symbol, then the exported ones in order. */
  function Expected(fas: Fas, n: nat): seq<RSym>
    requires Readable(fas) && n <= |fas.syms|
  {
    if n == 0 then [NULL_RSYM, RSym(CStr(fas.strtab, fas.inputName), 0, 0, STT_FILE, SHN_ABS)]
    else
      var s := fas.syms[n - 1];
      Expected(fas, n - 1) +
      if Exported(s) then [RSym(Name(fas, s.nameOff), Low32(s.value), s.size, STT_OBJECT, SHN_ABS)] else []
  }

  /** A symbol is exported if bit 0 of its flags, defined, is set and bit 1, assembly
      time, is not. */
  lemma {:induction false} ExportedIff(s: FasSym)
    ensures Exported(s) <==> s.flags % 4 == 1
  {
    TwoBits(s.flags);
  }

  lemma {:induction false} TwoBits(f: nat)
    ensures f % 4 == f % 2 + 2 * (f / 2 % 2)
  {
    var q := f / 4;
    assert f / 2 == 2 * q + f % 4 / 2;
  }

  /** A counted string in the preprocessed source: its length, then its bytes. */
  ghost predicate CountedAt(psrc: seq<byte>, off: nat, s: seq<byte>) {
    off < |psrc| && psrc[off] as int == |s| && off + 1 + |s| <= |psrc| && psrc[off + 1..off + 1 + |s|] == s
  }

  /** A string in the string table: its bytes, then a NUL. */
  ghost predicate StringAt(strtab: seq<byte>, off: nat, s: seq<byte>) {
    off + |s| < |strtab| && strtab[off..off + |s|] == s && strtab[off + |s|] == 0
  }

  /** What a name offset spells: nothing at 0, a string of the string table with the
      top bit set, a counted string otherwise. */
  ghost predicate Spells(fas: Fas, off: Word, name: seq<byte>) {
    && 0 !in name
    && if off == 0 then name == []
       else if off >= 0x8000_0000 then StringAt(fas.strtab, off - 0x8000_0000, name)
       else CountedAt(fas.psrc, off, name)
  }

  /** The name is what its offset spells. */
  lemma NameSpelt(fas: Fas, off: Word, name: seq<byte>)
    requires Spells(fas, off, name)
    ensures NameReadable(fas, off) && Name(fas, off) == name
  {
    if off >= 0x8000_0000 {
      StringRead(fas.strtab, off - 0x8000_0000, name);
    } else if off != 0 {
      CStrWhole(name, 0);
    }
  }

  lemma {:induction false} StringRead(s: seq<byte>, off: nat, name: seq<byte>)
    requires 0 !in name && StringAt(s, off, name)
    ensures Terminated(s, off) && CStr(s, off) == name
    decreases |name|
  {
    assert s[off + |name|] == 0;
    if name != [] {
      assert s[off..off + |name|][0] == name[0] && name[0] in name;
      assert s[off + 1..off + |name|] == s[off..off + |name|][1..] == name[1..];
      StringRead(s, off + 1, name[1..]);
    }
  }

  lemma {:induction false} CStrWhole(s: seq<byte>, off: nat)
    requires 0 !in s && off <= |s|
    ensures CStr(s, off) == s[off..]
    decreases |s| - off
  {
    if off < |s| {
      assert s[off] in s;
      CStrWhole(s, off + 1);
    }
  }

  /** How many of the first n symbols are exported. */
  function Count(fas: Fas, n: nat): nat
    requires n <= |fas.syms|
  {
    if n == 0 then 0 else Count(fas, n - 1) + if fas.syms[n - 1].flags % 4 == 1 then 1 else 0
  }

  /** The list, position by position: the null symbol, the file symbol with the name its
      offset spells, and each exported symbol behind those before it, with the name its
      offset spells, its value modulo 2^32 and its size, as a local object (1) of no
      section (0xFFF1). */
  lemma {:induction false} ExpectedAt(fas: Fas, n: nat, i: nat, name: seq<byte>, file: seq<byte>)
    requires Readable(fas) && i < n <= |fas.syms|
    requires 0 !in file && StringAt(fas.strtab, fas.inputName, file)
    requires fas.syms[i].flags % 4 == 1 && Spells(fas, fas.syms[i].nameOff, name)
    ensures var v := Expected(fas, n);
            && |v| == 2 + Count(fas, n) && 2 + Count(fas, i) < |v|
            && v[0] == RSym([], 0, 0, 0, 0) && v[1] == RSym(file, 0, 0, 4, 0xFFF1)
            && v[2 + Count(fas, i)] == RSym(name, fas.syms[i].value % LIMIT, fas.syms[i].size, 1, 0xFFF1)
  {
    ExpectedLength(fas, n - 1, file);
    ExportedIff(fas.syms[n - 1]);
    if i == n - 1 {
      NameSpelt(fas, fas.syms[i].nameOff, name);
    } else {
      ExpectedAt(fas, n - 1, i, name, file);
    }
  }

  lemma {:induction false} ExpectedLength(fas: Fas, n: nat, file: seq<byte>)
    requires Readable(fas) && n <= |fas.syms| && 0 !in file && StringAt(fas.strtab, fas.inputName, file)
    ensures var v := Expected(fas, n);
            |v| == 2 + Count(fas, n) && v[0] == RSym([], 0, 0, 0, 0) && v[1] == RSym(file, 0, 0, 4, 0xFFF1)
  {
    if n == 0 {
      StringRead(fas.strtab, fas.inputName, file);
    } else {
      ExpectedLength(fas, n - 1, file);
      ExportedIff(fas.syms[n - 1]);
    }
  }

  // ----- what the loop builds -----

  datatype Tables = Tables(str: seq<byte>, syms: seq<Sym>)

  /** The string goes to the end of the table, its offset into the symbol; an
      anonymous symbol keeps offset 0. */
  function ExportSym(fas: Fas, t: Tables, s: FasSym): Tables
    requires Exported(s) ==> NameReadable(fas, s.nameOff)
  {
    if !Exported(s) then t
    else if s.nameOff == 0 then Tables(t.str, t.syms + [Sym(0, Low32(s.value), s.size, STT_OBJECT, SHN_ABS)])
    else Tables(t.str + Name(fas, s.nameOff) + [0],
                t.syms + [Sym(Low32(|t.str|), Low32(s.value), s.size, STT_OBJECT, SHN_ABS)])
  }

  function Export(fas: Fas, n: nat): Tables
    requires Readable(fas) && n <= |fas.syms|
  {
    if n == 0 then Tables([0, 0] + CStr(fas.strtab, fas.inputName) + [0],
                          [NULL_SYM, Sym(2, 0, 0, STT_FILE, SHN_ABS)])
    else ExportSym(fas, Export(fas, n - 1), fas.syms[n - 1])
  }

  /** Every name offset handed out so far points at a terminated string. */
  ghost predicate NamesIn(t: Tables) {
    && |t.str| > 0 && t.str[0] == 0 && t.str[|t.str| - 1] == 0
    && AllFit(t.syms)
    && forall i :: 0 <= i < |t.syms| ==> t.syms[i].name < |t.str|
  }

  /** Offsets returned by earlier appends keep denoting the same strings. */
  lemma ViewsStable(t: Tables, more: seq<byte>)
    requires NamesIn(t)
    ensures Views(t.str + more, t.syms) == Views(t.str, t.syms)
  {
    forall i | 0 <= i < |t.syms|
      ensures View(t.str + more, t.syms[i]) == View(t.str, t.syms[i])
    {
      EndsTerminated(t.str, t.syms[i].name);
      CStrStable(t.str, more, t.syms[i].name);
    }
  }

  lemma ViewsSnoc(str: seq<byte>, syms: seq<Sym>, s: Sym)
    ensures Views(str, syms + [s]) == Views(str, syms) + [View(str, s)]
  {
  }

  lemma AppendedName(str: seq<byte>, name: seq<byte>)
    requires 0 !in name
    ensures CStr(str + name + [0], |str|) == name
  {
    CStrOf(str, name, []);
    assert str + name + [0] + [] == str + name + [0];
  }

  lemma EmptyName(str: seq<byte>)
    requires |str| > 0 && str[0] == 0
    ensures CStr(str, 0) == []
  {
  }

  lemma ExportSymViews(fas: Fas, t: Tables, s: FasSym)
    requires NamesIn(t) && Exported(s) && NameReadable(fas, s.nameOff)
    requires |ExportSym(fas, t, s).str| < LIMIT
    ensures var t' := ExportSym(fas, t, s);
            && NamesIn(t')
            && Views(t'.str, t'.syms)
               == Views(t.str, t.syms) + [RSym(Name(fas, s.nameOff), Low32(s.value), s.size, STT_OBJECT, SHN_ABS)]
  {
    hide CStr, Views;
    var name := Name(fas, s.nameOff);
    if s.nameOff == 0 {
      EmptyName(t.str);
      ViewsSnoc(t.str, t.syms, Sym(0, Low32(s.value), s.size, STT_OBJECT, SHN_ABS));
    } else {
      var sym := Sym(|t.str|, Low32(s.value), s.size, STT_OBJECT, SHN_ABS);
      var str := t.str + name + [0];
      assert str == t.str + (name + [0]);
      ViewsStable(t, name + [0]);
      AppendedName(t.str, name);
      ViewsSnoc(str, t.syms, sym);
    }
  }

  lemma {:induction false} ExportLength(fas: Fas, n: nat, m: nat)
    requires Readable(fas) && n <= m <= |fas.syms|
    ensures |Export(fas, n).str| <= |Export(fas, m).str| && |Export(fas, n).syms| <= |Export(fas, m).syms|
    decreases m
  {
    if n < m {
      ExportLength(fas, n, m - 1);
    }
  }

  /** The tables, read as a consumer reads them, are the intended list. */
  lemma {:induction false} ExportMeans(fas: Fas, n: nat)
    requires Readable(fas) && n <= |fas.syms| && |Export(fas, n).str| < LIMIT
    ensures NamesIn(Export(fas, n))
    ensures Views(Export(fas, n).str, Export(fas, n).syms) == Expected(fas, n)
  {
    if n == 0 {
      AppendedName([0, 0], CStr(fas.strtab, fas.inputName));
      var t := Export(fas, 0);
      assert t.syms == [NULL_SYM] + [Sym(2, 0, 0, STT_FILE, SHN_ABS)];
      assert CStr(t.str, 0) == [];
    } else {
      ExportLength(fas, n - 1, n);
      ExportMeans(fas, n - 1);
      var s := fas.syms[n - 1];
      if Exported(s) {
        ExportSymViews(fas, Export(fas, n - 1), s);
      }
    }
  }

  // ----- .text resolution -----

  /** The names given with -t. */
  datatype TextRange = TextRange(begin: seq<byte>, end: seq<byte>)
  datatype Bounds = Bounds(begin: Word, end: Word)

  /** First pass: follow the two names until both values are non-zero. */
  function Scan(views: seq<RSym>, t: TextRange, b: Bounds): Bounds {
    if views == [] then b
    else
      var s := views[0];
      var b' := if s.name == t.begin then b.(begin := s.value)
                else if s.name == t.end then b.(end := s.value) else b;
      if b'.begin != 0 && b'.end != 0 then b' else Scan(views[1..], t, b')
  }

  predicate InText(value: Word, b: Bounds) {
    b.begin <= value <= b.end
  }

  /** Second pass. */
  function Resolve(views: seq<RSym>, b: Bounds): (r: seq<RSym>)
    ensures |r| == |views|
    ensures forall i :: 0 <= i < |r| ==>
              r[i] == if InText(views[i].value, b) then views[i].(shndx := SEC_TEXT) else views[i]
  {
    seq(|views|, i requires 0 <= i < |views| =>
      if InText(views[i].value, b) then views[i].(shndx := SEC_TEXT) else views[i])
  }

  function ResolveSyms(syms: seq<Sym>, b: Bounds): (r: seq<Sym>)
    ensures |r| == |syms|
    ensures forall i :: 0 <= i < |r| ==>
              r[i] == if InText(syms[i].value, b) then syms[i].(shndx := SEC_TEXT) else syms[i]
  {
    seq(|syms|, i requires 0 <= i < |syms| =>
      if InText(syms[i].value, b) then syms[i].(shndx := SEC_TEXT) else syms[i])
  }

  /** With each name on exactly one symbol, the scan finds both values, zero or
      not, and wherever the symbols stand. */
  lemma ScanFinds(views: seq<RSym>, t: TextRange, i: nat, j: nat)
    requires i < |views| && j < |views| && t.begin != t.end
    requires forall k :: 0 <= k < |views| ==> (views[k].name == t.begin <==> k == i)
    requires forall k :: 0 <= k < |views| ==> (views[k].name == t.end <==> k == j)
    ensures Scan(views, t, Bounds(0, 0)) == Bounds(views[i].value, views[j].value)
  {
    ScanFrom(views, t, 0, i, j, Bounds(0, 0));
  }

  /** The value of the last of the first n symbols with a name, 0 if none has it. */
  function LastValue(views: seq<RSym>, n: nat, name: seq<byte>): Word
    requires n <= |views|
  {
    if n == 0 then 0 else if views[n - 1].name == name then views[n - 1].value else LastValue(views, n - 1, name)
  }

  predicate BothFound(views: seq<RSym>, n: nat, t: TextRange)
    requires n <= |views|
  {
    LastValue(views, n, t.begin) != 0 && LastValue(views, n, t.end) != 0
  }

  /** What the first pass ends with, whatever symbols share names: the values of the
      last symbols with the two names before the point where both are first not 0, or
      before the end. */
  lemma ScanExact(views: seq<RSym>, t: TextRange) returns (k: nat)
    requires t.begin != t.end
    ensures k <= |views|
    ensures Scan(views, t, Bounds(0, 0)) == Bounds(LastValue(views, k, t.begin), LastValue(views, k, t.end))
    ensures (k == |views| || BothFound(views, k, t)) && forall j :: 0 <= j < k ==> !BothFound(views, j, t)
  {
    k := ScanPoint(views, t, 0);
    assert views[0..] == views;
  }

  lemma {:induction false} ScanPoint(views: seq<RSym>, t: TextRange, i: nat) returns (k: nat)
    requires t.begin != t.end && i <= |views| && forall j :: 0 <= j <= i ==> !BothFound(views, j, t)
    ensures i <= k <= |views|
    ensures Scan(views[i..], t, Bounds(LastValue(views, i, t.begin), LastValue(views, i, t.end)))
         == Bounds(LastValue(views, k, t.begin), LastValue(views, k, t.end))
    ensures (k == |views| || BothFound(views, k, t)) && forall j :: 0 <= j < k ==> !BothFound(views, j, t)
    decreases |views| - i
  {
    if i == |views| {
      k := i;
    } else {
      assert views[i..][0] == views[i] && views[i..][1..] == views[i + 1..];
      if BothFound(views, i + 1, t) {
        k := i + 1;
      } else {
        k := ScanPoint(views, t, i + 1);
      }
    }
  }

  lemma {:induction false} ScanFrom(views: seq<RSym>, t: TextRange, k: nat, i: nat, j: nat, b: Bounds)
    requires i < |views| && j < |views| && t.begin != t.end && k <= |views|
    requires forall m :: 0 <= m < |views| ==> (views[m].name == t.begin <==> m == i)
    requires forall m :: 0 <= m < |views| ==> (views[m].name == t.end <==> m == j)
    requires b.begin == (if i < k then views[i].value else 0) && b.end == (if j < k then views[j].value else 0)
    ensures Scan(views[k..], t, b) == Bounds(views[i].value, views[j].value)
           || (b.begin != 0 && b.end != 0)
    decreases |views| - k
  {
    if k < |views| {
      var s := views[k..][0];
      var b' := if s.name == t.begin then b.(begin := s.value)
                else if s.name == t.end then b.(end := s.value) else b;
      assert views[k..][1..] == views[k + 1..];
      ScanFrom(views, t, k + 1, i, j, b');
    }
  }

  /** Resolution names .text for exactly the symbols in range, changes nothing
      else, and doing it again changes nothing. */
  lemma ResolveExact(views: seq<RSym>, b: Bounds, i: nat)
    requires i < |views|
    ensures var r := Resolve(views, b);
            && r[i].name == views[i].name && r[i].value == views[i].value
            && r[i].size == views[i].size && r[i].info == views[i].info
            && (views[i].shndx != SEC_TEXT ==> (r[i].shndx == SEC_TEXT <==> b.begin <= views[i].value <= b.end))
            && Resolve(r, b) == r
  {
    var r := Resolve(views, b);
    assert Resolve(r, b) == r;
  }

  /** The null symbol, all zero by the ELF rules, survives resolution exactly when
      the begin bound found is not 0; the file symbol shares its fate. */
  lemma NullSymbolKeptIff(fas: Fas, n: nat, b: Bounds)
    requires Readable(fas) && n <= |fas.syms|
    ensures |Expected(fas, n)| >= 2
    ensures Resolve(Expected(fas, n), b)[0] == NULL_RSYM <==> b.begin != 0
    ensures Resolve(Expected(fas, n), b)[1] == Expected(fas, n)[1] <==> b.begin != 0
  {
    ExpectedFront(fas, n);
  }

  lemma {:induction false} ExpectedFront(fas: Fas, n: nat)
    requires Readable(fas) && n <= |fas.syms|
    ensures Expected(fas, 0) <= Expected(fas, n)
    ensures |Expected(fas, 0)| == 2
  {
    if n > 0 {
      ExpectedFront(fas, n - 1);
    }
  }

  lemma ResolveViews(str: seq<byte>, syms: seq<Sym>, b: Bounds)
    ensures Views(str, ResolveSyms(syms, b)) == Resolve(Views(str, syms), b)
  {
  }

  predicate NamedAt(views: seq<RSym>, name: seq<byte>, i: int) {
    0 <= i < |views| && views[i].name == name
  }

  /** One symbol at most has the begin name. */
  ghost predicate BeginOnce(views: seq<RSym>, t: TextRange) {
    forall i, j :: NamedAt(views, t.begin, i) && NamedAt(views, t.begin, j) ==> i == j
  }

  /** The begin value the first pass ends with, if symbol m alone has the name, or
      none has it and m is -1. */
  lemma {:induction false} ScanBegin(views: seq<RSym>, t: TextRange, m: int, k: nat, b: Bounds)
    requires k <= |views| && -1 <= m < |views|
    requires forall i :: 0 <= i < |views| ==> (views[i].name == t.begin <==> i == m)
    requires b.begin == if 0 <= m < k then views[m].value else 0
    ensures Scan(views[k..], t, b).begin == if m >= 0 then views[m].value else 0
    decreases |views| - k
  {
    if k < |views| {
      var s := views[k..][0];
      var b' := if s.name == t.begin then b.(begin := s.value)
                else if s.name == t.end then b.(end := s.value) else b;
      assert views[k..][1..] == views[k + 1..];
      ScanBegin(views, t, m, k + 1, b');
    }
  }

  /** On the input: with the begin name on one symbol at most, the null symbol stays
      what it should be exactly if a symbol with that name has a value other than 0. */
  lemma NullSymbolMeantIff(fas: Fas, t: TextRange)
    requires Readable(fas) && BeginOnce(Expected(fas, |fas.syms|), t)
    ensures var v := Expected(fas, |fas.syms|);
            && |v| >= 2 && |Meaning(fas, Some(t))| == |v|
            && (Meaning(fas, Some(t))[0] == NULL_RSYM
                <==> exists i :: NamedAt(v, t.begin, i) && v[i].value != 0)
  {
    hide Expected, Scan;
    var v := Expected(fas, |fas.syms|);
    var m := -1;
    if i :| NamedAt(v, t.begin, i) { m := i; }
    forall i | 0 <= i < |v|
      ensures v[i].name == t.begin <==> i == m
    {
      assert v[i].name == t.begin <==> NamedAt(v, t.begin, i);
    }
    assert v[0..] == v;
    ScanBegin(v, t, m, 0, Bounds(0, 0));
    NullSymbolKeptIff(fas, |fas.syms|, Scan(v, t, Bounds(0, 0)));
  }

  /** A file without symbols and two names that are not found: the null symbol is
      put into .text. */
  lemma NullSymbolMoved()
    ensures var fas := Fas([0], [], [], 0);
            && Readable(fas)
            && Meaning(fas, Some(TextRange([0x61], [0x62])))[0] == NULL_RSYM.(shndx := SEC_TEXT)
  {
    var fas, t := Fas([0], [], [], 0), TextRange([0x61], [0x62]);
    assert fas.strtab[0] == 0;
    assert CStr([0], 0) == [];
    var all := Expected(fas, 0);
    assert Scan(all[2..], t, Bounds(0, 0)) == Bounds(0, 0);
    assert all[1..][1..] == all[2..];
    assert Scan(all[1..], t, Bounds(0, 0)) == Bounds(0, 0);
  }

  /** Where .text begins and ends: nowhere without -t. */
  function TextBounds(views: seq<RSym>, t: Option<TextRange>): Bounds {
    match t
    case None => Bounds(0, 0)
    case Some(r) => Scan(views, r, Bounds(0, 0))
  }

  /** Everything the output should say. */
  function Meaning(fas: Fas, t: Option<TextRange>): seq<RSym>
    requires Readable(fas)
  {
    var all := Expected(fas, |fas.syms|);
    if t.None? then all else Resolve(all, TextBounds(all, t))
  }
}
