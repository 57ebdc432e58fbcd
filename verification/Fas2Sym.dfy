/** fas2sym itself: three growing buffers and five section headers changed in
    place, from loaded FAS tables to the bytes of the symbol file. */
module Fas2Sym {
  import opened Common
  import opened Bytes
  import opened ElfSpec
  import opened FasSpec
  import opened GrowBuffer

  const TEXT_NAME: seq<byte> := [0x2E, 0x74, 0x65, 0x78, 0x74]
  const SHSTRTAB_NAME: seq<byte> := [0x2E, 0x73, 0x68, 0x73, 0x74, 0x72, 0x74, 0x61, 0x62]
  const STRTAB_NAME: seq<byte> := [0x2E, 0x73, 0x74, 0x72, 0x74, 0x61, 0x62]
  const SYMTAB_NAME: seq<byte> := [0x2E, 0x73, 0x79, 0x6D, 0x74, 0x61, 0x62]

  /** "\0.text\0.shstrtab\0.strtab\0.symtab\0" and the literal's own NUL. */
  const SECTION_NAMES: seq<byte> :=
    [0] + TEXT_NAME + [0] + SHSTRTAB_NAME + [0] + STRTAB_NAME + [0] + SYMTAB_NAME + [0] + [0]

  /** `pstr2cstr`: a counted string becomes a C string in a 256-byte buffer. */
  method PStrToCStr(dst: array<byte>, src: seq<byte>)
    requires dst.Length == 256 && |src| > 0 && src[0] as int + 1 <= |src|
    modifies dst
    ensures dst[..src[0]] == src[1..1 + src[0] as int] && dst[src[0]] == 0
    ensures CStr(dst[..], 0) == CStr(src[1..1 + src[0] as int], 0)
  {
    var psz, k := src[0] as int, 0;
    while psz > 0
      invariant 0 <= psz && psz + k == src[0]
      invariant forall j :: 0 <= j < k ==> dst[j] == src[1 + j]
    {
      dst[k] := src[1 + k];
      k, psz := k + 1, psz - 1;
    }
    dst[k] := 0;
    assert dst[..k] == src[1..1 + k];
    CStrCut(src[1..1 + k], dst[..], 0);
  }

  /** Storing section 1 into the last two bytes of entry i. */
  lemma {:induction false} StoreShndx(syms: seq<Sym>, i: nat)
    requires AllFit(syms) && i < |syms|
    ensures AllFit(syms[i := syms[i].(shndx := SEC_TEXT)])
    ensures Words(SymtabWords(syms))[16 * i + 14 := SEC_TEXT][16 * i + 15 := 0]
         == Words(SymtabWords(syms[i := syms[i].(shndx := SEC_TEXT)]))
    decreases i
  {
    var syms' := syms[i := syms[i].(shndx := SEC_TEXT)];
    var bytes, bytes' := Words(SymtabWords(syms)), Words(SymtabWords(syms'));
    SymtabFront(syms);
    SymtabFront(syms');
    if i == 0 {
      OneShndx(syms[0]);
      assert syms'[1..] == syms[1..];
    } else {
      StoreShndx(syms[1..], i - 1);
      assert syms'[1..] == syms[1..][i - 1 := syms[i].(shndx := SEC_TEXT)];
    }
  }

  lemma SymtabFront(syms: seq<Sym>)
    requires AllFit(syms) && syms != []
    ensures Words(SymtabWords(syms)) == Words(SymWords(syms[0])) + Words(SymtabWords(syms[1..]))
  {
    WordsConcat(SymWords(syms[0]), SymtabWords(syms[1..]));
  }

  lemma OneShndx(s: Sym)
    requires s.Fits()
    ensures Words(SymWords(s))[14 := SEC_TEXT][15 := 0] == Words(SymWords(s.(shndx := SEC_TEXT)))
  {
    var ws, ws' := SymWords(s), SymWords(s.(shndx := SEC_TEXT));
    FourWords(ws);
    FourWords(ws');
    var front := Le32(ws[0]) + Le32(ws[1]) + Le32(ws[2]);
    assert Le32(ws[3])[2 := SEC_TEXT][3 := 0] == Le32(ws'[3]) by { LastBytes(s); }
    hide Words, SymWords, Le32;
    PatchTail(front, Le32(ws[3]));
  }

  lemma LastBytes(s: Sym)
    requires s.Fits()
    ensures Le32(SymWords(s)[3])[2 := SEC_TEXT][3 := 0] == Le32(SymWords(s.(shndx := SEC_TEXT))[3])
  {
    WordBytes(s.info, s.shndx);
    WordBytes(s.info, SEC_TEXT);
  }

  lemma WordBytes(low: byte, high: int)
    requires 0 <= high < 0x1_0000
    ensures Le32(low + 0x1_0000 * high) == [low, 0, high % 256, high / 256]
  {
    var x := low + 0x1_0000 * high;
    assert x / 256 == 256 * high;
    assert x / 0x1_0000 == high;
    assert x / 0x100_0000 == high / 256;
  }

  lemma PatchTail(front: seq<byte>, last: seq<byte>)
    requires |front| == 12 && |last| == 4
    ensures (front + last)[14 := SEC_TEXT][15 := 0] == front + last[2 := SEC_TEXT][3 := 0]
  {
  }

  lemma {:induction false} FourWords(ws: seq<Word>)
    requires |ws| == 4
    ensures Words(ws) == Le32(ws[0]) + Le32(ws[1]) + Le32(ws[2]) + Le32(ws[3])
  {
    WordsConcat(ws[..2], ws[2..]);
    assert ws == ws[..2] + ws[2..];
    TwoWords(ws[..2]);
    TwoWords(ws[2..]);
  }

  lemma TwoWords(ws: seq<Word>)
    requires |ws| == 2
    ensures Words(ws) == Le32(ws[0]) + Le32(ws[1])
  {
    assert ws[1..][0] == ws[1] && ws[1..][1..] == [];
  }

  lemma {:induction false} SymtabSnoc(syms: seq<Sym>, s: Sym)
    requires AllFit(syms) && s.Fits()
    ensures AllFit(syms + [s])
    ensures Words(SymtabWords(syms + [s])) == Words(SymtabWords(syms)) + Words(SymWords(s))
  {
    if syms == [] {
      assert syms + [s] == [s];
      assert SymtabWords([s]) == SymWords(s);
    } else {
      assert (syms + [s])[1..] == syms[1..] + [s];
      SymtabSnoc(syms[1..], s);
      SymtabFront(syms);
      SymtabFront(syms + [s]);
    }
  }

  /** The initial headers with n symbols counted in .symtab's sh_info. */
  function CountedShdrs(n: int): seq<Shdr> {
    INITIAL_SHDRS[SEC_SYMTAB := INITIAL_SHDRS[SEC_SYMTAB].(info := Low32(n))]
  }

  lemma CountOneMore(n: int)
    ensures var hs := CountedShdrs(n);
            hs[SEC_SYMTAB := hs[SEC_SYMTAB].(info := Low32(hs[SEC_SYMTAB].info + 1))] == CountedShdrs(n + 1)
    ensures CountedShdrs(0) == INITIAL_SHDRS
  {
    assert Low32(Low32(n) + 1) == Low32(n + 1);
  }

  class Converter {
    const shstrtab: Buffer
    const strtab: Buffer
    const symtab: Buffer
    var shdrs: seq<Shdr>
    ghost var syms: seq<Sym>       // the entries of .symtab

    ghost predicate Apart()
      reads this, shstrtab, strtab, symtab
    {
      && shstrtab != strtab && shstrtab != symtab && strtab != symtab
      && (strtab.data != null ==> strtab.data != symtab.data && strtab.data != shstrtab.data)
      && (symtab.data != null ==> symtab.data != shstrtab.data)
    }

    ghost predicate Valid()
      reads this, shstrtab, strtab, symtab, shstrtab.data, strtab.data, symtab.data
    {
      && Apart() && shstrtab.Valid() && strtab.Valid() && symtab.Valid()
      && AllFit(syms) && symtab.Contents() == Words(SymtabWords(syms))
      && shstrtab.Contents() == SECTION_NAMES
      && |shdrs| == SEC_END
    }

    /** `elf_init` on fresh buffers. */
    constructor ()
      ensures Valid() && syms == [NULL_SYM] && shdrs == INITIAL_SHDRS
      ensures strtab.Contents() == [0, 0]
      ensures fresh(shstrtab) && fresh(strtab) && fresh(symtab)
      ensures fresh(shstrtab.data) && fresh(strtab.data) && fresh(symtab.data)
    {
      shstrtab := new Buffer();
      strtab := new Buffer();
      symtab := new Buffer();
      shdrs, syms := INITIAL_SHDRS, [NULL_SYM];
      new;
      var _ := shstrtab.Put(SECTION_NAMES);
      var _ := strtab.Put([0, 0]);
      var _ := symtab.Put(Words(SymWords(NULL_SYM)));
      SymtabSnoc([], NULL_SYM);
      assert [] + [NULL_SYM] == [NULL_SYM];
    }

    ghost function Now(): Tables
      requires Valid()
      reads this, shstrtab, strtab, symtab, shstrtab.data, strtab.data, symtab.data
    {
      Tables(strtab.Contents(), syms)
    }

    /** `elf_add_symbol` */
    method AddSymbol(s: Sym)
      requires Valid() && s.Fits()
      modifies this, symtab, symtab.data
      ensures Valid() && Now() == Tables(old(Now()).str, old(Now()).syms + [s])
      ensures symtab.data == old(symtab.data) || fresh(symtab.data)
      ensures shdrs == old(shdrs)[SEC_SYMTAB := old(shdrs)[SEC_SYMTAB].(info := Low32(old(shdrs)[SEC_SYMTAB].info + 1))]
    {
      shdrs := shdrs[SEC_SYMTAB := shdrs[SEC_SYMTAB].(info := Low32(shdrs[SEC_SYMTAB].info + 1))];
      SymtabSnoc(syms, s);
      var _ := symtab.Put(Words(SymWords(s)));
      syms := syms + [s];
    }

    /** `elf_add_str` with a C string and its NUL. */
    method AddStr(str: seq<byte>) returns (index: nat)
      requires Valid()
      modifies strtab, strtab.data
      ensures Valid() && Now() == Tables(old(Now()).str + str + [0], old(Now()).syms)
      ensures index == |old(Now()).str|
      ensures strtab.data == old(strtab.data) || fresh(strtab.data)
    {
      index := strtab.Put(str + [0]);
      assert strtab.Contents() == old(strtab.Contents()) + (str + [0]);
    }

    /** `fas_export_symbol_name` */
    method ExportName(fas: Fas, off: Word) returns (index: nat)
      requires Valid() && NameReadable(fas, off)
      modifies strtab, strtab.data
      ensures Valid()
      ensures Now() == if off == 0 then old(Now()) else Tables(old(Now()).str + Name(fas, off) + [0], old(Now()).syms)
      ensures index == if off == 0 then 0 else |old(Now()).str|
      ensures strtab.data == old(strtab.data) || fresh(strtab.data)
    {
      if off == 0 {
        return 0;
      }
      var ptr: seq<byte>;
      if off >= HIGH_BIT {
        ptr := CStr(fas.strtab, off - HIGH_BIT);
      } else {
        ptr := CountedName(fas, off);
      }
      index := AddStr(ptr);
    }

    method CountedName(fas: Fas, off: Word) returns (ptr: seq<byte>)
      requires 0 < off < HIGH_BIT && NameReadable(fas, off)
      ensures ptr == Name(fas, off)
    {
      hide CStr;
      var name := new byte[256];
      PStrToCStr(name, fas.psrc[off..]);
      assert fas.psrc[off..][1..1 + fas.psrc[off] as int] == fas.psrc[off + 1..off + 1 + fas.psrc[off] as int];
      ptr := CStr(name[..], 0);
    }

    /** The body of the export loop. */
    method ExportOne(fas: Fas, s: FasSym)
      requires Valid() && (Exported(s) ==> NameReadable(fas, s.nameOff)) && Counted()
      modifies this, strtab, strtab.data, symtab, symtab.data
      ensures Valid() && Now() == ExportSym(fas, old(Now()), s) && Counted()
      ensures strtab.data == old(strtab.data) || fresh(strtab.data)
      ensures symtab.data == old(symtab.data) || fresh(symtab.data)
    {
      hide Words, SymtabWords, CStr, Name, CountedShdrs, Valid, NameReadable;
      if s.flags / FAS_SYM_DEF % 2 == 0 || s.flags / FAS_SYM_ASM_TIME % 2 != 0 {
        return;
      }
      var nameIdx := ExportName(fas, s.nameOff);
      CountOneMore(|syms| - 1);
      AddSymbol(Sym(Low32(nameIdx), Low32(s.value), s.size, STT_OBJECT, SHN_ABS));
    }

    /** .symtab's sh_info counts the symbols after the null one; nothing else in
        the headers has changed. */
    ghost predicate Counted()
      reads this
    {
      shdrs == CountedShdrs(|syms| - 1)
    }

    /** The file symbol, first thing the export does. */
    method ExportFile(fas: Fas)
      requires Valid() && Readable(fas)
      requires syms == [NULL_SYM] && strtab.Contents() == [0, 0] && shdrs == INITIAL_SHDRS
      modifies this, strtab, strtab.data, symtab, symtab.data
      ensures Valid() && Now() == Export(fas, 0) && Counted()
      ensures strtab.data == old(strtab.data) || fresh(strtab.data)
      ensures symtab.data == old(symtab.data) || fresh(symtab.data)
    {
      hide Words, SymtabWords, CStr;
      var nameIdx := AddStr(CStr(fas.strtab, fas.inputName));
      CountOneMore(0);
      AddSymbol(Sym(Low32(nameIdx), 0, 0, STT_FILE, SHN_ABS));
    }

    /** `fas_export_symbols` */
    method ExportSymbols(fas: Fas)
      requires Valid() && Readable(fas)
      requires syms == [NULL_SYM] && strtab.Contents() == [0, 0] && shdrs == INITIAL_SHDRS
      modifies this, strtab, strtab.data, symtab, symtab.data
      ensures Valid() && Now() == Export(fas, |fas.syms|) && Counted()
      ensures strtab.data == old(strtab.data) || fresh(strtab.data)
      ensures symtab.data == old(symtab.data) || fresh(symtab.data)
    {
      hide Words, SymtabWords, CStr, Name, CountedShdrs, Valid, NameReadable, ExportSym, AllFit;
      ExportFile(fas);
      var idx := 0;
      while idx < |fas.syms|
        invariant idx <= |fas.syms| && Valid() && Counted() && Now() == Export(fas, idx)
        invariant strtab.data == old(strtab.data) || fresh(strtab.data)
        invariant symtab.data == old(symtab.data) || fresh(symtab.data)
      {
        ExportOne(fas, fas.syms[idx]);
        idx := idx + 1;
      }
    }

    /** One entry as `elf_resolve_symbols` sees it through its pointer. */
    method Entry(i: nat) returns (name: Word, value: Word)
      requires Valid() && i < |syms|
      ensures name == syms[i].name && value == syms[i].value
    {
      ghost var bytes := symtab.Contents();
      var all := symtab.data[..symtab.cnt];
      SymtabEntryLies(syms, i);
      WordAt(all, 16 * i, SymWords(syms[i]), 0);
      WordAt(all, 16 * i, SymWords(syms[i]), 1);
      name, value := Get32(all, 16 * i), Get32(all, 16 * i + 4);
    }

    /** First pass of `elf_resolve_symbols`. */
    method ScanBounds(t: TextRange) returns (b: Bounds)
      requires Valid() && strtab.data != null
      ensures b == Scan(Views(strtab.Contents(), syms), t, Bounds(0, 0))
    {
      b := Bounds(0, 0);
      ghost var views := Views(strtab.Contents(), syms);
      var symcnt := symtab.cnt / SYM_SIZE;
      var strings := strtab.data[..strtab.cnt];
      var idx := 0;
      assert views[0..] == views;
      while idx < symcnt
        invariant idx <= symcnt == |syms|
        invariant Scan(views[idx..], t, b) == Scan(views, t, Bounds(0, 0))
      {
        var name, value := Entry(idx);
        assert views[idx..][0] == views[idx] && views[idx..][1..] == views[idx + 1..];
        if CStr(strings, name) == t.begin {
          b := b.(begin := value);
        } else if CStr(strings, name) == t.end {
          b := b.(end := value);
        }
        if b.begin != 0 && b.end != 0 { return; }
        idx := idx + 1;
      }
    }

    /** `syms[idx].st_shndx = SEC_TEXT` through the buffer's bytes. */
    method MarkText(idx: nat)
      requires Valid() && idx < |syms| && symtab.data != null
      modifies this`syms, symtab.data
      ensures Valid() && syms == old(syms)[idx := old(syms)[idx].(shndx := SEC_TEXT)]
      ensures strtab.Contents() == old(strtab.Contents())
    {
      StoreShndx(syms, idx);
      symtab.Set(16 * idx + 14, SEC_TEXT);
      symtab.Set(16 * idx + 15, 0);
      syms := syms[idx := syms[idx].(shndx := SEC_TEXT)];
    }

    /** Second pass of `elf_resolve_symbols`. */
    method MarkRange(b: Bounds)
      requires Valid() && symtab.data != null
      modifies this`syms, symtab.data
      ensures Valid() && strtab.Contents() == old(strtab.Contents())
      ensures syms == ResolveSyms(old(syms), b)
    {
      hide Words, SymtabWords, AllFit, Marked, ResolveSyms;
      ghost var before := syms;
      MarkedEnds(before, b);
      var symcnt := symtab.cnt / SYM_SIZE;
      var idx := 0;
      while idx < symcnt
        invariant idx <= symcnt == |syms| == |before|
        invariant Valid() && strtab.Contents() == old(strtab.Contents())
        invariant syms == Marked(before, b, idx)
      {
        MarkedStep(before, b, idx);
        var _, value := Entry(idx);
        if value >= b.begin && value <= b.end {
          MarkText(idx);
        }
        idx := idx + 1;
      }
    }

    /** `elf_resolve_symbols`: nothing without -t; otherwise find the bounds, set
        .text's address and size, and rewrite the section of the entries. */
    method ResolveSymbols(text: Option<TextRange>)
      requires Valid() && strtab.data != null && symtab.data != null
      modifies this`shdrs, this`syms, symtab.data
      ensures Valid() && strtab.Contents() == old(strtab.Contents())
      ensures Resolved(text, old(Now()), syms, old(shdrs), shdrs)
    {
      if text.Some? {
        var b := ScanBounds(text.value);
        shdrs := shdrs[SEC_TEXT := shdrs[SEC_TEXT].(addr := b.begin, size := Low32(b.end - b.begin))];
        MarkRange(b);
      }
    }

    /** `elf_compute_section_offsets` */
    method ComputeSectionOffsets()
      requires Valid()
      modifies this`shdrs
      ensures Valid() && |shdrs| == SEC_END
      ensures shdrs == WithOffsets(old(shdrs), |shstrtab.Contents()|, |strtab.Contents()|, |symtab.Contents()|)
    {
      var offset := EHDR_SIZE;
      shdrs := shdrs[SEC_SHSTRTAB := shdrs[SEC_SHSTRTAB].(offset := Low32(offset), size := Low32(shstrtab.cnt))];
      offset := offset + shstrtab.cnt;
      shdrs := shdrs[SEC_STRTAB := shdrs[SEC_STRTAB].(offset := Low32(offset), size := Low32(strtab.cnt))];
      offset := offset + strtab.cnt;
      shdrs := shdrs[SEC_SYMTAB := shdrs[SEC_SYMTAB].(offset := Low32(offset), size := Low32(symtab.cnt))];
    }

    /** The bytes `elf_write_tab` hands to the file. */
    method Tab(b: Buffer) returns (bytes: seq<byte>)
      requires b.Valid()
      ensures bytes == b.Contents()
    {
      if b.cnt == 0 || b.data == null {
        return [];
      }
      bytes := b.data[..b.cnt];
    }

    /** The headers once resolution has set .text's. */
    method FinishHeaders(ghost b: Bounds)
      requires Valid() && |syms| > 0
      requires shdrs == TextSet(CountedShdrs(|syms| - 1), b)
      modifies this`shdrs
      ensures Valid()
      ensures shdrs == FinalShdrs(|SECTION_NAMES|, |strtab.Contents()|, |symtab.Contents()|,
                                  b.begin, Low32(b.end - b.begin), Low32(|syms|))
    {
      hide Words, SymtabWords, AllFit, WithOffsets, FinalShdrs, TextSet, CountedShdrs;
      ComputeSectionOffsets();
      shdrs := shdrs[SEC_SYMTAB := shdrs[SEC_SYMTAB].(info := Low32(shdrs[SEC_SYMTAB].info + 1))];
      FinalFrom(|syms|, b, |SECTION_NAMES|, |strtab.Contents()|, |symtab.Contents()|);
    }

    /** `elf_write` */
    method Write(text: Option<TextRange>) returns (file: seq<byte>)
      requires Valid() && Counted() && strtab.data != null && symtab.data != null && |syms| > 0
      modifies this`shdrs, this`syms, symtab.data
      ensures Valid() && strtab.Contents() == old(strtab.Contents())
      ensures Written(file, strtab.Contents(), syms, TextBounds(Views(old(Now()).str, old(Now()).syms), text))
      ensures syms == FinalSyms(old(Now()), text)
    {
      hide Words, SymtabWords, Views, CStr, AllFit, ResolveSyms, FinalShdrs, EhdrWords, ShdrTable, CountedShdrs, Scan;
      hide SECTION_NAMES;
      ghost var b := TextBounds(Views(Now().str, Now().syms), text);
      var shoff := EHDR_SIZE + shstrtab.cnt + strtab.cnt + symtab.cnt;
      ResolveSymbols(text);
      NoTextSet(|syms| - 1);
      file := Words(EhdrWords(Low32(shoff)));
      var tab := Tab(shstrtab);
      file := file + tab;
      tab := Tab(strtab);
      file := file + tab;
      tab := Tab(symtab);
      file := file + tab;
      FinishHeaders(b);
      file := file + Words(ShdrTable(shdrs));
    }
  }

  function TextSet(hs: seq<Shdr>, b: Bounds): seq<Shdr>
    requires |hs| == SEC_END
  {
    hs[SEC_TEXT := hs[SEC_TEXT].(addr := b.begin, size := Low32(b.end - b.begin))]
  }

  lemma NoTextSet(n: int)
    ensures TextSet(CountedShdrs(n), Bounds(0, 0)) == CountedShdrs(n)
  {
  }

  /** The entries after the second pass has seen the first k of them. */
  function Marked(syms: seq<Sym>, b: Bounds, k: nat): seq<Sym>
    requires k <= |syms|
  {
    ResolveSyms(syms, b)[..k] + syms[k..]
  }

  lemma MarkedStep(syms: seq<Sym>, b: Bounds, k: nat)
    requires k < |syms|
    ensures |Marked(syms, b, k)| == |syms| && Marked(syms, b, k)[k] == syms[k]
    ensures Marked(syms, b, k + 1)
         == if InText(syms[k].value, b) then Marked(syms, b, k)[k := syms[k].(shndx := SEC_TEXT)]
            else Marked(syms, b, k)
  {
  }

  lemma MarkedEnds(syms: seq<Sym>, b: Bounds)
    ensures Marked(syms, b, 0) == syms && Marked(syms, b, |syms|) == ResolveSyms(syms, b)
  {
  }

  function WithOffsets(hs: seq<Shdr>, a: nat, b: nat, c: nat): seq<Shdr>
    requires |hs| == SEC_END
  {
    hs[SEC_SHSTRTAB := hs[SEC_SHSTRTAB].(offset := EHDR_SIZE, size := Low32(a))]
      [SEC_STRTAB := hs[SEC_STRTAB].(offset := Low32(EHDR_SIZE + a), size := Low32(b))]
      [SEC_SYMTAB := hs[SEC_SYMTAB].(offset := Low32(EHDR_SIZE + a + b), size := Low32(c))]
  }

  /** What resolution does to the entries and to .text's header. */
  ghost predicate Resolved(text: Option<TextRange>, t: Tables, syms: seq<Sym>, hs: seq<Shdr>, hs': seq<Shdr>)
    requires |hs| == SEC_END
  {
    match text
    case None => syms == t.syms && hs' == hs
    case Some(r) =>
      var b := Scan(Views(t.str, t.syms), r, Bounds(0, 0));
      syms == ResolveSyms(t.syms, b) && hs' == TextSet(hs, b)
  }

  /** The file is the image of these tables, counting every symbol as local, and
      with .text from b.begin to b.end. */
  ghost predicate Written(file: seq<byte>, str: seq<byte>, syms: seq<Sym>, b: Bounds) {
    && AllFit(syms)
    && var symtab := Words(SymtabWords(syms));
       file == Image(SECTION_NAMES, str, symtab,
                     FinalShdrs(|SECTION_NAMES|, |str|, |symtab|, b.begin, Low32(b.end - b.begin), Low32(|syms|)))
  }

  lemma FinalFrom(n: nat, b: Bounds, a: nat, c: nat, d: nat)
    requires n > 0
    ensures var hs := WithOffsets(TextSet(CountedShdrs(n - 1), b), a, c, d);
            hs[SEC_SYMTAB := hs[SEC_SYMTAB].(info := Low32(hs[SEC_SYMTAB].info + 1))]
            == FinalShdrs(a, c, d, b.begin, Low32(b.end - b.begin), Low32(n))
  {
    assert Low32(Low32(n - 1) + 1) == Low32(n);
  }

  /** What the entries become under -t. */
  function FinalSyms(t: Tables, text: Option<TextRange>): (r: seq<Sym>)
    ensures |r| == |t.syms|
  {
    match text
    case None => t.syms
    case Some(r) => ResolveSyms(t.syms, Scan(Views(t.str, t.syms), r, Bounds(0, 0)))
  }

  /** The sections of a written file by name, found through e_shstrndx, with types,
      flags, links, alignments and entry sizes: .text takes no room in the file (8) and is allocated
      and executable (6), the string tables are such (3), .symtab (2) has its names in
      section 3 and entries of 16 bytes. */
  lemma {:induction false} WrittenSections(file: seq<byte>, str: seq<byte>, syms: seq<Sym>, b: Bounds, k: nat)
    requires Written(file, str, syms, b) && 52 + 34 + |str| + 16 * |syms| < LIMIT && k < 5
    ensures SectionName(file, k) == [[], TEXT_NAME, SHSTRTAB_NAME, STRTAB_NAME, SYMTAB_NAME][k]
    ensures SectionField(file, k, 1) == [0, 8, 3, 3, 2][k] && SectionField(file, k, 2) == [0, 6, 0, 0, 0][k]
    ensures SectionField(file, k, 6) == [0, 0, 0, 0, 3][k] && SectionField(file, k, 8) == [0, 1, 1, 1, 4][k]
    ensures SectionField(file, k, 9) == [0, 0, 0, 0, 16][k]
  {
    TableNames();
    hide Words, SymtabWords, Image, FinalShdrs, SectionName, SectionField, CStr;
    NamedSections(SECTION_NAMES, str, Words(SymtabWords(syms)), b.begin, Low32(b.end - b.begin), Low32(|syms|), k);
  }

  lemma {:induction false} NamedSections(names: seq<byte>, str: seq<byte>, symtab: seq<byte>,
                                         addr: Word, size: Word, info: Word, k: nat)
    requires k < 5 && EHDR_SIZE + |names| + |str| + |symtab| < LIMIT
    requires CStr(names, 0) == [] && CStr(names, 1) == TEXT_NAME && CStr(names, 7) == SHSTRTAB_NAME
    requires CStr(names, 17) == STRTAB_NAME && CStr(names, 25) == SYMTAB_NAME
    ensures var f := Image(names, str, symtab, FinalShdrs(|names|, |str|, |symtab|, addr, size, info));
            && SectionName(f, k) == [[], TEXT_NAME, SHSTRTAB_NAME, STRTAB_NAME, SYMTAB_NAME][k]
            && SectionField(f, k, 1) == [0, 8, 3, 3, 2][k] && SectionField(f, k, 2) == [0, 6, 0, 0, 0][k]
            && SectionField(f, k, 6) == [0, 0, 0, 0, 3][k] && SectionField(f, k, 8) == [0, 1, 1, 1, 4][k]
            && SectionField(f, k, 9) == [0, 0, 0, 0, 16][k]
  {
    FinalNames(|names|, |str|, |symtab|, addr, size, info, k);
    hide Image, FinalShdrs, ShdrWords, SectionName, SectionField, CStr;
    SectionMeans(names, str, symtab, addr, size, info, k);
  }

  /** The name offset and the fields named above of header k. */
  lemma FinalNames(a: nat, c: nat, d: nat, addr: Word, size: Word, info: Word, k: nat)
    requires k < 5
    ensures var hs := FinalShdrs(a, c, d, addr, size, info);
            && |hs| == 5 && hs[k].name == [0, 1, 7, 17, 25][k]
            && ShdrWords(hs[k])[1] == [0, 8, 3, 3, 2][k] && ShdrWords(hs[k])[2] == [0, 6, 0, 0, 0][k]
            && ShdrWords(hs[k])[6] == [0, 0, 0, 0, 3][k] && ShdrWords(hs[k])[8] == [0, 1, 1, 1, 4][k]
            && ShdrWords(hs[k])[9] == [0, 0, 0, 0, 16][k]
  {
  }

  lemma TableNames()
    ensures |SECTION_NAMES| == 34 && CStr(SECTION_NAMES, 0) == []
    ensures CStr(SECTION_NAMES, 1) == TEXT_NAME && CStr(SECTION_NAMES, 7) == SHSTRTAB_NAME
    ensures CStr(SECTION_NAMES, 17) == STRTAB_NAME && CStr(SECTION_NAMES, 25) == SYMTAB_NAME
  {
    FourNames([0], TEXT_NAME, SHSTRTAB_NAME, STRTAB_NAME, SYMTAB_NAME);
    EmptyName(SECTION_NAMES);
  }

  /** Names separated by NULs, each read where it begins. */
  lemma {:induction false} FourNames(z: seq<byte>, a: seq<byte>, b: seq<byte>, c: seq<byte>, d: seq<byte>)
    requires z == [0] && 0 !in a && 0 !in b && 0 !in c && 0 !in d
    ensures var s := z + a + z + b + z + c + z + d + z + z;
            && |s| == 6 + |a| + |b| + |c| + |d|
            && CStr(s, 1) == a && CStr(s, 2 + |a|) == b && CStr(s, 3 + |a| + |b|) == c
            && CStr(s, 4 + |a| + |b| + |c|) == d
  {
    hide CStr;
    var s := z + a + z + b + z + c + z + d + z + z;
    CStrOf(z, a, b + z + c + z + d + z + z);
    assert z + a + [0] + (b + z + c + z + d + z + z) == s;
    CStrOf(z + a + z, b, c + z + d + z + z);
    assert z + a + z + b + [0] + (c + z + d + z + z) == s;
    CStrOf(z + a + z + b + z, c, d + z + z);
    assert z + a + z + b + z + c + [0] + (d + z + z) == s;
    CStrOf(z + a + z + b + z + c + z, d, z);
  }

  /** What a file says of a FAS input: read by the ELF rules, exactly the intended
      symbols, all of them counted as local, and .text where the names given put it. */
  ghost predicate Says(file: seq<byte>, fas: Fas, text: Option<TextRange>)
    requires Readable(fas)
  {
    var b := TextBounds(Expected(fas, |fas.syms|), text);
    var at := FileSize(fas) + SHDR_SIZE * SEC_TEXT;
    && ReadObject(file) == Some(Object(Meaning(fas, text), |Meaning(fas, text)|))
    && at + SHDR_SIZE <= |file| && Get32(file, at + 12) == b.begin && Get32(file, at + 20) == Low32(b.end - b.begin)
  }

  /** Preservation of meaning, on the bytes. */
  lemma WrittenMeans(fas: Fas, text: Option<TextRange>, file: seq<byte>)
    requires Readable(fas) && FileSize(fas) < LIMIT
    requires var t := Export(fas, |fas.syms|);
             Written(file, t.str, FinalSyms(t, text), TextBounds(Views(t.str, t.syms), text))
    ensures Says(file, fas, text)
  {
    hide Words, SymtabWords, CStr, Scan, ReadObject, Image, FinalShdrs, ResolveSyms, Resolve, Views, Get32;
    hide Export, Expected;
    var t := Export(fas, |fas.syms|);
    ExportMeans(fas, |fas.syms|);
    var b := TextBounds(Views(t.str, t.syms), text);
    var syms := FinalSyms(t, text);
    if text.Some? { ResolveViews(t.str, t.syms, b); }
    ReadBack(SECTION_NAMES, t.str, syms, b.begin, Low32(b.end - b.begin), |t.syms|);
    TextRecorded(SECTION_NAMES, t.str, Words(SymtabWords(syms)), b.begin, Low32(b.end - b.begin), |t.syms|);
  }

  /** fas2sym from loaded tables to file. */
  method Convert(fas: Fas, text: Option<TextRange>) returns (file: seq<byte>)
    requires Readable(fas)
    ensures FileSize(fas) < LIMIT ==> Says(file, fas, text)
    ensures var t := Export(fas, |fas.syms|);
            Written(file, t.str, FinalSyms(t, text), TextBounds(Views(t.str, t.syms), text))
  {
    hide Words, SymtabWords, CStr, Scan, ReadObject, Written, Says, Views;
    var c := new Converter();
    c.ExportSymbols(fas);
    ExportLength(fas, 0, |fas.syms|);
    file := c.Write(text);
    if FileSize(fas) < LIMIT {
      WrittenMeans(fas, text, file);
    }
  }

  /** Symbol i in the list read from a file, spelt out. */
  ghost predicate Spelt(v: seq<RSym>, fas: Fas, i: nat, name: seq<byte>, source: seq<byte>)
    requires i < |fas.syms|
  {
    && |v| == 2 + Count(fas, |fas.syms|) && 2 + Count(fas, i) < |v|
    && v[0] == RSym([], 0, 0, 0, 0) && v[1] == RSym(source, 0, 0, 4, 0xFFF1)
    && v[2 + Count(fas, i)] == RSym(name, fas.syms[i].value % LIMIT, fas.syms[i].size, 1, 0xFFF1)
  }

  /** Symbol by symbol, without -t: where the tables spell the names, the file read by
      the ELF rules has them, with values and sizes, in order. */
  lemma ConvertedSymbol(fas: Fas, file: seq<byte>, i: nat, name: seq<byte>, source: seq<byte>)
    requires Readable(fas) && i < |fas.syms|
    ensures && Says(file, fas, None) && fas.syms[i].flags % 4 == 1
            && 0 !in source && StringAt(fas.strtab, fas.inputName, source) && Spells(fas, fas.syms[i].nameOff, name) ==>
              && ReadObject(file).Some? && Spelt(ReadObject(file).value.symbols, fas, i, name, source)
              && ReadObject(file).value.localCount == 2 + Count(fas, |fas.syms|)
  {
    hide ReadObject, Expected, Count, Spells, StringAt;
    if && fas.syms[i].flags % 4 == 1 && 0 !in source && StringAt(fas.strtab, fas.inputName, source)
       && Spells(fas, fas.syms[i].nameOff, name) {
      ExpectedAt(fas, |fas.syms|, i, name, source);
    }
  }

  /** Everything before the section headers. */
  function FileSize(fas: Fas): nat
    requires Readable(fas)
  {
    var t := Export(fas, |fas.syms|);
    EHDR_SIZE + |SECTION_NAMES| + |t.str| + SYM_SIZE * |t.syms|
  }

  lemma {:induction false} SymtabEntryLies(syms: seq<Sym>, i: nat)
    requires AllFit(syms) && i < |syms|
    ensures Lies(Words(SymtabWords(syms)), 16 * i, Words(SymWords(syms[i])))
  {
    SymtabFront(syms);
    if i > 0 {
      SymtabEntryLies(syms[1..], i - 1);
      LiesLast(Words(SymWords(syms[0])), Words(SymtabWords(syms[1..])));
      LiesTrans(Words(SymtabWords(syms)), 16, Words(SymtabWords(syms[1..])), 16 * (i - 1), Words(SymWords(syms[i])));
    }
  }
}
