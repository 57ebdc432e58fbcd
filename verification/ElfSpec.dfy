/** The object file fas2sym writes, and a reader that knows only the ELF rules
    (TIS ELF specification 1.2, Book I, chapter 1: ELF header, sections, string
    table, symbol table). */
module ElfSpec {
  import opened Common
  import opened Bytes

  // ----- what is written -----

  datatype Sym = Sym(name: Word, value: Word, size: Word, info: byte, shndx: int) {
    predicate Fits() {
      0 <= shndx < 0x1_0000
    }
  }

  const SHN_ABS := 0xFFF1
  const STT_OBJECT: byte := 1
  const STT_FILE: byte := 4
  const SEC_TEXT := 1
  const SEC_SHSTRTAB := 2
  const SEC_STRTAB := 3
  const SEC_SYMTAB := 4
  const SEC_END := 5
  const SHT_SYMTAB := 2
  const SHT_STRTAB := 3
  const SHT_NOBITS := 8
  const EHDR_SIZE := 52
  const SHDR_SIZE := 40
  const SYM_SIZE := 16
  const NULL_SYM := Sym(0, 0, 0, 0, 0)

  /** st_info, st_other = 0 and st_shndx share the fourth word. */
  function SymWords(s: Sym): (ws: seq<Word>)
    requires s.Fits()
    ensures |ws| == 4
  {
    [s.name, s.value, s.size, Halves(s.info, s.shndx)]
  }

  ghost predicate AllFit(syms: seq<Sym>) {
    forall i :: 0 <= i < |syms| ==> syms[i].Fits()
  }

  function SymtabWords(syms: seq<Sym>): (ws: seq<Word>)
    requires forall i :: 0 <= i < |syms| ==> syms[i].Fits()
    ensures |ws| == 4 * |syms|
  {
    if syms == [] then [] else SymWords(syms[0]) + SymtabWords(syms[1..])
  }

  datatype Shdr = Shdr(name: Word, kind: Word, flags: Word, addr: Word, offset: Word,
                       size: Word, link: Word, info: Word, align: Word, entsize: Word)

  function ShdrWords(h: Shdr): (ws: seq<Word>)
    ensures |ws| == 10
  {
    [h.name, h.kind, h.flags, h.addr, h.offset, h.size, h.link, h.info, h.align, h.entsize]
  }

  function ShdrTable(hs: seq<Shdr>): (ws: seq<Word>)
    ensures |ws| == 10 * |hs|
  {
    if hs == [] then [] else ShdrWords(hs[0]) + ShdrTable(hs[1..])
  }

  /** The five section headers before anything is known. */
  const INITIAL_SHDRS: seq<Shdr> := [
    Shdr(0, 0, 0, 0, 0, 0, 0, 0, 0, 0),
    Shdr(1, SHT_NOBITS, 6, 0, 0, 0, 0, 0, 1, 0),
    Shdr(7, SHT_STRTAB, 0, 0, 0, 0, 0, 0, 1, 0),
    Shdr(17, SHT_STRTAB, 0, 0, 0, 0, 0, 0, 1, 0),
    Shdr(25, SHT_SYMTAB, 0, 0, 0, 0, SEC_STRTAB, 0, 4, SYM_SIZE)]

  /** e_ident, type DYN, machine 386, version 1, no program headers, five
      section headers of 40 bytes at shoff, names in section 2. */
  function EhdrWords(shoff: Word): (ws: seq<Word>)
    ensures |ws| == 13
  {
    [0x464C_457F, 0x0001_0101, 0, 0, Halves(3, 3), 1, 0, 0, shoff, 0,
     Halves(EHDR_SIZE, 32), Halves(0, SHDR_SIZE), Halves(SEC_END, SEC_SHSTRTAB)]
  }

  /** The file: header, three tables back to back, section headers. */
  function Image(shstr: seq<byte>, str: seq<byte>, symtab: seq<byte>, shdrs: seq<Shdr>): seq<byte> {
    Words(EhdrWords(Low32(EHDR_SIZE + |shstr| + |str| + |symtab|)))
    + shstr + str + symtab + Words(ShdrTable(shdrs))
  }

  /** The headers once offsets, sizes, bounds of .text and symbol count are in. */
  function FinalShdrs(shstrLen: nat, strLen: nat, symtabLen: nat,
                      textAddr: Word, textSize: Word, info: Word): seq<Shdr>
  {
    [ INITIAL_SHDRS[0],
      INITIAL_SHDRS[1].(addr := textAddr, size := textSize),
      INITIAL_SHDRS[2].(offset := EHDR_SIZE, size := Low32(shstrLen)),
      INITIAL_SHDRS[3].(offset := Low32(EHDR_SIZE + shstrLen), size := Low32(strLen)),
      INITIAL_SHDRS[4].(offset := Low32(EHDR_SIZE + shstrLen + strLen), size := Low32(symtabLen), info := info)]
  }

  // ----- the reader -----

  datatype RSym = RSym(name: seq<byte>, value: Word, size: Word, info: byte, shndx: int)
  datatype Object = Object(symbols: seq<RSym>, localCount: int)

  /** The reader's view of one section header. */
  datatype Section = Section(kind: int, offset: int, size: int, link: int, info: int)

  function ReadSection(f: seq<byte>, at: nat): Section
    requires at + SHDR_SIZE <= |f|
  {
    Section(Get32(f, at + 4), Get32(f, at + 16), Get32(f, at + 20), Get32(f, at + 24), Get32(f, at + 28))
  }

  function FindKind(f: seq<byte>, shoff: nat, n: nat, kind: int, i: nat): (k: nat)
    requires i <= n && shoff + SHDR_SIZE * n <= |f|
    ensures k <= n
    decreases n - i
  {
    if i == n || ReadSection(f, shoff + SHDR_SIZE * i).kind == kind then i
    else FindKind(f, shoff, n, kind, i + 1)
  }

  function ReadSym(f: seq<byte>, at: nat, strings: seq<byte>): RSym
    requires at + SYM_SIZE <= |f|
  {
    RSym(CStr(strings, Get32(f, at)), Get32(f, at + 4), Get32(f, at + 8), f[at + 12], Get16(f, at + 14))
  }

  function ReadSyms(f: seq<byte>, at: nat, n: nat, strings: seq<byte>): (r: seq<RSym>)
    requires at + SYM_SIZE * n <= |f|
    ensures |r| == n
    decreases n
  {
    if n == 0 then [] else [ReadSym(f, at, strings)] + ReadSyms(f, at + SYM_SIZE, n - 1, strings)
  }

  /** Magic, section headers, the first symbol table, its linked string table. */
  function ReadObject(f: seq<byte>): Option<Object> {
    if |f| < EHDR_SIZE || Get32(f, 0) != 0x464C_457F then None
    else
      var shoff: int, n := Get32(f, 32), Get16(f, 48);
      if Get16(f, 46) != SHDR_SIZE || |f| < shoff + SHDR_SIZE * n then None
      else
        var k := FindKind(f, shoff, n, SHT_SYMTAB, 0);
        if k == n then None
        else
          var symtab := ReadSection(f, shoff + SHDR_SIZE * k);
          if symtab.link >= n || |f| < symtab.offset + symtab.size then None
          else
            var strtab := ReadSection(f, shoff + SHDR_SIZE * symtab.link);
            if strtab.kind != SHT_STRTAB || |f| < strtab.offset + strtab.size then None
            else
              var strings := f[strtab.offset..strtab.offset + strtab.size];
              Some(Object(ReadSyms(f, symtab.offset, symtab.size / SYM_SIZE, strings), symtab.info))
  }

  // ----- reading back -----

  /** A written symbol as a reader should see it. */
  function View(str: seq<byte>, s: Sym): RSym {
    RSym(CStr(str, s.name), s.value, s.size, s.info, s.shndx)
  }

  function Views(str: seq<byte>, syms: seq<Sym>): (r: seq<RSym>)
    ensures |r| == |syms|
    ensures forall i :: 0 <= i < |syms| ==> r[i] == View(str, syms[i])
  {
    seq(|syms|, i requires 0 <= i < |syms| => View(str, syms[i]))
  }

  lemma SymAt(f: seq<byte>, at: nat, s: Sym, strings: seq<byte>)
    requires s.Fits() && Lies(f, at, Words(SymWords(s)))
    ensures at + SYM_SIZE <= |f| && ReadSym(f, at, strings) == View(strings, s)
  {
    var ws := SymWords(s);
    assert ws[3] % 0x1_0000 == s.info && ws[3] / 0x1_0000 == s.shndx;
    hide Lies, Words, CStr, Get32, Get16;
    WordAt(f, at, ws, 0);
    WordAt(f, at, ws, 1);
    WordAt(f, at, ws, 2);
    WordAt(f, at, ws, 3);
    LowByte(f, at + 12, s.info);
  }

  lemma LowByte(f: seq<byte>, off: nat, v: byte)
    requires off + 2 <= |f| && Get16(f, off) == v
    ensures f[off] == v
  {
  }

  lemma {:induction false} SymtabAt(f: seq<byte>, at: nat, syms: seq<Sym>, strings: seq<byte>)
    requires AllFit(syms) && Lies(f, at, Words(SymtabWords(syms)))
    ensures at + SYM_SIZE * |syms| <= |f|
    ensures ReadSyms(f, at, |syms|, strings) == Views(strings, syms)
    decreases |syms|
  {
    if syms != [] {
      hide Lies, Words, SymWords, SymtabWords, View, ReadSym, CStr, ReadSyms, Views;
      SymtabParts(f, at, syms);
      SymAt(f, at, syms[0], strings);
      SymtabAt(f, at + SYM_SIZE, syms[1..], strings);
      ReadCons(f, at, |syms| - 1, strings);
      ViewsCons(strings, syms);
    }
  }

  /** The first entry lies in front, the others after it. */
  lemma {:induction false} SymtabParts(f: seq<byte>, at: nat, syms: seq<Sym>)
    requires AllFit(syms) && Lies(f, at, Words(SymtabWords(syms))) && syms != []
    ensures Lies(f, at, Words(SymWords(syms[0])))
    ensures Lies(f, at + SYM_SIZE, Words(SymtabWords(syms[1..])))
  {
    hide Lies, Words, SymWords;
    var first, rest := SymWords(syms[0]), SymtabWords(syms[1..]);
    WordsConcat(first, rest);
    LiesLast(Words(first), Words(rest));
    LiesStart(Words(first), Words(rest));
    LiesTrans(f, at, Words(SymtabWords(syms)), 0, Words(first));
    LiesTrans(f, at, Words(SymtabWords(syms)), SYM_SIZE, Words(rest));
  }

  lemma ReadCons(f: seq<byte>, at: nat, n: nat, strings: seq<byte>)
    requires at + SYM_SIZE * (n + 1) <= |f|
    ensures ReadSyms(f, at, n + 1, strings) == [ReadSym(f, at, strings)] + ReadSyms(f, at + SYM_SIZE, n, strings)
  {
  }

  lemma ViewsCons(strings: seq<byte>, syms: seq<Sym>)
    requires syms != []
    ensures Views(strings, syms) == [View(strings, syms[0])] + Views(strings, syms[1..])
  {
  }

  lemma LiesIs(s: seq<byte>, off: nat, piece: seq<byte>)
    requires Lies(s, off, piece)
    ensures off + |piece| <= |s| && s[off..off + |piece|] == piece
  {
  }

  lemma LiesStart(a: seq<byte>, b: seq<byte>)
    ensures Lies(a + b, 0, a)
  {
  }

  lemma {:induction false} ShdrWordAt(hs: seq<Shdr>, i: nat, j: nat)
    requires i < |hs| && j < 10
    ensures ShdrTable(hs)[10 * i + j] == ShdrWords(hs[i])[j]
  {
    if i > 0 {
      ShdrWordAt(hs[1..], i - 1, j);
    }
  }

  lemma {:induction false} ShdrField(f: seq<byte>, at: nat, hs: seq<Shdr>, i: nat, j: nat)
    requires Lies(f, at, Words(ShdrTable(hs))) && i < |hs| && j < 10
    ensures at + SHDR_SIZE * i + 4 * j + 4 <= |f|
    ensures Get32(f, at + SHDR_SIZE * i + 4 * j) == ShdrWords(hs[i])[j]
  {
    ShdrWordAt(hs, i, j);
    WordAt(f, at, ShdrTable(hs), 10 * i + j);
    assert 4 * (10 * i + j) == SHDR_SIZE * i + 4 * j;
  }

  lemma {:induction false} SectionAt(f: seq<byte>, at: nat, hs: seq<Shdr>, i: nat)
    requires Lies(f, at, Words(ShdrTable(hs))) && i < |hs|
    ensures at + SHDR_SIZE * i + SHDR_SIZE <= |f|
    ensures ReadSection(f, at + SHDR_SIZE * i)
         == Section(hs[i].kind, hs[i].offset, hs[i].size, hs[i].link, hs[i].info)
  {
    hide Words, ShdrTable, Get32;
    ShdrField(f, at, hs, i, 1);
    ShdrField(f, at, hs, i, 4);
    ShdrField(f, at, hs, i, 5);
    ShdrField(f, at, hs, i, 6);
    ShdrField(f, at, hs, i, 7);
    ShdrField(f, at, hs, i, 9);
  }

  /** Where each part of the file lies. */
  lemma Layout(shstr: seq<byte>, str: seq<byte>, symtab: seq<byte>, hs: seq<Shdr>)
    ensures var f := Image(shstr, str, symtab, hs);
            var shoff := EHDR_SIZE + |shstr| + |str| + |symtab|;
            && Lies(f, 0, Words(EhdrWords(Low32(shoff))))
            && Lies(f, EHDR_SIZE, shstr)
            && Lies(f, EHDR_SIZE + |shstr|, str)
            && Lies(f, EHDR_SIZE + |shstr| + |str|, symtab)
            && Lies(f, shoff, Words(ShdrTable(hs)))
            && |f| == shoff + SHDR_SIZE * |hs|
  {
    var e := Words(EhdrWords(Low32(EHDR_SIZE + |shstr| + |str| + |symtab|)));
    var h := Words(ShdrTable(hs));
    assert Lies(e, 0, e);
    LiesFront(e, 0, e, shstr);
    LiesFront(e + shstr, 0, e, str);
    LiesFront(e + shstr + str, 0, e, symtab);
    LiesFront(e + shstr + str + symtab, 0, e, h);
    LiesLast(e, shstr);
    LiesFront(e + shstr, |e|, shstr, str);
    LiesFront(e + shstr + str, |e|, shstr, symtab);
    LiesFront(e + shstr + str + symtab, |e|, shstr, h);
    LiesLast(e + shstr, str);
    LiesFront(e + shstr + str, |e + shstr|, str, symtab);
    LiesFront(e + shstr + str + symtab, |e + shstr|, str, h);
    LiesLast(e + shstr + str, symtab);
    LiesFront(e + shstr + str + symtab, |e + shstr + str|, symtab, h);
    LiesLast(e + shstr + str + symtab, h);
  }

  /** What the reader does once header and tables are known. */
  lemma ReaderFollows(f: seq<byte>, shoff: nat, symtab: Section, strtab: Section, syms: seq<RSym>)
    ensures && |f| >= EHDR_SIZE && shoff + SHDR_SIZE * SEC_END <= |f|
            && Get32(f, 0) == 0x464C_457F && Get32(f, 32) == shoff
            && Get16(f, 46) == SHDR_SIZE && Get16(f, 48) == SEC_END
            && FindKind(f, shoff, SEC_END, SHT_SYMTAB, 0) == SEC_SYMTAB
            && ReadSection(f, shoff + SHDR_SIZE * SEC_SYMTAB) == symtab && symtab.link == SEC_STRTAB
            && ReadSection(f, shoff + SHDR_SIZE * SEC_STRTAB) == strtab && strtab.kind == SHT_STRTAB
            && 0 <= symtab.offset && 0 <= symtab.size && symtab.offset + symtab.size <= |f|
            && 0 <= strtab.offset && 0 <= strtab.size && strtab.offset + strtab.size <= |f|
            && ReadSyms(f, symtab.offset, symtab.size / SYM_SIZE, f[strtab.offset..strtab.offset + strtab.size]) == syms
            ==> ReadObject(f) == Some(Object(syms, symtab.info))
  {
    hide FindKind, ReadSection, ReadSyms, Get32, Get16;
  }

  /** The fields of the final headers the reader looks at. */
  lemma FinalFields(shstrLen: nat, strLen: nat, symtabLen: nat, textAddr: Word, textSize: Word, info: Word)
    requires EHDR_SIZE + shstrLen + strLen + symtabLen < LIMIT
    ensures var hs := FinalShdrs(shstrLen, strLen, symtabLen, textAddr, textSize, info);
            && |hs| == SEC_END
            && (forall i :: 0 <= i < SEC_END ==>
                  hs[i].kind == INITIAL_SHDRS[i].kind && hs[i].link == INITIAL_SHDRS[i].link)
            && hs[4].offset == EHDR_SIZE + shstrLen + strLen && hs[4].size == symtabLen && hs[4].info == info
            && hs[3].offset == EHDR_SIZE + shstrLen && hs[3].size == strLen && hs[3].info == 0
            && hs[2].offset == EHDR_SIZE && hs[2].size == shstrLen
  {
  }

  /** Re-reading the written file by the ELF rules gives back every symbol with
      its name, value, size, kind and section, in order. */
  lemma ReadBack(shstr: seq<byte>, str: seq<byte>, syms: seq<Sym>, textAddr: Word, textSize: Word, info: Word)
    requires AllFit(syms)
    requires EHDR_SIZE + |shstr| + |str| + SYM_SIZE * |syms| < LIMIT
    ensures var symtab := Words(SymtabWords(syms));
            var hs := FinalShdrs(|shstr|, |str|, |symtab|, textAddr, textSize, info);
            ReadObject(Image(shstr, str, symtab, hs)) == Some(Object(Views(str, syms), info))
  {
    hide Words, SymtabWords, ShdrTable, EhdrWords, Image, ReadObject, FinalShdrs, Views, Lies;
    var symtab := Words(SymtabWords(syms));
    var hs := FinalShdrs(|shstr|, |str|, |symtab|, textAddr, textSize, info);
    FinalFields(|shstr|, |str|, |symtab|, textAddr, textSize, info);
    Layout(shstr, str, symtab, hs);
    ReadTables(Image(shstr, str, symtab, hs), EHDR_SIZE + |shstr| + |str| + |symtab|, EHDR_SIZE + |shstr|,
               EHDR_SIZE + |shstr| + |str|, str, syms, hs);
  }

  /** What the reader finds where header, string table, symbol table and section
      headers lie at the places the headers name. */
  lemma ReadTables(f: seq<byte>, shoff: Word, strAt: nat, at: nat, str: seq<byte>, syms: seq<Sym>, hs: seq<Shdr>)
    requires AllFit(syms) && |hs| == SEC_END
    requires Lies(f, 0, Words(EhdrWords(shoff))) && Lies(f, shoff, Words(ShdrTable(hs)))
    requires Lies(f, strAt, str) && Lies(f, at, Words(SymtabWords(syms)))
    requires forall i :: 0 <= i < SEC_END ==> hs[i].kind == INITIAL_SHDRS[i].kind && hs[i].link == INITIAL_SHDRS[i].link
    requires hs[4].offset == at && hs[4].size == SYM_SIZE * |syms|
    requires hs[3].offset == strAt && hs[3].size == |str| && hs[3].info == 0
    ensures ReadObject(f) == Some(Object(Views(str, syms), hs[4].info))
  {
    hide Words, SymtabWords, ShdrTable, EhdrWords, ReadObject, ReadSyms, FindKind, ReadSection;
    hide Views, Lies, Get32, Get16;
    HeaderAt(f, shoff);
    FindSymtab(f, shoff, hs);
    SymtabAt(f, at, syms, str);
    LiesIs(f, strAt, str);
    ReaderFollows(f, shoff, Section(SHT_SYMTAB, at, SYM_SIZE * |syms|, SEC_STRTAB, hs[4].info),
                  Section(SHT_STRTAB, strAt, |str|, 0, 0), Views(str, syms));
  }

  /** The headers in the file name those places and lengths. */
  lemma OffsetsRecorded(shstr: seq<byte>, str: seq<byte>, symtab: seq<byte>,
                                           textAddr: Word, textSize: Word, info: Word)
    requires EHDR_SIZE + |shstr| + |str| + |symtab| < LIMIT
    ensures var f := Image(shstr, str, symtab, FinalShdrs(|shstr|, |str|, |symtab|, textAddr, textSize, info));
            var shoff := EHDR_SIZE + |shstr| + |str| + |symtab|;
            && |f| == shoff + SHDR_SIZE * SEC_END && Get32(f, 32) == shoff
            && Recorded(ReadSection(f, shoff + SHDR_SIZE * SEC_SHSTRTAB), EHDR_SIZE, |shstr|)
            && Recorded(ReadSection(f, shoff + SHDR_SIZE * SEC_STRTAB), EHDR_SIZE + |shstr|, |str|)
            && Recorded(ReadSection(f, shoff + SHDR_SIZE * SEC_SYMTAB), EHDR_SIZE + |shstr| + |str|, |symtab|)
  {
    var hs := FinalShdrs(|shstr|, |str|, |symtab|, textAddr, textSize, info);
    var f := Image(shstr, str, symtab, hs);
    var shoff := EHDR_SIZE + |shstr| + |str| + |symtab|;
    hide Image, FinalShdrs, Words, EhdrWords, ShdrTable, ReadSection, Get32, Lies;
    FinalFields(|shstr|, |str|, |symtab|, textAddr, textSize, info);
    hide Recorded;
    Layout(shstr, str, symtab, hs);
    HeaderAt(f, shoff);
    TableRecorded(f, shoff, hs, 2);
    TableRecorded(f, shoff, hs, 3);
    TableRecorded(f, shoff, hs, 4);
  }

  lemma {:induction false} TableRecorded(f: seq<byte>, shoff: nat, hs: seq<Shdr>, i: nat)
    requires Lies(f, shoff, Words(ShdrTable(hs))) && i < |hs|
    ensures shoff + SHDR_SIZE * i + SHDR_SIZE <= |f|
    ensures Recorded(ReadSection(f, shoff + SHDR_SIZE * i), hs[i].offset, hs[i].size)
  {
    hide Lies, Words, ShdrTable, ReadSection;
    SectionAt(f, shoff, hs, i);
  }

  /** The second section header in the file, .text's, carries its address and size
      (fields sh_addr and sh_size, at 12 and 20). */
  lemma TextRecorded(shstr: seq<byte>, str: seq<byte>, symtab: seq<byte>, textAddr: Word, textSize: Word, info: Word)
    ensures var f := Image(shstr, str, symtab, FinalShdrs(|shstr|, |str|, |symtab|, textAddr, textSize, info));
            var at := EHDR_SIZE + |shstr| + |str| + |symtab| + SHDR_SIZE * SEC_TEXT;
            at + SHDR_SIZE <= |f| && Get32(f, at + 12) == textAddr && Get32(f, at + 20) == textSize
  {
    var hs := FinalShdrs(|shstr|, |str|, |symtab|, textAddr, textSize, info);
    var f := Image(shstr, str, symtab, hs);
    var at := EHDR_SIZE + |shstr| + |str| + |symtab|;
    assert hs[SEC_TEXT] == INITIAL_SHDRS[SEC_TEXT].(addr := textAddr, size := textSize);
    hide Image, FinalShdrs, Words, EhdrWords, ShdrTable, Get32, Lies;
    Layout(shstr, str, symtab, hs);
    ShdrField(f, at, hs, SEC_TEXT, 3);
    ShdrField(f, at, hs, SEC_TEXT, 5);
  }

  predicate Recorded(s: Section, offset: int, size: int) {
    s.offset == offset && s.size == size
  }

  lemma HeaderAt(f: seq<byte>, shoff: Word)
    requires Lies(f, 0, Words(EhdrWords(shoff)))
    ensures |f| >= EHDR_SIZE
    ensures Get32(f, 0) == 0x464C_457F && Get32(f, 32) == shoff && Get16(f, 46) == SHDR_SIZE && Get16(f, 48) == SEC_END
  {
    var ws := EhdrWords(shoff);
    WordAt(f, 0, ws, 0);
    WordAt(f, 0, ws, 8);
    WordAt(f, 0, ws, 11);
    WordAt(f, 0, ws, 12);
  }

  /** The identification: an ELF file of 32-bit little-endian objects, of type ET_DYN (3)
      for machine EM_386 (3), with a 52-byte header and five 40-byte section headers at
      shoff, the section names in section 2, and no program header. */
  lemma {:induction false} HeaderMeans(f: seq<byte>, shoff: Word)
    requires Lies(f, 0, Words(EhdrWords(shoff)))
    ensures |f| >= 52
    ensures f[0] == 0x7F && f[1] == 0x45 && f[2] == 0x4C && f[3] == 0x46 && f[4] == 1 && f[5] == 1 && f[6] == 1
    ensures Get16(f, 16) == 3 && Get16(f, 18) == 3 && Get32(f, 20) == 1
    ensures Get32(f, 32) == shoff && Get16(f, 40) == 52 && Get16(f, 46) == 40 && Get16(f, 48) == 5 && Get16(f, 50) == 2
    ensures Get16(f, 44) == 0
  {
    var ws := EhdrWords(shoff);
    hide Words, Lies;
    WordAt(f, 0, ws, 0);
    WordAt(f, 0, ws, 1);
    WordAt(f, 0, ws, 4);
    WordAt(f, 0, ws, 5);
    WordAt(f, 0, ws, 8);
    WordAt(f, 0, ws, 10);
    WordAt(f, 0, ws, 11);
    WordAt(f, 0, ws, 12);
    hide EhdrWords;
    HalfBytes(f, 0);
    HalfBytes(f, 2);
    HalfBytes(f, 4);
    HalfBytes(f, 6);
  }

  lemma HalfBytes(f: seq<byte>, off: nat)
    requires off + 2 <= |f|
    ensures f[off] == Get16(f, off) % 256 && f[off + 1] == Get16(f, off) / 256
  {
  }

  /** A section's name, found as a reader finds it: through e_shoff and e_shstrndx. */
  function SectionName(f: seq<byte>, k: nat): seq<byte> {
    if |f| < 52 then []
    else
      var shoff: int := Get32(f, 32);
      var names := shoff + 40 * Get16(f, 50);
      if |f| < names + 40 || |f| < shoff + 40 * k + 40 then []
      else
        var at: int, len: int := Get32(f, names + 16), Get32(f, names + 20);
        if |f| < at + len then [] else CStr(f[at..at + len], Get32(f, shoff + 40 * k))
  }

  /** Field j of section header k, the fields being ten words each. */
  function SectionField(f: seq<byte>, k: nat, j: nat): int {
    if |f| < 36 then -1
    else
      var at := Get32(f, 32) as int + 40 * k + 4 * j;
      if |f| < at + 4 then -1 else Get32(f, at)
  }

  /** Names and fields as the image has them. */
  lemma {:induction false} SectionMeans(shstr: seq<byte>, str: seq<byte>, symtab: seq<byte>,
                                        textAddr: Word, textSize: Word, info: Word, k: nat)
    requires EHDR_SIZE + |shstr| + |str| + |symtab| < LIMIT && k < 5
    ensures var hs := FinalShdrs(|shstr|, |str|, |symtab|, textAddr, textSize, info);
            var f := Image(shstr, str, symtab, hs);
            && SectionName(f, k) == CStr(shstr, hs[k].name)
            && forall j :: 0 <= j < 10 ==> SectionField(f, k, j) == ShdrWords(hs[k])[j]
  {
    var hs := FinalShdrs(|shstr|, |str|, |symtab|, textAddr, textSize, info);
    var f := Image(shstr, str, symtab, hs);
    var shoff := EHDR_SIZE + |shstr| + |str| + |symtab|;
    hide Image, FinalShdrs, Words, EhdrWords, ShdrTable, ShdrWords, Get32, Get16, Lies, CStr, SectionName, SectionField;
    FinalFields(|shstr|, |str|, |symtab|, textAddr, textSize, info);
    Layout(shstr, str, symtab, hs);
    HeaderMeans(f, shoff);
    NameThrough(f, shoff, hs, k, shstr);
    FieldsThrough(f, shoff, hs, k);
  }

  lemma {:induction false} FieldsThrough(f: seq<byte>, shoff: Word, hs: seq<Shdr>, k: nat)
    requires |f| >= 52 && Get32(f, 32) == shoff && Lies(f, shoff, Words(ShdrTable(hs))) && k < |hs|
    ensures forall j :: 0 <= j < 10 ==> SectionField(f, k, j) == ShdrWords(hs[k])[j]
  {
    hide Words, ShdrTable, ShdrWords, Get32, Lies;
    forall j | 0 <= j < 10
      ensures SectionField(f, k, j) == ShdrWords(hs[k])[j]
    {
      ShdrField(f, shoff, hs, k, j);
    }
  }

  lemma {:induction false} NameThrough(f: seq<byte>, shoff: Word, hs: seq<Shdr>, k: nat, shstr: seq<byte>)
    requires |f| >= 52 && Get32(f, 32) == shoff && Get16(f, 50) == 2
    requires Lies(f, shoff, Words(ShdrTable(hs))) && |hs| == 5 && k < 5
    requires Lies(f, hs[2].offset, shstr) && hs[2].size == |shstr|
    ensures SectionName(f, k) == CStr(shstr, hs[k].name)
  {
    hide Words, ShdrTable, ShdrWords, Get32, Get16, Lies, CStr;
    TableFits(f, shoff, hs);
    ShdrField(f, shoff, hs, 2, 4);
    ShdrField(f, shoff, hs, 2, 5);
    ShdrField(f, shoff, hs, k, 0);
    NameWords(hs[2]);
    NameWords(hs[k]);
    LiesIs(f, hs[2].offset, shstr);
  }

  lemma {:induction false} TableFits(f: seq<byte>, shoff: nat, hs: seq<Shdr>)
    requires Lies(f, shoff, Words(ShdrTable(hs))) && |hs| == 5
    ensures shoff + 200 <= |f|
  {
  }

  lemma NameWords(h: Shdr)
    ensures ShdrWords(h)[0] == h.name && ShdrWords(h)[4] == h.offset && ShdrWords(h)[5] == h.size
  {
  }

  lemma FindSymtab(f: seq<byte>, shoff: nat, hs: seq<Shdr>)
    requires |hs| == SEC_END && Lies(f, shoff, Words(ShdrTable(hs)))
    requires forall i :: 0 <= i < SEC_END ==> hs[i].kind == INITIAL_SHDRS[i].kind && hs[i].link == INITIAL_SHDRS[i].link
    ensures shoff + SHDR_SIZE * SEC_END <= |f|
    ensures FindKind(f, shoff, SEC_END, SHT_SYMTAB, 0) == SEC_SYMTAB
    ensures var s := ReadSection(f, shoff + SHDR_SIZE * SEC_SYMTAB);
            s == Section(SHT_SYMTAB, hs[4].offset, hs[4].size, SEC_STRTAB, hs[4].info)
    ensures var s := ReadSection(f, shoff + SHDR_SIZE * SEC_STRTAB);
            s == Section(SHT_STRTAB, hs[3].offset, hs[3].size, 0, hs[3].info)
  {
    SectionAt(f, shoff, hs, 4);
    SectionAt(f, shoff, hs, 3);
    SectionAt(f, shoff, hs, 2);
    SectionAt(f, shoff, hs, 1);
    SectionAt(f, shoff, hs, 0);
    assert FindKind(f, shoff, SEC_END, SHT_SYMTAB, 4) == 4;
    assert FindKind(f, shoff, SEC_END, SHT_SYMTAB, 3) == 4;
    assert FindKind(f, shoff, SEC_END, SHT_SYMTAB, 2) == 4;
    assert FindKind(f, shoff, SEC_END, SHT_SYMTAB, 1) == 4;
  }
}
