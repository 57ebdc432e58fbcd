/** Sector addresses and the loaders' sector-by-sector read, the BIOS call being
    a copy from an array of sectors. */
module Disk {
  import opened Common
  import opened Bytes

  const SECTOR := 512

  /** Heads per cylinder and sectors per track. */
  datatype Geometry = Geometry(hpc: nat, spt: nat) {
    predicate Valid() {
      hpc > 0 && spt > 0
    }

    /** What `int 0x13` can address: a head in a byte, a sector in six bits. */
    predicate ForBios() {
      Valid() && hpc <= 256 && spt <= 63
    }
  }

  const FLOPPY := Geometry(2, 18)

  datatype Chs = Chs(c: int, h: int, s: int)

  /** The boot sector's and the loader's way: by sectors per track, then by heads. */
  function ByTrack(g: Geometry, lba: nat): Chs
    requires g.Valid()
  {
    Chs(lba / g.spt / g.hpc, lba / g.spt % g.hpc, lba % g.spt + 1)
  }

  /** The floppy driver's way: by cylinder, then by sectors per track. */
  function ByCylinder(g: Geometry, lba: nat): Chs
    requires g.Valid() && g.hpc * g.spt > 0
  {
    var rest := lba % (g.hpc * g.spt);
    Chs(lba / (g.hpc * g.spt), rest / g.spt, rest % g.spt + 1)
  }

  function ToLba(g: Geometry, a: Chs): int {
    (a.c * g.hpc + a.h) * g.spt + (a.s - 1)
  }

  ghost predicate OnDisk(g: Geometry, a: Chs) {
    0 <= a.c && 0 <= a.h < g.hpc && 1 <= a.s <= g.spt
  }

  lemma MulBounds(k: int, d: int)
    requires d > 0
    ensures k >= 1 ==> k * d >= d
    ensures k <= -1 ==> k * d <= -d
    ensures k >= 0 ==> k * d >= 0
  {
  }

  /** Quotient and remainder are determined by their equation. */
  lemma DivUnique(n: int, d: int, q: int, r: int)
    requires d > 0 && n == q * d + r && 0 <= r < d
    ensures n / d == q && n % d == r
  {
    var q', r' := n / d, n % d;
    assert n == q' * d + r';
    assert (q - q') * d == q * d - q' * d;
    MulBounds(q - q', d);
  }

  lemma DivMod(n: nat, d: nat)
    requires d > 0
    ensures n == n / d * d + n % d && 0 <= n % d < d && n / d >= 0
  {
  }

  /** A number of cylinders, heads and sectors, regrouped. */
  lemma Regroup(c: int, h: int, s: int, hpc: int, spt: int)
    requires 0 <= c && 0 <= h < hpc && 0 <= s < spt
    ensures (c * hpc + h) * spt + s == c * (hpc * spt) + (h * spt + s)
    ensures 0 <= h * spt + s < hpc * spt && 0 <= c * hpc + h && 0 <= (c * hpc + h) * spt
  {
    assert (c * hpc + h) * spt == c * hpc * spt + h * spt;
    assert c * hpc * spt == c * (hpc * spt);
    assert (hpc - 1 - h) * spt == hpc * spt - spt - h * spt;
    MulBounds(hpc - 1 - h, spt);
    MulBounds(h, spt);
    MulBounds(c, hpc);
    MulBounds(c * hpc + h, spt);
  }

  /** Any address in range is what both forms give back for its sector number. */
  lemma FromParts(g: Geometry, a: Chs)
    requires g.Valid() && OnDisk(g, a)
    ensures ToLba(g, a) >= 0 && g.hpc * g.spt > 0
    ensures ByTrack(g, ToLba(g, a)) == a && ByCylinder(g, ToLba(g, a)) == a
  {
    Regroup(a.c, a.h, a.s - 1, g.hpc, g.spt);
    var track, rest, lba := a.c * g.hpc + a.h, a.h * g.spt + (a.s - 1), ToLba(g, a);
    DivUnique(lba, g.spt, track, a.s - 1);
    DivUnique(track, g.hpc, a.c, a.h);
    DivUnique(lba, g.hpc * g.spt, a.c, rest);
    DivUnique(rest, g.spt, a.h, a.s - 1);
  }

  /** The two algorithms agree on every sector number and every geometry, give an
      address in range, and are inverted by (C * HPC + H) * SPT + (S - 1). */
  lemma SameAddress(g: Geometry, lba: nat)
    requires g.Valid()
    ensures g.hpc * g.spt > 0
    ensures ByTrack(g, lba) == ByCylinder(g, lba)
    ensures OnDisk(g, ByTrack(g, lba)) && ToLba(g, ByTrack(g, lba)) == lba
  {
    var a := ByTrack(g, lba);
    var track := lba / g.spt;
    DivMod(lba, g.spt);
    DivMod(track, g.hpc);
    assert OnDisk(g, a) && a.c * g.hpc + a.h == track;
    assert ToLba(g, a) == lba;
    hide ByTrack, ByCylinder, ToLba;
    FromParts(g, a);
  }

  /** `floppy_lba_to_chs` on its registers: 36 sectors a cylinder, quotients kept
      in 8 bits. */
  function FloppyChs(eax: Word): Chs
    requires eax < 0x24_0000
  {
    var ax, dx := eax / 36, eax % 36;
    Chs(ax % 256, dx / 18, dx % 18 + 1)
  }

  /** It is exact precisely while the cylinder fits a byte. */
  lemma FloppyChsIff(eax: Word)
    requires eax < 0x24_0000
    ensures FloppyChs(eax) == ByTrack(FLOPPY, eax) <==> eax < 256 * 36
  {
    var c, rest := eax / 36, eax % 36;
    var h, s := rest / 18, rest % 18;
    DivUnique(eax, 18, 2 * c + h, s);
    DivUnique(2 * c + h, 2, c, h);
  }

  /** The three bytes the loaders pass on of their three words. */
  function InBytes(a: Chs): Chs {
    Chs(a.c % 256, a.h % 256, a.s % 256)
  }

  /** They name every sector of the first 256 cylinders exactly if heads fit a byte
      and sectors, counted from 1, do. */
  lemma InBytesIff(g: Geometry)
    requires g.Valid()
    ensures (forall lba: nat :: lba < 256 * (g.hpc * g.spt) ==> InBytes(ByTrack(g, lba)) == ByTrack(g, lba))
            <==> g.hpc <= 256 && g.spt <= 255
  {
    if g.hpc > 256 {
      NotInBytes(g, Chs(0, 256, 1));
    } else if g.spt > 255 {
      NotInBytes(g, Chs(0, 0, 256));
    } else {
      forall lba: nat | lba < 256 * (g.hpc * g.spt)
        ensures InBytes(ByTrack(g, lba)) == ByTrack(g, lba)
      {
        AllInBytes(g, lba);
      }
    }
  }

  lemma AllInBytes(g: Geometry, lba: nat)
    requires g.Valid() && g.hpc <= 256 && g.spt <= 255 && lba < 256 * (g.hpc * g.spt)
    ensures InBytes(ByTrack(g, lba)) == ByTrack(g, lba)
  {
    SameAddress(g, lba);
    CylinderFits(g, lba);
    hide ByTrack, ByCylinder, ToLba;
  }

  lemma NotInBytes(g: Geometry, a: Chs)
    requires g.Valid() && OnDisk(g, a) && a.c == 0 && InBytes(a) != a
    ensures exists lba: nat :: lba < 256 * (g.hpc * g.spt) && InBytes(ByTrack(g, lba)) != ByTrack(g, lba)
  {
    FromParts(g, a);
    Regroup(0, a.h, a.s - 1, g.hpc, g.spt);
    var lba: nat := ToLba(g, a);
    assert ByTrack(g, lba) == a && lba < 256 * (g.hpc * g.spt);
  }

  // ----- reading -----

  function Concat(sectors: seq<seq<byte>>): (r: seq<byte>)
    decreases |sectors|
  {
    if sectors == [] then [] else sectors[0] + Concat(sectors[1..])
  }

  ghost predicate Sectors(disk: seq<seq<byte>>) {
    forall i :: 0 <= i < |disk| ==> |disk[i]| == SECTOR
  }

  lemma {:induction false} ConcatLength(s: seq<seq<byte>>)
    requires Sectors(s)
    ensures |Concat(s)| == SECTOR * |s|
    decreases |s|
  {
    if s != [] {
      ConcatLength(s[1..]);
    }
  }

  lemma {:induction false} ConcatSnoc(s: seq<seq<byte>>, x: seq<byte>)
    ensures Concat(s + [x]) == Concat(s) + x
    decreases |s|
  {
    if s == [] {
      assert s + [x] == [x] && [x][1..] == [];
    } else {
      assert (s + [x])[1..] == s[1..] + [x];
      ConcatSnoc(s[1..], x);
    }
  }

  lemma {:induction false} ConcatJoin(a: seq<seq<byte>>, b: seq<seq<byte>>)
    ensures Concat(a + b) == Concat(a) + Concat(b)
    decreases |a|
  {
    if a == [] {
      assert a + b == b;
    } else {
      assert (a + b)[1..] == a[1..] + b;
      ConcatJoin(a[1..], b);
    }
  }

  /** Memory with a run of bytes replaced. */
  function Patch(mem: seq<byte>, at: nat, bytes: seq<byte>): (r: seq<byte>)
    requires at + |bytes| <= |mem|
    ensures |r| == |mem|
  {
    mem[..at] + bytes + mem[at + |bytes|..]
  }

  lemma PatchNothing(mem: seq<byte>, at: nat)
    requires at <= |mem|
    ensures Patch(mem, at, []) == mem
  {
  }

  lemma PatchTwice(mem: seq<byte>, at: nat, a: seq<byte>, b: seq<byte>)
    requires at + |a| + |b| <= |mem|
    ensures Patch(Patch(mem, at, a), at + |a|, b) == Patch(mem, at, a + b)
  {
    var m := Patch(mem, at, a);
    assert m[..at + |a|] == mem[..at] + a;
    assert m[at + |a| + |b|..] == mem[at + |a| + |b|..];
  }

  class Machine {
    const geometry: Geometry
    const disk: seq<seq<byte>>
    const mem: array<byte>

    constructor (geometry: Geometry, disk: seq<seq<byte>>, mem: array<byte>)
      ensures this.geometry == geometry && this.disk == disk && this.mem == mem
    {
      this.geometry, this.disk, this.mem := geometry, disk, mem;
    }

    ghost predicate Valid() {
      geometry.ForBios() && Sectors(disk)
    }

    /** `int 0x13`, function 2, one sector; cylinder, head and sector are bytes. */
    method ReadOne(ch: int, cl: int, dh: int, at: nat)
      requires Valid() && OnDisk(geometry, Chs(ch, dh, cl))
      requires 0 <= ToLba(geometry, Chs(ch, dh, cl)) < |disk| && at + SECTOR <= mem.Length
      modifies mem
      ensures mem[..] == Patch(old(mem[..]), at, disk[ToLba(geometry, Chs(ch, dh, cl))])
    {
      var sector := disk[ToLba(geometry, Chs(ch, dh, cl))];
      forall i | 0 <= i < SECTOR {
        mem[at + i] := sector[i];
      }
    }

    /** One sector: divide, and call the BIOS with the low bytes of C, H and S. */
    method ReadLba(lba: nat, at: nat)
      requires Valid() && lba < |disk| && lba < 256 * (geometry.hpc * geometry.spt) && at + SECTOR <= mem.Length
      modifies mem
      ensures mem[..] == Patch(old(mem[..]), at, disk[lba])
    {
      hide Patch;
      var s, t := lba % geometry.spt + 1, lba / geometry.spt;
      var c, h := t / geometry.hpc, t % geometry.hpc;
      SameAddress(geometry, lba);
      CylinderFits(geometry, lba);
      ReadOne(c % 256, s % 256, h % 256, at);
    }

    /** `disk_read_sectors`: one BIOS call a sector, AX and BX stepping along. The
        low bytes of C, H and S go to the BIOS, so every cylinder must fit one. */
    method ReadSectors(ax: nat, cx: nat, es: nat, bx: nat) returns (bx': nat)
      requires Valid() && cx > 0 && ax + cx <= |disk| && ax + cx <= 0x1_0000
      requires ax + cx <= 256 * (geometry.hpc * geometry.spt)
      requires bx + SECTOR * cx <= 0x1_0000 && es * 16 + bx + SECTOR * cx <= mem.Length
      modifies mem
      ensures |Concat(disk[ax..ax + cx])| == SECTOR * cx
      ensures mem[..] == Patch(old(mem[..]), es * 16 + bx, Concat(disk[ax..ax + cx]))
      ensures bx' == (bx + SECTOR * cx) % 0x1_0000
    {
      hide Patch, Concat, Sectors;
      ghost var before := mem[..];
      PatchNothing(before, es * 16 + bx);
      var lba, count := ax, cx;
      bx' := bx;
      SliceLength(disk, ax, ax + cx);
      assert disk[ax..ax] == [];
      ConcatNothing();
      while true
        invariant 0 < count <= cx && lba == ax + (cx - count) && bx' == bx + SECTOR * (cx - count)
        invariant |Concat(disk[ax..lba])| == SECTOR * (lba - ax)
        invariant mem[..] == Patch(before, es * 16 + bx, Concat(disk[ax..lba]))
        decreases count
      {
        ReadLba(lba, es * 16 + bx');
        StepRead(before, es * 16 + bx, disk, ax, lba);
        bx', lba, count := (bx' + SECTOR) % 0x1_0000, lba + 1, count - 1;
        if count == 0 { break; }
      }
    }
  }

  lemma SliceLength(disk: seq<seq<byte>>, from: nat, to: nat)
    requires Sectors(disk) && from <= to <= |disk|
    ensures |Concat(disk[from..to])| == SECTOR * (to - from)
  {
    ConcatLength(disk[from..to]);
  }

  lemma ConcatNothing()
    ensures Concat([]) == []
  {
  }

  lemma CylinderFits(g: Geometry, lba: nat)
    requires g.Valid() && lba < 256 * (g.hpc * g.spt)
    ensures 0 <= ByTrack(g, lba).c < 256
  {
    SameAddress(g, lba);
    var n, q := g.hpc * g.spt, lba / (g.hpc * g.spt);
    assert lba == q * n + lba % n;
    assert (q - 256) * n == q * n - 256 * n;
    MulBounds(q - 256, n);
  }

  lemma StepRead(mem: seq<byte>, at: nat, disk: seq<seq<byte>>, ax: nat, lba: nat)
    requires Sectors(disk) && ax <= lba < |disk| && at + SECTOR * (lba + 1 - ax) <= |mem|
    ensures |Concat(disk[ax..lba])| == SECTOR * (lba - ax)
    ensures |Concat(disk[ax..lba + 1])| == SECTOR * (lba + 1 - ax)
    ensures Patch(Patch(mem, at, Concat(disk[ax..lba])), at + SECTOR * (lba - ax), disk[lba])
         == Patch(mem, at, Concat(disk[ax..lba + 1]))
  {
    ConcatLength(disk[ax..lba]);
    ConcatLength(disk[ax..lba + 1]);
    assert disk[ax..lba + 1] == disk[ax..lba] + [disk[lba]];
    ConcatSnoc(disk[ax..lba], disk[lba]);
    PatchTwice(mem, at, Concat(disk[ax..lba]), disk[lba]);
  }
}
