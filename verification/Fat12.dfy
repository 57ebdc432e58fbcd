/** The FAT12 part of the boot loaders: packed 12-bit entries, and a file loaded
    cluster by cluster along its chain. */
module Fat12 {
  import opened Common
  import opened Bytes
  import opened Disk

  const DISK_BUFFER := 0x8000
  const END_MARK := 0xFF0
  const DIR_ENTRY := 32
  const NAME_SIZE := 11

  type Entry = x: int | 0 <= x < 0x1000

  // ----- the table -----

  /** Two entries share three bytes (Microsoft FAT specification, section 4.1). */
  function Pack(t: seq<Entry>): seq<byte>
    decreases |t|
  {
    if t == [] then []
    else
      var b: Entry := if |t| > 1 then t[1] else 0;
      [t[0] % 0x100, t[0] / 0x100 + 0x10 * (b % 0x10), b / 0x10] + Pack(if |t| > 1 then t[2..] else [])
  }

  /** The loaders' decoding: the word at n + n/2, its low twelve bits for an even
      cluster, its high twelve for an odd one. */
  function Decode(fat: seq<byte>, n: nat): int
    requires n + n / 2 + 2 <= |fat|
  {
    var w := Get16(fat, n + n / 2);
    if n % 2 == 0 then w % 0x1000 else w / 0x10
  }

  lemma DecodePair(a: Entry, b: Entry)
    ensures (a % 0x100 + 0x100 * (a / 0x100 + 0x10 * (b % 0x10))) % 0x1000 == a
    ensures (a / 0x100 + 0x10 * (b % 0x10) + 0x100 * (b / 0x10)) / 0x10 == b
  {
  }

  /** A packed table continues after its first pair with the rest packed. */
  lemma {:induction false} PackSplit(t: seq<Entry>)
    requires |t| >= 2
    ensures Pack(t)[..3] == Pack(t[..2]) && Pack(t)[3..] == Pack(t[2..]) && |Pack(t[..2])| == 3
  {
    assert t[..2][2..] == [];
    assert Pack([]) == [];
  }

  lemma {:induction false} DecodeFirst(t: seq<Entry>, n: nat)
    requires n < |t| && n < 2
    ensures n + n / 2 + 2 <= |Pack(t)| && Decode(Pack(t), n) == t[n]
  {
    var b: Entry := if |t| > 1 then t[1] else 0;
    var p := Pack(t);
    assert p[0] == t[0] % 0x100 && p[1] == t[0] / 0x100 + 0x10 * (b % 0x10) && p[2] == b / 0x10;
    hide Pack;
    DecodePair(t[0], b);
  }

  /** Decoding recovers every entry of a packed table. */
  lemma {:induction false} DecodePacked(t: seq<Entry>, n: nat)
    requires n < |t|
    ensures n + n / 2 + 2 <= |Pack(t)|
    ensures Decode(Pack(t), n) == t[n]
    decreases |t|
  {
    if n >= 2 {
      var p, q := Pack(t), Pack(t[2..]);
      PackSplit(t);
      DecodePacked(t[2..], n - 2);
      hide Pack;
      var m := n - 2 + (n - 2) / 2;
      assert n + n / 2 == 3 + m;
      assert q == p[3..];
      assert p[3 + m] == q[m] && p[3 + m + 1] == q[m + 1];
    } else {
      DecodeFirst(t, n);
    }
  }

  // ----- chains -----

  /** Clusters cs in order: each entry names the next, the last one ends it. */
  ghost predicate Chain(fat: seq<byte>, cs: seq<nat>) {
    && cs != []
    && (forall i :: 0 <= i < |cs| ==> Readable(fat, cs[i]))
    && (forall i :: 0 <= i < |cs| - 1 ==> Link(fat, cs, i))
    && Decode(fat, cs[|cs| - 1]) >= 0xFF0
  }

  predicate Readable(fat: seq<byte>, c: nat) {
    2 <= c && c + c / 2 + 2 <= |fat|
  }

  predicate Link(fat: seq<byte>, cs: seq<nat>, i: int)
    requires 0 <= i < |cs| - 1 && Readable(fat, cs[i])
  {
    Decode(fat, cs[i]) == cs[i + 1] && cs[i + 1] < 0xFF0
  }

  /** A chain that ends visits no cluster twice: following entries from a repeated
      cluster would never meet the end mark. */
  lemma {:induction false} ChainNeverRepeats(fat: seq<byte>, cs: seq<nat>, i: nat, j: nat)
    requires Chain(fat, cs) && i < j < |cs|
    ensures cs[i] != cs[j]
    decreases |cs| - j
  {
    assert Link(fat, cs, i);
    if j < |cs| - 1 {
      assert Link(fat, cs, j);
      ChainNeverRepeats(fat, cs, i + 1, j + 1);
    }
  }

  /** From its first cluster a table has at most one chain. */
  lemma {:induction false} ChainUnique(fat: seq<byte>, cs: seq<nat>, ds: seq<nat>)
    requires Chain(fat, cs) && Chain(fat, ds) && cs[0] == ds[0]
    ensures cs == ds
    decreases |cs|
  {
    if |cs| > 1 {
      assert Link(fat, cs, 0);
      assert |ds| > 1 by {
        assert Decode(fat, ds[0]) < END_MARK;
      }
      assert Link(fat, ds, 0);
      ChainTail(fat, cs);
      ChainTail(fat, ds);
      ChainUnique(fat, cs[1..], ds[1..]);
      assert cs == [cs[0]] + cs[1..] && ds == [ds[0]] + ds[1..];
    } else {
      assert |ds| > 1 ==> Link(fat, ds, 0);
      assert |ds| == 1;
    }
  }

  lemma ChainTail(fat: seq<byte>, cs: seq<nat>)
    requires Chain(fat, cs) && |cs| > 1
    ensures Chain(fat, cs[1..])
  {
    var t := cs[1..];
    forall i | 0 <= i < |t| - 1
      ensures Link(fat, t, i)
    {
      assert Link(fat, cs, i + 1);
    }
  }

  // ----- the volume -----

  /** The fields of the boot sector that place the root directory. */
  datatype Bpb = Bpb(fatCount: nat, sectorsPerFat: nat, reserved: nat, rootEntries: nat)

  function RootStart(b: Bpb): nat {
    b.reserved + b.fatCount * b.sectorsPerFat
  }

  /** Whole sectors of directory entries, as the division leaves them. */
  function RootSectors(b: Bpb): nat {
    b.rootEntries / (SECTOR / DIR_ENTRY)
  }

  /** A volume as the FAT specification lays it out: reserved sectors, the copies of the
      table, the root directory, and the clusters, numbered from 2. */
  datatype Volume = Volume(reserved: seq<seq<byte>>, fats: seq<seq<seq<byte>>>, root: seq<seq<byte>>,
                           clusters: seq<seq<seq<byte>>>)
  {
    function Image(): seq<seq<byte>> {
      reserved + Flat(fats) + root + Flat(clusters)
    }
  }

  function Flat(parts: seq<seq<seq<byte>>>): seq<seq<byte>>
    decreases |parts|
  {
    if parts == [] then [] else parts[0] + Flat(parts[1..])
  }

  ghost predicate AllOf(parts: seq<seq<seq<byte>>>, n: nat) {
    forall i :: 0 <= i < |parts| ==> |parts[i]| == n
  }

  /** The disk is this volume, with these boot sector fields and cluster length. */
  ghost predicate IsVolume(disk: seq<seq<byte>>, v: Volume, b: Bpb, spc: nat) {
    && disk == v.Image()
    && |v.reserved| == b.reserved && |v.fats| == b.fatCount && AllOf(v.fats, b.sectorsPerFat)
    && |v.root| == b.rootEntries / 16 && AllOf(v.clusters, spc)
  }

  lemma {:induction false} FlatLength(parts: seq<seq<seq<byte>>>, n: nat)
    requires AllOf(parts, n)
    ensures |Flat(parts)| == |parts| * n
    decreases |parts|
  {
    if parts != [] {
      FlatLength(parts[1..], n);
      OneLess(|parts|, n);
    }
  }

  lemma OneLess(k: nat, n: nat)
    requires k > 0
    ensures k * n == n + (k - 1) * n
  {
  }

  lemma {:induction false} FlatAt(parts: seq<seq<seq<byte>>>, n: nat, i: nat)
    requires AllOf(parts, n) && i < |parts|
    ensures i * n + n <= |Flat(parts)| && Flat(parts)[i * n..i * n + n] == parts[i]
    decreases |parts|
  {
    FlatLength(parts[1..], n);
    if i > 0 {
      FlatAt(parts[1..], n, i - 1);
      OneLess(i, n);
      Shifted(parts[0], Flat(parts[1..]), (i - 1) * n, n);
    } else {
      assert 0 * n == 0;
    }
  }

  lemma Shifted(a: seq<seq<byte>>, b: seq<seq<byte>>, at: nat, n: nat)
    requires at + n <= |b|
    ensures (a + b)[|a| + at..|a| + at + n] == b[at..at + n]
  {
  }

  /** The root directory is where its start is computed to be, and the data area begins
      right after it. */
  lemma RootPlaced(disk: seq<seq<byte>>, v: Volume, b: Bpb, spc: nat)
    requires IsVolume(disk, v, b, spc)
    ensures RootSectors(b) == |v.root| && RootStart(b) + |v.root| <= |disk|
    ensures disk[RootStart(b)..RootStart(b) + |v.root|] == v.root
    ensures disk[RootStart(b) + |v.root|..] == Flat(v.clusters)
  {
    FlatLength(v.fats, b.sectorsPerFat);
    var front := v.reserved + Flat(v.fats);
    assert |front| == RootStart(b);
    hide Flat;
    assert disk == front + (v.root + Flat(v.clusters));
    Shifted(front, v.root + Flat(v.clusters), 0, |v.root|);
    assert disk == (front + v.root) + Flat(v.clusters);
  }

  // ----- the file -----

  /** Where the data area starts and how long a cluster is. */
  datatype Layout = Layout(dataStart: nat, spc: nat)

  function ClusterLba(l: Layout, c: nat): int {
    (c - 2) * l.spc + l.dataStart
  }

  lemma LbaNat(l: Layout, c: nat)
    requires 2 <= c
    ensures ClusterLba(l, c) >= 0
  {
    assert (c - 2) * l.spc >= 0;
  }

  ghost predicate ClusterOnDisk(l: Layout, g: Geometry, disk: seq<seq<byte>>, c: nat) {
    && 2 <= c && l.spc > 0
    && ClusterLba(l, c) + l.spc <= |disk| && ClusterLba(l, c) + l.spc <= 0x1_0000
    && ClusterLba(l, c) + l.spc <= 256 * (g.hpc * g.spt)
  }

  /** A cluster's bytes. */
  function ClusterData(l: Layout, disk: seq<seq<byte>>, c: nat): seq<byte>
    requires 2 <= c && ClusterLba(l, c) + l.spc <= |disk|
  {
    LbaNat(l, c);
    Concat(disk[ClusterLba(l, c)..ClusterLba(l, c) + l.spc])
  }

  /** Cluster number c is the volume's cluster c - 2. */
  lemma ClusterPlaced(disk: seq<seq<byte>>, v: Volume, b: Bpb, spc: nat, c: nat)
    requires IsVolume(disk, v, b, spc) && 2 <= c < 2 + |v.clusters|
    ensures var l := Layout(RootStart(b) + b.rootEntries / 16, spc);
            ClusterLba(l, c) + spc <= |disk| && ClusterData(l, disk, c) == Concat(v.clusters[c - 2])
  {
    hide Flat, RootStart, RootSectors, IsVolume, ClusterLba, Concat, ClusterData, AllOf;
    RootPlaced(disk, v, b, spc);
    VolumeParts(disk, v, b, spc);
    FlatAt(v.clusters, spc, c - 2);
    LbaIs(Layout(RootStart(b) + b.rootEntries / 16, spc), c);
    ClusterAt(disk, Layout(RootStart(b) + b.rootEntries / 16, spc), c, Flat(v.clusters), (c - 2) * spc,
              v.clusters[c - 2]);
  }

  lemma VolumeParts(disk: seq<seq<byte>>, v: Volume, b: Bpb, spc: nat)
    requires IsVolume(disk, v, b, spc)
    ensures AllOf(v.clusters, spc) && |v.root| == b.rootEntries / 16
  {
  }

  lemma LbaIs(l: Layout, c: nat)
    ensures ClusterLba(l, c) == (c - 2) * l.spc + l.dataStart
  {
  }

  lemma ClusterAt(disk: seq<seq<byte>>, l: Layout, c: nat, tail: seq<seq<byte>>, at: nat, piece: seq<seq<byte>>)
    requires l.dataStart <= |disk| && disk[l.dataStart..] == tail && 2 <= c && ClusterLba(l, c) == at + l.dataStart
    requires at + l.spc <= |tail| && tail[at..at + l.spc] == piece
    ensures ClusterLba(l, c) + l.spc <= |disk| && ClusterData(l, disk, c) == Concat(piece)
  {
    hide Concat, ClusterLba;
    TailSlice(disk, l.dataStart, tail, at, l.spc);
  }

  lemma TailSlice(disk: seq<seq<byte>>, start: nat, tail: seq<seq<byte>>, at: nat, n: nat)
    requires start <= |disk| && disk[start..] == tail && at + n <= |tail|
    ensures at + start + n <= |disk| && disk[at + start..at + start + n] == tail[at..at + n]
  {
    assert |tail| == |disk| - start;
    assert disk == disk[..start] + tail;
    Shifted(disk[..start], tail, at, n);
  }

  /** The bytes of the volume's clusters, in the order of a chain. */
  function Picked(clusters: seq<seq<seq<byte>>>, cs: seq<nat>): seq<byte>
    requires forall i :: 0 <= i < |cs| ==> 2 <= cs[i] < 2 + |clusters|
    decreases |cs|
  {
    if cs == [] then [] else Concat(clusters[cs[0] - 2]) + Picked(clusters, cs[1..])
  }

  /** What is loaded of a file on such a volume. */
  lemma {:induction false} FilePlaced(disk: seq<seq<byte>>, v: Volume, b: Bpb, spc: nat, cs: seq<nat>)
    requires IsVolume(disk, v, b, spc) && forall i :: 0 <= i < |cs| ==> 2 <= cs[i] < 2 + |v.clusters|
    ensures var l := Layout(RootStart(b) + b.rootEntries / 16, spc);
            && (forall i :: 0 <= i < |cs| ==> 2 <= cs[i] && ClusterLba(l, cs[i]) + l.spc <= |disk|)
            && FileData(l, disk, cs) == Picked(v.clusters, cs)
    decreases |cs|
  {
    hide IsVolume, Concat, ClusterData, ClusterLba;
    forall i | 0 <= i < |cs|
      ensures ClusterLba(Layout(RootStart(b) + b.rootEntries / 16, spc), cs[i]) + spc <= |disk|
    {
      ClusterPlaced(disk, v, b, spc, cs[i]);
    }
    if cs != [] {
      var n := |cs| - 1;
      FilePlaced(disk, v, b, spc, cs[..n]);
      ClusterPlaced(disk, v, b, spc, cs[n]);
      PickedSnoc(v.clusters, cs);
    }
  }

  lemma {:induction false} PickedSnoc(clusters: seq<seq<seq<byte>>>, cs: seq<nat>)
    requires cs != [] && forall i :: 0 <= i < |cs| ==> 2 <= cs[i] < 2 + |clusters|
    ensures Picked(clusters, cs) == Picked(clusters, cs[..|cs| - 1]) + Concat(clusters[cs[|cs| - 1] - 2])
    decreases |cs|
  {
    hide Concat;
    if |cs| == 1 {
      assert cs[1..] == [] && cs[..0] == [];
    } else {
      var init, rest, last := cs[..|cs| - 1], cs[1..], Concat(clusters[cs[|cs| - 1] - 2]);
      PickedSnoc(clusters, rest);
      assert rest[..|rest| - 1] == init[1..] && rest[|rest| - 1] == cs[|cs| - 1] && init[0] == cs[0];
      PickedCons(clusters, cs);
      PickedCons(clusters, init);
      hide Picked;
      assert Concat(clusters[cs[0] - 2]) + (Picked(clusters, init[1..]) + last)
          == Concat(clusters[cs[0] - 2]) + Picked(clusters, init[1..]) + last;
    }
  }

  lemma {:induction false} PickedCons(clusters: seq<seq<seq<byte>>>, cs: seq<nat>)
    requires cs != [] && forall i :: 0 <= i < |cs| ==> 2 <= cs[i] < 2 + |clusters|
    ensures Picked(clusters, cs) == Concat(clusters[cs[0] - 2]) + Picked(clusters, cs[1..])
  {
  }

  /** The file: its clusters' bytes, one cluster after the other. */
  function FileData(l: Layout, disk: seq<seq<byte>>, cs: seq<nat>): seq<byte>
    requires forall i :: 0 <= i < |cs| ==> 2 <= cs[i] && ClusterLba(l, cs[i]) + l.spc <= |disk|
    decreases |cs|
  {
    if cs == [] then []
    else FileData(l, disk, cs[..|cs| - 1]) + ClusterData(l, disk, cs[|cs| - 1])
  }

  ghost predicate FileOnDisk(l: Layout, g: Geometry, disk: seq<seq<byte>>, cs: seq<nat>) {
    forall i :: 0 <= i < |cs| ==> ClusterOnDisk(l, g, disk, cs[i])
  }

  lemma FileSnoc(l: Layout, disk: seq<seq<byte>>, cs: seq<nat>, k: nat)
    requires k < |cs| && forall i :: 0 <= i < |cs| ==> 2 <= cs[i] && ClusterLba(l, cs[i]) + l.spc <= |disk|
    ensures FileData(l, disk, cs[..k + 1]) == FileData(l, disk, cs[..k]) + ClusterData(l, disk, cs[k])
  {
    assert cs[..k + 1][..k] == cs[..k];
  }

  lemma {:induction false} FilePrefix(l: Layout, disk: seq<seq<byte>>, cs: seq<nat>, k: nat)
    requires k <= |cs| && forall i :: 0 <= i < |cs| ==> 2 <= cs[i] && ClusterLba(l, cs[i]) + l.spc <= |disk|
    ensures |FileData(l, disk, cs[..k])| <= |FileData(l, disk, cs)|
    decreases |cs| - k
  {
    if k < |cs| {
      FileSnoc(l, disk, cs, k);
      FilePrefix(l, disk, cs, k + 1);
    } else {
      assert cs[..k] == cs;
    }
  }

  lemma ClusterLength(l: Layout, disk: seq<seq<byte>>, c: nat)
    requires Sectors(disk) && 2 <= c && ClusterLba(l, c) + l.spc <= |disk|
    ensures |ClusterData(l, disk, c)| == SECTOR * l.spc
  {
    LbaNat(l, c);
    hide ClusterLba;
    var piece := disk[ClusterLba(l, c)..ClusterLba(l, c) + l.spc];
    assert |piece| == l.spc;
    ConcatLength(piece);
  }

  /** The table survives a write elsewhere. */
  lemma PatchKeeps(mem: seq<byte>, at: nat, bytes: seq<byte>, lo: nat, hi: nat)
    requires at + |bytes| <= |mem| && lo <= hi <= |mem| && (hi <= at || at + |bytes| <= lo)
    ensures Patch(mem, at, bytes)[lo..hi] == mem[lo..hi]
  {
  }

  /** The disk is this volume, its data area starts where the layout says, and the chain
      stays in it. */
  ghost predicate OnVolume(disk: seq<seq<byte>>, v: Volume, b: Bpb, l: Layout, cs: seq<nat>) {
    && IsVolume(disk, v, b, l.spc) && l.dataStart == RootStart(b) + b.rootEntries / 16
    && forall i :: 0 <= i < |cs| ==> 2 <= cs[i] < 2 + |v.clusters|
  }

  /** What the caller of the load must provide: the table, packed, at DISK_BUFFER and
      ending below 64 KiB so that the index in BX does not wrap, a chain from the
      first cluster, room for the whole file below 64 KiB of the segment, and none of
      it over the table. */
  ghost predicate Loadable(m: Disk.Machine, l: Layout, fat: seq<byte>, cs: seq<nat>, es: nat, bx: nat)
    reads m.mem
  {
    m.Valid() && Chain(fat, cs) && Placed(m.mem[..], m.geometry, m.disk, l, fat, cs, es, bx)
  }

  ghost predicate Placed(mem: seq<byte>, g: Geometry, disk: seq<seq<byte>>, l: Layout, fat: seq<byte>, cs: seq<nat>,
                         es: nat, bx: nat)
  {
    && Sectors(disk) && FileOnDisk(l, g, disk, cs)
    && |fat| <= 0x1_0000 - DISK_BUFFER
    && DISK_BUFFER + |fat| <= |mem| && mem[DISK_BUFFER..DISK_BUFFER + |fat|] == fat
    && var size := |FileData(l, disk, cs)|;
       var at := es * 16 + bx;
       && bx + size <= 0x1_0000 && at + size <= |mem|
       && (DISK_BUFFER + |fat| <= at || at + size <= DISK_BUFFER)
  }

  /** The first k clusters are in, bx' points after them, nothing else has changed. */
  ghost predicate Loaded(mem: seq<byte>, bx': nat, before: seq<byte>, g: Geometry, disk: seq<seq<byte>>, l: Layout,
                         cs: seq<nat>, es: nat, bx: nat, k: nat)
    requires FileOnDisk(l, g, disk, cs)
  {
    && k <= |cs|
    && var data := FileData(l, disk, cs[..k]);
       && bx' == (bx + |data|) % 0x1_0000
       && es * 16 + bx + |data| <= |before|
       && mem == Patch(before, es * 16 + bx, data)
  }

  /** Cluster k follows the first k in memory, and the table is still in place. */
  lemma ClusterLands(l: Layout, g: Geometry, disk: seq<seq<byte>>, fat: seq<byte>, cs: seq<nat>, k: nat,
                                        before: seq<byte>, at: nat)
    requires Sectors(disk) && FileOnDisk(l, g, disk, cs) && k < |cs|
    requires at + |FileData(l, disk, cs)| <= |before| && DISK_BUFFER + |fat| <= |before|
    requires before[DISK_BUFFER..DISK_BUFFER + |fat|] == fat
    requires DISK_BUFFER + |fat| <= at || at + |FileData(l, disk, cs)| <= DISK_BUFFER
    ensures var done, one := FileData(l, disk, cs[..k]), ClusterData(l, disk, cs[k]);
            var more := FileData(l, disk, cs[..k + 1]);
            && |one| == SECTOR * l.spc && more == done + one && |more| <= |FileData(l, disk, cs)|
            && Patch(Patch(before, at, done), at + |done|, one) == Patch(before, at, more)
            && Patch(before, at, more)[DISK_BUFFER..DISK_BUFFER + |fat|] == fat
  {
    hide Concat, ClusterData, FileData;
    assert ClusterOnDisk(l, g, disk, cs[k]);
    FileSnoc(l, disk, cs, k);
    FilePrefix(l, disk, cs, k + 1);
    ClusterLength(l, disk, cs[k]);
    PatchTwice(before, at, FileData(l, disk, cs[..k]), ClusterData(l, disk, cs[k]));
    PatchKeeps(before, at, FileData(l, disk, cs[..k + 1]), DISK_BUFFER, DISK_BUFFER + |fat|);
  }

  /** `fat_load_binary`: read a cluster, decode its table entry, go on while it is
      below the end mark. Terminates because the chain ends; loads the clusters'
      data in chain order and nothing else; on a volume laid out as it should be, those
      are the volume's clusters the chain names, less 2. */
  method LoadBinary(m: Disk.Machine, l: Layout, ax: nat, es: nat, bx: nat, ghost fat: seq<byte>, ghost cs: seq<nat>)
    requires Loadable(m, l, fat, cs, es, bx) && cs[0] == ax
    modifies m.mem
    ensures es * 16 + bx + |FileData(l, m.disk, cs)| <= m.mem.Length
    ensures m.mem[..] == Patch(old(m.mem[..]), es * 16 + bx, FileData(l, m.disk, cs))
    ensures forall v, b :: OnVolume(m.disk, v, b, l, cs) ==> FileData(l, m.disk, cs) == Picked(v.clusters, cs)
  {
    forall v, b | OnVolume(m.disk, v, b, l, cs)
      ensures FileData(l, m.disk, cs) == Picked(v.clusters, cs)
    {
      FilePlaced(m.disk, v, b, l.spc, cs);
    }
    ghost var before := m.mem[..];
    LoadedStart(before, m.geometry, m.disk, l, fat, cs, es, bx);
    assert FileOnDisk(l, m.geometry, m.disk, cs);
    hide Loaded, Placed, Chain, Patch, FileData, FileOnDisk, ClusterLba;
    var cluster, bx' := ax, bx;
    ghost var k := 0;
    while true
      invariant k < |cs| && cluster == cs[k]
      invariant Loaded(m.mem[..], bx', before, m.geometry, m.disk, l, cs, es, bx, k)
      decreases |cs| - k
    {
      bx', cluster := LoadCluster(m, l, cluster, es, bx', bx, fat, cs, k, before);
      k := k + 1;
      if !(cluster < END_MARK) { break; }
    }
    LoadedEnd(m.mem[..], bx', before, m.geometry, m.disk, l, cs, es, bx);
  }

  lemma LoadedStart(mem: seq<byte>, g: Geometry, disk: seq<seq<byte>>, l: Layout, fat: seq<byte>, cs: seq<nat>,
                    es: nat, bx: nat)
    requires Placed(mem, g, disk, l, fat, cs, es, bx) && cs != []
    ensures Loaded(mem, bx, mem, g, disk, l, cs, es, bx, 0)
  {
    hide Patch, FileData;
    FileNothing(l, disk, cs);
    PatchNothing(mem, es * 16 + bx);
    FirstCluster(mem, g, disk, l, fat, cs, es, bx);
  }

  lemma LoadedEnd(mem: seq<byte>, bx': nat, before: seq<byte>, g: Geometry, disk: seq<seq<byte>>, l: Layout,
                  cs: seq<nat>, es: nat, bx: nat)
    requires FileOnDisk(l, g, disk, cs) && Loaded(mem, bx', before, g, disk, l, cs, es, bx, |cs|)
    ensures forall i :: 0 <= i < |cs| ==> 2 <= cs[i] && ClusterLba(l, cs[i]) + l.spc <= |disk|
    ensures es * 16 + bx + |FileData(l, disk, cs)| <= |before|
    ensures mem == Patch(before, es * 16 + bx, FileData(l, disk, cs))
  {
    hide Patch, FileData;
    assert cs[..|cs|] == cs;
  }

  /** There is something to load, so the start lies below 64 KiB. */
  lemma FirstCluster(mem: seq<byte>, g: Geometry, disk: seq<seq<byte>>, l: Layout, fat: seq<byte>,
                                        cs: seq<nat>, es: nat, bx: nat)
    requires Placed(mem, g, disk, l, fat, cs, es, bx) && cs != []
    ensures bx < 0x1_0000
  {
    ClusterLands(l, g, disk, fat, cs, 0, mem, es * 16 + bx);
    assert ClusterOnDisk(l, g, disk, cs[0]);
  }

  /** One turn of the loop. */
  method LoadCluster(m: Disk.Machine, l: Layout, ax: nat, es: nat, bx': nat, ghost bx: nat, ghost fat: seq<byte>,
                     ghost cs: seq<nat>, ghost k: nat, ghost before: seq<byte>) returns (after: nat, dx: nat)
    requires m.Valid() && Chain(fat, cs) && Placed(before, m.geometry, m.disk, l, fat, cs, es, bx)
    requires k < |cs| && ax == cs[k] && Loaded(m.mem[..], bx', before, m.geometry, m.disk, l, cs, es, bx, k)
    modifies m.mem
    ensures Loaded(m.mem[..], after, before, m.geometry, m.disk, l, cs, es, bx, k + 1)
    ensures dx >= END_MARK <==> k == |cs| - 1
    ensures k < |cs| - 1 ==> dx == cs[k + 1]
  {
    hide Patch, FileData, ClusterData, Concat, Decode, Readable, Link, Sectors, Chain;
    ClusterLands(l, m.geometry, m.disk, fat, cs, k, before, es * 16 + bx);
    assert ClusterOnDisk(l, m.geometry, m.disk, cs[k]);
    assert bx' == bx + |FileData(l, m.disk, cs[..k])|;
    after := ReadCluster(m, l, ax, es, bx');
    dx := NextCluster(m, ax, fat, cs, k);
  }

  lemma FileNothing(l: Layout, disk: seq<seq<byte>>, cs: seq<nat>)
    requires forall i :: 0 <= i < |cs| ==> 2 <= cs[i] && ClusterLba(l, cs[i]) + l.spc <= |disk|
    ensures FileData(l, disk, cs[..0]) == []
  {
  }

  /** The cluster's sectors go to ES:BX. */
  method ReadCluster(m: Disk.Machine, l: Layout, ax: nat, es: nat, bx: nat) returns (bx': nat)
    requires m.Valid() && ClusterOnDisk(l, m.geometry, m.disk, ax)
    requires |ClusterData(l, m.disk, ax)| == SECTOR * l.spc
    requires bx + SECTOR * l.spc <= 0x1_0000 && es * 16 + bx + SECTOR * l.spc <= m.mem.Length
    modifies m.mem
    ensures m.mem[..] == Patch(old(m.mem[..]), es * 16 + bx, ClusterData(l, m.disk, ax))
    ensures bx' == (bx + SECTOR * l.spc) % 0x1_0000
  {
    hide Patch, Concat;
    LbaNat(l, ax);
    var lba := ClusterLba(l, ax);
    bx' := m.ReadSectors(lba, l.spc, es, bx);
  }

  /** The decoding step on the table in memory. */
  method NextCluster(m: Disk.Machine, ax: nat, ghost fat: seq<byte>, ghost cs: seq<nat>, ghost k: nat) returns (dx: nat)
    requires Chain(fat, cs) && k < |cs| && ax == cs[k] && |fat| <= 0x1_0000 - DISK_BUFFER
    requires DISK_BUFFER + |fat| <= m.mem.Length && m.mem[..][DISK_BUFFER..DISK_BUFFER + |fat|] == fat
    ensures dx >= END_MARK <==> k == |cs| - 1
    ensures k < |cs| - 1 ==> dx == cs[k + 1]
  {
    assert Readable(fat, cs[k]);
    assert k < |cs| - 1 ==> Link(fat, cs, k);
    var at := (DISK_BUFFER + (ax + ax / 2) % 0x1_0000) % 0x1_0000;
    assert at == DISK_BUFFER + (ax + ax / 2);
    assert fat[ax + ax / 2] == m.mem[..][at] && fat[ax + ax / 2 + 1] == m.mem[..][at + 1];
    dx := m.mem[at] as int + 256 * m.mem[at + 1] as int;
    if ax % 2 != 0 {
      dx := dx / 0x10;
    } else {
      dx := dx % 0x1000;
    }
    assert dx == Decode(fat, ax);
  }

  // ----- the root directory -----

  /** The sectors read hold every entry exactly if the entries fill their sectors. */
  lemma RootWholeIff(b: Bpb)
    ensures SECTOR * RootSectors(b) <= DIR_ENTRY * b.rootEntries < SECTOR * RootSectors(b) + SECTOR
    ensures DIR_ENTRY * b.rootEntries <= SECTOR * RootSectors(b) <==> b.rootEntries % 16 == 0
  {
  }

  /** `fat_load_root`: the directory goes to DISK_BUFFER, and the data area starts
      on the sector after it: on a volume laid out as it should be, at its clusters. */
  method LoadRoot(m: Disk.Machine, b: Bpb) returns (dataStart: nat)
    requires m.Valid() && RootSectors(b) > 0
    requires RootStart(b) + RootSectors(b) <= |m.disk| && RootStart(b) + RootSectors(b) < 0x1_0000
    requires RootStart(b) + RootSectors(b) <= 256 * (m.geometry.hpc * m.geometry.spt)
    requires SECTOR * RootSectors(b) <= 0x1_0000 && DISK_BUFFER + SECTOR * RootSectors(b) <= m.mem.Length
    modifies m.mem
    ensures dataStart == RootStart(b) + RootSectors(b)
    ensures |Concat(m.disk[RootStart(b)..dataStart])| == SECTOR * RootSectors(b)
    ensures m.mem[..] == Patch(old(m.mem[..]), DISK_BUFFER, Concat(m.disk[RootStart(b)..dataStart]))
    ensures forall v, spc :: IsVolume(m.disk, v, b, spc) ==>
              m.disk[RootStart(b)..dataStart] == v.root && m.disk[dataStart..] == Flat(v.clusters)
  {
    forall v, spc | IsVolume(m.disk, v, b, spc)
      ensures m.disk[RootStart(b)..RootStart(b) + RootSectors(b)] == v.root
      ensures m.disk[RootStart(b) + RootSectors(b)..] == Flat(v.clusters)
    {
      RootPlaced(m.disk, v, b, spc);
    }
    var ax := b.sectorsPerFat * b.fatCount;
    ax := ax + b.reserved;
    var cx := b.rootEntries / (SECTOR / 0x20);
    assert ax == RootStart(b) && cx == RootSectors(b);
    hide Patch, Concat, IsVolume, RootStart, RootSectors, Sectors;
    dataStart := ax + cx;
    var _ := m.ReadSectors(ax, cx, DISK_BUFFER / 0x10, 0);
  }


  /** Directory entry i of the loaded root directory. */
  function NameAt(dir: seq<byte>, i: nat): seq<byte>
    requires DIR_ENTRY * (i + 1) <= |dir|
  {
    dir[DIR_ENTRY * i..DIR_ENTRY * i + NAME_SIZE]
  }

  datatype Found = NotFound | File(start: int, size: int)

  /** A directory entry: name, fifteen bytes not looked at here, first cluster, size. */
  datatype DirEntry = DirEntry(name: seq<byte>, middle: seq<byte>, start: Word, size: Word) {
    predicate Fits() {
      |name| == 11 && |middle| == 15 && start < 0x1_0000
    }

    function Bytes(): seq<byte> {
      name + middle + [start % 256, start / 256 % 256] + Le32(size)
    }
  }

  ghost predicate AllEntries(es: seq<DirEntry>) {
    forall i :: 0 <= i < |es| ==> es[i].Fits()
  }

  function DirBytes(es: seq<DirEntry>): seq<byte>
    decreases |es|
  {
    if es == [] then [] else es[0].Bytes() + DirBytes(es[1..])
  }

  /** The entry searched for: the first of the name. */
  function Lookup(es: seq<DirEntry>, name: seq<byte>): Found
    decreases |es|
  {
    if es == [] then NotFound
    else if es[0].name == name then File(es[0].start, es[0].size)
    else Lookup(es[1..], name)
  }

  /** One entry's fields where it stands. */
  lemma {:induction false} EntryRead(dir: seq<byte>, i: nat, e: DirEntry)
    requires e.Fits() && 32 * i + 32 <= |dir| && dir[32 * i..32 * i + 32] == e.Bytes()
    ensures NameAt(dir, i) == e.name
    ensures Get16(dir, 32 * i + 26) == e.start && Get32(dir, 32 * i + 28) == e.size
  {
    var x := dir[32 * i..32 * i + 32];
    assert x[..11] == e.name;
    assert dir[32 * i..32 * i + 11] == x[..11];
    assert x[26] == e.start % 256 && x[27] == e.start / 256 % 256;
    assert x[28..] == Le32(e.size);
    assert forall k :: 0 <= k < 32 ==> dir[32 * i + k] == x[k];
    Le32Inverse(e.size);
    assert Get32(dir, 32 * i + 28) == Get32(x[28..], 0);
  }

  lemma {:induction false} DirAt(es: seq<DirEntry>, rest: seq<byte>, i: nat)
    requires AllEntries(es) && i < |es|
    ensures var dir := DirBytes(es) + rest;
            32 * i + 32 <= |dir| && dir[32 * i..32 * i + 32] == es[i].Bytes()
    decreases |es|
  {
    var more := DirBytes(es[1..]) + rest;
    var first := es[0].Bytes();
    var dir := DirBytes(es) + rest;
    assert |first| == 32;
    assert dir == first + more;
    if i > 0 {
      DirAt(es[1..], rest, i - 1);
      assert dir[32 * i..32 * i + 32] == more[32 * (i - 1)..32 * (i - 1) + 32];
    }
  }

  lemma {:induction false} LookupFirst(es: seq<DirEntry>, name: seq<byte>, i: nat)
    requires i <= |es| && forall j :: 0 <= j < i ==> es[j].name != name
    requires i < |es| ==> es[i].name == name
    ensures Lookup(es, name) == if i < |es| then File(es[i].start, es[i].size) else NotFound
    decreases |es|
  {
    if i > 0 {
      LookupFirst(es[1..], name, i - 1);
    }
  }

  /** The directory bytes are these entries, perhaps followed by others. */
  ghost predicate IsDirectory(dir: seq<byte>, es: seq<DirEntry>) {
    AllEntries(es) && DirBytes(es) <= dir
  }

  /** A search of the bytes is a lookup in the entries. */
  lemma SearchedEntries(dir: seq<byte>, es: seq<DirEntry>, name: seq<byte>, i: nat)
    requires IsDirectory(dir, es) && i <= |es|
    ensures |dir| >= 32 * |es|
    ensures i < |es| ==> NameAt(dir, i) == es[i].name
    ensures i < |es| ==> Get16(dir, 32 * i + 26) == es[i].start && Get32(dir, 32 * i + 28) == es[i].size
  {
    var rest := dir[|DirBytes(es)|..];
    assert dir == DirBytes(es) + rest;
    if |es| > 0 { DirAt(es, rest, |es| - 1); }
    if i < |es| {
      DirAt(es, rest, i);
      EntryRead(dir, i, es[i]);
    }
  }

  /** `fat_search_root`: the first entry with the name, its cluster and size. */
  method SearchRoot(dir: seq<byte>, entries: nat, name: seq<byte>) returns (r: Found)
    requires |name| == NAME_SIZE && 0 < entries && DIR_ENTRY * entries <= |dir|
    ensures r.NotFound? <==> forall i :: 0 <= i < entries ==> NameAt(dir, i) != name
    ensures r.File? ==> exists i :: 0 <= i < entries && NameAt(dir, i) == name
                          && (forall j :: 0 <= j < i ==> NameAt(dir, j) != name)
                          && r == File(Get16(dir, DIR_ENTRY * i + 26), Get32(dir, DIR_ENTRY * i + 28))
    ensures forall es :: IsDirectory(dir, es) && |es| == entries ==> r == Lookup(es, name)
  {
    hide Lookup, DirBytes, Get16, Get32;
    var i := 0;
    while i < entries
      invariant i <= entries && forall j :: 0 <= j < i ==> NameAt(dir, j) != name
    {
      if NameAt(dir, i) == name {
        LookupAt(dir, entries, name, i);
        return File(Get16(dir, DIR_ENTRY * i + 26), Get32(dir, DIR_ENTRY * i + 28));
      }
      i := i + 1;
    }
    LookupAt(dir, entries, name, i);
    r := NotFound;
  }

  /** Where the search stops, the lookup does. */
  lemma LookupAt(dir: seq<byte>, entries: nat, name: seq<byte>, i: nat)
    requires DIR_ENTRY * entries <= |dir| && i <= entries
    requires forall j :: 0 <= j < i ==> NameAt(dir, j) != name
    requires i < entries ==> NameAt(dir, i) == name
    ensures forall es :: IsDirectory(dir, es) && |es| == entries ==>
              Lookup(es, name)
              == if i < entries then File(Get16(dir, 32 * i + 26), Get32(dir, 32 * i + 28)) else NotFound
  {
    hide DirBytes, Get16, Get32, IsDirectory;
    forall es: seq<DirEntry> | IsDirectory(dir, es) && |es| == entries
      ensures Lookup(es, name)
           == if i < entries then File(Get16(dir, 32 * i + 26), Get32(dir, 32 * i + 28)) else NotFound
    {
      forall j | 0 <= j < i
        ensures es[j].name != name
      {
        SearchedEntries(dir, es, name, j);
      }
      SearchedEntries(dir, es, name, i);
      LookupFirst(es, name, i);
    }
  }
}
