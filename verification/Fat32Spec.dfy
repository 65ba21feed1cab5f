/** The FAT32 reader of src/fat32.c as functions on the disk. */
module Fat32Spec {
  import opened Machine
  import opened Memory

  const SECTOR: nat := 512
  const END_OF_CHAIN: nat := 0x0FFF_FFF8

  type Sector = s: seq<Byte> | |s| == SECTOR witness seq(SECTOR, _ => 0)

  /** What reading a sector gives, or None when the drive reports an error. */
  type Disk = nat -> Option<Sector>

  /** The layout fat32_init derives from the boot sector, for volumes of 512-byte sectors. */
  datatype Volume = Volume(fatStart: Word, dataStart: Word, spc: nat) {
    predicate Ok() { 0 < spc < 256 }
    function ClusterSize(): nat { spc * SECTOR }
  }

  /** ata_read_sectors: count sectors from lba on, or nothing if one of them cannot be read. */
  function ReadSectors(d: Disk, lba: nat, count: nat): (r: Option<seq<Byte>>)
    ensures r.Some? ==> |r.value| == count * SECTOR
    decreases count
  {
    if count == 0 then Some([]) else
    match d(lba)
    case None => None
    case Some(s) =>
      match ReadSectors(d, lba + 1, count - 1)
      case None => None
      case Some(rest) => Some(s + rest)
  }

  /** Where cluster c starts; the drive takes the low 28 bits of the sum. */
  function ClusterLba(vol: Volume, c: Word): nat {
    (vol.dataStart + Sub(c, 2) * vol.spc % MEM) % MEM % 0x1000_0000
  }

  function ReadCluster(d: Disk, vol: Volume, c: Word): (r: Option<seq<Byte>>)
    ensures r.Some? ==> |r.value| == vol.ClusterSize()
  {
    ReadSectors(d, ClusterLba(vol, c), vol.spc)
  }

  /** The FAT entry of cluster c, its top four bits dropped; an unreadable FAT sector ends the chain. */
  function NextCluster(d: Disk, vol: Volume, c: Word): Word {
    match d(FatSector(vol, c))
    case None => 0x0FFF_FFFF
    case Some(s) =>
      var i := c * 4 % MEM % SECTOR;
      FromBytes(s[i], s[i + 1], s[i + 2], s[i + 3]) % 0x1000_0000
  }

  // ---------- The layout ----------

  type Half = x: nat | x < 0x1_0000

  /** The fields of the boot sector that fat32_init uses. */
  datatype Bpb = Bpb(bytesPerSector: Half, spc: Byte, reserved: Half, fats: Byte, fatSize: Word, root: Word)

  function BpbOf(boot: Sector): Bpb {
    Bpb(FromBytes(boot[11], boot[12], 0, 0), boot[13], FromBytes(boot[14], boot[15], 0, 0), boot[16],
        FromBytes(boot[36], boot[37], boot[38], boot[39]), FromBytes(boot[44], boot[45], boot[46], boot[47]))
  }

  /** fat32_init: the layout, or nothing for a volume it turns down. */
  function LayoutOf(b: Bpb): (r: Option<Volume>)
    ensures r.Some? ==> r.value.Ok()
  {
    if b.bytesPerSector == 0 || b.spc == 0 || b.fatSize == 0 || b.fats == 0 then None
    else Some(Volume(b.reserved, (b.reserved + b.fats * b.fatSize % MEM) % MEM, b.spc))
  }

  /** The sector of the FAT that holds the entry of cluster c; the drive takes the low 28 bits. */
  function FatSector(vol: Volume, c: Word): nat {
    (vol.fatStart + c * 4 % MEM / SECTOR) % MEM % 0x1000_0000
  }

  /** The drive can address all of cluster c. */
  predicate Addressable(vol: Volume, c: Word) {
    2 <= c && vol.dataStart + (c - 2) * vol.spc + vol.spc <= 0x1000_0000
  }

  lemma LbaOf(vol: Volume, c: Word)
    requires vol.Ok() && Addressable(vol, c)
    ensures ClusterLba(vol, c) == vol.dataStart + (c - 2) * vol.spc
  {
    var k := (c - 2) * vol.spc;
    assert Sub(c, 2) * vol.spc % MEM == k;
  }

  lemma Further(a: nat, b: nat, k: nat)
    requires a < b
    ensures a * k + k <= b * k
  {
    assert b * k == (a + 1) * k + (b - a - 1) * k;
  }

  /** Clusters lie in the data region in order, without overlap. */
  lemma ClustersApart(vol: Volume, c: Word, e: Word)
    requires vol.Ok() && Addressable(vol, c) && Addressable(vol, e) && c < e
    ensures vol.dataStart <= ClusterLba(vol, c) && ClusterLba(vol, c) + vol.spc <= ClusterLba(vol, e)
  {
    hide ClusterLba;
    LbaOf(vol, c);
    LbaOf(vol, e);
    Further(c - 2, e - 2, vol.spc);
  }

  /** On a volume of 512-byte sectors whose FATs end within reach of the drive, the entry of a cluster the first FAT has
      room for is read from that FAT, past the reserved sectors and short of the data region. */
  lemma FatApart(b: Bpb, c: Word)
    requires b.bytesPerSector == SECTOR && LayoutOf(b).Some?
    requires b.reserved + b.fats * b.fatSize <= 0x1000_0000 && c / 128 < b.fatSize && c < 0x4000_0000
    ensures var vol := LayoutOf(b).value;
            vol.fatStart <= FatSector(vol, c) < vol.fatStart + b.fatSize <= vol.dataStart
  {
    hide FatSector, LayoutOf;
    LayoutIs(b);
    Further(0, b.fats, b.fatSize);
    FatSectorOf(LayoutOf(b).value, c);
  }

  lemma LayoutIs(b: Bpb)
    requires LayoutOf(b).Some? && b.reserved + b.fats * b.fatSize <= 0x1000_0000
    ensures LayoutOf(b).value == Volume(b.reserved, b.reserved + b.fats * b.fatSize, b.spc) && b.fats > 0
  {
    DataStart(b.reserved, b.fats * b.fatSize);
  }

  lemma DataStart(reserved: nat, fats: nat)
    requires reserved + fats <= 0x1000_0000
    ensures (reserved + fats % MEM) % MEM == reserved + fats
  {
  }

  lemma FatSectorOf(vol: Volume, c: Word)
    requires vol.fatStart + c / 128 < 0x1000_0000 && c < 0x4000_0000
    ensures FatSector(vol, c) == vol.fatStart + c / 128
  {
    assert c * 4 % MEM == c * 4;
  }

  // ---------- Reading files ----------

  /** The byte at position pos of the file starting at cluster c, if it has one that can be read. */
  function ByteAt(d: Disk, vol: Volume, c: Word, pos: nat): Option<Byte>
    requires vol.Ok()
    decreases pos
  {
    if pos < vol.ClusterSize() then
      match ReadCluster(d, vol, c)
      case None => None
      case Some(b) => Some(b[pos])
    else
      var n := NextCluster(d, vol, c);
      if n >= END_OF_CHAIN then None else ByteAt(d, vol, n, pos - vol.ClusterSize())
  }

  /** The bytes from offset on, up to size of them, stopping at the first there is not. */
  function Read(d: Disk, vol: Volume, c: Word, offset: nat, size: nat): (r: seq<Byte>)
    requires vol.Ok()
    ensures |r| <= size
    decreases size
  {
    if size == 0 then [] else
    match ByteAt(d, vol, c, offset)
    case None => []
    case Some(b) => [b] + Read(d, vol, c, offset + 1, size - 1)
  }

  lemma NothingRead(d: Disk, vol: Volume, c: Word, offset: nat)
    requires vol.Ok()
    ensures Read(d, vol, c, offset, 0) == []
  {
  }

  /** Skipping a whole cluster. */
  lemma {:induction false} ReadSkips(d: Disk, vol: Volume, c: Word, offset: nat, size: nat)
    requires vol.Ok() && offset >= vol.ClusterSize()
    ensures var n := NextCluster(d, vol, c);
            Read(d, vol, c, offset, size) ==
            if n >= END_OF_CHAIN then [] else Read(d, vol, n, offset - vol.ClusterSize(), size)
    decreases size
  {
    if size > 0 {
      ReadSkips(d, vol, c, offset + 1, size - 1);
    }
  }

  /** Reading within a cluster. */
  lemma {:induction false} ReadWithin(d: Disk, vol: Volume, c: Word, offset: nat, size: nat)
    requires vol.Ok() && offset + size <= vol.ClusterSize() && ReadCluster(d, vol, c).Some?
    ensures Read(d, vol, c, offset, size) == ReadCluster(d, vol, c).value[offset..offset + size]
    decreases size
  {
    hide ReadCluster, NextCluster;
    if size > 0 {
      ReadWithin(d, vol, c, offset + 1, size - 1);
      var b := ReadCluster(d, vol, c).value;
      assert b[offset..offset + size] == [b[offset]] + b[offset + 1..offset + size];
    }
  }

  /** A read that got its first k bytes is that read followed by the rest. */
  lemma {:induction false} ReadSplits(d: Disk, vol: Volume, c: Word, offset: nat, k: nat, size: nat)
    requires vol.Ok() && k <= size && |Read(d, vol, c, offset, k)| == k
    ensures Read(d, vol, c, offset, size) == Read(d, vol, c, offset, k) + Read(d, vol, c, offset + k, size - k)
    decreases k
  {
    hide ByteAt;
    if k > 0 {
      ReadSplits(d, vol, c, offset + 1, k - 1, size - 1);
    }
  }

  /** Reading within a cluster, then on from the next. */
  lemma ReadChunk(d: Disk, vol: Volume, c: Word, offset: nat, size: nat)
    requires vol.Ok() && offset <= vol.ClusterSize() && ReadCluster(d, vol, c).Some?
    ensures var b, cs, n := ReadCluster(d, vol, c).value, vol.ClusterSize(), NextCluster(d, vol, c);
            Read(d, vol, c, offset, size) ==
            if size <= cs - offset then b[offset..offset + size]
            else b[offset..] + if n >= END_OF_CHAIN then [] else Read(d, vol, n, 0, size - (cs - offset))
  {
    hide ReadCluster, NextCluster, Read;
    var cs := vol.ClusterSize();
    if size <= cs - offset {
      ReadWithin(d, vol, c, offset, size);
    } else {
      ReadWithin(d, vol, c, offset, cs - offset);
      ReadSplits(d, vol, c, offset, cs - offset, size);
      ReadSkips(d, vol, c, cs, size - (cs - offset));
    }
  }

  lemma ReadUnreadable(d: Disk, vol: Volume, c: Word, offset: nat, size: nat)
    requires vol.Ok() && offset < vol.ClusterSize() && ReadCluster(d, vol, c).None?
    ensures Read(d, vol, c, offset, size) == []
  {
  }

  /** chain lists the clusters of a file that starts at c and ends. */
  predicate IsChain(d: Disk, vol: Volume, c: Word, chain: seq<Word>)
    decreases |chain|
  {
    && chain != [] && chain[0] == c
    && var n := NextCluster(d, vol, c);
       if |chain| == 1 then n >= END_OF_CHAIN else n < END_OF_CHAIN && IsChain(d, vol, n, chain[1..])
  }

  predicate AllReadable(d: Disk, vol: Volume, chain: seq<Word>) {
    forall c :: c in chain ==> ReadCluster(d, vol, c).Some?
  }

  /** The contents of the clusters, one after the other. */
  function Contents(d: Disk, vol: Volume, chain: seq<Word>): seq<Byte>
    requires AllReadable(d, vol, chain)
  {
    if chain == [] then [] else
    assert chain[0] in chain;
    ReadCluster(d, vol, chain[0]).value + Contents(d, vol, chain[1..])
  }

  function Min(a: nat, b: nat): nat { if a < b then a else b }

  function Slice(file: seq<Byte>, offset: nat, size: nat): seq<Byte> {
    if offset >= |file| then [] else file[offset..Min(offset + size, |file|)]
  }

  lemma SliceConcat(b: seq<Byte>, rest: seq<Byte>, offset: nat, size: nat)
    ensures offset >= |b| ==> Slice(b + rest, offset, size) == Slice(rest, offset - |b|, size)
    ensures offset < |b| && size <= |b| - offset ==> Slice(b + rest, offset, size) == b[offset..offset + size]
    ensures offset < |b| && size > |b| - offset ==>
              Slice(b + rest, offset, size) == b[offset..] + Slice(rest, 0, size - (|b| - offset))
  {
    var file := b + rest;
    if |b| <= offset < |file| {
      var end := Min(offset + size, |file|);
      assert file[offset..end] == rest[offset - |b|..end - |b|];
    }
  }

  /** Along a chain that ends, fat32_read is a slice of the concatenated clusters. */
  lemma {:induction false} ReadAlongChain(d: Disk, vol: Volume, c: Word, chain: seq<Word>, offset: nat, size: nat)
    requires vol.Ok() && IsChain(d, vol, c, chain) && AllReadable(d, vol, chain)
    ensures Read(d, vol, c, offset, size) == Slice(Contents(d, vol, chain), offset, size)
    decreases |chain|
  {
    hide Read, ReadCluster, NextCluster, Slice;
    var cs, rest := vol.ClusterSize(), chain[1..];
    assert c in chain;
    var b, file := ReadCluster(d, vol, c).value, Contents(d, vol, rest);
    SliceConcat(b, file, offset, size);
    if offset >= cs {
      ReadSkips(d, vol, c, offset, size);
      if |chain| > 1 {
        ReadAlongChain(d, vol, rest[0], rest, offset - cs, size);
      } else {
        SliceEmpty(offset - cs, size);
      }
    } else {
      ReadChunk(d, vol, c, offset, size);
      if size > cs - offset {
        if |chain| > 1 {
          ReadAlongChain(d, vol, rest[0], rest, 0, size - (cs - offset));
        } else {
          SliceEmpty(0, size - (cs - offset));
        }
      }
    }
  }

  lemma SliceEmpty(offset: nat, size: nat)
    ensures Slice([], offset, size) == []
  {
  }

  // ---------- What is on the disk ----------

  /** The four bytes of b from `at` on are those of w, lowest first. */
  predicate WordIn(b: seq<Byte>, at: nat, w: Word) {
    && at + 4 <= |b| && b[at] == w % 0x100 && b[at + 1] == w / 0x100 % 0x100
    && b[at + 2] == w / 0x1_0000 % 0x100 && b[at + 3] == w / 0x100_0000
  }

  /** Sectors needed for a FAT of n entries. */
  function FatSectors(n: nat): nat { (n + 127) / 128 }

  /** The FAT of the volume holds the entries of fat, one 32-bit word after the other, and the drive can address it. */
  predicate HoldsFat(d: Disk, vol: Volume, fat: seq<Word>) {
    && |fat| <= 0x1000_0000 && vol.fatStart + FatSectors(|fat|) <= 0x1000_0000
    && var r := ReadSectors(d, vol.fatStart, FatSectors(|fat|));
       r.Some? && forall c :: 0 <= c < |fat| ==> WordIn(r.value, 4 * c, fat[c])
  }

  /** chain lists the clusters that fat links from c on, to an end mark. */
  predicate FatChain(fat: seq<Word>, c: Word, chain: seq<Word>)
    decreases |chain|
  {
    && chain != [] && chain[0] == c < |fat|
    && var n := fat[c] % 0x1000_0000;
       if |chain| == 1 then n >= 0x0FFF_FFF8 else n < 0x0FFF_FFF8 && FatChain(fat, n, chain[1..])
  }

  /** What is read is what is on the sectors, one after the other. */
  lemma {:induction false} SectorBytes(d: Disk, lba: nat, count: nat, i: nat, k: nat)
    requires ReadSectors(d, lba, count).Some? && i < count && k < SECTOR
    ensures d(lba + i).Some? && SECTOR * i + k < count * SECTOR
    ensures ReadSectors(d, lba, count).value[SECTOR * i + k] == d(lba + i).value[k]
    decreases count
  {
    if i > 0 {
      SectorBytes(d, lba + 1, count - 1, i - 1, k);
    }
  }

  lemma EntryPlace(c: Word, n: nat)
    requires c < n <= 0x1000_0000
    ensures c / 128 < FatSectors(n) && 4 * c == SECTOR * (c / 128) + 4 * (c % 128)
    ensures c * 4 % MEM % SECTOR == 4 * (c % 128)
  {
    var q := c / 128;
    assert c * 4 == SECTOR * q + 4 * (c % 128);
  }

  /** The reader takes the entry of cluster c from the FAT, without its top four bits. */
  lemma NextIsFat(d: Disk, vol: Volume, fat: seq<Word>, c: Word)
    requires HoldsFat(d, vol, fat) && c < |fat|
    ensures NextCluster(d, vol, c) == fat[c] % 0x1000_0000
  {
    hide ReadSectors, FatSector, FatSectors, FromBytes;
    var i, k, n := c / 128, 4 * (c % 128), FatSectors(|fat|);
    EntryPlace(c, |fat|);
    FatSectorOf(vol, c);
    SectorBytes(d, vol.fatStart, n, i, k);
    SectorBytes(d, vol.fatStart, n, i, k + 1);
    SectorBytes(d, vol.fatStart, n, i, k + 2);
    SectorBytes(d, vol.fatStart, n, i, k + 3);
    assert WordIn(ReadSectors(d, vol.fatStart, n).value, 4 * c, fat[c]);
    ToBytes(fat[c]);
  }

  lemma {:induction false} ChainInFat(d: Disk, vol: Volume, fat: seq<Word>, c: Word, chain: seq<Word>)
    requires HoldsFat(d, vol, fat) && FatChain(fat, c, chain)
    ensures IsChain(d, vol, c, chain)
    decreases |chain|
  {
    hide HoldsFat, NextCluster;
    NextIsFat(d, vol, fat, c);
    if |chain| > 1 {
      ChainInFat(d, vol, fat, chain[1], chain[1..]);
    }
  }

  /** Sector j of cluster c, counted from the start of the data region, where cluster 2 is. */
  function DataSector(vol: Volume, c: Word, j: nat): nat
    requires c >= 2
  {
    vol.dataStart + (c - 2) * vol.spc + j
  }

  lemma ClusterAt(d: Disk, vol: Volume, c: Word, j: nat, k: nat)
    requires vol.Ok() && Addressable(vol, c) && ReadCluster(d, vol, c).Some? && j < vol.spc && k < SECTOR
    ensures d(DataSector(vol, c, j)).Some? && SECTOR * j + k < vol.ClusterSize()
    ensures ReadCluster(d, vol, c).value[SECTOR * j + k] == d(DataSector(vol, c, j)).value[k]
  {
    hide ReadSectors, ClusterLba;
    LbaOf(vol, c);
    SectorBytes(d, ClusterLba(vol, c), vol.spc, j, k);
  }

  lemma {:induction false} ContentsCluster(d: Disk, vol: Volume, chain: seq<Word>, i: nat, cs: nat, pos: nat)
    requires AllReadable(d, vol, chain) && i < |chain| && cs == vol.ClusterSize() && pos < cs
    ensures chain[i] in chain && i * cs + pos < |Contents(d, vol, chain)|
    ensures Contents(d, vol, chain)[i * cs + pos] == ReadCluster(d, vol, chain[i]).value[pos]
    decreases |chain|
  {
    hide ReadCluster;
    assert chain[0] in chain;
    if i > 0 {
      ContentsCluster(d, vol, chain[1..], i - 1, cs, pos);
      assert i * cs == (i - 1) * cs + cs;
    }
  }

  /** Byte k of sector j of the i-th cluster of a chain is that byte of the sector, counted from the data region on. */
  lemma ContentsAt(d: Disk, vol: Volume, chain: seq<Word>, i: nat, cs: nat, j: nat, k: nat)
    requires vol.Ok() && AllReadable(d, vol, chain) && i < |chain| && Addressable(vol, chain[i])
    requires cs == vol.ClusterSize() && j < vol.spc && k < SECTOR
    ensures d(DataSector(vol, chain[i], j)).Some? && i * cs + (SECTOR * j + k) < |Contents(d, vol, chain)|
    ensures Contents(d, vol, chain)[i * cs + (SECTOR * j + k)] == d(DataSector(vol, chain[i], j)).value[k]
  {
    hide ReadCluster, Contents, DataSector, Addressable;
    assert chain[i] in chain;
    ClusterAt(d, vol, chain[i], j, k);
    ContentsCluster(d, vol, chain, i, cs, SECTOR * j + k);
  }

  lemma {:induction false} ContentsLength(d: Disk, vol: Volume, chain: seq<Word>)
    requires AllReadable(d, vol, chain)
    ensures |Contents(d, vol, chain)| == |chain| * vol.ClusterSize()
  {
    hide ReadCluster;
    if chain != [] {
      assert chain[0] in chain;
      ContentsLength(d, vol, chain[1..]);
      assert |chain| * vol.ClusterSize() == vol.ClusterSize() + (|chain| - 1) * vol.ClusterSize();
    }
  }

  /** fat32_read is a slice of the file: min(size, length - offset) bytes of the clusters the FAT links, one after the
      other, or none past the end. */
  lemma ReadIsSlice(d: Disk, vol: Volume, fat: seq<Word>, c: Word, chain: seq<Word>, offset: nat, size: nat)
    requires vol.Ok() && HoldsFat(d, vol, fat) && FatChain(fat, c, chain) && AllReadable(d, vol, chain)
    ensures Read(d, vol, c, offset, size) == Slice(Contents(d, vol, chain), offset, size)
  {
    hide HoldsFat, Read, Slice, Contents;
    ChainInFat(d, vol, fat, c, chain);
    ReadAlongChain(d, vol, c, chain, offset, size);
  }

  // ---------- Directories ----------

  const SPACE: Byte := 32
  const DOT: Byte := 46
  const DELETED: Byte := 0xE5

  /** A 32-byte directory entry. */
  type Entry = e: seq<Byte> | |e| == 32 witness seq(32, _ => 0)

  /** Not deleted, and none of the low four attribute bits set: read-only, hidden, system and volume-label entries are
      skipped along with the long-name ones. */
  predicate Visible(e: Entry) {
    e[0] != DELETED && e[11] % 16 == 0
  }

  function FirstCluster(e: Entry): Word {
    FromBytes(e[26], e[27], e[20], e[21])
  }

  function FileSize(e: Entry): Word {
    FromBytes(e[28], e[29], e[30], e[31])
  }

  predicate IsDirectory(e: Entry) {
    e[11] / 16 % 2 == 1
  }

  function NoSpaces(s: seq<Byte>): (r: seq<Byte>)
    ensures |r| <= |s|
  {
    if s == [] then [] else (if s[0] != SPACE then [s[0]] else []) + NoSpaces(s[1..])
  }

  /** The 8.3 name with its padding dropped, and a dot before a non-empty extension. */
  function ShortName(e: Entry): seq<Byte> {
    NoSpaces(e[..8]) + (if e[8] != SPACE then [DOT] + NoSpaces(e[8..11]) else [])
  }

  /** What C makes of a character array: everything before the first zero. */
  function CStr(s: seq<Byte>): (r: seq<Byte>)
    ensures |r| <= |s| && r == s[..|r|] && 0 !in r
    ensures 0 in s ==> |r| < |s| && s[|r|] == 0
  {
    if s == [] || s[0] == 0 then [] else [s[0]] + CStr(s[1..])
  }

  function Entries(b: seq<Byte>): seq<Entry> {
    seq(|b| / 32, i requires 0 <= i < |b| / 32 => b[32 * i..32 * i + 32])
  }

  /** The visible entries up to the end marker, and whether the end marker was there. */
  function Scan(es: seq<Entry>): (seq<Entry>, bool) {
    if es == [] then ([], false)
    else if es[0][0] == 0 then ([], true)
    else
      var (v, ended) := Scan(es[1..]);
      (if Visible(es[0]) then [es[0]] + v else v, ended)
  }

  /** Directory walks go no further than cluster c. */
  predicate Stops(d: Disk, vol: Volume, c: Word) {
    match ReadCluster(d, vol, c)
    case None => true
    case Some(b) => Scan(Entries(b)).1
  }

  /** walk lists the clusters a directory walk from c visits. */
  predicate DirWalk(d: Disk, vol: Volume, c: Word, walk: seq<Word>)
    decreases |walk|
  {
    if walk == [] then c >= END_OF_CHAIN
    else
      && c < END_OF_CHAIN && walk[0] == c
      && if Stops(d, vol, c) then |walk| == 1 else DirWalk(d, vol, NextCluster(d, vol, c), walk[1..])
  }

  /** walk lists clusters a directory walk from c visits one after the other, but perhaps not to the end. */
  predicate DirPath(d: Disk, vol: Volume, c: Word, walk: seq<Word>)
    decreases |walk|
  {
    walk == [] ||
    (&& c < END_OF_CHAIN && walk[0] == c
     && (|walk| == 1 || (!Stops(d, vol, c) && DirPath(d, vol, NextCluster(d, vol, c), walk[1..]))))
  }

  /** The walk goes to the end of the directory, or far enough to find what is looked for. */
  predicate Decides(d: Disk, vol: Volume, c: Word, walk: seq<Word>, hit: bool) {
    DirWalk(d, vol, c, walk) || (DirPath(d, vol, c, walk) && hit)
  }

  /** A path that is no whole walk can be followed one cluster further: unless some walk decides, there is always one
      more cluster to look at. */
  lemma {:induction false} GoesOn(d: Disk, vol: Volume, c: Word, path: seq<Word>) returns (next: Word)
    requires DirPath(d, vol, c, path) && !DirWalk(d, vol, c, path)
    ensures DirPath(d, vol, c, path + [next])
    decreases |path|
  {
    hide Stops, NextCluster;
    if path == [] {
      next := c;
    } else {
      var n := NextCluster(d, vol, c);
      if |path| == 1 {
        next := n;
        assert (path + [n])[1..] == [n] && path[1..] == [];
      } else {
        next := GoesOn(d, vol, n, path[1..]);
        assert (path + [next])[1..] == path[1..] + [next];
      }
    }
  }

  /** One cluster of a deciding walk. */
  lemma WalkStep(d: Disk, vol: Volume, c: Word, walk: seq<Word>, hit: bool)
    requires c < END_OF_CHAIN && Decides(d, vol, c, walk, hit) && (hit ==> walk != [])
    ensures walk != [] && walk[0] == c && (Stops(d, vol, c) ==> walk[1..] == [])
    ensures !Stops(d, vol, c) ==> Decides(d, vol, NextCluster(d, vol, c), walk[1..], hit)
  {
    hide Stops, NextCluster;
  }

  /** The visible entries of a directory, in disk order. */
  function Listing(d: Disk, vol: Volume, walk: seq<Word>): seq<Entry> {
    if walk == [] then [] else
    match ReadCluster(d, vol, walk[0])
    case None => []
    case Some(b) => Scan(Entries(b)).0 + Listing(d, vol, walk[1..])
  }

  function WalkOf(d: Disk, vol: Volume, chain: seq<Word>): seq<Word> {
    if chain == [] || chain[0] >= END_OF_CHAIN then [] else
    [chain[0]] + if Stops(d, vol, chain[0]) then [] else WalkOf(d, vol, chain[1..])
  }

  /** Every directory whose cluster chain ends has a walk. */
  lemma {:induction false} ChainHasWalk(d: Disk, vol: Volume, c: Word, chain: seq<Word>)
    requires IsChain(d, vol, c, chain)
    ensures DirWalk(d, vol, c, WalkOf(d, vol, chain))
    decreases |chain|
  {
    hide Stops, NextCluster;
    var w := WalkOf(d, vol, chain);
    if c < END_OF_CHAIN && !Stops(d, vol, c) {
      assert w[1..] == WalkOf(d, vol, chain[1..]);
      if |chain| > 1 {
        ChainHasWalk(d, vol, chain[1], chain[1..]);
      }
    }
  }

  /** Position of the first entry whose name is `name`, or the length of the list. */
  function FirstNamed(es: seq<Entry>, name: seq<Byte>): (i: nat)
    ensures i <= |es|
  {
    if es == [] || CStr(ShortName(es[0])) == name then 0 else 1 + FirstNamed(es[1..], name)
  }

  lemma {:induction false} FirstNamedIs(es: seq<Entry>, name: seq<Byte>)
    ensures var i := FirstNamed(es, name);
            && (i < |es| ==> CStr(ShortName(es[i])) == name)
            && (forall j :: 0 <= j < i ==> CStr(ShortName(es[j])) != name)
  {
    hide CStr, ShortName;
    if es != [] && CStr(ShortName(es[0])) != name {
      FirstNamedIs(es[1..], name);
    }
  }

  lemma {:induction false} FirstNamedConcat(a: seq<Entry>, b: seq<Entry>, name: seq<Byte>)
    ensures FirstNamed(a + b, name) ==
            if FirstNamed(a, name) < |a| then FirstNamed(a, name) else |a| + FirstNamed(b, name)
  {
    if a == [] {
      assert a + b == b;
    } else {
      assert (a + b)[1..] == a[1..] + b;
      FirstNamedConcat(a[1..], b, name);
    }
  }

  datatype Dirent = Dirent(name: seq<Byte>, inode: Word)

  datatype Node = Node(inode: Word, length: Word, directory: bool)

  /** fat32_readdir(index), for a directory listed as es: the dirent's name array ends in a zero. */
  function ReaddirOf(es: seq<Entry>, index: nat): Option<Dirent> {
    if index < |es| then Some(Dirent(ShortName(es[index]) + [0], FirstCluster(es[index]))) else None
  }

  /** fat32_finddir(name). */
  function FinddirOf(es: seq<Entry>, name: seq<Byte>): Option<Node> {
    var i := FirstNamed(es, CStr(name));
    if i < |es| then Some(Node(FirstCluster(es[i]), FileSize(es[i]), IsDirectory(es[i]))) else None
  }

  lemma ReaddirConcat(a: seq<Entry>, b: seq<Entry>, index: nat)
    ensures ReaddirOf(a + b, index) == if index < |a| then ReaddirOf(a, index) else ReaddirOf(b, index - |a|)
  {
  }

  lemma FinddirConcat(a: seq<Entry>, b: seq<Entry>, name: seq<Byte>)
    ensures FinddirOf(a + b, name) == if FinddirOf(a, name).Some? then FinddirOf(a, name) else FinddirOf(b, name)
  {
    hide CStr, ShortName, FirstCluster, FileSize, IsDirectory;
    FirstNamedConcat(a, b, CStr(name));
  }

  lemma {:induction false} CStrTerminated(s: seq<Byte>)
    ensures CStr(s + [0]) == CStr(s)
  {
    if s == [] {
      assert s + [0] == [0];
    } else if s[0] != 0 {
      assert (s + [0])[1..] == s[1..] + [0];
      CStrTerminated(s[1..]);
    }
  }

  /** The two walks agree: finddir finds the inode of the least index whose readdir name is the name asked for, and
      nothing exactly when no index has that name. */
  lemma WalksAgree(es: seq<Entry>, name: seq<Byte>)
    ensures FinddirOf(es, name).None? <==>
            forall i :: 0 <= i < |es| ==> CStr(ReaddirOf(es, i).value.name) != CStr(name)
    ensures FinddirOf(es, name).Some? ==>
            exists i :: && 0 <= i < |es|
                        && CStr(ReaddirOf(es, i).value.name) == CStr(name)
                        && ReaddirOf(es, i).value.inode == FinddirOf(es, name).value.inode
                        && forall j :: 0 <= j < i ==> CStr(ReaddirOf(es, j).value.name) != CStr(name)
  {
    hide CStr, ShortName;
    forall i | 0 <= i < |es| ensures CStr(ReaddirOf(es, i).value.name) == CStr(ShortName(es[i])) {
      CStrTerminated(ShortName(es[i]));
    }
    var k := FirstNamed(es, CStr(name));
    FirstNamedIs(es, CStr(name));
    if k < |es| {
      assert ReaddirOf(es, k).value.inode == FinddirOf(es, name).value.inode;
    }
  }
}
