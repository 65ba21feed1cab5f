/** What a FAT32 volume looks like to whoever writes it, byte by byte, and that the reader of src/fat32.c makes of it
    what was meant: the layout of the boot sector, and the names, clusters, sizes and kinds of directory entries. */
module Fat32Image {
  import opened Machine
  import opened Memory
  import opened Fat32Spec

  // ---------- The boot sector ----------

  predicate HalfIn(b: seq<Byte>, at: nat, x: Half) {
    at + 2 <= |b| && b[at] == x % 0x100 && b[at + 1] == x / 0x100
  }

  /** The boot sector holds the fields at the offsets of the Microsoft FAT specification, section 3. */
  predicate HoldsBpb(boot: Sector, b: Bpb) {
    && HalfIn(boot, 0x0B, b.bytesPerSector) && boot[0x0D] == b.spc && HalfIn(boot, 0x0E, b.reserved)
    && boot[0x10] == b.fats && WordIn(boot, 0x24, b.fatSize) && WordIn(boot, 0x2C, b.root)
  }

  lemma ReadsBpb(boot: Sector, b: Bpb)
    requires HoldsBpb(boot, b)
    ensures BpbOf(boot) == b
  {
    ToBytes(b.fatSize);
    ToBytes(b.root);
  }

  // ---------- Directory entries ----------

  /** One file or directory: name and extension, attribute byte, first cluster and length. */
  datatype Item = Item(name: seq<Byte>, ext: seq<Byte>, attr: Byte, cluster: Word, size: Word) {
    /** A name of 1 to 8 bytes and an extension of up to 3, without spaces, zeros or the deletion mark. */
    predicate Ok() {
      1 <= |name| <= 8 && |ext| <= 3 && 0x20 !in name + ext && 0 !in name + ext && name[0] != 0xE5
    }

    function FullName(): seq<Byte> { name + if ext == [] then [] else ['.' as int] + ext }

    predicate Has(flag: nat)
      requires flag > 0
    {
      attr / flag % 2 == 1
    }

    /** None of read-only, hidden, system and volume label. */
    predicate Plain() { !Has(1) && !Has(2) && !Has(4) && !Has(8) }
  }

  function Padded(s: seq<Byte>, n: nat): seq<Byte>
    requires |s| <= n
  {
    s + seq(n - |s|, _ => 0x20)
  }

  /** The entry holds the item at the offsets of the Microsoft FAT specification, section 6. */
  predicate HoldsItem(e: Entry, x: Item) {
    && x.Ok() && e[..8] == Padded(x.name, 8) && e[8..11] == Padded(x.ext, 3) && e[0x0B] == x.attr
    && HalfIn(e, 0x1A, x.cluster % 0x1_0000) && HalfIn(e, 0x14, x.cluster / 0x1_0000) && WordIn(e, 0x1C, x.size)
  }

  lemma {:induction false} NoSpacesAll(s: seq<Byte>)
    ensures SPACE !in s ==> NoSpaces(s) == s
    ensures (forall i :: 0 <= i < |s| ==> s[i] == SPACE) ==> NoSpaces(s) == []
  {
    if s != [] {
      NoSpacesAll(s[1..]);
      assert s == [s[0]] + s[1..];
    }
  }

  lemma {:induction false} NoSpacesConcat(a: seq<Byte>, b: seq<Byte>)
    ensures NoSpaces(a + b) == NoSpaces(a) + NoSpaces(b)
  {
    if a == [] {
      assert a + b == b;
    } else {
      assert (a + b)[1..] == a[1..] + b;
      NoSpacesConcat(a[1..], b);
    }
  }

  lemma Unpadded(s: seq<Byte>, n: nat)
    requires |s| <= n && SPACE !in s
    ensures NoSpaces(Padded(s, n)) == s
  {
    var pad := seq(n - |s|, _ => SPACE);
    NoSpacesConcat(s, pad);
    NoSpacesAll(s);
    NoSpacesAll(pad);
  }

  lemma NameIs(e: Entry, x: Item)
    requires HoldsItem(e, x)
    ensures ShortName(e) == x.FullName()
  {
    hide NoSpaces;
    Unpadded(x.name, 8);
    Unpadded(x.ext, 3);
    assert e[8] == e[8..11][0];
    if x.ext == [] {
      assert e[8] == Padded(x.ext, 3)[0] == SPACE;
    } else {
      assert e[8] == Padded(x.ext, 3)[0] == x.ext[0];
      assert x.ext[0] in x.name + x.ext;
    }
  }

  lemma ClusterIs(e: Entry, x: Item)
    requires HoldsItem(e, x)
    ensures FirstCluster(e) == x.cluster && FileSize(e) == x.size
  {
    hide ShortName, Padded, FromBytes;
    ToBytes(x.size);
    ToBytes(x.cluster);
    Halves(x.cluster);
  }

  /** The four bytes of a word, from its two halves. */
  lemma Halves(w: Word)
    ensures var lo, hi := w % 0x1_0000, w / 0x1_0000;
            && lo % 0x100 == w % 0x100 && lo / 0x100 == w / 0x100 % 0x100
            && hi % 0x100 == w / 0x1_0000 % 0x100 && hi / 0x100 == w / 0x100_0000
  {
    var lo, hi := w % 0x1_0000, w / 0x1_0000;
    LowHalf(hi, lo);
    HighHalf(hi, lo);
  }

  lemma LowHalf(hi: nat, lo: nat)
    requires lo < 0x1_0000
    ensures var w := 0x1_0000 * hi + lo; w % 0x100 == lo % 0x100 && w / 0x100 % 0x100 == lo / 0x100
  {
    var q, r := lo / 0x100, lo % 0x100;
    var w := 0x100 * (0x100 * hi + q) + r;
    assert w / 0x100 == 0x100 * hi + q;
  }

  lemma HighHalf(hi: nat, lo: nat)
    requires lo < 0x1_0000
    ensures (0x1_0000 * hi + lo) / 0x100_0000 == hi / 0x100
  {
    var q, r := hi / 0x100, hi % 0x100;
    var rest := 0x1_0000 * r + lo;
    assert 0x1_0000 * hi + lo == 0x100_0000 * q + rest && rest < 0x100_0000;
  }

  lemma AttributesAre(e: Entry, x: Item)
    requires HoldsItem(e, x)
    ensures (Visible(e) <==> x.Plain()) && (IsDirectory(e) <==> x.Has(0x10)) && e[0] != 0
  {
    assert e[0] == e[..8][0] == x.name[0];
    assert x.name[0] in x.name + x.ext;
    LowBits(x.attr);
  }

  lemma LowBits(a: Byte)
    ensures a % 16 == 0 <==> a % 2 == 0 && a / 2 % 2 == 0 && a / 4 % 2 == 0 && a / 8 % 2 == 0
  {
    Sixteenth(a);
    Eighth(a / 2);
    assert a / 2 / 2 == a / 4 && a / 4 / 2 == a / 8;
    Fourth(a / 4);
  }

  lemma Sixteenth(a: nat)
    ensures a % 16 == 0 <==> a % 2 == 0 && a / 2 % 8 == 0
  {
    var r, q, t := a % 2, a / 2 / 8, a / 2 % 8;
    assert a / 2 == 8 * q + t && a == 16 * q + (2 * t + r);
  }

  lemma Eighth(a: nat)
    ensures a % 8 == 0 <==> a % 2 == 0 && a / 2 % 4 == 0
  {
    var r, q, t := a % 2, a / 2 / 4, a / 2 % 4;
    assert a / 2 == 4 * q + t && a == 8 * q + (2 * t + r);
  }

  lemma Fourth(a: nat)
    ensures a % 4 == 0 <==> a % 2 == 0 && a / 2 % 2 == 0
  {
    var r, q, t := a % 2, a / 2 / 2, a / 2 % 2;
    assert a / 2 == 2 * q + t && a == 4 * q + (2 * t + r);
  }

  // ---------- Directories ----------

  /** What a 32-byte record is there for. */
  datatype Record = Live(item: Item) | Deleted | LongName

  predicate HoldsRecord(e: Entry, r: Record) {
    match r
    case Live(x) => HoldsItem(e, x)
    case Deleted => e[0] == 0xE5
    case LongName => e[0] != 0 && e[0x0B] == 0x0F
  }

  /** The records, in order, up to an end mark or to the end of the directory. */
  predicate HoldsDir(es: seq<Entry>, rs: seq<Record>) {
    && |rs| <= |es| && (|rs| < |es| ==> es[|rs|][0] == 0)
    && forall i :: 0 <= i < |rs| ==> HoldsRecord(es[i], rs[i])
  }

  /** The items a reader is to see. */
  function PlainItems(rs: seq<Record>): seq<Item> {
    if rs == [] then [] else (if rs[0].Live? && rs[0].item.Plain() then [rs[0].item] else []) + PlainItems(rs[1..])
  }

  predicate Matches(es: seq<Entry>, xs: seq<Item>) {
    |es| == |xs| && forall i :: 0 <= i < |xs| ==> HoldsItem(es[i], xs[i])
  }

  lemma RecordVisible(e: Entry, r: Record)
    requires HoldsRecord(e, r)
    ensures e[0] != 0 && (Visible(e) <==> r.Live? && r.item.Plain())
  {
    hide HoldsItem;
    if r.Live? {
      AttributesAre(e, r.item);
    }
  }

  lemma {:induction false} ScanRecords(es: seq<Entry>, rs: seq<Record>)
    requires HoldsDir(es, rs)
    ensures Matches(Scan(es).0, PlainItems(rs))
    decreases |rs|
  {
    hide HoldsItem, Visible;
    if rs != [] {
      assert HoldsRecord(es[0], rs[0]);
      RecordVisible(es[0], rs[0]);
      assert forall i :: 0 <= i < |rs| - 1 ==> HoldsRecord(es[1..][i], rs[1..][i]);
      ScanRecords(es[1..], rs[1..]);
    }
  }

  lemma {:induction false} ScanConcat(a: seq<Entry>, b: seq<Entry>)
    ensures Scan(a + b) == if Scan(a).1 then Scan(a) else (Scan(a).0 + Scan(b).0, Scan(b).1)
  {
    hide Visible;
    if a == [] {
      assert a + b == b && [] + Scan(b).0 == Scan(b).0;
    } else {
      assert (a + b)[1..] == a[1..] + b;
      ScanConcat(a[1..], b);
      var v, w := Scan(a[1..]).0, Scan(b).0;
      assert [a[0]] + (v + w) == ([a[0]] + v) + w;
    }
  }

  lemma EntriesConcat(x: seq<Byte>, y: seq<Byte>)
    requires |x| % 32 == 0
    ensures Entries(x + y) == Entries(x) + Entries(y)
  {
    var n := |x| / 32;
    assert |x + y| / 32 == n + |y| / 32;
    forall i | 0 <= i < |x + y| / 32 ensures Entries(x + y)[i] == (Entries(x) + Entries(y))[i] {
      if i < n {
        assert (x + y)[32 * i..32 * i + 32] == x[32 * i..32 * i + 32];
      } else {
        assert (x + y)[32 * i..32 * i + 32] == y[32 * (i - n)..32 * (i - n) + 32];
      }
    }
  }

  /** Walking a directory cluster by cluster lists what scanning it in one piece would. */
  lemma {:induction false} ListingIsScan(d: Disk, vol: Volume, c: Word, chain: seq<Word>)
    requires vol.Ok() && IsChain(d, vol, c, chain) && AllReadable(d, vol, chain) && c < END_OF_CHAIN
    ensures Listing(d, vol, WalkOf(d, vol, chain)) == Scan(Entries(Contents(d, vol, chain))).0
    decreases |chain|
  {
    hide ReadCluster, NextCluster, Scan, Entries;
    assert chain[0] in chain;
    var b, rest := ReadCluster(d, vol, c).value, chain[1..];
    EntriesConcat(b, Contents(d, vol, rest));
    ScanConcat(Entries(b), Entries(Contents(d, vol, rest)));
    var w := WalkOf(d, vol, chain);
    if |chain| > 1 {
      ListingIsScan(d, vol, rest[0], rest);
    } else {
      EmptyScan();
    }
    if !Stops(d, vol, c) {
      assert w[1..] == WalkOf(d, vol, rest);
    }
  }

  lemma EmptyScan()
    ensures Scan(Entries([])) == ([], false)
  {
  }

  /** A directory: its clusters as the FAT links them, and the records in them. */
  predicate IsDirOf(d: Disk, vol: Volume, fat: seq<Word>, c: Word, chain: seq<Word>, rs: seq<Record>) {
    && vol.Ok() && HoldsFat(d, vol, fat) && c < END_OF_CHAIN && FatChain(fat, c, chain) && AllReadable(d, vol, chain)
    && HoldsDir(Entries(Contents(d, vol, chain)), rs)
  }

  lemma DirListing(d: Disk, vol: Volume, fat: seq<Word>, c: Word, chain: seq<Word>, rs: seq<Record>)
    requires IsDirOf(d, vol, fat, c, chain, rs)
    ensures DirWalk(d, vol, c, WalkOf(d, vol, chain))
    ensures Matches(Listing(d, vol, WalkOf(d, vol, chain)), PlainItems(rs))
  {
    hide HoldsFat, Contents, Entries, HoldsDir, Scan, Matches, Listing, WalkOf, DirWalk;
    ChainInFat(d, vol, fat, c, chain);
    ChainHasWalk(d, vol, c, chain);
    ListingIsScan(d, vol, c, chain);
    ScanRecords(Entries(Contents(d, vol, chain)), rs);
  }

  /** fat32_readdir on a directory as it was written: the index-th item, deleted and hidden ones not counted. */
  lemma ReaddirItems(d: Disk, vol: Volume, fat: seq<Word>, c: Word, chain: seq<Word>, rs: seq<Record>, index: nat)
    requires IsDirOf(d, vol, fat, c, chain, rs)
    ensures var xs := PlainItems(rs);
            ReaddirOf(Listing(d, vol, WalkOf(d, vol, chain)), index) ==
            if index < |xs| then Some(Dirent(xs[index].FullName() + [0], xs[index].cluster)) else None
  {
    hide IsDirOf, HoldsItem, ShortName, FirstCluster, Listing, WalkOf, PlainItems;
    DirListing(d, vol, fat, c, chain, rs);
    var es, xs := Listing(d, vol, WalkOf(d, vol, chain)), PlainItems(rs);
    if index < |xs| {
      NameIs(es[index], xs[index]);
      ClusterIs(es[index], xs[index]);
    }
  }

  function FirstItem(xs: seq<Item>, name: seq<Byte>): (i: nat)
    ensures i <= |xs| && (i < |xs| ==> xs[i].FullName() == name)
    ensures forall j :: 0 <= j < i ==> xs[j].FullName() != name
  {
    if xs == [] || xs[0].FullName() == name then 0 else 1 + FirstItem(xs[1..], name)
  }

  lemma {:induction false} CStrWhole(s: seq<Byte>)
    requires 0 !in s
    ensures CStr(s) == s
  {
    if s != [] {
      CStrWhole(s[1..]);
      assert s == [s[0]] + s[1..];
    }
  }

  lemma CNameIs(e: Entry, x: Item)
    requires HoldsItem(e, x)
    ensures CStr(ShortName(e)) == x.FullName()
  {
    hide CStr, ShortName;
    NameIs(e, x);
    assert forall b :: b in x.FullName() ==> b in x.name + x.ext || b == DOT;
    CStrWhole(x.FullName());
  }

  lemma {:induction false} FirstNamedItem(es: seq<Entry>, xs: seq<Item>, name: seq<Byte>)
    requires Matches(es, xs)
    ensures FirstNamed(es, name) == FirstItem(xs, name)
    decreases |xs|
  {
    hide HoldsItem, CStr, ShortName;
    if xs != [] {
      CNameIs(es[0], xs[0]);
      FirstNamedItem(es[1..], xs[1..], name);
    }
  }

  /** fat32_finddir on a directory as it was written: cluster, length and kind of the first item of that name. */
  lemma FinddirItems(d: Disk, vol: Volume, fat: seq<Word>, c: Word, chain: seq<Word>, rs: seq<Record>, name: seq<Byte>)
    requires IsDirOf(d, vol, fat, c, chain, rs)
    ensures var xs := PlainItems(rs);
            var i := FirstItem(xs, CStr(name));
            FinddirOf(Listing(d, vol, WalkOf(d, vol, chain)), name) ==
            if i < |xs| then Some(Node(xs[i].cluster, xs[i].size, xs[i].Has(0x10))) else None
  {
    hide IsDirOf, HoldsItem, CStr, FirstCluster, FileSize, IsDirectory, Listing, WalkOf, PlainItems, FirstNamed,
         FirstItem;
    DirListing(d, vol, fat, c, chain, rs);
    var es, xs := Listing(d, vol, WalkOf(d, vol, chain)), PlainItems(rs);
    FirstNamedItem(es, xs, CStr(name));
    var i := FirstItem(xs, CStr(name));
    if i < |xs| {
      ClusterIs(es[i], xs[i]);
      AttributesAre(es[i], xs[i]);
    }
  }
}
