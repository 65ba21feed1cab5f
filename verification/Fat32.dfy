/** The loops of src/fat32.c. */
module Fat32 {
  import opened Machine
  import opened Memory
  import opened Fat32Spec

  /** fat32_read fills the buffer with exactly the bytes the file has there, on any FAT, cyclic ones included. */
  method Fat32Read(d: Disk, vol: Volume, inode: Word, offset0: Word, size0: Word, buffer: array<Byte>)
    returns (readSize: Word)
    requires vol.Ok() && buffer.Length >= size0
    modifies buffer
    ensures readSize <= size0 && buffer[..readSize] == Read(d, vol, inode, offset0, size0)
    ensures forall k :: readSize <= k < buffer.Length ==> buffer[k] == old(buffer[k])
  {
    hide Read, ReadCluster, NextCluster, ByteAt;
    readSize := 0;
    var found, cluster, offset := SkipClusters(d, vol, inode, offset0, size0);
    if found {
      readSize := ReadClusters(d, vol, cluster, offset, size0, buffer);
    }
  }

  /** Walks to the cluster holding the offset. */
  method SkipClusters(d: Disk, vol: Volume, inode: Word, offset0: Word, ghost size: Word)
    returns (found: bool, cluster: Word, offset: nat)
    requires vol.Ok()
    ensures found ==> offset < vol.ClusterSize()
    ensures Read(d, vol, inode, offset0, size) == if found then Read(d, vol, cluster, offset, size) else []
  {
    hide Read, NextCluster;
    cluster, offset := inode, offset0;
    found := true;
    while found && offset >= vol.ClusterSize()
      invariant Read(d, vol, inode, offset0, size) == if found then Read(d, vol, cluster, offset, size) else []
      decreases found, offset
    {
      ReadSkips(d, vol, cluster, offset, size);
      cluster := NextCluster(d, vol, cluster);
      if cluster >= END_OF_CHAIN {
        found := false;
      } else {
        offset := offset - vol.ClusterSize();
      }
    }
  }

  /** Copies cluster after cluster until the request is met, the chain ends or a cluster cannot be read. */
  method ReadClusters(d: Disk, vol: Volume, cluster0: Word, offset0: nat, size0: Word, buffer: array<Byte>)
    returns (readSize: Word)
    requires vol.Ok() && offset0 < vol.ClusterSize() && buffer.Length >= size0
    modifies buffer
    ensures readSize <= size0 && buffer[..readSize] == Read(d, vol, cluster0, offset0, size0)
    ensures forall k :: readSize <= k < buffer.Length ==> buffer[k] == old(buffer[k])
  {
    hide Read, ReadCluster, NextCluster;
    ghost var want := Read(d, vol, cluster0, offset0, size0);
    ghost var rest := want;
    var cluster: Word, offset: nat, size: nat, stop := cluster0, offset0, size0, size0 == 0;
    if stop {
      NothingRead(d, vol, cluster0, offset0);
    }
    readSize := 0;
    while !stop
      invariant readSize + size == size0 && offset < vol.ClusterSize() && (!stop ==> size > 0)
      invariant rest == if stop then [] else Read(d, vol, cluster, offset, size)
      invariant buffer[..readSize] + rest == want
      invariant forall k :: readSize <= k < buffer.Length ==> buffer[k] == old(buffer[k])
      decreases size, !stop
    {
      var clusterBuffer := ReadCluster(d, vol, cluster);
      if clusterBuffer.None? {
        ReadUnreadable(d, vol, cluster, offset, size);
        stop := true;
      } else {
        ReadChunk(d, vol, cluster, offset, size);
        var chunkSize := Min(vol.ClusterSize() - offset, size);
        ghost var done := buffer[..readSize];
        ghost var chunk := clusterBuffer.value[offset..offset + chunkSize];
        CopyInto(clusterBuffer.value, offset, chunkSize, buffer, readSize);
        readSize := readSize + chunkSize;
        size := size - chunkSize;
        offset := 0;
        if size > 0 {
          cluster := NextCluster(d, vol, cluster);
        }
        stop := size == 0 || cluster >= END_OF_CHAIN;
        ghost var before := rest;
        rest := if stop then [] else Read(d, vol, cluster, 0, size);
        assert before == chunk + rest;
        Associate(done, chunk, rest);
      }
    }
  }

  lemma Associate(a: seq<Byte>, b: seq<Byte>, c: seq<Byte>)
    ensures (a + b) + c == a + (b + c)
  {
  }

  method CopyInto(src: seq<Byte>, offset: nat, n: nat, buffer: array<Byte>, at: nat)
    requires offset + n <= |src| && at + n <= buffer.Length
    modifies buffer
    ensures buffer[..at + n] == old(buffer[..at]) + src[offset..offset + n]
    ensures forall k :: at + n <= k < buffer.Length ==> buffer[k] == old(buffer[k])
  {
    var i := 0;
    while i < n
      invariant 0 <= i <= n
      invariant forall k :: 0 <= k < buffer.Length ==>
                  buffer[k] == if at <= k < at + i then src[offset + k - at] else old(buffer[k])
    {
      buffer[at + i] := src[offset + i];
      i := i + 1;
    }
  }

  // ---------- Directories ----------

  /** Both directory walks build the name of an entry with these loops. */
  method BuildName(e: Entry) returns (name: seq<Byte>)
    ensures name == ShortName(e) + [0] && |name| <= 13
  {
    name := AppendNonSpaces([], e[..8]);
    if e[8] != SPACE {
      name := AppendNonSpaces(name + [DOT], e[8..11]);
    }
    name := name + [0];
  }

  method AppendNonSpaces(start: seq<Byte>, s: seq<Byte>) returns (name: seq<Byte>)
    ensures name == start + NoSpaces(s)
  {
    name := start;
    var k := 0;
    while k < |s|
      invariant 0 <= k <= |s|
      invariant name + NoSpaces(s[k..]) == start + NoSpaces(s)
    {
      ghost var before := name;
      if s[k] != SPACE {
        name := name + [s[k]];
      }
      assert s[k..][1..] == s[k + 1..];
      assert name + NoSpaces(s[k + 1..]) == before + NoSpaces(s[k..]);
      k := k + 1;
    }
  }

  /** The comparison loop of fat32_finddir on two zero-terminated arrays. */
  method SameString(a: seq<Byte>, b: seq<Byte>) returns (same: bool)
    requires 0 in a && 0 in b
    ensures same <==> CStr(a) == CStr(b)
  {
    ghost var x, y := CStr(a), CStr(b);
    var k := 0;
    same := true;
    while same && (a[k] != 0 || b[k] != 0)
      invariant k <= |x| && k <= |y|
      invariant x[..k] == y[..k]
      invariant !same ==> x != y
      decreases |a| - k, same
    {
      if a[k] != b[k] {
        same := false;
        assert k == |x| || k == |y| || x[k] != y[k];
      } else {
        assert x[..k + 1] == y[..k + 1];
        k := k + 1;
      }
    }
  }

  datatype Outcome = Found(e: Entry) | Ended | More(count: nat)

  /** The entry loop of fat32_readdir over one cluster. */
  method PickEntry(es: seq<Entry>, index: nat, start: nat) returns (r: Outcome)
    requires start <= index
    ensures var (v, ended) := Scan(es);
            r == if index - start < |v| then Found(v[index - start]) else if ended then Ended else More(start + |v|)
  {
    hide Visible;
    var i, count := 0, start;
    ghost var seen: seq<Entry> := [];
    assert es[0..] == es && seen + Scan(es).0 == Scan(es).0;
    while i < |es|
      invariant 0 <= i <= |es| && start <= count <= index && |seen| == count - start
      invariant Scan(es) == (seen + Scan(es[i..]).0, Scan(es[i..]).1)
    {
      assert es[i..][1..] == es[i + 1..];
      if es[i][0] == 0 {
        return Ended;
      }
      if Visible(es[i]) {
        if count == index {
          return Found(es[i]);
        }
        assert seen + ([es[i]] + Scan(es[i + 1..]).0) == seen + [es[i]] + Scan(es[i + 1..]).0;
        seen := seen + [es[i]];
        count := count + 1;
      }
      i := i + 1;
    }
    r := More(count);
  }

  /** fat32_readdir: the index-th visible entry of the directory, or NULL past the last. On a cyclic directory there is
      no last, and the walk need only reach the entry. */
  method Readdir(d: Disk, vol: Volume, inode: Word, index: nat, ghost walk: seq<Word>) returns (r: Option<Dirent>)
    requires vol.Ok() && Decides(d, vol, inode, walk, index < |Listing(d, vol, walk)|)
    ensures r == ReaddirOf(Listing(d, vol, walk), index)
  {
    hide ReadCluster, NextCluster, Scan, Entries, ReaddirOf, Decides, ShortName, FirstCluster;
    var cluster: Word, count := inode, 0;
    ghost var rest := walk;
    r := None;
    var stop := false;
    while cluster < END_OF_CHAIN && !stop
      invariant stop ==> r == ReaddirOf(Listing(d, vol, walk), index)
      invariant !stop ==> r == None && count <= index
      invariant !stop ==> Decides(d, vol, cluster, rest, index - count < |Listing(d, vol, rest)|)
      invariant !stop ==> ReaddirOf(Listing(d, vol, walk), index) == ReaddirOf(Listing(d, vol, rest), index - count)
      decreases !stop, |rest|
    {
      WalkStep(d, vol, cluster, rest, index - count < |Listing(d, vol, rest)|);
      var buffer := ReadCluster(d, vol, cluster);
      if buffer.None? {
        stop := true;
        ReaddirNone([], index - count);
      } else {
        var es := Entries(buffer.value);
        ReaddirConcat(Scan(es).0, Listing(d, vol, rest[1..]), index - count);
        var o := PickEntry(es, index, count);
        match o {
          case Found(e) =>
            var name := BuildName(e);
            r := Some(Dirent(name, FirstCluster(e)));
            ReaddirSome(Scan(es).0, index - count);
            stop := true;
          case Ended =>
            ReaddirNone([], index - count - |Scan(es).0|);
            stop := true;
          case More(n) =>
            count := n;
            cluster := NextCluster(d, vol, cluster);
            rest := rest[1..];
        }
      }
    }
    if !stop {
      WalkEnds(d, vol, cluster, rest, index - count < |Listing(d, vol, rest)|);
      ReaddirNone([], index - count);
    }
  }

  lemma ReaddirNone(es: seq<Entry>, index: int)
    ensures index >= |es| ==> ReaddirOf(es, index) == None
  {
  }

  lemma ReaddirSome(es: seq<Entry>, index: nat)
    requires index < |es|
    ensures ReaddirOf(es, index) == Some(Dirent(ShortName(es[index]) + [0], FirstCluster(es[index])))
  {
  }

  /** What the visible entries of one cluster have to say about a name. */
  function NamedOutcome(es: seq<Entry>, key: seq<Byte>): Outcome {
    var (v, ended) := Scan(es);
    var k := FirstNamed(v, key);
    if k < |v| then Found(v[k]) else if ended then Ended else More(0)
  }

  lemma NamedStep(es: seq<Entry>, key: seq<Byte>)
    requires es != []
    ensures NamedOutcome(es, key) ==
            if es[0][0] == 0 then Ended
            else if Visible(es[0]) && CStr(ShortName(es[0])) == key then Found(es[0])
            else NamedOutcome(es[1..], key)
  {
    hide Visible, CStr, ShortName;
    var v := Scan(es[1..]).0;
    assert ([es[0]] + v)[1..] == v;
  }

  /** The entry loop of fat32_finddir over one cluster. */
  method PickNamed(es: seq<Entry>, name: seq<Byte>) returns (r: Outcome)
    requires 0 in name
    ensures r == NamedOutcome(es, CStr(name))
  {
    hide Visible, CStr, ShortName, NamedOutcome;
    var i := 0;
    ghost var key := CStr(name);
    assert es[0..] == es;
    while i < |es|
      invariant 0 <= i <= |es| && NamedOutcome(es, key) == NamedOutcome(es[i..], key)
    {
      NamedStep(es[i..], key);
      assert es[i..][1..] == es[i + 1..];
      if es[i][0] == 0 {
        return Ended;
      }
      if Visible(es[i]) {
        var entryName := BuildName(es[i]);
        CStrTerminated(ShortName(es[i]));
        var same := SameString(name, entryName);
        if same {
          return Found(es[i]);
        }
      }
      i := i + 1;
    }
    assert es[i..] == [];
    NamedNothing(key);
    r := More(0);
  }

  lemma NamedNothing(key: seq<Byte>)
    ensures NamedOutcome([], key) == More(0)
  {
  }

  /** fat32_finddir: the node of the first visible entry with that name, or NULL. On a cyclic directory the walk need
      only reach the entry. */
  method Finddir(d: Disk, vol: Volume, inode: Word, name: seq<Byte>, ghost walk: seq<Word>) returns (r: Option<Node>)
    requires vol.Ok() && 0 in name && Decides(d, vol, inode, walk, FinddirOf(Listing(d, vol, walk), name).Some?)
    ensures r == FinddirOf(Listing(d, vol, walk), name)
  {
    hide ReadCluster, NextCluster, Scan, Entries, FinddirOf, FirstNamed, Decides, FirstCluster, FileSize, IsDirectory,
         CStr;
    var cluster: Word := inode;
    ghost var rest := walk;
    r := None;
    var stop := false;
    FinddirNothing(name);
    while cluster < END_OF_CHAIN && !stop
      invariant stop ==> r == FinddirOf(Listing(d, vol, walk), name)
      invariant !stop ==> r == None
      invariant !stop ==> Decides(d, vol, cluster, rest, FinddirOf(Listing(d, vol, rest), name).Some?)
      invariant !stop ==> FinddirOf(Listing(d, vol, walk), name) == FinddirOf(Listing(d, vol, rest), name)
      decreases !stop, |rest|
    {
      WalkStep(d, vol, cluster, rest, FinddirOf(Listing(d, vol, rest), name).Some?);
      var buffer := ReadCluster(d, vol, cluster);
      if buffer.None? {
        stop := true;
      } else {
        var es := Entries(buffer.value);
        FinddirConcat(Scan(es).0, Listing(d, vol, rest[1..]), name);
        FinddirAt(Scan(es).0, name);
        var o := PickNamed(es, name);
        match o {
          case Found(e) =>
            r := Some(Node(FirstCluster(e), FileSize(e), IsDirectory(e)));
            stop := true;
          case Ended =>
            stop := true;
          case More(n) =>
            cluster := NextCluster(d, vol, cluster);
            rest := rest[1..];
        }
      }
    }
    if !stop {
      WalkEnds(d, vol, cluster, rest, FinddirOf(Listing(d, vol, rest), name).Some?);
    }
  }

  lemma FinddirNothing(name: seq<Byte>)
    ensures FinddirOf([], name) == None
  {
  }

  lemma FinddirAt(es: seq<Entry>, name: seq<Byte>)
    ensures var i := FirstNamed(es, CStr(name));
            FinddirOf(es, name) ==
            if i < |es| then Some(Node(FirstCluster(es[i]), FileSize(es[i]), IsDirectory(es[i]))) else None
  {
  }

  lemma WalkEnds(d: Disk, vol: Volume, c: Word, walk: seq<Word>, hit: bool)
    requires c >= END_OF_CHAIN && Decides(d, vol, c, walk, hit)
    ensures walk == []
  {
  }

  /** fat32_init: the layout and the root cluster, if the boot sector can be read and is accepted. */
  method Fat32Init(d: Disk) returns (r: Option<(Volume, Word)>)
    ensures r.Some? <==> d(0).Some? && LayoutOf(BpbOf(d(0).value)).Some?
    ensures r.Some? ==> r.value == (LayoutOf(BpbOf(d(0).value)).value, BpbOf(d(0).value).root)
  {
    hide FromBytes;
    r := None;
    var sector0 := d(0);
    if sector0.Some? {
      var bpb := BpbOf(sector0.value);
      if bpb.bytesPerSector != 0 && bpb.spc != 0 && bpb.fatSize != 0 && bpb.fats != 0 {
        var dataStart := (bpb.reserved + bpb.fats * bpb.fatSize % MEM) % MEM;
        r := Some((Volume(bpb.reserved, dataStart, bpb.spc), bpb.root));
      }
    }
  }
}
