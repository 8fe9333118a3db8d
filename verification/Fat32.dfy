/**
The FAT32 reader: mounting, the root directory and files, over a block device whose sectors may
fail to read. Directory scans and file reads are loops; what they find is said by a listing of the
directory and by the cluster chain of the allocation table.
*/
module Fat32 {
  import opened Common
  import opened Counting

  const MAX_READ: nat := 4096
  const MAX_DIRECTORY_CLUSTERS: nat := 4096
  const MAX_FILE_CLUSTERS: nat := 8
  const EOC: nat := 0x0FFF_FFF8
  const BAD: nat := 0x0FFF_FFF7

  datatype Status = Ok | NotFound | Invalid | Unsupported | Corrupt | IoError | BufferTooSmall

  /** A device of `count` sectors; the sectors that read without error are those in the map. */
  datatype Device = Device(count: nat, sectors: map<nat, seq<Byte>>)

  predicate ValidDevice(d: Device) {
    d.count > 0 && forall s :: s in d.sectors ==> |d.sectors[s]| == 512
  }

  /** Every sector of the device can be read. */
  ghost predicate Reliable(d: Device) {
    forall s: nat :: s < d.count ==> s in d.sectors
  }

  function ReadSector(d: Device, s: nat): (r: Option<seq<Byte>>)
    requires ValidDevice(d)
    ensures r.Some? ==> |r.value| == 512
  {
    if s < d.count && s in d.sectors then Some(d.sectors[s]) else None
  }

  /**
  A request to the device. Its precondition is what the reader owes it: no code below ever asks for a sector
  outside the device, however damaged the volume and whichever sectors fail.
  */
  method Fetch(d: Device, s: nat) returns (r: Option<seq<Byte>>)
    requires ValidDevice(d) && s < d.count
    ensures r == if s in d.sectors then Some(d.sectors[s]) else None
  {
    r := ReadSector(d, s);
  }

  function U16(b: seq<Byte>, at: nat): nat
    requires at + 2 <= |b|
  { (b[at] as nat) + 256 * (b[at + 1] as nat) }

  function U32(b: seq<Byte>, at: nat): (n: nat)
    requires at + 4 <= |b|
    ensures n < 0x1_0000_0000
  { (b[at] as nat) + 0x100 * (b[at + 1] as nat) + 0x1_0000 * (b[at + 2] as nat) + 0x100_0000 * (b[at + 3] as nat) }

  // ------------------------------------------------------------------------ geometry

  datatype Volume = Volume(
    sectorsPerCluster: nat, reserved: nat, fatCount: nat, fatSize: nat, total: nat,
    root: nat, activeFat: nat, firstData: nat, clusters: nat)

  predicate PowerOfTwo(n: nat) { n in {1, 2, 4, 8, 16, 32, 64, 128} }

  /** What mounting establishes. */
  predicate Mounted(v: Volume, d: Device) {
    && PowerOfTwo(v.sectorsPerCluster) && v.reserved > 0 && v.fatSize > 0 && 1 <= v.fatCount <= 2
    && v.activeFat < v.fatCount
    && v.reserved < 0x1_0000 && v.fatSize < 0x1_0000_0000 && v.total < 0x1_0000_0000
    && v.firstData == v.reserved + v.fatCount * v.fatSize && v.firstData < v.total <= d.count
    && v.clusters == (v.total - v.firstData) / v.sectorsPerCluster && 65525 <= v.clusters < 0x0FFF_FFF5
    && 2 <= v.root < v.clusters + 2 && v.clusters + 2 <= v.fatSize * 128
  }

  /** The volume a boot sector describes. */
  function VolumeOf(b: seq<Byte>): Volume
    requires |b| == 512 && b[13] != 0
  {
    var firstData := U16(b, 14) + (if b[16] == 2 then 2 * U32(b, 36) else U32(b, 36));
    Volume(b[13], U16(b, 14), b[16], U32(b, 36), U32(b, 32), U32(b, 44),
           if U16(b, 40) / 128 % 2 == 1 then U16(b, 40) % 16 else 0, firstData,
           if U32(b, 32) > firstData then Quotient(U32(b, 32) - firstData, b[13]) else 0)
  }

  function Quotient(x: nat, n: nat): nat
    requires n > 0
  {
    x / n
  }

  /** The fields that must have fixed values, and no overflow of the fixed root or the 16-bit sizes. */
  predicate BootFields(b: seq<Byte>)
    requires |b| == 512
  {
    && U16(b, 510) == 0xAA55 && U16(b, 11) == 512 && b[13] != 0 && U16(b, 17) == 0 && U16(b, 19) == 0
    && U16(b, 22) == 0 && U16(b, 42) == 0
  }

  /** Mounting succeeds exactly for a readable boot sector of a volume that fits the device and its own table. */
  method Mount(d: Device) returns (status: Status, v: Volume)
    requires ValidDevice(d)
    ensures status.Ok? <==>
      ReadSector(d, 0).Some? && BootFields(ReadSector(d, 0).value) && Mounted(VolumeOf(ReadSector(d, 0).value), d)
    ensures status.Ok? ==> v == VolumeOf(ReadSector(d, 0).value)
    ensures status.IoError? <==> ReadSector(d, 0).None?
  {
    v := Volume(0, 0, 0, 0, 0, 0, 0, 0, 0);
    var boot := Fetch(d, 0);
    if boot.None? { return IoError, v; }
    var b := boot.value;
    if U16(b, 510) != 0xAA55 { return Corrupt, v; }
    var spc, reserved, fatCount, total := b[13], U16(b, 14), b[16], U32(b, 32);
    var fatSize, flags, root := U32(b, 36), U16(b, 40), U32(b, 44);
    var activeFat := if flags / 128 % 2 == 1 then flags % 16 else 0;
    if U16(b, 11) != 512 || spc == 0 || spc > 128 || !PowerOfTwo(spc) || reserved == 0 ||
      (fatCount != 1 && fatCount != 2)
       || U16(b, 17) != 0 || U16(b, 19) != 0 || U16(b, 22) != 0 || total == 0 || fatSize == 0 || activeFat >= fatCount
       || U16(b, 42) != 0 || root < 2 {
      return Unsupported, v;
    }
    var firstData := reserved + fatCount * fatSize;
    if firstData >= total || total > d.count { return Corrupt, v; }
    var clusters := (total - firstData) / spc;
    if !(65525 <= clusters < 0x0FFF_FFF5) || root >= clusters + 2 { return Unsupported, v; }
    if fatSize * 512 / 4 < clusters + 2 { return Corrupt, v; }
    return Ok, Volume(spc, reserved, fatCount, fatSize, total, root, activeFat, firstData, clusters);
  }

  /** The first sector of a cluster, with the overflow checks of the source. */
  function ClusterToSector(v: Volume, cluster: nat): Option<nat> {
    if cluster < 2 || cluster >= v.clusters + 2 then None
    else
      var sector := v.firstData + (cluster - 2) * v.sectorsPerCluster;
      var end := sector + v.sectorsPerCluster;
      if end >= U64 || end > v.total then None else Some(sector)
  }

  /** A cluster number that names a data cluster. */
  predicate InRange(v: Volume, cluster: nat) { 2 <= cluster < v.clusters + 2 }

  /** Every data cluster has its own sectors, all inside the volume. */
  lemma ClusterPlace(v: Volume, d: Device, c: nat)
    requires Mounted(v, d) && InRange(v, c)
    ensures ClusterToSector(v, c) == Some(v.firstData + (c - 2) * v.sectorsPerCluster)
    ensures v.firstData <= ClusterToSector(v, c).value
    ensures ClusterToSector(v, c).value + v.sectorsPerCluster <= v.total <= d.count
  {
    var n, s := v.clusters, v.sectorsPerCluster;
    assert n * s <= v.total - v.firstData;
    Stride(c - 2, n, s);
  }

  lemma Monotone(a: nat, b: nat, s: nat)
    requires a <= b
    ensures a * s <= b * s
  {}

  lemma Stride(a: nat, c: nat, k: nat)
    requires a < c
    ensures a * k + k <= c * k
  {
    Monotone(a + 1, c, k);
    assert (a + 1) * k == a * k + k;
  }

  /** Two clusters share no sector. */
  lemma ClustersApart(v: Volume, d: Device, a: nat, c: nat)
    requires Mounted(v, d) && InRange(v, a) && InRange(v, c) && a < c
    ensures ClusterToSector(v, a).Some? && ClusterToSector(v, c).Some?
    ensures ClusterToSector(v, a).value + v.sectorsPerCluster <= ClusterToSector(v, c).value
  {
    ClusterPlace(v, d, a);
    ClusterPlace(v, d, c);
    Stride(a - 2, c - 2, v.sectorsPerCluster);
  }

  datatype Fetched = Fetched(status: Status, value: nat)

  function FatSector(v: Volume, cluster: nat): nat {
    v.reserved + v.fatSize * v.activeFat + cluster * 4 / 512
  }

  /** The allocation-table entry of a cluster. */
  function FatEntry(v: Volume, d: Device, cluster: nat): Fetched
    requires ValidDevice(d)
  {
    if cluster * 4 / 512 >= v.fatSize then Fetched(Corrupt, 0)
    else
      match ReadSector(d, FatSector(v, cluster))
      case None => Fetched(IoError, 0)
      case Some(b) => Fetched(Ok, U32(b, cluster * 4 % 512) % 0x1000_0000)
  }

  /** The entry of a data cluster lies inside the active copy of the table, before the data. */
  lemma FatPlace(v: Volume, d: Device, c: nat)
    requires Mounted(v, d) && c < v.clusters + 2
    ensures c * 4 / 512 < v.fatSize
    ensures v.reserved + v.fatSize * v.activeFat <= FatSector(v, c) < v.reserved + v.fatSize * (v.activeFat + 1)
    ensures v.reserved + v.fatSize * (v.activeFat + 1) <= v.firstData < d.count
  {
    assert c * 4 / 512 == c / 128;
    Monotone(v.activeFat + 1, v.fatCount, v.fatSize);
    assert v.fatSize * (v.activeFat + 1) == v.fatSize * v.activeFat + v.fatSize;
  }

  lemma FatReads(v: Volume, d: Device, c: nat)
    requires ValidDevice(d) && Mounted(v, d) && InRange(v, c) && Reliable(d)
    ensures FatEntry(v, d, c).status.Ok?
  {
    FatPlace(v, d, c);
  }

  // ------------------------------------------------------------------------ names

  const SLASH: Byte := 0x2F
  const DOT: Byte := 0x2E
  const SPACE: Byte := 0x20

  /** Without the spaces at the end. */
  function Trimmed(s: seq<Byte>): (r: seq<Byte>)
    ensures |r| <= |s|
  {
    if s == [] || s[|s| - 1] != SPACE then s else Trimmed(s[..|s| - 1])
  }

  /** The path of a directory record: a slash, the base name, and a dot and the extension if it has one. */
  function PathOf(record: seq<Byte>): seq<Byte>
    requires |record| == 32
  {
    var base, extension := Trimmed(record[..8]), Trimmed(record[8..11]);
    [SLASH] + base + if extension == [] then [] else [DOT] + extension
  }

  /** The length of the part of a padded field before its trailing spaces. */
  method FieldLength(record: seq<Byte>, from: nat, length: nat) returns (n: nat)
    requires from + length <= |record|
    ensures n <= length && record[from..from + n] == Trimmed(record[from..from + length])
  {
    n := length;
    while n != 0 && record[from + n - 1] == SPACE
      invariant n <= length && Trimmed(record[from..from + n]) == Trimmed(record[from..from + length])
    {
      assert record[from..from + n][..n - 1] == record[from..from + n - 1];
      n := n - 1;
    }
  }

  method ShortName(record: seq<Byte>) returns (name: seq<Byte>)
    requires |record| == 32
    ensures name == PathOf(record)
  {
    name := [SLASH];
    var baseLength := FieldLength(record, 0, 8);
    for index := 0 to baseLength
      invariant name == [SLASH] + record[0..index]
    {
      name := name + [record[index]];
    }
    ghost var stem := name;
    var extensionLength := FieldLength(record, 8, 3);
    assert record[0..8] == record[..8];
    if extensionLength != 0 {
      name := name + [DOT];
      for index := 0 to extensionLength
        invariant name == stem + [DOT] + record[8..8 + index]
      {
        name := name + [record[8 + index]];
      }
    }
  }

  function Upper(b: Byte): Byte { if 97 <= b <= 122 then b - 32 else b }

  /** Equal but for the case of ASCII letters. */
  ghost predicate SameName(a: seq<Byte>, b: seq<Byte>) {
    |a| == |b| && (a == [] || (Upper(a[|a| - 1]) == Upper(b[|b| - 1]) && SameName(a[..|a| - 1], b[..|b| - 1])))
  }

  lemma {:induction false} SameNamePrefix(a: seq<Byte>, b: seq<Byte>, n: nat)
    requires SameName(a, b) && n <= |a|
    ensures SameName(a[..n], b[..n])
  {
    if n == |a| { assert a[..n] == a && b[..n] == b; } else {
      SameNamePrefix(a[..|a| - 1], b[..|b| - 1], n);
      assert a[..|a| - 1][..n] == a[..n] && b[..|b| - 1][..n] == b[..n];
    }
  }

  method PathMatches(path: seq<Byte>, name: seq<Byte>) returns (r: bool)
    ensures r <==> SameName(path, name)
  {
    if |path| != |name| { return false; }
    for index := 0 to |name|
      invariant SameName(path[..index], name[..index])
    {
      assert path[..index + 1][..index] == path[..index] && name[..index + 1][..index] == name[..index];
      if Upper(path[index]) != Upper(name[index]) {
        if SameName(path, name) { SameNamePrefix(path, name, index + 1); }
        return false;
      }
    }
    assert path[..|path|] == path && name[..|name|] == name;
    return true;
  }

  predicate ValidPath(path: seq<Byte>) {
    && 2 <= |path| <= 48 && path[0] == SLASH
    && forall i :: 1 <= i < |path| ==> path[i] != SLASH && path[i] != 0x5C && 33 <= path[i] <= 126
  }

  // --------------------------------------------------------------- the root directory

  datatype Entry = Entry(path: seq<Byte>, firstCluster: nat, fileSize: nat, attributes: nat)

  function EntryOf(record: seq<Byte>): Entry
    requires |record| == 32
  {
    Entry(PathOf(record), U16(record, 20) * 0x1_0000 + U16(record, 26), U32(record, 28), record[11])
  }

  /** Neither deleted, nor part of a long name, nor a volume label. */
  predicate Listed(record: seq<Byte>)
    requires |record| == 32
  {
    record[0] != 0xE5 && record[0] != 0x05 && record[11] != 0x0F && record[11] / 8 % 2 == 0
  }

  /** What a piece of the directory lists, and how it ends: with more to come or for a reason. */
  datatype Listing = Listing(entries: seq<Entry>, end: Option<Status>)

  function Then(a: Listing, b: Listing): Listing {
    if a.end.None? then Listing(a.entries + b.entries, b.end) else a
  }

  function Record(sector: seq<Byte>, slot: nat): (r: seq<Byte>)
    requires |sector| == 512 && slot < 16
    ensures |r| == 32
  {
    sector[32 * slot..32 * slot + 32]
  }

  function Slots(sector: seq<Byte>, slot: nat): Listing
    requires |sector| == 512 && slot <= 16
    decreases 16 - slot, |sector|
  {
    if slot == 16 then Listing([], None)
    else
      var r := Record(sector, slot);
      if r[0] == 0 then Listing([], Some(NotFound))
      else if !Listed(r) then Slots(sector, slot + 1)
      else if |PathOf(r)| <= 1 then Listing([], Some(Corrupt))
      else Then(Listing([EntryOf(r)], None), Slots(sector, slot + 1))
  }

  function Sectors(v: Volume, d: Device, first: nat, offset: nat): Listing
    requires ValidDevice(d) && offset <= v.sectorsPerCluster
    decreases v.sectorsPerCluster - offset
  {
    if offset == v.sectorsPerCluster then Listing([], None)
    else
      match ReadSector(d, first + offset)
      case None => Listing([], Some(IoError))
      case Some(b) => Then(Slots(b, 0), Sectors(v, d, first, offset + 1))
  }

  /** How a chain goes on after a cluster: the next cluster, or why it stops. */
  function Next(v: Volume, d: Device, cluster: nat): Fetched
    requires ValidDevice(d)
  {
    var e := FatEntry(v, d, cluster);
    if !e.status.Ok? then e
    else if e.value >= EOC then Fetched(NotFound, 0)
    else if e.value < 2 || e.value == BAD then Fetched(Corrupt, 0)
    else e
  }

  /** Reads the table entry of a cluster. */
  method FetchEntry(v: Volume, d: Device, cluster: nat) returns (r: Fetched)
    requires ValidDevice(d) && Mounted(v, d) && InRange(v, cluster)
    ensures r == FatEntry(v, d, cluster)
  {
    r := Fetched(Corrupt, 0);
    if cluster * 4 / 512 < v.fatSize {
      FatPlace(v, d, cluster);
      var b := Fetch(d, FatSector(v, cluster));
      r := if b.None? then Fetched(IoError, 0) else Fetched(Ok, U32(b.value, cluster * 4 % 512) % 0x1000_0000);
    }
  }

  method FetchNext(v: Volume, d: Device, cluster: nat) returns (r: Fetched)
    requires ValidDevice(d) && Mounted(v, d) && InRange(v, cluster)
    ensures r == Next(v, d, cluster)
  {
    var e := FetchEntry(v, d, cluster);
    if !e.status.Ok? { return e; }
    if e.value >= EOC { return Fetched(NotFound, 0); }
    if e.value < 2 || e.value == BAD { return Fetched(Corrupt, 0); }
    return e;
  }

  /** The listing from a cluster on, when `visited` clusters were seen before. */
  function Directory(v: Volume, d: Device, cluster: nat, visited: nat): Listing
    requires ValidDevice(d) && visited <= MAX_DIRECTORY_CLUSTERS
    decreases MAX_DIRECTORY_CLUSTERS - visited, cluster
  {
    if visited == MAX_DIRECTORY_CLUSTERS then Listing([], Some(Corrupt))
    else
      match ClusterToSector(v, cluster)
      case None => Listing([], Some(Corrupt))
      case Some(first) =>
        var next := Next(v, d, cluster);
        Then(Sectors(v, d, first, 0),
             if next.status.Ok? then Directory(v, d, next.value, visited + 1) else Listing([], Some(next.status)))
  }

  function Root(v: Volume, d: Device): Listing
    requires ValidDevice(d)
  {
    Directory(v, d, v.root, 0)
  }

  // ---------------------------------------------------------------------- searching

  datatype Request = Index(i: nat) | Path(path: seq<Byte>)

  ghost predicate Wanted(q: Request, ordinal: nat, e: Entry) {
    if q.Index? then ordinal == q.i else SameName(q.path, e.path)
  }

  datatype Search = Hit(entry: Entry, ordinal: nat) | Stop(status: Status) | Continue(ordinal: nat)

  /** The first wanted entry of a listing whose entries are numbered from `ordinal`. */
  ghost function Find(l: Listing, q: Request, ordinal: nat): Search
    decreases |l.entries|
  {
    if l.entries == [] then (if l.end.Some? then Stop(l.end.value) else Continue(ordinal))
    else if Wanted(q, ordinal, l.entries[0]) then Hit(l.entries[0], ordinal)
    else Find(l.(entries := l.entries[1..]), q, ordinal + 1)
  }

  lemma {:induction false} FindThen(a: Listing, b: Listing, q: Request, ordinal: nat)
    requires a.end.None?
    ensures Find(Then(a, b), q, ordinal) ==
      match Find(a, q, ordinal) case Continue(k) => Find(b, q, k) case r => r
    decreases |a.entries|
  {
    if a.entries == [] {
      assert Then(a, b).entries == b.entries;
    } else {
      assert Then(a, b).entries[1..] == a.entries[1..] + b.entries;
      FindThen(a.(entries := a.entries[1..]), b, q, ordinal + 1);
    }
  }

  lemma {:induction false} FindFrom(l: Listing, q: Request, ordinal: nat)
    ensures Find(l, q, ordinal).Hit? ==> Find(l, q, ordinal).ordinal >= ordinal
    decreases |l.entries|
  {
    if l.entries != [] { FindFrom(l.(entries := l.entries[1..]), q, ordinal + 1); }
  }

  /** None of the first `k` entries is wanted. */
  ghost predicate NoneBefore(entries: seq<Entry>, q: Request, ordinal: nat, k: nat)
    requires k <= |entries|
  {
    k == 0 || (!Wanted(q, ordinal, entries[0]) && NoneBefore(entries[1..], q, ordinal + 1, k - 1))
  }

  /** Said entry by entry. */
  lemma {:induction false} NoneBeforeIs(entries: seq<Entry>, q: Request, ordinal: nat, k: nat)
    requires k <= |entries|
    ensures NoneBefore(entries, q, ordinal, k) <==> forall i :: 0 <= i < k ==> !Wanted(q, ordinal + i, entries[i])
  {
    if k > 0 {
      NoneBeforeIs(entries[1..], q, ordinal + 1, k - 1);
      assert forall i :: 1 <= i < k ==> entries[i] == entries[1..][i - 1];
      assert forall i :: 0 <= i < k - 1 ==> entries[1..][i] == entries[i + 1];
    }
  }

  /** A search hits entry `k` exactly when it is the first wanted one. */
  lemma {:induction false} FindIs(l: Listing, q: Request, ordinal: nat, k: nat)
    requires k < |l.entries|
    ensures Find(l, q, ordinal) == Hit(l.entries[k], ordinal + k) <==>
      Wanted(q, ordinal + k, l.entries[k]) && NoneBefore(l.entries, q, ordinal, k)
    decreases |l.entries|
  {
    FindFrom(l.(entries := l.entries[1..]), q, ordinal + 1);
    if k > 0 {
      FindIs(l.(entries := l.entries[1..]), q, ordinal + 1, k - 1);
    }
  }

  /** A wanted entry makes the search hit a wanted entry there or before. */
  lemma {:induction false} FindUpTo(l: Listing, q: Request, ordinal: nat, k: nat)
    requires k < |l.entries| && Wanted(q, ordinal + k, l.entries[k])
    ensures var h := Find(l, q, ordinal); h.Hit? && h.ordinal <= ordinal + k && Wanted(q, h.ordinal, h.entry)
    decreases |l.entries|
  {
    if k > 0 && !Wanted(q, ordinal, l.entries[0]) { FindUpTo(l.(entries := l.entries[1..]), q, ordinal + 1, k - 1); }
  }

  /**
  Enumeration and lookup agree: an entry listed at number `i` is found by its path in any letter case, at
  some number up to `i`, and at `i` itself when no earlier entry has the same name.
  */
  lemma LookupAgrees(l: Listing, i: nat, path: seq<Byte>)
    requires Find(l, Index(i), 0).Hit? && SameName(path, Find(l, Index(i), 0).entry.path)
    ensures var h := Find(l, Path(path), 0);
      && h.Hit? && h.ordinal <= i && SameName(path, h.entry.path)
      && ((forall j :: 0 <= j < i && j < |l.entries| ==> !SameName(path, l.entries[j].path)) ==>
        h == Find(l, Index(i), 0))
  {
    IndexHit(l, i);
    FindUpTo(l, Path(path), 0, i);
    FindIs(l, Path(path), 0, i);
    NoneBeforeIs(l.entries, Path(path), 0, i);
  }

  lemma {:induction false} IndexFrom(l: Listing, i: nat, ordinal: nat)
    requires Find(l, Index(i), ordinal).Hit?
    ensures ordinal <= i < ordinal + |l.entries| && Find(l, Index(i), ordinal) == Hit(l.entries[i - ordinal], i)
    decreases |l.entries|
  {
    if ordinal != i { IndexFrom(l.(entries := l.entries[1..]), i, ordinal + 1); }
  }

  lemma IndexHit(l: Listing, i: nat)
    requires Find(l, Index(i), 0).Hit?
    ensures i < |l.entries| && Find(l, Index(i), 0) == Hit(l.entries[i], i)
  {
    IndexFrom(l, i, 0);
  }

  // ------------------------------------------------------------------- scanning loops

  method Matched(q: Request, ordinal: nat, e: Entry) returns (r: bool)
    ensures r <==> Wanted(q, ordinal, e)
  {
    match q
    case Index(i) => r := ordinal == i;
    case Path(path) => r := PathMatches(path, e.path);
  }

  /** Searching one piece and then the rest. */
  lemma {:induction false} EndOf(a: Listing, b: Listing, q: Request, ordinal: nat)
    ensures Find(Then(a, b), q, ordinal) == match Find(a, q, ordinal) case Continue(k) => Find(b, q, k) case r => r
    decreases |a.entries|
  {
    if a.end.None? { FindThen(a, b, q, ordinal); } else { NoContinue(a, q, ordinal); }
  }

  lemma {:induction false} NoContinue(a: Listing, q: Request, ordinal: nat)
    requires a.end.Some?
    ensures !Find(a, q, ordinal).Continue?
    decreases |a.entries|
  {
    if a.entries != [] { NoContinue(a.(entries := a.entries[1..]), q, ordinal + 1); }
  }

  lemma SlotStep(sector: seq<Byte>, slot: nat, q: Request, ordinal: nat)
    requires |sector| == 512 && slot < 16
    requires var r := Record(sector, slot); r[0] != 0 && Listed(r) && |PathOf(r)| > 1
    ensures var e := EntryOf(Record(sector, slot));
      Find(Slots(sector, slot), q, ordinal) ==
        if Wanted(q, ordinal, e) then Hit(e, ordinal) else Find(Slots(sector, slot + 1), q, ordinal + 1)
  {}

  /** Searching a sector from a slot on. */
  ghost function InSlots(sector: seq<Byte>, slot: nat, q: Request, ordinal: nat): Search
    requires |sector| == 512 && slot <= 16
    decreases 16 - slot, |sector|
  {
    if slot == 16 then Continue(ordinal)
    else
      var r := Record(sector, slot);
      if r[0] == 0 then Stop(NotFound)
      else if !Listed(r) then InSlots(sector, slot + 1, q, ordinal)
      else if |PathOf(r)| <= 1 then Stop(Corrupt)
      else if Wanted(q, ordinal, EntryOf(r)) then Hit(EntryOf(r), ordinal)
      else InSlots(sector, slot + 1, q, ordinal + 1)
  }

  lemma {:induction false} InSlotsIs(sector: seq<Byte>, slot: nat, q: Request, ordinal: nat)
    requires |sector| == 512 && slot <= 16
    ensures InSlots(sector, slot, q, ordinal) == Find(Slots(sector, slot), q, ordinal)
    decreases 16 - slot, |sector|
  {
    if slot < 16 {
      var r := Record(sector, slot);
      if r[0] != 0 && Listed(r) && |PathOf(r)| > 1 {
        SlotStep(sector, slot, q, ordinal);
        InSlotsIs(sector, slot + 1, q, ordinal + 1);
      } else {
        InSlotsIs(sector, slot + 1, q, ordinal);
      }
    }
  }

  method ScanSlots(sector: seq<Byte>, q: Request, start: nat) returns (r: Search)
    requires |sector| == 512
    ensures r == InSlots(sector, 0, q, start)
  {
    var slot, ordinal := 0, start;
    while slot < 16
      invariant slot <= 16 && InSlots(sector, slot, q, ordinal) == InSlots(sector, 0, q, start)
    {
      var record := Record(sector, slot);
      if record[0] == 0 { return Stop(NotFound); }
      if Listed(record) {
        var name := ShortName(record);
        if |name| <= 1 { return Stop(Corrupt); }
        var e := EntryOf(record);
        var hit := Matched(q, ordinal, e);
        if hit { return Hit(e, ordinal); }
        ordinal := ordinal + 1;
      }
      slot := slot + 1;
    }
    return Continue(ordinal);
  }

  /** Searching a cluster from a sector on. */
  ghost function InSectors(v: Volume, d: Device, first: nat, offset: nat, q: Request, ordinal: nat): Search
    requires ValidDevice(d) && offset <= v.sectorsPerCluster
    decreases v.sectorsPerCluster - offset
  {
    if offset == v.sectorsPerCluster then Continue(ordinal)
    else
      match ReadSector(d, first + offset)
      case None => Stop(IoError)
      case Some(b) =>
        match InSlots(b, 0, q, ordinal)
        case Continue(k) => InSectors(v, d, first, offset + 1, q, k)
        case r => r
  }

  lemma {:induction false} InSectorsIs(v: Volume, d: Device, first: nat, offset: nat, q: Request, ordinal: nat)
    requires ValidDevice(d) && offset <= v.sectorsPerCluster
    ensures InSectors(v, d, first, offset, q, ordinal) == Find(Sectors(v, d, first, offset), q, ordinal)
    decreases v.sectorsPerCluster - offset
  {
    if offset < v.sectorsPerCluster && ReadSector(d, first + offset).Some? {
      var b := ReadSector(d, first + offset).value;
      InSlotsIs(b, 0, q, ordinal);
      EndOf(Slots(b, 0), Sectors(v, d, first, offset + 1), q, ordinal);
      var r := InSlots(b, 0, q, ordinal);
      if r.Continue? { InSectorsIs(v, d, first, offset + 1, q, r.ordinal); }
    }
  }

  method ScanSectors(v: Volume, d: Device, first: nat, q: Request, start: nat) returns (r: Search)
    requires ValidDevice(d) && first + v.sectorsPerCluster <= d.count
    ensures r == InSectors(v, d, first, 0, q, start)
  {
    var offset, ordinal := 0, start;
    while offset < v.sectorsPerCluster
      invariant offset <= v.sectorsPerCluster
      invariant InSectors(v, d, first, offset, q, ordinal) == InSectors(v, d, first, 0, q, start)
    {
      var b := Fetch(d, first + offset);
      if b.None? { return Stop(IoError); }
      r := ScanSlots(b.value, q, ordinal);
      if !r.Continue? { return; }
      ordinal, offset := r.ordinal, offset + 1;
    }
    return Continue(ordinal);
  }

  /** Searching the directory from a cluster on. */
  ghost function InDirectory(v: Volume, d: Device, cluster: nat, visited: nat, q: Request, ordinal: nat): (r: Search)
    requires ValidDevice(d) && visited <= MAX_DIRECTORY_CLUSTERS
    ensures !r.Continue?
    decreases MAX_DIRECTORY_CLUSTERS - visited, cluster
  {
    if visited == MAX_DIRECTORY_CLUSTERS then Stop(Corrupt)
    else
      match ClusterToSector(v, cluster)
      case None => Stop(Corrupt)
      case Some(first) =>
        match InSectors(v, d, first, 0, q, ordinal)
        case Continue(k) =>
          var next := Next(v, d, cluster);
          if next.status.Ok? then InDirectory(v, d, next.value, visited + 1, q, k) else Stop(next.status)
        case r => r
  }

  lemma {:induction false} InDirectoryIs(v: Volume, d: Device, cluster: nat, visited: nat, q: Request, ordinal: nat)
    requires ValidDevice(d) && visited <= MAX_DIRECTORY_CLUSTERS
    ensures InDirectory(v, d, cluster, visited, q, ordinal) == Find(Directory(v, d, cluster, visited), q, ordinal)
    decreases MAX_DIRECTORY_CLUSTERS - visited, cluster
  {
    if visited < MAX_DIRECTORY_CLUSTERS && ClusterToSector(v, cluster).Some? {
      var first, next := ClusterToSector(v, cluster).value, Next(v, d, cluster);
      InSectorsIs(v, d, first, 0, q, ordinal);
      EndOf(Sectors(v, d, first, 0), Onward(v, d, cluster, visited), q, ordinal);
      var r := InSectors(v, d, first, 0, q, ordinal);
      if r.Continue? && next.status.Ok? { InDirectoryIs(v, d, next.value, visited + 1, q, r.ordinal); }
    }
  }

  /** What follows the sectors of a cluster in the listing. */
  function Onward(v: Volume, d: Device, cluster: nat, visited: nat): Listing
    requires ValidDevice(d) && visited < MAX_DIRECTORY_CLUSTERS
  {
    var next := Next(v, d, cluster);
    if next.status.Ok? then Directory(v, d, next.value, visited + 1) else Listing([], Some(next.status))
  }

  /** scan_root: the first wanted entry of the directory, or the reason why the directory ends. */
  method ScanRoot(v: Volume, d: Device, q: Request) returns (r: Search)
    requires ValidDevice(d) && Mounted(v, d)
    ensures r == Find(Root(v, d), q, 0) && !r.Continue?
  {
    InDirectoryIs(v, d, v.root, 0, q, 0);
    r := ScanClusters(v, d, q);
  }

  method ScanClusters(v: Volume, d: Device, q: Request) returns (r: Search)
    requires ValidDevice(d) && Mounted(v, d)
    ensures r == InDirectory(v, d, v.root, 0, q, 0)
  {
    var cluster, visited, ordinal := v.root, 0, 0;
    while true
      invariant visited <= MAX_DIRECTORY_CLUSTERS
      invariant InDirectory(v, d, cluster, visited, q, ordinal) == InDirectory(v, d, v.root, 0, q, 0)
      decreases MAX_DIRECTORY_CLUSTERS - visited
    {
      if visited >= MAX_DIRECTORY_CLUSTERS { return Stop(Corrupt); }
      var first := ClusterToSector(v, cluster);
      if first.None? { return Stop(Corrupt); }
      ClusterPlace(v, d, cluster);
      r := ScanSectors(v, d, first.value, q, ordinal);
      if !r.Continue? { return; }
      ordinal := r.ordinal;
      var next := FetchNext(v, d, cluster);
      if !next.status.Ok? { return Stop(next.status); }
      cluster, visited := next.value, visited + 1;
    }
  }

  // ------------------------------------------------------------------- reliability

  /** A reliable device never makes a mounted volume report an I/O error. */
  lemma ClusterReads(v: Volume, d: Device, c: nat, offset: nat)
    requires ValidDevice(d) && Mounted(v, d) && Reliable(d) && InRange(v, c) && offset < v.sectorsPerCluster
    ensures ClusterToSector(v, c).Some? && ReadSector(d, ClusterToSector(v, c).value + offset).Some?
  {}

  lemma {:induction false} SlotsEnd(sector: seq<Byte>, slot: nat)
    requires |sector| == 512 && slot <= 16
    ensures Slots(sector, slot).end != Some(IoError)
    decreases 16 - slot, |sector|
  {
    if slot < 16 { SlotsEnd(sector, slot + 1); }
  }

  lemma {:induction false} SectorsEnd(v: Volume, d: Device, c: nat, offset: nat)
    requires ValidDevice(d) && Mounted(v, d) && Reliable(d) && InRange(v, c) && offset <= v.sectorsPerCluster
    ensures ClusterToSector(v, c).Some? && Sectors(v, d, ClusterToSector(v, c).value, offset).end != Some(IoError)
    decreases v.sectorsPerCluster - offset
  {
    ClusterPlace(v, d, c);
    if offset < v.sectorsPerCluster {
      ClusterReads(v, d, c, offset);
      SlotsEnd(ReadSector(d, ClusterToSector(v, c).value + offset).value, 0);
      SectorsEnd(v, d, c, offset + 1);
    }
  }

  /** Nor does a directory end in one, however its chain runs. */
  lemma {:induction false} DirectoryEnd(v: Volume, d: Device, cluster: nat, visited: nat)
    requires ValidDevice(d) && Mounted(v, d) && Reliable(d) && visited <= MAX_DIRECTORY_CLUSTERS
    ensures Directory(v, d, cluster, visited).end.Some? && Directory(v, d, cluster, visited).end != Some(IoError)
    decreases MAX_DIRECTORY_CLUSTERS - visited, cluster
  {
    if visited < MAX_DIRECTORY_CLUSTERS && ClusterToSector(v, cluster).Some? {
      SectorsEnd(v, d, cluster, 0);
      FatReads(v, d, cluster);
      var next := Next(v, d, cluster);
      if next.status.Ok? { DirectoryEnd(v, d, next.value, visited + 1); }
    }
  }

  // -------------------------------------------------------------------------- files

  /** The bytes of a sector; what an unreadable one holds is not said. */
  function SectorBytes(d: Device, s: nat): (r: seq<Byte>)
    requires ValidDevice(d)
    ensures |r| == 512
  {
    if s in d.sectors then d.sectors[s] else seq(512, _ => 0)
  }

  function RunBytes(d: Device, first: nat, n: nat): (r: seq<Byte>)
    requires ValidDevice(d)
    ensures |r| == 512 * n
  {
    if n == 0 then [] else RunBytes(d, first, n - 1) + SectorBytes(d, first + n - 1)
  }

  function ClusterBytes(v: Volume, d: Device, c: nat): (r: seq<Byte>)
    requires ValidDevice(d)
    ensures |r| == 512 * v.sectorsPerCluster
  {
    RunBytes(d, v.firstData + (if c >= 2 then c - 2 else 0) * v.sectorsPerCluster, v.sectorsPerCluster)
  }

  /** The bytes of a list of clusters, one after the other. */
  function ChainBytes(v: Volume, d: Device, cs: seq<nat>): seq<Byte>
    requires ValidDevice(d)
  {
    if cs == [] then [] else ChainBytes(v, d, cs[..|cs| - 1]) + ClusterBytes(v, d, cs[|cs| - 1])
  }

  lemma {:induction false} ChainLength(v: Volume, d: Device, cs: seq<nat>)
    requires ValidDevice(d)
    ensures |ChainBytes(v, d, cs)| == 512 * (|cs| * v.sectorsPerCluster)
  {
    if cs != [] {
      ChainLength(v, d, cs[..|cs| - 1]);
      assert |cs| * v.sectorsPerCluster == (|cs| - 1) * v.sectorsPerCluster + v.sectorsPerCluster;
    }
  }

  /** Each cluster is a data cluster, and the table links it to the one after it. */
  ghost predicate Linked(v: Volume, d: Device, cs: seq<nat>)
    requires ValidDevice(d)
  {
    cs == [] ||
    (InRange(v, cs[|cs| - 1]) && Linked(v, d, cs[..|cs| - 1]) &&
     (|cs| > 1 ==> Next(v, d, cs[|cs| - 2]) == Fetched(Ok, cs[|cs| - 1])))
  }

  /** A chain of distinct clusters from `first` that holds at least `size` bytes. */
  ghost predicate Holds(v: Volume, d: Device, cs: seq<nat>, first: nat, size: nat)
    requires ValidDevice(d)
  {
    cs != [] && cs[0] == first && Linked(v, d, cs) && Unique(cs) && size <= |ChainBytes(v, d, cs)|
  }

  lemma {:induction false} RunPrefix(d: Device, first: nat, m: nat, n: nat)
    requires ValidDevice(d) && m <= n
    ensures RunBytes(d, first, m) == RunBytes(d, first, n)[..512 * m]
  {
    if m < n {
      RunPrefix(d, first, m, n - 1);
      assert RunBytes(d, first, n)[..512 * (n - 1)] == RunBytes(d, first, n - 1);
    } else {
      assert RunBytes(d, first, n)[..512 * n] == RunBytes(d, first, n);
    }
  }

  predicate Unreadable(d: Device, first: nat, offset: nat)
    requires ValidDevice(d)
  {
    ReadSector(d, first + offset).None?
  }

  /** The sector loop of one cluster: as much of it as is still wanted. */
  method ReadCluster(v: Volume, d: Device, first: nat, wanted: nat) returns (ok: bool, bytes: seq<Byte>)
    requires ValidDevice(d) && wanted > 0 && first + v.sectorsPerCluster <= d.count
    ensures ok ==> bytes == RunBytes(d, first, v.sectorsPerCluster)[..Min(wanted, 512 * v.sectorsPerCluster)]
    ensures !ok ==> exists offset: nat :: offset < v.sectorsPerCluster && Unreadable(d, first, offset)
  {
    var offset, remaining := 0, wanted;
    bytes := [];
    while offset < v.sectorsPerCluster && remaining != 0
      invariant offset <= v.sectorsPerCluster && remaining == wanted - Min(wanted, 512 * offset)
      invariant bytes == RunBytes(d, first, offset)[..Min(wanted, 512 * offset)]
    {
      var b := Fetch(d, first + offset);
      if b.None? {
        assert Unreadable(d, first, offset);
        return false, bytes;
      }
      var copied := Min(remaining, 512);
      assert bytes == RunBytes(d, first, offset);
      assert b.value == SectorBytes(d, first + offset);
      assert RunBytes(d, first, offset + 1)[..512 * offset + copied] == RunBytes(d, first, offset) + b.value[..copied];
      bytes := bytes + b.value[..copied];
      remaining, offset := remaining - copied, offset + 1;
    }
    RunPrefix(d, first, offset, v.sectorsPerCluster);
    return true, bytes;
  }

  method Contains(seen: seq<nat>, cluster: nat) returns (r: bool)
    ensures r <==> cluster in seen
  {
    for previous := 0 to |seen|
      invariant cluster !in seen[..previous]
    {
      if seen[previous] == cluster { return true; }
    }
    return false;
  }

  /** A chain is determined by its first cluster. */
  lemma LinkedNext(v: Volume, d: Device, cs: seq<nat>, i: nat)
    requires ValidDevice(d) && Linked(v, d, cs) && i < |cs|
    ensures InRange(v, cs[i]) && (i + 1 < |cs| ==> Next(v, d, cs[i]) == Fetched(Ok, cs[i + 1]))
    decreases |cs|
  {}

  /** Where the file loop stands: the clusters seen are a chain of distinct clusters, and `cluster` is next. */
  ghost predicate Walked(v: Volume, d: Device, seen: seq<nat>, cluster: nat, first: nat)
    requires ValidDevice(d)
  {
    && Linked(v, d, seen) && Unique(seen)
    && if seen == [] then cluster == first else seen[0] == first && Next(v, d, seen[|seen| - 1]) == Fetched(Ok, cluster)
  }

  /** The walk follows the chain `goal`. */
  ghost predicate Follows(seen: seq<nat>, cluster: nat, goal: seq<nat>) {
    |seen| < |goal| && seen == goal[..|seen|] && cluster == goal[|seen|]
  }

  /** Following a good chain, the walk never meets a reason to stop. */
  lemma OnCourse(v: Volume, d: Device, seen: seq<nat>, cluster: nat, goal: seq<nat>)
    requires ValidDevice(d) && Linked(v, d, goal) && Unique(goal) && Follows(seen, cluster, goal)
    ensures InRange(v, cluster) && cluster !in seen
    ensures |seen| + 1 < |goal| ==>
      Next(v, d, cluster).status.Ok? && Follows(seen + [cluster], Next(v, d, cluster).value, goal)
  {}

  /** One cluster of the file loop. */
  method Visit(v: Volume, d: Device, seen: seq<nat>, cluster: nat, wanted: nat)
    returns (status: Status, bytes: seq<Byte>)
    requires ValidDevice(d) && Mounted(v, d) && wanted > 0
    ensures status.Ok? ==> InRange(v, cluster) && cluster !in seen
    ensures status.Ok? ==> bytes == ClusterBytes(v, d, cluster)[..Min(wanted, 512 * v.sectorsPerCluster)]
    ensures Reliable(d) ==> !status.IoError? && (InRange(v, cluster) && cluster !in seen ==> status.Ok?)
  {
    bytes := [];
    var repeated := Contains(seen, cluster);
    if repeated { return Corrupt, bytes; }
    var sector := ClusterToSector(v, cluster);
    if InRange(v, cluster) { ClusterPlace(v, d, cluster); }
    if sector.None? { return Corrupt, bytes; }
    var ok;
    ok, bytes := ReadCluster(v, d, sector.value, wanted);
    return if ok then Ok else IoError, bytes;
  }

  /** The state of the file loop; on a reliable device it is on the way along `goal`. */
  ghost predicate Standing(v: Volume, d: Device, seen: seq<nat>, cluster: nat, output: seq<Byte>, first: nat,
      size: nat, goal: seq<nat>)
    requires ValidDevice(d)
  {
    && Walked(v, d, seen, cluster, first) && output == ChainBytes(v, d, seen) && |output| < size
    && (Reliable(d) && Holds(v, d, goal, first, size) ==> Follows(seen, cluster, goal))
  }

  /** The cluster after `cluster`, for a file. */
  method FollowLink(v: Volume, d: Device, cluster: nat) returns (status: Status, next: nat)
    requires ValidDevice(d) && Mounted(v, d) && InRange(v, cluster)
    ensures status.Ok? <==> Next(v, d, cluster).status.Ok?
    ensures status.Ok? ==> next == Next(v, d, cluster).value
    ensures Reliable(d) ==> !status.IoError?
  {
    var e := FetchEntry(v, d, cluster);
    if Reliable(d) { FatReads(v, d, cluster); }
    if !e.status.Ok? { return e.status, 0; }
    if e.value >= EOC || e.value < 2 || e.value == BAD { return Corrupt, 0; }
    return Ok, e.value;
  }

  /** One round of the file loop; `whole` says that the file is complete. */
  method Advance(v: Volume, d: Device, seen: seq<nat>, cluster: nat, output: seq<Byte>, size: nat, ghost first: nat,
      ghost goal: seq<nat>)
    returns (status: Status, whole: bool, next: nat, more: seq<Byte>)
    requires ValidDevice(d) && Mounted(v, d) && size <= MAX_READ
    requires Standing(v, d, seen, cluster, output, first, size, goal)
    ensures status.Ok? && whole ==>
      Holds(v, d, seen + [cluster], first, size) && more == ChainBytes(v, d, seen + [cluster])[..size]
    ensures status.Ok? && !whole ==>
      Standing(v, d, seen + [cluster], next, more, first, size, goal) && |more| > |output|
    ensures Reliable(d) ==> !status.IoError? && (Holds(v, d, goal, first, size) ==> status.Ok?)
  {
    whole, next, more := false, 0, output;
    ghost var good := Reliable(d) && Holds(v, d, goal, first, size);
    FewClusters(v, d, seen, size);
    if |seen| >= MAX_FILE_CLUSTERS { status := Corrupt; return; }
    if good { OnCourse(v, d, seen, cluster, goal); }
    var bytes;
    status, bytes := Visit(v, d, seen, cluster, size - |output|);
    if !status.Ok? { return; }
    Extended(v, d, seen, cluster, first);
    more := output + bytes;
    if |more| == size { whole := true; return; }
    assert more == ChainBytes(v, d, seen + [cluster]);
    if good { NotLast(v, d, seen, cluster, goal, size); }
    status, next := FollowLink(v, d, cluster);
  }

  lemma NotLast(v: Volume, d: Device, seen: seq<nat>, cluster: nat, goal: seq<nat>, size: nat)
    requires ValidDevice(d) && Follows(seen, cluster, goal)
    requires |ChainBytes(v, d, seen + [cluster])| < size <= |ChainBytes(v, d, goal)|
    ensures |seen| + 1 < |goal|
  {}

  /**
  The file loop. What it returns is the first `size` bytes along the chain, which has distinct clusters, and
  for no file of at most 4096 bytes does the limit of eight clusters matter; on a reliable device every
  chain of distinct clusters that is long enough is read.
  */
  method ReadChain(v: Volume, d: Device, first: nat, size: nat, ghost goal: seq<nat>)
    returns (status: Status, output: seq<Byte>, ghost cs: seq<nat>)
    requires ValidDevice(d) && Mounted(v, d) && 0 < size <= MAX_READ
    ensures status.Ok? ==> Holds(v, d, cs, first, size) && output == ChainBytes(v, d, cs)[..size]
    ensures Reliable(d) ==> !status.IoError? && (Holds(v, d, goal, first, size) ==> status.Ok?)
  {
    var cluster, seen := first, [];
    output, cs := [], [];
    while true
      invariant Standing(v, d, seen, cluster, output, first, size, goal)
      decreases size - |output|
    {
      var whole, next;
      status, whole, next, output := Advance(v, d, seen, cluster, output, size, first, goal);
      seen := seen + [cluster];
      if !status.Ok? || whole { return status, output, seen; }
      cluster := next;
    }
  }

  lemma Extended(v: Volume, d: Device, seen: seq<nat>, cluster: nat, first: nat)
    requires ValidDevice(d) && Walked(v, d, seen, cluster, first) && InRange(v, cluster) && cluster !in seen
    ensures Linked(v, d, seen + [cluster]) && Unique(seen + [cluster]) && (seen + [cluster])[0] == first
    ensures ChainBytes(v, d, seen + [cluster]) == ChainBytes(v, d, seen) + ClusterBytes(v, d, cluster)
  {}

  lemma FewClusters(v: Volume, d: Device, cs: seq<nat>, size: nat)
    requires ValidDevice(d) && |ChainBytes(v, d, cs)| < size <= MAX_READ && v.sectorsPerCluster >= 1
    ensures |cs| < MAX_FILE_CLUSTERS
  {
    ChainLength(v, d, cs);
    Monotone(1, v.sectorsPerCluster, |cs|);
    assert |cs| * v.sectorsPerCluster == v.sectorsPerCluster * |cs|;
  }

  lemma {:induction false} FindStop(l: Listing, q: Request, ordinal: nat)
    requires Find(l, q, ordinal).Stop?
    ensures l.end == Some(Find(l, q, ordinal).status)
    decreases |l.entries|
  {
    if l.entries != [] { FindStop(l.(entries := l.entries[1..]), q, ordinal + 1); }
  }

  lemma {:induction false} SlotsNotOk(sector: seq<Byte>, slot: nat)
    requires |sector| == 512 && slot <= 16
    ensures Slots(sector, slot).end != Some(Ok)
    decreases 16 - slot, |sector|
  {
    if slot < 16 { SlotsNotOk(sector, slot + 1); }
  }

  lemma {:induction false} SectorsNotOk(v: Volume, d: Device, first: nat, offset: nat)
    requires ValidDevice(d) && offset <= v.sectorsPerCluster
    ensures Sectors(v, d, first, offset).end != Some(Ok)
    decreases v.sectorsPerCluster - offset
  {
    if offset < v.sectorsPerCluster && ReadSector(d, first + offset).Some? {
      SlotsNotOk(ReadSector(d, first + offset).value, 0);
      SectorsNotOk(v, d, first, offset + 1);
    }
  }

  lemma {:induction false} DirectoryNotOk(v: Volume, d: Device, cluster: nat, visited: nat)
    requires ValidDevice(d) && visited <= MAX_DIRECTORY_CLUSTERS
    ensures Directory(v, d, cluster, visited).end != Some(Ok)
    decreases MAX_DIRECTORY_CLUSTERS - visited, cluster
  {
    if visited < MAX_DIRECTORY_CLUSTERS && ClusterToSector(v, cluster).Some? {
      SectorsNotOk(v, d, ClusterToSector(v, cluster).value, 0);
      var next := Next(v, d, cluster);
      if next.status.Ok? { DirectoryNotOk(v, d, next.value, visited + 1); }
    }
  }

  /** What a lookup that ends without a hit reports. */
  lemma Missed(v: Volume, d: Device, q: Request)
    requires ValidDevice(d) && Find(Root(v, d), q, 0).Stop?
    ensures !Find(Root(v, d), q, 0).status.Ok?
    ensures Mounted(v, d) && Reliable(d) ==> !Find(Root(v, d), q, 0).status.IoError?
  {
    FindStop(Root(v, d), q, 0);
    DirectoryNotOk(v, d, v.root, 0);
    if Mounted(v, d) && Reliable(d) { DirectoryEnd(v, d, v.root, 0); }
  }

  // ------------------------------------------------------------- what stands on the disk

  lemma TwoBytes(x: nat)
    ensures LeBytes(x, 2) == [x % 256, x / 256 % 256]
  {
    assert LeBytes(x / 256, 1) == [x / 256 % 256] + LeBytes(x / 256 / 256, 0);
  }

  lemma FourBytes(x: nat)
    ensures LeBytes(x, 4) == LeBytes(x, 2) + LeBytes(x / 0x1_0000, 2)
  {
    assert x / 256 / 256 == x / 0x1_0000;
    assert LeBytes(x, 4) == [x % 256] + LeBytes(x / 256, 3);
    assert LeBytes(x / 256, 3) == [x / 256 % 256] + LeBytes(x / 0x1_0000, 2);
    TwoBytes(x);
  }

  lemma WordRead(b: seq<Byte>, at: nat, x: nat)
    requires at + 2 <= |b| && b[at..at + 2] == LeBytes(x, 2)
    ensures U16(b, at) == x % 0x1_0000
  {
    TwoBytes(x);
    assert b[at] == b[at..at + 2][0] && b[at + 1] == b[at..at + 2][1];
  }

  lemma LongRead(b: seq<Byte>, at: nat, x: nat)
    requires at + 4 <= |b| && x < 0x1_0000_0000 && b[at..at + 4] == LeBytes(x, 4)
    ensures U32(b, at) == x
  {
    FourBytes(x);
    assert b[at..at + 2] == b[at..at + 4][..2] && b[at + 2..at + 4] == b[at..at + 4][2..];
    WordRead(b, at, x);
    WordRead(b, at + 2, x / 0x1_0000);
    TwoWords(b, at);
  }

  lemma TwoWords(b: seq<Byte>, at: nat)
    requires at + 4 <= |b|
    ensures U32(b, at) == U16(b, at) + 0x1_0000 * U16(b, at + 2)
  {}

  /** The numbers of a boot sector. */
  datatype Boot = Boot(spc: Byte, reserved: nat, fatCount: Byte, total: nat, fatSize: nat, flags: nat, root: nat) {
    predicate Fits() {
      && spc > 0 && reserved < 0x1_0000 && 1 <= fatCount <= 2 && flags < 0x1_0000
      && total < 0x1_0000_0000 && fatSize < 0x1_0000_0000 && root < 0x1_0000_0000 && Data() < total
    }

    /** The tables follow the reserved sectors, and then come the clusters. */
    function Data(): nat { reserved + if fatCount == 1 then fatSize else fatSize + fatSize }

    /** The high bit of the flags' low byte says that only one table is in use, and the low four which. */
    function Active(): nat { if flags % 256 < 128 then 0 else flags % 16 }

    /** A boot sector with these numbers, whatever its other bytes are. */
    predicate Spelled(b: seq<Byte>) { |b| == 512 && Marked(b) && Numbered(b) }

    predicate Marked(b: seq<Byte>)
      requires |b| == 512
    {
      && b[11] == 0 && b[12] == 2 && b[13] == spc && b[16] == fatCount && b[17] == b[18] == b[19] == b[20] == 0
      && b[22] == b[23] == 0 && b[42] == b[43] == 0 && b[510] == 0x55 && b[511] == 0xAA
    }

    predicate Numbered(b: seq<Byte>)
      requires |b| == 512
    {
      && b[14..16] == LeBytes(reserved, 2) && b[32..36] == LeBytes(total, 4) && b[36..40] == LeBytes(fatSize, 4)
      && b[40..42] == LeBytes(flags, 2) && b[44..48] == LeBytes(root, 4)
    }
  }

  lemma BootNumbers(b: seq<Byte>, o: Boot)
    requires o.Fits() && |b| == 512 && o.Numbered(b)
    ensures U16(b, 14) == o.reserved && U32(b, 32) == o.total && U32(b, 36) == o.fatSize && U16(b, 40) == o.flags
    ensures U32(b, 44) == o.root
  {
    assert U16(b, 14) == o.reserved by { WordRead(b, 14, o.reserved); }
    assert U32(b, 32) == o.total by { LongRead(b, 32, o.total); }
    assert U32(b, 36) == o.fatSize by { LongRead(b, 36, o.fatSize); }
    assert U16(b, 40) == o.flags by { WordRead(b, 40, o.flags); }
    assert U32(b, 44) == o.root by { LongRead(b, 44, o.root); }
  }

  lemma BootMarks(b: seq<Byte>, o: Boot)
    requires |b| == 512 && o.Marked(b) && o.spc > 0
    ensures BootFields(b)
  {}

  lemma VolumeIs(b: seq<Byte>, o: Boot)
    requires |b| == 512 && o.Fits() && b[13] == o.spc && b[16] == o.fatCount
    requires U16(b, 14) == o.reserved && U32(b, 32) == o.total && U32(b, 36) == o.fatSize && U16(b, 40) == o.flags
    requires U32(b, 44) == o.root
    ensures VolumeOf(b) ==
      Volume(o.spc, o.reserved, o.fatCount, o.fatSize, o.total, o.root, o.Active(), o.Data(),
             Quotient(o.total - o.Data(), o.spc))
  {
    FlagBit(o.flags);
  }

  lemma FlagBit(flags: nat)
    ensures flags / 128 % 2 == 1 <==> flags % 256 >= 128
  {}

  /** Such a boot sector has the fixed fields and describes the volume with these sizes. */
  lemma BootRead(b: seq<Byte>, o: Boot)
    requires o.Fits() && o.Spelled(b)
    ensures BootFields(b)
    ensures VolumeOf(b) ==
      Volume(o.spc, o.reserved, o.fatCount, o.fatSize, o.total, o.root, o.Active(), o.Data(),
             Quotient(o.total - o.Data(), o.spc))
  {
    assert BootFields(b) by { BootMarks(b, o); }
    BootNumbers(b, o);
    VolumeIs(b, o);
  }

  /** A link in the active allocation table: 28 bits, little endian, under four bits that do not count. */
  ghost predicate TableLink(v: Volume, d: Device, cluster: nat, value: nat, top: nat)
    requires ValidDevice(d)
  {
    var s := v.reserved + v.activeFat * v.fatSize + cluster / 128;
    && value < 0x1000_0000 && top < 16 && ReadSector(d, s).Some?
    && ReadSector(d, s).value[4 * (cluster % 128)..4 * (cluster % 128) + 4] == LeBytes(value + 0x1000_0000 * top, 4)
  }

  lemma LinkRead(v: Volume, d: Device, cluster: nat, value: nat, top: nat)
    requires ValidDevice(d) && Mounted(v, d) && InRange(v, cluster) && TableLink(v, d, cluster, value, top)
    ensures Next(v, d, cluster) ==
      if value >= 0x0FFF_FFF8 then Fetched(NotFound, 0)
      else if value < 2 || value == 0x0FFF_FFF7 then Fetched(Corrupt, 0) else Fetched(Ok, value)
  {
    EntryRead(v, d, cluster, value, top);
  }

  lemma EntryRead(v: Volume, d: Device, cluster: nat, value: nat, top: nat)
    requires ValidDevice(d) && Mounted(v, d) && InRange(v, cluster) && TableLink(v, d, cluster, value, top)
    ensures FatEntry(v, d, cluster) == Fetched(Ok, value)
  {
    assert cluster * 4 / 512 < v.fatSize by { FatPlace(v, d, cluster); }
    TablePlace(cluster);
    assert FatSector(v, cluster) == v.reserved + v.activeFat * v.fatSize + cluster / 128;
    TableWord(ReadSector(d, FatSector(v, cluster)).value, 4 * (cluster % 128), value, top);
  }

  lemma TableWord(b: seq<Byte>, at: nat, value: nat, top: nat)
    requires at + 4 <= |b| && value < 0x1000_0000 && top < 16 && b[at..at + 4] == LeBytes(value + 0x1000_0000 * top, 4)
    ensures U32(b, at) % 0x1000_0000 == value
  {
    LongRead(b, at, value + 0x1000_0000 * top);
  }

  lemma TablePlace(cluster: nat)
    ensures cluster * 4 / 512 == cluster / 128 && cluster * 4 % 512 == 4 * (cluster % 128)
  {}

  /** What a directory record says of a file. */
  datatype File = File(base: seq<Byte>, extension: seq<Byte>, attributes: Byte, cluster: nat, size: nat) {
    /** The name has the 8.3 form without spaces at the end, and the numbers fit. */
    predicate Proper() {
      && |base| <= 8 && |extension| <= 3 && base + extension != [] && Trimmed(base) == base
      && Trimmed(extension) == extension && cluster < 0x1_0000_0000 && size < 0x1_0000_0000
    }

    function Path(): seq<Byte> {
      [SLASH] + base + if extension == [] then [] else [DOT] + extension
    }

    /** In use, not part of a long name and no volume label. */
    predicate Live() {
      Proper() && base != [] && base[0] !in {0, 0x05, 0xE5} && attributes != 0x0F && attributes / 8 % 2 == 0
    }

    predicate Directory() { attributes / 16 % 2 == 1 }

    /** The record of the file, whatever stands in its other bytes. */
    predicate Spelled(record: seq<Byte>) {
      && |record| == 32 && |base| <= 8 && |extension| <= 3
      && record[..8] == base + Spaces(8 - |base|) && record[8..11] == extension + Spaces(3 - |extension|)
      && record[11] == attributes && record[20..22] == LeBytes(cluster / 0x1_0000, 2)
      && record[26..28] == LeBytes(cluster % 0x1_0000, 2) && record[28..] == LeBytes(size, 4)
    }
  }

  function Spaces(n: nat): (r: seq<Byte>)
    ensures |r| == n
  {
    if n == 0 then [] else Spaces(n - 1) + [SPACE]
  }

  lemma {:induction false} TrimmedSpaces(s: seq<Byte>, n: nat)
    requires Trimmed(s) == s
    ensures Trimmed(s + Spaces(n)) == s
    decreases n
  {
    if n == 0 {
      assert s + Spaces(0) == s;
    } else {
      TrimmedSpaces(s, n - 1);
      assert (s + Spaces(n))[..|s| + n - 1] == s + Spaces(n - 1);
    }
  }

  /** A record written field by field is listed with exactly these values. */
  lemma RecordRead(record: seq<Byte>, f: File)
    requires f.Proper() && f.Spelled(record)
    ensures EntryOf(record) == Entry(f.Path(), f.cluster, f.size, f.attributes)
    ensures f.Live() ==> record[0] != 0 && Listed(record) && |PathOf(record)| > 1
  {
    PathRead(record, f);
    NumbersRead(record, f);
    if f.Live() { assert record[0] == record[..8][0] == f.base[0]; }
  }

  lemma PathRead(record: seq<Byte>, f: File)
    requires f.Proper() && f.Spelled(record)
    ensures PathOf(record) == f.Path()
  {
    TrimmedSpaces(f.base, 8 - |f.base|);
    TrimmedSpaces(f.extension, 3 - |f.extension|);
  }

  lemma NumbersRead(record: seq<Byte>, f: File)
    requires f.Proper() && f.Spelled(record)
    ensures U16(record, 20) * 0x1_0000 + U16(record, 26) == f.cluster && U32(record, 28) == f.size
  {
    WordRead(record, 20, f.cluster / 0x1_0000);
    WordRead(record, 26, f.cluster % 0x1_0000);
    LongRead(record, 28, f.size);
  }

  /** A record a search for a path goes past: deleted, of a long name, a volume label, or with another name. */
  ghost predicate Passable(record: seq<Byte>, path: seq<Byte>)
    requires |record| == 32
  {
    record[0] != 0 &&
    (record[0] in {0x05, 0xE5} || record[11] == 0x0F || record[11] / 8 % 2 == 1 ||
     (|PathOf(record)| > 1 && !SameName(path, PathOf(record))))
  }

  /** A search for a path goes past the slots of a sector before `slot`. */
  ghost predicate PassedTo(d: Device, s: nat, slot: nat, path: seq<Byte>)
    requires ValidDevice(d) && slot <= 16
  {
    ReadSector(d, s).Some? && forall j :: 0 <= j < slot ==> Passable(Record(ReadSector(d, s).value, j), path)
  }

  /** Where a record stands: in which cluster of the directory, which sector of it and which slot. */
  datatype Place = Place(cluster: nat, sector: nat, slot: nat)

  function SectorOf(v: Volume, cluster: nat, offset: nat): nat {
    v.firstData + (if cluster >= 2 then cluster - 2 else 0) * v.sectorsPerCluster + offset
  }

  /** A search goes past the sectors of a cluster before `n`. */
  ghost predicate PassedSectors(v: Volume, d: Device, cluster: nat, n: nat, path: seq<Byte>)
    requires ValidDevice(d)
  {
    forall o :: 0 <= o < n ==> PassedTo(d, SectorOf(v, cluster, o), 16, path)
  }

  /** The directory with the clusters `ds` has the record of a file at a place, and a search goes past all before. */
  ghost predicate Recorded(v: Volume, d: Device, ds: seq<nat>, at: Place, f: File, path: seq<Byte>)
    requires ValidDevice(d)
  {
    && 0 < |ds| <= MAX_DIRECTORY_CLUSTERS && ds[0] == v.root && Linked(v, d, ds)
    && at.cluster < |ds| && at.sector < v.sectorsPerCluster && at.slot < 16
    && (forall i :: 0 <= i < at.cluster ==> PassedSectors(v, d, ds[i], v.sectorsPerCluster, path))
    && PassedSectors(v, d, ds[at.cluster], at.sector, path)
    && var s := SectorOf(v, ds[at.cluster], at.sector);
       PassedTo(d, s, at.slot, path) && f.Spelled(Record(ReadSector(d, s).value, at.slot))
  }

  lemma {:induction false} PassSlots(b: seq<Byte>, from: nat, slot: nat, path: seq<Byte>, ordinal: nat) returns (k: nat)
    requires |b| == 512 && from <= slot <= 16
    requires forall j :: from <= j < slot ==> Passable(Record(b, j), path)
    ensures InSlots(b, from, Path(path), ordinal) == InSlots(b, slot, Path(path), k)
    decreases slot - from
  {
    k := ordinal;
    if from < slot {
      assert Passable(Record(b, from), path);
      k := PassSlots(b, from + 1, slot, path, if Listed(Record(b, from)) then ordinal + 1 else ordinal);
    }
  }

  lemma {:induction false} PassSectors(v: Volume, d: Device, cluster: nat, from: nat, n: nat, path: seq<Byte>,
      ordinal: nat)
    returns (k: nat)
    requires ValidDevice(d) && from <= n <= v.sectorsPerCluster
    requires PassedSectors(v, d, cluster, n, path)
    ensures
      var first := SectorOf(v, cluster, 0);
      InSectors(v, d, first, from, Path(path), ordinal) == InSectors(v, d, first, n, Path(path), k)
    decreases n - from
  {
    k := ordinal;
    if from < n {
      var s := SectorOf(v, cluster, from);
      assert PassedTo(d, s, 16, path);
      k := PassSlots(ReadSector(d, s).value, 0, 16, path, ordinal);
      k := PassSectors(v, d, cluster, from + 1, n, path, k);
    }
  }

  /** The search in one cluster of the directory, and then in the next. */
  lemma DirectoryStep(v: Volume, d: Device, c: nat, visited: nat, q: Request, ordinal: nat)
    requires ValidDevice(d) && Mounted(v, d) && InRange(v, c) && visited < MAX_DIRECTORY_CLUSTERS
    ensures InDirectory(v, d, c, visited, q, ordinal) ==
      match InSectors(v, d, SectorOf(v, c, 0), 0, q, ordinal)
      case Continue(k) =>
        var next := Next(v, d, c);
        if next.status.Ok? then InDirectory(v, d, next.value, visited + 1, q, k) else Stop(next.status)
      case r => r
  {
    ClusterPlace(v, d, c);
  }

  lemma {:induction false} PassClusters(v: Volume, d: Device, ds: seq<nat>, from: nat, n: nat, path: seq<Byte>,
      ordinal: nat)
    returns (k: nat)
    requires ValidDevice(d) && Mounted(v, d) && from <= n < |ds| <= MAX_DIRECTORY_CLUSTERS && Linked(v, d, ds)
    requires forall i :: 0 <= i < n ==> PassedSectors(v, d, ds[i], v.sectorsPerCluster, path)
    ensures InDirectory(v, d, ds[from], from, Path(path), ordinal) == InDirectory(v, d, ds[n], n, Path(path), k)
    decreases n - from
  {
    k := ordinal;
    if from < n {
      LinkedNext(v, d, ds, from);
      DirectoryStep(v, d, ds[from], from, Path(path), ordinal);
      k := PassSectors(v, d, ds[from], 0, v.sectorsPerCluster, path, ordinal);
      k := PassClusters(v, d, ds, from + 1, n, path, k);
    }
  }

  ghost predicate Hits(r: Search, f: File) {
    r.Hit? && r.entry == Entry(f.Path(), f.cluster, f.size, f.attributes)
  }

  lemma SlotHits(b: seq<Byte>, slot: nat, f: File, path: seq<Byte>, ordinal: nat)
    requires |b| == 512 && slot < 16 && f.Live() && f.Spelled(Record(b, slot)) && SameName(path, f.Path())
    requires forall j :: 0 <= j < slot ==> Passable(Record(b, j), path)
    ensures Hits(InSlots(b, 0, Path(path), ordinal), f)
  {
    var k := PassSlots(b, 0, slot, path, ordinal);
    RecordRead(Record(b, slot), f);
  }

  lemma SectorHits(v: Volume, d: Device, cluster: nat, at: Place, f: File, path: seq<Byte>, ordinal: nat)
    requires ValidDevice(d) && at.sector < v.sectorsPerCluster && at.slot < 16 && f.Live() && SameName(path, f.Path())
    requires PassedSectors(v, d, cluster, at.sector, path)
    requires var s := SectorOf(v, cluster, at.sector);
      PassedTo(d, s, at.slot, path) && f.Spelled(Record(ReadSector(d, s).value, at.slot))
    ensures Hits(InSectors(v, d, SectorOf(v, cluster, 0), 0, Path(path), ordinal), f)
  {
    var k := PassSectors(v, d, cluster, 0, at.sector, path, ordinal);
    SlotHits(ReadSector(d, SectorOf(v, cluster, at.sector)).value, at.slot, f, path, k);
  }

  /** The record of a file that a search for a path is to find. */
  ghost predicate Offered(v: Volume, d: Device, ds: seq<nat>, at: Place, f: File, path: seq<Byte>)
    requires ValidDevice(d)
  {
    Recorded(v, d, ds, at, f, path) && f.Live() && SameName(path, f.Path())
  }

  /** A search by path finds the file whose record stands in the root directory. */
  lemma RecordFound(v: Volume, d: Device, ds: seq<nat>, at: Place, f: File, path: seq<Byte>)
    requires ValidDevice(d) && Mounted(v, d) && Offered(v, d, ds, at, f, path)
    ensures Hits(Find(Root(v, d), Path(path), 0), f)
  {
    var k := PassClusters(v, d, ds, 0, at.cluster, path, 0);
    LinkedNext(v, d, ds, at.cluster);
    DirectoryStep(v, d, ds[at.cluster], at.cluster, Path(path), k);
    SectorHits(v, d, ds[at.cluster], at, f, path, k);
    InDirectoryIs(v, d, v.root, 0, Path(path), 0);
  }

  /** Names are equal when every character is, or both are the same letter in different case. */
  lemma {:induction false} SameNameIs(a: seq<Byte>, b: seq<Byte>)
    ensures SameName(a, b) <==>
      && |a| == |b|
      && forall i :: 0 <= i < |a| ==> a[i] == b[i] || (Letter(a[i]) && Letter(b[i]) && a[i] % 32 == b[i] % 32)
    decreases |a|
  {
    if |a| == |b| > 0 {
      SameNameIs(a[..|a| - 1], b[..|b| - 1]);
    }
  }

  /** The path of a name of printable characters without slashes is a valid one. */
  lemma PathValid(f: File)
    requires f.Live() && forall c :: c in f.base + f.extension ==> 33 <= c <= 126 && c != 0x2F && c != 0x5C
    ensures ValidPath(f.Path())
  {
    var path := f.Path();
    forall i | 1 <= i < |path| ensures path[i] != SLASH && path[i] != 0x5C && 33 <= path[i] <= 126 {
      if i <= |f.base| {
        assert path[i] == f.base[i - 1] && f.base[i - 1] in f.base + f.extension;
      } else if i > |f.base| + 1 {
        assert path[i] == f.extension[i - 2 - |f.base|] && path[i] in f.base + f.extension;
      }
    }
  }

  predicate Letter(c: Byte) { 65 <= c <= 90 || 97 <= c <= 122 }

  predicate IsDirectory(e: Entry) { e.attributes / 16 % 2 == 1 }

  /** The file of an entry can be read into `capacity` bytes, along the chain `goal` unless it is empty. */
  ghost predicate Readable(v: Volume, d: Device, e: Entry, capacity: nat, goal: seq<nat>)
    requires ValidDevice(d)
  {
    && !IsDirectory(e) && e.fileSize <= MAX_READ && e.fileSize <= capacity
    && (e.fileSize == 0 || Holds(v, d, goal, e.firstCluster, e.fileSize))
  }

  ghost predicate CanRead(v: Volume, d: Device, found: Search, capacity: nat, goal: seq<nat>)
    requires ValidDevice(d)
  {
    found.Hit? && Readable(v, d, found.entry, capacity, goal)
  }

  /** The file fits into the reader and the buffer, and the chain `goal` holds it. */
  ghost predicate Small(v: Volume, d: Device, f: File, capacity: nat, goal: seq<nat>)
    requires ValidDevice(d)
  {
    !f.Directory() && f.size <= 4096 && f.size <= capacity && (f.size == 0 || Holds(v, d, goal, f.cluster, f.size))
  }

  /** The output is the first `size` bytes along a chain from the first cluster of the file. */
  ghost predicate Delivers(v: Volume, d: Device, f: File, cs: seq<nat>, output: seq<Byte>)
    requires ValidDevice(d)
  {
    && |output| == f.size
    && (f.size > 0 ==> Holds(v, d, cs, f.cluster, f.size) && output == ChainBytes(v, d, cs)[..f.size])
  }

  /**
  read_file: success means that the path names an entry of the root directory and that the output is exactly
  the first fileSize bytes along its chain; on a reliable device it succeeds whenever that can be.
  */
  method ReadFile(v: Volume, d: Device, path: seq<Byte>, capacity: nat, ghost goal: seq<nat>, ghost ds: seq<nat>,
      ghost at: Place, ghost f: File)
    returns (status: Status, output: seq<Byte>, ghost cs: seq<nat>)
    requires ValidDevice(d) && Mounted(v, d)
    ensures status.Ok? ==>
      ValidPath(path) && Found(v, d, Find(Root(v, d), Path(path), 0), capacity, cs, output)
    ensures Reliable(d) ==> !status.IoError?
    ensures Reliable(d) && ValidPath(path) && CanRead(v, d, Find(Root(v, d), Path(path), 0), capacity, goal) ==>
      status.Ok?
    ensures Offered(v, d, ds, at, f, path) && status.Ok? ==> Delivers(v, d, f, cs, output)
    ensures Offered(v, d, ds, at, f, path) && ValidPath(path) && Reliable(d) && Small(v, d, f, capacity, goal) ==>
      status.Ok?
    ensures Offered(v, d, ds, at, f, path) && ValidPath(path) && f.Directory() ==> status.Unsupported?
    ensures Offered(v, d, ds, at, f, path) && ValidPath(path) && !f.Directory() && (f.size > 4096 || f.size > capacity)
      ==> status.BufferTooSmall?
  {
    status, output, cs := ReadPath(v, d, path, capacity, goal);
    if Offered(v, d, ds, at, f, path) {
      RecordFound(v, d, ds, at, f, path);
      HitReads(v, d, f, Find(Root(v, d), Path(path), 0), capacity, goal);
    }
  }

  /** A search hits an entry that can be read, and the output is what its chain holds. */
  ghost predicate Found(v: Volume, d: Device, found: Search, capacity: nat, cs: seq<nat>, output: seq<Byte>)
    requires ValidDevice(d)
  {
    && found.Hit? && Readable(v, d, found.entry, capacity, cs)
    && output == if found.entry.fileSize == 0 then [] else ChainBytes(v, d, cs)[..found.entry.fileSize]
  }

  /** Reading the entry of a file that was found. */
  lemma HitReads(v: Volume, d: Device, f: File, found: Search, capacity: nat, goal: seq<nat>)
    requires ValidDevice(d) && f.Live() && Hits(found, f)
    ensures Small(v, d, f, capacity, goal) ==> CanRead(v, d, found, capacity, goal)
  {}

  method ReadPath(v: Volume, d: Device, path: seq<Byte>, capacity: nat, ghost goal: seq<nat>)
    returns (status: Status, output: seq<Byte>, ghost cs: seq<nat>)
    requires ValidDevice(d) && Mounted(v, d)
    ensures status.Ok? ==>
      ValidPath(path) && Found(v, d, Find(Root(v, d), Path(path), 0), capacity, cs, output)
    ensures Reliable(d) ==> !status.IoError?
    ensures Reliable(d) && ValidPath(path) && CanRead(v, d, Find(Root(v, d), Path(path), 0), capacity, goal) ==>
      status.Ok?
    ensures ValidPath(path) ==> Reported(Find(Root(v, d), Path(path), 0), capacity, status)
  {
    output, cs := [], [];
    if !ValidPath(path) { return Invalid, output, cs; }
    var found := ScanRoot(v, d, Path(path));
    if found.Stop? {
      Missed(v, d, Path(path));
      return found.status, output, cs;
    }
    status, output, cs := ReadEntry(v, d, found.entry, capacity, goal);
  }

  /** A directory is not supported, and a file that is too large is refused. */
  ghost predicate Reported(found: Search, capacity: nat, status: Status) {
    found.Hit? ==>
      && (found.entry.attributes / 16 % 2 == 1 ==> status.Unsupported?)
      && (found.entry.attributes / 16 % 2 == 0 && (found.entry.fileSize > 4096 || found.entry.fileSize > capacity) ==>
          status.BufferTooSmall?)
  }

  method ReadEntry(v: Volume, d: Device, e: Entry, capacity: nat, ghost goal: seq<nat>)
    returns (status: Status, output: seq<Byte>, ghost cs: seq<nat>)
    requires ValidDevice(d) && Mounted(v, d)
    ensures status.Ok? ==>
      Readable(v, d, e, capacity, cs) && output == if e.fileSize == 0 then [] else ChainBytes(v, d, cs)[..e.fileSize]
    ensures Reliable(d) ==> !status.IoError? && (Readable(v, d, e, capacity, goal) ==> status.Ok?)
    ensures Reported(Hit(e, 0), capacity, status)
  {
    output, cs := [], [];
    if IsDirectory(e) { return Unsupported, output, cs; }
    if e.fileSize > MAX_READ || capacity < e.fileSize { return BufferTooSmall, output, cs; }
    if e.fileSize == 0 { return Ok, output, cs; }
    if e.firstCluster < 2 {
      if Holds(v, d, goal, e.firstCluster, e.fileSize) { LinkedNext(v, d, goal, 0); }
      return Invalid, output, cs;
    }
    status, output, cs := ReadChain(v, d, e.firstCluster, e.fileSize, goal);
  }

  /** entry: the entry with a given number and its path, if the path fits. */
  method EntryAt(v: Volume, d: Device, index: nat, capacity: nat) returns (status: Status, e: Entry)
    requires ValidDevice(d) && Mounted(v, d)
    ensures status.Ok? <==>
      Find(Root(v, d), Index(index), 0).Hit? && |Find(Root(v, d), Index(index), 0).entry.path| <= capacity
    ensures status.Ok? ==> e == Find(Root(v, d), Index(index), 0).entry
    ensures Reliable(d) ==> !status.IoError?
  {
    e := Entry([], 0, 0, 0);
    var found := ScanRoot(v, d, Index(index));
    if found.Stop? {
      Missed(v, d, Index(index));
      return found.status, e;
    }
    if capacity < |found.entry.path| { return BufferTooSmall, e; }
    return Ok, found.entry;
  }
}
