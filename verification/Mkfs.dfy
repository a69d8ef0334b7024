/** tools/mkfs.py: the disk image it writes, and where everything lies in it. */
module Mkfs {

  type Byte = b: nat | b < 256
  type Bytes = seq<Byte>

  const SECTOR: nat := 512
  const ENTRY: nat := 64
  const NAME_LEN: nat := 32
  const MAGIC: nat := 0x4D4B4653
  const U32: nat := 0x1_0000_0000

  /** One input: its path as the user gave it, in ASCII bytes, and its contents. */
  datatype File = File(path: Bytes, data: Bytes)

  function Zeros(n: nat): (z: Bytes)
    ensures |z| == n && forall i :: 0 <= i < n ==> z[i] == 0
  {
    seq(n, i => 0)
  }

  // ---------------------------------------------------------------- numbers and names

  /** struct.pack("<I", n) */
  function U32le(n: nat): (b: Bytes)
    requires n < U32
    ensures |b| == 4
  {
    [n % 256, n / 256 % 256, n / 65536 % 256, n / 16777216]
  }

  function ReadU32(b: Bytes): (n: nat)
    requires |b| == 4
    ensures n < U32
  {
    (b[0] as int) + 256 * (b[1] as int) + 65536 * (b[2] as int) + 16777216 * (b[3] as int)
  }

  lemma U32RoundTrip(n: nat)
    requires n < U32
    ensures ReadU32(U32le(n)) == n
  {
    var a, b, c := n / 256, n / 65536, n / 16777216;
    assert b == a / 256 && c == b / 256;
  }

  /** path.split("/")[-1] */
  function Basename(path: Bytes): (name: Bytes)
    ensures |name| <= |path| && forall i :: 0 <= i < |name| ==> name[i] in path
  {
    if path == [] then [] else if path[|path| - 1] == '/' as int then []
    else Basename(path[..|path| - 1]) + [path[|path| - 1]]
  }

  /** The name as stored: the basename, cut to leave room for a NUL. */
  function StoredName(path: Bytes): (name: Bytes)
    ensures |name| < NAME_LEN
  {
    var b := Basename(path);
    if |b| < NAME_LEN then b else b[..NAME_LEN - 1]
  }

  /** The last component of a path is b: there is no '/' in it, and nothing or a '/' before it. */
  ghost predicate EndsIn(path: Bytes, b: Bytes) {
    47 !in b && (path == b || exists d: Bytes :: path == d + [47] + b)
  }

  /** A name of at most 31 bytes is stored whole, a longer one by its first 31. */
  function Cut(b: Bytes): Bytes {
    if |b| < 32 then b else b[..31]
  }

  lemma {:induction false} NoSlash(b: Bytes)
    requires 47 !in b
    ensures Basename(b) == b
    decreases |b|
  {
    if b != [] {
      NoSlash(b[..|b| - 1]);
    }
  }

  lemma {:induction false} AfterSlash(d: Bytes, b: Bytes)
    requires 47 !in b
    ensures Basename(d + [47] + b) == b
    decreases |b|
  {
    var path := d + [47] + b;
    if b == [] {
      assert path[|path| - 1] == 47;
    } else {
      var n := |b| - 1;
      AfterSlash(d, b[..n]);
      assert path[..|path| - 1] == d + [47] + b[..n] && path[|path| - 1] == b[n];
      assert b[n] in b;
    }
  }

  /** The stored name of a path is its last component, cut to 31 bytes, whatever the directories before it. */
  lemma StoredNameIs(path: Bytes, b: Bytes)
    requires EndsIn(path, b)
    ensures StoredName(path) == Cut(b)
  {
    hide Basename;
    if path == b {
      NoSlash(b);
    } else {
      var d: Bytes :| path == d + [47] + b;
      AfterSlash(d, b);
    }
  }

  // ---------------------------------------------------------------- layout

  function Sectors(size: nat): (n: nat)
    ensures size <= n * SECTOR < size + SECTOR
  {
    (size + SECTOR - 1) / SECTOR
  }

  function DirSectors(count: nat): nat {
    (count * ENTRY + SECTOR - 1) / SECTOR
  }

  /** The sector at which file i's contents start. */
  function StartSector(files: seq<File>, i: nat): nat
    requires i <= |files|
  {
    if i == 0 then 1 + DirSectors(|files|) else StartSector(files, i - 1) + Sectors(|files[i - 1].data|)
  }

  /** What struct.pack and the ASCII encoding demand of the inputs, and a C reader of the names. */
  ghost predicate Packable(files: seq<File>) {
    && |files| < U32 && StartSector(files, |files|) < U32
    && (forall i :: 0 <= i < |files| ==> |files[i].data| < U32)
    && forall i :: 0 <= i < |files| ==> forall c :: c in StoredName(files[i].path) ==> 0 < c < 128
  }

  function Pad(b: Bytes, n: nat): (r: Bytes)
    requires |b| <= n
    ensures |r| == n && r[..|b|] == b && forall i :: |b| <= i < n ==> r[i] == 0
  {
    b + Zeros(n - |b|)
  }

  function Superblock(count: nat): (b: Bytes)
    requires count < U32 && 1 + DirSectors(count) < U32
    ensures |b| == SECTOR
  {
    Pad(U32le(MAGIC) + U32le(count) + U32le(1) + U32le(1 + DirSectors(count)), SECTOR)
  }

  function DirEntry(name: Bytes, start: nat, size: nat): (b: Bytes)
    requires |name| < NAME_LEN && start < U32 && size < U32
    ensures |b| == ENTRY
  {
    Pad(Pad(name, NAME_LEN) + U32le(start) + U32le(size), ENTRY)
  }

  lemma {:induction false} StartsGrow(files: seq<File>, i: nat, j: nat)
    requires i <= j <= |files|
    ensures StartSector(files, i) <= StartSector(files, j)
    decreases j - i
  {
    if i < j { StartsGrow(files, i, j - 1); }
  }

  lemma CountFits(files: seq<File>)
    requires Packable(files)
    ensures |files| < U32 && 1 + DirSectors(|files|) < U32
  {
    StartsGrow(files, 0, |files|);
  }

  /** The directory table, entry by entry. */
  function Directory(files: seq<File>, n: nat): (b: Bytes)
    requires Packable(files) && n <= |files|
    ensures |b| == n * ENTRY
  {
    if n == 0 then []
    else
      StartsGrow(files, n - 1, |files|);
      Directory(files, n - 1)
        + DirEntry(StoredName(files[n - 1].path), StartSector(files, n - 1), |files[n - 1].data|)
  }

  /** File contents, each padded to whole sectors. */
  function Contents(files: seq<File>, n: nat): (b: Bytes)
    requires n <= |files|
    ensures |b| == (StartSector(files, n) - StartSector(files, 0)) * SECTOR
  {
    if n == 0 then []
    else
      StartsGrow(files, 0, n - 1);
      Contents(files, n - 1) + Pad(files[n - 1].data, Sectors(|files[n - 1].data|) * SECTOR)
  }

  function Image(files: seq<File>): (b: Bytes)
    requires Packable(files)
    ensures |b| == StartSector(files, |files|) * SECTOR
  {
    CountFits(files);
    StartsGrow(files, 0, |files|);
    Superblock(|files|) + Pad(Directory(files, |files|), DirSectors(|files|) * SECTOR) + Contents(files, |files|)
  }

  // ---------------------------------------------------------------- where things are

  lemma {:induction false} DirectoryAt(files: seq<File>, n: nat, i: nat)
    requires Packable(files) && i < n <= |files|
    ensures StartSector(files, i) < U32
    ensures Directory(files, n)[i * ENTRY..(i + 1) * ENTRY]
            == DirEntry(StoredName(files[i].path), StartSector(files, i), |files[i].data|)
    decreases n
  {
    hide DirEntry, StoredName, StartSector;
    StartsGrow(files, i, |files|);
    StartsGrow(files, n - 1, |files|);
    var d := Directory(files, n - 1);
    var e := DirEntry(StoredName(files[n - 1].path), StartSector(files, n - 1), |files[n - 1].data|);
    if i < n - 1 {
      DirectoryAt(files, n - 1, i);
      assert (i + 1) * ENTRY <= |d|;
      SliceLeft(d, e, i * ENTRY, (i + 1) * ENTRY);
    } else {
      SliceRight(d, e);
      assert |d| == i * ENTRY && |d| + |e| == (i + 1) * ENTRY;
    }
  }

  lemma SliceLeft(a: Bytes, b: Bytes, lo: nat, hi: nat)
    requires lo <= hi <= |a|
    ensures (a + b)[lo..hi] == a[lo..hi]
  {
  }

  lemma SliceTake(a: Bytes, from: nat, n: nat, k: nat)
    requires k <= n && from + n <= |a|
    ensures a[from..from + n][..k] == a[from..from + k]
  {
  }

  lemma SliceRight(a: Bytes, b: Bytes)
    ensures (a + b)[|a|..|a| + |b|] == b
  {
  }

  lemma {:induction false} ContentsAt(files: seq<File>, n: nat, i: nat)
    requires i < n <= |files|
    ensures StartSector(files, 0) <= StartSector(files, i) <= StartSector(files, i + 1) <= StartSector(files, n)
    ensures var from := (StartSector(files, i) - StartSector(files, 0)) * SECTOR;
            from + |files[i].data| <= |Contents(files, n)|
            && Contents(files, n)[from..from + |files[i].data|] == files[i].data
    decreases n
  {
    hide Pad, Sectors, StartSector;
    StartStep(files, i);
    StartStep(files, n - 1);
    StartsGrow(files, 0, i);
    StartsGrow(files, i, i + 1);
    StartsGrow(files, i + 1, n);
    var from := (StartSector(files, i) - StartSector(files, 0)) * SECTOR;
    var size := |files[i].data|;
    StartsGrow(files, 0, n - 1);
    var c := Contents(files, n - 1);
    var p := Pad(files[n - 1].data, Sectors(|files[n - 1].data|) * SECTOR);
    if i < n - 1 {
      ContentsAt(files, n - 1, i);
      SliceLeft(c, p, from, from + size);
    } else {
      SliceRight(c, p);
      SliceTake(c + p, from, |p|, size);
    }
  }

  /** Files occupy disjoint runs of whole sectors, all behind the directory. */
  lemma ExtentsDisjoint(files: seq<File>, i: nat, j: nat)
    requires i < j < |files|
    ensures 1 + DirSectors(|files|) <= StartSector(files, i)
    ensures StartSector(files, i) + Sectors(|files[i].data|) <= StartSector(files, j)
    ensures |files[i].data| <= Sectors(|files[i].data|) * SECTOR
  {
    StartsGrow(files, 0, i);
    StartsGrow(files, i + 1, j);
  }

  lemma SliceMiddle(a: Bytes, b: Bytes, c: Bytes, lo: nat, hi: nat)
    requires lo <= hi <= |b|
    ensures (a + b + c)[|a| + lo..|a| + hi] == b[lo..hi]
  {
  }

  lemma SliceEnd(a: Bytes, c: Bytes, lo: nat, hi: nat)
    requires lo <= hi <= |c|
    ensures (a + c)[|a| + lo..|a| + hi] == c[lo..hi]
  {
  }

  /** A slice of the second of three parts that is itself a slice of that part's prefix. */
  lemma SliceOfPart(a: Bytes, b: Bytes, c: Bytes, n: nat, lo: nat, hi: nat)
    requires lo <= hi <= n <= |b|
    ensures (a + b + c)[|a| + lo..|a| + hi] == b[..n][lo..hi]
  {
    SliceMiddle(a, b, c, lo, hi);
  }

  lemma EntryInImage(files: seq<File>, i: nat)
    requires Packable(files) && i < |files|
    ensures StartSector(files, i) < U32 && SECTOR + (i + 1) * ENTRY <= |Image(files)|
    ensures Image(files)[SECTOR + i * ENTRY..SECTOR + (i + 1) * ENTRY]
            == DirEntry(StoredName(files[i].path), StartSector(files, i), |files[i].data|)
  {
    hide DirEntry, Superblock, Contents, StoredName, Directory, StartSector, Pad, DirSectors, Packable;
    CountFits(files);
    StartsGrow(files, 0, |files|);
    var d := Directory(files, |files|);
    DirectoryAt(files, |files|, i);
    EntriesFit(i, |files|);
    SliceOfPart(Superblock(|files|), Pad(d, DirSectors(|files|) * SECTOR), Contents(files, |files|), |d|, i * ENTRY,
                (i + 1) * ENTRY);
  }

  lemma EntriesFit(i: nat, n: nat)
    requires i < n
    ensures (i + 1) * ENTRY <= n * ENTRY <= DirSectors(n) * SECTOR
  {
  }

  lemma SliceAt(head: Bytes, c: Bytes, lo: nat, at: nat, data: Bytes)
    requires at == |head| + lo && lo + |data| <= |c| && c[lo..lo + |data|] == data
    ensures (head + c)[at..at + |data|] == data
  {
    SliceEnd(head, c, lo, lo + |data|);
  }

  lemma DataInImage(files: seq<File>, i: nat)
    requires Packable(files) && i < |files|
    ensures var from := StartSector(files, i) * SECTOR;
            from + Sectors(|files[i].data|) * SECTOR <= |Image(files)|
            && Image(files)[from..from + |files[i].data|] == files[i].data
  {
    hide StartSector, Contents, Sectors, Image, Packable, ImageHead;
    ContentsAt(files, |files|, i);
    StartsGrow(files, i + 1, |files|);
    StartStep(files, i);
    SliceAt(ImageHead(files), Contents(files, |files|), (StartSector(files, i) - StartSector(files, 0)) * SECTOR,
            StartSector(files, i) * SECTOR, files[i].data);
  }

  lemma StartFirst(files: seq<File>)
    ensures StartSector(files, 0) == 1 + DirSectors(|files|)
  {
  }

  lemma StartStep(files: seq<File>, i: nat)
    requires i < |files|
    ensures StartSector(files, i + 1) == StartSector(files, i) + Sectors(|files[i].data|)
  {
  }

  /** Everything in front of the file contents. */
  ghost function ImageHead(files: seq<File>): (head: Bytes)
    requires Packable(files)
    ensures |head| == StartSector(files, 0) * SECTOR && Image(files) == head + Contents(files, |files|)
  {
    CountFits(files);
    StartsGrow(files, 0, |files|);
    Superblock(|files|) + Pad(Directory(files, |files|), DirSectors(|files|) * SECTOR)
  }

  // ---------------------------------------------------------------- main

  /** The layout loop of main: one directory record and one blob per input, and the running cursor. */
  method LayOut(files: seq<File>) returns (entries: seq<(Bytes, nat, nat)>, blobs: seq<Bytes>)
    ensures |entries| == |files| && |blobs| == |files|
    ensures forall k :: 0 <= k < |files| ==>
      blobs[k] == files[k].data && entries[k] == (StoredName(files[k].path), StartSector(files, k), |files[k].data|)
  {
    hide StoredName, Sectors, StartSector;
    var dirSectors := (|files| * ENTRY + SECTOR - 1) / SECTOR;
    StartFirst(files);
    entries, blobs := [], [];
    var cursor := 1 + dirSectors;
    var i := 0;
    while i < |files|
      invariant 0 <= i <= |files| && |entries| == i && |blobs| == i && cursor == StartSector(files, i)
      invariant forall k :: 0 <= k < i ==>
        blobs[k] == files[k].data && entries[k] == (StoredName(files[k].path), StartSector(files, k), |files[k].data|)
    {
      var data := files[i].data;
      StartStep(files, i);
      entries := entries + [(StoredName(files[i].path), cursor, |data|)];
      blobs := blobs + [data];
      cursor := cursor + Sectors(|data|);
      i := i + 1;
    }
  }

  /** main of mkfs.py, on inputs it does not raise an exception for. */
  method MakeImage(files: seq<File>) returns (image: Bytes)
    requires Packable(files)
    ensures image == Image(files)
  {
    hide Superblock, DirEntry, StoredName, Sectors, StartSector, Pad;
    CountFits(files);
    var entries, blobs := LayOut(files);
    var dirBytes: Bytes := [];
    var i := 0;
    while i < |entries|
      invariant 0 <= i <= |files| && dirBytes == Directory(files, i)
    {
      StartsGrow(files, i, |files|);
      var (name, start, size) := entries[i];
      dirBytes := dirBytes + DirEntry(name, start, size);
      i := i + 1;
    }
    var dirSectors := (|files| * ENTRY + SECTOR - 1) / SECTOR;
    image := Superblock(|files|) + Pad(dirBytes, dirSectors * SECTOR);
    ghost var head := image;
    i := 0;
    while i < |blobs|
      invariant 0 <= i <= |files| && image == head + Contents(files, i)
    {
      var data := blobs[i];
      PadIs(data);
      StartsGrow(files, 0, i);
      ghost var before := Contents(files, i);
      image := image + (data + Zeros((SECTOR - |data| % SECTOR) % SECTOR));
      assert image == head + (before + Pad(data, Sectors(|data|) * SECTOR));
      i := i + 1;
    }
  }

  /** (-len) % 512 zeros pad to the sector count. */
  lemma PadIs(data: Bytes)
    ensures data + Zeros((SECTOR - |data| % SECTOR) % SECTOR) == Pad(data, Sectors(|data|) * SECTOR)
  {
    var q, r := |data| / SECTOR, |data| % SECTOR;
    assert Sectors(|data|) == if r == 0 then q else q + 1;
  }
}
