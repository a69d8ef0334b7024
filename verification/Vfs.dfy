/** fs/vfs.c: the reader of the images tools/mkfs.py writes, over a disk that is a fixed array of sectors. */
module Vfs {
  import opened Pmm
  import opened Mkfs

  const PER_SECTOR: nat := 8   // ENTRIES_PER_SECTOR

  type U32Value = n: nat | n < U32

  // ---------------------------------------------------------------- disk and strings

  /** arch_disk_read_sector */
  function SectorAt(disk: Bytes, n: nat): (s: Option<Bytes>)
    ensures s.Some? ==> |s.value| == SECTOR
  {
    if (n + 1) * SECTOR <= |disk| then Some(disk[n * SECTOR..(n + 1) * SECTOR]) else None
  }

  /** The C string a byte sequence starts with. */
  function CString(b: Bytes): (s: Bytes)
    ensures |s| <= |b| && (forall i :: 0 <= i < |s| ==> s[i] == b[i] && b[i] != 0) && (|s| < |b| ==> b[|s|] == 0)
  {
    if b == [] || b[0] == 0 then [] else [b[0]] + CString(b[1..])
  }

  function CharAt(b: Bytes, i: nat): Byte {
    if i < |b| then b[i] else 0
  }

  /** str_eq: equality of the two C strings. */
  method StrEq(a: Bytes, b: Bytes) returns (eq: bool)
    ensures eq <==> CString(a) == CString(b)
  {
    var i := 0;
    while CharAt(a, i) != 0 && CharAt(b, i) != 0
      invariant i <= |CString(a)| && i <= |CString(b)| && CString(a)[..i] == CString(b)[..i]
      decreases |a| - i
    {
      if a[i] != b[i] {
        assert CString(a)[i] != CString(b)[i];
        return false;
      }
      i := i + 1;
    }
    assert CString(a)[..|CString(a)|] == CString(a) && CString(b)[..|CString(b)|] == CString(b);
    return CharAt(a, i) == CharAt(b, i);
  }

  // ---------------------------------------------------------------- what vfs_read_file computes

  datatype Lookup = Found(start: nat, size: nat) | Absent | Unreadable

  /** Field access into dirent i of a directory sector. */
  function EntryName(sector: Bytes, i: nat): Bytes
    requires |sector| == SECTOR && i < PER_SECTOR
  {
    sector[i * ENTRY..]
  }

  function EntryStart(sector: Bytes, i: nat): nat
    requires |sector| == SECTOR && i < PER_SECTOR
  {
    ReadU32(sector[i * ENTRY + NAME_LEN..i * ENTRY + NAME_LEN + 4])
  }

  function EntrySize(sector: Bytes, i: nat): (n: nat)
    requires |sector| == SECTOR && i < PER_SECTOR
    ensures n < U32
  {
    ReadU32(sector[i * ENTRY + NAME_LEN + 4..i * ENTRY + NAME_LEN + 8])
  }

  /** The directory search, from entry i on. */
  function Search(disk: Bytes, dirStart: nat, count: nat, i: nat, name: Bytes): Lookup
    decreases count - i
  {
    if i >= count then Absent
    else
      match SectorAt(disk, (dirStart + i / PER_SECTOR) % U32)
      case None => Unreadable
      case Some(s) =>
        if CString(EntryName(s, i % PER_SECTOR)) == name then
          Found(EntryStart(s, i % PER_SECTOR), EntrySize(s, i % PER_SECTOR))
        else Search(disk, dirStart, count, i + 1, name)
  }

  /** sectors_needed, in 32 bits. */
  function SectorsNeeded(size: nat): nat {
    (size + SECTOR - 1) % U32 / SECTOR
  }

  /** The copy loop, from its s-th sector on; None if the disk fails. */
  function CopyFrom(disk: Bytes, start: nat, needed: nat, toCopy: nat, s: nat): (r: Option<Bytes>)
    ensures r.Some? ==> |r.value| <= if s * SECTOR < toCopy then toCopy - s * SECTOR else 0
    decreases needed - s
  {
    if s >= needed || s * SECTOR >= toCopy then Some([])
    else
      match SectorAt(disk, (start + s) % U32)
      case None => None
      case Some(sector) =>
        var left := toCopy - s * SECTOR;
        match CopyFrom(disk, start, needed, toCopy, s + 1)
        case None => None
        case Some(rest) => Some((if left < SECTOR then sector[..left] else sector) + rest)
  }

  function Min(a: nat, b: nat): nat { if a < b then a else b }

  /** The outcome of vfs_read_file: the size reported and the bytes copied; None when it returns false. */
  function ReadFile(disk: Bytes, dirStart: nat, count: nat, name: Bytes, bufSize: nat): Option<(nat, Bytes)> {
    match Search(disk, dirStart, count, 0, name)
    case Absent => None
    case Unreadable => None
    case Found(start, size) =>
      match CopyFrom(disk, start, SectorsNeeded(size), Min(size, bufSize), 0)
      case None => None
      case Some(data) => Some((size, data))
  }

  // ---------------------------------------------------------------- the code

  class FileSystem {
    const disk: Bytes
    var available: bool
    var fileCount: U32Value
    var dirStart: U32Value

    constructor (disk: Bytes)
      ensures this.disk == disk && !available
    {
      this.disk := disk;
      available := false;
      fileCount, dirStart := 0, 0;
    }

    method Init()
      modifies this
      ensures var s := SectorAt(disk, 0);
              if s.Some? && ReadU32(s.value[0..4]) == MAGIC
              then available && fileCount == ReadU32(s.value[4..8]) && dirStart == ReadU32(s.value[8..12])
              else available == old(available) && fileCount == old(fileCount) && dirStart == old(dirStart)
    {
      var s := SectorAt(disk, 0);
      if s.None? {
        return;
      }
      if ReadU32(s.value[0..4]) != MAGIC {
        return;
      }
      fileCount := ReadU32(s.value[4..8]);
      dirStart := ReadU32(s.value[8..12]);
      available := true;
    }

    /** The innermost loop: chunk bytes of a sector into buf at `at`. */
    method CopyBytes(sector: Bytes, chunk: nat, buf: array<Byte>, at: nat)
      requires chunk <= |sector| && at + chunk <= buf.Length
      modifies buf
      ensures buf[..at + chunk] == old(buf[..at]) + sector[..chunk]
      ensures forall k :: at + chunk <= k < buf.Length ==> buf[k] == old(buf[k])
    {
      var b := 0;
      while b < chunk
        invariant 0 <= b <= chunk
        invariant buf[..at + b] == old(buf[..at]) + sector[..b]
        invariant forall k :: at + b <= k < buf.Length ==> buf[k] == old(buf[k])
      {
        buf[at + b] := sector[b];
        b := b + 1;
      }
    }

    /** Copies sector by sector into buf; on failure part of buf may have been written. */
    method Copy(start: nat, size: nat, buf: array<Byte>) returns (ok: bool)
      requires buf.Length < U32 && size < U32
      modifies buf
      ensures match CopyFrom(disk, start, SectorsNeeded(size), Min(size, buf.Length), 0)
              case None => !ok
              case Some(data) => ok && |data| <= buf.Length && buf[..|data|] == data
                                 && forall k :: |data| <= k < buf.Length ==> buf[k] == old(buf[k])
    {
      hide CopyFrom, SectorAt, Min;
      var toCopy := if size < buf.Length then size else buf.Length;
      var needed := (size + SECTOR - 1) % U32 / SECTOR;
      var copied, s := 0, 0;
      ghost var all := CopyFrom(disk, start, needed, toCopy, 0);
      Smaller(size, buf.Length);
      while s < needed && copied < toCopy
        invariant copied == (if s * SECTOR < toCopy then s * SECTOR else toCopy) && s <= needed
        invariant all.Some? <==> CopyFrom(disk, start, needed, toCopy, s).Some?
        invariant all.Some? ==> all.value == buf[..copied] + CopyFrom(disk, start, needed, toCopy, s).value
        invariant forall k :: copied <= k < buf.Length ==> buf[k] == old(buf[k])
        decreases needed - s
      {
        CopyStep(disk, start, needed, toCopy, s);
        var sector := SectorAt(disk, (start + s) % U32);
        if sector.None? {
          return false;
        }
        var chunk := toCopy - copied;
        if chunk > SECTOR {
          chunk := SECTOR;
        }
        ghost var done := buf[..copied];
        CopyBytes(sector.value, chunk, buf, copied);
        ghost var rest := CopyFrom(disk, start, needed, toCopy, s + 1);
        if rest.Some? {
          JoinedEitherWay(done, sector.value[..chunk], rest.value);
        }
        NextChunk(s, toCopy);
        copied := copied + chunk;
        s := s + 1;
      }
      CopyEnd(disk, start, needed, toCopy, s);
      assert all.Some? ==> all.value == buf[..copied];
      return true;
    }

    /** vfs_read_file. `name` is the caller's string, without its NUL. */
    method Read(name: Bytes, buf: array<Byte>) returns (ok: bool, size: nat)
      requires buf.Length < U32 && 0 !in name
      modifies buf
      ensures ok <==> available && ReadFile(disk, dirStart, fileCount, name, buf.Length).Some?
      ensures ok ==> var (n, data) := ReadFile(disk, dirStart, fileCount, name, buf.Length).value;
                     size == n && |data| <= buf.Length && buf[..|data|] == data
                     && forall k :: |data| <= k < buf.Length ==> buf[k] == old(buf[k])
    {
      hide CopyFrom, EntryStart, EntrySize, EntryName, CString, Search, SectorAt;
      size := 0;
      if !available {
        return false, 0;
      }
      WholeCString(name);
      var remaining := fileCount;
      var dirSector: nat := dirStart;
      ghost var i := 0;
      while remaining > 0
        invariant i + remaining == fileCount && (remaining > 0 ==> i % PER_SECTOR == 0)
        invariant remaining > 0 ==> dirSector == (dirStart + i / PER_SECTOR) % U32
        invariant Search(disk, dirStart, fileCount, 0, name) == Search(disk, dirStart, fileCount, i, name)
        invariant buf[..] == old(buf[..])
        decreases remaining
      {
        var sector := SectorAt(disk, dirSector);
        SearchStep(disk, dirStart, fileCount, i, name);
        if sector.None? {
          return false, 0;
        }
        var n := if remaining < PER_SECTOR then remaining else PER_SECTOR;
        var j := 0;
        while j < n
          invariant 0 <= j <= n
          invariant Search(disk, dirStart, fileCount, 0, name) == Search(disk, dirStart, fileCount, i + j, name)
          invariant buf[..] == old(buf[..])
        {
          SameSector(i, j);
          SearchStep(disk, dirStart, fileCount, i + j, name);
          var eq := StrEq(EntryName(sector.value, j), name);
          if eq {
            size := EntrySize(sector.value, j);
            ok := Copy(EntryStart(sector.value, j), size, buf);
            return ok, size;
          }
          j := j + 1;
        }
        SameSector(i, 0);
        WrapNext(dirStart + i / PER_SECTOR);
        i := i + n;
        remaining := remaining - n;
        dirSector := (dirSector + 1) % U32;
      }
      SearchEnd(disk, dirStart, fileCount, i, name);
      return false, 0;
    }
  }

  lemma WrapNext(d: nat)
    ensures (d % U32 + 1) % U32 == (d + 1) % U32
  {
  }

  /** One entry of the search, for proofs that hide its definition. */
  lemma SearchStep(disk: Bytes, dirStart: nat, count: nat, i: nat, name: Bytes)
    requires i < count
    ensures match SectorAt(disk, (dirStart + i / PER_SECTOR) % U32)
            case None => Search(disk, dirStart, count, i, name) == Unreadable
            case Some(s) =>
              Search(disk, dirStart, count, i, name)
              == if CString(EntryName(s, i % PER_SECTOR)) == name
                 then Found(EntryStart(s, i % PER_SECTOR), EntrySize(s, i % PER_SECTOR))
                 else Search(disk, dirStart, count, i + 1, name)
  {
  }

  lemma SearchEnd(disk: Bytes, dirStart: nat, count: nat, i: nat, name: Bytes)
    requires i >= count
    ensures Search(disk, dirStart, count, i, name) == Absent
  {
  }

  lemma CopyStep(disk: Bytes, start: nat, needed: nat, toCopy: nat, s: nat)
    requires s < needed && s * SECTOR < toCopy
    ensures var all, rest := CopyFrom(disk, start, needed, toCopy, s), CopyFrom(disk, start, needed, toCopy, s + 1);
            match SectorAt(disk, (start + s) % U32)
            case None => all == None
            case Some(sector) =>
              (all.Some? <==> rest.Some?)
              && (all.Some? ==> all.value == sector[..Min(SECTOR, toCopy - s * SECTOR)] + rest.value)
  {
    var sector := SectorAt(disk, (start + s) % U32);
    assert sector.Some? ==> sector.value[..SECTOR] == sector.value;
  }

  lemma Smaller(a: nat, b: nat)
    ensures Min(a, b) == if a < b then a else b
  {
  }

  /** The chunk of sector s, and what is copied after it. */
  lemma NextChunk(s: nat, toCopy: nat)
    requires s * SECTOR < toCopy
    ensures Min(SECTOR, toCopy - s * SECTOR) == if toCopy - s * SECTOR > SECTOR then SECTOR else toCopy - s * SECTOR
    ensures s * SECTOR + Min(SECTOR, toCopy - s * SECTOR) == if (s + 1) * SECTOR < toCopy then (s + 1) * SECTOR else toCopy
  {
  }

  lemma JoinedEitherWay(a: Bytes, b: Bytes, c: Bytes)
    ensures a + (b + c) == (a + b) + c
  {
  }

  lemma CopyEnd(disk: Bytes, start: nat, needed: nat, toCopy: nat, s: nat)
    requires s >= needed || s * SECTOR >= toCopy
    ensures CopyFrom(disk, start, needed, toCopy, s) == Some([])
  {
  }

  lemma SameSector(i: nat, j: nat)
    requires i % PER_SECTOR == 0 && j < PER_SECTOR
    ensures (i + j) / PER_SECTOR == i / PER_SECTOR && (i + j) % PER_SECTOR == j && (i + 8) / PER_SECTOR == i / PER_SECTOR + 1
  {
  }

  lemma {:induction false} WholeCString(s: Bytes)
    requires 0 !in s
    ensures CString(s) == s
    decreases |s|
  {
    if s != [] {
      WholeCString(s[1..]);
    }
  }

  // ---------------------------------------------------------------- the round trip

  /** The first file stored under `name`. */
  function FirstMatch(files: seq<File>, name: Bytes, i: nat): (r: Option<nat>)
    requires i <= |files|
    ensures r.Some? ==> i <= r.value < |files|
    decreases |files| - i
  {
    if i == |files| then None
    else if StoredName(files[i].path) == name then Some(i)
    else FirstMatch(files, name, i + 1)
  }

  lemma {:induction false} FirstMatchIsFirst(files: seq<File>, name: Bytes, i: nat)
    requires i <= |files|
    ensures match FirstMatch(files, name, i)
            case None => forall k :: i <= k < |files| ==> StoredName(files[k].path) != name
            case Some(k) => StoredName(files[k].path) == name
                            && forall l :: i <= l < k ==> StoredName(files[l].path) != name
    decreases |files| - i
  {
    hide StoredName;
    if i < |files| {
      FirstMatchIsFirst(files, name, i + 1);
    }
  }

  lemma {:induction false} PaddedCString(name: Bytes, b: Bytes)
    requires 0 !in name && |name| < |b| && b[..|name|] == name && b[|name|] == 0
    ensures CString(b) == name
    decreases |name|
  {
    if name != [] {
      assert b[0] == name[0];
      assert b[1..][..|name| - 1] == name[1..];
      PaddedCString(name[1..], b[1..]);
    }
  }

  /** The fields of a directory entry read back what was packed into it. */
  lemma EntryFields(name: Bytes, start: nat, size: nat, sector: Bytes, i: nat)
    requires |name| < NAME_LEN && 0 !in name && start < U32 && size < U32 && |sector| == SECTOR && i < PER_SECTOR
    requires sector[i * ENTRY..(i + 1) * ENTRY] == DirEntry(name, start, size)
    ensures CString(EntryName(sector, i)) == name && EntryStart(sector, i) == start && EntrySize(sector, i) == size
  {
    var e := DirEntry(name, start, size);
    EntryBytes(name, start, size);
    assert forall k :: 0 <= k < ENTRY ==> sector[i * ENTRY + k] == e[k];
    U32RoundTrip(start);
    U32RoundTrip(size);
    assert sector[i * ENTRY + NAME_LEN..i * ENTRY + NAME_LEN + 4] == e[NAME_LEN..NAME_LEN + 4];
    assert sector[i * ENTRY + NAME_LEN + 4..i * ENTRY + NAME_LEN + 8] == e[NAME_LEN + 4..NAME_LEN + 8];
    var b := EntryName(sector, i);
    assert b[..|name|] == e[..|name|] && b[|name|] == e[|name|];
    PaddedCString(name, b);
  }

  lemma EntryBytes(name: Bytes, start: nat, size: nat)
    requires |name| < NAME_LEN && start < U32 && size < U32
    ensures var e := DirEntry(name, start, size);
            e[..|name|] == name && e[|name|] == 0
            && e[NAME_LEN..NAME_LEN + 4] == U32le(start) && e[NAME_LEN + 4..NAME_LEN + 8] == U32le(size)
  {
    var e := DirEntry(name, start, size);
    var packed := Pad(name, NAME_LEN) + U32le(start) + U32le(size);
    assert e[..NAME_LEN + 8] == packed;
    assert forall k :: 0 <= k < NAME_LEN + 8 ==> e[k] == packed[k];
  }

  /** Entry i of the image, as vfs_read_file finds it: sector 1 + i/8, slot i%8. */
  lemma EntryRead(files: seq<File>, i: nat)
    requires Packable(files) && i < |files|
    ensures var s := SectorAt(Image(files), (1 + i / PER_SECTOR) % U32);
            && s.Some? && CString(EntryName(s.value, i % PER_SECTOR)) == StoredName(files[i].path)
            && EntryStart(s.value, i % PER_SECTOR) == StartSector(files, i)
            && EntrySize(s.value, i % PER_SECTOR) == |files[i].data|
  {
    hide StoredName, DirEntry, Image, CString, EntryName, EntryStart, EntrySize, StartSector, DirSectors;
    var image := Image(files);
    var q, r := i / PER_SECTOR, i % PER_SECTOR;
    EntryInImage(files, i);
    DirectoryFits(files, i);
    var sector := image[(1 + q) * SECTOR..(2 + q) * SECTOR];
    SliceOfSlice(image, (1 + q) * SECTOR, SECTOR, r * ENTRY, (r + 1) * ENTRY);
    NoNulInName(files, i);
    EntryFields(StoredName(files[i].path), StartSector(files, i), |files[i].data|, sector, r);
  }

  /** The sector of entry i lies inside the image, and entry i inside that sector. */
  lemma DirectoryFits(files: seq<File>, i: nat)
    requires Packable(files) && i < |files|
    ensures var q, r := i / PER_SECTOR, i % PER_SECTOR;
            && (1 + q) % U32 == 1 + q && (2 + q) * SECTOR <= |Image(files)|
            && (1 + q) * SECTOR + r * ENTRY == SECTOR + i * ENTRY
            && (1 + q) * SECTOR + (r + 1) * ENTRY == SECTOR + (i + 1) * ENTRY
  {
    hide Image, StartSector;
    var q, r := i / PER_SECTOR, i % PER_SECTOR;
    StartsGrow(files, 0, |files|);
    StartFirst(files);
    assert i == 8 * q + r;
    assert |files| >= 8 * q + 1;
    SectorsOfEntries(|files|, q);
  }

  lemma SectorsOfEntries(count: nat, q: nat)
    requires count >= 8 * q + 1
    ensures DirSectors(count) >= q + 1
  {
  }

  lemma NoNulInName(files: seq<File>, i: nat)
    requires Packable(files) && i < |files|
    ensures 0 !in StoredName(files[i].path)
  {
  }

  lemma SliceOfSlice(b: Bytes, from: nat, n: nat, lo: nat, hi: nat)
    requires from + n <= |b| && lo <= hi <= n
    ensures b[from..from + n][lo..hi] == b[from + lo..from + hi]
  {
    var t := b[from..from + n];
    assert forall k {:trigger t[k]} :: lo <= k < hi ==> t[k] == b[from + k];
  }

  lemma {:induction false} SearchFinds(files: seq<File>, name: Bytes, i: nat)
    requires Packable(files) && i <= |files|
    ensures Search(Image(files), 1, |files|, i, name)
            == match FirstMatch(files, name, i)
               case None => Absent
               case Some(k) => Found(StartSector(files, k), |files[k].data|)
    decreases |files| - i
  {
    hide Image, CString, EntryName, EntryStart, EntrySize, SectorAt, StoredName, Search;
    if i < |files| {
      EntryRead(files, i);
      SearchStep(Image(files), 1, |files|, i, name);
      SearchFinds(files, name, i + 1);
    } else {
      SearchEnd(Image(files), 1, |files|, i, name);
    }
  }

  lemma SectorOfRun(disk: Bytes, start: nat, data: Bytes, s: nat, n: nat)
    requires start + s < U32 && (start + s + 1) * SECTOR <= |disk| && n <= SECTOR && s * SECTOR + n <= |data|
    requires start * SECTOR + |data| <= |disk| && disk[start * SECTOR..start * SECTOR + |data|] == data
    ensures var sector := SectorAt(disk, (start + s) % U32);
            sector.Some? && sector.value[..n] == data[s * SECTOR..s * SECTOR + n]
  {
    SliceOfSlice(disk, (start + s) * SECTOR, SECTOR, 0, n);
    SliceOfSlice(disk, start * SECTOR, |data|, s * SECTOR, s * SECTOR + n);
  }

  /** Copying from a run of sectors that starts with `data` yields a prefix of data. */
  lemma {:induction false} CopyFromRun(disk: Bytes, start: nat, data: Bytes, needed: nat, toCopy: nat, s: nat)
    requires start + needed < U32 && (start + needed) * SECTOR <= |disk| && toCopy <= |data|
    requires start * SECTOR + |data| <= |disk| && disk[start * SECTOR..start * SECTOR + |data|] == data
    ensures CopyFrom(disk, start, needed, toCopy, s)
            == Some(if s < needed && s * SECTOR < toCopy then data[s * SECTOR..Min(toCopy, needed * SECTOR)] else [])
    decreases needed - s
  {
    hide CopyFrom;
    if s < needed && s * SECTOR < toCopy {
      CopyStep(disk, start, needed, toCopy, s);
      CopyFromRun(disk, start, data, needed, toCopy, s + 1);
      var n := Min(SECTOR, toCopy - s * SECTOR);
      SectorOfRun(disk, start, data, s, n);
      assert data[s * SECTOR..s * SECTOR + n] + data[s * SECTOR + n..Min(toCopy, needed * SECTOR)]
          == data[s * SECTOR..Min(toCopy, needed * SECTOR)];
    } else {
      CopyEnd(disk, start, needed, toCopy, s);
    }
  }

  /** mkfs then vfs: reading a name from the image of any list of files gives the true size and the first
      bytes of the first file stored under that name, and fails for a name under which none is. */
  lemma RoundTrip(files: seq<File>, name: Bytes, bufSize: nat)
    requires Packable(files)
    ensures match FirstMatch(files, name, 0)
            case None => ReadFile(Image(files), 1, |files|, name, bufSize) == None
            case Some(k) =>
              var data := files[k].data;
              ReadFile(Image(files), 1, |files|, name, bufSize)
              == Some((|data|, data[..Min(Min(|data|, bufSize), SectorsNeeded(|data|) * SECTOR)]))
  {
    hide Image, CopyFrom, StartSector, Search, Sectors;
    SearchFinds(files, name, 0);
    match FirstMatch(files, name, 0)
    case None =>
    case Some(k) =>
      var data := files[k].data;
      DataInImage(files, k);
      NeededFits(files, k);
      CopyFromRun(Image(files), StartSector(files, k), data, SectorsNeeded(|data|), Min(|data|, bufSize), 0);
  }

  /** The same in terms of paths: given the last component of every file's path, reading a name that the first 31
      bytes of component k make up, and of no component before, gives the size of file k and its first bytes. */
  lemma PathRoundTrip(files: seq<File>, names: seq<Bytes>, k: nat, bufSize: nat)
    requires Packable(files) && |names| == |files| && forall i: nat :: i < |files| ==> EndsIn(files[i].path, names[i])
    requires k < |files| && forall i: nat :: i < k ==> Cut(names[i]) != Cut(names[k])
    requires |files[k].data| + 511 < 0x1_0000_0000
    ensures var r := ReadFile(Image(files), 1, |files|, Cut(names[k]), bufSize);
            var data := files[k].data;
            r.Some? && r.value.0 == |data| && r.value.1 == if bufSize < |data| then data[..bufSize] else data
  {
    hide Image, ReadFile, EndsIn, Cut, StoredName, SectorsNeeded;
    var name := Cut(names[k]);
    forall i: nat | i < |files|
      ensures StoredName(files[i].path) == Cut(names[i])
    {
      StoredNameIs(files[i].path, names[i]);
    }
    FirstMatchIsFirst(files, name, 0);
    RoundTrip(files, name, bufSize);
    CopiesAllIff(|files[k].data|, bufSize);
    assert files[k].data[..|files[k].data|] == files[k].data;
  }

  /** And a name that no component's first 31 bytes make up is not found. */
  lemma PathAbsent(files: seq<File>, names: seq<Bytes>, name: Bytes, bufSize: nat)
    requires Packable(files) && |names| == |files| && forall i: nat :: i < |files| ==> EndsIn(files[i].path, names[i])
    requires forall i: nat :: i < |files| ==> Cut(names[i]) != name
    ensures ReadFile(Image(files), 1, |files|, name, bufSize) == None
  {
    hide Image, ReadFile, EndsIn, Cut, StoredName;
    forall i: nat | i < |files|
      ensures StoredName(files[i].path) == Cut(names[i])
    {
      StoredNameIs(files[i].path, names[i]);
    }
    FirstMatchIsFirst(files, name, 0);
    RoundTrip(files, name, bufSize);
  }

  lemma NeededFits(files: seq<File>, k: nat)
    requires Packable(files) && k < |files|
    ensures SectorsNeeded(|files[k].data|) <= Sectors(|files[k].data|)
    ensures StartSector(files, k) + Sectors(|files[k].data|) < U32
  {
    hide StartSector, Sectors;
    StartsGrow(files, k + 1, |files|);
    StartStep(files, k);
    NeededAtMost(|files[k].data|);
  }

  lemma NeededAtMost(size: nat)
    ensures SectorsNeeded(size) <= Sectors(size)
  {
    assert (size + SECTOR - 1) % U32 <= size + SECTOR - 1;
  }

  /** All the bytes asked for arrive exactly when rounding the size up to sectors does not overflow 32 bits
      (or none were asked for): a file within 511 bytes of 4GB is reported but not copied. */
  lemma CopiesAllIff(size: nat, bufSize: nat)
    requires size < U32
    ensures Min(Min(size, bufSize), SectorsNeeded(size) * SECTOR) == Min(size, bufSize)
            <==> size + SECTOR - 1 < U32 || bufSize == 0
  {
  }

  /** So of a file that large vfs_read_file reports the size and copies nothing. */
  lemma LargestFilesUnread(files: seq<File>, k: nat, name: Bytes, bufSize: nat)
    requires Packable(files) && k < |files| && FirstMatch(files, name, 0) == Some(k)
    requires |files[k].data| + SECTOR - 1 >= U32
    ensures var r := ReadFile(Image(files), 1, |files|, name, bufSize);
            r.Some? && r.value.0 == |files[k].data| && r.value.1 == []
  {
    hide Image, ReadFile, FirstMatch, SectorsNeeded, Packable;
    RoundTrip(files, name, bufSize);
    SizeFits(files, k);
    NoSectors(|files[k].data|);
  }

  lemma SizeFits(files: seq<File>, k: nat)
    requires Packable(files) && k < |files|
    ensures |files[k].data| < U32
  {
  }

  lemma NoSectors(size: nat)
    requires size < U32 <= size + SECTOR - 1
    ensures SectorsNeeded(size) == 0
  {
  }

  /** vfs_init accepts every image mkfs writes, with the directory where mkfs put it. */
  lemma SuperblockRead(files: seq<File>)
    requires Packable(files)
    ensures var s := SectorAt(Image(files), 0);
            && s.Some? && ReadU32(s.value[0..4]) == MAGIC && ReadU32(s.value[4..8]) == |files|
            && ReadU32(s.value[8..12]) == 1
  {
    hide Image, Superblock, U32le, ReadU32;
    CountFits(files);
    var b := Superblock(|files|);
    var m := Image(files);
    SuperblockBytes(|files|);
    ImageStarts(files);
    U32RoundTrip(MAGIC);
    U32RoundTrip(|files|);
    U32RoundTrip(1);
    assert SectorAt(m, 0) == Some(b);
  }

  lemma SuperblockBytes(count: nat)
    requires count < U32 && 1 + DirSectors(count) < U32
    ensures var b := Superblock(count);
            b[0..4] == U32le(MAGIC) && b[4..8] == U32le(count) && b[8..12] == U32le(1)
  {
    var b := Superblock(count);
    var packed := U32le(MAGIC) + U32le(count) + U32le(1) + U32le(1 + DirSectors(count));
    assert b[..16] == packed;
    assert b[0..4] == packed[0..4] && b[4..8] == packed[4..8] && b[8..12] == packed[8..12];
  }

  /** On the disk: the magic, the number of files, the directory's sector and the first data sector. */
  predicate SuperblockAt(m: Bytes, count: nat) {
    && |m| >= 512 && m[0..4] == [0x53, 0x46, 0x4B, 0x4D] && ReadU32(m[4..8]) == count
    && ReadU32(m[8..12]) == 1 && ReadU32(m[12..16]) == 1 + (64 * count + 511) / 512
  }

  /** A directory entry of 64 bytes: the name with its NUL, the start sector at byte 32, the size at byte 36. */
  predicate EntryAt(m: Bytes, e: nat, name: Bytes, start: nat, size: nat) {
    && |name| < 32 && e + 64 <= |m| && m[e..e + |name|] == name && m[e + |name|] == 0
    && ReadU32(m[e + 32..e + 36]) == start && ReadU32(m[e + 36..e + 40]) == size
  }

  /** The disk format: the superblock, and directory entry i, 64 bytes each from byte 512 on. */
  lemma DiskFormat(files: seq<File>, i: nat)
    requires Packable(files) && i < |files|
    ensures SuperblockAt(Image(files), |files|)
    ensures EntryAt(Image(files), 512 + 64 * i, StoredName(files[i].path), StartSector(files, i), |files[i].data|)
  {
    hide Image, DirEntry, StartSector, Superblock, StoredName, EntryAt, U32le;
    CountFits(files);
    ImageStarts(files);
    SuperblockBytes(|files|);
    SuperblockLast(|files|);
    var b := Superblock(|files|);
    var m := Image(files);
    assert m[0..4] == b[0..4] && m[4..8] == b[4..8] && m[8..12] == b[8..12] && m[12..16] == b[12..16];
    U32RoundTrip(|files|);
    U32RoundTrip(1);
    U32RoundTrip(1 + DirSectors(|files|));
    EntryInImage(files, i);
    EntryFormat(m, 512 + 64 * i, StoredName(files[i].path), StartSector(files, i), |files[i].data|);
  }

  lemma SuperblockLast(count: nat)
    requires count < U32 && 1 + DirSectors(count) < U32
    ensures Superblock(count)[12..16] == U32le(1 + DirSectors(count)) && U32le(MAGIC) == [0x53, 0x46, 0x4B, 0x4D]
  {
    MagicBytes();
    hide U32le, DirSectors;
    var b := Superblock(count);
    var packed := U32le(MAGIC) + U32le(count) + U32le(1) + U32le(1 + DirSectors(count));
    assert b[..16] == packed;
    assert b[12..16] == packed[12..16];
  }

  lemma MagicBytes()
    ensures U32le(MAGIC) == [0x53, 0x46, 0x4B, 0x4D]
  {
  }

  lemma EntryFormat(m: Bytes, e: nat, name: Bytes, start: nat, size: nat)
    requires |name| < 32 && start < U32 && size < U32 && e + 64 <= |m| && m[e..e + 64] == DirEntry(name, start, size)
    ensures EntryAt(m, e, name, start, size)
  {
    hide DirEntry, ReadU32;
    var d := DirEntry(name, start, size);
    EntryBytes(name, start, size);
    U32RoundTrip(start);
    U32RoundTrip(size);
    assert forall k: nat :: k < 64 ==> m[e + k] == d[k];
    assert m[e..e + |name|] == d[..|name|] && m[e + 32..e + 36] == d[32..36] && m[e + 36..e + 40] == d[36..40];
  }

  lemma ImageStarts(files: seq<File>)
    requires Packable(files)
    ensures |files| < U32 && 1 + DirSectors(|files|) < U32 && |Image(files)| >= SECTOR
    ensures Image(files)[..SECTOR] == Superblock(|files|)
  {
    hide Superblock, Directory, Contents;
    CountFits(files);
    StartsGrow(files, 0, |files|);
    StartFirst(files);
  }
}
