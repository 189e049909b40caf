/** The block-backed file layer as it runs (src/kernel/vfs.c, src/kernel/tar.c): descriptors,
    sector-split reads and read-modify-write writes, and the one-sector cache. The disk is an
    array of sectors that never fails. */
module BlockVfs {
  import opened Common
  import opened Archive

  const MAX_FDS: nat := 16

  datatype Fd = Fd(startLba: nat, size: nat, offset: nat, inUse: bool)

  datatype Cache = Cache(lba: nat, data: Sector, valid: bool)

  /** The byte count vfs_write settles on, in 32-bit arithmetic. */
  function ClampWrite(offset: nat, count: nat, size: nat): int {
    if (offset + count) % WORD32 > size then size - offset else count
  }

  /** A write is cut off at the end of the file exactly when offset plus count does not wrap. */
  lemma ClampIsExact(offset: nat, count: nat, size: nat)
    requires offset <= size < WORD32 && count < WORD32
    ensures offset + count < WORD32 <==> ClampWrite(offset, count, size) <= size - offset
    ensures offset + count < WORD32 ==>
      ClampWrite(offset, count, size) == if count <= size - offset then count else size - offset
  {
  }

  /** It does happen: at offset 16 of a file of 20 bytes, 2^32 - 8 bytes are not cut to 4. */
  lemma ClampExample()
    ensures ClampWrite(16, WORD32 - 8, 20) == WORD32 - 8
    ensures ClampWrite(16, WORD32 - 20, 20) == 4
  {
  }

  class Vfs {
    const disk: array<Sector>
    const fds: array<Fd>
    const start: nat              // tar_start_lba
    var cache: Cache
    ghost var files: seq<File>    // what the archive on the disk holds
    ghost var owner: seq<nat>     // which file each descriptor in use stands for

    /** The cache never disagrees with the disk. */
    ghost predicate CacheOk()
      reads this`cache, disk
    {
      cache.valid ==> cache.lba < disk.Length && cache.data == disk[cache.lba]
    }

    ghost predicate FdOk(k: nat)
      requires k < fds.Length && |owner| == fds.Length
      reads this`files, this`owner, fds
    {
      fds[k].inUse ==>
        && owner[k] < |files|
        && fds[k].startLba == HeaderLba(start, files, owner[k]) + 1
        && fds[k].size == |files[owner[k]].data|
        && fds[k].offset <= fds[k].size
    }

    ghost predicate Valid()
      reads this, disk, fds
    {
      && fds.Length == MAX_FDS && |owner| == MAX_FDS
      && IsDisk(disk[..]) && start + SCAN_LIMIT < disk.Length
      && FilesAt(disk[..], start, files) && WithinLimit(start, start, files)
      && CacheOk()
      && (forall k {:trigger FdOk(k)} :: 0 <= k < MAX_FDS ==> FdOk(k))
    }

    /** vfs_init and tar_init_disk on a disk that holds an archive of these files. */
    constructor (disk: array<Sector>, start: nat, ghost files: seq<File>)
      requires IsDisk(disk[..]) && start + SCAN_LIMIT < disk.Length
      requires FilesAt(disk[..], start, files) && WithinLimit(start, start, files)
      ensures Valid() && this.disk == disk && this.start == start && this.files == files && fresh(fds)
      ensures forall k :: 0 <= k < MAX_FDS ==> !fds[k].inUse
    {
      this.disk := disk;
      this.start := start;
      this.files := files;
      fds := new Fd[MAX_FDS](_ => Fd(0, 0, 0, false));
      cache := Cache(0, [], false);
      owner := seq(MAX_FDS, _ => 0);
    }

    /** cached_read_sector. */
    method CachedRead(lba: nat) returns (buffer: Sector)
      requires CacheOk() && lba < disk.Length
      modifies this`cache
      ensures CacheOk() && buffer == disk[lba]
    {
      if cache.valid && cache.lba == lba {
        return cache.data;
      }
      cache := Cache(lba, disk[lba], true);
      buffer := cache.data;
    }

    /** cached_write_sector. */
    method CachedWrite(lba: nat, buffer: Sector)
      requires CacheOk() && lba < disk.Length
      modifies this`cache, disk
      ensures CacheOk() && disk[..] == old(disk[..])[lba := buffer]
    {
      disk[lba] := buffer;
      cache := Cache(lba, buffer, true);
    }

    /** octal_to_int. */
    method OctalToInt(oct: seq<int>) returns (res: nat)
      requires |oct| >= SIZE_DIGITS
      ensures res == OctalFrom(oct, 0, 0)
    {
      res := 0;
      var i := 0;
      while i < SIZE_DIGITS && 48 <= oct[i] <= 55
        invariant i <= SIZE_DIGITS
        invariant OctalFrom(oct, i, res) == OctalFrom(oct, 0, 0)
      {
        res := (res * 8 + (oct[i] - 48)) % WORD32;
        i := i + 1;
      }
    }

    // ------------------------------------------------------------ scanning the archive

    /** The size field of a header. */
    method HeaderSize(h: Sector) returns (size: nat)
      requires |h| == SECTOR
      ensures size == SizeOf(h)
    {
      size := OctalToInt(h[SIZE_FIELD..]);
    }

    /** tar_find_file. */
    method TarFindFile(name: seq<int>) returns (r: Option<(nat, nat)>)
      requires Valid() && 0 !in name
      modifies this`cache
      ensures Valid() && r == Find(disk[..], start, start, name)
    {
      ghost var d := disk[..];
      var lba := start;
      while true
        invariant CacheOk() && start <= lba <= start + SCAN_LIMIT
        invariant Find(d, start, lba, name) == Find(d, start, start, name)
        decreases start + SCAN_LIMIT - lba
      {
        var h := CachedRead(lba);
        assert h == d[lba] && Readable(d, lba);
        FindStep(d, start, lba, name);
        if h[0] == 0 {
          return None;
        }
        var size := HeaderSize(h);
        if CString(h) == name {
          return Some((lba + 1, size));
        }
        lba := lba + (1 + (size + 511) % WORD32 / SECTOR);
        if lba > start + SCAN_LIMIT {
          return None;
        }
      }
    }

    static lemma FindStep(d: seq<Sector>, start: nat, lba: nat, name: seq<int>)
      requires Readable(d, lba) && lba <= start + SCAN_LIMIT
      ensures var next := lba + EntrySectors(SizeOf(d[lba]));
        Find(d, start, lba, name) ==
        if d[lba][0] == 0 then None
        else if CString(d[lba]) == name then Some((lba + 1, SizeOf(d[lba])))
        else if next > start + SCAN_LIMIT then None
        else Find(d, start, next, name)
    {
    }

    static lemma NameStep(d: seq<Sector>, start: nat, lba: nat, index: nat)
      requires Readable(d, lba) && lba <= start + SCAN_LIMIT
      ensures var next := lba + EntrySectors(SizeOf(d[lba]));
        NameAt(d, start, lba, index) ==
        if d[lba][0] == 0 then None
        else if index == 0 then Some(CString(d[lba]))
        else if next > start + SCAN_LIMIT then None
        else NameAt(d, start, next, index - 1)
    {
    }

    /** tar_get_file_by_index: enumeration lists exactly the files of the archive. */
    method TarGetFileByIndex(index: nat) returns (r: Option<seq<int>>)
      requires Valid()
      modifies this`cache
      ensures Valid() && r == (if index < |files| then Some(files[index].name) else None)
    {
      EnumeratesAll(disk[..], start, start, files, index);
      r := ScanToIndex(index);
    }

    method ScanToIndex(index: nat) returns (r: Option<seq<int>>)
      requires CacheOk() && IsDisk(disk[..]) && start + SCAN_LIMIT < disk.Length
      modifies this`cache
      ensures CacheOk() && r == NameAt(disk[..], start, start, index)
    {
      ghost var d := disk[..];
      var lba, current := start, 0;
      while true
        invariant CacheOk() && start <= lba <= start + SCAN_LIMIT && current <= index
        invariant NameAt(d, start, lba, index - current) == NameAt(d, start, start, index)
        decreases start + SCAN_LIMIT - lba
      {
        var h := CachedRead(lba);
        assert h == d[lba] && Readable(d, lba);
        NameStep(d, start, lba, index - current);
        if h[0] == 0 {
          return None;
        }
        if current == index {
          return Some(CString(h));
        }
        var size := HeaderSize(h);
        lba := lba + (1 + (size + 511) % WORD32 / SECTOR);
        current := current + 1;
        if lba > start + SCAN_LIMIT {
          return None;
        }
      }
    }

    // ------------------------------------------------------------ descriptors

    /** vfs_open: the lowest free descriptor, at offset 0 of the first file of that name. */
    method Open(name: seq<int>) returns (fd: int)
      requires Valid() && 0 !in name
      modifies this`cache, this`owner, fds
      ensures Valid() && files == old(files)
      ensures -1 <= fd < MAX_FDS
      ensures fd < 0 <==> FirstNamed(files, name) == |files| || forall k :: 0 <= k < MAX_FDS ==> old(fds[k].inUse)
      ensures fd >= 0 ==> !old(fds[fd].inUse) && fds[fd].inUse && fds[fd].offset == 0
                          && owner[fd] == FirstNamed(files, name) < |files|
      ensures forall k :: 0 <= k < fd ==> old(fds[k].inUse)
      ensures forall k :: 0 <= k < MAX_FDS && k != fd ==> fds[k] == old(fds[k]) && owner[k] == old(owner[k])
    {
      hide FilesAt, Find, FirstNamed, IsDisk;
      FindsFirst(disk[..], start, start, files, name);
      var found := TarFindFile(name);
      if found.None? {
        return -1;
      }
      var i := 0;
      while i < MAX_FDS
        invariant i <= MAX_FDS && Valid() && files == old(files) && owner == old(owner)
        invariant forall k :: 0 <= k < MAX_FDS ==> fds[k] == old(fds[k])
        invariant forall k :: 0 <= k < i ==> fds[k].inUse
      {
        if !fds[i].inUse {
          ghost var was := fds[..];
          fds[i] := Fd(found.value.0, found.value.1, 0, true);
          owner := owner[i := FirstNamed(files, name)];
          forall k | 0 <= k < MAX_FDS ensures FdOk(k) {
            assert k != i ==> was[k] == fds[k];
            assert old(FdOk(k));
          }
          return i;
        }
        i := i + 1;
      }
      fd := -1;
    }

    /** vfs_close. */
    method Close(fd: int)
      requires Valid()
      modifies fds
      ensures Valid()
      ensures 0 <= fd < MAX_FDS ==> !fds[fd].inUse
      ensures forall k :: 0 <= k < MAX_FDS && k != fd ==> fds[k] == old(fds[k])
    {
      if 0 <= fd < MAX_FDS {
        fds[fd] := fds[fd].(inUse := false);
      }
      forall k | 0 <= k < MAX_FDS ensures FdOk(k) {
        assert old(FdOk(k));
      }
    }

    /** vfs_size. */
    method Size(fd: int) returns (size: nat)
      requires Valid()
      ensures 0 <= fd < MAX_FDS && fds[fd].inUse ==> owner[fd] < |files|
      ensures size == if 0 <= fd < MAX_FDS && fds[fd].inUse then |files[owner[fd]].data| else 0
    {
      if 0 <= fd < MAX_FDS {
        assert FdOk(fd);
      }
      size := if 0 <= fd < MAX_FDS && fds[fd].inUse then fds[fd].size else 0;
    }

    /** vfs_read: the next bytes of the file, at most `count`, and -1 for a bad descriptor. */
    method Read(fd: int, count: nat) returns (n: int, buffer: seq<int>)
      requires Valid()
      modifies fds
      ensures Valid()
      ensures !(0 <= fd < MAX_FDS && old(fds[fd].inUse)) ==> n == -1 && buffer == [] && fds[..] == old(fds[..])
      ensures 0 <= fd < MAX_FDS && old(fds[fd].inUse) ==>
        owner[fd] < |files| && old(fds[fd].offset) <= |files[owner[fd]].data|
      ensures 0 <= fd < MAX_FDS && old(fds[fd].inUse) ==>
        var off, data := old(fds[fd].offset), files[owner[fd]].data;
        && n == (if count <= |data| - off then count else |data| - off)
        && buffer == data[off..off + n]
        && fds[fd] == old(fds[fd]).(offset := off + n)
      ensures forall k :: 0 <= k < MAX_FDS && k != fd ==> fds[k] == old(fds[k])
    {
      if !(0 <= fd < MAX_FDS) || !fds[fd].inUse {
        return -1, [];
      }
      assert FdOk(fd);
      var f := fds[fd];
      FileEntry(disk[..], start, files, owner[fd]);
      if f.offset >= f.size {
        return 0, [];
      }
      var want := if count > f.size - f.offset then f.size - f.offset else count;
      Advance(fd, want);
      buffer := ReadSectors(f.startLba, f.offset, want, files[owner[fd]].data);
      n := want;
    }

    method Advance(fd: nat, n: nat)
      requires Valid() && fd < MAX_FDS && fds[fd].inUse && fds[fd].offset + n <= fds[fd].size
      modifies fds
      ensures Valid() && fds[..] == old(fds[..])[fd := old(fds[fd]).(offset := old(fds[fd].offset) + n)]
    {
      fds[fd] := fds[fd].(offset := fds[fd].offset + n);
      forall k | 0 <= k < MAX_FDS ensures FdOk(k) {
        assert old(FdOk(k));
      }
    }

    /** The sector loop of vfs_read. */
    method ReadSectors(lba0: nat, offset0: nat, count: nat, ghost data: seq<int>) returns (buffer: seq<int>)
      requires IsDisk(disk[..]) && lba0 + Blocks(|data|) <= disk.Length
      requires BytesAt(disk[..], lba0, |data|) == data && offset0 + count <= |data|
      ensures buffer == data[offset0..offset0 + count]
    {
      buffer := [];
      var offset := offset0;
      while |buffer| < count
        invariant |buffer| <= count && offset == offset0 + |buffer|
        invariant buffer == data[offset0..offset]
      {
        var piece := NextPiece(lba0, offset, count - |buffer|, data);
        JoinSlices(data, offset0, offset, offset + |piece|);
        buffer := buffer + piece;
        offset := offset + |piece|;
      }
    }

    /** What one turn of the loop copies: the rest of a sector, a whole one, or the last bytes. */
    method NextPiece(lba0: nat, offset: nat, left: nat, ghost data: seq<int>) returns (piece: seq<int>)
      requires IsDisk(disk[..]) && lba0 + Blocks(|data|) <= disk.Length && BytesAt(disk[..], lba0, |data|) == data
      requires left > 0 && offset + left <= |data|
      ensures 0 < |piece| <= left && piece == data[offset..offset + |piece|]
    {
      var lba, within := lba0 + offset / SECTOR, offset % SECTOR;
      var toCopy := SECTOR - within;
      if toCopy > left {
        toCopy := left;
      }
      assert lba < disk.Length && |disk[..][lba]| == SECTOR;
      SectorPiece(disk[..], lba0, data, offset, toCopy);
      var sector := disk[lba];
      piece := if within == 0 && toCopy == SECTOR then sector else sector[within..within + toCopy];
    }

    static lemma JoinSlices(s: seq<int>, a: nat, b: nat, c: nat)
      requires a <= b <= c <= |s|
      ensures s[a..c] == s[a..b] + s[b..c]
    {
    }

    static lemma SectorPiece(d: seq<Sector>, lba0: nat, data: seq<int>, offset: nat, n: nat)
      requires IsDisk(d) && lba0 + Blocks(|data|) <= |d| && BytesAt(d, lba0, |data|) == data
      requires offset + n <= |data| && offset % SECTOR + n <= SECTOR && n > 0
      ensures d[lba0 + offset / SECTOR][offset % SECTOR..offset % SECTOR + n] == data[offset..offset + n]
    {
      SectorOf(offset, n - 1);
      var s := d[lba0 + offset / SECTOR];
      var piece := s[offset % SECTOR..offset % SECTOR + n];
      forall i | 0 <= i < n ensures piece[i] == data[offset + i] {
        SectorOf(offset, i);
        assert BytesAt(d, lba0, |data|)[offset + i] == data[offset + i];
      }
    }

    static lemma SectorOf(offset: nat, i: nat)
      requires offset % SECTOR + i < SECTOR
      ensures (offset + i) / SECTOR == offset / SECTOR && (offset + i) % SECTOR == offset % SECTOR + i
    {
      var q, r := offset / SECTOR, offset % SECTOR;
      assert offset + i == q * SECTOR + (r + i);
    }

    /** How task_exec_file loads a program: open, ask the size, read it all, close. It gets
        exactly the bytes of the first file of that name. */
    method LoadFile(name: seq<int>) returns (r: Option<seq<int>>)
      requires Valid() && 0 !in name
      modifies this`cache, this`owner, fds
      ensures Valid() && files == old(files)
      ensures r.Some? ==> FirstNamed(files, name) < |files| && r.value == files[FirstNamed(files, name)].data
      ensures r.None? <==> FirstNamed(files, name) == |files| || forall k :: 0 <= k < MAX_FDS ==> old(fds[k].inUse)
    {
      var fd := Open(name);
      if fd < 0 {
        return None;
      }
      var size := Size(fd);
      var _, buffer := Read(fd, size);
      Close(fd);
      r := Some(buffer);
    }

    /** vfs_write of a request that does not wrap: exactly the clamped range of this one file
        changes, and -1 comes back for a bad descriptor. */
    method Write(fd: int, buffer: seq<int>) returns (n: int)
      requires Valid() && |buffer| < WORD32
      requires 0 <= fd < MAX_FDS && fds[fd].inUse ==> fds[fd].offset + |buffer| < WORD32
      modifies this`cache, this`files, disk, fds
      ensures Valid()
      ensures !(0 <= fd < MAX_FDS && old(fds[fd].inUse)) ==>
        n == -1 && files == old(files) && disk[..] == old(disk[..]) && fds[..] == old(fds[..])
      ensures 0 <= fd < MAX_FDS && old(fds[fd].inUse) ==>
        owner[fd] < |old(files)| && old(fds[fd].offset) <= |old(files)[owner[fd]].data|
      ensures 0 <= fd < MAX_FDS && old(fds[fd].inUse) ==>
        var off, i := old(fds[fd].offset), owner[fd];
        var data := old(files)[i].data;
        && n == (if |buffer| <= |data| - off then |buffer| else |data| - off)
        && files == old(files)[i := Patch(old(files)[i], off, buffer[..n])]
        && fds[fd] == old(fds[fd]).(offset := off + n)
      ensures forall k :: 0 <= k < MAX_FDS && k != fd ==> fds[k] == old(fds[k])
    {
      if !(0 <= fd < MAX_FDS) || !fds[fd].inUse {
        return -1;
      }
      assert FdOk(fd);
      var f := fds[fd];
      FileEntry(disk[..], start, files, owner[fd]);
      ClampIsExact(f.offset, |buffer|, f.size);
      n := if (f.offset + |buffer|) % WORD32 > f.size then f.size - f.offset else |buffer|;
      Store(fd, buffer, n);
    }

    /** The bytes that fit, written to the file behind a descriptor. */
    method Store(fd: nat, buffer: seq<int>, count: nat)
      requires Valid() && fd < MAX_FDS && fds[fd].inUse
      requires count <= |buffer| && fds[fd].offset + count <= fds[fd].size
      modifies this`cache, this`files, disk, fds
      ensures Valid() && owner[fd] < |old(files)| && old(fds[fd].offset) + count <= |old(files)[owner[fd]].data|
      ensures files == old(files)[owner[fd] := Patch(old(files)[owner[fd]], old(fds[fd].offset), buffer[..count])]
      ensures fds[fd] == old(fds[fd]).(offset := old(fds[fd].offset) + count)
      ensures forall k :: 0 <= k < MAX_FDS && k != fd ==> fds[k] == old(fds[k])
    {
      assert FdOk(fd);
      var f := fds[fd];
      FileEntry(disk[..], start, files, owner[fd]);
      fds[fd] := f.(offset := f.offset + count);
      ghost var d0 := disk[..];
      WriteSectors(f.startLba, f.offset, buffer, count, f.size);
      WriteOneFile(d0, disk[..], start, files, owner[fd], f.offset, buffer[..count]);
      ghost var was := files;
      files := files[owner[fd] := Patch(files[owner[fd]], f.offset, buffer[..count])];
      SameLayout(start, was, files);
      forall k | 0 <= k < MAX_FDS ensures FdOk(k) {
        assert old(FdOk(k));
      }
    }

    /** The read-modify-write loop of vfs_write. */
    method WriteSectors(lba0: nat, offset0: nat, buffer: seq<int>, count: nat, ghost size: nat)
      requires IsDisk(disk[..]) && CacheOk()
      requires lba0 + Blocks(size) <= disk.Length && offset0 + count <= size && count <= |buffer|
      modifies this`cache, disk
      ensures CacheOk() && Written(old(disk[..]), disk[..], lba0, offset0, buffer[..count])
    {
      var done := 0;
      var offset := offset0;
      while done < count
        invariant done <= count && offset == offset0 + done && CacheOk()
        invariant Written(old(disk[..]), disk[..], lba0, offset0, buffer[..done])
      {
        var lba, within := lba0 + offset / SECTOR, offset % SECTOR;
        var toWrite := SECTOR - within;
        if toWrite > count - done {
          toWrite := count - done;
        }
        ghost var d := disk[..];
        assert lba < disk.Length && |d[lba]| == SECTOR;
        var sector := disk[lba];
        sector := sector[..within] + buffer[done..done + toWrite] + sector[within + toWrite..];
        CachedWrite(lba, sector);
        OneMoreSector(old(disk[..]), d, lba0, offset0, buffer, done, toWrite);
        done := done + toWrite;
        offset := offset + toWrite;
      }
    }

    static lemma OneMoreSector(d0: seq<Sector>, d: seq<Sector>, lba0: nat, offset0: nat, buffer: seq<int>, done: nat, n: nat)
      requires done + n <= |buffer| && Written(d0, d, lba0, offset0, buffer[..done])
      requires var offset := offset0 + done; lba0 + offset / SECTOR < |d| && offset % SECTOR + n <= SECTOR
      ensures var lba, within := lba0 + (offset0 + done) / SECTOR, (offset0 + done) % SECTOR;
        Written(d0, d[lba := d[lba][..within] + buffer[done..done + n] + d[lba][within + n..]],
                lba0, offset0, buffer[..done + n])
    {
      var lba, within := lba0 + (offset0 + done) / SECTOR, (offset0 + done) % SECTOR;
      var d1 := d[lba := d[lba][..within] + buffer[done..done + n] + d[lba][within + n..]];
      forall l, b | 0 <= l < |d0| && 0 <= b < SECTOR
        ensures d1[l][b] ==
          var pos := (l - lba0) * SECTOR + b - offset0;
          if 0 <= pos < done + n then buffer[pos] else d0[l][b]
      {
        var pos := (l - lba0) * SECTOR + b - offset0;
        assert d[l][b] == if 0 <= pos < done then buffer[..done][pos] else d0[l][b];
        if l == lba {
          assert pos == done + (b - within);
        } else {
          assert !(done <= pos < done + n);
        }
      }
    }

    /** Writes never move a header. */
    static lemma {:induction false} SameLayout(start: nat, fs: seq<File>, gs: seq<File>)
      requires |gs| == |fs| && (forall k :: 0 <= k < |fs| ==> |gs[k].data| == |fs[k].data|)
      ensures forall i :: 0 <= i <= |fs| ==> HeaderLba(start, gs, i) == HeaderLba(start, fs, i)
      ensures WithinLimit(start, start, fs) ==> WithinLimit(start, start, gs)
    {
      forall i | 0 <= i <= |fs| ensures HeaderLba(start, gs, i) == HeaderLba(start, fs, i) {
        HeaderLbaSameSizes(start, fs, gs, i);
      }
    }
  }
}
