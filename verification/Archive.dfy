/** ustar archives on disk (POSIX.1 pax, ustar Interchange Format) as src/kernel/tar.c reads
    them: octal sizes, the header scan, and the layout that makes lookups find what was laid
    out. */
module Archive {
  import opened Common

  const SECTOR: nat := 512
  const SCAN_LIMIT: nat := 20000
  const WORD32: nat := 0x1_0000_0000
  const NAME_FIELD: nat := 100
  const SIZE_FIELD: nat := 124
  const SIZE_DIGITS: nat := 11

  type Sector = seq<int>

  ghost predicate IsDisk(disk: seq<Sector>) {
    forall l :: 0 <= l < |disk| ==> |disk[l]| == SECTOR
  }

  // ---------------------------------------------------------------- octal numbers

  /** octal_to_int from digit i on: 32-bit arithmetic, stopping at the first other byte. */
  function OctalFrom(s: seq<int>, i: nat, res: nat): nat
    requires i <= SIZE_DIGITS && |s| >= SIZE_DIGITS
    decreases SIZE_DIGITS - i, s
  {
    if i == SIZE_DIGITS || s[i] < 48 || s[i] > 55 then res
    else OctalFrom(s, i + 1, (res * 8 + (s[i] - 48)) % WORD32)
  }

  /** The n lowest octal digits of a number, most significant first. */
  function OctalDigits(x: nat, n: nat): (s: seq<int>)
    ensures |s| == n
    ensures forall k :: 0 <= k < n ==> 48 <= s[k] <= 55
  {
    if n == 0 then [] else OctalDigits(x / 8, n - 1) + [48 + x % 8]
  }

  function Pow8(n: nat): (p: nat)
    ensures p > 0
  {
    if n == 0 then 1 else 8 * Pow8(n - 1)
  }

  /** The value of digits, without wrap-around. */
  function OctalValue(s: seq<int>): int
    decreases |s|
  {
    if s == [] then 0 else OctalValue(s[..|s| - 1]) * 8 + (s[|s| - 1] - 48)
  }

  lemma {:induction false} DigitsValue(x: nat, n: nat)
    requires x < Pow8(n)
    ensures OctalValue(OctalDigits(x, n)) == x
    decreases n
  {
    if n > 0 {
      DigitsValue(x / 8, n - 1);
      var s := OctalDigits(x, n);
      assert s[..|s| - 1] == OctalDigits(x / 8, n - 1);
    }
  }

  lemma ModStep(v: int, d: int)
    ensures (v % WORD32 * 8 + d) % WORD32 == (v * 8 + d) % WORD32
  {
  }

  lemma ValueStep(s: seq<int>, i: nat)
    requires i < |s|
    ensures OctalValue(s[..i + 1]) == OctalValue(s[..i]) * 8 + (s[i] - 48)
  {
    assert s[..i + 1][..i] == s[..i];
  }

  lemma {:induction false} OctalIsValue(s: seq<int>, i: nat, res: nat)
    requires |s| >= SIZE_DIGITS && i <= SIZE_DIGITS
    requires forall k :: 0 <= k < SIZE_DIGITS ==> 48 <= s[k] <= 55
    requires res == OctalValue(s[..i]) % WORD32
    ensures OctalFrom(s, i, res) == OctalValue(s[..SIZE_DIGITS]) % WORD32
    decreases SIZE_DIGITS - i
  {
    if i < SIZE_DIGITS {
      ValueStep(s, i);
      ModStep(OctalValue(s[..i]), s[i] - 48);
      OctalIsValue(s, i + 1, (res * 8 + (s[i] - 48)) % WORD32);
    }
  }

  /** Eleven octal digits read back exactly the numbers a 32-bit size can hold. */
  lemma {:induction false} OctalRoundTrip(x: nat, rest: seq<int>)
    requires x < Pow8(SIZE_DIGITS)
    ensures OctalFrom(OctalDigits(x, SIZE_DIGITS) + rest, 0, 0) == x % WORD32
    ensures OctalFrom(OctalDigits(x, SIZE_DIGITS) + rest, 0, 0) == x <==> x < WORD32
  {
    hide OctalFrom, OctalDigits;
    var s := OctalDigits(x, SIZE_DIGITS) + rest;
    assert s[..SIZE_DIGITS] == OctalDigits(x, SIZE_DIGITS);
    OctalIsValue(s, 0, 0);
    DigitsValue(x, SIZE_DIGITS);
  }

  /** A shorter number ended by any other byte is read up to that byte. */
  lemma {:induction false} OctalStops(s: seq<int>, i: nat, k: nat, res: nat)
    requires |s| >= SIZE_DIGITS && i <= k < SIZE_DIGITS && !(48 <= s[k] <= 55)
    requires forall j :: 0 <= j < k ==> 48 <= s[j] <= 55
    requires res == OctalValue(s[..i]) % WORD32
    ensures OctalFrom(s, i, res) == OctalValue(s[..k]) % WORD32
    decreases k - i
  {
    if i < k {
      ValueStep(s, i);
      ModStep(OctalValue(s[..i]), s[i] - 48);
      OctalStops(s, i + 1, k, (res * 8 + (s[i] - 48)) % WORD32);
    }
  }

  lemma Pow8OfEleven()
    ensures Pow8(SIZE_DIGITS) == 8 * 0x4000_0000
  {
    assert Pow8(3) == 512;
    assert Pow8(6) == 8 * 8 * 8 * Pow8(3);
    assert Pow8(9) == 8 * 8 * 8 * Pow8(6);
    assert Pow8(11) == 8 * 8 * Pow8(9);
  }

  // ---------------------------------------------------------------- scanning headers

  /** A C string: the bytes before the first zero. */
  function CString(s: seq<int>): (r: seq<int>)
    ensures r <= s && 0 !in r
    decreases |s|
  {
    if s == [] || s[0] == 0 then [] else [s[0]] + CString(s[1..])
  }

  function SizeOf(h: Sector): nat
    requires |h| == SECTOR
  {
    OctalFrom(h[SIZE_FIELD..], 0, 0)
  }

  /** Sectors of one entry, header included, in 32-bit arithmetic. */
  function EntrySectors(size: nat): (n: nat)
    ensures n >= 1
  {
    1 + (size + 511) % WORD32 / SECTOR
  }

  predicate Readable(disk: seq<Sector>, lba: nat) {
    lba < |disk| && |disk[lba]| == SECTOR
  }

  /** tar_find_file from sector lba on: where the data starts, and its size. */
  function Find(disk: seq<Sector>, start: nat, lba: nat, name: seq<int>): Option<(nat, nat)>
    decreases start + SCAN_LIMIT - lba, disk
  {
    if !Readable(disk, lba) || disk[lba][0] == 0 then None
    else if CString(disk[lba]) == name then Some((lba + 1, SizeOf(disk[lba])))
    else
      var next := lba + EntrySectors(SizeOf(disk[lba]));
      if next > start + SCAN_LIMIT then None else Find(disk, start, next, name)
  }

  /** tar_get_file_by_index from sector lba on. */
  function NameAt(disk: seq<Sector>, start: nat, lba: nat, index: nat): Option<seq<int>>
    decreases start + SCAN_LIMIT - lba, disk
  {
    if !Readable(disk, lba) || disk[lba][0] == 0 then None
    else if index == 0 then Some(CString(disk[lba]))
    else
      var next := lba + EntrySectors(SizeOf(disk[lba]));
      if next > start + SCAN_LIMIT then None else NameAt(disk, start, next, index - 1)
  }

  // ---------------------------------------------------------------- what is on the disk

  datatype File = File(name: seq<int>, data: seq<int>)

  function Blocks(size: nat): nat {
    (size + 511) / SECTOR
  }

  /** Names fit their field with a terminator; sizes fit 32-bit arithmetic. */
  ghost predicate FileOk(f: File) {
    0 < |f.name| < NAME_FIELD && 0 !in f.name && |f.data| + 511 < WORD32
  }

  ghost predicate AllOk(files: seq<File>)
    decreases |files|
  {
    files == [] || (FileOk(files[0]) && AllOk(files[1..]))
  }

  /** The n bytes stored from the start of sector lba on. */
  ghost function BytesAt(disk: seq<Sector>, lba: nat, n: nat): (s: seq<int>)
    requires IsDisk(disk) && lba + Blocks(n) <= |disk|
    ensures |s| == n
    ensures forall i :: 0 <= i < n ==> lba + i / SECTOR < |disk| && s[i] == disk[lba + i / SECTOR][i % SECTOR]
  {
    seq(n, i requires 0 <= i < n => disk[lba + i / SECTOR][i % SECTOR])
  }

  ghost predicate EntryAt(disk: seq<Sector>, lba: nat, f: File)
    requires IsDisk(disk)
  {
    && lba + 1 + Blocks(|f.data|) < |disk|
    && disk[lba][0] != 0 && CString(disk[lba]) == f.name
    && SizeOf(disk[lba]) == |f.data|
    && BytesAt(disk, lba + 1, |f.data|) == f.data
  }

  /** The entries of these files lie one after the other from sector lba on, and then a header
      whose name is empty. */
  ghost predicate FilesAt(disk: seq<Sector>, lba: nat, files: seq<File>)
    requires IsDisk(disk)
    decreases |files|
  {
    && lba < |disk|
    && if files == [] then disk[lba][0] == 0
       else FileOk(files[0]) && EntryAt(disk, lba, files[0])
            && FilesAt(disk, lba + 1 + Blocks(|files[0].data|), files[1..])
  }

  /** Where the header of file i is. */
  function HeaderLba(lba: nat, files: seq<File>, i: nat): (l: nat)
    requires i <= |files|
    ensures l >= lba
    decreases |files|
  {
    if i == 0 then lba else HeaderLba(lba + 1 + Blocks(|files[0].data|), files[1..], i - 1)
  }

  ghost predicate WithinLimit(start: nat, lba: nat, files: seq<File>) {
    forall i :: 0 <= i < |files| ==> HeaderLba(lba, files, i) <= start + SCAN_LIMIT
  }

  function FirstNamed(files: seq<File>, name: seq<int>): (i: nat)
    ensures i <= |files|
    ensures i < |files| ==> files[i].name == name
    ensures forall j :: 0 <= j < i ==> files[j].name != name
    decreases |files|
  {
    if files == [] || files[0].name == name then 0 else 1 + FirstNamed(files[1..], name)
  }

  /** What a scan sees of the first entry. */
  lemma HeadEntry(disk: seq<Sector>, lba: nat, files: seq<File>)
    requires IsDisk(disk) && FilesAt(disk, lba, files) && files != []
    ensures var next := lba + 1 + Blocks(|files[0].data|);
      && Readable(disk, lba) && disk[lba][0] != 0 && CString(disk[lba]) == files[0].name
      && lba + EntrySectors(SizeOf(disk[lba])) == next
      && FilesAt(disk, next, files[1..]) && Readable(disk, next)
      && SizeOf(disk[lba]) == |files[0].data|
  {
  }

  /** A header of another name is skipped, up to the limit. */
  lemma {:induction false} FindSkips(disk: seq<Sector>, start: nat, lba: nat, next: nat, name: seq<int>)
    requires Readable(disk, lba) && disk[lba][0] != 0 && CString(disk[lba]) != name
    requires next == lba + EntrySectors(SizeOf(disk[lba]))
    ensures Find(disk, start, lba, name) == if next > start + SCAN_LIMIT then None else Find(disk, start, next, name)
  {
  }

  lemma {:induction false} FindStopsAt(disk: seq<Sector>, start: nat, lba: nat, name: seq<int>)
    requires Readable(disk, lba) && (disk[lba][0] == 0 || CString(disk[lba]) == name)
    ensures Find(disk, start, lba, name) == if disk[lba][0] == 0 then None else Some((lba + 1, SizeOf(disk[lba])))
  {
  }

  lemma FirstNamedStep(lba: nat, files: seq<File>, name: seq<int>)
    requires files != [] && files[0].name != name
    ensures var i, j := FirstNamed(files, name), FirstNamed(files[1..], name);
      && i == j + 1
      && (i < |files| ==>
           && files[i] == files[1..][j]
           && HeaderLba(lba, files, i) == HeaderLba(lba + 1 + Blocks(|files[0].data|), files[1..], j))
  {
  }

  /** Lookup finds the first entry of the name, and fails exactly when there is none or its header
      lies more than 20000 sectors in. */
  lemma {:induction false} FindsFirst(disk: seq<Sector>, start: nat, lba: nat, files: seq<File>, name: seq<int>)
    requires IsDisk(disk) && FilesAt(disk, lba, files) && lba <= start + 20000
    ensures var i := FirstNamed(files, name);
      Find(disk, start, lba, name) ==
      if i < |files| && HeaderLba(lba, files, i) <= start + 20000 then Some((HeaderLba(lba, files, i) + 1, |files[i].data|))
      else None
    decreases |files|
  {
    hide SizeOf, EntrySectors, CString;
    if files != [] {
      HeadEntry(disk, lba, files);
      if files[0].name != name {
        var next := lba + 1 + Blocks(|files[0].data|);
        FindSkips(disk, start, lba, next, name);
        FirstNamedStep(lba, files, name);
        if next <= start + 20000 { FindsFirst(disk, start, next, files[1..], name); }
      } else {
        FindStopsAt(disk, start, lba, name);
      }
    } else {
      FindStopsAt(disk, start, lba, name);
    }
  }

  /** Enumeration by index lists exactly the entries whose headers lie at most 20000 sectors in, in
      order. */
  lemma {:induction false} EnumeratesAll(disk: seq<Sector>, start: nat, lba: nat, files: seq<File>, index: nat)
    requires IsDisk(disk) && FilesAt(disk, lba, files) && lba <= start + 20000
    ensures NameAt(disk, start, lba, index) ==
      if index < |files| && HeaderLba(lba, files, index) <= start + 20000 then Some(files[index].name) else None
    decreases |files|
  {
    hide SizeOf, EntrySectors, CString;
    if files != [] {
      HeadEntry(disk, lba, files);
      if index > 0 {
        var next := lba + 1 + Blocks(|files[0].data|);
        NameSkips(disk, start, lba, next, index);
        if next <= start + 20000 { EnumeratesAll(disk, start, next, files[1..], index - 1); }
      }
    }
  }

  lemma NameSkips(disk: seq<Sector>, start: nat, lba: nat, next: nat, index: nat)
    requires Readable(disk, lba) && disk[lba][0] != 0 && index > 0 && next == lba + EntrySectors(SizeOf(disk[lba]))
    ensures NameAt(disk, start, lba, index) == if next > start + SCAN_LIMIT then None else NameAt(disk, start, next, index - 1)
  {
  }

  // ---------------------------------------------------------------- laying files out

  function Zeros(n: int): seq<int> {
    seq(if n < 0 then 0 else n, _ => 0)
  }

  function Header(f: File): Sector
  {
    f.name + Zeros(SIZE_FIELD - |f.name|) + OctalDigits(|f.data|, SIZE_DIGITS) + Zeros(SECTOR - SIZE_FIELD - SIZE_DIGITS)
  }

  function DataSectors(data: seq<int>): (s: seq<Sector>)
    ensures |s| == Blocks(|data|)
    ensures forall k :: 0 <= k < |s| ==> |s[k]| == SECTOR
    decreases |data|
  {
    if data == [] then []
    else if |data| <= SECTOR then [data + Zeros(SECTOR - |data|)]
    else [data[..SECTOR]] + DataSectors(data[SECTOR..])
  }

  /** The sectors of an archive: header and data of every file, then a zero sector. */
  function Encode(files: seq<File>): seq<Sector>
    decreases |files|
  {
    if files == [] then [Zeros(SECTOR)]
    else [Header(files[0])] + DataSectors(files[0].data) + Encode(files[1..])
  }

  lemma {:induction false} DataSectorBytes(data: seq<int>, i: nat)
    requires i < |data|
    ensures i / SECTOR < |DataSectors(data)| && DataSectors(data)[i / SECTOR][i % SECTOR] == data[i]
    decreases |data|
  {
    if |data| > SECTOR && i >= SECTOR {
      DataSectorBytes(data[SECTOR..], i - SECTOR);
    }
  }

  lemma {:induction false} CStringStops(name: seq<int>, rest: seq<int>)
    requires 0 !in name && (rest == [] || rest[0] == 0)
    ensures CString(name + rest) == name
    decreases |name|
  {
    if name == [] {
      assert name + rest == rest;
    } else {
      assert (name + rest)[1..] == name[1..] + rest;
      CStringStops(name[1..], rest);
    }
  }

  lemma HeaderReadsBack(f: File)
    requires FileOk(f)
    ensures |Header(f)| == SECTOR && Header(f)[0] != 0
    ensures CString(Header(f)) == f.name && SizeOf(Header(f)) == |f.data|
    ensures Header(f)[..|f.name|] == f.name && Header(f)[124..135] == OctalDigits(|f.data|, 11)
  {
    var h := Header(f);
    var tail := OctalDigits(|f.data|, SIZE_DIGITS) + Zeros(SECTOR - SIZE_FIELD - SIZE_DIGITS);
    assert h == f.name + (Zeros(SIZE_FIELD - |f.name|) + tail);
    CStringStops(f.name, Zeros(SIZE_FIELD - |f.name|) + tail);
    assert h[SIZE_FIELD..] == tail;
    Pow8OfEleven();
    OctalRoundTrip(|f.data|, Zeros(SECTOR - SIZE_FIELD - SIZE_DIGITS));
  }

  /** These sectors are on the disk from lba on. */
  ghost predicate LiesAt(disk: seq<Sector>, lba: nat, s: seq<Sector>) {
    lba + |s| <= |disk| && forall k {:trigger s[k]} :: 0 <= k < |s| ==> disk[lba + k] == s[k]
  }

  /** The first entry of an encoded archive, and where the rest of it lies. */
  lemma {:induction false} FirstEncoded(disk: seq<Sector>, lba: nat, files: seq<File>)
    requires IsDisk(disk) && files != [] && FileOk(files[0])
    requires LiesAt(disk, lba, Encode(files))
    ensures EntryAt(disk, lba, files[0])
    ensures LiesAt(disk, lba + 1 + Blocks(|files[0].data|), Encode(files[1..]))
  {
    var f, d := files[0], DataSectors(files[0].data);
    EncodeNonEmpty(files[1..]);
    EncodeStep(files);
    SplitEncoded(disk, lba, Header(f), d, Encode(files[1..]));
    EncodedEntry(disk, lba, f);
  }

  lemma {:induction false} EmptyEncoded(disk: seq<Sector>, lba: nat)
    requires IsDisk(disk) && LiesAt(disk, lba, Encode([]))
    ensures FilesAt(disk, lba, [])
  {
    assert Encode([])[0] == Zeros(SECTOR) == disk[lba + 0];
  }

  lemma FilesAtCons(disk: seq<Sector>, lba: nat, files: seq<File>)
    requires IsDisk(disk) && files != [] && FileOk(files[0]) && EntryAt(disk, lba, files[0])
    requires FilesAt(disk, lba + 1 + Blocks(|files[0].data|), files[1..])
    ensures FilesAt(disk, lba, files)
  {
  }

  /** An encoded archive, wherever it is put on a disk, is a well-formed one. */
  lemma {:induction false} EncodedIsLaidOut(disk: seq<Sector>, lba: nat, files: seq<File>)
    requires IsDisk(disk)
    requires AllOk(files)
    requires LiesAt(disk, lba, Encode(files))
    ensures FilesAt(disk, lba, files)
    decreases |files|
  {
    if files == [] {
      EmptyEncoded(disk, lba);
    } else {
      FirstEncoded(disk, lba, files);
      EncodedIsLaidOut(disk, lba + 1 + Blocks(|files[0].data|), files[1..]);
      FilesAtCons(disk, lba, files);
    }
  }

  lemma {:induction false} EncodeStep(files: seq<File>)
    requires files != []
    ensures Encode(files) == [Header(files[0])] + DataSectors(files[0].data) + Encode(files[1..])
  {
  }

  lemma SplitEncoded(disk: seq<Sector>, lba: nat, h: Sector, d: seq<Sector>, rest: seq<Sector>)
    requires LiesAt(disk, lba, [h] + d + rest)
    ensures lba < |disk| && disk[lba] == h
    ensures LiesAt(disk, lba + 1, d)
    ensures LiesAt(disk, lba + 1 + |d|, rest)
  {
    var e := [h] + d + rest;
    assert e[0] == h;
    forall k | 0 <= k < |d| ensures disk[lba + 1 + k] == d[k] { assert e[1 + k] == d[k]; }
    forall k | 0 <= k < |rest| ensures disk[lba + 1 + |d| + k] == rest[k] { assert e[1 + |d| + k] == rest[k]; }
  }

  lemma EncodedEntry(disk: seq<Sector>, lba: nat, f: File)
    requires IsDisk(disk) && FileOk(f) && lba + 1 + Blocks(|f.data|) < |disk|
    requires disk[lba] == Header(f) && LiesAt(disk, lba + 1, DataSectors(f.data))
    ensures EntryAt(disk, lba, f)
  {
    HeaderReadsBack(f);
    var d := DataSectors(f.data);
    forall i | 0 <= i < |f.data| ensures BytesAt(disk, lba + 1, |f.data|)[i] == f.data[i] {
      DataSectorBytes(f.data, i);
      assert disk[lba + 1 + i / SECTOR] == d[i / SECTOR];
    }
  }

  lemma {:induction false} EncodeNonEmpty(files: seq<File>)
    ensures |Encode(files)| >= 1
  {
  }

  // ---------------------------------------------------------------- writing file data

  /** d1 is d0 with the bytes of `data` at offset off from sector lba, and nothing else
      changed. */
  ghost predicate Written(d0: seq<Sector>, d1: seq<Sector>, lba: nat, off: nat, data: seq<int>) {
    && IsDisk(d0) && IsDisk(d1) && |d1| == |d0|
    && forall l, b {:trigger d1[l][b]} :: 0 <= l < |d0| && 0 <= b < SECTOR ==>
         var pos := (l - lba) * SECTOR + b - off;
         d1[l][b] == if 0 <= pos < |data| then data[pos] else d0[l][b]
  }

  function Overwrite(old_: seq<int>, off: nat, data: seq<int>): (r: seq<int>)
    requires off + |data| <= |old_|
    ensures |r| == |old_|
    ensures forall k :: 0 <= k < |r| ==> r[k] == if off <= k < off + |data| then data[k - off] else old_[k]
  {
    old_[..off] + data + old_[off + |data|..]
  }

  ghost predicate SameSectors(d0: seq<Sector>, d1: seq<Sector>, from: nat, to: nat) {
    |d0| == |d1| && forall l :: from <= l < to && l < |d0| ==> d1[l] == d0[l]
  }

  lemma WrittenElsewhere(d0: seq<Sector>, d1: seq<Sector>, lba: nat, off: nat, data: seq<int>, size: nat)
    requires Written(d0, d1, lba, off, data) && off + |data| <= size
    ensures SameSectors(d0, d1, 0, lba) && SameSectors(d0, d1, lba + Blocks(size), |d0|)
  {
    forall l | 0 <= l < |d0| && (l < lba || l >= lba + Blocks(size)) ensures d1[l] == d0[l] {
      forall b | 0 <= b < SECTOR ensures d1[l][b] == d0[l][b] {
        assert l < lba ==> (l - lba) * SECTOR + b < 0;
        assert l >= lba + Blocks(size) ==> (l - lba) * SECTOR >= size;
      }
    }
  }

  lemma {:induction false} FilesKept(d0: seq<Sector>, d1: seq<Sector>, lba: nat, files: seq<File>)
    requires IsDisk(d0) && IsDisk(d1) && FilesAt(d0, lba, files) && SameSectors(d0, d1, lba, |d0|)
    ensures FilesAt(d1, lba, files)
    decreases |files|
  {
    if files != [] {
      EntryKept(d0, d1, lba, files[0]);
      FilesKept(d0, d1, lba + 1 + Blocks(|files[0].data|), files[1..]);
    }
  }

  lemma EntryKept(d0: seq<Sector>, d1: seq<Sector>, lba: nat, f: File)
    requires IsDisk(d0) && IsDisk(d1) && EntryAt(d0, lba, f)
    requires SameSectors(d0, d1, lba, lba + 1 + Blocks(|f.data|))
    ensures EntryAt(d1, lba, f)
  {
    forall i | 0 <= i < |f.data| ensures BytesAt(d1, lba + 1, |f.data|)[i] == f.data[i] {
      assert BytesAt(d0, lba + 1, |f.data|)[i] == f.data[i];
    }
  }

  function Patch(f: File, off: nat, data: seq<int>): File
    requires off + |data| <= |f.data|
  {
    f.(data := Overwrite(f.data, off, data))
  }

  lemma PatchedEntry(d0: seq<Sector>, d1: seq<Sector>, lba: nat, f: File, off: nat, data: seq<int>)
    requires IsDisk(d0) && EntryAt(d0, lba, f) && off + |data| <= |f.data|
    requires Written(d0, d1, lba + 1, off, data)
    ensures EntryAt(d1, lba, Patch(f, off, data))
  {
    WrittenElsewhere(d0, d1, lba + 1, off, data, |f.data|);
    var g := Patch(f, off, data);
    forall k | 0 <= k < |g.data| ensures BytesAt(d1, lba + 1, |g.data|)[k] == g.data[k] {
      assert BytesAt(d0, lba + 1, |f.data|)[k] == f.data[k];
      PatchedByte(d0, d1, lba + 1, off, data, k);
    }
  }

  lemma PatchedByte(d0: seq<Sector>, d1: seq<Sector>, lba: nat, off: nat, data: seq<int>, k: nat)
    requires Written(d0, d1, lba, off, data) && lba + k / SECTOR < |d0|
    ensures d1[lba + k / SECTOR][k % SECTOR] ==
      if off <= k < off + |data| then data[k - off] else d0[lba + k / SECTOR][k % SECTOR]
  {
    var l, b := lba + k / SECTOR, k % SECTOR;
    assert (l - lba) * SECTOR + b == k;
    assert d1[l][b] == if 0 <= k - off < |data| then data[k - off] else d0[l][b];
  }

  /** One entry replaced by another of the same size, and no other sector changed. */
  lemma {:induction false} EntryReplaced(d0: seq<Sector>, d1: seq<Sector>, lba: nat, files: seq<File>, i: nat, g: File)
    requires IsDisk(d0) && IsDisk(d1) && |d0| == |d1| && FilesAt(d0, lba, files) && i < |files|
    requires FileOk(g) && |g.data| == |files[i].data| && EntryAt(d1, HeaderLba(lba, files, i), g)
    requires SameSectors(d0, d1, lba, HeaderLba(lba, files, i))
    requires SameSectors(d0, d1, HeaderLba(lba, files, i) + 1 + Blocks(|g.data|), |d0|)
    ensures FilesAt(d1, lba, files[i := g])
    decreases |files|
  {
    if i == 0 {
      FirstReplaced(d0, d1, lba, files, g);
    } else {
      HeadSurvives(d0, d1, lba, files, i);
      EntryReplaced(d0, d1, lba + 1 + Blocks(|files[0].data|), files[1..], i - 1, g);
      LaterReplaced(d1, lba, files, i, g);
    }
  }

  lemma FirstReplaced(d0: seq<Sector>, d1: seq<Sector>, lba: nat, files: seq<File>, g: File)
    requires IsDisk(d0) && IsDisk(d1) && |d0| == |d1| && FilesAt(d0, lba, files) && files != []
    requires FileOk(g) && |g.data| == |files[0].data| && EntryAt(d1, lba, g)
    requires SameSectors(d0, d1, lba + 1 + Blocks(|g.data|), |d0|)
    ensures FilesAt(d1, lba, files[0 := g])
  {
    FilesKept(d0, d1, lba + 1 + Blocks(|files[0].data|), files[1..]);
    assert files[0 := g][1..] == files[1..];
  }

  /** The first entry survives a change to a later one. */
  lemma HeadSurvives(d0: seq<Sector>, d1: seq<Sector>, lba: nat, files: seq<File>, i: nat)
    requires IsDisk(d0) && IsDisk(d1) && FilesAt(d0, lba, files) && 0 < i < |files|
    requires SameSectors(d0, d1, lba, HeaderLba(lba, files, i))
    ensures FileOk(files[0]) && EntryAt(d1, lba, files[0])
    ensures var next := lba + 1 + Blocks(|files[0].data|);
      FilesAt(d0, next, files[1..]) && HeaderLba(lba, files, i) == HeaderLba(next, files[1..], i - 1)
  {
    assert HeaderLba(lba, files, i) >= lba + 1 + Blocks(|files[0].data|);
    EntryKept(d0, d1, lba, files[0]);
  }

  lemma {:induction false} LaterReplaced(d: seq<Sector>, lba: nat, files: seq<File>, i: nat, g: File)
    requires IsDisk(d) && 0 < i < |files| && FileOk(files[0]) && EntryAt(d, lba, files[0])
    requires FilesAt(d, lba + 1 + Blocks(|files[0].data|), files[1..][i - 1 := g])
    ensures FilesAt(d, lba, files[i := g])
  {
    assert files[i := g][1..] == files[1..][i - 1 := g];
  }

  /** Writing inside the data of file i changes that file and no other; every header stays. */
  lemma WriteOneFile(d0: seq<Sector>, d1: seq<Sector>, lba: nat, files: seq<File>, i: nat, off: nat, data: seq<int>)
    requires IsDisk(d0) && FilesAt(d0, lba, files) && i < |files| && off + |data| <= |files[i].data|
    requires Written(d0, d1, HeaderLba(lba, files, i) + 1, off, data)
    ensures FilesAt(d1, lba, files[i := Patch(files[i], off, data)])
  {
    FileEntry(d0, lba, files, i);
    PatchedEntry(d0, d1, HeaderLba(lba, files, i), files[i], off, data);
    WrittenElsewhere(d0, d1, HeaderLba(lba, files, i) + 1, off, data, |files[i].data|);
    EntryReplaced(d0, d1, lba, files, i, Patch(files[i], off, data));
  }

  lemma {:induction false} HeaderLbaSameSizes(lba: nat, files: seq<File>, gs: seq<File>, i: nat)
    requires |gs| == |files| && i <= |files|
    requires forall k :: 0 <= k < |files| ==> |gs[k].data| == |files[k].data|
    ensures HeaderLba(lba, gs, i) == HeaderLba(lba, files, i)
    decreases |files|
  {
    if i > 0 { HeaderLbaSameSizes(lba + 1 + Blocks(|files[0].data|), files[1..], gs[1..], i - 1); }
  }

  /** The entry of file i, and where its data is. */
  lemma {:induction false} FileEntry(disk: seq<Sector>, lba: nat, files: seq<File>, i: nat)
    requires IsDisk(disk) && FilesAt(disk, lba, files) && i < |files|
    ensures FileOk(files[i]) && EntryAt(disk, HeaderLba(lba, files, i), files[i])
    decreases |files|
  {
    if i > 0 { FileEntry(disk, lba + 1 + Blocks(|files[0].data|), files[1..], i - 1); }
  }
}
