/** What a loaded program must look like in memory (System V gABI, chapter 5), and what the two
    loaders make of its program headers: src/kernel/elf.c, which gives every page of every
    segment a fresh frame, and src/kernel/core/elf.c, which lets segments share pages. */
module ElfImage {
  import opened Common

  const PAGE: nat := 4096
  const WORD64: nat := 0x1_0000_0000_0000_0000

  /** A program header; only PT_LOAD ones are mapped. */
  datatype Phdr = Phdr(load: bool, writable: bool, offset: nat, vaddr: nat, filesz: nat, memsz: nat)

  /** What both loaders take for granted of a header they map: the file bytes are there and
      addresses do not wrap. */
  predicate Readable(data: seq<int>, s: Phdr) {
    s.offset + s.filesz <= |data| < WORD64 && s.vaddr + s.memsz + PAGE <= WORD64
  }

  predicate AllReadable(data: seq<int>, segs: seq<Phdr>) {
    forall i {:trigger segs[i]} :: 0 <= i < |segs| && segs[i].load ==> Readable(data, segs[i])
  }

  function FirstPage(s: Phdr): nat {
    s.vaddr / PAGE
  }

  function EndPage(s: Phdr): nat {
    (s.vaddr + s.memsz + PAGE - 1) / PAGE
  }

  predicate OnPage(s: Phdr, p: nat) {
    s.load && FirstPage(s) <= p < EndPage(s)
  }

  /** The segment holds a file byte for this address. */
  predicate InFile(s: Phdr, a: nat) {
    s.vaddr <= a < s.vaddr + s.filesz
  }

  function FileByte(data: seq<int>, s: Phdr, a: nat): int
    requires Readable(data, s) && InFile(s, a)
  {
    data[s.offset + (a - s.vaddr)]
  }

  /** What the segment alone puts at an address: its file byte, and zero elsewhere. */
  function SegByte(data: seq<int>, s: Phdr, a: nat): int
    requires Readable(data, s)
  {
    if InFile(s, a) then FileByte(data, s, a) else 0
  }

  /** One page as the program sees it. */
  datatype PageView = PageView(bytes: seq<int>, writable: bool)

  type Image = map<nat, PageView>

  function Blank(s: Phdr): PageView {
    PageView(seq(PAGE, _ => 0), s.writable)
  }

  /** A page with a segment's file bytes laid over it. */
  function Overlay(data: seq<int>, s: Phdr, p: nat, under: seq<int>): (bytes: seq<int>)
    requires Readable(data, s) && |under| == PAGE
    ensures |bytes| == PAGE
  {
    seq(PAGE, k requires 0 <= k < PAGE => if InFile(s, p * PAGE + k) then FileByte(data, s, p * PAGE + k) else under[k])
  }

  predicate WholePages(img: Image) {
    forall p {:trigger img[p]} :: p in img ==> |img[p].bytes| == PAGE
  }

  // ---------------------------------------------------------------- the two loaders, page by page

  /** elf.c: a fresh zeroed page, whatever was mapped there before. */
  function FreshPage(img: Image, data: seq<int>, s: Phdr, p: nat): Image
    requires Readable(data, s)
  {
    img[p := PageView(Overlay(data, s, p, Blank(s).bytes), s.writable)]
  }

  /** core/elf.c: the page already there, made writable if need be, or a fresh zeroed one. */
  function SharedPage(img: Image, data: seq<int>, s: Phdr, p: nat): Image
    requires Readable(data, s) && WholePages(img)
  {
    var under := if p in img then img[p] else Blank(s);
    img[p := PageView(Overlay(data, s, p, under.bytes), under.writable || s.writable)]
  }

  /** The first n pages of a segment. */
  function Pages(shared: bool, img: Image, data: seq<int>, s: Phdr, n: nat): (r: Image)
    requires Readable(data, s) && WholePages(img)
    ensures WholePages(r)
  {
    if n == 0 then img
    else
      var before := Pages(shared, img, data, s, n - 1);
      if shared then SharedPage(before, data, s, FirstPage(s) + n - 1) else FreshPage(before, data, s, FirstPage(s) + n - 1)
  }

  /** Every program header in turn. */
  function Load(shared: bool, data: seq<int>, segs: seq<Phdr>): (img: Image)
    requires AllReadable(data, segs)
    ensures WholePages(img)
    decreases |segs|
  {
    if segs == [] then map[]
    else
      var before, s := Load(shared, data, segs[..|segs| - 1]), segs[|segs| - 1];
      if s.load && EndPage(s) > FirstPage(s) then Pages(shared, before, data, s, EndPage(s) - FirstPage(s)) else before
  }

  // ---------------------------------------------------------------- what the page loop adds up to

  lemma {:induction false} PagesEffect(shared: bool, img: Image, data: seq<int>, s: Phdr, n: nat, p: nat)
    requires Readable(data, s) && WholePages(img)
    ensures var r := Pages(shared, img, data, s, n);
      if FirstPage(s) <= p < FirstPage(s) + n then
        && p in r
        && var under := if shared && p in img then img[p] else Blank(s);
           r[p] == PageView(Overlay(data, s, p, under.bytes), under.writable || s.writable)
      else
        (p in r <==> p in img) && (p in img ==> r[p] == img[p])
  {
    if n > 0 { PagesEffect(shared, img, data, s, n - 1, p); }
  }

  /** One more program header, seen at one page. */
  lemma {:induction false} LoadStep(shared: bool, data: seq<int>, segs: seq<Phdr>, p: nat)
    requires AllReadable(data, segs) && segs != []
    ensures AllReadable(data, segs[..|segs| - 1])
    ensures var before, after, s := Load(shared, data, segs[..|segs| - 1]), Load(shared, data, segs), segs[|segs| - 1];
      if OnPage(s, p) then
        && p in after
        && var under := if shared && p in before then before[p] else Blank(s);
           after[p] == PageView(Overlay(data, s, p, under.bytes), under.writable || s.writable)
      else
        (p in after <==> p in before) && (p in before ==> after[p] == before[p])
  {
    var s := segs[|segs| - 1];
    if s.load && EndPage(s) > FirstPage(s) {
      PagesEffect(shared, Load(shared, data, segs[..|segs| - 1]), data, s, EndPage(s) - FirstPage(s), p);
    }
  }

  // ---------------------------------------------------------------- elf.c: the last segment on a page wins

  /** The last segment that touches a page, or the number of segments if none does. */
  function LastOn(segs: seq<Phdr>, p: nat): (i: nat)
    ensures i <= |segs|
    ensures i < |segs| ==> OnPage(segs[i], p) && forall j :: i < j < |segs| ==> !OnPage(segs[j], p)
    ensures i == |segs| ==> forall j :: 0 <= j < |segs| ==> !OnPage(segs[j], p)
    decreases |segs|
  {
    if segs == [] then 0
    else if OnPage(segs[|segs| - 1], p) then |segs| - 1
    else
      var i := LastOn(segs[..|segs| - 1], p);
      if i == |segs| - 1 then |segs| else i
  }

  /** For any headers at all: a page is mapped exactly when a segment touches it, and it is the
      page of the last segment that does, alone. */
  lemma {:induction false} FreshLoadIsLast(data: seq<int>, segs: seq<Phdr>, p: nat)
    requires AllReadable(data, segs)
    ensures var img, i := Load(false, data, segs), LastOn(segs, p);
      && (p in img <==> i < |segs|)
      && (p in img ==> img[p] == PageView(Overlay(data, segs[i], p, Blank(segs[i]).bytes), segs[i].writable))
    decreases |segs|
  {
    if segs != [] {
      LoadStep(false, data, segs, p);
      FreshLoadIsLast(data, segs[..|segs| - 1], p);
    }
  }

  predicate PageDisjoint(segs: seq<Phdr>) {
    forall i, j :: 0 <= i < j < |segs| && segs[i].load && segs[j].load ==>
      EndPage(segs[i]) <= FirstPage(segs[j]) || EndPage(segs[j]) <= FirstPage(segs[i])
      || EndPage(segs[i]) <= FirstPage(segs[i]) || EndPage(segs[j]) <= FirstPage(segs[j])
  }

  function ByteAt(img: Image, a: nat): int
    requires a / PAGE in img && WholePages(img)
  {
    img[a / PAGE].bytes[a % PAGE]
  }

  // ---------------------------------------------------------------- core/elf.c: overlays add up

  /** The last segment with a file byte for this address among those on its page. */
  function LastWrite(segs: seq<Phdr>, a: nat): (i: nat)
    ensures i <= |segs|
    ensures i < |segs| ==>
      && OnPage(segs[i], a / PAGE) && InFile(segs[i], a)
      && forall j :: i < j < |segs| ==> !(OnPage(segs[j], a / PAGE) && InFile(segs[j], a))
    ensures i == |segs| ==> forall j :: 0 <= j < |segs| ==> !(OnPage(segs[j], a / PAGE) && InFile(segs[j], a))
    decreases |segs|
  {
    if segs == [] then 0
    else if OnPage(segs[|segs| - 1], a / PAGE) && InFile(segs[|segs| - 1], a) then |segs| - 1
    else
      var i := LastWrite(segs[..|segs| - 1], a);
      if i == |segs| - 1 then |segs| else i
  }

  predicate SomeWritable(segs: seq<Phdr>, p: nat) {
    exists i :: 0 <= i < |segs| && OnPage(segs[i], p) && segs[i].writable
  }

  predicate SomeOn(segs: seq<Phdr>, p: nat) {
    exists i :: 0 <= i < |segs| && OnPage(segs[i], p)
  }

  lemma FrontOrLast(segs: seq<Phdr>, p: nat)
    requires segs != []
    ensures var front, last := segs[..|segs| - 1], segs[|segs| - 1];
      && (SomeOn(segs, p) <==> OnPage(last, p) || SomeOn(front, p))
      && (SomeWritable(segs, p) <==> (OnPage(last, p) && last.writable) || SomeWritable(front, p))
  {
    var front, last := segs[..|segs| - 1], segs[|segs| - 1];
    if j :| 0 <= j < |front| && OnPage(front[j], p) { assert OnPage(segs[j], p); }
    if j :| 0 <= j < |segs| && OnPage(segs[j], p) { assert j < |front| ==> OnPage(front[j], p); }
    if j :| 0 <= j < |front| && OnPage(front[j], p) && front[j].writable { assert OnPage(segs[j], p); }
    if j :| 0 <= j < |segs| && OnPage(segs[j], p) && segs[j].writable { assert j < |front| ==> OnPage(front[j], p); }
    if OnPage(last, p) { assert OnPage(segs[|segs| - 1], p); }
  }

  /** For any headers at all: the byte is the last file byte written there, or zero, and the page
      is writable exactly when some segment on it is. */
  lemma {:induction false} SharedLoadAddsUp(data: seq<int>, segs: seq<Phdr>, a: nat)
    requires AllReadable(data, segs)
    ensures var img, i := Load(true, data, segs), LastWrite(segs, a);
      && (a / PAGE in img <==> SomeOn(segs, a / PAGE))
      && (a / PAGE in img ==>
           && ByteAt(img, a) == (if i < |segs| then FileByte(data, segs[i], a) else 0)
           && (img[a / PAGE].writable <==> SomeWritable(segs, a / PAGE)))
    decreases |segs|
  {
    if segs != [] {
      var p, front, last := a / PAGE, segs[..|segs| - 1], segs[|segs| - 1];
      LoadStep(true, data, segs, p);
      SharedLoadAddsUp(data, front, a);
      assert p * PAGE + a % PAGE == a;
      FrontOrLast(segs, p);
    }
  }

  /** Segments on pages of their own are loaded exactly by either loader: every byte of every page
      of the segment is its file byte or zero, and the page is writable exactly when PF_W says so. */
  lemma {:induction false} PageDisjointLoadsExactly(shared: bool, data: seq<int>, segs: seq<Phdr>, i: nat, a: nat)
    requires AllReadable(data, segs) && PageDisjoint(segs) && i < |segs| && OnPage(segs[i], a / PAGE)
    ensures var img := Load(shared, data, segs);
      && a / PAGE in img
      && ByteAt(img, a) == SegByte(data, segs[i], a)
      && (segs[i].vaddr <= a < segs[i].vaddr + segs[i].filesz ==>
            ByteAt(img, a) == data[segs[i].offset + (a - segs[i].vaddr)])
      && (!(segs[i].vaddr <= a < segs[i].vaddr + segs[i].filesz) ==> ByteAt(img, a) == 0)
      && img[a / PAGE].writable == segs[i].writable
  {
    AloneOnPage(segs, i, a / PAGE);
    if shared {
      SharedLoadAddsUp(data, segs, a);
      assert SomeOn(segs, a / PAGE);
    } else {
      FreshLoadIsLast(data, segs, a / PAGE);
      assert LastOn(segs, a / PAGE) == i;
      assert (a / PAGE) * PAGE + a % PAGE == a;
    }
  }

  lemma AloneOnPage(segs: seq<Phdr>, i: nat, p: nat)
    requires PageDisjoint(segs) && i < |segs| && OnPage(segs[i], p)
    ensures forall j :: 0 <= j < |segs| && j != i ==> !OnPage(segs[j], p)
  {
  }

  predicate InMemory(s: Phdr, a: nat) {
    s.load && s.vaddr <= a < s.vaddr + s.memsz
  }

  ghost predicate ByteDisjoint(segs: seq<Phdr>) {
    forall i, j, a: nat :: 0 <= i < j < |segs| && InMemory(segs[i], a) ==> !InMemory(segs[j], a)
  }

  /** The gABI's rule that the file size is no larger than the memory size. */
  predicate FileFits(segs: seq<Phdr>) {
    forall i {:trigger segs[i]} :: 0 <= i < |segs| ==> segs[i].filesz <= segs[i].memsz
  }

  lemma InMemoryOnPage(s: Phdr, a: nat)
    requires InMemory(s, a)
    ensures OnPage(s, a / PAGE)
  {
  }

  /** Segments that share pages but no bytes are loaded exactly by core/elf.c: every byte of a
      segment is its file byte or zero, every other byte of a mapped page is zero. */
  lemma {:induction false} ByteDisjointLoadsExactly(data: seq<int>, segs: seq<Phdr>, a: nat)
    requires AllReadable(data, segs) && ByteDisjoint(segs) && FileFits(segs)
    ensures var img := Load(true, data, segs);
      && (forall i :: 0 <= i < |segs| && InMemory(segs[i], a) ==>
           a / PAGE in img && ByteAt(img, a) == SegByte(data, segs[i], a))
      && (a / PAGE in img && (forall i :: 0 <= i < |segs| ==> !InMemory(segs[i], a)) ==> ByteAt(img, a) == 0)
  {
    SharedLoadAddsUp(data, segs, a);
    var last := LastWrite(segs, a);
    assert last < |segs| ==> InMemory(segs[last], a);
    forall i | 0 <= i < |segs| && InMemory(segs[i], a)
      ensures a / PAGE in Load(true, data, segs) && ByteAt(Load(true, data, segs), a) == SegByte(data, segs[i], a)
    {
      InMemoryOnPage(segs[i], a);
      assert SomeOn(segs, a / PAGE);
      OneOwner(segs, i, a);
    }
  }

  lemma OneOwner(segs: seq<Phdr>, i: nat, a: nat)
    requires ByteDisjoint(segs) && FileFits(segs) && i < |segs| && InMemory(segs[i], a)
    ensures forall j :: 0 <= j < |segs| && j != i ==> !(segs[j].load && InFile(segs[j], a))
  {
    forall j | 0 <= j < |segs| && j != i ensures !(segs[j].load && InFile(segs[j], a)) {
      assert !InMemory(segs[j], a);
    }
  }

  /** The same segments under elf.c: a byte keeps its value exactly when no later segment touches
      its page, or the value was zero anyway. So that loader needs segments on pages of their own. */
  lemma {:induction false} SharingLosesBytes(data: seq<int>, segs: seq<Phdr>, i: nat, a: nat)
    requires AllReadable(data, segs) && ByteDisjoint(segs) && FileFits(segs)
    requires i < |segs| && InMemory(segs[i], a)
    ensures var img := Load(false, data, segs);
      && a / PAGE in img
      && (ByteAt(img, a) == SegByte(data, segs[i], a) <==>
           (forall j :: i < j < |segs| ==> !OnPage(segs[j], a / PAGE)) || SegByte(data, segs[i], a) == 0)
  {
    FreshLoadIsLast(data, segs, a / PAGE);
    InMemoryOnPage(segs[i], a);
    OneOwner(segs, i, a);
    assert (a / PAGE) * PAGE + a % PAGE == a;
    var last := LastOn(segs, a / PAGE);
    assert last >= i;
    if last == i {
      assert forall j :: i < j < |segs| ==> !OnPage(segs[j], a / PAGE);
    } else {
      assert !InFile(segs[last], a);
    }
  }

  /** Past a segment's memory size its pages are zero, whatever the file holds. */
  ghost predicate TailIsZero(shared: bool, segs: seq<Phdr>, i: nat)
    requires i < |segs|
  {
    forall data, a: nat | AllReadable(data, segs) && OnPage(segs[i], a / PAGE) && a >= segs[i].vaddr + segs[i].memsz ::
      a / PAGE in Load(shared, data, segs) && ByteAt(Load(shared, data, segs), a) == 0
  }

  /** Some file can hold these segments. */
  predicate Addressable(segs: seq<Phdr>) {
    forall i {:trigger segs[i]} :: 0 <= i < |segs| && segs[i].load ==>
      segs[i].offset + segs[i].filesz < WORD64 && segs[i].vaddr + segs[i].memsz + PAGE <= WORD64
  }

  /** The length of a file that reaches past every segment. */
  function FileEnd(segs: seq<Phdr>): (n: nat)
    requires Addressable(segs)
    ensures n < WORD64
    ensures forall i {:trigger segs[i]} :: 0 <= i < |segs| && segs[i].load ==> segs[i].offset + segs[i].filesz <= n
    decreases |segs|
  {
    if segs == [] then 0
    else
      var s, n := segs[|segs| - 1], FileEnd(segs[..|segs| - 1]);
      if s.load && s.offset + s.filesz > n then s.offset + s.filesz else n
  }

  /** That holds, for either loader and any segment on pages of its own, exactly for a file size
      within the memory size, or a segment ending with its page: neither loader checks, and a
      larger file size spills into the rest of the page. */
  lemma TailCondition(shared: bool, segs: seq<Phdr>, i: nat)
    requires PageDisjoint(segs) && Addressable(segs) && i < |segs| && segs[i].load
    ensures TailIsZero(shared, segs, i) <==>
      segs[i].filesz <= segs[i].memsz || (segs[i].vaddr + segs[i].memsz) % PAGE == 0
  {
    var s := segs[i];
    forall data, a: nat | AllReadable(data, segs) && OnPage(s, a / PAGE) && a >= s.vaddr + s.memsz
      ensures a / PAGE in Load(shared, data, segs) && ByteAt(Load(shared, data, segs), a) == SegByte(data, s, a)
    {
      PageDisjointLoadsExactly(shared, data, segs, i, a);
    }
    if s.filesz > s.memsz && (s.vaddr + s.memsz) % PAGE != 0 {
      var data, a := seq(FileEnd(segs), _ => 1), s.vaddr + s.memsz;
      assert AllReadable(data, segs) && OnPage(s, a / PAGE) && InFile(s, a);
      assert SegByte(data, s, a) == 1;
      PageDisjointLoadsExactly(shared, data, segs, i, a);
    }
  }

  /** For instance: code that ends in the page its data starts in. The built loader zeroes the
      code's byte at 0x1000, the sharing loader keeps it. */
  lemma {:induction false} SharingExample(data: seq<int>, code: Phdr, rest: Phdr)
    requires code == Phdr(true, false, 0, 0x1000, 16, 16) && rest == Phdr(true, true, 16, 0x1800, 16, 16)
    requires data == seq(32, _ => 1)
    ensures var segs := [code, rest];
      && AllReadable(data, segs) && ByteDisjoint(segs) && FileFits(segs)
      && 0x1000 / PAGE in Load(false, data, segs) && 0x1000 / PAGE in Load(true, data, segs)
      && ByteAt(Load(false, data, segs), 0x1000) == 0 && ByteAt(Load(true, data, segs), 0x1000) == 1
  {
    var segs := [code, rest];
    assert segs[0] == code && segs[1] == rest;
    assert SegByte(data, code, 0x1000) == 1 && OnPage(segs[1], 0x1000 / PAGE);
    SharingLosesBytes(data, segs, 0, 0x1000);
    ByteDisjointLoadsExactly(data, segs, 0x1000);
    FreshLoadIsLast(data, segs, 0x1000 / PAGE);
    assert LastOn(segs, 0x1000 / PAGE) == 1;
  }
}
