/** The two ELF loaders as they run: frames taken, zeroed, mapped and filled page by page, with
    the byte arithmetic of src/kernel/elf.c and src/kernel/core/elf.c. The address space is the
    flat page map that the page tables are proved to implement. */
module ElfLoader {
  import opened Common
  import opened ElfImage

  const ELF_MAGIC: nat := 0x464C457F

  datatype Mapping = Mapping(frame: nat, writable: bool)

  function PageCount(s: Phdr): nat {
    if s.load && EndPage(s) > FirstPage(s) then EndPage(s) - FirstPage(s) else 0
  }

  /** The pages of every segment, counted as often as they are touched. */
  function PageTotal(segs: seq<Phdr>): nat
    decreases |segs|
  {
    if segs == [] then 0 else PageTotal(segs[..|segs| - 1]) + PageCount(segs[|segs| - 1])
  }

  /** The frames the first n pages of a segment take: one each, or, with sharing, one for each
      page not mapped yet. */
  function Taken(shared: bool, img: Image, data: seq<int>, s: Phdr, n: nat): int
    requires Readable(data, s) && WholePages(img)
  {
    if shared then |Pages(true, img, data, s, n)| - |img| else n
  }

  lemma {:induction false} TakenGrows(shared: bool, img: Image, data: seq<int>, s: Phdr, k: nat, n: nat)
    requires Readable(data, s) && WholePages(img) && k <= n
    ensures 0 <= Taken(shared, img, data, s, k) <= Taken(shared, img, data, s, n)
    decreases n
  {
    if k < n {
      TakenGrows(shared, img, data, s, k, n - 1);
      OneMorePage(Pages(true, img, data, s, n - 1), data, s, FirstPage(s) + n - 1);
    } else if n > 0 {
      TakenGrows(shared, img, data, s, n - 1, n - 1);
      OneMorePage(Pages(true, img, data, s, n - 1), data, s, FirstPage(s) + n - 1);
    }
  }

  lemma OneMorePage(img: Image, data: seq<int>, s: Phdr, p: nat)
    requires Readable(data, s) && WholePages(img)
    ensures |SharedPage(img, data, s, p)| == |img| + if p in img then 0 else 1
  {
    var after := SharedPage(img, data, s, p);
    assert after.Keys == img.Keys + {p};
    assert |after| == |after.Keys| && |img| == |img.Keys|;
  }

  lemma {:induction false} NoPagesYet(shared: bool, img: Image, data: seq<int>, s: Phdr)
    requires Readable(data, s) && WholePages(img)
    ensures Pages(shared, img, data, s, 0) == img && Taken(shared, img, data, s, 0) == 0
  {
  }

  lemma OneMore(shared: bool, img: Image, data: seq<int>, s: Phdr, n: nat)
    requires Readable(data, s) && WholePages(img)
    ensures var before := Pages(shared, img, data, s, n);
      Pages(shared, img, data, s, n + 1) ==
        if shared then SharedPage(before, data, s, FirstPage(s) + n) else FreshPage(before, data, s, FirstPage(s) + n)
  {
  }

  /** Page n takes a frame unless sharing finds it mapped. */
  lemma TakenStep(shared: bool, img: Image, data: seq<int>, s: Phdr, n: nat)
    requires Readable(data, s) && WholePages(img)
    ensures Taken(shared, img, data, s, n + 1) == Taken(shared, img, data, s, n) +
      if shared && FirstPage(s) + n in Pages(true, img, data, s, n) then 0 else 1
  {
    OneMorePage(Pages(true, img, data, s, n), data, s, FirstPage(s) + n);
  }

  /** The frames a whole load takes. */
  function FramesTaken(shared: bool, data: seq<int>, segs: seq<Phdr>): nat
    requires AllReadable(data, segs)
  {
    if shared then |Load(true, data, segs)| else PageTotal(segs)
  }

  lemma {:induction false} FramesTakenGrows(shared: bool, data: seq<int>, segs: seq<Phdr>, i: nat)
    requires AllReadable(data, segs) && i <= |segs|
    ensures AllReadable(data, segs[..i]) && FramesTaken(shared, data, segs[..i]) <= FramesTaken(shared, data, segs)
    decreases |segs|
  {
    if i < |segs| {
      var front := segs[..|segs| - 1];
      assert front[..i] == segs[..i];
      FramesTakenGrows(shared, data, front, i);
      OneMoreSegment(shared, data, segs);
    } else {
      assert segs[..i] == segs;
    }
  }

  lemma OneMoreSegment(shared: bool, data: seq<int>, segs: seq<Phdr>)
    requires AllReadable(data, segs) && segs != []
    ensures var front, s := segs[..|segs| - 1], segs[|segs| - 1];
      && AllReadable(data, front)
      && Load(shared, data, segs) ==
         (if s.load then Pages(shared, Load(shared, data, front), data, s, PageCount(s)) else Load(shared, data, front))
      && FramesTaken(shared, data, segs) ==
         FramesTaken(shared, data, front) + (if s.load then Taken(shared, Load(shared, data, front), data, s, PageCount(s)) else 0)
      && (s.load ==> Taken(shared, Load(shared, data, front), data, s, PageCount(s)) >= 0)
  {
    var front, s := segs[..|segs| - 1], segs[|segs| - 1];
    if s.load { TakenGrows(shared, Load(shared, data, front), data, s, 0, PageCount(s)); }
  }

  /** A mapped frame is whole and not free. */
  ghost predicate PageGood(pages: map<nat, Mapping>, frames: map<nat, seq<int>>, free: seq<nat>, p: nat) {
    p in pages && pages[p].frame in frames && |frames[pages[p].frame]| == PAGE && pages[p].frame !in free
  }

  /** No two pages share a frame. */
  ghost predicate Distinct(pages: map<nat, Mapping>) {
    forall p, q {:trigger pages[p], pages[q]} :: p in pages && q in pages && pages[p].frame == pages[q].frame ==> p == q
  }

  ghost predicate Good(pages: map<nat, Mapping>, frames: map<nat, seq<int>>, free: seq<nat>) {
    && NoDup(free) && Distinct(pages)
    && (forall p {:trigger PageGood(pages, frames, free, p)} :: p in pages ==> PageGood(pages, frames, free, p))
  }

  /** What the program sees. */
  ghost function ViewOf(pages: map<nat, Mapping>, frames: map<nat, seq<int>>, free: seq<nat>): (img: Image)
    requires Good(pages, frames, free)
    ensures WholePages(img) && img.Keys == pages.Keys
  {
    var img := map p | p in pages :: PageView(Content(frames, pages[p].frame), pages[p].writable);
    assert forall p :: p in pages ==> PageGood(pages, frames, free, p);
    img
  }

  function Content(frames: map<nat, seq<int>>, f: nat): seq<int> {
    if f in frames then frames[f] else []
  }

  /** A page on a fresh frame changes only itself. */
  lemma FreshGood(pages: map<nat, Mapping>, frames: map<nat, seq<int>>, free: seq<nat>, p: nat, w: bool, bytes: seq<int>)
    requires Good(pages, frames, free) && |free| > 0 && |bytes| == PAGE
    ensures var f, rest := free[|free| - 1], free[..|free| - 1];
      var pages', frames' := pages[p := Mapping(f, w)], frames[f := bytes];
      Good(pages', frames', rest) && ViewOf(pages', frames', rest) == ViewOf(pages, frames, free)[p := PageView(bytes, w)]
  {
    var f, rest := free[|free| - 1], free[..|free| - 1];
    var pages', frames' := pages[p := Mapping(f, w)], frames[f := bytes];
    assert free == rest + [f];
    forall q | q in pages && q != p ensures PageGood(pages', frames', rest, q) && pages[q].frame != f {
      assert PageGood(pages, frames, free, q);
    }
    assert PageGood(pages', frames', rest, p);
  }

  /** So does a page rewritten on the frame it has. */
  lemma RefillGood(pages: map<nat, Mapping>, frames: map<nat, seq<int>>, free: seq<nat>, p: nat, w: bool, bytes: seq<int>)
    requires Good(pages, frames, free) && p in pages && |bytes| == PAGE
    ensures var f := pages[p].frame;
      var pages', frames' := pages[p := Mapping(f, w)], frames[f := bytes];
      Good(pages', frames', free) && ViewOf(pages', frames', free) == ViewOf(pages, frames, free)[p := PageView(bytes, w)]
  {
    var f := pages[p].frame;
    var pages', frames' := pages[p := Mapping(f, w)], frames[f := bytes];
    assert PageGood(pages, frames, free, p);
    forall q | q in pages && q != p ensures PageGood(pages', frames', free, q) && pages[q].frame != f {
      assert PageGood(pages, frames, free, q);
    }
    assert PageGood(pages', frames', free, p);
  }

  /** Where the file bytes of page n lie in the page and in the file. */
  predicate CopyRange(s: Phdr, n: nat, to: nat, from: nat, count: nat) {
    && to == (if n == 0 then s.vaddr % PAGE else 0)
    && from == s.offset + (if n == 0 then 0 else n * PAGE - s.vaddr % PAGE)
    && from < s.offset + s.filesz
    && count == (if s.offset + s.filesz - from > PAGE - to then PAGE - to else s.offset + s.filesz - from)
  }

  lemma InFileWhen(s: Phdr, n: nat, to: nat, from: nat, count: nat, k: nat)
    requires CopyRange(s, n, to, from, count) && k < PAGE
    ensures InFile(s, (FirstPage(s) + n) * PAGE + k) <==> to <= k < to + count
    ensures to <= k < to + count ==> s.offset + ((FirstPage(s) + n) * PAGE + k - s.vaddr) == from + (k - to)
  {
    var a := (FirstPage(s) + n) * PAGE + k;
    assert FirstPage(s) * PAGE + s.vaddr % PAGE == s.vaddr;
    assert a == FirstPage(s) * PAGE + n * PAGE + k;
  }

  lemma CopyIsOverlay(data: seq<int>, s: Phdr, n: nat, under: seq<int>, to: nat, from: nat, count: nat, bytes: seq<int>)
    requires Readable(data, s) && |under| == PAGE && CopyRange(s, n, to, from, count)
    requires bytes == under[..to] + data[from..from + count] + under[to + count..]
    ensures bytes == Overlay(data, s, FirstPage(s) + n, under)
  {
    var over := Overlay(data, s, FirstPage(s) + n, under);
    forall k | 0 <= k < PAGE ensures bytes[k] == over[k] {
      InFileWhen(s, n, to, from, count, k);
      if to <= k < to + count { assert bytes[k] == data[from..from + count][k - to] == data[from + (k - to)]; }
    }
  }

  lemma NothingToCopy(data: seq<int>, s: Phdr, n: nat, under: seq<int>)
    requires Readable(data, s) && |under| == PAGE
    requires if n == 0 then s.filesz == 0 else n * PAGE - s.vaddr % PAGE >= s.filesz
    ensures under == Overlay(data, s, FirstPage(s) + n, under)
  {
    var over := Overlay(data, s, FirstPage(s) + n, under);
    assert FirstPage(s) * PAGE + s.vaddr % PAGE == s.vaddr;
    forall k | 0 <= k < PAGE ensures under[k] == over[k] {
      var a := (FirstPage(s) + n) * PAGE + k;
      assert a == FirstPage(s) * PAGE + n * PAGE + k;
      assert !InFile(s, a);
    }
  }

  class Loader {
    var pages: map<nat, Mapping>
    var frames: map<nat, seq<int>>
    var free: seq<nat>               // the frame pool; the next frame handed out is the last

    ghost predicate Valid()
      reads this
    {
      Good(pages, frames, free)
    }

    ghost function View(): (img: Image)
      requires Valid()
      reads this
      ensures WholePages(img)
    {
      ViewOf(pages, frames, free)
    }

    constructor (free: seq<nat>)
      requires NoDup(free)
      ensures Valid() && View() == map[] && this.pages == map[] && this.free == free
    {
      pages, frames, this.free := map[], map[], free;
    }

    /** The copy into page n of a segment, over what the page holds. */
    method CopyFileBytes(data: seq<int>, s: Phdr, n: nat, under: seq<int>) returns (bytes: seq<int>)
      requires Readable(data, s) && n < EndPage(s) - FirstPage(s) && |under| == PAGE
      ensures bytes == Overlay(data, s, FirstPage(s) + n, under)
    {
      var copyOffset, copySource, copySize := 0, s.offset + n * PAGE, PAGE;
      if n == 0 {
        copyOffset := s.vaddr % PAGE;
        copySize := PAGE - copyOffset;
      } else {
        copySource := copySource - s.vaddr % PAGE;
      }
      bytes := under;
      if copySource < s.offset + s.filesz {
        var fromFile := s.offset + s.filesz - copySource;
        if fromFile > copySize { fromFile := copySize; }
        bytes := under[..copyOffset] + data[copySource..copySource + fromFile] + under[copyOffset + fromFile..];
        CopyIsOverlay(data, s, n, under, copyOffset, copySource, fromFile, bytes);
      } else {
        NothingToCopy(data, s, n, under);
      }
    }

    /** A frame from the pool, zeroed, filled and mapped. */
    method MapFresh(data: seq<int>, s: Phdr, n: nat)
      requires Valid() && Readable(data, s) && n < EndPage(s) - FirstPage(s) && |free| > 0
      modifies this
      ensures Valid() && View() == FreshPage(old(View()), data, s, FirstPage(s) + n)
      ensures free == old(free)[..|old(free)| - 1]
    {
      var p, frame := FirstPage(s) + n, free[|free| - 1];
      var bytes := CopyFileBytes(data, s, n, Blank(s).bytes);
      FreshGood(pages, frames, free, p, s.writable, bytes);
      free := free[..|free| - 1];
      pages := pages[p := Mapping(frame, s.writable)];
      frames := frames[frame := bytes];
    }

    /** Page n in core/elf.c. */
    method MapShared(data: seq<int>, s: Phdr, n: nat)
      requires Valid() && Readable(data, s) && n < EndPage(s) - FirstPage(s)
      requires FirstPage(s) + n !in pages ==> |free| > 0
      modifies this
      ensures Valid() && View() == SharedPage(old(View()), data, s, FirstPage(s) + n)
      ensures free == if FirstPage(s) + n in old(pages) then old(free) else old(free)[..|old(free)| - 1]
    {
      var p := FirstPage(s) + n;
      if p !in pages {
        MapFresh(data, s, n);
        return;
      }
      assert PageGood(pages, frames, free, p);
      RefillGood(pages, frames, free, p, pages[p].writable || s.writable, Overlay(data, s, p, frames[pages[p].frame]));
      if s.writable && !pages[p].writable {
        pages := pages[p := Mapping(pages[p].frame, true)];
      }
      var frame := pages[p].frame;
      assert pages == old(pages)[p := Mapping(frame, old(pages)[p].writable || s.writable)];
      var bytes := CopyFileBytes(data, s, n, frames[frame]);
      frames := frames[frame := bytes];
    }

    /** The page loop of one PT_LOAD header. */
    method LoadSegment(shared: bool, data: seq<int>, s: Phdr)
      requires Valid() && Readable(data, s) && s.load && |free| >= Taken(shared, View(), data, s, PageCount(s))
      modifies this
      ensures Valid() && View() == Pages(shared, old(View()), data, s, PageCount(s))
      ensures free <= old(free) && |free| == |old(free)| - Taken(shared, old(View()), data, s, PageCount(s))
    {
      hide Pages, Good, ViewOf;
      var count := if EndPage(s) > FirstPage(s) then EndPage(s) - FirstPage(s) else 0;
      ghost var was, pool := View(), free;
      NoPagesYet(shared, was, data, s);
      var n := 0;
      while n < count
        invariant n <= count && Valid() && View() == Pages(shared, was, data, s, n)
        invariant free <= pool && |free| == |pool| - Taken(shared, was, data, s, n)
      {
        LoadPage(shared, data, s, n, was, pool);
        n := n + 1;
      }
    }

    /** One turn of that loop. */
    method LoadPage(shared: bool, data: seq<int>, s: Phdr, n: nat, ghost was: Image, ghost pool: seq<nat>)
      requires Valid() && Readable(data, s) && n < EndPage(s) - FirstPage(s) && WholePages(was)
      requires View() == Pages(shared, was, data, s, n)
      requires s.load && Taken(shared, was, data, s, PageCount(s)) <= |pool|
      requires free <= pool && |free| == |pool| - Taken(shared, was, data, s, n)
      modifies this
      ensures Valid() && View() == Pages(shared, was, data, s, n + 1)
      ensures free <= pool && |free| == |pool| - Taken(shared, was, data, s, n + 1)
    {
      hide Pages, SharedPage, FreshPage, Good;
      TakenStep(shared, was, data, s, n);
      TakenGrows(shared, was, data, s, n + 1, PageCount(s));
      OneMore(shared, was, data, s, n);
      assert View().Keys == pages.Keys;
      if shared { MapShared(data, s, n); } else { MapFresh(data, s, n); }
    }

    /** elf_load of either source file, into a fresh address space. It takes exactly one frame for
        every page mapped: once for each segment on it in the built loader, once in all with
        sharing, and none for a wrong magic. */
    method ElfLoad(shared: bool, magic: nat, entry: nat, data: seq<int>, segs: seq<Phdr>) returns (entryPoint: Option<nat>)
      requires Valid() && pages == map[]
      requires magic == 0x464C457F ==> AllReadable(data, segs) && |free| >= FramesTaken(shared, data, segs)
      modifies this
      ensures entryPoint == if magic == 0x464C457F then Some(entry) else None
      ensures magic != 0x464C457F ==> Valid() && View() == map[] && free == old(free)
      ensures magic == 0x464C457F ==>
        && Valid() && View() == Load(shared, data, segs)
        && free <= old(free) && |free| == |old(free)| - FramesTaken(shared, data, segs)
    {
      hide Pages, Good;
      if magic != ELF_MAGIC { return None; }
      entryPoint := Some(entry);
      ghost var pool := free;
      var i := 0;
      assert segs[..0] == [];
      while i < |segs|
        invariant i <= |segs| && Valid() && AllReadable(data, segs[..i]) && View() == Load(shared, data, segs[..i])
        invariant free <= pool && |free| == |pool| - FramesTaken(shared, data, segs[..i])
      {
        assert segs[..i + 1][..i] == segs[..i] && segs[..i + 1][i] == segs[i];
        FramesTakenGrows(shared, data, segs, i + 1);
        OneMoreSegment(shared, data, segs[..i + 1]);
        if segs[i].load { LoadSegment(shared, data, segs[i]); }
        i := i + 1;
      }
      assert segs[..i] == segs;
    }
  }
}
