/** elf_load over the page tables themselves (src/kernel/elf.c): after loading, the space shows
    exactly the image the program headers describe, and a fork of it is a copy of that image. */
module ElfTables {
  import opened Common
  import opened Frames
  import opened PageTables
  import opened FrameGraph
  import opened CopyOnWrite
  import opened CowSteps
  import opened FaultProof
  import opened FreshPage
  import opened ForkRefinement
  import Elf = ElfImage

  /** PAGE_USER, and PAGE_WRITABLE as PF_W says. */
  function SegmentFlags(writable: bool): Flags {
    Flags(false, writable, true, false, false, 0)
  }

  /** One turn of the page loop: a frame is taken, mapped, cleared and filled. None stands for
      running out of frames, for the page or for a table above it. */
  function PutPage(m: Machine, root: nat, p: nat, view: Elf.PageView): Option<Machine> {
    var v, flags := p * PAGE_SIZE, SegmentFlags(view.writable);
    if 1 + Missing(m, root, Path(v)[..3]) > |m.pool.free| then None
    else
      match (Alloc(m.pool).0, MapFresh(m, root, v, flags))
      case (Some(f), Some(n)) => Some(n.(mem := n.mem[f := Data(view.bytes)]))
      case _ => None
  }

  /** The first n pages of one PT_LOAD header. */
  function PutPages(m: Machine, root: nat, data: seq<int>, s: Elf.Phdr, n: nat): Option<Machine>
    requires Elf.Readable(data, s)
    decreases n
  {
    if n == 0 then Some(m)
    else
      var p := Elf.FirstPage(s) + n - 1;
      match PutPages(m, root, data, s, n - 1)
      case None => None
      case Some(m1) => PutPage(m1, root, p, Elf.PageView(Elf.Overlay(data, s, p, Elf.Blank(s).bytes), s.writable))
  }

  function PageCount(s: Elf.Phdr): nat {
    if s.load && Elf.EndPage(s) > Elf.FirstPage(s) then Elf.EndPage(s) - Elf.FirstPage(s) else 0
  }

  /** The loop over the program headers. */
  function PutSegments(m: Machine, root: nat, data: seq<int>, segs: seq<Elf.Phdr>): Option<Machine>
    requires Elf.AllReadable(data, segs)
    decreases |segs|
  {
    if segs == [] then Some(m)
    else
      var s := segs[|segs| - 1];
      match PutSegments(m, root, data, segs[..|segs| - 1])
      case None => None
      case Some(m1) => if s.load then PutPages(m1, root, data, s, PageCount(s)) else Some(m1)
  }

  /** Pages of top-level slots 1 to 511. */
  predicate UserPage(p: nat) {
    0x800_0000 <= p < 0x10_0000_0000
  }

  predicate UserSegments(segs: seq<Elf.Phdr>) {
    forall i {:trigger segs[i]} :: 0 <= i < |segs| && segs[i].load ==> 0x800_0000 <= Elf.FirstPage(segs[i]) && Elf.EndPage(segs[i]) <= 0x10_0000_0000
  }

  lemma UserPagePath(p: nat)
    requires UserPage(p)
    ensures UserPath(Path(p * PAGE_SIZE)) && PageOf(Path(p * PAGE_SIZE)) == p
  {
    PathSpellsPage(p * PAGE_SIZE);
    assert p * PAGE_SIZE / PAGE_SIZE == p;
  }

  function ViewAt(img: Elf.Image, q: seq<nat>): Option<Page>
    requires |q| == 4
  {
    if PageOf(q) in img then Some(Page(img[PageOf(q)].bytes, Access(img[PageOf(q)].writable, true, 0))) else None
  }

  ghost predicate ShowsAt(m: Machine, g: Graph, root: nat, img: Elf.Image, q: seq<nat>)
    requires |q| == 4
  {
    PageAt(m, g, root, q) == ViewAt(img, q)
  }

  /** The user pages of a space are exactly those of an image. */
  ghost predicate ShowsImage(m: Machine, g: Graph, root: nat, img: Elf.Image) {
    forall q {:trigger ShowsAt(m, g, root, img, q)} :: UserPath(q) ==> ShowsAt(m, g, root, img, q)
  }

  /** The spaces are the same, and only the pages of one of them may have changed. */
  ghost predicate OthersKept(m: Machine, g: Graph, n: Machine, h: Graph, root: nat) {
    && h.kernel == g.kernel && (forall x :: IsSpace(h, x) <==> IsSpace(g, x))
    && (forall x, q :: IsSpace(g, x) && x != root && UserPath(q) ==> PageAt(n, h, x, q) == PageAt(m, g, x, q))
  }

  // ---------------------------------------------------------------- one page

  /** Filling a page whose frame has one name changes that page alone. */
  lemma FillStep(m: Machine, g: Graph, managed: set<nat>, root: nat, p: seq<nat>, ref: PageRef, bytes: seq<int>)
    requires Inv(m, g, managed) && IsSpace(g, root) && UserPath(p) && Look(g, root, p) == Some(ref)
    requires RefOf(m.pool, ref.frame) == 1 && |bytes| == PAGE_SIZE
    ensures var n := m.(mem := m.mem[ref.frame := Data(bytes)]);
      && Inv(n, g, managed)
      && forall x, q :: IsSpace(g, x) && UserPath(q) ==>
           PageAt(n, g, x, q) == if x == root && q == p then Some(Page(bytes, ref.access)) else PageAt(m, g, x, q)
  {
    var n := m.(mem := m.mem[ref.frame := Data(bytes)]);
    var s := WalkFound(m, g, root, p);
    LeafFrameIsPage(m, g, managed, s);
    assert FrameBalanced(g, m.pool, managed, ref.frame);
    OnlyName(g, s);
    FillCoupled(m, g, ref.frame, bytes);
    forall x, q | IsSpace(g, x) && UserPath(q) && !(x == root && q == p) ensures PageAt(n, g, x, q) == PageAt(m, g, x, q) {
      if Look(g, x, q).Some? {
        var y := WalkFound(m, g, x, q);
        assert y != s;
      }
    }
  }

  lemma FillCoupled(m: Machine, g: Graph, f: nat, bytes: seq<int>)
    requires Coupled(m, g) && PagesOk(m, g) && f !in g.own && |bytes| == PAGE_SIZE
    ensures var n := m.(mem := m.mem[f := Data(bytes)]); Coupled(n, g) && PagesOk(n, g)
  {
    var n := m.(mem := m.mem[f := Data(bytes)]);
    forall x | UserSlot(g, x) ensures CoupledAt(n, g, x) {
      assert CoupledAt(m, g, x);
    }
    forall r ensures KernelAt(n, g, r) {
      assert KernelAt(m, g, r);
    }
    forall x | x in g.slots && IsLeaf(g, x) ensures IsPage(n, g.slots[x].frame) {
      assert IsPage(m, g.slots[x].frame);
    }
  }

  /** One turn of the page loop adds one page of the image. */
  lemma PutPageStep(m: Machine, g: Graph, managed: set<nat>, root: nat, img: Elf.Image, p: nat, view: Elf.PageView)
      returns (h: Graph)
    requires Inv(m, g, managed) && IsSpace(g, root) && UserPage(p) && |view.bytes| == PAGE_SIZE
    requires ShowsImage(m, g, root, img) && p !in img && PutPage(m, root, p, view).Some?
    ensures var n := PutPage(m, root, p, view).value;
      Inv(n, h, managed) && IsSpace(h, root) && ShowsImage(n, h, root, img[p := view]) && OthersKept(m, g, n, h, root)
  {
    var v, flags := p * PAGE_SIZE, SegmentFlags(view.writable);
    UserPagePath(p);
    assert ShowsAt(m, g, root, img, Path(v));
    NoPageNoLook(m, g, managed, root, Path(v));
    h := FreshCorrect(m, g, managed, root, v, flags);
    var m1, f := MapFresh(m, root, v, flags).value, Alloc(m.pool).0.value;
    FillStep(m1, h, managed, root, Path(v), PageRef(f, Access(view.writable, true, 0)), view.bytes);
    var n := PutPage(m, root, p, view).value;
    forall q | UserPath(q) ensures ShowsAt(n, h, root, img[p := view], q) {
      assert ShowsAt(m, g, root, img, q);
      PageDeterminesPath(q, Path(v));
    }
  }

  lemma NoPageNoLook(m: Machine, g: Graph, managed: set<nat>, root: nat, q: seq<nat>)
    requires Inv(m, g, managed) && IsSpace(g, root) && UserPath(q) && PageAt(m, g, root, q).None?
    ensures Look(g, root, q).None?
  {
    if Look(g, root, q).Some? {
      var s := WalkFound(m, g, root, q);
      LeafFrameIsPage(m, g, managed, s);
    }
  }

  // ---------------------------------------------------------------- all pages

  lemma KeptNow(m: Machine, g: Graph, root: nat)
    ensures OthersKept(m, g, m, g, root)
  {
  }

  lemma KeptTwice(m: Machine, g: Graph, m1: Machine, g1: Graph, n: Machine, h: Graph, root: nat)
    requires OthersKept(m, g, m1, g1, root) && OthersKept(m1, g1, n, h, root)
    ensures OthersKept(m, g, n, h, root)
  {
  }

  lemma {:induction false} PutPagesStep(m: Machine, g: Graph, managed: set<nat>, root: nat, img: Elf.Image,
                                        data: seq<int>, s: Elf.Phdr, n: nat) returns (h: Graph)
    requires Inv(m, g, managed) && IsSpace(g, root) && ShowsImage(m, g, root, img) && Elf.WholePages(img)
    requires Elf.Readable(data, s) && PutPages(m, root, data, s, n).Some?
    requires forall p :: Elf.FirstPage(s) <= p < Elf.FirstPage(s) + n ==> p !in img && UserPage(p)
    ensures var m' := PutPages(m, root, data, s, n).value;
      && Inv(m', h, managed) && IsSpace(h, root) && ShowsImage(m', h, root, Elf.Pages(false, img, data, s, n))
      && OthersKept(m, g, m', h, root)
    decreases n
  {
    hide Inv, ShowsImage, OthersKept, PutPage, Elf.Overlay;
    h := g;
    KeptNow(m, g, root);
    if n > 0 {
      var p := Elf.FirstPage(s) + n - 1;
      var m1 := PutPages(m, root, data, s, n - 1).value;
      var g1 := PutPagesStep(m, g, managed, root, img, data, s, n - 1);
      var before := Elf.Pages(false, img, data, s, n - 1);
      Elf.PagesEffect(false, img, data, s, n - 1, p);
      var view := Elf.PageView(Elf.Overlay(data, s, p, Elf.Blank(s).bytes), s.writable);
      h := PutPageStep(m1, g1, managed, root, before, p, view);
      KeptTwice(m, g, m1, g1, PutPage(m1, root, p, view).value, h, root);
    }
  }

  lemma {:induction false} PagesAreNew(data: seq<int>, segs: seq<Elf.Phdr>, p: nat)
    requires segs != [] && Elf.AllReadable(data, segs) && Elf.PageDisjoint(segs)
    requires Elf.OnPage(segs[|segs| - 1], p)
    ensures p !in Elf.Load(false, data, segs[..|segs| - 1])
  {
    var front := segs[..|segs| - 1];
    Elf.FreshLoadIsLast(data, front, p);
    Elf.AloneOnPage(segs, |segs| - 1, p);
    assert forall j :: 0 <= j < |front| ==> front[j] == segs[j];
  }

  /** Loading segments on pages of their own into an empty space: whenever the frames suffice,
      the space then shows the image of the program headers, page for page and byte for byte,
      and every other space sees what it saw. */
  lemma {:induction false} LoadShowsImage(m: Machine, g: Graph, managed: set<nat>, root: nat,
                                          data: seq<int>, segs: seq<Elf.Phdr>) returns (h: Graph)
    requires Inv(m, g, managed) && IsSpace(g, root) && ShowsImage(m, g, root, map[])
    requires Elf.AllReadable(data, segs) && Elf.PageDisjoint(segs) && UserSegments(segs)
    requires PutSegments(m, root, data, segs).Some?
    ensures var n := PutSegments(m, root, data, segs).value;
      && Inv(n, h, managed) && ShowsImage(n, h, root, Elf.Load(false, data, segs))
      && OthersKept(m, g, n, h, root)
    decreases |segs|
  {
    h := g;
    if segs != [] {
      var front, s := segs[..|segs| - 1], segs[|segs| - 1];
      var m1 := PutSegments(m, root, data, front).value;
      var g1 := LoadShowsImage(m, g, managed, root, data, front);
      h := g1;
      if s.load {
        forall p | Elf.FirstPage(s) <= p < Elf.FirstPage(s) + PageCount(s)
          ensures p !in Elf.Load(false, data, front) && UserPage(p)
        {
          PagesAreNew(data, segs, p);
        }
        h := PutPagesStep(m1, g1, managed, root, Elf.Load(false, data, front), data, s, PageCount(s));
        KeptTwice(m, g, m1, g1, PutSegments(m, root, data, segs).value, h, root);
      }
    }
  }

  // ---------------------------------------------------------------- a loaded process

  /** A new process with a program in it: elf_load for process pid. */
  function Exec(s: System, kernel: Pte, pid: nat, data: seq<int>, segs: seq<Elf.Phdr>): Option<System>
    requires Elf.AllReadable(data, segs)
  {
    var (r, m1) := CreateSpace(s.m, kernel);
    if r.None? then None
    else
      match PutSegments(m1, r.value, data, segs)
      case None => None
      case Some(n) => Some(System(n, s.roots[pid := r.value]))
  }

  ghost predicate EagerImage(pages: map<seq<nat>, Page>, img: Elf.Image) {
    forall q :: UserPath(q) ==> (if q in pages then Some(pages[q]) else None) == ViewAt(img, q)
  }

  lemma EmptyShowsNothing(s: System, g: Graph, managed: set<nat>, e: Procs, pid: nat)
    requires Agrees(s, g, managed, e) && pid in s.roots && e[pid] == map[]
    ensures IsSpace(g, s.roots[pid]) && ShowsImage(s.m, g, s.roots[pid], map[])
  {
    forall q | UserPath(q) ensures ShowsAt(s.m, g, s.roots[pid], map[], q) {
      assert PageAgrees(s, g, e, pid, q);
    }
  }

  /** One process shows an image, all others what they showed. */
  lemma ImageAgrees(s: System, g: Graph, managed: set<nat>, e: Procs, pid: nat, n: Machine, h: Graph,
                    img: Elf.Image, pages: map<seq<nat>, Page>)
    requires Agrees(s, g, managed, e) && pid in s.roots && Inv(n, h, managed)
    requires ShowsImage(n, h, s.roots[pid], img) && OthersKept(s.m, g, n, h, s.roots[pid]) && EagerImage(pages, img)
    ensures Agrees(s.(m := n), h, managed, e[pid := pages])
  {
    var t, e' := s.(m := n), e[pid := pages];
    forall x, q | x in t.roots && UserPath(q) ensures PageAgrees(t, h, e', x, q) {
      assert PageAgrees(s, g, e, x, q);
      if x == pid { assert ShowsAt(n, h, s.roots[pid], img, q); }
    }
  }

  /** A loaded process is the process that the eager kernel would have with the image as its
      pages. So with CopyOnWriteRefinesEagerCopy every later run of loads, stores, forks and exits
      behaves as if each process had its own copy of the image. */
  lemma ExecAgrees(s: System, g: Graph, managed: set<nat>, e: Procs, kernel: Pte, pid: nat,
                   data: seq<int>, segs: seq<Elf.Phdr>, pages: map<seq<nat>, Page>) returns (h: Graph)
    requires Agrees(s, g, managed, e) && g.kernel == kernel && pid !in s.roots
    requires Elf.AllReadable(data, segs) && Elf.PageDisjoint(segs) && UserSegments(segs)
    requires Exec(s, kernel, pid, data, segs).Some? && EagerImage(pages, Elf.Load(false, data, segs))
    ensures h.kernel == kernel && Agrees(Exec(s, kernel, pid, data, segs).value, h, managed, e[pid := pages])
  {
    hide Agrees, UserSegments, Elf.Load, Elf.AllReadable, Elf.PageDisjoint;
    var spawned := Step(s, kernel, Spawn(pid)).value.0;
    var g1 := SpawnAgrees(s, g, managed, e, kernel, pid);
    var r := spawned.roots[pid];
    EmptyShowsNothing(spawned, g1, managed, e[pid := map[]], pid);
    AgreesMeansInv(spawned, g1, managed, e[pid := map[]]);
    h := LoadShowsImage(spawned.m, g1, managed, r, data, segs);
    var n := PutSegments(spawned.m, r, data, segs).value;
    ImageAgrees(spawned, g1, managed, e[pid := map[]], pid, n, h, Elf.Load(false, data, segs), pages);
    assert e[pid := map[]][pid := pages] == e[pid := pages];
  }

  lemma AgreesMeansInv(s: System, g: Graph, managed: set<nat>, e: Procs)
    requires Agrees(s, g, managed, e)
    ensures Inv(s.m, g, managed) && s.roots.Keys == e.Keys
  {
  }
}
