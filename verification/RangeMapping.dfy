/** vmm_map_range: how 2 MiB and 4 KiB pages are mixed, and that the result is exact. */
module RangeMapping {
  import opened Common
  import opened Frames
  import opened PageTables

  /** The loop of vmm_map_range from offset i on. */
  function MapRange(m: Machine, root: nat, virt: nat, phys: nat, size: nat, flags: Flags, i: nat): Machine
    decreases size - i
  {
    if i >= size then m
    else if HugeStep(virt, phys, size, i) then
      MapRange(Map(m, root, virt + i, phys + i, flags.(huge := true)), root, virt, phys, size, flags, i + HUGE_SIZE)
    else
      MapRange(Map(m, root, virt + i, phys + i, flags), root, virt, phys, size, flags, i + PAGE_SIZE)
  }

  predicate HugeStep(virt: nat, phys: nat, size: nat, i: nat)
    requires i < size
  {
    (virt + i) % HUGE_SIZE == 0 && (phys + i) % HUGE_SIZE == 0 && size - i >= HUGE_SIZE
  }

  function StepFlags(virt: nat, phys: nat, size: nat, flags: Flags, i: nat): Flags
    requires i < size
  {
    if HugeStep(virt, phys, size, i) then flags.(huge := true) else flags
  }

  function StepSize(virt: nat, phys: nat, size: nat, i: nat): (s: nat)
    requires i < size
    ensures s >= PAGE_SIZE
  {
    if HugeStep(virt, phys, size, i) then HUGE_SIZE else PAGE_SIZE
  }

  lemma MapRangeStep(m: Machine, n: Machine, root: nat, virt: nat, phys: nat, size: nat, flags: Flags, i: nat)
    requires i < size && n == Map(m, root, virt + i, phys + i, StepFlags(virt, phys, size, flags, i))
    ensures MapRange(m, root, virt, phys, size, flags, i) ==
      MapRange(n, root, virt, phys, size, flags, i + StepSize(virt, phys, size, i))
  {
  }

  /** There are free frames for the tables one vmm_map call is missing. */
  predicate Fits(m: Machine, root: nat, v: nat, flags: Flags) {
    Missing(m, root, Path(v)[..LeafDepth(flags)]) <= |m.pool.free|
  }

  /** The step that covers page n, in the loop from offset i on, finds its frames. */
  predicate PageFits(m: Machine, root: nat, virt: nat, phys: nat, size: nat, flags: Flags, i: nat, n: nat)
    decreases size - i
  {
    i < size &&
    var f, next := StepFlags(virt, phys, size, flags, i), i + StepSize(virt, phys, size, i);
    if InRange(virt, size, i, n) && !InRange(virt, size, next, n) then Fits(m, root, virt + i, f)
    else PageFits(Map(m, root, virt + i, phys + i, f), root, virt, phys, size, flags, next, n)
  }

  /** Every step of the loop does. */
  ghost predicate RangeFits(m: Machine, root: nat, virt: nat, phys: nat, size: nat, flags: Flags, i: nat)
    decreases size - i
  {
    i >= size ||
    var f := StepFlags(virt, phys, size, flags, i);
    && Fits(m, root, virt + i, f)
    && RangeFits(Map(m, root, virt + i, phys + i, f), root, virt, phys, size, flags,
                 i + StepSize(virt, phys, size, i))
  }

  /** Page n (a page number) is inside the range, at or after offset i. */
  predicate InRange(virt: nat, size: nat, i: nat, n: nat) {
    virt + i <= n * PAGE_SIZE < virt + size
  }

  /** Page n gets its mapping from a 2 MiB entry: the aligned block around it starts at or
      after offset i, is aligned physically too, and lies wholly inside the range. */
  predicate BigPage(virt: nat, phys: nat, size: nat, i: nat, n: nat)
    requires virt <= n * PAGE_SIZE
  {
    var base := n / ENTRIES * HUGE_SIZE;
    base >= virt + i && (phys + (base - virt)) % HUGE_SIZE == 0 && base + HUGE_SIZE <= virt + size
  }

  ghost predicate NoConflict(m: Machine, root: nat, lo: nat, virt: nat, phys: nat, size: nat, i: nat) {
    forall p :: PrivatePath(p, lo) && InRange(virt, size, i, PageOf(p)) && !BigPage(virt, phys, size, i, PageOf(p)) ==>
      !(Lookup(m, root, p).Some? && Lookup(m, root, p).value.flags.huge)
  }

  function RangeEntry(virt: nat, phys: nat, size: nat, flags: Flags, i: nat, n: nat): Mapping
    requires virt <= n * PAGE_SIZE
  {
    Mapping((phys + (n * PAGE_SIZE - virt)) / PAGE_SIZE,
            flags.(present := true, huge := BigPage(virt, phys, size, i, n)))
  }

  const CANONICAL: nat := 0x1_0000_0000_0000  // 2 to the power 48

  lemma PathRoundTrip(v: nat)
    requires v < CANONICAL
    ensures IsPath(Path(v)) && PageOf(Path(v)) == v / PAGE_SIZE
    ensures Path(v)[0] == v / 0x80_0000_0000
  {
    PathSpellsPage(v);
  }

  /** Which pages one step covers, by page number. */
  lemma StepCovers(v: nat, flags: Flags, p: seq<nat>)
    requires v < CANONICAL && IsPath(p)
    ensures Covers(v, flags, p) <==>
      if flags.huge then PageOf(p) / ENTRIES == v / HUGE_SIZE else PageOf(p) == v / PAGE_SIZE
    ensures PageOf(p) % ENTRIES == p[3]
  {
    PathRoundTrip(v);
    var path := Path(v);
    assert PageOf(p) / ENTRIES == (p[0] * ENTRIES + p[1]) * ENTRIES + p[2];
    assert PageOf(path) / ENTRIES == (path[0] * ENTRIES + path[1]) * ENTRIES + path[2];
    assert p[..3] == [p[0], p[1], p[2]] && path[..3] == [path[0], path[1], path[2]];
    PageDeterminesPath(p, path);
    PageDeterminesPath(p[..3] + [0], path[..3] + [0]);
    assert v / PAGE_SIZE / ENTRIES == v / HUGE_SIZE;
  }

  ghost predicate Aligned(virt: nat, phys: nat, i: nat) {
    virt % PAGE_SIZE == 0 && phys % PAGE_SIZE == 0 && i % PAGE_SIZE == 0
  }

  lemma BlockArithmetic(b: nat, n: nat)
    requires b % HUGE_SIZE == 0
    ensures n / ENTRIES == b / HUGE_SIZE <==> b <= n * PAGE_SIZE < b + HUGE_SIZE
    ensures n / ENTRIES * HUGE_SIZE <= n * PAGE_SIZE < n / ENTRIES * HUGE_SIZE + HUGE_SIZE
    ensures n / ENTRIES == b / HUGE_SIZE ==> n / ENTRIES * HUGE_SIZE == b && n * PAGE_SIZE == b + n % ENTRIES * PAGE_SIZE
  {
    var k := b / HUGE_SIZE;
    assert b == k * HUGE_SIZE && n == n / ENTRIES * ENTRIES + n % ENTRIES;
  }

  /** A 2 MiB step: the pages it covers are in the range and big, and get the right frame. */
  lemma HugeStepPages(virt: nat, phys: nat, size: nat, i: nat, n: nat)
    requires Aligned(virt, phys, i) && i < size && HugeStep(virt, phys, size, i)
    ensures n / ENTRIES == (virt + i) / HUGE_SIZE ==>
      && InRange(virt, size, i, n) && BigPage(virt, phys, size, i, n)
      && (phys + i) / HUGE_SIZE * ENTRIES + n % ENTRIES == (phys + (n * PAGE_SIZE - virt)) / PAGE_SIZE
    ensures n / ENTRIES != (virt + i) / HUGE_SIZE ==>
      && (InRange(virt, size, i, n) <==> InRange(virt, size, i + HUGE_SIZE, n))
      && (InRange(virt, size, i, n) ==> (BigPage(virt, phys, size, i, n) <==> BigPage(virt, phys, size, i + HUGE_SIZE, n)))
    ensures InRange(virt, size, i + HUGE_SIZE, n) ==> InRange(virt, size, i, n) && n / ENTRIES != (virt + i) / HUGE_SIZE
  {
    var b := virt + i;
    BlockArithmetic(b, n);
    if n / ENTRIES == b / HUGE_SIZE {
      var k := (phys + i) / HUGE_SIZE;
      assert phys + i == k * HUGE_SIZE;
      assert phys + (n * PAGE_SIZE - virt) == (k * ENTRIES + n % ENTRIES) * PAGE_SIZE;
    } else if InRange(virt, size, i, n) {
      BlockArithmetic(n / ENTRIES * HUGE_SIZE, n);
    }
  }

  /** A 4 KiB step: the page it covers is in the range and not big. */
  lemma SmallStepPages(virt: nat, phys: nat, size: nat, i: nat, n: nat)
    requires Aligned(virt, phys, i) && i < size && !HugeStep(virt, phys, size, i)
    ensures n == (virt + i) / PAGE_SIZE ==>
      && InRange(virt, size, i, n) && !BigPage(virt, phys, size, i, n)
      && (phys + i) / PAGE_SIZE == (phys + (n * PAGE_SIZE - virt)) / PAGE_SIZE
    ensures n != (virt + i) / PAGE_SIZE ==>
      && (InRange(virt, size, i, n) <==> InRange(virt, size, i + PAGE_SIZE, n))
      && (InRange(virt, size, i, n) ==> (BigPage(virt, phys, size, i, n) <==> BigPage(virt, phys, size, i + PAGE_SIZE, n)))
    ensures InRange(virt, size, i + PAGE_SIZE, n) ==> InRange(virt, size, i, n) && n != (virt + i) / PAGE_SIZE
  {
    var k := (virt + i) / PAGE_SIZE;
    assert virt + i == k * PAGE_SIZE;
    var base := n / ENTRIES * HUGE_SIZE;
    assert base <= n * PAGE_SIZE && base % HUGE_SIZE == 0;
    assert base % PAGE_SIZE == 0 by { assert base == n / ENTRIES * ENTRIES * PAGE_SIZE; }
    if base == virt + i {
      assert (phys + (base - virt)) == phys + i;
    }
  }

  /** n is m with every page of the range from offset i on mapped as vmm_map_range promises, if
      its own step found its frames, and nothing else changed. */
  ghost predicate RangeMapped(m: Machine, n: Machine, places: map<nat, Place>, lo: nat, root: nat,
                              virt: nat, phys: nat, size: nat, flags: Flags, i: nat) {
    forall r, p :: IsRoot(places, r) && PrivatePath(p, lo) ==>
      Lookup(n, r, p) ==
      if r == root && InRange(virt, size, i, PageOf(p)) && PageFits(m, root, virt, phys, size, flags, i, PageOf(p))
      then Some(RangeEntry(virt, phys, size, flags, i, PageOf(p)))
      else Lookup(m, r, p)
  }

  /** n is m after one vmm_map call. */
  ghost predicate StepMapped(m: Machine, n: Machine, places: map<nat, Place>, lo: nat, root: nat,
                             v: nat, phys: nat, flags: Flags) {
    forall r, p :: IsRoot(places, r) && PrivatePath(p, lo) ==>
      Lookup(n, r, p) ==
      if Fits(m, root, v, flags) && r == root && Covers(v, flags, p) then Some(MappingFor(phys, flags, p))
      else Lookup(m, r, p)
  }

  lemma ConflictAfterStep(m: Machine, m1: Machine, places: map<nat, Place>, lo: nat, root: nat,
                          virt: nat, phys: nat, size: nat, flags: Flags, i: nat)
    requires Aligned(virt, phys, i) && i < size && virt + size <= CANONICAL && !flags.huge && IsRoot(places, root)
    requires StepMapped(m, m1, places, lo, root, virt + i, phys + i, StepFlags(virt, phys, size, flags, i))
    requires NoConflict(m, root, lo, virt, phys, size, i)
    ensures NoConflict(m1, root, lo, virt, phys, size, i + StepSize(virt, phys, size, i))
  {
    var step := StepSize(virt, phys, size, i);
    forall p | PrivatePath(p, lo) && InRange(virt, size, i + step, PageOf(p))
               && !BigPage(virt, phys, size, i + step, PageOf(p))
      ensures !(Lookup(m1, root, p).Some? && Lookup(m1, root, p).value.flags.huge)
    {
      StepMeets(virt, phys, size, flags, i, p);
    }
  }

  lemma StepThenRest(m: Machine, m1: Machine, n: Machine, places: map<nat, Place>, places1: map<nat, Place>,
                     lo: nat, root: nat, virt: nat, phys: nat, size: nat, flags: Flags, i: nat)
    requires Aligned(virt, phys, i) && i < size && virt + size <= CANONICAL && !flags.huge
    requires Extends(places, places1)
    requires StepMapped(m, m1, places, lo, root, virt + i, phys + i, StepFlags(virt, phys, size, flags, i))
    requires m1 == Map(m, root, virt + i, phys + i, StepFlags(virt, phys, size, flags, i))
    requires RangeMapped(m1, n, places1, lo, root, virt, phys, size, flags, i + StepSize(virt, phys, size, i))
    ensures RangeMapped(m, n, places, lo, root, virt, phys, size, flags, i)
  {
    forall r, p | IsRoot(places, r) && PrivatePath(p, lo)
      ensures Lookup(n, r, p) ==
        if r == root && InRange(virt, size, i, PageOf(p)) && PageFits(m, root, virt, phys, size, flags, i, PageOf(p))
        then Some(RangeEntry(virt, phys, size, flags, i, PageOf(p)))
        else Lookup(m, r, p)
    {
      StepMeets(virt, phys, size, flags, i, p);
      PageFitsStep(m, m1, root, virt, phys, size, flags, i, PageOf(p));
      assert IsRoot(places1, r);
    }
  }

  lemma PageFitsStep(m: Machine, m1: Machine, root: nat, virt: nat, phys: nat, size: nat, flags: Flags, i: nat, n: nat)
    requires i < size && m1 == Map(m, root, virt + i, phys + i, StepFlags(virt, phys, size, flags, i))
    ensures var next := i + StepSize(virt, phys, size, i);
      PageFits(m, root, virt, phys, size, flags, i, n) <==>
        if InRange(virt, size, i, n) && !InRange(virt, size, next, n)
        then Fits(m, root, virt + i, StepFlags(virt, phys, size, flags, i))
        else PageFits(m1, root, virt, phys, size, flags, next, n)
  {
  }

  lemma DoStep(m: Machine, places: map<nat, Place>, lo: nat, root: nat,
               virt: nat, phys: nat, size: nat, flags: Flags, i: nat)
      returns (places1: map<nat, Place>)
    requires Forest(m, places, lo) && IsRoot(places, root)
    requires Aligned(virt, phys, i) && i < size && virt + size <= CANONICAL && virt / 0x80_0000_0000 >= lo && !flags.huge
    requires NoConflict(m, root, lo, virt, phys, size, i)
    ensures var f := StepFlags(virt, phys, size, flags, i);
      var m1 := Map(m, root, virt + i, phys + i, f);
      && Forest(m1, places1, lo) && Extends(places, places1)
      && StepMapped(m, m1, places, lo, root, virt + i, phys + i, f)
  {
    StepReady(m, places, lo, root, virt, phys, size, flags, i);
    places1 := MapUpdates(m, places, lo, root, virt + i, phys + i, StepFlags(virt, phys, size, flags, i));
  }

  /** After one turn of the loop, all that the rest of it needs. */
  lemma Turn(m: Machine, m1: Machine, places: map<nat, Place>, lo: nat, root: nat,
             virt: nat, phys: nat, size: nat, flags: Flags, i: nat)
      returns (places1: map<nat, Place>)
    requires Forest(m, places, lo) && IsRoot(places, root)
    requires Aligned(virt, phys, i) && i < size && virt + size <= CANONICAL && virt / 0x80_0000_0000 >= lo && !flags.huge
    requires NoConflict(m, root, lo, virt, phys, size, i)
    requires m1 == Map(m, root, virt + i, phys + i, StepFlags(virt, phys, size, flags, i))
    ensures Forest(m1, places1, lo) && Extends(places, places1)
    ensures StepMapped(m, m1, places, lo, root, virt + i, phys + i, StepFlags(virt, phys, size, flags, i))
    ensures var next := i + StepSize(virt, phys, size, i);
      Aligned(virt, phys, next) && NoConflict(m1, root, lo, virt, phys, size, next)
  {
    places1 := DoStep(m, places, lo, root, virt, phys, size, flags, i);
    ConflictAfterStep(m, m1, places, lo, root, virt, phys, size, flags, i);
    NextAligned(virt, phys, size, i);
  }

  /** The mapping of every page after vmm_map_range has run from offset i, however many of its
      steps ran short of frames. */
  lemma {:induction false} RangeUpdates(m: Machine, places: map<nat, Place>, lo: nat, root: nat,
                                        virt: nat, phys: nat, size: nat, flags: Flags, i: nat)
      returns (places': map<nat, Place>)
    requires Forest(m, places, lo) && IsRoot(places, root)
    requires Aligned(virt, phys, i) && virt + size <= CANONICAL && virt / 0x80_0000_0000 >= lo && !flags.huge
    requires NoConflict(m, root, lo, virt, phys, size, i)
    ensures Forest(MapRange(m, root, virt, phys, size, flags, i), places', lo) && Extends(places, places')
    ensures RangeMapped(m, MapRange(m, root, virt, phys, size, flags, i), places, lo, root, virt, phys, size, flags, i)
    decreases size - i
  {
    places' := places;
    if i < size {
      var m1 := Map(m, root, virt + i, phys + i, StepFlags(virt, phys, size, flags, i));
      var next := i + StepSize(virt, phys, size, i);
      var places1 := Turn(m, m1, places, lo, root, virt, phys, size, flags, i);
      places' := RangeUpdates(m1, places1, lo, root, virt, phys, size, flags, next);
      MapRangeStep(m, m1, root, virt, phys, size, flags, i);
      StepThenRest(m, m1, MapRange(m1, root, virt, phys, size, flags, next), places, places1,
                   lo, root, virt, phys, size, flags, i);
    }
  }

  lemma NextAligned(virt: nat, phys: nat, size: nat, i: nat)
    requires Aligned(virt, phys, i) && i < size
    ensures Aligned(virt, phys, i + StepSize(virt, phys, size, i))
  {
    AlignedAdd(i);
  }

  lemma AlignedAdd(i: nat)
    ensures (i + PAGE_SIZE) % PAGE_SIZE == i % PAGE_SIZE && (i + HUGE_SIZE) % PAGE_SIZE == i % PAGE_SIZE
  {
  }

  lemma StepReady(m: Machine, places: map<nat, Place>, lo: nat, root: nat,
                  virt: nat, phys: nat, size: nat, flags: Flags, i: nat)
    requires Forest(m, places, lo) && IsRoot(places, root)
    requires Aligned(virt, phys, i) && i < size && virt + size <= CANONICAL && virt / 0x80_0000_0000 >= lo && !flags.huge
    requires NoConflict(m, root, lo, virt, phys, size, i)
    ensures PrivatePath(Path(virt + i), lo)
    ensures HugeStep(virt, phys, size, i) || !HugeAt(m, root, Path(virt + i))
  {
    var v := virt + i;
    PathRoundTrip(v);
    assert v / 0x80_0000_0000 >= virt / 0x80_0000_0000;
    if !HugeStep(virt, phys, size, i) {
      SmallStepPages(virt, phys, size, i, v / PAGE_SIZE);
      FollowUnrolled(m, root, Path(v));
      LookupUnrolled(m, root, Path(v));
    }
  }

  /** One step against one page: either the step sets it, or the rest of the loop decides. */
  lemma StepMeets(virt: nat, phys: nat, size: nat, flags: Flags, i: nat, p: seq<nat>)
    requires Aligned(virt, phys, i) && i < size && virt + size <= CANONICAL && !flags.huge && IsPath(p)
    ensures var n, f, step := PageOf(p), StepFlags(virt, phys, size, flags, i), StepSize(virt, phys, size, i);
      if Covers(virt + i, f, p) then
        && InRange(virt, size, i, n) && !InRange(virt, size, i + step, n)
        && MappingFor(phys + i, f, p) == RangeEntry(virt, phys, size, flags, i, n)
      else
        && (InRange(virt, size, i, n) <==> InRange(virt, size, i + step, n))
        && (InRange(virt, size, i, n) ==> (BigPage(virt, phys, size, i, n) <==> BigPage(virt, phys, size, i + step, n)))
    ensures Aligned(virt, phys, i + StepSize(virt, phys, size, i))
  {
    var n, f := PageOf(p), StepFlags(virt, phys, size, flags, i);
    StepCovers(virt + i, f, p);
    NextAligned(virt, phys, size, i);
    if HugeStep(virt, phys, size, i) {
      HugeStepPages(virt, phys, size, i, n);
    } else {
      SmallStepPages(virt, phys, size, i, n);
    }
  }

  /** Byte off of the range translates to the physical base plus off, with the given flags. */
  ghost predicate Translates(n: Machine, root: nat, virt: nat, phys: nat, flags: Flags, off: nat) {
    && GetPhys(n, root, virt + off) == phys + off
    && GetFlags(n, root, virt + off).(huge := false) == flags.(present := true)
  }

  lemma {:induction false} AllFit(m: Machine, root: nat, virt: nat, phys: nat, size: nat, flags: Flags, i: nat, n: nat)
    requires RangeFits(m, root, virt, phys, size, flags, i) && InRange(virt, size, i, n)
    ensures PageFits(m, root, virt, phys, size, flags, i, n)
    decreases size - i
  {
    var next := i + StepSize(virt, phys, size, i);
    if InRange(virt, size, next, n) {
      AllFit(Map(m, root, virt + i, phys + i, StepFlags(virt, phys, size, flags, i)), root, virt, phys, size, flags, next, n);
    }
  }

  lemma {:induction false} ByteTranslates(m: Machine, n: Machine, places: map<nat, Place>, places': map<nat, Place>,
                                          lo: nat, root: nat,
                       virt: nat, phys: nat, size: nat, flags: Flags, off: nat)
    requires Forest(n, places', lo) && Extends(places, places') && IsRoot(places, root)
    requires Aligned(virt, phys, 0) && virt + size <= CANONICAL && virt / 0x80_0000_0000 >= lo && off < size
    requires RangeMapped(m, n, places, lo, root, virt, phys, size, flags, 0) && !flags.huge
    requires RangeFits(m, root, virt, phys, size, flags, 0)
    ensures Translates(n, root, virt, phys, flags, off)
  {
    var v := virt + off;
    PathRoundTrip(v);
    assert v / 0x80_0000_0000 >= virt / 0x80_0000_0000;
    ByteArithmetic(virt, phys, off);
    assert InRange(virt, size, 0, v / PAGE_SIZE);
    AllFit(m, root, virt, phys, size, flags, 0, v / PAGE_SIZE);
    LookupsReadFlatMap(n, places', lo, root, v);
  }

  /** Range mapping is exact: every byte of the range translates to the physical base plus
      the same offset, however the page sizes are mixed, and no other page of any space
      changes. */
  lemma {:induction false} ExactWhenFits(m: Machine, places: map<nat, Place>, lo: nat, root: nat,
                     virt: nat, phys: nat, size: nat, flags: Flags)
    requires Forest(m, places, lo) && IsRoot(places, root)
    requires Aligned(virt, phys, 0) && virt + size <= CANONICAL && virt / 0x80_0000_0000 >= lo && !flags.huge
    requires NoConflict(m, root, lo, virt, phys, size, 0)
    requires RangeFits(m, root, virt, phys, size, flags, 0)
    ensures var n := MapRange(m, root, virt, phys, size, flags, 0);
      && (forall off :: 0 <= off < size ==> Translates(n, root, virt, phys, flags, off))
      && (forall r, p :: IsRoot(places, r) && PrivatePath(p, lo) && !(r == root && InRange(virt, size, 0, PageOf(p))) ==>
            Lookup(n, r, p) == Lookup(m, r, p))
  {
    var n := MapRange(m, root, virt, phys, size, flags, 0);
    var places' := RangeUpdates(m, places, lo, root, virt, phys, size, flags, 0);
    forall off | 0 <= off < size
      ensures Translates(n, root, virt, phys, flags, off)
    {
      ByteTranslates(m, n, places, places', lo, root, virt, phys, size, flags, off);
    }
  }

  lemma ByteArithmetic(virt: nat, phys: nat, off: nat)
    requires virt % PAGE_SIZE == 0 && phys % PAGE_SIZE == 0
    ensures var v := virt + off;
      && virt <= v / PAGE_SIZE * PAGE_SIZE <= v
      && (phys + (v / PAGE_SIZE * PAGE_SIZE - virt)) / PAGE_SIZE * PAGE_SIZE + v % PAGE_SIZE == phys + off
  {
    var a, b := virt / PAGE_SIZE, phys / PAGE_SIZE;
    assert virt == a * PAGE_SIZE && phys == b * PAGE_SIZE;
    var v := virt + off;
    assert v / PAGE_SIZE == a + off / PAGE_SIZE && v % PAGE_SIZE == off % PAGE_SIZE;
    assert phys + (v / PAGE_SIZE * PAGE_SIZE - virt) == (b + off / PAGE_SIZE) * PAGE_SIZE;
  }
}
