/** How many frames vmm_map_range needs, counted before it starts (src/kernel/vmm.c). */
module RangeFrames {
  import opened Common
  import opened Frames
  import opened PageTables
  import opened RangeMapping

  /** The tables one step of the loop goes through, as the indices of the last of them. */
  function StepPath(virt: nat, phys: nat, size: nat, flags: Flags, i: nat): seq<nat>
    requires i < size
  {
    Path(virt + i)[..LeafDepth(StepFlags(virt, phys, size, flags, i))]
  }

  /** The same for every step from offset i on; no machine is needed to tell. */
  function StepPaths(virt: nat, phys: nat, size: nat, flags: Flags, i: nat): seq<seq<nat>>
    decreases size - i
  {
    if i >= size then []
    else [StepPath(virt, phys, size, flags, i)] + StepPaths(virt, phys, size, flags, i + StepSize(virt, phys, size, i))
  }

  // ---------------------------------------------------------------- counting the missing tables

  /** The tables missing on the way along q, each named by the indices that lead to it. */
  ghost function MissingOn(m: Machine, root: nat, q: seq<nat>): set<seq<nat>> {
    set k | 1 <= k <= |q| && Follow(m, root, q[..k]).None? :: q[..k]
  }

  /** The tables missing on the way along any of qs. */
  ghost function MissingAll(m: Machine, root: nat, qs: seq<seq<nat>>): set<seq<nat>>
    decreases |qs|
  {
    if qs == [] then {} else MissingOn(m, root, qs[0]) + MissingAll(m, root, qs[1..])
  }

  /** The prefixes of q longer than j. */
  ghost function Prefixes(q: seq<nat>, j: nat): (s: set<seq<nat>>)
    requires j <= |q|
    ensures |s| == |q| - j
    ensures forall r :: r in s <==> r <= q && |r| > j
    decreases |q| - j
  {
    if j == |q| then {}
    else
      assert forall r :: r <= q && |r| == j + 1 ==> r == q[..j + 1];
      Prefixes(q, j + 1) + {q[..j + 1]}
  }

  lemma {:induction false} MissingOnMembers(m: Machine, root: nat, q: seq<nat>, r: seq<nat>)
    ensures r in MissingOn(m, root, q) <==> r <= q && r != [] && Follow(m, root, r).None?
  {
    if r <= q { assert r == q[..|r|]; }
  }

  lemma {:induction false} MissingOnCount(m: Machine, root: nat, q: seq<nat>)
    ensures |MissingOn(m, root, q)| == Missing(m, root, q)
  {
    MissingWhere(m, root, q, 0);
    var some := Prefixes(q, |q| - Missing(m, root, q));
    forall r ensures r in MissingOn(m, root, q) <==> r in some {
      MissingOnMembers(m, root, q, r);
      if r <= q {
        assert r == q[..|r|];
        MissingWhere(m, root, q, |r|);
      }
    }
    assert MissingOn(m, root, q) == some;
  }

  /** From m to m1 exactly the tables along q came to be, as far as qs can tell. */
  ghost predicate Made(m: Machine, m1: Machine, root: nat, q: seq<nat>, qs: seq<seq<nat>>) {
    forall k {:trigger qs[k]} :: 0 <= k < |qs| ==> MadeOn(m, m1, root, q, qs[k])
  }

  ghost predicate MadeOn(m: Machine, m1: Machine, root: nat, q: seq<nat>, along: seq<nat>) {
    forall r :: r <= along ==> (Follow(m1, root, r).Some? <==> Follow(m, root, r).Some? || r <= q)
  }

  lemma {:induction false} MadeMissing(m: Machine, m1: Machine, root: nat, q: seq<nat>, qs: seq<seq<nat>>)
    requires Made(m, m1, root, q, qs)
    ensures MissingAll(m1, root, qs) == MissingAll(m, root, qs) - MissingOn(m, root, q)
    decreases |qs|
  {
    if qs != [] {
      assert forall k :: 0 <= k < |qs| - 1 ==> qs[1..][k] == qs[k + 1];
      MadeMissing(m, m1, root, q, qs[1..]);
      forall r ensures r in MissingOn(m1, root, qs[0]) <==> r in MissingOn(m, root, qs[0]) && r !in MissingOn(m, root, q) {
        MissingOnMembers(m1, root, qs[0], r);
        MissingOnMembers(m, root, qs[0], r);
        MissingOnMembers(m, root, q, r);
        assert MadeOn(m, m1, root, q, qs[0]);
      }
    }
  }

  lemma UnionSize<T>(a: set<T>, b: set<T>)
    ensures |a + b| == |a| + |b - a|
  {
    assert a + b == a + (b - a);
  }

  /** A first step that needs the tables along q, and then steps that need those along qs. */
  lemma {:induction false} FirstAndRest(m: Machine, m1: Machine, root: nat, q: seq<nat>, qs: seq<seq<nat>>)
    requires Missing(m, root, q) <= |m.pool.free| ==>
      Made(m, m1, root, q, qs) && |m1.pool.free| == |m.pool.free| - Missing(m, root, q)
    ensures |MissingAll(m, root, [q] + qs)| <= |m.pool.free| <==>
      Missing(m, root, q) <= |m.pool.free| && |MissingAll(m1, root, qs)| <= |m1.pool.free|
  {
    assert ([q] + qs)[1..] == qs;
    MissingOnCount(m, root, q);
    UnionSize(MissingOn(m, root, q), MissingAll(m, root, qs));
    if Missing(m, root, q) <= |m.pool.free| { MadeMissing(m, m1, root, q, qs); }
  }

  // ---------------------------------------------------------------- what one call does to the tables there are

  /** Writing one slot changes only what is followed through it. */
  lemma {:induction false} FollowFrame(m: Machine, n: Machine, places: map<nat, Place>, lo: nat, t0: nat, i0: nat,
                                       u: nat, r: seq<nat>)
    requires Forest(m, places, lo) && SameBut(m, n, places, t0, i0)
    requires t0 in places && Chainable(places, lo, u, r)
    requires !(places[t0].root == places[u].root && places[t0].path + [i0] <= places[u].path + r)
    ensures Follow(n, u, r) == Follow(m, u, r)
    decreases |r|
  {
    if r != [] {
      var e := Ent(m, u, r[0]);
      assert places[u].path + r == places[u].path + [r[0]] + r[1..];
      assert Ent(n, u, r[0]) == e;
      if HasTable(places, u, e) {
        assert TableOk(m, places, lo, u) && SlotOk(m, places, u, r[0]);
        FollowFrame(m, n, places, lo, t0, i0, e.frame, r[1..]);
      } else if e.flags.present {
        assert r[1..] == [];
      }
    }
  }

  lemma {:induction false} FollowLinked(m: Machine, depth: nat, t: nat, q: seq<nat>, u: nat, rest: seq<nat>)
    requires LinksTo(m, depth, t, q, u)
    ensures Follow(m, t, q + rest) == Follow(m, u, rest)
    decreases |q|
  {
    if q == [] {
      assert q + rest == rest;
    } else {
      FollowLinked(m, depth + 1, Ent(m, t, q[0]).frame, q[1..], u, rest);
      assert (q + rest)[1..] == q[1..] + rest;
    }
  }

  lemma {:induction false} LinksExtend(m: Machine, depth: nat, t: nat, q: seq<nat>, u: nat, i: nat, c: nat)
    requires LinksTo(m, depth, t, q, u) && Next(m, u, i) == Some(c) && !(depth + |q| == 2 && Ent(m, u, i).flags.huge)
    ensures LinksTo(m, depth, t, q + [i], c)
    decreases |q|
  {
    if q == [] {
      assert q + [i] == [i] && [i][1..] == [];
    } else {
      LinksExtend(m, depth + 1, Ent(m, t, q[0]).frame, q[1..], u, i, c);
      assert (q + [i])[1..] == q[1..] + [i];
    }
  }

  /** Ensuring one table makes exactly that table followable. */
  lemma {:induction false} NextFollow(m: Machine, places: map<nat, Place>, places1: map<nat, Place>, lo: nat,
                                      root: nat, p: seq<nat>,
                   t: nat, i: nat, c: nat, n: Machine, r: seq<nat>)
    requires Forest(m, places, lo) && IsRoot(places, root) && Chainable(places, lo, root, p) && |p| < 3 && i < ENTRIES
    requires t in places && places[t] == Place(root, p) && LinksTo(m, 0, root, p, t) && Private(places, lo, t, i)
    requires !(|p| == 2 && Ent(m, t, i).flags.huge)
    requires EnsureNext(m, t, i) == (Some(c), n) && NextMade(m, n, places, places1, lo, t, i, Some(c))
    requires Chainable(places, lo, root, r)
    ensures Follow(n, root, r).Some? <==> Follow(m, root, r).Some? || r == p + [i]
    ensures LinksTo(n, 0, root, p + [i], c)
  {
    assert TableOk(m, places, lo, root) && TableOk(m, places, lo, t);
    LinksKept(m, n, places, lo, root, p, t);
    LinksExtend(n, 0, root, p, t, i, c);
    if p + [i] <= r {
      ThroughNext(m, root, p, t, i, c, n, r);
    } else {
      assert places[root].path + r == r;
      FollowFrame(m, n, places, lo, t, i, root, r);
    }
  }

  lemma {:induction false} ThroughNext(m: Machine, root: nat, p: seq<nat>, t: nat, i: nat, c: nat, n: Machine, r: seq<nat>)
    requires LinksTo(m, 0, root, p, t) && LinksTo(n, 0, root, p, t) && EnsureNext(m, t, i) == (Some(c), n)
    requires Wf(m.pool) && t !in m.pool.free && i < ENTRIES && p + [i] <= r && Next(n, t, i) == Some(c)
    ensures Follow(n, root, r).Some? <==> Follow(m, root, r).Some? || r == p + [i]
  {
    var rest := r[|p| + 1..];
    var down := [i] + rest;
    assert r == p + down && down[1..] == rest && (rest == [] <==> r == p + [i]);
    FollowLinked(m, 0, root, p, t, down);
    FollowLinked(n, 0, root, p, t, down);
    if Next(m, t, i).None? { NewTableEmpty(m, t, i, c, n, rest); }
  }

  lemma {:induction false} NewTableEmpty(m: Machine, t: nat, i: nat, c: nat, n: Machine, rest: seq<nat>)
    requires Next(m, t, i).None? && EnsureNext(m, t, i) == (Some(c), n) && Wf(m.pool) && t !in m.pool.free && i < ENTRIES
    ensures Follow(n, c, rest).Some? <==> rest == []
  {
    if rest != [] { assert Ent(n, c, rest[0]) == EMPTY; }
  }

  /** Table t is at the end of the chain p from the root. */
  ghost predicate AtEnd(m: Machine, places: map<nat, Place>, lo: nat, root: nat, p: seq<nat>, t: nat) {
    && Forest(m, places, lo) && IsRoot(places, root) && Chainable(places, lo, root, p)
    && t in places && places[t] == Place(root, p) && LinksTo(m, 0, root, p, t)
  }

  /** One table further along the chain. */
  lemma NextEnd(m: Machine, places: map<nat, Place>, lo: nat, root: nat, p: seq<nat>, t: nat, q: seq<nat>, r: seq<nat>,
                c: nat, m1: Machine) returns (places1: map<nat, Place>)
    requires AtEnd(m, places, lo, root, p, t) && q != [] && Chainable(places, lo, t, q) && NoHugeOn(m, |p|, t, q)
    requires EnsureNext(m, t, q[0]) == (Some(c), m1) && Chainable(places, lo, root, r)
    ensures AtEnd(m1, places1, lo, root, p + [q[0]], c)
    ensures Chainable(places1, lo, c, q[1..]) && NoHugeOn(m1, |p| + 1, c, q[1..]) && Chainable(places1, lo, root, r)
    ensures Follow(m1, root, r).Some? <==> Follow(m, root, r).Some? || r == p + [q[0]]
    ensures |m1.pool.free| - Missing(m1, c, q[1..]) == |m.pool.free| - Missing(m, t, q)
  {
    assert TableOk(m, places, lo, t) && SlotOk(m, places, t, q[0]) && TableOk(m, places, lo, root);
    places1 := EnsureNextKeeps(m, places, lo, t, q[0]);
    NextFollow(m, places, places1, lo, root, p, t, q[0], c, m1, r);
    FirstLink(m, |p|, t, q);
  }

  /** Ensuring a chain makes exactly its tables followable, and takes one frame for each that was
      missing. */
  lemma {:induction false} ChainFollow(m: Machine, places: map<nat, Place>, lo: nat, root: nat, p: seq<nat>,
                                       t: nat, q: seq<nat>, r: seq<nat>)
    requires AtEnd(m, places, lo, root, p, t)
    requires Chainable(places, lo, t, q) && NoHugeOn(m, |p|, t, q) && EnsureChain(m, t, q).0.Some?
    requires Chainable(places, lo, root, r)
    ensures var n := EnsureChain(m, t, q).1;
      && (Follow(n, root, r).Some? <==> Follow(m, root, r).Some? || r <= p + q)
      && |n.pool.free| == |m.pool.free| - Missing(m, t, q)
    decreases |q|
  {
    if q == [] {
      assert p + q == p;
      if r <= p {
        assert r == p[..|r|];
        LinkedPrefix(m, 0, root, p, t, |r|);
      }
    } else {
      hide AtEnd, Chainable, NoHugeOn, Follow, Missing, EnsureNext;
      ChainStep(m, t, q);
      var (c, m1) := EnsureNext(m, t, q[0]);
      var places1 := NextEnd(m, places, lo, root, p, t, q, r, c.value, m1);
      assert (p + [q[0]]) + q[1..] == p + q;
      ChainFollow(m1, places1, lo, root, p + [q[0]], c.value, q[1..], r);
    }
  }

  lemma {:induction false} LinkedPrefix(m: Machine, depth: nat, t: nat, q: seq<nat>, u: nat, k: nat)
    requires LinksTo(m, depth, t, q, u) && k <= |q|
    ensures Follow(m, t, q[..k]).Some?
    decreases |q|
  {
    if k > 0 {
      assert q[..k][1..] == q[1..][..k - 1];
      LinkedPrefix(m, depth + 1, Ent(m, t, q[0]).frame, q[1..], u, k - 1);
    }
  }

  lemma NotThrough(path: seq<nat>, d: nat, r: seq<nat>)
    requires |path| == 4 && 2 <= d <= 3 && |r| <= 3 && (d == 2 ==> r != path[..3])
    ensures !(path[..d + 1] <= r)
  {
    assert |r| == 3 && path[..3] <= r ==> r == path[..3];
  }

  /** One vmm_map call that finds its frames makes exactly the tables on its way. */
  lemma {:induction false} MapFollow(m: Machine, places: map<nat, Place>, lo: nat, root: nat, v: nat, phys: nat,
                                     flags: Flags, r: seq<nat>)
    requires Forest(m, places, lo) && IsRoot(places, root) && PrivatePath(Path(v), lo)
    requires (flags.huge || !HugeAt(m, root, Path(v))) && Fits(m, root, v, flags)
    requires Chainable(places, lo, root, r) && (flags.huge ==> r != Path(v)[..3])
    ensures var n := Map(m, root, v, phys, flags);
      && (Follow(n, root, r).Some? <==> Follow(m, root, r).Some? || r <= Path(v)[..LeafDepth(flags)])
      && |n.pool.free| == |m.pool.free| - Missing(m, root, Path(v)[..LeafDepth(flags)])
  {
    var path, d := Path(v), LeafDepth(flags);
    MapIsChain(m, root, v, phys, flags);
    HugeAtSlot(m, root, path);
    UpperLevelsNotHuge(m, root, path);
    ChainThenLeaf(m, places, lo, root, path, d, LeafFor(phys, flags), r);
  }

  lemma {:induction false} ChainThenLeaf(m: Machine, places: map<nat, Place>, lo: nat, root: nat, path: seq<nat>,
                                         d: nat, e: Pte, r: seq<nat>)
    requires Forest(m, places, lo) && IsRoot(places, root) && PrivatePath(path, lo) && 2 <= d <= 3
    requires NoHugeOn(m, 0, root, path[..d]) && Missing(m, root, path[..d]) <= |m.pool.free|
    requires e.flags.present && (d == 2 ==> e.flags.huge)
    requires Chainable(places, lo, root, r) && (d == 2 ==> r != path[..3])
    ensures EnsureChain(m, root, path[..d]).0.Some?
    ensures var (t, n) := EnsureChain(m, root, path[..d]);
      && (Follow(SetEnt(n, t.value, path[d], e), root, r).Some? <==> Follow(m, root, r).Some? || r <= path[..d])
      && |n.pool.free| == |m.pool.free| - Missing(m, root, path[..d])
  {
    hide NoHugeOn, Follow, Missing, EnsureChain;
    assert TableOk(m, places, lo, root);
    var places' := EnsureChainKeeps(m, places, lo, root, path[..d]);
    assert [] + path[..d] == path[..d];
    AtRoot(m, places, lo, root);
    ChainFollow(m, places, lo, root, [], root, path[..d], r);
    NotThrough(path, d, r);
    var (t, n) := EnsureChain(m, root, path[..d]);
    LeafFollow(n, places', lo, root, t.value, path, d, e, r);
  }

  lemma AtRoot(m: Machine, places: map<nat, Place>, lo: nat, root: nat)
    requires Forest(m, places, lo) && IsRoot(places, root)
    ensures AtEnd(m, places, lo, root, [], root)
  {
    assert TableOk(m, places, lo, root);
  }

  lemma {:induction false} LeafFollow(n: Machine, places: map<nat, Place>, lo: nat, root: nat, t: nat, path: seq<nat>,
                                      d: nat, e: Pte, r: seq<nat>)
    requires Forest(n, places, lo) && IsRoot(places, root) && IsPath(path) && 2 <= d <= 3 && path[0] >= lo
    requires t in places && places[t] == Place(root, path[..d]) && e.flags.present && !HasTable(places, t, e)
    requires Chainable(places, lo, root, r) && !(path[..d + 1] <= r)
    ensures Follow(SetEnt(n, t, path[d], e), root, r) == Follow(n, root, r)
  {
    SetLeafKeepsForest(n, places, lo, t, path[d], e);
    assert TableOk(n, places, lo, root);
    assert path[..d] + [path[d]] == path[..d + 1] && places[root].path + r == r;
    FollowFrame(n, SetEnt(n, t, path[d], e), places, lo, t, path[d], root, r);
  }

  // ---------------------------------------------------------------- the whole range

  /** One step that finds its frames, as seen by any other step it does not overwrite. */
  lemma StepMakes(m: Machine, places: map<nat, Place>, lo: nat, root: nat, v: nat, phys: nat, f: Flags, v': nat, d: nat)
    requires Forest(m, places, lo) && IsRoot(places, root) && PrivatePath(Path(v), lo) && PrivatePath(Path(v'), lo)
    requires (f.huge || !HugeAt(m, root, Path(v))) && Fits(m, root, v, f)
    requires d <= 3 && (f.huge ==> Path(v')[..3] != Path(v)[..3])
    ensures MadeOn(m, Map(m, root, v, phys, f), root, Path(v)[..LeafDepth(f)], Path(v')[..d])
  {
    var n := Map(m, root, v, phys, f);
    assert TableOk(m, places, lo, root);
    forall r | r <= Path(v')[..d]
      ensures Follow(n, root, r).Some? <==> Follow(m, root, r).Some? || r <= Path(v)[..LeafDepth(f)]
    {
      assert r == Path(v')[..|r|];
      MapFollow(m, places, lo, root, v, phys, f, r);
    }
  }

  lemma LaterIsElsewhere(virt: nat, phys: nat, size: nat, i: nat, j: nat)
    requires Aligned(virt, phys, i) && i < size && HugeStep(virt, phys, size, i)
    requires i + HUGE_SIZE <= j < size && virt + size <= CANONICAL
    ensures Path(virt + j)[..3] != Path(virt + i)[..3]
  {
    var v, v', flags := virt + i, virt + j, LINK.(huge := true);
    PathRoundTrip(v');
    StepCovers(v, flags, Path(v'));
    assert v' / PAGE_SIZE / ENTRIES == v' / HUGE_SIZE;
    assert v == v / HUGE_SIZE * HUGE_SIZE;
  }

  ghost predicate Ready(m: Machine, places: map<nat, Place>, lo: nat, root: nat, virt: nat, phys: nat, size: nat, flags: Flags, i: nat) {
    && Forest(m, places, lo) && IsRoot(places, root)
    && Aligned(virt, phys, i) && virt + size <= CANONICAL && virt / 0x80_0000_0000 >= lo && !flags.huge
    && NoConflict(m, root, lo, virt, phys, size, i)
  }

  lemma PrivateAt(lo: nat, virt: nat, size: nat, j: nat)
    requires virt + size <= CANONICAL && virt / 0x80_0000_0000 >= lo && j < size
    ensures PrivatePath(Path(virt + j), lo)
  {
    PathRoundTrip(virt + j);
    assert (virt + j) / 0x80_0000_0000 >= virt / 0x80_0000_0000;
  }

  lemma StepMakesOne(m: Machine, m1: Machine, places: map<nat, Place>, lo: nat, root: nat,
                     virt: nat, phys: nat, size: nat, flags: Flags, i: nat, j: nat)
    requires Ready(m, places, lo, root, virt, phys, size, flags, i) && i < size
    requires Fits(m, root, virt + i, StepFlags(virt, phys, size, flags, i))
    requires m1 == Map(m, root, virt + i, phys + i, StepFlags(virt, phys, size, flags, i))
    requires i + StepSize(virt, phys, size, i) <= j < size
    ensures MadeOn(m, m1, root, StepPath(virt, phys, size, flags, i), StepPath(virt, phys, size, flags, j))
  {
    var f := StepFlags(virt, phys, size, flags, i);
    StepReady(m, places, lo, root, virt, phys, size, flags, i);
    PrivateAt(lo, virt, size, j);
    if HugeStep(virt, phys, size, i) { LaterIsElsewhere(virt, phys, size, i, j); }
    StepMakes(m, places, lo, root, virt + i, phys + i, f, virt + j, LeafDepth(StepFlags(virt, phys, size, flags, j)));
  }

  lemma {:induction false} StepMakesLater(m: Machine, m1: Machine, places: map<nat, Place>, lo: nat, root: nat,
                                          virt: nat, phys: nat, size: nat, flags: Flags, i: nat, j: nat)
    requires Ready(m, places, lo, root, virt, phys, size, flags, i) && i < size
    requires Fits(m, root, virt + i, StepFlags(virt, phys, size, flags, i))
    requires m1 == Map(m, root, virt + i, phys + i, StepFlags(virt, phys, size, flags, i))
    requires j >= i + StepSize(virt, phys, size, i)
    ensures Made(m, m1, root, StepPath(virt, phys, size, flags, i), StepPaths(virt, phys, size, flags, j))
    decreases size - j
  {
    if j < size {
      StepMakesOne(m, m1, places, lo, root, virt, phys, size, flags, i, j);
      StepMakesLater(m, m1, places, lo, root, virt, phys, size, flags, i, j + StepSize(virt, phys, size, j));
      MadeCons(m, m1, root, StepPath(virt, phys, size, flags, i),
               StepPath(virt, phys, size, flags, j), StepPaths(virt, phys, size, flags, j + StepSize(virt, phys, size, j)));
    }
  }

  lemma MadeCons(m: Machine, m1: Machine, root: nat, q: seq<nat>, first: seq<nat>, rest: seq<seq<nat>>)
    requires MadeOn(m, m1, root, q, first) && Made(m, m1, root, q, rest)
    ensures Made(m, m1, root, q, [first] + rest)
  {
  }

  /** The loop finds every frame it needs if and only if there is one, before it starts, for each
      table missing anywhere along the range. */
  lemma {:induction false} FramesDecide(m: Machine, places: map<nat, Place>, lo: nat, root: nat,
                                        virt: nat, phys: nat, size: nat, flags: Flags, i: nat)
    requires Ready(m, places, lo, root, virt, phys, size, flags, i)
    ensures RangeFits(m, root, virt, phys, size, flags, i) <==>
      |MissingAll(m, root, StepPaths(virt, phys, size, flags, i))| <= |m.pool.free|
    decreases size - i
  {
    if i < size {
      var next := i + StepSize(virt, phys, size, i);
      var m1 := Map(m, root, virt + i, phys + i, StepFlags(virt, phys, size, flags, i));
      var q, qs := StepPath(virt, phys, size, flags, i), StepPaths(virt, phys, size, flags, next);
      var places1 := TakeStep(m, m1, places, lo, root, virt, phys, size, flags, i, q, qs);
      if Missing(m, root, q) <= |m.pool.free| {
        FramesDecide(m1, places1, lo, root, virt, phys, size, flags, next);
      }
      FirstAndRest(m, m1, root, q, qs);
      assert StepPaths(virt, phys, size, flags, i) == [q] + qs;
    }
  }

  lemma TakeStep(m: Machine, m1: Machine, places: map<nat, Place>, lo: nat, root: nat,
                 virt: nat, phys: nat, size: nat, flags: Flags, i: nat, q: seq<nat>, qs: seq<seq<nat>>)
      returns (places1: map<nat, Place>)
    requires Ready(m, places, lo, root, virt, phys, size, flags, i) && i < size
    requires m1 == Map(m, root, virt + i, phys + i, StepFlags(virt, phys, size, flags, i))
    requires q == StepPath(virt, phys, size, flags, i)
    requires qs == StepPaths(virt, phys, size, flags, i + StepSize(virt, phys, size, i))
    ensures RangeFits(m, root, virt, phys, size, flags, i) <==>
      Missing(m, root, q) <= |m.pool.free| && RangeFits(m1, root, virt, phys, size, flags, i + StepSize(virt, phys, size, i))
    ensures Missing(m, root, q) <= |m.pool.free| ==>
      && Ready(m1, places1, lo, root, virt, phys, size, flags, i + StepSize(virt, phys, size, i))
      && Made(m, m1, root, q, qs) && |m1.pool.free| == |m.pool.free| - Missing(m, root, q)
  {
    places1 := places;
    RangeFitsStep(m, m1, root, virt, phys, size, flags, i);
    if Missing(m, root, q) <= |m.pool.free| {
      StepTakes(m, m1, places, lo, root, virt, phys, size, flags, i);
      places1 := Turn(m, m1, places, lo, root, virt, phys, size, flags, i);
    }
  }

  lemma {:induction false} StepTakes(m: Machine, m1: Machine, places: map<nat, Place>, lo: nat, root: nat,
                  virt: nat, phys: nat, size: nat, flags: Flags, i: nat)
    requires Ready(m, places, lo, root, virt, phys, size, flags, i) && i < size
    requires Fits(m, root, virt + i, StepFlags(virt, phys, size, flags, i))
    requires m1 == Map(m, root, virt + i, phys + i, StepFlags(virt, phys, size, flags, i))
    ensures Made(m, m1, root, StepPath(virt, phys, size, flags, i),
                 StepPaths(virt, phys, size, flags, i + StepSize(virt, phys, size, i)))
    ensures |m1.pool.free| == |m.pool.free| - Missing(m, root, StepPath(virt, phys, size, flags, i))
  {
    StepReady(m, places, lo, root, virt, phys, size, flags, i);
    StepMakesLater(m, m1, places, lo, root, virt, phys, size, flags, i, i + StepSize(virt, phys, size, i));
    FramesTaken(m, places, lo, root, virt + i, phys + i, StepFlags(virt, phys, size, flags, i));
  }

  lemma RangeFitsStep(m: Machine, m1: Machine, root: nat, virt: nat, phys: nat, size: nat, flags: Flags, i: nat)
    requires i < size && m1 == Map(m, root, virt + i, phys + i, StepFlags(virt, phys, size, flags, i))
    ensures RangeFits(m, root, virt, phys, size, flags, i) <==>
      && Fits(m, root, virt + i, StepFlags(virt, phys, size, flags, i))
      && RangeFits(m1, root, virt, phys, size, flags, i + StepSize(virt, phys, size, i))
  {
  }

  lemma {:induction false} FramesTaken(m: Machine, places: map<nat, Place>, lo: nat, root: nat, v: nat, phys: nat, f: Flags)
    requires Forest(m, places, lo) && IsRoot(places, root) && PrivatePath(Path(v), lo)
    requires (f.huge || !HugeAt(m, root, Path(v))) && Fits(m, root, v, f)
    ensures |Map(m, root, v, phys, f).pool.free| == |m.pool.free| - Missing(m, root, Path(v)[..LeafDepth(f)])
  {
    assert TableOk(m, places, lo, root);
    MapFollow(m, places, lo, root, v, phys, f, []);
  }

  /** Range mapping is exact: with a free frame for every missing table, every byte of the range
      translates to the physical base plus the same offset, however the page sizes are mixed,
      and no other page of any space changes. */
  lemma {:induction false} RangeIsExact(m: Machine, places: map<nat, Place>, lo: nat, root: nat, virt: nat, phys: nat,
                                        size: nat, flags: Flags)
    requires Ready(m, places, lo, root, virt, phys, size, flags, 0)
    requires |MissingAll(m, root, StepPaths(virt, phys, size, flags, 0))| <= |m.pool.free|
    ensures var n := MapRange(m, root, virt, phys, size, flags, 0);
      && (forall off :: 0 <= off < size ==> Translates(n, root, virt, phys, flags, off))
      && (forall r, p :: IsRoot(places, r) && PrivatePath(p, lo) && !(r == root && InRange(virt, size, 0, PageOf(p))) ==>
            Lookup(n, r, p) == Lookup(m, r, p))
  {
    FramesDecide(m, places, lo, root, virt, phys, size, flags, 0);
    ExactWhenFits(m, places, lo, root, virt, phys, size, flags);
  }
}
