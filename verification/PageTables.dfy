/** Four-level page tables in physical memory (src/kernel/vmm.c): the walk, table creation,
    mapping, unmapping and lookup, and the proof that on a well-formed forest of tables they
    act as operations on one flat map per address space. */
module PageTables {
  import opened Common
  import opened Frames

  const ENTRIES: nat := 512
  const HUGE_SIZE: nat := 0x20_0000

  // ---------------------------------------------------------------- memory

  /** The low twelve bits of an entry; `rest` stands for the bits the kernel never tests. */
  datatype Flags = Flags(present: bool, writable: bool, user: bool, huge: bool, cow: bool, rest: nat)

  datatype Pte = Pte(frame: nat, flags: Flags)

  const EMPTY: Pte := Pte(0, Flags(false, false, false, false, false, 0))
  const LINK: Flags := Flags(true, true, true, false, false, 0)

  /** A frame holds either a table or page data, whichever was last written to it. */
  datatype Content = Table(entries: seq<Pte>) | Data(bytes: seq<int>)

  datatype Machine = Machine(mem: map<nat, Content>, pool: Pool)

  predicate IsTable(m: Machine, t: nat) {
    t in m.mem && m.mem[t].Table? && |m.mem[t].entries| == ENTRIES
  }

  function Ent(m: Machine, t: nat, i: nat): Pte {
    if IsTable(m, t) && i < ENTRIES then m.mem[t].entries[i] else EMPTY
  }

  function SetEnt(m: Machine, t: nat, i: nat, e: Pte): Machine {
    if IsTable(m, t) && i < ENTRIES then m.(mem := m.mem[t := Table(m.mem[t].entries[i := e])]) else m
  }

  /** An entry that lets user code through, for loads and stores. */
  predicate Grants(f: Flags) {
    f.present && f.writable && f.user
  }

  /** An entry for a further table: present, writable, user, and no other bit. */
  predicate LinkBits(f: Flags) {
    Grants(f) && !f.huge && !f.cow && f.rest == 0
  }

  function ZeroTable(): Content {
    Table(seq(ENTRIES, _ => EMPTY))
  }

  // ---------------------------------------------------------------- addresses

  /** PML4_INDEX, PDPT_INDEX, PD_INDEX and PT_INDEX of an address. */
  function Path(v: nat): seq<nat> {
    [v / 0x80_0000_0000 % ENTRIES, v / 0x4000_0000 % ENTRIES, v / HUGE_SIZE % ENTRIES, v / PAGE_SIZE % ENTRIES]
  }

  predicate IsPath(p: seq<nat>) {
    |p| == 4 && forall d :: 0 <= d < 4 ==> p[d] < ENTRIES
  }

  /** The page number the four indices spell, most significant first. */
  function PageOf(p: seq<nat>): nat
    requires |p| == 4
  {
    ((p[0] * ENTRIES + p[1]) * ENTRIES + p[2]) * ENTRIES + p[3]
  }

  /** The index fields decompose an address injectively: they spell bits 12 to 47 of it. */
  lemma PathSpellsPage(v: nat)
    ensures IsPath(Path(v))
    ensures PageOf(Path(v)) == v / PAGE_SIZE % 0x10_0000_0000
  {
    var n := v / PAGE_SIZE;
    assert v / HUGE_SIZE == n / ENTRIES;
    assert v / 0x4000_0000 == n / ENTRIES / ENTRIES;
    assert v / 0x80_0000_0000 == n / ENTRIES / ENTRIES / ENTRIES;
  }

  lemma PageDeterminesPath(p: seq<nat>, q: seq<nat>)
    requires IsPath(p) && IsPath(q)
    ensures PageOf(p) == PageOf(q) <==> p == q
  {
    if PageOf(p) == PageOf(q) {
      assert p == [p[0], p[1], p[2], p[3]] && q == [q[0], q[1], q[2], q[3]];
    }
  }

  /** Two addresses share all four indices exactly when they lie in one page, up to the
      sixteen address bits the hardware ignores. */
  lemma SamePath(v: nat, w: nat)
    ensures Path(v) == Path(w) <==> v / PAGE_SIZE % 0x10_0000_0000 == w / PAGE_SIZE % 0x10_0000_0000
  {
    PathSpellsPage(v);
    PathSpellsPage(w);
    PageDeterminesPath(Path(v), Path(w));
  }

  // ---------------------------------------------------------------- operations

  /** get_existing_table. */
  function Next(m: Machine, t: nat, i: nat): Option<nat> {
    if Ent(m, t, i).flags.present then Some(Ent(m, t, i).frame) else None
  }

  /** alloc_zeroed_table. */
  function NewTable(m: Machine): (Option<nat>, Machine) {
    var (f, pool) := Alloc(m.pool);
    if f.None? then (None, m) else (f, Machine(m.mem[f.value := ZeroTable()], pool))
  }

  /** ensure_next_table run alone; its interleavings are the subject of module TableRace. */
  function EnsureNext(m: Machine, t: nat, i: nat): (Option<nat>, Machine) {
    if Next(m, t, i).Some? then (Next(m, t, i), m)
    else
      var (f, n) := NewTable(m);
      if f.None? then (None, m) else (f, SetEnt(n, t, i, Pte(f.value, LINK)))
  }

  /** vmm_map. A huge mapping drops the low 21 bits of the physical address, any other the
      low 12; running out of frames half way leaves the tables made so far. */
  function Map(m: Machine, root: nat, v: nat, phys: nat, flags: Flags): Machine {
    var p := Path(v);
    var (pdpt, m1) := EnsureNext(m, root, p[0]);
    if pdpt.None? then m1 else
    var (pd, m2) := EnsureNext(m1, pdpt.value, p[1]);
    if pd.None? then m2 else
    if flags.huge then
      SetEnt(m2, pd.value, p[2], Pte(phys / HUGE_SIZE * ENTRIES, flags.(present := true)))
    else
      var (pt, m3) := EnsureNext(m2, pd.value, p[2]);
      if pt.None? then m3
      else SetEnt(m3, pt.value, p[3], Pte(phys / PAGE_SIZE, flags.(present := true)))
  }

  /** vmm_unmap. */
  function Unmap(m: Machine, root: nat, v: nat): Machine {
    var p := Path(v);
    var pdpt := Next(m, root, p[0]);
    if pdpt.None? then m else
    var pd := Next(m, pdpt.value, p[1]);
    if pd.None? then m else
    if Ent(m, pd.value, p[2]).flags.huge then SetEnt(m, pd.value, p[2], EMPTY)
    else
      var pt := Next(m, pd.value, p[2]);
      if pt.None? then m else SetEnt(m, pt.value, p[3], EMPTY)
  }

  /** vmm_get_phys; a miss on an upper level is reported as address 0. */
  function GetPhys(m: Machine, root: nat, v: nat): nat {
    var p := Path(v);
    var pdpt := Next(m, root, p[0]);
    if pdpt.None? then 0 else
    var pd := Next(m, pdpt.value, p[1]);
    if pd.None? then 0 else
    var e := Ent(m, pd.value, p[2]);
    if e.flags.huge then e.frame / ENTRIES * HUGE_SIZE + v % HUGE_SIZE
    else
      var pt := Next(m, pd.value, p[2]);
      if pt.None? then 0 else Ent(m, pt.value, p[3]).frame * PAGE_SIZE + v % PAGE_SIZE
  }

  /** vmm_get_flags. */
  function GetFlags(m: Machine, root: nat, v: nat): Flags {
    var p := Path(v);
    var pdpt := Next(m, root, p[0]);
    if pdpt.None? then EMPTY.flags else
    var pd := Next(m, pdpt.value, p[1]);
    if pd.None? then EMPTY.flags else
    var e := Ent(m, pd.value, p[2]);
    if e.flags.huge then e.flags
    else
      var pt := Next(m, pd.value, p[2]);
      if pt.None? then EMPTY.flags else Ent(m, pt.value, p[3]).flags
  }

  datatype Rights = Rights(writable: bool, user: bool)

  /** What the processor grants at the end of its walk: at every level on the way the entry
      must be present and grant it too. */
  function Effective(m: Machine, t: nat, q: seq<nat>): Rights
    requires |q| >= 1
    decreases |q|
  {
    var e := Ent(m, t, q[0]);
    if !e.flags.present then Rights(false, false)
    else if |q| == 1 || (|q| == 2 && e.flags.huge) then Rights(e.flags.writable, e.flags.user)
    else
      Both(e.flags, Effective(m, e.frame, q[1..]))
  }

  function Both(f: Flags, below: Rights): Rights {
    Rights(f.writable && below.writable, f.user && below.user)
  }

  // ---------------------------------------------------------------- the flat map

  /** What one page of one address space maps to. */
  datatype Mapping = Mapping(frame: nat, flags: Flags)

  /** The mapping found by following the indices q from table t; the length of q tells the
      level, and only a page directory (two indices left) may hold a huge page. */
  function LookupFrom(m: Machine, t: nat, q: seq<nat>): Option<Mapping>
    requires |q| >= 1
    decreases |q|
  {
    var e := Ent(m, t, q[0]);
    if |q| == 2 && e.flags.huge then Some(Mapping(e.frame / ENTRIES * ENTRIES + q[1], e.flags))
    else if !e.flags.present then None
    else if |q| == 1 then Some(Mapping(e.frame, e.flags))
    else LookupFrom(m, e.frame, q[1..])
  }

  /** The flat map of the space rooted at r. */
  function Lookup(m: Machine, r: nat, p: seq<nat>): Option<Mapping>
    requires |p| == 4
  {
    LookupFrom(m, r, p)
  }

  /** Where a table sits: which root it belongs to and the indices leading to it. */
  datatype Place = Place(root: nat, path: seq<nat>)

  /** Every table is reached in one way only. `places` names the place of each table; slots
      of a PML4 below `lo` are shared between spaces and are not looked at. */
  ghost predicate Forest(m: Machine, places: map<nat, Place>, lo: nat) {
    && Wf(m.pool)
    && (forall f :: f in m.pool.free ==> f !in places)
    && (forall t :: t in places ==> TableOk(m, places, lo, t))
  }

  ghost predicate TableOk(m: Machine, places: map<nat, Place>, lo: nat, t: nat)
    requires t in places
  {
    && IsTable(m, t)
    && |places[t].path| <= 3
    && (places[t].path == [] ==> places[t].root == t)
    && (places[t].path != [] ==> places[t].path[0] >= lo)
    && forall i :: 0 <= i < ENTRIES && Private(places, lo, t, i) ==> SlotOk(m, places, t, i)
  }

  ghost predicate Private(places: map<nat, Place>, lo: nat, t: nat, i: nat)
    requires t in places
  {
    places[t].path == [] ==> i >= lo
  }

  ghost predicate SlotOk(m: Machine, places: map<nat, Place>, t: nat, i: nat)
    requires t in places
  {
    var e := Ent(m, t, i);
    && (!e.flags.present ==> e == EMPTY)
    && (HasTable(places, t, e) ==>
          e.frame in places && places[e.frame] == Place(places[t].root, places[t].path + [i]))
  }

  /** Entry e of table t leads to a further table. */
  ghost predicate HasTable(places: map<nat, Place>, t: nat, e: Pte)
    requires t in places
  {
    |places[t].path| < 3 && e.flags.present && !(|places[t].path| == 2 && e.flags.huge)
  }

  ghost predicate IsRoot(places: map<nat, Place>, r: nat) {
    r in places && places[r].path == []
  }

  /** The places below lo are shared, so only paths from lo up are private to their space. */
  predicate PrivatePath(p: seq<nat>, lo: nat) {
    IsPath(p) && p[0] >= lo
  }

  /** m and n hold the same entries in all placed tables, except perhaps in one slot. */
  ghost predicate SameBut(m: Machine, n: Machine, places: map<nat, Place>, t0: nat, i0: nat) {
    forall t, i :: t in places && 0 <= i < ENTRIES && !(t == t0 && i == i0) ==> Ent(n, t, i) == Ent(m, t, i)
  }

  ghost predicate Walkable(places: map<nat, Place>, lo: nat, t: nat, q: seq<nat>) {
    && t in places
    && |q| >= 1 && |places[t].path| + |q| == 4
    && (forall d :: 0 <= d < |q| ==> q[d] < ENTRIES)
    && Private(places, lo, t, q[0])
  }

  /** Writing one slot of a table is seen only by the pages whose indices lead through it. */
  lemma {:induction false} SlotFrame(m: Machine, n: Machine, places: map<nat, Place>, lo: nat, t0: nat, i0: nat,
                                     t: nat, q: seq<nat>)
    requires Forest(m, places, lo) && SameBut(m, n, places, t0, i0)
    requires t0 in places && Walkable(places, lo, t, q)
    requires !(places[t0].root == places[t].root && places[t0].path + [i0] <= places[t].path + q)
    ensures LookupFrom(n, t, q) == LookupFrom(m, t, q)
    decreases |q|
  {
    var e := Ent(m, t, q[0]);
    assert places[t].path + q == places[t].path + [q[0]] + q[1..];
    assert Ent(n, t, q[0]) == e;
    if HasTable(places, t, e) {
      assert TableOk(m, places, lo, t) && SlotOk(m, places, t, q[0]);
      SlotFrame(m, n, places, lo, t0, i0, e.frame, q[1..]);
    }
  }

  /** Hanging a zeroed table into an empty slot changes no lookup. */
  lemma {:induction false} EmptyTableInvisible(m: Machine, n: Machine, places: map<nat, Place>, lo: nat,
                                               t0: nat, i0: nat, f: nat, t: nat, q: seq<nat>)
    requires Forest(m, places, lo) && SameBut(m, n, places, t0, i0)
    requires t0 in places && |places[t0].path| < 3 && Ent(m, t0, i0) == EMPTY && Ent(n, t0, i0) == Pte(f, LINK)
    requires forall i :: 0 <= i < ENTRIES ==> Ent(n, f, i) == EMPTY
    requires Walkable(places, lo, t, q)
    ensures LookupFrom(n, t, q) == LookupFrom(m, t, q)
    decreases |q|
  {
    var e := Ent(m, t, q[0]);
    if t == t0 && q[0] == i0 {
      assert Ent(n, f, q[1]) == EMPTY;
    } else if HasTable(places, t, e) {
      assert TableOk(m, places, lo, t) && SlotOk(m, places, t, q[0]);
      EmptyTableInvisible(m, n, places, lo, t0, i0, f, e.frame, q[1..]);
    }
  }

  /** A slot may be overwritten by nothing, by a leaf, or by a huge page. */
  lemma SetLeafKeepsForest(m: Machine, places: map<nat, Place>, lo: nat, t: nat, i: nat, e: Pte)
    requires Forest(m, places, lo) && t in places && i < ENTRIES
    requires e == EMPTY || (e.flags.present && !HasTable(places, t, e))
    ensures Forest(SetEnt(m, t, i, e), places, lo)
    ensures Ent(SetEnt(m, t, i, e), t, i) == e
    ensures SameBut(m, SetEnt(m, t, i, e), places, t, i)
  {
    var n := SetEnt(m, t, i, e);
    assert TableOk(m, places, lo, t);
    assert SameBut(m, n, places, t, i);
    forall u | u in places ensures TableOk(n, places, lo, u) {
      assert TableOk(m, places, lo, u);
      forall j | 0 <= j < ENTRIES && Private(places, lo, u, j) ensures SlotOk(n, places, u, j) {
        assert SlotOk(m, places, u, j);
      }
    }
  }

  lemma SetLeafGrants(m: Machine, places: map<nat, Place>, lo: nat, t: nat, i: nat, e: Pte)
    requires LinksGrant(m, places, lo) && t in places && SameBut(m, SetEnt(m, t, i, e), places, t, i)
    requires Ent(SetEnt(m, t, i, e), t, i) == e && !HasTable(places, t, e)
    ensures LinksGrant(SetEnt(m, t, i, e), places, lo)
  {
    forall u, j | u in places ensures LinkGrants(SetEnt(m, t, i, e), places, lo, u, j) {
      assert LinkGrants(m, places, lo, u, j);
    }
  }

  ghost predicate Extends(small: map<nat, Place>, big: map<nat, Place>) {
    forall t :: t in small ==> t in big && big[t] == small[t]
  }

  ghost predicate SameLookups(m: Machine, n: Machine, places: map<nat, Place>, lo: nat) {
    forall u, q :: Walkable(places, lo, u, q) ==> LookupFrom(n, u, q) == LookupFrom(m, u, q)
  }

  /** If slot i of table t leads to a further table, it lets user code through. */
  ghost predicate LinkGrants(m: Machine, places: map<nat, Place>, lo: nat, t: nat, i: nat)
    requires t in places
  {
    i < ENTRIES && Private(places, lo, t, i) && HasTable(places, t, Ent(m, t, i)) ==> Grants(Ent(m, t, i).flags)
  }

  ghost predicate LinksGrant(m: Machine, places: map<nat, Place>, lo: nat) {
    forall t, i {:trigger LinkGrants(m, places, lo, t, i)} :: t in places ==> LinkGrants(m, places, lo, t, i)
  }

  /** Slot i of table t leads to table r in machine n, made from m for that. */
  ghost predicate NextMade(m: Machine, n: Machine, places: map<nat, Place>, places': map<nat, Place>, lo: nat,
                           t: nat, i: nat, r: Option<nat>)
    requires t in places
  {
    && Forest(n, places', lo) && Extends(places, places')
    && (forall x :: IsRoot(places', x) <==> IsRoot(places, x))
    && (r.None? <==> Next(m, t, i).None? && m.pool.free == [])
    && (r.Some? ==> Ent(n, t, i).flags.present && !Ent(n, t, i).flags.huge == !Ent(m, t, i).flags.huge)
    && (r.Some? ==> Ent(n, t, i).frame == r.value && r.value in places'
                    && places'[r.value] == Place(places[t].root, places[t].path + [i]))
    && |n.pool.free| == |m.pool.free| - (if r.Some? && Next(m, t, i).None? then 1 else 0)
    && SameLookups(m, n, places, lo)
    && SameBut(m, n, places, t, i)
    && (r.Some? && Next(m, t, i).None? ==> LinkBits(Ent(n, t, i).flags))
    && (LinksGrant(m, places, lo) ==> LinksGrant(n, places', lo))
  }

  /** ensure_next_table keeps the forest and every lookup, and fails exactly when it needs a
      frame and the pool is empty. */
  lemma EnsureNextKeeps(m: Machine, places: map<nat, Place>, lo: nat, t: nat, i: nat)
      returns (places': map<nat, Place>)
    requires Forest(m, places, lo) && t in places && |places[t].path| < 3
    requires i < ENTRIES && Private(places, lo, t, i)
    requires !(|places[t].path| == 2 && Ent(m, t, i).flags.huge)
    ensures NextMade(m, EnsureNext(m, t, i).1, places, places', lo, t, i, EnsureNext(m, t, i).0)
  {
    assert TableOk(m, places, lo, t) && SlotOk(m, places, t, i);
    var (r, n) := EnsureNext(m, t, i);
    places' := places;
    if Next(m, t, i).None? && r.Some? {
      var f := r.value;
      assert f in m.pool.free && f !in places;
      places' := places[f := Place(places[t].root, places[t].path + [i])];
      assert Ent(n, t, i) == Pte(f, LINK);
      assert SameBut(m, n, places, t, i);
      InstallKeepsForest(m, n, places, lo, t, i, f);
      if LinksGrant(m, places, lo) { InstallGrants(m, n, places, lo, t, i, f); }
      forall u, q | Walkable(places, lo, u, q) ensures LookupFrom(n, u, q) == LookupFrom(m, u, q) {
        EmptyTableInvisible(m, n, places, lo, t, i, f, u, q);
      }
    }
  }

  lemma InstallGrants(m: Machine, n: Machine, places: map<nat, Place>, lo: nat, t: nat, i: nat, f: nat)
    requires t in places && f !in places && i < ENTRIES && LinksGrant(m, places, lo)
    requires SameBut(m, n, places, t, i) && Grants(Ent(n, t, i).flags)
    requires forall j :: 0 <= j < ENTRIES ==> Ent(n, f, j) == EMPTY
    ensures LinksGrant(n, places[f := Place(places[t].root, places[t].path + [i])], lo)
  {
    var places' := places[f := Place(places[t].root, places[t].path + [i])];
    forall u, j | u in places' ensures LinkGrants(n, places', lo, u, j) {
      if u in places { assert LinkGrants(m, places, lo, u, j); }
    }
  }

  lemma InstallKeepsForest(m: Machine, n: Machine, places: map<nat, Place>, lo: nat, t: nat, i: nat, f: nat)
    requires Forest(m, places, lo) && t in places && |places[t].path| < 3 && i < ENTRIES && Private(places, lo, t, i)
    requires Next(m, t, i).None? && EnsureNext(m, t, i) == (Some(f), n)
    requires f in m.pool.free && f !in places
    requires SameBut(m, n, places, t, i) && Ent(n, t, i) == Pte(f, LINK)
    ensures Forest(n, places[f := Place(places[t].root, places[t].path + [i])], lo)
  {
    var places' := places[f := Place(places[t].root, places[t].path + [i])];
    assert TableOk(m, places, lo, t);
    forall u | u in places' ensures TableOk(n, places', lo, u) {
      if u != f {
        assert TableOk(m, places, lo, u);
        forall j | 0 <= j < ENTRIES && Private(places', lo, u, j) ensures SlotOk(n, places', u, j) {
          assert Private(places, lo, u, j) && SlotOk(m, places, u, j);
        }
      }
    }
  }

  // ---------------------------------------------------------------- mapping

  /** Creating the tables along q one below the other, as vmm_map does. */
  function EnsureChain(m: Machine, t: nat, q: seq<nat>): (Option<nat>, Machine)
    decreases |q|
  {
    if q == [] then (Some(t), m)
    else
      var (c, n) := EnsureNext(m, t, q[0]);
      if c.None? then (None, n) else EnsureChain(n, c.value, q[1..])
  }

  /** How many tables are missing along q. */
  function Missing(m: Machine, t: nat, q: seq<nat>): nat
    decreases |q|
  {
    if q == [] then 0
    else if Next(m, t, q[0]).None? then |q|
    else Missing(m, Next(m, t, q[0]).value, q[1..])
  }

  /** No slot along q from a table at the given depth is a 2 MiB page. */
  predicate NoHugeOn(m: Machine, depth: nat, t: nat, q: seq<nat>)
    decreases |q|
  {
    q == [] ||
    (&& !(depth == 2 && Ent(m, t, q[0]).flags.huge)
     && (Next(m, t, q[0]).Some? ==> NoHugeOn(m, depth + 1, Next(m, t, q[0]).value, q[1..])))
  }

  /** Following q from t ends at table u. */
  predicate LinksTo(m: Machine, depth: nat, t: nat, q: seq<nat>, u: nat)
    decreases |q|
  {
    if q == [] then t == u
    else
      && Ent(m, t, q[0]).flags.present
      && !(depth == 2 && Ent(m, t, q[0]).flags.huge)
      && LinksTo(m, depth + 1, Ent(m, t, q[0]).frame, q[1..], u)
  }

  ghost predicate Chainable(places: map<nat, Place>, lo: nat, t: nat, q: seq<nat>) {
    && t in places
    && |places[t].path| + |q| <= 3
    && (forall d :: 0 <= d < |q| ==> q[d] < ENTRIES)
    && (q != [] ==> Private(places, lo, t, q[0]))
  }

  ghost predicate SameAbove(m: Machine, n: Machine, places: map<nat, Place>, depth: nat) {
    forall x, i :: x in places && |places[x].path| < depth && 0 <= i < ENTRIES ==> Ent(n, x, i) == Ent(m, x, i)
  }

  /** What making the first table of a chain leaves to be made below it. */
  lemma FirstLink(m: Machine, depth: nat, t: nat, q: seq<nat>)
    requires q != [] && IsTable(m, t) && q[0] < ENTRIES
    requires Wf(m.pool) && t !in m.pool.free
    requires EnsureNext(m, t, q[0]).0.Some?
    ensures var (c, m1) := EnsureNext(m, t, q[0]);
      && (NoHugeOn(m, depth, t, q) ==> NoHugeOn(m1, depth + 1, c.value, q[1..]))
      && Missing(m1, c.value, q[1..]) == if Next(m, t, q[0]).None? then |q| - 1 else Missing(m, t, q)
  {
    var (c, m1) := EnsureNext(m, t, q[0]);
    if Next(m, t, q[0]).None? && |q| > 1 {
      assert c.value != t;
      assert q[1] >= ENTRIES || Ent(m1, c.value, q[1]) == EMPTY;
    }
  }

  /** The chain of tables along q below t is in place: machine n, ending at table u. */
  ghost predicate Chained(m: Machine, n: Machine, places: map<nat, Place>, places': map<nat, Place>, lo: nat,
                          t: nat, q: seq<nat>, u: Option<nat>)
    requires t in places
  {
    && Forest(n, places', lo) && Extends(places, places')
    && (forall x :: IsRoot(places', x) <==> IsRoot(places, x))
    && (u.Some? <==> Missing(m, t, q) <= |m.pool.free|)
    && (u.Some? ==> u.value in places' && places'[u.value] == Place(places[t].root, places[t].path + q)
                    && LinksTo(n, |places[t].path|, t, q, u.value))
    && SameAbove(m, n, places, |places[t].path|)
    && SameLookups(m, n, places, lo)
    && (LinksGrant(m, places, lo) ==> LinksGrant(n, places', lo))
  }

  lemma SameLookupsTrans(a: Machine, b: Machine, c: Machine, small: map<nat, Place>, big: map<nat, Place>, lo: nat)
    requires Extends(small, big) && SameLookups(a, b, small, lo) && SameLookups(b, c, big, lo)
    ensures SameLookups(a, c, small, lo)
  {
    assert forall u, q :: Walkable(small, lo, u, q) ==> Walkable(big, lo, u, q);
  }

  /** A first link with the rest of the chain below it. */
  lemma {:induction false} ChainGrows(m: Machine, m1: Machine, n: Machine, places: map<nat, Place>, places1: map<nat, Place>,
                   places': map<nat, Place>, lo: nat, t: nat, q: seq<nat>, c: nat, u: Option<nat>)
    requires q != [] && Chainable(places, lo, t, q) && !(|places[t].path| == 2 && Ent(m, t, q[0]).flags.huge)
    requires NextMade(m, m1, places, places1, lo, t, q[0], Some(c)) && c in places1
    requires Chained(m1, n, places1, places', lo, c, q[1..], u)
    requires Missing(m1, c, q[1..]) == if Next(m, t, q[0]).None? then |q| - 1 else Missing(m, t, q)
    ensures Chained(m, n, places, places', lo, t, q, u)
  {
    assert places[t].path + q == places[t].path + [q[0]] + q[1..];
    SameLookupsTrans(m, m1, n, places, places1, lo);
    AboveKept(m, m1, n, places, places1, lo, t, q[0], c);
  }

  lemma AboveKept(m: Machine, m1: Machine, n: Machine, places: map<nat, Place>, places1: map<nat, Place>, lo: nat,
                  t: nat, i: nat, c: nat)
    requires t in places && i < ENTRIES && NextMade(m, m1, places, places1, lo, t, i, Some(c)) && c in places1
    requires SameAbove(m1, n, places1, |places1[c].path|)
    ensures SameAbove(m, n, places, |places[t].path|) && Ent(n, t, i) == Ent(m1, t, i)
  {
    assert |places1[c].path| == |places[t].path| + 1;
    forall x, j | x in places && |places[x].path| < |places[t].path| && 0 <= j < ENTRIES ensures Ent(n, x, j) == Ent(m, x, j) {
      assert x in places1 && places1[x] == places[x];
      assert Ent(m1, x, j) == Ent(m, x, j);
    }
  }

  lemma {:induction false} EnsureChainKeeps(m: Machine, places: map<nat, Place>, lo: nat, t: nat, q: seq<nat>)
      returns (places': map<nat, Place>)
    requires Forest(m, places, lo) && Chainable(places, lo, t, q)
    requires NoHugeOn(m, |places[t].path|, t, q)
    ensures Chained(m, EnsureChain(m, t, q).1, places, places', lo, t, q, EnsureChain(m, t, q).0)
    decreases |q|
  {
    places' := places;
    if q == [] {
      assert places[t].path + q == places[t].path;
    } else {
      var depth := |places[t].path|;
      var (c, m1) := EnsureNext(m, t, q[0]);
      assert TableOk(m, places, lo, t) && SlotOk(m, places, t, q[0]);
      var places1 := EnsureNextKeeps(m, places, lo, t, q[0]);
      if c.None? {
        places' := places1;
      } else {
        FirstLink(m, depth, t, q);
        places' := EnsureChainKeeps(m1, places1, lo, c.value, q[1..]);
        ChainGrows(m, m1, EnsureChain(m, t, q).1, places, places1, places', lo, t, q, c.value, EnsureChain(m, t, q).0);
      }
    }
  }

  lemma {:induction false} LinksKept(m: Machine, n: Machine, places: map<nat, Place>, lo: nat, t: nat, q: seq<nat>, u: nat)
    requires Forest(m, places, lo) && Chainable(places, lo, t, q)
    requires LinksTo(m, |places[t].path|, t, q, u)
    requires SameAbove(m, n, places, |places[t].path| + |q|)
    ensures LinksTo(n, |places[t].path|, t, q, u)
    decreases |q|
  {
    if q != [] {
      assert TableOk(m, places, lo, t) && SlotOk(m, places, t, q[0]);
      LinksKept(m, n, places, lo, Ent(m, t, q[0]).frame, q[1..], u);
    }
  }

  lemma {:induction false} LookupLinked(m: Machine, depth: nat, t: nat, q: seq<nat>, u: nat, rest: seq<nat>)
    requires LinksTo(m, depth, t, q, u)
    requires |rest| >= 1 && depth + |q| + |rest| == 4
    ensures LookupFrom(m, t, q + rest) == LookupFrom(m, u, rest)
    decreases |q|
  {
    if q == [] {
      assert q + rest == rest;
    } else {
      LookupLinked(m, depth + 1, Ent(m, t, q[0]).frame, q[1..], u, rest);
      assert (q + rest)[1..] == q[1..] + rest;
    }
  }

  /** The pages one vmm_map call is to change, and what they become. */
  predicate Covers(v: nat, flags: Flags, p: seq<nat>)
    requires |p| == 4
  {
    if flags.huge then p[..3] == Path(v)[..3] else p == Path(v)
  }

  function MappingFor(phys: nat, flags: Flags, p: seq<nat>): Mapping
    requires |p| == 4
  {
    Mapping(if flags.huge then phys / HUGE_SIZE * ENTRIES + p[3] else phys / PAGE_SIZE, flags.(present := true))
  }

  function LeafDepth(flags: Flags): nat {
    if flags.huge then 2 else 3
  }

  lemma {:induction false} MapIsChain(m: Machine, root: nat, v: nat, phys: nat, flags: Flags)
    ensures var p, d := Path(v), LeafDepth(flags);
      var (t, n) := EnsureChain(m, root, p[..d]);
      var e := Pte(if flags.huge then phys / HUGE_SIZE * ENTRIES else phys / PAGE_SIZE, flags.(present := true));
      Map(m, root, v, phys, flags) == if t.None? then n else SetEnt(n, t.value, p[d], e)
  {
    var p, d := Path(v), LeafDepth(flags);
    ChainStep(m, root, p[..d]);
    var (a, m1) := EnsureNext(m, root, p[0]);
    assert p[..d][1..] == p[1..d];
    if a.Some? {
      var (b, m2) := EnsureNext(m1, a.value, p[1]);
      ChainStep(m1, a.value, p[1..d]);
      assert p[1..d][1..] == p[2..d];
      if b.Some? && d == 3 {
        ChainStep(m2, b.value, p[2..d]);
        assert p[2..d][1..] == [];
      }
    }
  }

  lemma {:induction false} ChainStep(m: Machine, t: nat, q: seq<nat>)
    requires q != []
    ensures var (c, n) := EnsureNext(m, t, q[0]);
      EnsureChain(m, t, q) == if c.None? then (None, n) else EnsureChain(n, c.value, q[1..])
  {
  }

  /** The entry vmm_map writes. */
  function LeafFor(phys: nat, flags: Flags): Pte {
    Pte(if flags.huge then phys / HUGE_SIZE * ENTRIES else phys / PAGE_SIZE, flags.(present := true))
  }

  /** With the chain of tables q from the root to t in place, writing slot i of t changes
      exactly the pages whose indices start with q and i. */
  lemma {:induction false} SlotSeen(n: Machine, places: map<nat, Place>, lo: nat, root: nat, t: nat, q: seq<nat>,
                                    i: nat, e: Pte,
                 r: nat, p: seq<nat>)
    requires Forest(n, places, lo) && IsRoot(places, root) && Chainable(places, lo, root, q)
    requires t in places && places[t] == Place(root, q) && LinksTo(n, 0, root, q, t)
    requires i < ENTRIES && (e == EMPTY || (e.flags.present && !HasTable(places, t, e)))
    requires IsRoot(places, r) && PrivatePath(p, lo)
    ensures Lookup(SetEnt(n, t, i, e), r, p) ==
      if r == root && q + [i] <= p then LookupFrom(SetEnt(n, t, i, e), t, p[|q|..]) else Lookup(n, r, p)
    ensures Ent(SetEnt(n, t, i, e), t, i) == e
  {
    var done := SetEnt(n, t, i, e);
    SetLeafKeepsForest(n, places, lo, t, i, e);
    assert TableOk(n, places, lo, r) && TableOk(n, places, lo, root);
    assert Walkable(places, lo, r, p);
    if r == root && q + [i] <= p {
      assert SameAbove(n, done, places, |q|);
      LinksKept(n, done, places, lo, root, q, t);
      LookupLinked(done, 0, root, q, t, p[|q|..]);
      assert q + p[|q|..] == p;
    } else {
      SlotFrame(n, done, places, lo, t, i, r, p);
    }
  }

  lemma {:induction false} LeafSeen(n: Machine, places: map<nat, Place>, lo: nat, root: nat, t: nat, v: nat,
                                    phys: nat, flags: Flags,
                 r: nat, p: seq<nat>)
    requires Forest(n, places, lo) && IsRoot(places, root) && PrivatePath(Path(v), lo)
    requires t in places && places[t] == Place(root, Path(v)[..LeafDepth(flags)])
    requires LinksTo(n, 0, root, Path(v)[..LeafDepth(flags)], t)
    requires IsRoot(places, r) && PrivatePath(p, lo)
    ensures Lookup(SetEnt(n, t, Path(v)[LeafDepth(flags)], LeafFor(phys, flags)), r, p) ==
      if r == root && Covers(v, flags, p) then Some(MappingFor(phys, flags, p)) else Lookup(n, r, p)
  {
    var path, d := Path(v), LeafDepth(flags);
    SlotSeen(n, places, lo, root, t, path[..d], path[d], LeafFor(phys, flags), r, p);
    assert path[..d] + [path[d]] == path[..d + 1];
    assert path[..4] == path && p[..4] == p;
  }

  /** The page directory slot above p holds a 2 MiB page. */
  predicate HugeAt(m: Machine, r: nat, p: seq<nat>)
    requires |p| == 4
  {
    Next(m, r, p[0]).Some? &&
    var a := Next(m, r, p[0]).value;
    Next(m, a, p[1]).Some? && Ent(m, Next(m, a, p[1]).value, p[2]).flags.huge
  }

  lemma {:induction false} HugeAtSlot(m: Machine, r: nat, p: seq<nat>)
    requires |p| == 4
    ensures HugeAt(m, r, p) <==> !NoHugeOn(m, 0, r, p[..3])
  {
    assert p[..3][1..] == p[1..3] && p[1..3][1..] == p[2..3] && p[2..3][1..] == [];
    if Next(m, r, p[0]).Some? {
      var a := Next(m, r, p[0]).value;
      assert NoHugeOn(m, 1, a, p[1..3]) <==> !HugeAt(m, r, p) by {
        if Next(m, a, p[1]).Some? {
          var b := Next(m, a, p[1]).value;
          assert NoHugeOn(m, 2, b, p[2..3]) <==> !Ent(m, b, p[2]).flags.huge;
        }
      }
    }
  }

  lemma {:induction false} UpperLevelsNotHuge(m: Machine, r: nat, p: seq<nat>)
    requires |p| == 4
    ensures NoHugeOn(m, 0, r, p[..2])
  {
    assert p[..2][1..] == p[1..2] && p[1..2][1..] == [];
  }

  /** With the chain in place, the leaf is written at its end. */
  lemma LeafMapped(m: Machine, n: Machine, places: map<nat, Place>, places': map<nat, Place>, lo: nat, root: nat, t: nat,
                   v: nat, phys: nat, flags: Flags)
    requires IsRoot(places, root) && PrivatePath(Path(v), lo)
    requires Chained(m, n, places, places', lo, root, Path(v)[..LeafDepth(flags)], Some(t))
    ensures var done := SetEnt(n, t, Path(v)[LeafDepth(flags)], LeafFor(phys, flags));
      && Forest(done, places', lo)
      && (LinksGrant(m, places, lo) ==> LinksGrant(done, places', lo))
      && forall r, p :: IsRoot(places, r) && PrivatePath(p, lo) ==>
           Lookup(done, r, p) == if r == root && Covers(v, flags, p) then Some(MappingFor(phys, flags, p)) else Lookup(m, r, p)
  {
    var path, d, e := Path(v), LeafDepth(flags), LeafFor(phys, flags);
    SetLeafKeepsForest(n, places', lo, t, path[d], e);
    if LinksGrant(m, places, lo) { SetLeafGrants(n, places', lo, t, path[d], e); }
    forall r, p | IsRoot(places, r) && PrivatePath(p, lo)
      ensures Lookup(SetEnt(n, t, path[d], e), r, p) ==
        if r == root && Covers(v, flags, p) then Some(MappingFor(phys, flags, p)) else Lookup(m, r, p)
    {
      LeafSeen(n, places', lo, root, t, v, phys, flags, r, p);
      assert Walkable(places, lo, r, p);
    }
  }

  /** vmm_map is an update of the flat map when there are frames for the missing tables, and
      changes no mapping at all when there are not. */
  lemma MapUpdates(m: Machine, places: map<nat, Place>, lo: nat, root: nat, v: nat, phys: nat, flags: Flags)
      returns (places': map<nat, Place>)
    requires Forest(m, places, lo) && IsRoot(places, root) && PrivatePath(Path(v), lo)
    requires flags.huge || !HugeAt(m, root, Path(v))
    ensures Forest(Map(m, root, v, phys, flags), places', lo) && Extends(places, places')
    ensures LinksGrant(m, places, lo) ==> LinksGrant(Map(m, root, v, phys, flags), places', lo)
    ensures var fits := Missing(m, root, Path(v)[..LeafDepth(flags)]) <= |m.pool.free|;
      forall r, p :: IsRoot(places, r) && PrivatePath(p, lo) ==>
        Lookup(Map(m, root, v, phys, flags), r, p) ==
        if fits && r == root && Covers(v, flags, p) then Some(MappingFor(phys, flags, p)) else Lookup(m, r, p)
  {
    var path, d := Path(v), LeafDepth(flags);
    PathSpellsPage(v);
    MapIsChain(m, root, v, phys, flags);
    HugeAtSlot(m, root, path);
    UpperLevelsNotHuge(m, root, path);
    var q, e := path[..d], LeafFor(phys, flags);
    var (t, n) := EnsureChain(m, root, q);
    assert TableOk(m, places, lo, root);
    places' := EnsureChainKeeps(m, places, lo, root, q);
    if t.None? {
      assert forall r, p :: IsRoot(places, r) && PrivatePath(p, lo) ==> Walkable(places, lo, r, p);
    } else {
      LeafMapped(m, n, places, places', lo, root, t.value, v, phys, flags);
    }
  }

  // ---------------------------------------------------------------- unmapping and lookup

  /** The table get_existing_table leads to along q. */
  function Follow(m: Machine, t: nat, q: seq<nat>): Option<nat>
    decreases |q|
  {
    if q == [] then Some(t)
    else if Next(m, t, q[0]).None? then None
    else Follow(m, Next(m, t, q[0]).value, q[1..])
  }

  lemma {:induction false} MissingWhere(m: Machine, t: nat, q: seq<nat>, k: nat)
    requires k <= |q|
    ensures Missing(m, t, q) <= |q|
    ensures Follow(m, t, q[..k]).None? <==> k > |q| - Missing(m, t, q)
    decreases |q|
  {
    if k > 0 && Next(m, t, q[0]).Some? {
      assert q[..k][1..] == q[1..][..k - 1];
      MissingWhere(m, Next(m, t, q[0]).value, q[1..], k - 1);
    } else if q != [] && Next(m, t, q[0]).Some? {
      MissingWhere(m, Next(m, t, q[0]).value, q[1..], 0);
    }
  }

  lemma {:induction false} FollowFinds(m: Machine, places: map<nat, Place>, lo: nat, t: nat, q: seq<nat>)
    requires Forest(m, places, lo) && Chainable(places, lo, t, q)
    requires NoHugeOn(m, |places[t].path|, t, q) && Follow(m, t, q).Some?
    ensures var u := Follow(m, t, q).value;
      LinksTo(m, |places[t].path|, t, q, u) && u in places && places[u] == Place(places[t].root, places[t].path + q)
    decreases |q|
  {
    if q == [] {
      assert places[t].path + q == places[t].path;
    } else {
      assert TableOk(m, places, lo, t) && SlotOk(m, places, t, q[0]);
      FollowFinds(m, places, lo, Next(m, t, q[0]).value, q[1..]);
      assert places[t].path + q == places[t].path + [q[0]] + q[1..];
    }
  }

  lemma {:induction false} FollowMisses(m: Machine, places: map<nat, Place>, lo: nat, t: nat, p: seq<nat>, d: nat)
    requires Forest(m, places, lo) && Walkable(places, lo, t, p) && d < |p|
    requires NoHugeOn(m, |places[t].path|, t, p[..d]) && Follow(m, t, p[..d]).None?
    ensures LookupFrom(m, t, p) == None
    decreases d
  {
    assert TableOk(m, places, lo, t) && SlotOk(m, places, t, p[0]);
    if Next(m, t, p[0]).Some? {
      assert p[..d][1..] == p[1..][..d - 1];
      FollowMisses(m, places, lo, Next(m, t, p[0]).value, p[1..], d - 1);
    }
  }

  /** The tables vmm_unmap and the lookups go through: down to the page table, or to the page
      directory when that holds a huge page. */
  function LeafTablePath(m: Machine, root: nat, p: seq<nat>): seq<nat>
    requires |p| == 4
  {
    if HugeAt(m, root, p) then p[..2] else p[..3]
  }

  lemma {:induction false} FollowUnrolled(m: Machine, root: nat, p: seq<nat>)
    requires |p| == 4
    ensures Follow(m, root, p[..2]) ==
      if Next(m, root, p[0]).None? then None else Next(m, Next(m, root, p[0]).value, p[1])
    ensures Follow(m, root, p[..3]) ==
      var b := Follow(m, root, p[..2]);
      if b.None? then None else Next(m, b.value, p[2])
  {
    assert p[..2][1..] == p[1..2] && p[1..2][1..] == [];
    assert p[..3][1..] == p[1..3] && p[1..3][1..] == p[2..3] && p[2..3][1..] == [];
    if Next(m, root, p[0]).Some? {
      var a := Next(m, root, p[0]).value;
      assert Follow(m, a, p[1..2]) == Next(m, a, p[1]);
      if Next(m, a, p[1]).Some? {
        assert Follow(m, Next(m, a, p[1]).value, p[2..3]) == Next(m, Next(m, a, p[1]).value, p[2]);
      }
    }
  }

  lemma {:induction false} UnmapIsSlotWrite(m: Machine, root: nat, v: nat)
    ensures var q := LeafTablePath(m, root, Path(v));
      Unmap(m, root, v) ==
      match Follow(m, root, q)
      case None => m
      case Some(t) => SetEnt(m, t, Path(v)[|q|], EMPTY)
  {
    FollowUnrolled(m, root, Path(v));
  }

  /** vmm_unmap removes the one 4 KiB page, or the 512 pages of the huge page there, and
      nothing else. */
  lemma UnmapRemoves(m: Machine, places: map<nat, Place>, lo: nat, root: nat, v: nat)
    requires Forest(m, places, lo) && IsRoot(places, root) && PrivatePath(Path(v), lo)
    ensures Forest(Unmap(m, root, v), places, lo)
    ensures var gone := if HugeAt(m, root, Path(v)) then 3 else 4;
      forall r, p :: IsRoot(places, r) && PrivatePath(p, lo) ==>
        Lookup(Unmap(m, root, v), r, p) ==
        if r == root && p[..gone] == Path(v)[..gone] then None else Lookup(m, r, p)
  {
    var path, q := Path(v), LeafTablePath(m, root, Path(v));
    var gone := |q| + 1;
    PathSpellsPage(v);
    UnmapIsSlotWrite(m, root, v);
    HugeAtSlot(m, root, path);
    UpperLevelsNotHuge(m, root, path);
    assert q + [path[|q|]] == path[..gone];
    assert TableOk(m, places, lo, root);
    match Follow(m, root, q)
    case None =>
      forall p | IsPath(p) && p[..gone] == path[..gone] ensures Lookup(m, root, p) == None {
        assert p[..|q|] == path[..gone][..|q|] == q;
        assert p[0] == path[..gone][0];
        FollowMisses(m, places, lo, root, p, |q|);
      }
    case Some(t) =>
      FollowFinds(m, places, lo, root, q);
      SetLeafKeepsForest(m, places, lo, t, path[|q|], EMPTY);
      forall r, p | IsRoot(places, r) && PrivatePath(p, lo)
        ensures Lookup(Unmap(m, root, v), r, p) ==
          if r == root && p[..gone] == path[..gone] then None else Lookup(m, r, p)
      {
        SlotSeen(m, places, lo, root, t, q, path[|q|], EMPTY, r, p);
      }
  }

  lemma {:induction false} LookupUnrolled(m: Machine, root: nat, p: seq<nat>)
    requires |p| == 4
    ensures Lookup(m, root, p) ==
      var b := Follow(m, root, p[..2]);
      if b.None? then None
      else
        var e := Ent(m, b.value, p[2]);
        if e.flags.huge then Some(Mapping(e.frame / ENTRIES * ENTRIES + p[3], e.flags))
        else if !e.flags.present || !Ent(m, e.frame, p[3]).flags.present then None
        else Some(Mapping(Ent(m, e.frame, p[3]).frame, Ent(m, e.frame, p[3]).flags))
  {
    FollowUnrolled(m, root, p);
    if Next(m, root, p[0]).Some? {
      var a := Next(m, root, p[0]).value;
      assert LookupFrom(m, root, p) == LookupFrom(m, a, p[1..]);
      if Next(m, a, p[1]).Some? {
        var b := Next(m, a, p[1]).value;
        assert p[1..][1..] == p[2..];
        assert LookupFrom(m, a, p[1..]) == LookupFrom(m, b, p[2..]);
        var e := Ent(m, b, p[2]);
        if e.flags.present && !e.flags.huge {
          assert p[2..][1..] == p[3..];
          assert LookupFrom(m, b, p[2..]) == LookupFrom(m, e.frame, p[3..]);
        }
      }
    }
  }

  /** Along any private path, an absent entry is all zero. */
  lemma {:induction false} AbsentIsEmpty(m: Machine, places: map<nat, Place>, lo: nat, root: nat, p: seq<nat>)
    requires Forest(m, places, lo) && IsRoot(places, root) && PrivatePath(p, lo)
    ensures var b := Follow(m, root, p[..2]);
      b.Some? ==>
        var e := Ent(m, b.value, p[2]);
        && (!e.flags.present ==> e == EMPTY)
        && (e.flags.present && !e.flags.huge && !Ent(m, e.frame, p[3]).flags.present ==> Ent(m, e.frame, p[3]) == EMPTY)
  {
    UpperLevelsNotHuge(m, root, p);
    assert TableOk(m, places, lo, root);
    if Follow(m, root, p[..2]).Some? {
      FollowFinds(m, places, lo, root, p[..2]);
      var b := Follow(m, root, p[..2]).value;
      assert TableOk(m, places, lo, b) && SlotOk(m, places, b, p[2]);
      var e := Ent(m, b, p[2]);
      if e.flags.present && !e.flags.huge {
        assert TableOk(m, places, lo, e.frame) && SlotOk(m, places, e.frame, p[3]);
      }
    }
  }

  lemma HugeOffset(k: nat, v: nat)
    ensures (k * ENTRIES + v / PAGE_SIZE % ENTRIES) * PAGE_SIZE + v % PAGE_SIZE == k * HUGE_SIZE + v % HUGE_SIZE
  {
    var n := v / PAGE_SIZE;
    assert v % HUGE_SIZE == n % ENTRIES * PAGE_SIZE + v % PAGE_SIZE;
  }

  lemma FlagsReadFlatMap(m: Machine, places: map<nat, Place>, lo: nat, root: nat, v: nat)
    requires Forest(m, places, lo) && IsRoot(places, root) && PrivatePath(Path(v), lo)
    ensures GetFlags(m, root, v).present <==> Lookup(m, root, Path(v)).Some?
    ensures Lookup(m, root, Path(v)).Some? ==> GetFlags(m, root, v) == Lookup(m, root, Path(v)).value.flags
  {
    FollowUnrolled(m, root, Path(v));
    LookupUnrolled(m, root, Path(v));
    AbsentIsEmpty(m, places, lo, root, Path(v));
  }

  lemma PhysReadsFlatMap(m: Machine, root: nat, v: nat)
    requires Lookup(m, root, Path(v)).Some?
    ensures GetPhys(m, root, v) == Lookup(m, root, Path(v)).value.frame * PAGE_SIZE + v % PAGE_SIZE
  {
    var p := Path(v);
    FollowUnrolled(m, root, p);
    LookupUnrolled(m, root, p);
    var b := Follow(m, root, p[..2]).value;
    HugeOffset(Ent(m, b, p[2]).frame / ENTRIES, v);
  }

  /** Both lookups read the flat map: the flags are those of the mapping, and the physical
      address is the mapped frame plus the offset into the page, for either page size. */
  lemma LookupsReadFlatMap(m: Machine, places: map<nat, Place>, lo: nat, root: nat, v: nat)
    requires Forest(m, places, lo) && IsRoot(places, root) && PrivatePath(Path(v), lo)
    ensures GetFlags(m, root, v).present <==> Lookup(m, root, Path(v)).Some?
    ensures Lookup(m, root, Path(v)).Some? ==>
      && GetFlags(m, root, v) == Lookup(m, root, Path(v)).value.flags
      && GetPhys(m, root, v) == Lookup(m, root, Path(v)).value.frame * PAGE_SIZE + v % PAGE_SIZE
  {
    FlagsReadFlatMap(m, places, lo, root, v);
    if Lookup(m, root, Path(v)).Some? { PhysReadsFlatMap(m, root, v); }
  }

  /** vmm.h promises 0 for an unmapped address. That holds exactly when the page table itself
      is missing or the address is page-aligned; otherwise the page offset comes back. */
  lemma {:induction false} UnmappedPhys(m: Machine, places: map<nat, Place>, lo: nat, root: nat, v: nat)
    requires Forest(m, places, lo) && IsRoot(places, root) && PrivatePath(Path(v), lo)
    requires Lookup(m, root, Path(v)).None?
    ensures GetPhys(m, root, v) == 0 <==> Follow(m, root, Path(v)[..3]).None? || v % PAGE_SIZE == 0
  {
    FollowUnrolled(m, root, Path(v));
    LookupUnrolled(m, root, Path(v));
    AbsentIsEmpty(m, places, lo, root, Path(v));
  }

  // ---------------------------------------------------------------- rights

  function RightsOf(x: Option<Mapping>): Rights {
    match x
    case None => Rights(false, false)
    case Some(mapping) => Rights(mapping.flags.writable, mapping.flags.user)
  }

  /** Where the links let user code through, what the processor grants at a page is what the
      flags of its mapping say, and nothing where there is no mapping. */
  lemma {:induction false} RightsAreFlags(m: Machine, places: map<nat, Place>, lo: nat, t: nat, q: seq<nat>)
    requires Forest(m, places, lo) && LinksGrant(m, places, lo) && Walkable(places, lo, t, q)
    ensures Effective(m, t, q) == RightsOf(LookupFrom(m, t, q))
    decreases |q|
  {
    var e := Ent(m, t, q[0]);
    assert TableOk(m, places, lo, t) && SlotOk(m, places, t, q[0]) && LinkGrants(m, places, lo, t, q[0]);
    if HasTable(places, t, e) { RightsAreFlags(m, places, lo, e.frame, q[1..]); }
  }

  /** So vmm_map gives exactly the pages its entry covers the rights of its flags, and changes the
      rights of no other page of any space: the tables it makes on the way take nothing away. */
  lemma MapRights(m: Machine, places: map<nat, Place>, lo: nat, root: nat, v: nat, phys: nat, flags: Flags)
      returns (places': map<nat, Place>)
    requires Forest(m, places, lo) && LinksGrant(m, places, lo) && IsRoot(places, root) && PrivatePath(Path(v), lo)
    requires flags.huge || !HugeAt(m, root, Path(v))
    ensures Forest(Map(m, root, v, phys, flags), places', lo) && LinksGrant(Map(m, root, v, phys, flags), places', lo)
    ensures var fits := Missing(m, root, Path(v)[..LeafDepth(flags)]) <= |m.pool.free|;
      forall r, p :: IsRoot(places, r) && PrivatePath(p, lo) ==>
        Effective(Map(m, root, v, phys, flags), r, p) ==
        if fits && r == root && Covers(v, flags, p) then Rights(flags.writable, flags.user) else Effective(m, r, p)
  {
    places' := MapUpdates(m, places, lo, root, v, phys, flags);
    var n := Map(m, root, v, phys, flags);
    forall r, p | IsRoot(places, r) && PrivatePath(p, lo)
      ensures Effective(n, r, p) == RightsOf(Lookup(n, r, p)) && Effective(m, r, p) == RightsOf(Lookup(m, r, p))
    {
      RightsAreFlags(m, places, lo, r, p);
      RightsAreFlags(n, places', lo, r, p);
    }
  }

  /** The frame of the 2 MiB page in the slot above p. */
  function HugeFrame(m: Machine, r: nat, p: seq<nat>): nat
    requires |p| == 4 && HugeAt(m, r, p)
  {
    Ent(m, Next(m, Next(m, r, p[0]).value, p[1]).value, p[2]).frame
  }

  /** A 4 KiB vmm_map that meets a 2 MiB page takes that page's memory for a page table: the
      entry is written into it, no frame is taken and no mapping of any space changes. */
  lemma MapIntoHuge(m: Machine, places: map<nat, Place>, lo: nat, root: nat, v: nat, phys: nat, flags: Flags)
    requires Forest(m, places, lo) && IsRoot(places, root) && PrivatePath(Path(v), lo)
    requires !flags.huge && HugeAt(m, root, Path(v)) && HugeFrame(m, root, Path(v)) !in places
    ensures Map(m, root, v, phys, flags) == SetEnt(m, HugeFrame(m, root, Path(v)), Path(v)[3], LeafFor(phys, flags))
    ensures forall r, p :: IsRoot(places, r) && PrivatePath(p, lo) ==>
      Lookup(Map(m, root, v, phys, flags), r, p) == Lookup(m, r, p)
  {
    var path, big := Path(v), HugeFrame(m, root, Path(v));
    var pd := Next(m, Next(m, root, path[0]).value, path[1]).value;
    FollowUnrolled(m, root, path);
    UpperLevelsNotHuge(m, root, path);
    assert TableOk(m, places, lo, root);
    FollowFinds(m, places, lo, root, path[..2]);
    assert TableOk(m, places, lo, pd) && SlotOk(m, places, pd, path[2]);
    var n := SetEnt(m, big, path[3], LeafFor(phys, flags));
    assert SameBut(m, n, places, root, ENTRIES);
    forall r, p | IsRoot(places, r) && PrivatePath(p, lo) ensures Lookup(n, r, p) == Lookup(m, r, p) {
      assert TableOk(m, places, lo, r) && places[r].path + p == p && p[0] < ENTRIES;
      assert [] + [ENTRIES] == [ENTRIES] && [ENTRIES][0] == ENTRIES;
      SlotFrame(m, n, places, lo, root, ENTRIES, r, p);
    }
  }

  /** So a 4 KiB vmm_map takes effect if and only if there is no 2 MiB page in the way and a frame
      for every missing table. */
  lemma {:induction false} MapTakesEffect(m: Machine, places: map<nat, Place>, lo: nat, root: nat, v: nat, phys: nat,
                                          flags: Flags)
    requires Forest(m, places, lo) && IsRoot(places, root) && PrivatePath(Path(v), lo) && !flags.huge
    requires HugeAt(m, root, Path(v)) ==> HugeFrame(m, root, Path(v)) !in places
    ensures Lookup(Map(m, root, v, phys, flags), root, Path(v)) == Some(MappingFor(phys, flags, Path(v))) <==>
      !HugeAt(m, root, Path(v)) && Missing(m, root, Path(v)[..3]) <= |m.pool.free|
  {
    var path := Path(v);
    FollowUnrolled(m, root, path);
    LookupUnrolled(m, root, path);
    if HugeAt(m, root, path) {
      MapIntoHuge(m, places, lo, root, v, phys, flags);
      assert Lookup(m, root, path).Some? ==> Lookup(m, root, path).value.flags.huge;
    } else {
      var places' := MapUpdates(m, places, lo, root, v, phys, flags);
      MissingWhere(m, root, path[..3], 3);
      assert path[..3][..3] == path[..3];
    }
  }

  /** For instance: with the three upper tables in place and the page table empty, looking up
      address 5 gives 5. */
  lemma UnmappedExample(m: Machine)
    requires Ent(m, 1, 0) == Pte(2, LINK) && Ent(m, 2, 0) == Pte(3, LINK) && Ent(m, 3, 0) == Pte(4, LINK)
    requires Ent(m, 4, 0) == EMPTY
    ensures Lookup(m, 1, Path(5)).None? && GetPhys(m, 1, 5) == 5
  {
    LookupUnrolled(m, 1, Path(5));
    FollowUnrolled(m, 1, Path(5));
  }
}
