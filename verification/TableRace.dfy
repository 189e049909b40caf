/** ensure_next_table raced by any number of CPUs on one slot (src/kernel/vmm.c). A CPU looks,
    allocates and clears a table without the lock, then looks again under it; the one that
    finds the slot filled gives its own table back. Each lock-protected section, and the first
    unprotected look, is one atomic step. */
module TableRace {
  import opened Common
  import opened Frames
  import opened PageTables

  /** Where one CPU is inside the call. */
  datatype Pc =
    | Entering                            // before the unlocked look
    | Missed                              // the slot was empty: about to allocate
    | Holding(frame: nat)                 // owns a cleared table, about to take the lock
    | Losing(frame: nat, next: nat)       // saw another table installed: about to free its own
    | Returned(result: Option<nat>)

  datatype Race = Race(m: Machine, cpus: seq<Pc>)

  /** The next step of CPU k. */
  function Step(r: Race, t: nat, i: nat, k: nat): (s: Race)
    requires k < |r.cpus|
    ensures |s.cpus| == |r.cpus|
  {
    match r.cpus[k]
    case Entering =>
      r.(cpus := r.cpus[k := if Next(r.m, t, i).Some? then Returned(Next(r.m, t, i)) else Missed])
    case Missed =>
      var (f, n) := NewTable(r.m);
      Race(n, r.cpus[k := if f.None? then Returned(None) else Holding(f.value)])
    case Holding(f) =>
      if Next(r.m, t, i).Some? then r.(cpus := r.cpus[k := Losing(f, Next(r.m, t, i).value)])
      else Race(SetEnt(r.m, t, i, Pte(f, LINK)), r.cpus[k := Returned(Some(f))])
    case Losing(f, next) =>
      Race(r.m.(pool := Free(r.m.pool, f)), r.cpus[k := Returned(Some(next))])
    case Returned(_) => r
  }

  /** A run: the CPUs take their steps in the given order. */
  function Run(r: Race, t: nat, i: nat, order: seq<nat>): Race
    requires forall n :: 0 <= n < |order| ==> order[n] < |r.cpus|
    decreases |order|
  {
    if order == [] then r else Run(Step(r, t, i, order[0]), t, i, order[1..])
  }

  function Start(m: Machine, cpus: nat): Race {
    Race(m, seq(cpus, _ => Entering))
  }

  predicate Owns(pc: Pc, f: nat) {
    (pc.Holding? || pc.Losing?) && pc.frame == f
  }

  ghost predicate OwnedBySome(cpus: seq<Pc>, f: nat) {
    exists k :: 0 <= k < |cpus| && Owns(cpus[k], f)
  }

  ghost predicate OwnedByOther(cpus: seq<Pc>, k: nat, f: nat) {
    exists j :: 0 <= j < |cpus| && j != k && Owns(cpus[j], f)
  }

  lemma OwnersAfter(cpus: seq<Pc>, k: nat, pc: Pc)
    requires k < |cpus|
    ensures forall f :: OwnedBySome(cpus, f) <==> Owns(cpus[k], f) || OwnedByOther(cpus, k, f)
    ensures forall f :: OwnedBySome(cpus[k := pc], f) <==> Owns(pc, f) || OwnedByOther(cpus, k, f)
  {
    var after := cpus[k := pc];
    forall f | Owns(pc, f) || OwnedByOther(cpus, k, f) ensures OwnedBySome(after, f) {
      if Owns(pc, f) {
        assert Owns(after[k], f);
      } else {
        var j :| 0 <= j < |cpus| && j != k && Owns(cpus[j], f);
        assert Owns(after[j], f);
      }
    }
  }

  /** Frame f has been put into the slot during the race. */
  ghost predicate Installed(m0: Machine, m: Machine, t: nat, i: nat, f: nat) {
    Next(m0, t, i).None? && Next(m, t, i) == Some(f)
  }

  /** Frame f holds a table without entries. */
  ghost predicate Cleared(m: Machine, f: nat) {
    f in m.mem && m.mem[f] == ZeroTable()
  }

  /** Every frame that was free at the start is free, owned by one CPU, or in the slot. */
  ghost predicate Accounted(m0: Machine, r: Race, t: nat, i: nat, f: nat) {
    && (f in m0.pool.free <==> f in r.m.pool.free || OwnedBySome(r.cpus, f) || Installed(m0, r.m, t, i, f))
    && (f in r.m.pool.free ==> !OwnedBySome(r.cpus, f) && !Installed(m0, r.m, t, i, f))
    && (Installed(m0, r.m, t, i, f) ==> !OwnedBySome(r.cpus, f))
    && (Installed(m0, r.m, t, i, f) ==> Cleared(r.m, f))
    && (OwnedBySome(r.cpus, f) || Installed(m0, r.m, t, i, f) ==> RefOf(r.m.pool, f) == 1)
    && (f in r.m.pool.free ==> RefOf(r.m.pool, f) == 0)
  }

  ghost predicate CpuOk(m0: Machine, r: Race, t: nat, i: nat, k: nat)
    requires k < |r.cpus|
  {
    match r.cpus[k]
    case Losing(_, next) => Next(r.m, t, i) == Some(next)
    case Returned(Some(next)) => Next(r.m, t, i) == Some(next)
    case Holding(f) => Cleared(r.m, f)
    case _ => true
  }

  ghost predicate Inv(m0: Machine, r: Race, t: nat, i: nat) {
    && Wf(r.m.pool) && i < ENTRIES
    && IsTable(r.m, t) && t !in m0.pool.free
    && (Next(m0, t, i).Some? ==> Next(r.m, t, i) == Next(m0, t, i))
    && (Next(m0, t, i).None? && Next(r.m, t, i).Some? ==> LinkBits(Ent(r.m, t, i).flags))
    && (forall f {:trigger Accounted(m0, r, t, i, f)} :: Accounted(m0, r, t, i, f))
    && (forall k {:trigger CpuOk(m0, r, t, i, k)} :: 0 <= k < |r.cpus| ==> CpuOk(m0, r, t, i, k))
    && Exclusive(r.cpus)
  }

  ghost predicate MayStart(m: Machine, t: nat, i: nat) {
    && Wf(m.pool) && i < ENTRIES && IsTable(m, t) && t !in m.pool.free
    && (forall f :: f in m.pool.free ==> RefOf(m.pool, f) == 0)
  }

  lemma StartOk(m: Machine, t: nat, i: nat, cpus: nat)
    requires MayStart(m, t, i)
    ensures Inv(m, Start(m, cpus), t, i)
  {
    var r := Start(m, cpus);
    forall f ensures Accounted(m, r, t, i, f) {
    }
  }

  lemma AllocStep(m0: Machine, r: Race, t: nat, i: nat, k: nat)
    requires Inv(m0, r, t, i) && k < |r.cpus| && r.cpus[k].Missed?
    ensures Inv(m0, Step(r, t, i, k), t, i)
  {
    var s := Step(r, t, i, k);
    var (c, n) := NewTable(r.m);
    OwnersAfter(r.cpus, k, s.cpus[k]);
    assert Accounted(m0, r, t, i, t);
    if c.Some? {
      var w := |r.m.pool.free| - 1;
      assert r.m.pool.free == r.m.pool.free[..w] + [c.value];
      assert Accounted(m0, r, t, i, c.value);
    }
    forall f ensures Accounted(m0, s, t, i, f) {
      assert Accounted(m0, r, t, i, f);
      if c.Some? { assert f in r.m.pool.free <==> f in s.m.pool.free || f == c.value; }
    }
    forall j | 0 <= j < |s.cpus| ensures CpuOk(m0, s, t, i, j) {
      assert CpuOk(m0, r, t, i, j);
      if j != k && r.cpus[j].Holding? { assert Owns(r.cpus[j], r.cpus[j].frame); }
    }
  }

  lemma LookStep(m0: Machine, r: Race, t: nat, i: nat, k: nat)
    requires Inv(m0, r, t, i) && k < |r.cpus|
    requires r.cpus[k].Entering? || (r.cpus[k].Holding? && Next(r.m, t, i).Some?)
    ensures Inv(m0, Step(r, t, i, k), t, i)
  {
    var s := Step(r, t, i, k);
    OwnersAfter(r.cpus, k, s.cpus[k]);
    forall f ensures Accounted(m0, s, t, i, f) {
      assert Accounted(m0, r, t, i, f);
      if r.cpus[k].Holding? { assert Owns(r.cpus[k], r.cpus[k].frame); }
    }
    forall j | 0 <= j < |s.cpus| ensures CpuOk(m0, s, t, i, j) {
      assert CpuOk(m0, r, t, i, j);
    }
    OnlyOwner(r.cpus, k, s.cpus[k]);
  }

  ghost predicate Exclusive(cpus: seq<Pc>) {
    forall j, k, f {:trigger Owns(cpus[j], f), Owns(cpus[k], f)} ::
      0 <= j < |cpus| && 0 <= k < |cpus| && Owns(cpus[j], f) && Owns(cpus[k], f) ==> j == k
  }

  lemma OnlyOwner(cpus: seq<Pc>, k: nat, pc: Pc)
    requires Exclusive(cpus) && k < |cpus|
    requires forall f :: Owns(pc, f) ==> Owns(cpus[k], f)
    ensures Exclusive(cpus[k := pc])
  {
    var after := cpus[k := pc];
    forall a, b, f | 0 <= a < |after| && 0 <= b < |after| && Owns(after[a], f) && Owns(after[b], f) ensures a == b {
      assert Owns(cpus[a], f) && Owns(cpus[b], f);
    }
  }

  lemma InstallStep(m0: Machine, r: Race, t: nat, i: nat, k: nat)
    requires Inv(m0, r, t, i) && k < |r.cpus| && r.cpus[k].Holding? && Next(r.m, t, i).None?
    ensures Inv(m0, Step(r, t, i, k), t, i)
  {
    var s, x := Step(r, t, i, k), r.cpus[k].frame;
    OwnersAfter(r.cpus, k, s.cpus[k]);
    OnlyOwner(r.cpus, k, s.cpus[k]);
    assert Owns(r.cpus[k], x) && Accounted(m0, r, t, i, x) && Accounted(m0, r, t, i, t);
    assert CpuOk(m0, r, t, i, k);
    forall f ensures Accounted(m0, s, t, i, f) {
      assert Accounted(m0, r, t, i, f);
    }
    forall j | 0 <= j < |s.cpus| ensures CpuOk(m0, s, t, i, j) {
      assert CpuOk(m0, r, t, i, j);
      if j != k && r.cpus[j].Holding? { assert Owns(r.cpus[j], r.cpus[j].frame); }
    }
  }

  lemma LoseStep(m0: Machine, r: Race, t: nat, i: nat, k: nat)
    requires Inv(m0, r, t, i) && k < |r.cpus| && r.cpus[k].Losing?
    ensures Inv(m0, Step(r, t, i, k), t, i)
  {
    var s, x := Step(r, t, i, k), r.cpus[k].frame;
    OwnersAfter(r.cpus, k, s.cpus[k]);
    OnlyOwner(r.cpus, k, s.cpus[k]);
    assert Owns(r.cpus[k], x) && Accounted(m0, r, t, i, x) && CpuOk(m0, r, t, i, k);
    forall f ensures Accounted(m0, s, t, i, f) {
      assert Accounted(m0, r, t, i, f);
    }
    forall j | 0 <= j < |s.cpus| ensures CpuOk(m0, s, t, i, j) {
      assert CpuOk(m0, r, t, i, j);
    }
  }

  /** Every step of every CPU keeps the invariant, and a filled slot is never overwritten. */
  lemma StepKeeps(m0: Machine, r: Race, t: nat, i: nat, k: nat)
    requires Inv(m0, r, t, i) && k < |r.cpus|
    ensures Inv(m0, Step(r, t, i, k), t, i)
    ensures Next(r.m, t, i).Some? ==> Next(Step(r, t, i, k).m, t, i) == Next(r.m, t, i)
  {
    match r.cpus[k]
    case Entering => LookStep(m0, r, t, i, k);
    case Missed =>
      AllocStep(m0, r, t, i, k);
      assert Accounted(m0, r, t, i, t);
    case Holding(_) =>
      if Next(r.m, t, i).Some? { LookStep(m0, r, t, i, k); } else { InstallStep(m0, r, t, i, k); }
    case Losing(_, _) => LoseStep(m0, r, t, i, k);
    case Returned(_) =>
  }

  lemma {:induction false} RunKeeps(m0: Machine, r: Race, t: nat, i: nat, order: seq<nat>)
    requires Inv(m0, r, t, i)
    requires forall n :: 0 <= n < |order| ==> order[n] < |r.cpus|
    ensures Inv(m0, Run(r, t, i, order), t, i)
    ensures |Run(r, t, i, order).cpus| == |r.cpus|
    ensures Next(r.m, t, i).Some? ==> Next(Run(r, t, i, order).m, t, i) == Next(r.m, t, i)
    decreases |order|
  {
    if order != [] {
      StepKeeps(m0, r, t, i, order[0]);
      RunKeeps(m0, Step(r, t, i, order[0]), t, i, order[1..]);
    }
  }

  lemma {:induction false} RunInTwo(r: Race, t: nat, i: nat, first: seq<nat>, second: seq<nat>)
    requires forall n :: 0 <= n < |first| ==> first[n] < |r.cpus|
    requires forall n :: 0 <= n < |second| ==> second[n] < |r.cpus|
    ensures |Run(r, t, i, first).cpus| == |r.cpus|
    ensures Run(r, t, i, first + second) == Run(Run(r, t, i, first), t, i, second)
    decreases |first|
  {
    if first == [] {
      assert first + second == second;
    } else {
      assert (first + second)[1..] == first[1..] + second;
      RunInTwo(Step(r, t, i, first[0]), t, i, first[1..], second);
    }
  }

  /** A table in the slot in one state is the one in the slot in a later state. */
  ghost predicate StillThere(earlier: Race, later: Race, t: nat, i: nat) {
    Next(earlier.m, t, i).Some? ==> Next(later.m, t, i) == Next(earlier.m, t, i)
  }

  ghost predicate AllReturned(r: Race) {
    forall k :: 0 <= k < |r.cpus| ==> r.cpus[k].Returned?
  }

  /** Table creation is race-safe. Whatever the interleaving, all CPUs that return a table return
      the one in the slot, which is the one that was there if there was one, and a cleared frame of
      the pool under an entry that lets user code through otherwise; from the moment it is there it
      stays; and when all have returned, the pool has lost exactly the frame that was installed, if
      any. */
  lemma {:induction false} RaceSafe(m: Machine, t: nat, i: nat, cpus: nat, order: seq<nat>)
    requires MayStart(m, t, i)
    requires forall n :: 0 <= n < |order| ==> order[n] < cpus
    ensures var r := Run(Start(m, cpus), t, i, order);
      && (forall k :: 0 <= k < |r.cpus| && r.cpus[k].Returned? && r.cpus[k].result.Some? ==>
            r.cpus[k].result == Next(r.m, t, i))
      && (Next(m, t, i).Some? ==> Next(r.m, t, i) == Next(m, t, i))
      && (Next(m, t, i).None? && Next(r.m, t, i).Some? ==>
            && Next(r.m, t, i).value in m.pool.free && Cleared(r.m, Next(r.m, t, i).value)
            && LinkBits(Ent(r.m, t, i).flags))
      && (forall n :: 0 <= n <= |order| ==> StillThere(Run(Start(m, cpus), t, i, order[..n]), r, t, i))
      && (AllReturned(r) ==>
            Elements(r.m.pool.free) ==
            Elements(m.pool.free) - (if Next(m, t, i).None? && Next(r.m, t, i).Some? then {Next(r.m, t, i).value} else {}))
  {
    var s := Start(m, cpus);
    StartOk(m, t, i, cpus);
    RunKeeps(m, s, t, i, order);
    var r := Run(s, t, i, order);
    forall k | 0 <= k < |r.cpus| && r.cpus[k].Returned? && r.cpus[k].result.Some?
      ensures r.cpus[k].result == Next(r.m, t, i)
    {
      assert CpuOk(m, r, t, i, k);
    }
    if Next(r.m, t, i).Some? { assert Accounted(m, r, t, i, Next(r.m, t, i).value); }
    forall n | 0 <= n <= |order| ensures StillThere(Run(s, t, i, order[..n]), r, t, i) {
      assert order == order[..n] + order[n..];
      RunKeeps(m, s, t, i, order[..n]);
      RunInTwo(s, t, i, order[..n], order[n..]);
      RunKeeps(m, Run(s, t, i, order[..n]), t, i, order[n..]);
    }
    if AllReturned(r) {
      forall f ensures f in r.m.pool.free <==> f in m.pool.free && !Installed(m, r.m, t, i, f)
               ensures Installed(m, r.m, t, i, f) ==> f in m.pool.free {
        assert Accounted(m, r, t, i, f);
      }
    }
  }

  // ---------------------------------------------------------------- when a call fails

  predicate Failed(r: Race, k: nat) {
    k < |r.cpus| && r.cpus[k] == Returned(None)
  }

  /** The CPUs that may still ask the pool for a frame. */
  function Asking(cpus: seq<Pc>): (n: nat)
    ensures n <= |cpus|
    decreases |cpus|
  {
    if cpus == [] then 0
    else (if cpus[0].Entering? || cpus[0].Missed? then 1 else 0) + Asking(cpus[1..])
  }

  lemma {:induction false} AskingAfter(cpus: seq<Pc>, k: nat, pc: Pc)
    requires k < |cpus|
    ensures Asking(cpus[k := pc]) ==
      Asking(cpus) - Asking([cpus[k]]) + Asking([pc])
    decreases |cpus|
  {
    if k == 0 {
      assert cpus[0 := pc][1..] == cpus[1..];
    } else {
      assert cpus[k := pc][1..] == cpus[1..][k - 1 := pc];
      AskingAfter(cpus[1..], k - 1, pc);
    }
  }

  lemma {:induction false} AllAsk(n: nat)
    ensures Asking(seq(n, _ => Entering)) == n
  {
    if n > 0 {
      assert seq(n, _ => Entering)[1..] == seq(n - 1, _ => Entering);
      AllAsk(n - 1);
    }
  }

  ghost predicate NobodyFailed(r: Race) {
    forall k :: 0 <= k < |r.cpus| ==> !Failed(r, k)
  }

  /** A frame for everyone who may still ask, and nobody has failed yet. */
  ghost predicate Enough(r: Race) {
    && Wf(r.m.pool) && Asking(r.cpus) <= |r.m.pool.free|
    && NobodyFailed(r)
  }

  lemma EnoughStep(r: Race, t: nat, i: nat, k: nat)
    requires Enough(r) && k < |r.cpus|
    ensures Enough(Step(r, t, i, k))
  {
    var s := Step(r, t, i, k);
    AskingAfter(r.cpus, k, s.cpus[k]);
    assert !Failed(r, k);
    if r.cpus[k].Missed? {
      assert Asking([r.cpus[k]]) == 1;
      assert |r.m.pool.free| > 0;
      assert !Failed(s, k);
    }
    forall j | 0 <= j < |s.cpus| ensures !Failed(s, j) {
      assert !Failed(r, j);
    }
  }

  lemma {:induction false} EnoughStaysEnough(r: Race, t: nat, i: nat, order: seq<nat>)
    requires Enough(r)
    requires forall n :: 0 <= n < |order| ==> order[n] < |r.cpus|
    ensures Enough(Run(r, t, i, order))
    decreases |order|
  {
    if order != [] {
      EnoughStep(r, t, i, order[0]);
      EnoughStaysEnough(Step(r, t, i, order[0]), t, i, order[1..]);
    }
  }

  function Ascending(n: nat): seq<nat> {
    seq(n, k => k)
  }

  lemma {:induction false} AllLook(r: Race, t: nat, i: nat, n: nat)
    requires n <= |r.cpus| && Next(r.m, t, i).None?
    requires forall k :: 0 <= k < |r.cpus| ==> r.cpus[k].Entering?
    ensures Run(r, t, i, Ascending(n)) == r.(cpus := seq(|r.cpus|, k => if k < n then Missed else Entering))
  {
    if n > 0 {
      AllLook(r, t, i, n - 1);
      assert Ascending(n) == Ascending(n - 1) + [n - 1];
      RunInTwo(r, t, i, Ascending(n - 1), [n - 1]);
    }
  }

  lemma {:induction false} AllAllocate(r: Race, t: nat, i: nat, n: nat)
    requires Wf(r.m.pool) && n <= |r.cpus| && n <= |r.m.pool.free|
    requires forall k :: 0 <= k < |r.cpus| ==> r.cpus[k].Missed?
    ensures var s := Run(r, t, i, Ascending(n));
      && Wf(s.m.pool) && |s.m.pool.free| == |r.m.pool.free| - n
      && |s.cpus| == |r.cpus| && forall k :: n <= k < |s.cpus| ==> s.cpus[k].Missed?
  {
    if n > 0 {
      AllAllocate(r, t, i, n - 1);
      assert Ascending(n) == Ascending(n - 1) + [n - 1];
      RunInTwo(r, t, i, Ascending(n - 1), [n - 1]);
    }
  }

  /** The order in which too few frames do show: all look, then all allocate. */
  function Unlucky(m: Machine, cpus: nat): seq<nat> {
    Ascending(cpus) + Ascending(|m.pool.free| + 1)
  }

  lemma {:induction false} UnluckyFails(m: Machine, t: nat, i: nat, cpus: nat)
    requires MayStart(m, t, i) && Next(m, t, i).None? && |m.pool.free| < cpus
    ensures Failed(Run(Start(m, cpus), t, i, Unlucky(m, cpus)), |m.pool.free|)
  {
    var s, n := Start(m, cpus), |m.pool.free|;
    AllLook(s, t, i, cpus);
    var looked := Run(s, t, i, Ascending(cpus));
    RunInTwo(s, t, i, Ascending(cpus), Ascending(n + 1));
    AllAllocate(looked, t, i, n);
    assert Ascending(n + 1) == Ascending(n) + [n];
    RunInTwo(looked, t, i, Ascending(n), [n]);
  }

  lemma FilledStep(m0: Machine, r: Race, t: nat, i: nat, k: nat)
    requires Inv(m0, r, t, i) && Next(r.m, t, i).Some? && k < |r.cpus|
    requires NobodyFailed(r) && forall j :: 0 <= j < |r.cpus| ==> !r.cpus[j].Missed?
    ensures NobodyFailed(Step(r, t, i, k))
    ensures forall j :: 0 <= j < |r.cpus| ==> !Step(r, t, i, k).cpus[j].Missed?
  {
    forall j | 0 <= j < |r.cpus| ensures !Failed(Step(r, t, i, k), j) {
      assert !Failed(r, j);
    }
  }

  lemma {:induction false} FilledNeverFails(m0: Machine, r: Race, t: nat, i: nat, order: seq<nat>)
    requires Inv(m0, r, t, i) && Next(r.m, t, i).Some?
    requires forall n :: 0 <= n < |order| ==> order[n] < |r.cpus|
    requires NobodyFailed(r) && forall k :: 0 <= k < |r.cpus| ==> !r.cpus[k].Missed?
    ensures NobodyFailed(Run(r, t, i, order))
    decreases |order|
  {
    if order != [] {
      StepKeeps(m0, r, t, i, order[0]);
      FilledStep(m0, r, t, i, order[0]);
      FilledNeverFails(m0, Step(r, t, i, order[0]), t, i, order[1..]);
    }
  }

  ghost predicate NobodyFails(m: Machine, t: nat, i: nat, cpus: nat, order: seq<nat>)
    requires forall n :: 0 <= n < |order| ==> order[n] < cpus
  {
    NobodyFailed(Run(Start(m, cpus), t, i, order))
  }

  /** No call fails, in any interleaving, if and only if the table was there already or there
      is a free frame for every CPU. */
  lemma NoFailures(m: Machine, t: nat, i: nat, cpus: nat)
    requires MayStart(m, t, i)
    ensures (forall order {:trigger NobodyFails(m, t, i, cpus, order)} ::
               (forall n :: 0 <= n < |order| ==> order[n] < cpus) ==> NobodyFails(m, t, i, cpus, order))
       <==> Next(m, t, i).Some? || cpus <= |m.pool.free|
  {
    var s := Start(m, cpus);
    if Next(m, t, i).Some? || cpus <= |m.pool.free| {
      forall order: seq<nat> | forall n :: 0 <= n < |order| ==> order[n] < cpus
        ensures NobodyFails(m, t, i, cpus, order) {
        if Next(m, t, i).Some? {
          StartOk(m, t, i, cpus);
          FilledNeverFails(m, s, t, i, order);
        } else {
          AllAsk(cpus);
          EnoughStaysEnough(s, t, i, order);
        }
      }
    } else {
      UnluckyFails(m, t, i, cpus);
      StartOk(m, t, i, cpus);
      RunKeeps(m, s, t, i, Unlucky(m, cpus));
      assert !NobodyFails(m, t, i, cpus, Unlucky(m, cpus));
    }
  }

  /** A step makes a call fail exactly when it asks an empty pool. */
  lemma FailsOnEmptyPool(m0: Machine, r: Race, t: nat, i: nat, k: nat)
    requires Inv(m0, r, t, i) && k < |r.cpus| && !Failed(r, k)
    ensures Failed(Step(r, t, i, k), k) <==> r.cpus[k].Missed? && r.m.pool.free == []
  {
    if r.cpus[k].Losing? { assert CpuOk(m0, r, t, i, k); }
  }

  // ---------------------------------------------------------------- every call returns

  function Turns(order: seq<nat>, k: nat): nat
    decreases |order|
  {
    if order == [] then 0 else (if order[0] == k then 1 else 0) + Turns(order[1..], k)
  }

  /** The most steps CPU k can still need. */
  function StepsLeft(pc: Pc): nat {
    match pc
    case Entering => 4
    case Missed => 3
    case Holding(_) => 2
    case Losing(_, _) => 1
    case Returned(_) => 0
  }

  /** No CPU waits for another: four turns of its own are enough for a call to return. */
  lemma {:induction false} FourTurns(r: Race, t: nat, i: nat, order: seq<nat>, k: nat)
    requires k < |r.cpus|
    requires forall n :: 0 <= n < |order| ==> order[n] < |r.cpus|
    ensures |Run(r, t, i, order).cpus| == |r.cpus|
    ensures StepsLeft(Run(r, t, i, order).cpus[k]) <=
      if StepsLeft(r.cpus[k]) > Turns(order, k) then StepsLeft(r.cpus[k]) - Turns(order, k) else 0
    decreases |order|
  {
    if order != [] {
      FourTurns(Step(r, t, i, order[0]), t, i, order[1..], k);
    }
  }
}
