/** The life of a window while several callers hold snapshots of the list: every locked section
    of src/kernel/window.c that links, holds, releases, raises or destroys is one step, and the
    steps of different callers interleave freely. */
module WindowLifetime {
  import opened Common

  const SNAPSHOT: nat := 16

  /** The part of window_t that decides when it is freed. */
  datatype Obj = Obj(refs: nat, destroyed: bool, owner: nat)

  /** `objs` are the windows in memory, `list` the window list (front first), `held[t]` the
      windows caller t has retained, and `frees` every window freed so far, in order. */
  datatype World = World(objs: map<nat, Obj>, list: seq<nat>, dragging: Option<nat>, nextId: nat,
                         held: seq<seq<nat>>, frees: seq<nat>)

  /** How many callers hold a window. */
  function Holders(held: seq<seq<nat>>, id: nat): nat {
    if held == [] then 0 else (if id in held[0] then 1 else 0) + Holders(held[1..], id)
  }

  lemma {:induction false} HoldersUpdate(held: seq<seq<nat>>, t: nat, ids: seq<nat>, id: nat)
    requires t < |held|
    ensures Holders(held[t := ids], id) + (if id in held[t] then 1 else 0) ==
      Holders(held, id) + (if id in ids then 1 else 0)
  {
    var after := held[t := ids];
    if t == 0 {
      assert after[1..] == held[1..];
    } else {
      assert after[1..] == held[1..][t - 1 := ids];
      HoldersUpdate(held[1..], t - 1, ids, id);
    }
  }

  lemma {:induction false} HolderCounts(held: seq<seq<nat>>, t: nat, id: nat)
    requires t < |held| && id in held[t]
    ensures Holders(held, id) > 0
  {
    if t > 0 { HolderCounts(held[1..], t - 1, id); }
  }

  lemma {:induction false} NobodyHolds(held: seq<seq<nat>>, id: nat)
    requires forall t {:trigger held[t]} :: 0 <= t < |held| ==> id !in held[t]
    ensures Holders(held, id) == 0
  {
    if held != [] {
      assert forall t :: 0 <= t < |held| - 1 ==> held[1..][t] == held[t + 1];
      NobodyHolds(held[1..], id);
    }
  }

  // ---------------------------------------------------------------- the invariant

  /** One window: in memory with its count exact, and unlinked only while still held; or freed,
      and then neither linked nor held; or not yet made. */
  ghost predicate WindowOk(w: World, id: nat) {
    if id in w.objs then
      && 0 < id < w.nextId && id !in w.frees
      && w.objs[id].refs == Holders(w.held, id)
      && (w.objs[id].destroyed <==> id !in w.list)
      && (w.objs[id].destroyed ==> w.objs[id].refs > 0)
    else
      && (id in w.frees <==> 0 < id < w.nextId)
      && id !in w.list && Holders(w.held, id) == 0
  }

  ghost predicate Inv(w: World) {
    && w.nextId > 0 && NoDup(w.list) && NoDup(w.frees)
    && (forall t {:trigger w.held[t]} :: 0 <= t < |w.held| ==> NoDup(w.held[t]))
    && (w.dragging.Some? ==> w.dragging.value in w.list)
    && (forall id {:trigger WindowOk(w, id)} :: WindowOk(w, id))
  }

  /** A window once made is freed exactly when it is off the list and nobody holds it, and it
      is freed once. */
  lemma {:induction false} FreedExactlyWhen(w: World, id: nat)
    requires Inv(w) && 0 < id < w.nextId
    ensures id in w.frees <==> id !in w.list && Holders(w.held, id) == 0
    ensures id in w.frees <==> id !in w.objs
    ensures forall i, j :: 0 <= i < j < |w.frees| ==> w.frees[i] != w.frees[j]
  {
    assert WindowOk(w, id);
  }

  /** What a caller holds, what is listed and what is dragged is in memory; the last two are
      not marked destroyed. */
  lemma NoUseAfterFree(w: World, id: nat)
    requires Inv(w)
    ensures (exists t :: 0 <= t < |w.held| && id in w.held[t]) ==> id in w.objs && w.objs[id].refs > 0
    ensures id in w.list || w.dragging == Some(id) ==> id in w.objs && !w.objs[id].destroyed
  {
    assert WindowOk(w, id);
    if t :| 0 <= t < |w.held| && id in w.held[t] { HolderCounts(w.held, t, id); }
  }

  /** With no snapshot outstanding, memory holds exactly the listed windows. */
  lemma NothingLeaks(w: World)
    requires Inv(w) && forall t {:trigger w.held[t]} :: 0 <= t < |w.held| ==> w.held[t] == []
    ensures w.objs.Keys == Elements(w.list)
    ensures forall id :: id in w.objs ==> w.objs[id].refs == 0
  {
    forall id ensures id in w.objs <==> id in w.list {
      assert WindowOk(w, id);
      NobodyHolds(w.held, id);
    }
    forall id | id in w.objs ensures w.objs[id].refs == 0 {
      assert WindowOk(w, id);
      NobodyHolds(w.held, id);
    }
  }

  // ---------------------------------------------------------------- single actions

  /** window_create (with its owner still 0). */
  function Create(w: World): World {
    w.(objs := w.objs[w.nextId := Obj(0, false, 0)], list := [w.nextId] + w.list, nextId := w.nextId + 1)
  }

  /** window_set_owner, called with the address of window `id`. The source reads its destroyed
      mark whether or not the window is still in memory; where it is not (TouchesFreed), what
      it then does is not defined, and the model leaves the world as it is. */
  function SetOwner(w: World, id: nat, pid: nat): World {
    if id in w.objs && !w.objs[id].destroyed then w.(objs := w.objs[id := w.objs[id].(owner := pid)]) else w
  }

  /** retain_window_locked, with the window added to the caller's snapshot. */
  function Retain(w: World, t: nat, id: nat): World
    requires t < |w.held| && id in w.objs
  {
    w.(objs := w.objs[id := w.objs[id].(refs := w.objs[id].refs + 1)], held := w.held[t := w.held[t] + [id]])
  }

  /** free_window. */
  function FreeWindow(w: World, id: nat): World {
    w.(objs := w.objs - {id}, frees := w.frees + [id])
  }

  /** release_window_locked on the first window of the caller's snapshot. */
  function ReleaseFirst(w: World, t: nat): World
    requires t < |w.held| && w.held[t] != []
  {
    var id := w.held[t][0];
    var dropped := w.(held := w.held[t := w.held[t][1..]]);
    if id !in w.objs || w.objs[id].refs == 0 then dropped
    else
      var obj := w.objs[id].(refs := w.objs[id].refs - 1);
      var counted := dropped.(objs := w.objs[id := obj]);
      if obj.destroyed && obj.refs == 0 then FreeWindow(counted, id) else counted
  }

  /** One window taken off the list by window_destroy_by_pid. */
  function Unlink(w: World, i: nat): World
    requires i < |w.list| && w.list[i] in w.objs
  {
    var id := w.list[i];
    var off := w.(list := w.list[..i] + w.list[i + 1..],
                  dragging := if w.dragging == Some(id) then None else w.dragging,
                  objs := w.objs[id := w.objs[id].(destroyed := true)]);
    if w.objs[id].refs == 0 then FreeWindow(off, id) else off
  }

  /** The press of window_update: take hold of a window and move it to the front. */
  function Grab(w: World, i: nat): World
    requires i < |w.list|
  {
    w.(dragging := Some(w.list[i]), list := [w.list[i]] + w.list[..i] + w.list[i + 1..])
  }

  lemma CreateKeeps(w: World)
    requires Inv(w)
    ensures Inv(Create(w))
  {
    var w' := Create(w);
    assert WindowOk(w, w.nextId);
    forall id ensures WindowOk(w', id) { assert WindowOk(w, id); }
    assert NoDup(w'.list) by {
      assert w.nextId !in w.list;
    }
  }

  lemma SetOwnerKeeps(w: World, id: nat, pid: nat)
    requires Inv(w)
    ensures Inv(SetOwner(w, id, pid))
  {
    forall x ensures WindowOk(SetOwner(w, id, pid), x) { assert WindowOk(w, x); }
  }

  lemma RetainKeeps(w: World, t: nat, id: nat)
    requires Inv(w) && t < |w.held| && id in w.list && id !in w.held[t]
    ensures id in w.objs && Inv(Retain(w, t, id))
  {
    assert WindowOk(w, id);
    var w' := Retain(w, t, id);
    forall x ensures WindowOk(w', x) {
      assert WindowOk(w, x);
      HoldersUpdate(w.held, t, w.held[t] + [id], x);
    }
  }

  lemma ReleaseKeeps(w: World, t: nat)
    requires Inv(w) && t < |w.held| && w.held[t] != []
    ensures Inv(ReleaseFirst(w, t))
  {
    var w', id := ReleaseFirst(w, t), w.held[t][0];
    assert WindowOk(w, id);
    HolderCounts(w.held, t, id);
    forall x ensures WindowOk(w', x) {
      assert WindowOk(w, x);
      HoldersUpdate(w.held, t, w.held[t][1..], x);
      assert w.held[t] == [id] + w.held[t][1..];
    }
  }

  lemma UnlinkKeeps(w: World, i: nat)
    requires Inv(w) && i < |w.list|
    ensures w.list[i] in w.objs && Inv(Unlink(w, i))
  {
    var id := w.list[i];
    assert WindowOk(w, id);
    var w' := Unlink(w, i);
    assert forall k :: 0 <= k < |w'.list| ==> w'.list[k] == w.list[if k < i then k else k + 1];
    WithoutAt(w.list, i);
    forall x ensures WindowOk(w', x) { assert WindowOk(w, x); }
  }

  lemma WithoutAt(s: seq<nat>, i: nat)
    requires NoDup(s) && i < |s|
    ensures NoDup(s[..i] + s[i + 1..])
    ensures forall x :: x in s[..i] + s[i + 1..] <==> x in s && x != s[i]
  {
    var rest := s[..i] + s[i + 1..];
    assert forall k :: 0 <= k < |rest| ==> rest[k] == s[if k < i then k else k + 1];
    forall x | x in s && x != s[i] ensures x in rest {
      var k :| 0 <= k < |s| && s[k] == x;
      assert rest[if k < i then k else k - 1] == x;
    }
  }

  lemma GrabKeeps(w: World, i: nat)
    requires Inv(w) && i < |w.list|
    ensures Inv(Grab(w, i)) && multiset(Grab(w, i).list) == multiset(w.list)
  {
    var w' := Grab(w, i);
    WithoutAt(w.list, i);
    assert w.list == w.list[..i] + [w.list[i]] + w.list[i + 1..];
    assert w'.list == [w.list[i]] + (w.list[..i] + w.list[i + 1..]);
    forall x ensures WindowOk(w', x) {
      assert WindowOk(w, x);
      assert x in w'.list <==> x in w.list;
    }
  }

  // ---------------------------------------------------------------- locked sections

  function Limit(n: nat): nat {
    if n < SNAPSHOT then n else SNAPSHOT
  }

  /** snapshot_window_list from position k on. */
  function Snapshot(w: World, t: nat, k: nat): World
    requires t < |w.held|
    decreases |w.list| - k
  {
    if k < Limit(|w.list|) && w.list[k] in w.objs then Snapshot(Retain(w, t, w.list[k]), t, k + 1) else w
  }

  /** release_window_refs_locked. */
  function ReleaseAll(w: World, t: nat): (w': World)
    requires t < |w.held|
    ensures |w'.held| == |w.held|
    decreases |w.held[t]|
  {
    if w.held[t] == [] then w else ReleaseAll(ReleaseFirst(w, t), t)
  }

  /** window_destroy_by_pid from position i on. */
  function DestroyFrom(w: World, pid: nat, i: nat): World
    decreases |w.list| - i
  {
    if i >= |w.list| || w.list[i] !in w.objs then w
    else if w.objs[w.list[i]].owner == pid then DestroyFrom(Unlink(w, i), pid, i)
    else DestroyFrom(w, pid, i + 1)
  }

  function Position(list: seq<nat>, id: nat): (i: nat)
    ensures i <= |list|
    ensures i < |list| ==> list[i] == id
    ensures forall k :: 0 <= k < i ==> list[k] != id
  {
    if list == [] then 0 else if list[0] == id then 0 else 1 + Position(list[1..], id)
  }

  /** The button part of window_update's second section; `hit` is what the first section's
      snapshot found under the mouse, however stale by now. */
  function Button(w: World, left: bool, hit: Option<nat>, inTitle: bool): World {
    if !left then w.(dragging := None)
    else if w.dragging.Some? then
      if w.dragging.value in w.objs && !w.objs[w.dragging.value].destroyed then w else w.(dragging := None)
    else if hit.Some? && hit.value in w.objs && !w.objs[hit.value].destroyed && inTitle then
      var i := Position(w.list, hit.value);
      if i < |w.list| then Grab(w, i) else w.(dragging := hit)
    else w
  }

  /** The last lines of window_update. */
  function DropDestroyed(w: World): World {
    if w.dragging.Some? && (w.dragging.value !in w.objs || w.objs[w.dragging.value].destroyed) then w.(dragging := None) else w
  }

  function FinishUpdate(w: World, t: nat, left: bool, hit: Option<nat>, inTitle: bool): World
    requires t < |w.held|
  {
    DropDestroyed(ReleaseAll(Button(w, left, hit, inTitle), t))
  }

  lemma {:induction false} SnapshotKeeps(w: World, t: nat, k: nat)
    requires Inv(w) && t < |w.held| && k <= Limit(|w.list|) && w.held[t] == w.list[..k]
    ensures var w' := Snapshot(w, t, k);
      && Inv(w') && w'.list == w.list && w'.dragging == w.dragging && w'.frees == w.frees && w'.nextId == w.nextId
      && w'.held == w.held[t := w.list[..if |w.list| < 16 then |w.list| else 16]]
    decreases |w.list| - k
  {
    if k < Limit(|w.list|) {
      assert w.list[k] !in w.list[..k];
      RetainKeeps(w, t, w.list[k]);
      assert w.list[..k] + [w.list[k]] == w.list[..k + 1];
      SnapshotKeeps(Retain(w, t, w.list[k]), t, k + 1);
    } else {
      assert w.held == w.held[t := w.held[t]];
    }
  }

  lemma {:induction false} ReleaseAllKeeps(w: World, t: nat)
    requires Inv(w) && t < |w.held|
    ensures var w' := ReleaseAll(w, t);
      Inv(w') && w'.list == w.list && w'.dragging == w.dragging && w'.nextId == w.nextId && w'.held == w.held[t := []]
    ensures w.frees <= ReleaseAll(w, t).frees
    decreases |w.held[t]|
  {
    if w.held[t] != [] {
      ReleaseKeeps(w, t);
      ReleaseAllKeeps(ReleaseFirst(w, t), t);
    } else {
      assert w.held == w.held[t := w.held[t]];
    }
  }

  /** What the destroyer leaves on the list. */
  function Others(objs: map<nat, Obj>, list: seq<nat>, pid: nat): seq<nat> {
    if list == [] then []
    else (if list[0] in objs && objs[list[0]].owner == pid then [] else [list[0]]) + Others(objs, list[1..], pid)
  }

  lemma {:induction false} OthersSame(a: map<nat, Obj>, b: map<nat, Obj>, list: seq<nat>, pid: nat)
    requires forall x :: x in list ==> x in a && x in b && a[x].owner == b[x].owner
    ensures Others(a, list, pid) == Others(b, list, pid)
  {
    if list != [] { OthersSame(a, b, list[1..], pid); }
  }

  /** Taking one of the process's windows off leaves the same windows to be left. */
  lemma {:induction false} UnlinkOthers(w: World, pid: nat, i: nat)
    requires Inv(w) && i < |w.list| && w.list[i] in w.objs && w.objs[w.list[i]].owner == pid
    ensures var u := Unlink(w, i);
      && u.list[..i] == w.list[..i] && u.list[i..] == w.list[i + 1..]
      && Others(w.objs, w.list[i..], pid) == Others(u.objs, u.list[i..], pid)
      && w.list[i] !in u.list[..i] + Others(u.objs, u.list[i..], pid)
      && u.held == w.held && u.nextId == w.nextId && w.frees <= u.frees
      && u.dragging == (if w.dragging == Some(w.list[i]) then None else w.dragging)
  {
    UnlinkKeeps(w, i);
    var u, rest := Unlink(w, i), w.list[i + 1..];
    assert w.list[i..] == [w.list[i]] + rest;
    assert u.list[..i] == w.list[..i] && u.list[i..] == rest;
    forall x | x in rest ensures x in w.objs && x in u.objs && w.objs[x].owner == u.objs[x].owner {
      assert WindowOk(w, x) && WindowOk(u, x);
      assert x in u.list;
    }
    OthersSame(w.objs, u.objs, rest, pid);
    OthersWithin(u.objs, rest, pid);
  }

  /** What window_destroy_by_pid makes of the list from position i on. */
  ghost predicate Destroyed(w: World, w': World, pid: nat, i: nat)
    requires i <= |w.list|
  {
    && w'.held == w.held && w'.nextId == w.nextId && w.frees <= w'.frees
    && w'.list == w.list[..i] + Others(w.objs, w.list[i..], pid)
    && w'.dragging == (if w.dragging.Some? && w.dragging.value in w'.list then w.dragging else None)
  }

  lemma DestroyedOne(w: World, w': World, pid: nat, i: nat)
    requires Inv(w) && i < |w.list| && w.list[i] in w.objs && w.objs[w.list[i]].owner == pid
    requires i <= |Unlink(w, i).list| && Destroyed(Unlink(w, i), w', pid, i)
    ensures Destroyed(w, w', pid, i)
  {
    UnlinkOthers(w, pid, i);
  }

  lemma DestroyedNone(w: World, w': World, pid: nat, i: nat)
    requires i < |w.list| && w.list[i] in w.objs && w.objs[w.list[i]].owner != pid
    requires Destroyed(w, w', pid, i + 1)
    ensures Destroyed(w, w', pid, i)
  {
    assert w.list[i..] == [w.list[i]] + w.list[i + 1..];
    assert w.list[..i + 1] == w.list[..i] + [w.list[i]];
  }

  lemma {:induction false} DestroyKeeps(w: World, pid: nat, i: nat)
    requires Inv(w) && i <= |w.list|
    ensures Inv(DestroyFrom(w, pid, i)) && Destroyed(w, DestroyFrom(w, pid, i), pid, i)
    decreases |w.list| - i
  {
    if i < |w.list| {
      assert WindowOk(w, w.list[i]);
      if w.objs[w.list[i]].owner == pid {
        UnlinkKeeps(w, i);
        DestroyKeeps(Unlink(w, i), pid, i);
        DestroyedOne(w, DestroyFrom(w, pid, i), pid, i);
      } else {
        DestroyKeeps(w, pid, i + 1);
        DestroyedNone(w, DestroyFrom(w, pid, i), pid, i);
      }
    } else {
      assert w.list[..i] + [] == w.list;
    }
  }

  lemma {:induction false} OthersWithin(objs: map<nat, Obj>, list: seq<nat>, pid: nat)
    ensures forall x :: x in Others(objs, list, pid) <==> x in list && !(x in objs && objs[x].owner == pid)
  {
    if list != [] { OthersWithin(objs, list[1..], pid); }
  }

  lemma ButtonKeeps(w: World, left: bool, hit: Option<nat>, inTitle: bool)
    requires Inv(w)
    ensures var w' := Button(w, left, hit, inTitle);
      Inv(w') && w'.held == w.held && w'.frees == w.frees && w'.nextId == w.nextId && multiset(w'.list) == multiset(w.list)
  {
    forall id ensures WindowOk(w.(dragging := None), id) { assert WindowOk(w, id); }
    if left && w.dragging.None? && hit.Some? && hit.value in w.objs && !w.objs[hit.value].destroyed && inTitle {
      assert WindowOk(w, hit.value);
      GrabKeeps(w, Position(w.list, hit.value));
    }
  }

  /** The dragged window is on the list, so the last check of window_update changes nothing. */
  lemma DropIsIdle(w: World)
    requires Inv(w)
    ensures DropDestroyed(w) == w
  {
    if w.dragging.Some? { assert WindowOk(w, w.dragging.value); }
  }

  // ---------------------------------------------------------------- what each section is for

  /** A new window is first on the list, unheld, unmarked and nobody's, under an id never used
      before; setting its owner changes that alone. */
  lemma CreateAndOwn(w: World, id: nat, pid: nat)
    requires Inv(w)
    ensures var c := Create(w);
      && c.list == [w.nextId] + w.list && c.nextId == w.nextId + 1 && w.nextId !in w.list && w.nextId !in w.frees
      && c.objs == w.objs[w.nextId := Obj(0, false, 0)]
      && c.dragging == w.dragging && c.held == w.held && c.frees == w.frees
    ensures id in w.list ==> id in w.objs && SetOwner(w, id, pid) == w.(objs := w.objs[id := w.objs[id].(owner := pid)])
  {
    assert WindowOk(w, w.nextId) && WindowOk(w, id);
  }

  /** With the button up nothing is dragged and the list is as it was; with it down and nothing
      dragged, a listed window hit on its title is dragged and comes to the front, the others keeping
      their order; and in every other case nothing changes. */
  lemma ButtonDecides(w: World, left: bool, hit: Option<nat>, inTitle: bool, i: nat)
    requires Inv(w)
    ensures !left ==> Button(w, left, hit, inTitle) == w.(dragging := None)
    ensures left && w.dragging.None? && inTitle && i < |w.list| && hit == Some(w.list[i]) ==>
      Button(w, left, hit, inTitle) == w.(dragging := hit, list := [w.list[i]] + w.list[..i] + w.list[i + 1..])
    ensures left && (w.dragging.Some? || !inTitle || hit.None? || hit.value !in w.list) ==>
      Button(w, left, hit, inTitle) == w
  {
    if w.dragging.Some? { assert WindowOk(w, w.dragging.value); }
    if hit.Some? { assert WindowOk(w, hit.value); }
    if i < |w.list| && hit == Some(w.list[i]) { assert Position(w.list, w.list[i]) == i; }
  }

  // ---------------------------------------------------------------- every interleaving

  datatype Op =
    | OpCreate
    | OpSetOwner(id: nat, pid: nat)
    | OpHold(t: nat)                                                        // first section of update and draw
    | OpFinishUpdate(t: nat, left: bool, hit: Option<nat>, inTitle: bool)   // second section of update
    | OpFinishDraw(t: nat)                                                  // second section of draw
    | OpDestroy(pid: nat)

  /** A step; a caller takes a snapshot only when it holds none. */
  function Step(w: World, op: Op): World {
    match op
    case OpCreate => Create(w)
    case OpSetOwner(id, pid) => SetOwner(w, id, pid)
    case OpHold(t) => if t < |w.held| && w.held[t] == [] then Snapshot(w, t, 0) else w
    case OpFinishUpdate(t, left, hit, inTitle) => if t < |w.held| then FinishUpdate(w, t, left, hit, inTitle) else w
    case OpFinishDraw(t) => if t < |w.held| then ReleaseAll(w, t) else w
    case OpDestroy(pid) => DestroyFrom(w, pid, 0)
  }

  function Run(w: World, ops: seq<Op>): World
    decreases |ops|
  {
    if ops == [] then w else Run(Step(w, ops[0]), ops[1..])
  }

  function Boot(callers: nat): World {
    World(map[], [], None, 1, seq(callers, _ => []), [])
  }

  lemma StepKeeps(w: World, op: Op)
    requires Inv(w)
    ensures Inv(Step(w, op)) && w.frees <= Step(w, op).frees && w.nextId <= Step(w, op).nextId
  {
    match op
    case OpCreate => CreateKeeps(w);
    case OpSetOwner(id, pid) => SetOwnerKeeps(w, id, pid);
    case OpHold(t) => if t < |w.held| && w.held[t] == [] { SnapshotKeeps(w, t, 0); }
    case OpFinishUpdate(t, left, hit, inTitle) =>
      if t < |w.held| {
        ButtonKeeps(w, left, hit, inTitle);
        ReleaseAllKeeps(Button(w, left, hit, inTitle), t);
        DropIsIdle(ReleaseAll(Button(w, left, hit, inTitle), t));
      }
    case OpFinishDraw(t) => if t < |w.held| { ReleaseAllKeeps(w, t); }
    case OpDestroy(pid) => DestroyKeeps(w, pid, 0);
  }

  lemma {:induction false} RunKeeps(w: World, ops: seq<Op>)
    requires Inv(w)
    ensures Inv(Run(w, ops)) && w.frees <= Run(w, ops).frees && w.nextId <= Run(w, ops).nextId
    decreases |ops|
  {
    if ops != [] {
      StepKeeps(w, ops[0]);
      RunKeeps(Step(w, ops[0]), ops[1..]);
    }
  }

  lemma BootInv(callers: nat)
    ensures Inv(Boot(callers))
  {
    forall id ensures WindowOk(Boot(callers), id) { NobodyHolds(Boot(callers).held, id); }
  }

  /** Over every interleaving from boot: a window is freed exactly when it is unlinked and held
      by nobody, and once freed it stays freed. */
  lemma {:induction false} LifetimeIsSafe(callers: nat, ops: seq<Op>, more: seq<Op>, id: nat)
    ensures var w := Run(Boot(callers), ops);
      var later := Run(w, more);
      && Inv(w) && Inv(later)
      && (0 < id < w.nextId ==> (id in w.frees <==> id !in w.list && Holders(w.held, id) == 0))
      && (id in w.frees ==> id in later.frees && id !in later.objs && id !in later.list)
  {
    BootInv(callers);
    RunKeeps(Boot(callers), ops);
    var w := Run(Boot(callers), ops);
    RunKeeps(w, more);
    assert WindowOk(w, id) && WindowOk(Run(w, more), id);
  }

  // ---------------------------------------------------------------- pointers nobody counts

  /** window_get_by_id, window_create and the calls that take a window's address
      (window_mark_dirty, window_set_owner, window_set_buffer) count no holder. Such a call
      reads freed memory when its window has gone. */
  predicate TouchesFreed(w: World, id: nat) {
    0 < id < w.nextId && id !in w.objs
  }

  lemma {:induction false} ListedStays(w: World, ops: seq<Op>, id: nat)
    requires Inv(w) && id in w.list
    requires forall k :: 0 <= k < |ops| ==> !ops[k].OpDestroy?
    ensures id in Run(w, ops).list
    decreases |ops|
  {
    if ops != [] {
      StepKeeps(w, ops[0]);
      ListedStep(w, ops[0], id);
      ListedStays(Step(w, ops[0]), ops[1..], id);
    }
  }

  lemma ListedStep(w: World, op: Op, id: nat)
    requires Inv(w) && id in w.list && !op.OpDestroy?
    ensures id in Step(w, op).list
  {
    match op
    case OpHold(t) => if t < |w.held| && w.held[t] == [] { SnapshotKeeps(w, t, 0); }
    case OpFinishUpdate(t, left, hit, inTitle) =>
      if t < |w.held| {
        var pressed := Button(w, left, hit, inTitle);
        ButtonKeeps(w, left, hit, inTitle);
        assert id in multiset(w.list) && id in multiset(pressed.list);
        ReleaseAllKeeps(pressed, t);
        DropIsIdle(ReleaseAll(pressed, t));
      }
    case OpFinishDraw(t) => if t < |w.held| { ReleaseAllKeeps(w, t); }
    case _ =>
  }

  /** An address taken while the window is listed goes bad exactly when the window is then off
      the list with nobody holding it, which takes a destroy in between. */
  lemma {:induction false} StaleAddress(callers: nat, ops: seq<Op>, more: seq<Op>, id: nat)
    requires id in Run(Boot(callers), ops).list
    ensures var later := Run(Run(Boot(callers), ops), more);
      && (TouchesFreed(later, id) <==> id !in later.list && Holders(later.held, id) == 0)
      && (TouchesFreed(later, id) ==> exists k :: 0 <= k < |more| && more[k].OpDestroy?)
  {
    BootInv(callers);
    RunKeeps(Boot(callers), ops);
    var w := Run(Boot(callers), ops);
    RunKeeps(w, more);
    var later := Run(w, more);
    assert WindowOk(w, id) && WindowOk(later, id);
    if forall k :: 0 <= k < |more| ==> !more[k].OpDestroy? { ListedStays(w, more, id); }
  }

  /** It does happen: a window is made and given to process 7, the process is destroyed, and
      the address is used once more. */
  lemma {:induction false} StaleExample(w: World, later: World)
    requires w == Run(Boot(1), [OpCreate, OpSetOwner(1, 7)]) && later == Run(w, [OpDestroy(7)])
    ensures 1 in w.list && TouchesFreed(later, 1)
  {
    var made := Create(Boot(1));
    assert [OpCreate, OpSetOwner(1, 7)][1..] == [OpSetOwner(1, 7)] && [OpSetOwner(1, 7)][1..] == [];
    assert [OpDestroy(7)][1..] == [];
    assert Run(SetOwner(made, 1, 7), []) == SetOwner(made, 1, 7);
    assert w == SetOwner(made, 1, 7) && w.list == [1];
    assert later == DestroyFrom(w, 7, 0);
    assert Unlink(w, 0).list == [];
    assert DestroyFrom(w, 7, 0) == DestroyFrom(Unlink(w, 0), 7, 0) == Unlink(w, 0);
  }
}
