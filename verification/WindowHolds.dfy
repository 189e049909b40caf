/** The window list as it runs (src/kernel/window.c): windows linked through themselves,
    reference counts raised and lowered in place, and every locked section proved to be the
    step of WindowLifetime it stands for. */
module WindowHolds {
  import opened Common
  import opened WindowLifetime

  datatype Rec = Rec(refs: nat, destroyed: bool, owner: nat, next: nat)

  ghost function View(recs: map<nat, Rec>): (objs: map<nat, Obj>)
    ensures objs.Keys == recs.Keys
    ensures forall id :: id in recs ==> objs[id] == Obj(recs[id].refs, recs[id].destroyed, recs[id].owner)
  {
    map id | id in recs :: Obj(recs[id].refs, recs[id].destroyed, recs[id].owner)
  }

  lemma ViewUpdate(recs: map<nat, Rec>, id: nat, r: Rec)
    ensures View(recs[id := r]) == View(recs)[id := Obj(r.refs, r.destroyed, r.owner)]
  {
  }

  lemma ViewRemove(recs: map<nat, Rec>, id: nat)
    ensures View(recs - {id}) == View(recs) - {id}
  {
  }

  function At(list: seq<nat>, k: nat): nat {
    if k < |list| then list[k] else 0
  }

  ghost predicate LinkOk(recs: map<nat, Rec>, list: seq<nat>, k: nat)
    requires k < |list|
  {
    list[k] != 0 && list[k] in recs && recs[list[k]].next == At(list, k + 1)
  }

  /** The chain from head lists exactly `list`. */
  ghost predicate Linked(recs: map<nat, Rec>, head: nat, list: seq<nat>) {
    head == At(list, 0) && NoDup(list) && forall k {:trigger LinkOk(recs, list, k)} :: 0 <= k < |list| ==> LinkOk(recs, list, k)
  }

  /** Records change freely as long as no link on the chain does. */
  lemma LinkedKept(recs: map<nat, Rec>, head: nat, list: seq<nat>, recs': map<nat, Rec>)
    requires Linked(recs, head, list)
    requires forall id :: id in list ==> id in recs' && (id in recs ==> recs'[id].next == recs[id].next)
    ensures Linked(recs', head, list)
  {
    forall k | 0 <= k < |list| ensures LinkOk(recs', list, k) { assert LinkOk(recs, list, k); }
  }

  lemma NoNull(recs: map<nat, Rec>, head: nat, list: seq<nat>)
    requires Linked(recs, head, list)
    ensures 0 !in list && forall x :: x in list ==> x in recs
  {
    forall x | x in list ensures x != 0 && x in recs {
      var k :| 0 <= k < |list| && list[k] == x;
      assert LinkOk(recs, list, k);
    }
  }

  /** The chain with position i cut out. */
  lemma LinkedWithout(recs: map<nat, Rec>, head: nat, list: seq<nat>, i: nat, recs': map<nat, Rec>, head': nat)
    requires Linked(recs, head, list) && i < |list| && (i > 0 ==> LinkOk(recs, list, i - 1))
    requires recs' == if i == 0 then recs else recs[list[i - 1] := recs[list[i - 1]].(next := At(list, i + 1))]
    requires head' == if i == 0 then At(list, 1) else head
    ensures Linked(recs', head', list[..i] + list[i + 1..])
  {
    var rest := list[..i] + list[i + 1..];
    WithoutAt(list, i);
    forall k | 0 <= k < |rest| ensures LinkOk(recs', rest, k) {
      assert LinkOk(recs, list, if k < i then k else k + 1);
    }
  }

  /** The chain with position i moved to the front. */
  lemma LinkedRaised(recs: map<nat, Rec>, head: nat, list: seq<nat>, i: nat, recs': map<nat, Rec>)
    requires Linked(recs, head, list) && 0 < i < |list|
    requires LinkOk(recs, list, i - 1) && LinkOk(recs, list, i)
    requires var cut := recs[list[i - 1] := recs[list[i - 1]].(next := recs[list[i]].next)];
      recs' == cut[list[i] := cut[list[i]].(next := head)]
    ensures Linked(recs', list[i], [list[i]] + list[..i] + list[i + 1..])
  {
    var raised, rest := [list[i]] + list[..i] + list[i + 1..], list[..i] + list[i + 1..];
    var cut := recs[list[i - 1] := recs[list[i - 1]].(next := At(list, i + 1))];
    LinkedWithout(recs, head, list, i, cut, head);
    WithoutAt(list, i);
    assert raised == [list[i]] + rest;
    forall k | 0 <= k < |raised| ensures LinkOk(recs', raised, k) {
      if k > 0 { assert LinkOk(cut, rest, k - 1); }
    }
  }

  class WindowList {
    var recs: map<nat, Rec>
    var head: nat              // window_list
    var dragging: nat          // dragging_window; 0 is the null pointer
    var nextId: nat
    ghost var list: seq<nat>
    ghost var held: seq<seq<nat>>
    ghost var frees: seq<nat>

    ghost function W(): World
      reads this
    {
      World(View(recs), list, if dragging == 0 then None else Some(dragging), nextId, held, frees)
    }

    ghost predicate Valid()
      reads this
    {
      Linked(recs, head, list) && Inv(W())
    }

    constructor (ghost callers: nat)
      ensures Valid() && W() == Boot(callers)
    {
      recs := map[];
      head, dragging, nextId := 0, 0, 1;
      list, held, frees := [], seq(callers, _ => []), [];
      new;
      BootInv(callers);
    }

    /** window_create. */
    method WindowCreate() returns (id: nat)
      requires Valid()
      modifies this
      ensures Valid() && W() == Create(old(W())) && id == old(nextId)
    {
      ghost var was := W();
      CreateKeeps(was);
      assert WindowLifetime.WindowOk(was, nextId);
      id := nextId;
      nextId := nextId + 1;
      var rec := Rec(0, false, 0, head);
      ghost var old_list, old_recs, old_head := list, recs, head;
      ViewUpdate(recs, id, rec);
      recs := recs[id := rec];
      head := id;
      list := [id] + list;
      NoNull(old_recs, old_head, old_list);
      LinkedKept(old_recs, old_head, old_list, recs);
      forall k | 0 <= k < |list| ensures LinkOk(recs, list, k) {
        if k > 0 { assert LinkOk(recs, old_list, k - 1); }
      }
    }

    /** A record changed without touching its link. */
    method Update(id: nat, r: Rec)
      requires Linked(recs, head, list) && id in recs && r.next == recs[id].next
      modifies this`recs
      ensures Linked(recs, head, list) && recs == old(recs)[id := r]
      ensures View(recs) == View(old(recs))[id := Obj(r.refs, r.destroyed, r.owner)]
    {
      ViewUpdate(recs, id, r);
      ghost var was := recs;
      recs := recs[id := r];
      forall k | 0 <= k < |list| ensures list[k] in recs && recs[list[k]].next == was[list[k]].next {
        assert LinkOk(was, list, k);
      }
      LinkedKept(was, head, list, recs);
    }

    /** window_set_owner. */
    method WindowSetOwner(id: nat, pid: nat)
      requires Valid()
      modifies this`recs
      ensures Valid() && W() == SetOwner(old(W()), id, pid)
    {
      ghost var was := W();
      SetOwnerKeeps(was, id, pid);
      if id in recs && !recs[id].destroyed {
        Update(id, recs[id].(owner := pid));
      }
    }

    /** snapshot_window_list by caller t: at most sixteen windows, each retained. */
    method SnapshotWindowList(ghost t: nat) returns (ids: seq<nat>)
      requires Valid() && t < |held| && held[t] == []
      modifies this`recs, this`held
      ensures Valid() && W() == Snapshot(old(W()), t, 0)
      ensures t < |held| && ids == held[t] == list[..Limit(|list|)]
    {
      ghost var was := W();
      SnapshotKeeps(was, t, 0);
      ids := [];
      var curr := head;
      while curr != 0 && |ids| < SNAPSHOT
        invariant Valid() && t < |held| && |ids| <= Limit(|list|) && list == was.list
        invariant ids == held[t] == list[..|ids|] && curr == At(list, |ids|)
        invariant Snapshot(W(), t, |ids|) == Snapshot(was, t, 0)
        decreases SNAPSHOT - |ids|
      {
        ghost var k := |ids|;
        assert k < |list| && curr == list[k] && LinkOk(recs, list, k);
        assert curr !in list[..k];
        RetainWindow(t, curr);
        ids := ids + [curr];
        assert list[..k] + [curr] == list[..k + 1];
        assert LinkOk(recs, list, k);
        curr := recs[curr].next;
      }
      NoNull(recs, head, list);
    }

    /** retain_window_locked, for caller t's snapshot. */
    method RetainWindow(ghost t: nat, id: nat)
      requires Valid() && t < |held| && id in list && id !in held[t]
      modifies this`recs, this`held
      ensures id in old(W()).objs && Valid() && W() == Retain(old(W()), t, id)
    {
      RetainKeeps(W(), t, id);
      Update(id, recs[id].(refs := recs[id].refs + 1));
      held := held[t := held[t] + [id]];
    }

    /** free_window: the record is gone. */
    method Free(id: nat)
      requires Linked(recs, head, list) && id !in list && id in recs
      modifies this`recs, this`frees
      ensures Linked(recs, head, list) && recs == old(recs) - {id} && View(recs) == View(old(recs)) - {id}
      ensures frees == old(frees) + [id]
    {
      ViewRemove(recs, id);
      ghost var was := recs;
      recs := recs - {id};
      frees := frees + [id];
      forall k | 0 <= k < |list| ensures list[k] in recs {
        assert LinkOk(was, list, k);
      }
      LinkedKept(was, head, list, recs);
    }

    /** release_window_locked, on the first window of caller t's snapshot. */
    method ReleaseWindow(ghost t: nat, id: nat)
      requires Valid() && t < |held| && held[t] != [] && held[t][0] == id
      modifies this`recs, this`held, this`frees
      ensures Valid() && W() == ReleaseFirst(old(W()), t)
    {
      ghost var was := W();
      ReleaseKeeps(was, t);
      HolderCounts(held, t, id);
      assert WindowLifetime.WindowOk(was, id);
      held := held[t := held[t][1..]];
      Update(id, recs[id].(refs := recs[id].refs - 1));
      if recs[id].destroyed && recs[id].refs == 0 {
        Free(id);
      }
    }

    /** release_window_refs_locked. */
    method ReleaseWindowRefs(ghost t: nat, ids: seq<nat>)
      requires Valid() && t < |held| && ids == held[t]
      modifies this`recs, this`held, this`frees
      ensures Valid() && W() == ReleaseAll(old(W()), t)
    {
      ghost var was := W();
      var i := 0;
      while i < |ids|
        invariant i <= |ids| && Valid() && t < |held| && held[t] == ids[i..]
        invariant ReleaseAll(W(), t) == ReleaseAll(was, t)
      {
        ReleaseWindow(t, ids[i]);
        i := i + 1;
      }
    }

    /** window_destroy_by_pid. */
    method WindowDestroyByPid(pid: nat)
      requires Valid()
      modifies this`recs, this`head, this`dragging, this`list, this`frees
      ensures Valid() && W() == DestroyFrom(old(W()), pid, 0)
    {
      ghost var was := W();
      ghost var i := 0;
      var curr, prev := head, 0;
      while curr != 0
        invariant Valid() && i <= |list| && held == was.held
        invariant curr == At(list, i) && prev == (if i == 0 then 0 else list[i - 1])
        invariant DestroyFrom(W(), pid, i) == DestroyFrom(was, pid, 0)
        decreases |list| - i
      {
        assert LinkOk(recs, list, i);
        if recs[curr].owner == pid {
          curr := TakeOff(i, curr, prev);
        } else {
          prev := curr;
          curr := recs[curr].next;
          i := i + 1;
        }
      }
      NoNull(recs, head, list);
    }

    /** One window unlinked, let go by the mouse, marked, and freed unless somebody holds it. */
    method TakeOff(ghost i: nat, id: nat, prev: nat) returns (next: nat)
      requires Valid() && i < |list| && id == list[i] && prev == (if i == 0 then 0 else list[i - 1])
      modifies this`recs, this`head, this`dragging, this`list, this`frees
      ensures id in old(W()).objs && Valid() && W() == Unlink(old(W()), i) && next == At(list, i)
    {
      ghost var was := W();
      UnlinkKeeps(was, i);
      next := Cut(i, id, prev);
      WithoutAt(was.list, i);
      if dragging == id { dragging := 0; }
      Update(id, recs[id].(destroyed := true));
      if recs[id].refs == 0 { Free(id); }
    }

    /** The links past position i. */
    method Cut(ghost i: nat, id: nat, prev: nat) returns (next: nat)
      requires Linked(recs, head, list) && i < |list| && id == list[i] && prev == (if i == 0 then 0 else list[i - 1])
      modifies this`recs, this`head, this`list
      ensures Linked(recs, head, list) && id in recs && View(recs) == View(old(recs))
      ensures list == old(list)[..i] + old(list)[i + 1..] && next == At(list, i)
    {
      ghost var old_list, old_recs, old_head := list, recs, head;
      NoNull(recs, head, list);
      assert LinkOk(recs, list, i);
      next := recs[id].next;
      if prev != 0 {
        assert LinkOk(recs, list, i - 1);
        ViewUpdate(recs, prev, recs[prev].(next := next));
        recs := recs[prev := recs[prev].(next := next)];
      } else {
        head := next;
      }
      list := list[..i] + list[i + 1..];
      LinkedWithout(old_recs, old_head, old_list, i, recs, head);
    }

    /** The second locked section of window_update. */
    method FinishWindowUpdate(ghost t: nat, ids: seq<nat>, left: bool, hit: Option<nat>, inTitle: bool)
      requires Valid() && t < |held| && ids == held[t]
      requires hit.Some? ==> hit.value in ids
      modifies this`recs, this`head, this`dragging, this`list, this`held, this`frees
      ensures Valid() && W() == FinishUpdate(old(W()), t, left, hit, inTitle)
    {
      ghost var was := W();
      ButtonKeeps(was, left, hit, inTitle);
      if hit.Some? { NoUseAfterFree(was, hit.value); }
      if dragging != 0 { NoUseAfterFree(was, dragging); }
      if left {
        if dragging == 0 {
          if hit.Some? && !recs[hit.value].destroyed && inTitle { GrabWindow(hit.value); }
        }
      } else {
        dragging := 0;
      }
      assert W() == Button(was, left, hit, inTitle);
      ReleaseWindowRefs(t, ids);
      ReleaseAllKeeps(Button(was, left, hit, inTitle), t);
      DropIsIdle(W());
    }

    /** The press on a title: hold the window and splice it to the front. */
    method GrabWindow(id: nat)
      requires Valid() && id in recs && !recs[id].destroyed
      modifies this`recs, this`head, this`dragging, this`list
      ensures var i := Position(old(list), id); i < |old(list)| && Valid() && W() == Grab(old(W()), i)
    {
      ghost var was := W();
      assert WindowLifetime.WindowOk(was, id);
      ghost var i := Position(list, id);
      GrabKeeps(was, i);
      assert LinkOk(recs, list, i);
      dragging := id;
      if id != head {
        ghost var j := 0;
        var prev := head;
        while prev != 0 && recs[prev].next != id
          invariant j < i && prev == list[j] && LinkOk(recs, list, j)
          decreases i - j
        {
          assert LinkOk(recs, list, j + 1);
          j := j + 1;
          prev := recs[prev].next;
        }
        assert j + 1 == i;
        Splice(i, id, prev);
      } else {
        assert i == 0;
        assert [id] + list[..0] + list[1..] == list;
      }
    }

    method Splice(ghost i: nat, id: nat, prev: nat)
      requires Linked(recs, head, list) && 0 < i < |list| && id == list[i] && prev == list[i - 1]
      modifies this`recs, this`head, this`list
      ensures Linked(recs, head, list) && View(recs) == View(old(recs))
      ensures list == [id] + old(list)[..i] + old(list)[i + 1..]
    {
      assert LinkOk(recs, list, i) && LinkOk(recs, list, i - 1);
      ghost var old_recs, old_list, old_head := recs, list, head;
      ViewUpdate(recs, prev, recs[prev].(next := recs[id].next));
      recs := recs[prev := recs[prev].(next := recs[id].next)];
      ViewUpdate(recs, id, recs[id].(next := head));
      recs := recs[id := recs[id].(next := head)];
      head := id;
      list := [id] + list[..i] + list[i + 1..];
      LinkedRaised(old_recs, old_head, old_list, i, recs);
    }
  }
}
