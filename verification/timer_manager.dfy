/** The `TimerManager` of Common/Timer.cs: the list of running timers, the
    list of timers registered since the last frame, and the per-frame loop
    that merges, updates and prunes them.

    Timers are shared C# objects: the handle `Register` returns and the
    manager's lists point at the same timer. The model keeps every timer in
    `store` and lets handles and lists hold its index. */
module TimerManagers {

  import opened Wrappers
  import opened Seqs
  import opened Timers

  type TimerId = nat

  datatype Manager = Manager(
    store: seq<Timer>,          // every timer ever registered, by handle
    timers: seq<TimerId>,       // `_timers`: updated every frame
    timersToAdd: seq<TimerId>)  // `_timersToAdd`: joins `_timers` next frame

  /** Every handle in the lists names a stored timer. */
  ghost predicate InStore(store: seq<Timer>, ids: seq<TimerId>) {
    forall i :: 0 <= i < |ids| ==> ids[i] < |store|
  }

  /** The manager's invariant: lists name stored timers, and no timer is
      listed twice (each registration creates a new timer). */
  ghost predicate Valid(m: Manager) {
    && InStore(m.store, m.timers)
    && InStore(m.store, m.timersToAdd)
    && Distinct(m.timers + m.timersToAdd)
  }

  function Empty(): (m: Manager)
    ensures Valid(m)
  {
    Manager([], [], [])
  }

  datatype Registered = Registered(manager: Manager, id: TimerId)

  /** `RegisterTimer`: the timer is queued for the next frame and gets a
      handle no earlier timer has. */
  function RegisterTimer(m: Manager, t: Timer): (r: Registered)
    ensures r.id == |m.store| && |r.manager.store| == |m.store| + 1
    ensures InStore(m.store, m.timers + m.timersToAdd) ==> r.id !in m.timers && r.id !in m.timersToAdd
    ensures r.manager.store[r.id] == t
    ensures r.manager.store[..|m.store|] == m.store
    ensures r.manager.timers == m.timers
    ensures r.manager.timersToAdd == m.timersToAdd + [r.id]
    ensures Valid(m) ==> Valid(r.manager)
  {
    var id := |m.store|;
    var r := Registered(Manager(m.store + [t], m.timers, m.timersToAdd + [id]), id);
    assert InStore(m.store, m.timers + m.timersToAdd) ==> id !in m.timers + m.timersToAdd;
    assert r.manager.timers + r.manager.timersToAdd == (m.timers + m.timersToAdd) + [id];
    r
  }

  /** `Timer.Register`: builds a new timer at the current world time and
      registers it. */
  function Register(m: Manager, duration: real, isLooped: bool, usesRealTime: bool,
                    hasOwner: bool, c: Clock): (r: Registered)
    ensures r.id == |m.store| && |r.manager.store| == |m.store| + 1
    ensures var t := r.manager.store[r.id];
      && !t.IsDone() && !t.IsPaused()
      && t.duration == duration && t.isLooped == isLooped && t.usesRealTime == usesRealTime
      && (t.owner != NoOwner) == hasOwner
      && t.startTime == t.lastUpdateTime == WorldTime(t, c)
      && t.FireTime() == WorldTime(t, c) + duration
    ensures r.manager.store[..|m.store|] == m.store
    ensures r.manager.timers == m.timers
    ensures r.manager.timersToAdd == m.timersToAdd + [r.id]
    ensures Valid(m) ==> Valid(r.manager)
  {
    RegisterTimer(m, NewTimer(duration, isLooped, usesRealTime, hasOwner, c))
  }

  /** Applies `f` to each listed timer in the store, in list order. */
  function ApplyEach(store: seq<Timer>, ids: seq<TimerId>, f: Timer -> Timer): (r: seq<Timer>)
    requires InStore(store, ids)
    ensures |r| == |store|
    ensures forall k :: 0 <= k < |store| && k !in ids ==> r[k] == store[k]
    ensures Distinct(ids) ==> forall k :: k in ids ==> r[k] == f(store[k])
    decreases |ids|
  {
    if ids == [] then store
    else
      var store' := store[ids[0] := f(store[ids[0]])];
      assert forall i :: 0 <= i < |ids| ==> ids[i] in ids;
      ApplyEach(store', ids[1..], f)
  }

  datatype Updated = Updated(store: seq<Timer>, completed: seq<TimerId>)

  /** The `foreach` of `UpdateAllTimers`: updates each listed timer at its
      own world time, collecting the handles whose completion callback
      fired, in firing order. */
  function UpdateEach(store: seq<Timer>, ids: seq<TimerId>, c: Clock): (r: Updated)
    requires InStore(store, ids)
    ensures |r.store| == |store|
    ensures forall k :: 0 <= k < |store| && k !in ids ==> r.store[k] == store[k]
    ensures forall k :: k in r.completed ==> k in ids
    decreases |ids|
  {
    if ids == [] then Updated(store, [])
    else
      var id := ids[0];
      var step := Update(store[id], WorldTime(store[id], c));
      assert forall i :: 0 <= i < |ids| ==> ids[i] in ids;
      var rest := UpdateEach(store[id := step.timer], ids[1..], c);
      Updated(rest.store, (if step.fired then [id] else []) + rest.completed)
  }

  /** With no timer listed twice, each listed timer is updated exactly
      once. */
  lemma {:induction false} UpdateEachUpdates(store: seq<Timer>, ids: seq<TimerId>, c: Clock)
    requires InStore(store, ids) && Distinct(ids)
    ensures forall k :: k in ids ==>
      UpdateEach(store, ids, c).store[k] == Update(store[k], WorldTime(store[k], c)).timer
    decreases |ids|
  {
    if ids != [] {
      var id := ids[0];
      var store' := store[id := Update(store[id], WorldTime(store[id], c)).timer];
      assert forall i :: 0 <= i < |ids| ==> ids[i] in ids;
      DistinctTail(ids);
      UpdateEachUpdates(store', ids[1..], c);
      forall k | k in ids
        ensures UpdateEach(store, ids, c).store[k] == Update(store[k], WorldTime(store[k], c)).timer
      {
        if k != id {
          assert k in ids[1..];
        }
      }
    }
  }

  /** With no timer listed twice, a timer is reported complete iff it is
      listed and its update fired. */
  lemma {:induction false} UpdateEachCompleted(store: seq<Timer>, ids: seq<TimerId>, c: Clock)
    requires InStore(store, ids) && Distinct(ids)
    ensures forall k :: k in UpdateEach(store, ids, c).completed <==>
      k in ids && Update(store[k], WorldTime(store[k], c)).fired
    decreases |ids|
  {
    if ids != [] {
      var id := ids[0];
      var store' := store[id := Update(store[id], WorldTime(store[id], c)).timer];
      assert forall i :: 0 <= i < |ids| ==> ids[i] in ids;
      DistinctTail(ids);
      UpdateEachCompleted(store', ids[1..], c);
      var rest := UpdateEach(store', ids[1..], c).completed;
      forall k
        ensures k in UpdateEach(store, ids, c).completed <==>
          k in ids && Update(store[k], WorldTime(store[k], c)).fired
      {
        if k in ids[1..] {
          assert store'[k] == store[k];
        } else {
          assert k !in rest;
        }
      }
    }
  }

  datatype Frame = Frame(manager: Manager, completed: seq<TimerId>)

  /** `UpdateAllTimers`: pending timers join the running list, every
      running timer is updated once, and the timers that are done afterwards
      leave the list. */
  function UpdateAllTimers(m: Manager, c: Clock): (r: Frame)
    requires Valid(m)
    ensures Valid(r.manager)
    ensures r.manager.timersToAdd == []
    ensures |r.manager.store| == |m.store|
    ensures forall k :: 0 <= k < |m.store| && k !in m.timers && k !in m.timersToAdd ==>
      r.manager.store[k] == m.store[k]
    ensures forall k :: k in m.timers || k in m.timersToAdd ==>
      r.manager.store[k] == Update(m.store[k], WorldTime(m.store[k], c)).timer
    ensures forall k :: k in r.manager.timers ==> !r.manager.store[k].IsDone()
    ensures forall k :: k in r.manager.timers <==>
      (k in m.timers || k in m.timersToAdd) && !r.manager.store[k].IsDone()
    ensures forall k :: k in r.completed <==>
      (k in m.timers || k in m.timersToAdd) && Update(m.store[k], WorldTime(m.store[k], c)).fired
  {
    var merged := m.timers + m.timersToAdd;
    var updated := UpdateEach(m.store, merged, c);
    UpdateEachUpdates(m.store, merged, c);
    UpdateEachCompleted(m.store, merged, c);
    var s := updated.store;
    var kept := Filter(merged, (k: TimerId) => !(k < |s| && s[k].IsDone()));
    assert forall i :: 0 <= i < |kept| ==> kept[i] in kept;
    Frame(Manager(s, kept, []), updated.completed)
  }

  /** `CancelAllTimers`: cancels every running timer and forgets both lists.
      Timers still waiting to join are dropped without being cancelled. */
  function CancelAllTimers(m: Manager, c: Clock): (r: Manager)
    requires Valid(m)
    ensures r.timers == [] && r.timersToAdd == [] && Valid(r)
    ensures |r.store| == |m.store|
    ensures forall k :: k in m.timers ==> r.store[k].IsDone()
    ensures forall k :: k in m.timers ==> r.store[k] == Cancel(m.store[k], WorldTime(m.store[k], c))
    ensures forall k :: 0 <= k < |m.store| && k !in m.timers ==> r.store[k] == m.store[k]
  {
    DistinctSplit(m.timers, m.timersToAdd);
    Manager(ApplyEach(m.store, m.timers, t => Cancel(t, WorldTime(t, c))), [], [])
  }

  /** `PauseAllTimers`: pauses every running timer; pending ones are left
      alone. */
  function PauseAllTimers(m: Manager, c: Clock): (r: Manager)
    requires Valid(m)
    ensures r.timers == m.timers && r.timersToAdd == m.timersToAdd
    ensures |r.store| == |m.store|
    ensures forall k :: k in m.timers ==> r.store[k].IsPaused() || r.store[k].IsDone()
    ensures forall k :: k in m.timers ==> r.store[k] == Pause(m.store[k], WorldTime(m.store[k], c))
    ensures forall k :: 0 <= k < |m.store| && k !in m.timers ==> r.store[k] == m.store[k]
  {
    DistinctSplit(m.timers, m.timersToAdd);
    m.(store := ApplyEach(m.store, m.timers, t => Pause(t, WorldTime(t, c))))
  }

  /** `ResumeAllTimers`: resumes every running timer; pending ones are left
      alone. */
  function ResumeAllTimers(m: Manager): (r: Manager)
    requires Valid(m)
    ensures r.timers == m.timers && r.timersToAdd == m.timersToAdd
    ensures |r.store| == |m.store|
    ensures forall k :: k in m.timers ==> !r.store[k].IsPaused() || r.store[k].IsDone()
    ensures forall k :: k in m.timers ==> r.store[k] == Resume(m.store[k])
    ensures forall k :: 0 <= k < |m.store| && k !in m.timers ==> r.store[k] == m.store[k]
  {
    DistinctSplit(m.timers, m.timersToAdd);
    m.(store := ApplyEach(m.store, m.timers, Resume))
  }

  // ---------------------------------------------------------------------
  // Properties

  /** A registered timer runs from the next frame on: after that frame's
      update it is in the running list unless the update finished it. */
  lemma RegisteredTimerJoinsNextFrame(m: Manager, t: Timer, c: Clock)
    requires Valid(m)
    ensures var reg := RegisterTimer(m, t);
      var f := UpdateAllTimers(reg.manager, c);
      && f.manager.store[reg.id] == Update(t, WorldTime(t, c)).timer
      && (reg.id in f.manager.timers <==> !Update(t, WorldTime(t, c)).timer.IsDone())
  {
  }

  /** A looped timer that is not done stays registered through every frame:
      only cancelling it or destroying its owner removes it. */
  lemma LoopedTimerStaysRegistered(m: Manager, c: Clock, k: TimerId)
    requires Valid(m) && (k in m.timers || k in m.timersToAdd)
    requires m.store[k].isLooped && !m.store[k].IsDone()
    ensures k in UpdateAllTimers(m, c).manager.timers
  {
    LoopedTimerNeverCompletes(m.store[k], WorldTime(m.store[k], c));
  }

  /** A one-shot timer whose completion fires this frame is dropped from the
      running list in the same frame. */
  lemma FiredOneShotTimerIsDropped(m: Manager, c: Clock, k: TimerId)
    requires Valid(m) && (k in m.timers || k in m.timersToAdd)
    requires !m.store[k].isLooped
    requires k in UpdateAllTimers(m, c).completed
    ensures k !in UpdateAllTimers(m, c).manager.timers
    ensures UpdateAllTimers(m, c).manager.store[k].isCompleted
  {
  }

  /** `CancelAllTimers` does not cancel a timer still waiting to join: it is
      dropped from the manager but keeps running as far as its handle can
      tell. */
  lemma CancelAllSkipsPendingTimers(m: Manager, c: Clock, k: TimerId)
    requires Valid(m) && k in m.timersToAdd && !m.store[k].IsDone()
    ensures var r := CancelAllTimers(m, c);
      && !r.store[k].IsCancelled()
      && k !in r.timers && k !in r.timersToAdd
  {
    DistinctSplit(m.timers, m.timersToAdd);
  }
}
