/**
 The simple threads of osal/mpp_thread.c as a machine of steps: controllers call the functions
 of the object under its lock while the worker thread locks, waits and exits on its own.
 */
module SThread {

  datatype Status = Uninited | Ready | Running | Waiting | Stopping

  /** Who holds the recursive lock, and how often. */
  datatype Owner = Nobody | Controller(id: nat, depth: nat) | Worker

  /** Where the worker thread is: not created, outside the lock, inside it, asleep in
      `pthread_cond_wait`, woken but not yet holding the lock again, or returned. */
  datatype Place = Absent | Outside | Inside | Asleep | Woken | Exited

  /** `joining` names the controller inside `mpp_sthd_stop_sync`; creates and joins count the
      calls of pthread_create that succeeded and of pthread_join that returned. */
  datatype Thd = Thd(status: Status, owner: Owner, worker: Place, joining: bool, creates: int, joins: int)

  const FRESH := Thd(Uninited, Nobody, Absent, false, 0, 0)

  predicate Alive(s: Status) {
    s == Running || s == Waiting || s == Stopping
  }

  // ---- Steps

  datatype Label =
    | Setup(id: nat, func: bool)
    | Start(id: nat, created: bool)
    | Stop(id: nat)
    | StopSync(id: nat)
    | Joined(id: nat)
    | Lock(id: nat)
    | Unlock(id: nat)
    | Signal(id: nat)
    | WorkerLock
    | WorkerUnlock
    | WorkerWait
    | Spurious
    | WorkerResume
    | WorkerExit

  /** The lock is free for a controller, or already its own. */
  predicate MayLock(t: Thd, id: nat) {
    t.owner == Nobody || (t.owner.Controller? && t.owner.id == id && !t.joining)
  }

  predicate Enabled(t: Thd, l: Label) {
    match l
    case Setup(id, _) => MayLock(t, id)
    case Start(id, _) => MayLock(t, id)
    case Stop(id) => MayLock(t, id)
    case StopSync(id) => MayLock(t, id)
    case Joined(id) => t.joining && t.owner.Controller? && t.owner.id == id && t.owner.depth > 0 && t.worker == Exited
    case Lock(id) => MayLock(t, id)
    case Unlock(id) => t.owner.Controller? && t.owner.id == id && t.owner.depth > 0 && !t.joining
    case Signal(id) => !(t.joining && t.owner.Controller? && t.owner.id == id)
    case WorkerLock => t.worker == Outside && t.owner == Nobody
    case WorkerUnlock => t.worker == Inside
    case WorkerWait => t.worker == Inside
    case Spurious => t.worker == Asleep
    case WorkerResume => t.worker == Woken && t.owner == Nobody
    case WorkerExit => t.worker == Outside
  }

  function Wake(p: Place): Place {
    if p == Asleep then Woken else p
  }

  function Deeper(o: Owner, id: nat): Owner {
    Controller(id, if o.Controller? then o.depth + 1 else 1)
  }

  function Shallower(o: Owner): Owner
    requires o.Controller? && o.depth > 0
  {
    if o.depth == 1 then Nobody else Controller(o.id, o.depth - 1)
  }

  /** One step. The guarded calls do nothing but log on a status they do not expect;
      `mpp_sthd_create` sets RUNNING first and takes it back when the create fails. */
  function Next(t: Thd, l: Label): Thd
    requires Enabled(t, l)
  {
    match l
    case Setup(_, func) =>
      if t.status == Uninited || t.status == Ready then t.(status := if func then Ready else Uninited) else t
    case Start(_, created) =>
      if t.status == Ready && created then t.(status := Running, creates := t.creates + 1, worker := Outside) else t
    case Stop(_) =>
      if t.status == Running || t.status == Waiting then t.(status := Stopping, worker := Wake(t.worker)) else t
    case StopSync(id) =>
      if t.status == Stopping then t.(owner := Deeper(t.owner, id), joining := true) else t
    case Joined(_) =>
      t.(joins := t.joins + 1, worker := Absent, status := Ready, owner := Shallower(t.owner), joining := false)
    case Lock(id) => t.(owner := Deeper(t.owner, id))
    case Unlock(_) => t.(owner := Shallower(t.owner))
    case Signal(_) => t.(worker := Wake(t.worker))
    case WorkerLock => t.(worker := Inside, owner := Worker)
    case WorkerUnlock => t.(worker := Outside, owner := Nobody)
    case WorkerWait =>
      t.(status := if t.status == Running then Waiting else t.status, worker := Asleep, owner := Nobody)
    case Spurious => t.(worker := Woken)
    case WorkerResume =>
      t.(status := if t.status == Waiting then Running else t.status, worker := Inside, owner := Worker)
    case WorkerExit => t.(worker := Exited)
  }

  predicate CanRun(t: Thd, labels: seq<Label>)
    decreases |labels|
  {
    labels == [] || (Enabled(t, labels[0]) && CanRun(Next(t, labels[0]), labels[1..]))
  }

  function Run(t: Thd, labels: seq<Label>): Thd
    requires CanRun(t, labels)
    decreases |labels|
  {
    if labels == [] then t else Run(Next(t, labels[0]), labels[1..])
  }

  // ---- What every step keeps

  predicate InWait(p: Place) {
    p == Asleep || p == Woken
  }

  predicate Inv(t: Thd) {
    && t.creates - t.joins == (if Alive(t.status) then 1 else 0)
    && (t.worker == Absent <==> !Alive(t.status))
    && (t.owner == Worker <==> t.worker == Inside)
    && (t.owner.Controller? ==> t.owner.depth > 0)
    && (t.status == Waiting ==> InWait(t.worker))
    && (InWait(t.worker) ==> t.status == Waiting || t.status == Stopping)
    && (t.joining ==> t.status == Stopping && t.owner.Controller?)
  }

  lemma NextInv(t: Thd, l: Label)
    requires Inv(t) && Enabled(t, l)
    ensures Inv(Next(t, l))
  {
  }

  lemma {:induction false} RunInv(t: Thd, labels: seq<Label>)
    requires Inv(t) && CanRun(t, labels)
    ensures Inv(Run(t, labels))
    decreases |labels|
  {
    hide Inv, Next, Enabled;
    if labels != [] {
      NextInv(t, labels[0]);
      RunInv(Next(t, labels[0]), labels[1..]);
    }
  }

  /** In every interleaving, creates exceed joins by one exactly while the status is RUNNING,
      WAITING or STOPPING, and WAITING is shown exactly while the worker is in a wait that no
      stop has interrupted. */
  lemma EveryRun(labels: seq<Label>)
    requires CanRun(FRESH, labels)
    ensures var t := Run(FRESH, labels);
            && (t.creates - t.joins == 1 <==> Alive(t.status)) && 0 <= t.creates - t.joins <= 1
            && (t.status == Waiting <==> InWait(t.worker) && t.status != Stopping)
  {
    hide *;
    FreshInv();
    RunInv(FRESH, labels);
    InvMeans(Run(FRESH, labels));
  }

  lemma FreshInv()
    ensures Inv(FRESH)
  {
  }

  lemma InvMeans(t: Thd)
    requires Inv(t)
    ensures (t.creates - t.joins == 1 <==> Alive(t.status)) && 0 <= t.creates - t.joins <= 1
    ensures t.status == Waiting <==> InWait(t.worker) && t.status != Stopping
  {
  }

  // ---- STOPPING lasts until the join

  lemma StoppingStays(t: Thd, l: Label)
    requires Enabled(t, l) && t.status == Stopping && !l.Joined?
    ensures Next(t, l).status == Stopping
  {
  }

  /** STOPPING survives every call and every worker wait until the join. */
  lemma {:induction false} StoppingSurvives(t: Thd, labels: seq<Label>)
    requires CanRun(t, labels) && t.status == Stopping && forall l | l in labels :: !l.Joined?
    ensures Run(t, labels).status == Stopping
    decreases |labels|
  {
    hide Next, Enabled;
    if labels != [] {
      StoppingStays(t, labels[0]);
      StoppingSurvives(Next(t, labels[0]), labels[1..]);
    }
  }

  // ---- The join under the lock

  lemma JoinBlockedStays(t: Thd, l: Label)
    requires Inv(t) && Enabled(t, l) && t.joining && InWait(t.worker)
    ensures Next(t, l).joining && InWait(Next(t, l).worker)
  {
  }

  /** `mpp_sthd_stop_sync` joins with the lock held. A worker that is still in a wait at that
      point needs the lock to come back, so the join does not return in any continuation. */
  lemma {:induction false} JoinDeadlocks(t: Thd, labels: seq<Label>)
    requires Inv(t) && CanRun(t, labels) && t.joining && InWait(t.worker)
    ensures Run(t, labels).joining && InWait(Run(t, labels).worker)
    decreases |labels|
  {
    hide Inv, Next, Enabled, InWait;
    if labels != [] {
      NextInv(t, labels[0]);
      JoinBlockedStays(t, labels[0]);
      JoinDeadlocks(Next(t, labels[0]), labels[1..]);
    }
  }

  /** The join can return exactly when the worker is not in a wait when it begins. */
  lemma JoinReturnsIff(t: Thd)
    requires Inv(t) && t.joining
    ensures (exists labels :: CanRun(t, labels) && !Run(t, labels).joining) <==> !InWait(t.worker)
  {
    if InWait(t.worker) {
      forall labels | CanRun(t, labels)
        ensures Run(t, labels).joining
      {
        JoinDeadlocks(t, labels);
      }
    } else {
      JoinReturns(t);
    }
  }

  lemma JoinReturns(t: Thd)
    requires Inv(t) && t.joining && !InWait(t.worker)
    ensures exists labels :: CanRun(t, labels) && !Run(t, labels).joining
  {
    var joined := Joined(t.owner.id);
    if t.worker == Exited {
      OneLabel(t, joined);
    } else {
      var u := Next(t, WorkerExit);
      OneLabel(u, joined);
      assert CanRun(t, [WorkerExit] + [joined]) && Run(t, [WorkerExit] + [joined]) == Run(u, [joined]) by {
        assert ([WorkerExit] + [joined])[1..] == [joined];
      }
    }
  }

  lemma OneLabel(t: Thd, l: Label)
    requires Enabled(t, l)
    ensures CanRun(t, [l]) && Run(t, [l]) == Next(t, l)
  {
    assert [l][1..] == [];
  }

  lemma Chain(t: Thd, l: Label, rest: seq<Label>)
    requires Enabled(t, l) && CanRun(Next(t, l), rest)
    ensures CanRun(t, [l] + rest) && Run(t, [l] + rest) == Run(Next(t, l), rest)
  {
    hide Next, Enabled;
    assert ([l] + rest)[1..] == rest;
  }

  /** The deadlock is reached by the ordinary sequence of calls when `stop` and `stop_sync`
      follow each other before the worker has the lock back. */
  lemma DeadlockReached() returns (labels: seq<Label>)
    ensures CanRun(FRESH, labels)
    ensures var t := Run(FRESH, labels); t.joining && InWait(t.worker) && t.owner == Controller(0, 1)
  {
    var t1 := Next(FRESH, Setup(0, true));
    var t2 := Next(t1, Start(0, true));
    var t3 := Next(t2, WorkerLock);
    var t4 := Next(t3, WorkerWait);
    var t5 := Next(t4, Stop(0));
    OneLabel(t5, StopSync(0));
    Chain(t4, Stop(0), [StopSync(0)]);
    Chain(t3, WorkerWait, [Stop(0)] + [StopSync(0)]);
    Chain(t2, WorkerLock, [WorkerWait] + ([Stop(0)] + [StopSync(0)]));
    Chain(t1, Start(0, true), [WorkerLock] + ([WorkerWait] + ([Stop(0)] + [StopSync(0)])));
    labels := [Setup(0, true)] + ([Start(0, true)] + ([WorkerLock] + ([WorkerWait] + ([Stop(0)] + [StopSync(0)]))));
    Chain(FRESH, Setup(0, true), [Start(0, true)] + ([WorkerLock] + ([WorkerWait] + ([Stop(0)] + [StopSync(0)]))));
  }
}
