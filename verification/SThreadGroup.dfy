/**
 Groups of simple threads in osal/mpp_thread.c: the group calls visit the members one by one, and
 between two visits the workers of all members go on.
 */
module SThreadGroup {
  import opened SThread

  /** The group call in progress, with the members already visited. */
  datatype Call = NoCall | SettingUp(func: bool, done: nat) | Starting(done: nat) | StoppingAll(done: nat) | JoiningAll(done: nat)

  datatype Group = Group(status: Status, call: Call, thds: seq<Thd>)

  function FreshGroup(count: nat): Group {
    Group(Uninited, NoCall, seq(count, _ => FRESH))
  }

  // ---- Steps

  /** A group call begins, visits its next member, or ends; or a worker takes a step. */
  datatype Move =
    | Begin(call: Call)
    | Visit(created: bool)
    | End
    | Work(member: nat, step: Label)

  predicate IsWork(l: Label) {
    l.WorkerLock? || l.WorkerUnlock? || l.WorkerWait? || l.Spurious? || l.WorkerResume? || l.WorkerExit?
  }

  /** Whether a group call passes its check of the group status. */
  predicate Passes(g: Group, c: Call) {
    match c
    case SettingUp(_, done) => done == 0 && (g.status == Uninited || g.status == Ready)
    case Starting(done) => done == 0 && g.status == Ready
    case StoppingAll(done) => done == 0 && (g.status == Running || g.status == Waiting)
    case JoiningAll(done) => done == 0 && g.status == Stopping
    case NoCall => false
  }

  function Progress(c: Call): nat {
    match c
    case NoCall => 0
    case SettingUp(_, done) => done
    case Starting(done) => done
    case StoppingAll(done) => done
    case JoiningAll(done) => done
  }

  /** The next member can be visited: start and stop take its lock, the join needs the worker to
      have returned. */
  predicate MayVisit(g: Group) {
    && g.call != NoCall && Progress(g.call) < |g.thds|
    && var t := g.thds[Progress(g.call)];
       match g.call
       case SettingUp(_, _) => true
       case Starting(_) => t.owner == Nobody
       case StoppingAll(_) => t.owner == Nobody
       case _ => t.worker == Exited
  }

  /** What a group call does to one member. */
  function Visited(c: Call, t: Thd, created: bool): Thd {
    match c
    case SettingUp(func, _) => t.(status := if func then Ready else Uninited)
    case Starting(_) => if MayLock(t, 0) then Next(t, SThread.Start(0, created)) else t
    case StoppingAll(_) => t.(status := Stopping, worker := Wake(t.worker))
    case JoiningAll(_) => t.(joins := t.joins + 1, worker := Absent, status := Ready)
    case NoCall => t
  }

  function Advance(c: Call): Call {
    match c
    case NoCall => NoCall
    case SettingUp(func, done) => SettingUp(func, done + 1)
    case Starting(done) => Starting(done + 1)
    case StoppingAll(done) => StoppingAll(done + 1)
    case JoiningAll(done) => JoiningAll(done + 1)
  }

  /** `mpp_sthd_grp_stop` sets the group status first, the other calls set it last. */
  function StatusAtBegin(g: Group, c: Call): Status {
    if c.StoppingAll? then Stopping else g.status
  }

  function StatusAtEnd(g: Group): Status {
    match g.call
    case SettingUp(func, _) => if func then Ready else Uninited
    case Starting(_) => Running
    case JoiningAll(_) => Ready
    case _ => g.status
  }

  predicate MayMove(g: Group, m: Move) {
    match m
    case Begin(c) => g.call == NoCall && Passes(g, c)
    case Visit(_) => MayVisit(g)
    case End => g.call != NoCall && Progress(g.call) == |g.thds|
    case Work(i, l) => i < |g.thds| && IsWork(l) && SThread.Enabled(g.thds[i], l)
  }

  function Moved(g: Group, m: Move): (r: Group)
    requires MayMove(g, m)
    ensures |r.thds| == |g.thds|
  {
    match m
    case Begin(c) => g.(status := StatusAtBegin(g, c), call := c)
    case Visit(created) =>
      var i := Progress(g.call);
      g.(thds := g.thds[i := Visited(g.call, g.thds[i], created)], call := Advance(g.call))
    case End => g.(status := StatusAtEnd(g), call := NoCall)
    case Work(i, l) => g.(thds := g.thds[i := Next(g.thds[i], l)])
  }

  predicate CanMove(g: Group, ms: seq<Move>)
    decreases |ms|
  {
    ms == [] || (MayMove(g, ms[0]) && CanMove(Moved(g, ms[0]), ms[1..]))
  }

  function After(g: Group, ms: seq<Move>): (r: Group)
    requires CanMove(g, ms)
    ensures |r.thds| == |g.thds|
    decreases |ms|
  {
    if ms == [] then g else After(Moved(g, ms[0]), ms[1..])
  }

  /** A visit of the start call whose create fails. */
  predicate FailsCreate(g: Group, m: Move) {
    g.call.Starting? && m.Visit? && !m.created
  }

  /** No create fails. */
  predicate AllCreated(g: Group, ms: seq<Move>)
    requires CanMove(g, ms)
    decreases |ms|
  {
    ms == [] || (!FailsCreate(g, ms[0]) && AllCreated(Moved(g, ms[0]), ms[1..]))
  }

  // ---- Agreement

  /** A member shows what the group shows; a running group's members may be waiting. */
  predicate Matches(status: Status, t: Thd) {
    if status == Running then t.status == Running || t.status == Waiting else t.status == status
  }

  /** The status that members already visited, and members still to be visited, agree with. */
  function VisitedStatus(g: Group): Status {
    match g.call
    case NoCall => g.status
    case SettingUp(func, _) => if func then Ready else Uninited
    case Starting(_) => Running
    case StoppingAll(_) => Stopping
    case JoiningAll(_) => Ready
  }

  function UnvisitedStatus(g: Group): Status {
    if g.call.StoppingAll? then Running else g.status
  }

  predicate Member(g: Group, i: nat, t: Thd) {
    && Inv(t) && !t.owner.Controller?
    && Matches(if i < Progress(g.call) then VisitedStatus(g) else UnvisitedStatus(g), t)
  }

  predicate Agree(g: Group) {
    && g.status != Waiting && Progress(g.call) <= |g.thds|
    && (forall i: nat | i < |g.thds| :: Member(g, i, g.thds[i]))
    && (match g.call
        case NoCall => true
        case SettingUp(_, _) => g.status == Uninited || g.status == Ready
        case Starting(_) => g.status == Ready
        case StoppingAll(_) => g.status == Stopping
        case JoiningAll(_) => g.status == Stopping)
  }

  lemma WorkMatches(status: Status, t: Thd, l: Label)
    requires Inv(t) && !t.owner.Controller? && Matches(status, t) && status != Waiting
    requires IsWork(l) && SThread.Enabled(t, l)
    ensures var u := Next(t, l); Inv(u) && !u.owner.Controller? && Matches(status, u)
  {
  }

  lemma VisitMatches(g: Group, t: Thd, created: bool)
    requires Agree(g) && MayVisit(g) && t == g.thds[Progress(g.call)] && (g.call.Starting? ==> created)
    ensures var u := Visited(g.call, t, created); Inv(u) && !u.owner.Controller? && Matches(VisitedStatus(g), u)
  {
    assert Member(g, Progress(g.call), t);
  }

  lemma MoveAgrees(g: Group, m: Move)
    requires Agree(g) && MayMove(g, m) && !FailsCreate(g, m)
    ensures Agree(Moved(g, m))
  {
    hide Inv, Next, Enabled, MayVisit, Visited;
    var r := Moved(g, m);
    match m
    case Begin(c) =>
      forall i: nat | i < |g.thds|
        ensures Member(r, i, r.thds[i])
      {
        assert Member(g, i, g.thds[i]);
      }
    case End =>
      forall i: nat | i < |g.thds|
        ensures Member(r, i, r.thds[i])
      {
        assert Member(g, i, g.thds[i]);
      }
    case Visit(created) =>
      var k := Progress(g.call);
      VisitedInRange(g);
      VisitMatches(g, g.thds[k], created);
      forall i: nat | i < |g.thds|
        ensures Member(r, i, r.thds[i])
      {
        assert Member(g, i, g.thds[i]);
      }
    case Work(k, l) =>
      assert Member(g, k, g.thds[k]);
      WorkMatches(if k < Progress(g.call) then VisitedStatus(g) else UnvisitedStatus(g), g.thds[k], l);
      forall i: nat | i < |g.thds|
        ensures Member(r, i, r.thds[i])
      {
        assert Member(g, i, g.thds[i]);
      }
  }

  lemma VisitedInRange(g: Group)
    requires MayVisit(g)
    ensures g.call != NoCall && Progress(g.call) < |g.thds|
  {
  }

  lemma {:induction false} RunAgrees(g: Group, ms: seq<Move>)
    requires Agree(g) && CanMove(g, ms) && AllCreated(g, ms)
    ensures Agree(After(g, ms))
    decreases |ms|
  {
    hide Agree, MayMove, Moved, FailsCreate;
    if ms != [] {
      MoveAgrees(g, ms[0]);
      RunAgrees(Moved(g, ms[0]), ms[1..]);
    }
  }

  lemma FreshMember(g: Group)
    requires g.status == Uninited && g.call == NoCall
    ensures forall i: nat :: Member(g, i, FRESH)
  {
    hide Inv;
    FreshInv();
    FreshMatches();
  }

  lemma FreshMatches()
    ensures Matches(Uninited, FRESH) && !FRESH.owner.Controller?
  {
  }

  lemma FreshAgrees(count: nat)
    ensures Agree(FreshGroup(count))
  {
    var g := FreshGroup(count);
    FreshMember(g);
    forall i: nat | i < |g.thds|
      ensures Member(g, i, g.thds[i])
    {
      assert g.thds[i] == FRESH;
    }
    hide Member;
  }

  /** In every run in which the members are driven through the group and no create fails, between
      group calls every member shows the group's status (a member of a running group may be
      waiting), and has one create more than joins exactly when the group is running or
      stopping. */
  lemma EveryRunAgrees(count: nat, ms: seq<Move>, i: nat)
    requires CanMove(FreshGroup(count), ms) && AllCreated(FreshGroup(count), ms) && i < count
    ensures var g := After(FreshGroup(count), ms);
            g.call == NoCall ==>
              && (if g.status == Running then g.thds[i].status == Running || g.thds[i].status == Waiting
                  else g.thds[i].status == g.status)
              && g.thds[i].creates - g.thds[i].joins == (if g.status == Running || g.status == Stopping then 1 else 0)
  {
    FreshAgrees(count);
    RunAgrees(FreshGroup(count), ms);
    var g := After(FreshGroup(count), ms);
    hide CanMove, After, FreshGroup, AllCreated;
    assert Member(g, i, g.thds[i]);
  }

  /** A visit of the start call keeps the agreement exactly when the create succeeds: the group
      does not look at the result. */
  lemma CreateDecides(g: Group, created: bool)
    requires Agree(g) && g.call.Starting? && MayVisit(g)
    ensures Agree(Moved(g, Visit(created))) <==> created
  {
    hide Inv, Next;
    var k := Progress(g.call);
    if created {
      MoveAgrees(g, Visit(true));
    } else {
      assert Member(g, k, g.thds[k]);
      NotCreated(g.thds[k]);
      var r := Moved(g, Visit(false));
      assert !Member(r, k, r.thds[k]);
    }
  }

  // ---- After a failed create

  /** Member i has no thread although the start call has visited it, and the group goes on as if
      it had; it cannot be joined any more. */
  predicate Lost(g: Group, i: nat) {
    && i < |g.thds| && g.thds[i].worker == Absent
    && var s := g.thds[i].status;
       match g.call
       case Starting(done) => g.status == Ready && i < done && s == Ready
       case NoCall => (g.status == Running && s == Ready) || (g.status == Stopping && s == Stopping)
       case StoppingAll(done) => g.status == Stopping && s == if i < done then Stopping else Ready
       case JoiningAll(done) => g.status == Stopping && done <= i && s == Stopping
       case SettingUp(_, _) => false
  }

  lemma LostStays(g: Group, m: Move, i: nat)
    requires Lost(g, i) && MayMove(g, m)
    ensures Lost(Moved(g, m), i)
  {
    hide Next, MayLock;
    match m
    case Begin(c) =>
    case End =>
    case Visit(_) =>
      VisitedInRange(g);
    case Work(k, l) =>
      HasWorker(g.thds[k], l);
  }

  lemma HasWorker(t: Thd, l: Label)
    requires IsWork(l) && SThread.Enabled(t, l)
    ensures t.worker != Absent
  {
  }

  lemma {:induction false} LostForever(g: Group, ms: seq<Move>, i: nat)
    requires Lost(g, i) && CanMove(g, ms)
    ensures Lost(After(g, ms), i)
    decreases |ms|
  {
    hide Lost, MayMove, Moved;
    if ms != [] {
      LostStays(g, ms[0], i);
      LostForever(Moved(g, ms[0]), ms[1..], i);
    }
  }

  lemma LostDisagrees(g: Group, i: nat)
    requires Lost(g, i)
    ensures !Agree(g)
  {
    assert !Member(g, i, g.thds[i]);
  }

  lemma FailureLoses(g: Group, m: Move)
    requires Agree(g) && MayMove(g, m) && FailsCreate(g, m)
    ensures Lost(Moved(g, m), Progress(g.call))
  {
    var k := Progress(g.call);
    assert Member(g, k, g.thds[k]);
    NotCreated(g.thds[k]);
    hide Next, MayLock;
  }

  /** Over any run, members and group still agree exactly when no create has failed: a member whose
      create failed stays without a thread, and out of step, for good. */
  lemma {:induction false} RunAgreesIff(g: Group, ms: seq<Move>)
    requires Agree(g) && CanMove(g, ms)
    ensures Agree(After(g, ms)) <==> AllCreated(g, ms)
    decreases |ms|
  {
    hide Agree, Lost, MayMove, Moved, FailsCreate;
    if ms != [] {
      var r := Moved(g, ms[0]);
      if FailsCreate(g, ms[0]) {
        FailureLoses(g, ms[0]);
        LostForever(r, ms[1..], Progress(g.call));
        LostDisagrees(After(r, ms[1..]), Progress(g.call));
      } else {
        MoveAgrees(g, ms[0]);
        RunAgreesIff(r, ms[1..]);
      }
    }
  }

  lemma AgreesIff(count: nat, ms: seq<Move>)
    requires CanMove(FreshGroup(count), ms)
    ensures Agree(After(FreshGroup(count), ms)) <==> AllCreated(FreshGroup(count), ms)
  {
    FreshAgrees(count);
    RunAgreesIff(FreshGroup(count), ms);
  }

  lemma NotCreated(t: Thd)
    requires t.owner == Nobody && t.status == Ready
    ensures Visited(Starting(0), t, false) == t
    ensures forall n :: Visited(Starting(n), t, false) == t
  {
  }

  /** After a failed create a group of one is RUNNING with a READY member, and the stop call makes
      that member STOPPING although no thread was created. */
  lemma FailedCreate() returns (ms: seq<Move>)
    ensures CanMove(FreshGroup(1), ms)
    ensures var g := After(FreshGroup(1), ms);
            g.call == NoCall && g.status == Stopping && |g.thds| == 1
            && g.thds[0] == Thd(Stopping, Nobody, Absent, false, 0, 0)
  {
    var ready := FRESH.(status := Ready);
    var stopping := FRESH.(status := Stopping);
    var g0 := Group(Uninited, NoCall, [FRESH]);
    assert FreshGroup(1) == g0;
    OneCall(g0, SettingUp(true, 0), ready, Uninited, Ready);
    OneCall(Group(Ready, NoCall, [ready]), Starting(0), ready, Ready, Running);
    OneCall(Group(Running, NoCall, [ready]), StoppingAll(0), stopping, Stopping, Stopping);
    var (a, b, c) := (Calls(SettingUp(true, 0)), Calls(Starting(0)), Calls(StoppingAll(0)));
    hide *;
    Joined(Group(Ready, NoCall, [ready]), b, c);
    Joined(g0, a, b + c);
    ms := a + (b + c);
  }

  function Calls(c: Call): seq<Move> {
    [Begin(c), Visit(false), End]
  }

  /** One group call on a group of one, with a create that fails. */
  lemma OneCall(g: Group, c: Call, u: Thd, during: Status, after: Status)
    requires |g.thds| == 1 && g.call == NoCall && c != NoCall && Progress(c) == 0 && Passes(g, c)
    requires MayVisit(g.(status := StatusAtBegin(g, c), call := c))
    requires u == Visited(c, g.thds[0], false) && during == StatusAtBegin(g, c)
    requires after == StatusAtEnd(Group(during, Advance(c), [u]))
    ensures CanMove(g, Calls(c)) && After(g, Calls(c)) == Group(after, NoCall, [u])
  {
    hide Visited, Passes, StatusAtBegin, StatusAtEnd, MayVisit;
    var g1 := Moved(g, Begin(c));
    var g2 := Moved(g1, Visit(false));
    assert g.thds[0 := u] == [u];
    assert Calls(c)[1..] == [Visit(false), End] && [Visit(false), End][1..] == [End] && [End][1..] == [];
    StillThere(c);
    assert g2 == Group(during, Advance(c), [u]);
  }

  lemma StillThere(c: Call)
    ensures c != NoCall && Progress(c) == 0 ==> Advance(c) != NoCall && Progress(Advance(c)) == 1
  {
  }

  lemma {:induction false} Joined(g: Group, a: seq<Move>, b: seq<Move>)
    requires CanMove(g, a) && CanMove(After(g, a), b)
    ensures CanMove(g, a + b) && After(g, a + b) == After(After(g, a), b)
    decreases |a|
  {
    hide Moved, MayMove;
    if a == [] {
      assert a + b == b;
    } else {
      assert (a + b)[1..] == a[1..] + b;
      Joined(Moved(g, a[0]), a[1..], b);
    }
  }
}
